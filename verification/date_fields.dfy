/**
 * The date inputs of an upload entry (src/upload/components/DateFields.tsx):
 * a mode (one year, a range of years, or free text) and two strings, the end
 * year read from them, and what switching modes does to them.
 */
module DateFields {
  import opened Text

  datatype DateMode = Single | Range | Other

  datatype DateState = DateState(dateMode: DateMode, dateFrom: string, dateTo: string)

  /** `\d{4}` matches at index `i`. */
  predicate FourDigitsAt(s: string, i: nat) {
    i + 4 <= |s| && AllDigits(s[i..i + 4])
  }

  /** The leftmost match of `\d{4}` at or after `from`. */
  function FirstFourDigits(s: string, from: nat): (r: Option<nat>)
    ensures r.Some? ==> from <= r.value && FourDigitsAt(s, r.value)
    ensures r.Some? ==> forall j: nat :: from <= j < r.value ==> !FourDigitsAt(s, j)
    ensures r.None? ==> forall j: nat :: from <= j ==> !FourDigitsAt(s, j)
    decreases |s| - from
  {
    if from + 4 > |s| then None
    else if AllDigits(s[from..from + 4]) then Some(from)
    else FirstFourDigits(s, from + 1)
  }

  /** The string the end year is read from: the only date in single mode, the second otherwise. */
  function EndString(state: DateState): string {
    if state.dateMode == Single then state.dateFrom else state.dateTo
  }

  /**
   * `getEndYear`: the value of the first run of four digits in the end
   * string (`12345` gives 1234), or nothing when there is none.
   */
  function GetEndYear(state: DateState): (r: Option<nat>)
    ensures r.None? <==> forall j: nat :: !FourDigitsAt(EndString(state), j)
    ensures r.Some? ==> r.value < 10000
    ensures r.Some? ==>
      exists j: nat :: (FourDigitsAt(EndString(state), j)
        && r.value == DecimalValue(EndString(state)[j..j + 4])
        && forall k: nat :: k < j ==> !FourDigitsAt(EndString(state), k))
  {
    var s := EndString(state);
    match FirstFourDigits(s, 0)
    case None => None
    case Some(i) =>
      DecimalValueBound(s[i..i + 4]);
      assert Pow10(4) == 10000;
      Some(DecimalValue(s[i..i + 4]))
  }

  /** `handleModeChange`: the new mode, with both dates cleared. */
  function ModeChange(state: DateState, mode: DateMode): (r: DateState)
    ensures r.dateMode == mode && r.dateFrom == "" && r.dateTo == ""
  {
    DateState(mode, "", "")
  }

  /** After a mode switch there is no end year, whatever was typed before. */
  lemma ModeChangeClearsEndYear(state: DateState, mode: DateMode)
    ensures GetEndYear(ModeChange(state, mode)) == None
  {
  }
}
