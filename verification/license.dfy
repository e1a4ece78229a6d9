/**
 * The licence choice of an upload entry
 * (src/upload/components/LicenseField.tsx): which public-domain templates
 * are offered for the entry's dates and author, how the chosen ones are
 * counted in the button label and in what order they are stored. The
 * current year is a parameter.
 */
module License {
  import opened Text
  import opened Seqs
  import opened DateFields

  /** An entry of `ALL_OPTIONS` without its display texts. */
  datatype LicenseOption = LicenseOption(value: string, template: string, sort: int, note: Option<string>)

  const OldAssumedExpired := "{{PD-scan|PD-old-assumed-expired}}"
  const UaExempt := "{{PD-scan|PD-UA-exempt}}"
  const RusEmpire := "{{PD-scan|PD-RusEmpire}}"
  const PdUkraine := "{{PD-scan|PD-Ukraine}}"
  const AnonEu := "{{PD-scan|PD-anon-70-EU}}"

  /** `ALL_OPTIONS`, in the order the list shows them. */
  const AllOptions: seq<LicenseOption> := [
    LicenseOption(OldAssumedExpired, "PD-old-assumed-expired", 1, None),
    LicenseOption(UaExempt, "PD-UA-exempt", 2, None),
    LicenseOption(RusEmpire, "PD-RusEmpire", 5, None),
    LicenseOption(PdUkraine, "PD-Ukraine", 3, None),
    LicenseOption(AnonEu, "PD-anon-70-EU", 4, Some("Може використовуватись також для Західної України до 1939 року"))
  ]

  /** `THRESHOLD_120` and `THRESHOLD_70` when the current year is `year`. */
  function Threshold120(year: int): int { year - 120 }
  function Threshold70(year: int): int { year - 70 }

  /** The author field is blank, so the work counts as anonymous. */
  predicate Anonymous(author: string) {
    Trim(author) == ""
  }

  /** The filter of `getAvailableOptions` for a known end year: the first rule naming the option decides. */
  predicate AllowedFor(o: LicenseOption, endYear: int, author: string, year: int) {
    if o.value == OldAssumedExpired then endYear < Threshold120(year)
    else if o.value == RusEmpire then endYear <= 1917
    else if o.value == PdUkraine then endYear < Threshold70(year)
    else if o.value == AnonEu then endYear < Threshold70(year) && Anonymous(author)
    else true
  }

  /** The filter of `getAvailableOptions` in free-text mode: only the anonymous-work option is gated. */
  predicate AllowedOther(o: LicenseOption, author: string) {
    o.value != AnonEu || Anonymous(author)
  }

  /** `getAvailableOptions`, over any option list. */
  function Available(opts: seq<LicenseOption>, endYear: Option<int>, mode: DateMode, author: string, year: int)
    : (r: seq<LicenseOption>)
    ensures Subsequence(r, opts)
    ensures mode == Other ==> forall o :: o in r <==> o in opts && AllowedOther(o, author)
    ensures mode != Other && endYear.None? ==> r == []
    ensures mode != Other && endYear.Some? ==>
      forall o :: o in r <==> o in opts && AllowedFor(o, endYear.value, author, year)
  {
    if mode == Other then
      var keep := o => AllowedOther(o, author);
      SelectSubsequence(opts, keep);
      Select(opts, keep)
    else if endYear.None? then []
    else
      var keep := o => AllowedFor(o, endYear.value, author, year);
      SelectSubsequence(opts, keep);
      Select(opts, keep)
  }

  /** `getAvailableOptions`: the options offered for the entry's end year, date mode and author. */
  function GetAvailableOptions(endYear: Option<int>, mode: DateMode, author: string, year: int): seq<LicenseOption> {
    Available(AllOptions, endYear, mode, author, year)
  }

  /**
   * The rules one by one, for a known end year: the assumed-expired option
   * needs an end year before `year - 120`, the Russian Empire one 1917 or
   * earlier, the Ukrainian one before `year - 70`, the anonymous EU one the
   * same and a blank author; every other option is always offered.
   */
  lemma AvailabilityRules(opts: seq<LicenseOption>, e: int, mode: DateMode, author: string, year: int, o: LicenseOption)
    requires mode != Other && o in opts
    ensures o in Available(opts, Some(e), mode, author, year) <==>
      && (o.value == OldAssumedExpired ==> e < year - 120)
      && (o.value == RusEmpire ==> e <= 1917)
      && (o.value == PdUkraine ==> e < year - 70)
      && (o.value == AnonEu ==> e < year - 70 && Anonymous(author))
  {
    OptionValuesDistinct();
  }

  /** The five option values differ from each other. */
  lemma OptionValuesDistinct()
    ensures OldAssumedExpired != RusEmpire && OldAssumedExpired != PdUkraine && OldAssumedExpired != AnonEu
    ensures RusEmpire != PdUkraine && RusEmpire != AnonEu && PdUkraine != AnonEu
    ensures UaExempt !in {OldAssumedExpired, RusEmpire, PdUkraine, AnonEu}
  {
    assert OldAssumedExpired[13] == 'o' && RusEmpire[13] == 'R' && PdUkraine[13] == 'U';
    assert AnonEu[13] == 'a' && UaExempt[13] == 'U' && UaExempt[14] == 'A' && PdUkraine[14] == 'k';
  }

  /** In free-text mode with a blank author every option is offered, in the list's order. */
  lemma OtherModeAnonymousAll(opts: seq<LicenseOption>, author: string, year: int, endYear: Option<int>)
    requires Anonymous(author)
    ensures Available(opts, endYear, Other, author, year) == opts
  {
    SelectAll(opts, o => AllowedOther(o, author));
  }

  /** The official-documents option is offered whenever the dates allow any option at all. */
  lemma UaExemptAlwaysOffered(endYear: Option<int>, mode: DateMode, author: string, year: int)
    requires mode == Other || endYear.Some?
    ensures AllOptions[1] in GetAvailableOptions(endYear, mode, author, year)
  {
    OptionValuesDistinct();
    assert AllOptions[1] in AllOptions;
  }

  /** A later end year never brings an option in: what it offers is a subsequence of what an earlier one does. */
  lemma LaterYearOffersLess(opts: seq<LicenseOption>, early: int, late: int, mode: DateMode, author: string, year: int)
    requires early <= late
    ensures Subsequence(Available(opts, Some(late), mode, author, year), Available(opts, Some(early), mode, author, year))
  {
    if mode == Other {
      SubsequenceRefl(Available(opts, Some(late), mode, author, year));
    } else {
      SelectMonotone(opts, o => AllowedFor(o, late, author, year), o => AllowedFor(o, early, author, year));
    }
  }

  /** `licenseCountLabel`: the accusative of "ліцензія" the button shows after the count. */
  function LicenseCountLabel(count: int): (r: string)
    ensures r == "ліцензію" <==> count == 1
    ensures r == "ліцензії" <==> 2 <= count <= 4
    ensures r == "ліцензій" <==> count != 1 && !(2 <= count <= 4)
  {
    if count == 1 then "ліцензію"
    else if 2 <= count <= 4 then "ліцензії"
    else "ліцензій"
  }

  /**
   * The Ukrainian rule for a noun after a numeral: the singular after a
   * number ending in 1 (but not 11), the paucal after one ending in 2 to 4
   * (but not 12 to 14), the genitive plural otherwise.
   */
  function UkrainianPlural(n: nat, one: string, few: string, many: string): string {
    if n % 10 == 1 && n % 100 != 11 then one
    else if 2 <= n % 10 <= 4 && !(12 <= n % 100 <= 14) then few
    else many
  }

  /**
   * The label agrees with the grammatical rule for every count up to
   * twenty, far above the five options there are to choose.
   */
  lemma CountLabelGrammatical(n: nat)
    requires n <= 20
    ensures LicenseCountLabel(n) == UkrainianPlural(n, "ліцензію", "ліцензії", "ліцензій")
  {
  }

  /**
   * The sort key `sortByOptionOrder` gives a value: that of the first option
   * with it, or 0. The source's `Map` keeps the last option with a value
   * instead; the two agree because the option values are distinct
   * (`OptionValuesDistinct`, `OptionKeys`).
   */
  function SortKeyIn(opts: seq<LicenseOption>, v: string): (k: int)
    ensures (exists i :: 0 <= i < |opts| && opts[i].value == v) || k == 0
    ensures forall i :: 0 <= i < |opts| && opts[i].value == v && (forall j :: 0 <= j < i ==> opts[j].value != v) ==>
      k == opts[i].sort
  {
    if opts == [] then 0
    else if opts[0].value == v then opts[0].sort
    else
      var k := SortKeyIn(opts[1..], v);
      assert forall i :: 1 <= i < |opts| ==> opts[i] == opts[1..][i - 1];
      k
  }

  function SortKey(v: string): int {
    SortKeyIn(AllOptions, v)
  }

  /** No two options of `opts` share a value. */
  predicate DistinctValues(opts: seq<LicenseOption>) {
    forall i, j :: 0 <= i < j < |opts| ==> opts[i].value != opts[j].value
  }

  /** In a list without repeated values, each option's value has that option's key. */
  lemma {:induction false} KeyOfListed(opts: seq<LicenseOption>, i: nat)
    requires DistinctValues(opts) && i < |opts|
    ensures SortKeyIn(opts, opts[i].value) == opts[i].sort
  {
    if i > 0 {
      assert opts[0].value != opts[i].value;
      assert opts[1..][i - 1] == opts[i];
      KeyOfListed(opts[1..], i - 1);
    }
  }

  /** The key of every option in the list is its own `sort`. */
  lemma OptionKeys(i: nat)
    requires i < |AllOptions|
    ensures SortKey(AllOptions[i].value) == AllOptions[i].sort
  {
    OptionValuesDistinct();
    assert DistinctValues(AllOptions);
    KeyOfListed(AllOptions, i);
  }

  predicate SortedByKey(s: seq<string>, key: string -> int) {
    forall i, j :: 0 <= i < j < |s| ==> key(s[i]) <= key(s[j])
  }

  /** The elements of `s` whose key is `k`, in their order in `s`. */
  function KeyRun(s: seq<string>, key: string -> int, k: int): seq<string> {
    Select(s, x => key(x) == k)
  }

  /**
   * Inserts `v` before the first element whose key is not smaller, so that
   * `v` comes first among the elements with its key.
   */
  function InsertByKey(v: string, s: seq<string>, key: string -> int): (r: seq<string>)
    requires SortedByKey(s, key)
    ensures SortedByKey(r, key)
    ensures multiset(r) == multiset(s) + multiset{v}
  {
    if s == [] then [v]
    else if key(v) <= key(s[0]) then [v] + s
    else
      var t := InsertByKey(v, s[1..], key);
      assert s == [s[0]] + s[1..];
      HeadKeyLeast(v, s, key, t);
      [s[0]] + t
  }

  /** What is inserted behind the head of a sorted list has a key no smaller than the head's. */
  lemma HeadKeyLeast(v: string, s: seq<string>, key: string -> int, t: seq<string>)
    requires SortedByKey(s, key) && s != [] && key(s[0]) <= key(v)
    requires multiset(t) == multiset(s[1..]) + multiset{v}
    ensures forall j :: 0 <= j < |t| ==> key(s[0]) <= key(t[j])
  {
    forall j | 0 <= j < |t| ensures key(s[0]) <= key(t[j]) {
      assert t[j] in multiset(t);
      if t[j] != v {
        assert t[j] in multiset(s[1..]);
        var k :| 0 <= k < |s[1..]| && s[1..][k] == t[j];
        assert s[k + 1] == t[j];
      }
    }
  }

  /** Inserting `v` puts it in front of the elements sharing its key and moves nothing else among equal keys. */
  lemma {:induction false} InsertByKeyStable(v: string, s: seq<string>, key: string -> int, k: int)
    requires SortedByKey(s, key)
    ensures KeyRun(InsertByKey(v, s, key), key, k) == KeyRun([v] + s, key, k)
  {
    if s != [] && key(v) > key(s[0]) {
      var t := InsertByKey(v, s[1..], key);
      InsertByKeyStable(v, s[1..], key, k);
      assert InsertByKey(v, s, key) == [s[0]] + t;
      InsertStep(v, s, t, key, k);
    }
  }

  /** One step of the insertion: passing a head with another key keeps every key's run. */
  lemma InsertStep(v: string, s: seq<string>, t: seq<string>, key: string -> int, k: int)
    requires s != [] && key(v) != key(s[0]) && KeyRun(t, key, k) == KeyRun([v] + s[1..], key, k)
    ensures KeyRun([s[0]] + t, key, k) == KeyRun([v] + s, key, k)
  {
    KeyRunAppend([s[0]], t, key, k);
    KeyRunAppend([s[0]], [v] + s[1..], key, k);
    KeyRunSwap(s[0], v, s[1..], key, k);
    ConsHeadTail(v, s);
  }

  lemma KeyRunAppend(a: seq<string>, b: seq<string>, key: string -> int, k: int)
    ensures KeyRun(a + b, key, k) == KeyRun(a, key, k) + KeyRun(b, key, k)
  {
    SelectAppend(a, b, x => key(x) == k);
  }

  /** Two neighbours with different keys can change places without changing any key's run. */
  lemma KeyRunSwap(x: string, y: string, rest: seq<string>, key: string -> int, k: int)
    requires key(x) != key(y)
    ensures KeyRun([x] + ([y] + rest), key, k) == KeyRun([y] + ([x] + rest), key, k)
  {
    KeyRunAppend([x], [y] + rest, key, k);
    KeyRunAppend([y], rest, key, k);
    KeyRunAppend([y], [x] + rest, key, k);
    KeyRunAppend([x], rest, key, k);
    KeyRunOne(x, key, k);
    KeyRunOne(y, key, k);
  }

  lemma KeyRunOne(x: string, key: string -> int, k: int)
    ensures KeyRun([x], key, k) == if key(x) == k then [x] else []
  {
    assert [x][1..] == [];
  }

  /** An insertion sort of `vals` by `key`. */
  function SortByKey(vals: seq<string>, key: string -> int): (r: seq<string>)
    ensures SortedByKey(r, key)
    ensures multiset(r) == multiset(vals)
  {
    if vals == [] then []
    else
      assert vals == [vals[0]] + vals[1..];
      InsertByKey(vals[0], SortByKey(vals[1..], key), key)
  }

  /** The sort is stable: the elements sharing a key keep their relative order. */
  lemma {:induction false} SortByKeyStable(vals: seq<string>, key: string -> int, k: int)
    ensures KeyRun(SortByKey(vals, key), key, k) == KeyRun(vals, key, k)
  {
    if vals != [] {
      var t := SortByKey(vals[1..], key);
      SortByKeyStable(vals[1..], key, k);
      InsertByKeyStable(vals[0], t, key, k);
      KeyRunAppend([vals[0]], t, key, k);
      KeyRunAppend([vals[0]], vals[1..], key, k);
      assert [vals[0]] + vals[1..] == vals;
    }
  }

  /** `sortByOptionOrder`: the chosen values reordered by their option's `sort`, unknown values first. */
  function SortByOptionOrder(vals: seq<string>): (r: seq<string>)
    ensures multiset(r) == multiset(vals)
    ensures forall i, j :: 0 <= i < j < |r| ==> SortKey(r[i]) <= SortKey(r[j])
  {
    SortByKey(vals, SortKey)
  }

  /**
   * Like `Array.prototype.sort`, the reordering is stable: values with the
   * same key (unknown values, repeated values) stay in the order chosen.
   */
  lemma SortByOptionOrderStable(vals: seq<string>, k: int)
    ensures KeyRun(SortByOptionOrder(vals), SortKey, k) == KeyRun(vals, SortKey, k)
  {
    SortByKeyStable(vals, SortKey, k);
  }

  /** Values that share one key, unknown ones in particular, are left in the order chosen. */
  lemma SameKeyKeepsOrder(vals: seq<string>, k: int)
    requires forall v :: v in vals ==> SortKey(v) == k
    ensures SortByOptionOrder(vals) == vals
  {
    var r := SortByOptionOrder(vals);
    SortByOptionOrderStable(vals, k);
    KeyRunAll(vals, SortKey, k);
    forall v | v in r ensures SortKey(v) == k {
      assert v in multiset(r);
    }
    KeyRunAll(r, SortKey, k);
  }

  lemma KeyRunAll(s: seq<string>, key: string -> int, k: int)
    requires forall x :: x in s ==> key(x) == k
    ensures KeyRun(s, key, k) == s
  {
    SelectAll(s, x => key(x) == k);
  }
}
