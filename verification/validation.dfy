/**
 * The checks the upload form makes before an entry may be sent
 * (src/upload/validation.ts): required fields, the dates against the
 * current year, the licence once a date is given, and the public file
 * name's check state. The current year is a parameter.
 */
module Validation {
  import opened Text
  import opened DateFields
  import opened Entry
  import opened FileName

  const Required := "Поле обов'язкове"
  const DateNotNumber := "Дата має бути числом"
  const DatesRequired := "Поля обов'язкові"
  const FromRequired := "Поле 'Початкова' обов'язкове"
  const ToRequired := "Поле 'Кінцева' обов'язкове"
  const DatesNotNumbers := "Дати мають бути числами"
  const EndBeforeStart := "Кінцева дата має бути не меншою за початкову"
  const InvalidCharsMessage := "Назва файлу не може містити символи: \":\", \"/\" або \"\\\""
  const TooShortMessage := "Назва файлу надто коротка (мінімум 5 символів)"
  const TooLongMessage := "Назва файлу надто довга. Розмір не повинен перевищувати 235 байтів"
  const BlacklistedMessage := "Назва файлу не дозволена на Вікісховищі"
  const TakenMessage := "Файл з такою назвою вже існує на Вікісховищі"

  function DateTooLate(year: int): string {
    "Дата не може перевищувати " + IntToString(year)
  }

  function EndTooLate(year: int): string {
    "Кінцева дата не може перевищувати " + IntToString(year)
  }

  /** `INTEGER_RE`, `^\d+$`: one or more decimal digits and nothing else. */
  predicate IsInteger(s: string) {
    s != "" && AllDigits(s)
  }

  /** A trimmed date that is a whole number no later than `year`. */
  predicate YearAtMost(s: string, year: int) {
    IsInteger(s) && DecimalValue(s) <= year
  }

  /**
   * `getDateError`: free text only has to be there; a single year has to be
   * a number no later than the current year; a range needs both ends,
   * numbers, the end no later than the current year and not before the
   * start. The first failing rule gives the message.
   */
  function DateError(state: DateState, year: int): (r: Option<string>)
    ensures state.dateMode == Other ==> (r.None? <==> Trim(state.dateFrom) != "")
    ensures state.dateMode == Single ==> (r.None? <==> YearAtMost(Trim(state.dateFrom), year))
    ensures state.dateMode == Range ==>
      (r.None? <==>
        && YearAtMost(Trim(state.dateTo), year) && IsInteger(Trim(state.dateFrom))
        && DecimalValue(Trim(state.dateFrom)) <= DecimalValue(Trim(state.dateTo)))
    ensures state.dateMode != Range ==> (r == Some(Required) <==> Trim(state.dateFrom) == "")
    ensures var from := Trim(state.dateFrom);
      state.dateMode == Single ==>
        && (r == Some(DateNotNumber) <==> from != "" && !AllDigits(from))
        && (r == Some(DateTooLate(year)) <==> IsInteger(from) && DecimalValue(from) > year)
    ensures var from, to := Trim(state.dateFrom), Trim(state.dateTo);
      state.dateMode == Range ==>
        && (r == Some(DatesRequired) <==> from == "" && to == "")
        && (r == Some(FromRequired) <==> from == "" && to != "")
        && (r == Some(ToRequired) <==> from != "" && to == "")
        && (r == Some(DatesNotNumbers) <==> from != "" && to != "" && (!AllDigits(from) || !AllDigits(to)))
        && (r == Some(EndTooLate(year)) <==> IsInteger(from) && IsInteger(to) && DecimalValue(to) > year)
        && (r == Some(EndBeforeStart) <==>
              IsInteger(from) && YearAtMost(to, year) && DecimalValue(to) < DecimalValue(from))
  {
    var from := Trim(state.dateFrom);
    var to := Trim(state.dateTo);
    DateMessagesDistinct(year);
    match state.dateMode
    case Other => if from != "" then None else Some(Required)
    case Single =>
      if from == "" then Some(Required)
      else if !AllDigits(from) then Some(DateNotNumber)
      else if DecimalValue(from) > year then Some(DateTooLate(year))
      else None
    case Range =>
      if from == "" && to == "" then Some(DatesRequired)
      else if from == "" then Some(FromRequired)
      else if to == "" then Some(ToRequired)
      else if !AllDigits(from) || !AllDigits(to) then Some(DatesNotNumbers)
      else if DecimalValue(to) > year then Some(EndTooLate(year))
      else if DecimalValue(to) < DecimalValue(from) then Some(EndBeforeStart)
      else None
  }

  /** The messages one date mode can give differ from each other. */
  lemma DateMessagesDistinct(year: int)
    ensures Required != DateNotNumber && Required != DateTooLate(year) && DateNotNumber != DateTooLate(year)
    ensures DatesRequired != FromRequired && DatesRequired != ToRequired && FromRequired != ToRequired
    ensures |EndTooLate(year)| > 28 && EndTooLate(year) != EndBeforeStart
  {
    var t := "Кінцева дата не може перевищувати ";
    assert EndTooLate(year)[13] == t[13];
    assert t[13] != EndBeforeStart[13];
  }

  /** A date without an error is never blank: in every mode the first field is filled in. */
  lemma AcceptedDateHasValue(state: DateState, year: int)
    requires DateError(state, year).None?
    ensures Trim(state.dateFrom) != ""
    ensures state.dateMode == Range ==> Trim(state.dateTo) != ""
  {
  }

  /** Whether a name check that came back from Commons refused the name. */
  predicate Refused(check: FileNameCheck) {
    check.CheckDone? && (check.blacklisted == Some(true) || check.fileExists == Some(true))
  }

  /**
   * `getFileNameError`: nothing while the name is disabled; otherwise a
   * blank name once submitted, then the stored check state's complaint.
   */
  function FileNameError(e: FileEntry): (r: Option<string>)
    ensures r.None? <==>
      || !IsFileNameEnabled(e)
      || (&& !(e.submitted && Trim(GetEffectiveFileName(e)) == "")
          && e.fileNameCheck !in {InvalidChars, TooShort, TooLong}
          && !Refused(e.fileNameCheck))
    ensures var shown := IsFileNameEnabled(e) && !(e.submitted && Trim(GetEffectiveFileName(e)) == "");
      && (r == Some(Required) <==> IsFileNameEnabled(e) && e.submitted && Trim(GetEffectiveFileName(e)) == "")
      && (r == Some(InvalidCharsMessage) <==> shown && e.fileNameCheck == InvalidChars)
      && (r == Some(TooShortMessage) <==> shown && e.fileNameCheck == TooShort)
      && (r == Some(TooLongMessage) <==> shown && e.fileNameCheck == TooLong)
      && (r == Some(BlacklistedMessage) <==>
            shown && e.fileNameCheck.CheckDone? && e.fileNameCheck.blacklisted == Some(true))
      && (r == Some(TakenMessage) <==>
            && shown && e.fileNameCheck.CheckDone? && e.fileNameCheck.blacklisted != Some(true)
            && e.fileNameCheck.fileExists == Some(true))
  {
    FileNameMessagesDistinct();
    if !IsFileNameEnabled(e) then None
    else if e.submitted && Trim(GetEffectiveFileName(e)) == "" then Some(Required)
    else if e.fileNameCheck == InvalidChars then Some(InvalidCharsMessage)
    else if e.fileNameCheck == TooShort then Some(TooShortMessage)
    else if e.fileNameCheck == TooLong then Some(TooLongMessage)
    else if e.fileNameCheck.CheckDone? && e.fileNameCheck.blacklisted == Some(true) then Some(BlacklistedMessage)
    else if e.fileNameCheck.CheckDone? && e.fileNameCheck.fileExists == Some(true) then Some(TakenMessage)
    else None
  }

  /** The six messages of the file-name field differ from each other (they differ in length). */
  lemma FileNameMessagesDistinct()
    ensures |Required| == 16 && |InvalidCharsMessage| == 53 && |TooShortMessage| == 46
    ensures |TooLongMessage| == 66 && |BlacklistedMessage| == 39 && |TakenMessage| == 44
  {
  }

  /**
   * When the stored check state is the one the local checks settle on, the
   * name has an error exactly when a local check failed, or when the form
   * was submitted with a blank name.
   */
  lemma SettledCheckError(e: FileEntry)
    requires ClassifyFileName(e).Settled? && e.fileNameCheck == ClassifyFileName(e).status
    ensures FileNameError(e).None? <==> ClassifyFileName(e) == Settled(CheckIdle) && !(e.submitted && IsFileNameEnabled(e))
  {
  }

  /**
   * With the stored check state the one the local checks settle on, the
   * message shown is that of the first local check to fail: forbidden
   * characters, then a short stem, then too many bytes.
   */
  lemma FirstLocalFailureShown(e: FileEntry)
    requires ClassifyFileName(e).Settled? && e.fileNameCheck == ClassifyFileName(e).status
    ensures var name := GetEffectiveFileName(e);
      var checked := IsFileNameEnabled(e) && Trim(name) != "";
      && (FileNameError(e) == Some(InvalidCharsMessage) <==> checked && HasForbidden(name))
      && (FileNameError(e) == Some(TooShortMessage) <==>
            checked && !HasForbidden(name) && |FileNameStem(name)| < FileNameMinChars)
      && (FileNameError(e) == Some(TooLongMessage) <==>
            && checked && !HasForbidden(name) && |FileNameStem(name)| >= FileNameMinChars
            && Utf8Length(name) > FileNameMaxBytes)
  {
  }

  datatype EntryErrors = EntryErrors(
    archive: Option<string>,
    fond: Option<string>,
    opys: Option<string>,
    sprava: Option<string>,
    fondName: Option<string>,
    spravaName: Option<string>,
    dates: Option<string>,
    license: Option<string>,
    fileName: Option<string>)

  /** `Object.values(errors).every((e) => e === null)`. */
  predicate NoErrors(r: EntryErrors) {
    r.archive.None? && r.fond.None? && r.opys.None? && r.sprava.None? && r.fondName.None?
    && r.spravaName.None? && r.dates.None? && r.license.None? && r.fileName.None?
  }

  /** `req`: the required-field message when `missing`. */
  function Req(missing: bool): (r: Option<string>)
    ensures r.Some? <==> missing
    ensures r.Some? ==> r.value == Required
  {
    if missing then Some(Required) else None
  }

  /** An error that, when there is one, is the required-field message. */
  predicate OnlyRequired(m: Option<string>) {
    m.Some? ==> m.value == Required
  }

  /** Whether either date field holds more than whitespace. */
  predicate DatesHaveValue(e: FileEntry) {
    Trim(e.dateFrom) != "" || Trim(e.dateTo) != ""
  }

  /**
   * `getEntryErrors`: before the first submit only the file name can
   * complain; afterwards every empty required field does, the dates do
   * when wrong, and the licence does when a date is given but no licence.
   */
  function GetEntryErrors(e: FileEntry, year: int): (r: EntryErrors)
    ensures r.fileName == FileNameError(e)
    ensures r.archive.Some? <==> e.submitted && e.archive.None?
    ensures r.fond.Some? <==> e.submitted && Trim(e.fond) == ""
    ensures r.opys.Some? <==> e.submitted && Trim(e.opys) == ""
    ensures r.sprava.Some? <==> e.submitted && Trim(e.sprava) == ""
    ensures r.fondName.Some? <==> e.submitted && IsFondNameEnabled(e) && Trim(e.fondName.value) == ""
    ensures r.spravaName.Some? <==> e.submitted && Trim(e.spravaName) == ""
    ensures r.dates.Some? <==> e.submitted && DateError(Dates(e), year).Some?
    ensures r.license.Some? <==> e.submitted && DatesHaveValue(e) && e.license == []
    ensures r.dates == (if e.submitted then DateError(Dates(e), year) else None)
    ensures OnlyRequired(r.archive) && OnlyRequired(r.fond) && OnlyRequired(r.opys) && OnlyRequired(r.sprava)
    ensures OnlyRequired(r.fondName) && OnlyRequired(r.spravaName) && OnlyRequired(r.license)
  {
    EntryErrors(
      Req(e.submitted && e.archive.None?),
      Req(e.submitted && Trim(e.fond) == ""),
      Req(e.submitted && Trim(e.opys) == ""),
      Req(e.submitted && Trim(e.sprava) == ""),
      Req(e.submitted && IsFondNameEnabled(e) && Trim(e.fondName.value) == ""),
      Req(e.submitted && Trim(e.spravaName) == ""),
      if e.submitted then DateError(Dates(e), year) else None,
      Req(e.submitted && DatesHaveValue(e) && |e.license| == 0),
      FileNameError(e))
  }

  /** `isEntryValid`: the entry has no error once it counts as submitted. */
  predicate IsEntryValid(e: FileEntry, year: int) {
    NoErrors(GetEntryErrors(e.(submitted := true), year))
  }

  /**
   * What a valid entry has: an archive, a fond, opys, sprava and sprava
   * name, a typed fond name where one is asked for, an accepted date, at
   * least one licence (an accepted date is never blank), and a file name
   * without complaint.
   */
  lemma EntryValidIff(e: FileEntry, year: int)
    ensures IsEntryValid(e, year) <==>
      && e.archive.Some? && Trim(e.fond) != "" && Trim(e.opys) != "" && Trim(e.sprava) != ""
      && Trim(e.spravaName) != ""
      && !(IsFondNameEnabled(e) && Trim(e.fondName.value) == "")
      && DateError(Dates(e), year).None?
      && |e.license| > 0
      && FileNameError(e.(submitted := true)).None?
  {
    var s := e.(submitted := true);
    assert Dates(s) == Dates(e) && IsFondNameEnabled(s) == IsFondNameEnabled(e);
    if DateError(Dates(e), year).None? {
      AcceptedDateHasValue(Dates(e), year);
      assert DatesHaveValue(s);
    }
  }

  /** A new entry shows no error, yet is not valid: nothing has been filled in. */
  lemma FreshEntryQuiet(file: FileInfo, year: int)
    ensures NoErrors(GetEntryErrors(MakeEntry(file), year))
    ensures !IsEntryValid(MakeEntry(file), year)
  {
    EntryValidIff(MakeEntry(file), year);
  }
}
