/**
 * The public file name an upload is given on Wikimedia Commons
 * (src/upload/hooks/usePublicFileName.ts): derived from the archival
 * reference and the sprava's name unless the user edited it, and checked
 * locally for forbidden characters and length before Commons is asked.
 */
module FileName {
  import opened Text
  import opened Archives
  import opened Entry

  const FileNameMinChars: nat := 5
  const FileNameMaxBytes: nat := 235

  /** The UTF-8 length of one character, by its code point. */
  function Utf8Width(c: char): nat {
    if c as int < 0x80 then 1
    else if c as int < 0x800 then 2
    else if c as int < 0x10000 then 3
    else 4
  }

  /** `getFileNameByteLength`: the length of the name in UTF-8. */
  function Utf8Length(s: string): (r: nat)
    ensures |s| <= r <= 4 * |s|
    ensures (forall i :: 0 <= i < |s| ==> s[i] as int < 0x80) ==> r == |s|
  {
    if s == [] then 0 else Utf8Width(s[0]) + Utf8Length(s[1..])
  }

  /** `lastIndexOf` for one character. */
  function LastIndexOfChar(s: string, c: char): (r: Option<nat>)
    ensures r.Some? ==> r.value < |s| && s[r.value] == c && c !in s[r.value + 1..]
    ensures r.None? <==> c !in s
  {
    if s == [] then None
    else if s[|s| - 1] == c then Some(|s| - 1)
    else
      var r := LastIndexOfChar(s[..|s| - 1], c);
      assert s == s[..|s| - 1] + [s[|s| - 1]];
      r
  }

  /**
   * `getFileNameStem`: the name without the text from its last dot, unless
   * that dot is the first character (or there is none).
   */
  function FileNameStem(name: string): (r: string)
    ensures |r| <= |name| && r == name[..|r|]
    ensures r != name <==> |name| > 1 && '.' in name[1..]
    ensures r != name ==> 0 < |r| && name[|r|] == '.' && '.' !in name[|r| + 1..]
  {
    match LastIndexOfChar(name, '.')
    case Some(dot) =>
      if dot > 0 then
        assert name[dot] in name[1..] by { assert name[1..][dot - 1] == name[dot]; }
        name[..dot]
      else
        assert name[1..] == name[dot + 1..];
        name
    case None =>
      assert |name| > 1 ==> forall i :: 0 <= i < |name[1..]| ==> name[1..][i] == name[i + 1];
      name
  }

  /** `name.split(".").pop()`: the text after the last dot, or the whole name when there is none. */
  function Extension(name: string): (r: string)
    ensures '.' !in r && EndsWith(name, r)
    ensures r == name || (|r| < |name| && name[|name| - |r| - 1] == '.')
  {
    match LastIndexOfChar(name, '.')
    case Some(dot) => name[dot + 1..]
    case None => name
  }

  /** The characters `buildAutoFileName` and `hasInvalidFileNameChars` treat as forbidden. */
  predicate Forbidden(c: char) {
    c == ':' || c == '/' || c == '\\'
  }

  predicate HasForbidden(s: string) {
    exists i :: 0 <= i < |s| && Forbidden(s[i])
  }

  /** Whether the reference fields the automatic name needs are all filled in (as JavaScript truthiness). */
  predicate HasReference(e: FileEntry) {
    e.archive.Some? && e.fond != "" && e.opys != "" && e.sprava != ""
  }

  /** The fixed head of the automatic name: `<abbr> <fond without hyphens>-<opys>-<sprava>. `. */
  function AutoPrefix(e: FileEntry): string
    requires e.archive.Some?
  {
    e.archive.value.abbr + " " + Filter(e.fond, c => c != '-') + "-" + e.opys + "-" + e.sprava + ". "
  }

  /** The fixed tail of the automatic name: a dot and the uploaded file's extension. */
  function AutoSuffix(e: FileEntry): string {
    "." + Extension(e.file.name)
  }

  /**
   * The sprava's name cut to what is left of 75 characters after the fixed
   * parts (`slice(0, Math.max(0, maxNameLen))`).
   */
  function AutoTitle(e: FileEntry): (r: string)
    requires e.archive.Some?
    ensures var title, room := Trim(e.spravaName), 75 - |AutoPrefix(e)| - |AutoSuffix(e)|;
      && |r| <= |title| && r == title[..|r|]
      && |r| == (if room <= 0 then 0 else if room < |title| then room else |title|)
  {
    Cut(Trim(e.spravaName), 75 - |AutoPrefix(e)| - |AutoSuffix(e)|)
  }

  /** `s.slice(0, Math.max(0, n))`: the first `n` characters of `s`, or all of them, or none. */
  function Cut(s: string, n: int): (r: string)
    ensures |r| <= |s| && r == s[..|r|]
    ensures |r| == (if n <= 0 then 0 else if n < |s| then n else |s|)
  {
    var keep := if n < 0 then 0 else n;
    if keep >= |s| then s else s[..keep]
  }

  /**
   * `buildAutoFileName`: empty without a full reference; otherwise the
   * prefix, the cut name and the suffix, with `:`, `/` and `\` removed.
   */
  function BuildAutoFileName(e: FileEntry): (r: string)
    ensures !HasReference(e) ==> r == ""
    ensures !HasForbidden(r)
    ensures HasReference(e) ==> |r| <= |AutoPrefix(e) + AutoTitle(e) + AutoSuffix(e)|
    ensures HasReference(e) && !HasForbidden(AutoPrefix(e) + AutoTitle(e) + AutoSuffix(e)) ==>
      r == AutoPrefix(e) + AutoTitle(e) + AutoSuffix(e)
  {
    if !HasReference(e) then ""
    else
      var raw := AutoPrefix(e) + AutoTitle(e) + AutoSuffix(e);
      if HasForbidden(raw) then Filter(raw, c => !Forbidden(c))
      else NothingForbiddenKept(raw); Filter(raw, c => !Forbidden(c))
  }

  /** Removing forbidden characters from a name without any leaves it as it is. */
  lemma NothingForbiddenKept(s: string)
    requires !HasForbidden(s)
    ensures Filter(s, c => !Forbidden(c)) == s
  {
    forall c | c in s ensures !Forbidden(c) {
      var i :| 0 <= i < |s| && s[i] == c;
    }
    FilterKeepsAll(s, c => !Forbidden(c));
  }

  /**
   * The automatic name is the prefix, the cut title and the suffix, each
   * with its forbidden characters removed.
   */
  lemma AutoNameParts(e: FileEntry)
    requires HasReference(e)
    ensures BuildAutoFileName(e)
      == Filter(AutoPrefix(e), c => !Forbidden(c)) + Filter(AutoTitle(e), c => !Forbidden(c))
         + Filter(AutoSuffix(e), c => !Forbidden(c))
  {
    var p, t, s := AutoPrefix(e), AutoTitle(e), AutoSuffix(e);
    FilterAppend(p + t, s, c => !Forbidden(c));
    FilterAppend(p, t, c => !Forbidden(c));
  }

  /** The automatic name is at most 75 characters long whenever its fixed parts leave room. */
  lemma AutoNameLength(e: FileEntry)
    requires HasReference(e)
    requires |AutoPrefix(e)| + |AutoSuffix(e)| <= 75
    ensures |BuildAutoFileName(e)| <= 75
  {
    var p, t, s := AutoPrefix(e), AutoTitle(e), AutoSuffix(e);
    assert |t| <= 75 - |p| - |s|;
    assert |p + t + s| == |p| + |t| + |s|;
  }

  /** Whether the user's own name is in force: edited, and not blank. */
  predicate UsesEditedName(e: FileEntry) {
    e.fileNameEdited && Trim(e.fileName) != ""
  }

  /**
   * The extension rule of `getEffectiveFileName`: `name` gets a dot and
   * `ext` appended unless `ext` is empty or `name` already ends with it,
   * compared without regard to case.
   */
  function WithExtension(name: string, ext: string): (r: string)
    ensures StartsWith(r, name)
    ensures r == name <==> ext == "" || EndsWith(Lower(name), "." + Lower(ext))
    ensures ext != "" ==> EndsWith(Lower(r), "." + Lower(ext))
    ensures r != name ==> r == name + "." + ext
  {
    if ext != "" && !EndsWith(Lower(name), "." + Lower(ext)) then
      var r := name + ("." + ext);
      LowerAppend(name, "." + ext);
      LowerAppend(".", ext);
      assert Lower(r)[|Lower(r)| - |"." + Lower(ext)|..] == "." + Lower(ext);
      assert r[..|name|] == name;
      r
    else
      name
  }

  /**
   * `getEffectiveFileName`: the user's trimmed name with the file's
   * extension ensured; the automatic name when the user has not given one.
   */
  function GetEffectiveFileName(e: FileEntry): (r: string)
    ensures !UsesEditedName(e) ==> r == BuildAutoFileName(e)
    ensures UsesEditedName(e) ==> StartsWith(r, Trim(e.fileName))
    ensures UsesEditedName(e) && Extension(e.file.name) != "" ==>
      EndsWith(Lower(r), "." + Lower(Extension(e.file.name)))
    ensures UsesEditedName(e) ==> r == WithExtension(Trim(e.fileName), Extension(e.file.name))
  {
    if UsesEditedName(e) then WithExtension(Trim(e.fileName), Extension(e.file.name))
    else BuildAutoFileName(e)
  }

  /** `isFileNameEnabled`: the archive is chosen and the fond, opys, sprava and its name are not blank. */
  predicate IsFileNameEnabled(e: FileEntry) {
    e.archive.Some? && Trim(e.fond) != "" && Trim(e.opys) != "" && Trim(e.sprava) != "" && Trim(e.spravaName) != ""
  }

  /** `hasInvalidFileNameChars`: the enabled name holds `:`, `/` or `\`. */
  predicate HasInvalidFileNameChars(e: FileEntry) {
    IsFileNameEnabled(e) && HasForbidden(GetEffectiveFileName(e))
  }

  /** Only a name the user typed can hold a forbidden character: the automatic one has them removed. */
  lemma InvalidOnlyWhenEdited(e: FileEntry)
    ensures HasInvalidFileNameChars(e) ==> UsesEditedName(e)
  {
  }

  /** The outcome of the checks made before Commons is asked: a settled status, or the name to look up. */
  datatype PreCheck = Settled(status: FileNameCheck) | Remote(name: string)

  /**
   * The status chain of the name check: idle when disabled or blank, then
   * forbidden characters, then a stem under five characters, then more than
   * 235 bytes; a name passing all of them goes to Commons.
   */
  function ClassifyFileName(e: FileEntry): (r: PreCheck)
    ensures r.Remote? <==>
      && IsFileNameEnabled(e) && Trim(GetEffectiveFileName(e)) != ""
      && !HasForbidden(GetEffectiveFileName(e))
      && |FileNameStem(GetEffectiveFileName(e))| >= FileNameMinChars
      && Utf8Length(GetEffectiveFileName(e)) <= FileNameMaxBytes
    ensures r.Remote? ==> r.name == GetEffectiveFileName(e)
    ensures r.Settled? ==> r.status in {CheckIdle, InvalidChars, TooShort, TooLong}
    ensures r == Settled(CheckIdle) <==> !IsFileNameEnabled(e) || Trim(GetEffectiveFileName(e)) == ""
    ensures var name := GetEffectiveFileName(e);
      var checked := IsFileNameEnabled(e) && Trim(name) != "";
      && (r == Settled(InvalidChars) <==> checked && HasForbidden(name))
      && (r == Settled(TooShort) <==> checked && !HasForbidden(name) && |FileNameStem(name)| < FileNameMinChars)
      && (r == Settled(TooLong) <==>
            && checked && !HasForbidden(name) && |FileNameStem(name)| >= FileNameMinChars
            && Utf8Length(name) > FileNameMaxBytes)
  {
    var name := if IsFileNameEnabled(e) then GetEffectiveFileName(e) else "";
    if !IsFileNameEnabled(e) || Trim(name) == "" then Settled(CheckIdle)
    else if HasInvalidFileNameChars(e) then Settled(InvalidChars)
    else if |FileNameStem(name)| < FileNameMinChars then Settled(TooShort)
    else if Utf8Length(name) > FileNameMaxBytes then Settled(TooLong)
    else Remote(name)
  }
}
