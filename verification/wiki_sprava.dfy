/**
 * The page of one file (sprava) on Wikisource (src/lib/wikisource-sprava.ts):
 * a fresh page is an `{{Архіви/справа ...}}` template; an existing page gets
 * the Commons file linked in the first free `link_commons*` slot.
 */
module WikiSprava {
  import opened Text
  import opened WikiTemplate

  datatype SpravaPageParams = SpravaPageParams(
    archiveAbbr: string,
    fond: string,
    opys: string,
    sprava: string,
    spravaName: string,
    dates: string,
    publicFileName: string)

  /** The page title the sprava page is read from and written to. */
  function SpravaPageTitle(p: SpravaPageParams): (r: string)
    ensures StartsWith(r, "Архів:" + p.archiveAbbr + "/")
    ensures EndsWith(r, "/" + p.sprava)
  {
    var r := "Архів:" + p.archiveAbbr + "/" + p.fond + "/" + p.opys + "/" + p.sprava;
    assert r[..|"Архів:" + p.archiveAbbr + "/"|] == "Архів:" + p.archiveAbbr + "/";
    assert r[|r| - |"/" + p.sprava|..] == "/" + p.sprava;
    r
  }

  /** The text before the first parameter line of a fresh page. */
  const PageHead: string := "{{Архіви/справа\n "

  /** The value written into a `link_commons*` slot for a file. */
  function FileValue(publicFileName: string): string {
    "File:" + publicFileName
  }

  /** `buildNewSpravaPage`: the template with name, dates, the file link and empty notes. */
  function BuildNewSpravaPage(p: SpravaPageParams): string {
    PageHead + ParamLine("назва", p.spravaName)
    + "\n " + ParamLine("рік", p.dates)
    + "\n " + ParamLine("link_commons", FileValue(p.publicFileName))
    + "\n | примітки =\n}}"
  }

  /** The slots tried in order. */
  const LinkCommonsFields: seq<string> :=
    ["link_commons", "link_commons2", "link_commons3", "link_commons4", "link_commons5"]

  predicate PlainNames(fields: seq<string>) {
    forall k :: 0 <= k < |fields| ==> PlainName(fields[k])
  }

  lemma LinkCommonsFieldsPlain()
    ensures PlainNames(LinkCommonsFields) && |LinkCommonsFields| == 5
  {
    assert PlainName("link_commons");
    assert PlainName("link_commons2");
    assert PlainName("link_commons3");
    assert PlainName("link_commons4");
    assert PlainName("link_commons5");
  }

  /** A slot value other than the file: the loop goes on to the next slot. */
  predicate OccupiedValue(existing: Option<string>, fileValue: string) {
    existing.Some? && existing.value != "" && existing.value != fileValue
  }

  /** The values the loop reads, slot by slot (the page does not change while it reads). */
  function SlotValues(content: string, fields: seq<string>): (r: seq<Option<string>>)
    requires PlainNames(fields)
    ensures |r| == |fields|
    ensures forall j :: 0 <= j < |fields| ==> r[j] == GetTemplateParam(content, fields[j])
  {
    seq(|fields|, j requires 0 <= j < |fields| => GetTemplateParam(content, fields[j]))
  }

  /**
   * The slot the `for ... of` loop returns at: the first one from `k` on that
   * is absent, empty or already holds the file, or `|values|` when every slot
   * is occupied.
   */
  function FirstFree(values: seq<Option<string>>, fileValue: string, k: nat): (i: nat)
    requires k <= |values|
    ensures k <= i <= |values|
    ensures forall j :: k <= j < i ==> OccupiedValue(values[j], fileValue)
    ensures i < |values| ==> !OccupiedValue(values[i], fileValue)
    decreases |values| - k
  {
    if k == |values| || !OccupiedValue(values[k], fileValue) then k
    else FirstFree(values, fileValue, k + 1)
  }

  /**
   * The loop over `fields`: at the slot it stops at, an absent or empty slot
   * is set to the file and a slot already holding it returns the page as it
   * was; past the last slot the page is returned as it was.
   */
  function AddLink(content: string, fileValue: string, fields: seq<string>): (r: string)
    requires PlainNames(fields) && '$' !in fileValue
  {
    var values := SlotValues(content, fields);
    var i := FirstFree(values, fileValue, 0);
    if i == |fields| || values[i] == Some(fileValue) then content
    else SetTemplateParam(content, fields[i], fileValue)
  }

  /** `addLinkCommonsToContent`: the loop over the five `link_commons*` slots. */
  function AddLinkCommonsToContent(content: string, publicFileName: string): (r: string)
    requires '$' !in publicFileName
  {
    LinkCommonsFieldsPlain();
    AddLink(content, FileValue(publicFileName), LinkCommonsFields)
  }

  /** The first free slot is determined by which slots are occupied. */
  lemma FirstFreeAt(values: seq<Option<string>>, fileValue: string, i: nat)
    requires i <= |values|
    requires forall j :: 0 <= j < i ==> OccupiedValue(values[j], fileValue)
    requires i < |values| ==> !OccupiedValue(values[i], fileValue)
    ensures FirstFree(values, fileValue, 0) == i
  {
    FirstFreeFrom(values, fileValue, 0, i);
  }

  lemma {:induction false} FirstFreeFrom(values: seq<Option<string>>, fileValue: string, k: nat, i: nat)
    requires k <= i <= |values|
    requires forall j :: k <= j < i ==> OccupiedValue(values[j], fileValue)
    requires i < |values| ==> !OccupiedValue(values[i], fileValue)
    ensures FirstFree(values, fileValue, k) == i
    decreases i - k
  {
    if k < i {
      FirstFreeFrom(values, fileValue, k + 1, i);
    }
  }

  /** Slots `0..i` are all occupied. */
  predicate OccupiedBefore(content: string, fileValue: string, fields: seq<string>, i: nat)
    requires PlainNames(fields) && i <= |fields|
  {
    forall j :: 0 <= j < i ==> OccupiedValue(GetTemplateParam(content, fields[j]), fileValue)
  }

  /**
   * The slot the loop stops at is the first one that is not occupied: an
   * absent or empty slot receives the file, a slot already holding it leaves
   * the content as it was; when every slot is occupied nothing changes.
   */
  lemma AddLinkAtSlot(content: string, fileValue: string, fields: seq<string>, i: nat)
    requires PlainNames(fields) && '$' !in fileValue && i <= |fields|
    requires OccupiedBefore(content, fileValue, fields, i)
    requires i < |fields| ==> !OccupiedValue(GetTemplateParam(content, fields[i]), fileValue)
    ensures i == |fields| ==> AddLink(content, fileValue, fields) == content
    ensures i < |fields| && GetTemplateParam(content, fields[i]) == Some(fileValue) ==>
      AddLink(content, fileValue, fields) == content
    ensures i < |fields| && GetTemplateParam(content, fields[i]) != Some(fileValue) ==>
      AddLink(content, fileValue, fields) == SetTemplateParam(content, fields[i], fileValue)
  {
    FirstFreeAt(SlotValues(content, fields), fileValue, i);
  }

  /**
   * The slot the loop stops at afterwards holds the file, provided it was
   * there or the page has a `}}` to add it before, and the file value has no
   * new line and no white space at its end.
   */
  lemma AddLinkFills(content: string, fileValue: string, fields: seq<string>, i: nat)
    requires PlainNames(fields) && '$' !in fileValue && '\n' !in fileValue
    requires Trim(fileValue) == fileValue
    requires i < |fields| && OccupiedBefore(content, fileValue, fields, i)
    requires !OccupiedValue(GetTemplateParam(content, fields[i]), fileValue)
    requires GetTemplateParam(content, fields[i]).Some? || Contains(content, "}}")
    ensures GetTemplateParam(AddLink(content, fileValue, fields), fields[i]) == Some(fileValue)
  {
    AddLinkAtSlot(content, fileValue, fields, i);
    if GetTemplateParam(content, fields[i]) != Some(fileValue) {
      GetAfterSet(content, fields[i], fileValue);
    }
  }

  /**
   * A file value the slots can take and give back: no `$` (the replacement
   * pattern), no `|` or line end (which would end the value early), and no
   * white space at either end (which reading trims off).
   */
  predicate CleanValue(v: string) {
    '$' !in v && '|' !in v && '\n' !in v && Trim(v) == v
  }

  /** No two slots share a name. */
  predicate Distinct(fields: seq<string>) {
    forall j, k :: 0 <= j < k < |fields| ==> fields[j] != fields[k]
  }

  /**
   * Adding the same file twice changes the page once: after the first add
   * the slots before the one written stay occupied and that slot holds the
   * file, so the second add stops there and returns the page unchanged.
   */
  lemma AddLinkIdempotent(content: string, fileValue: string, fields: seq<string>)
    requires PlainNames(fields) && Distinct(fields)
    requires CleanValue(fileValue)
    ensures AddLink(AddLink(content, fileValue, fields), fileValue, fields) == AddLink(content, fileValue, fields)
  {
    var i := FirstFree(SlotValues(content, fields), fileValue, 0);
    AddLinkAtSlot(content, fileValue, fields, i);
    var r := AddLink(content, fileValue, fields);
    if r != content {
      ContainsIndexOf(content, "}}");
      AddLinkSettles(content, fileValue, fields, i);
      AddLinkAtSlot(r, fileValue, fields, i);
    }
  }

  /**
   * `addLinkCommonsToContent` twice with the same file name is the same as
   * once, for a name without `$`, `|` or a new line and with no white space
   * at its end.
   */
  lemma AddLinkCommonsIdempotent(content: string, publicFileName: string)
    requires '$' !in publicFileName && '|' !in publicFileName && '\n' !in publicFileName
    requires publicFileName == [] || !IsSpace(publicFileName[|publicFileName| - 1])
    ensures var once := AddLinkCommonsToContent(content, publicFileName);
      AddLinkCommonsToContent(once, publicFileName) == once
  {
    LinkCommonsFieldsPlain();
    LinkCommonsFieldsDistinct();
    FileValueClean(publicFileName);
    AddLinkIdempotent(content, FileValue(publicFileName), LinkCommonsFields);
  }

  lemma LinkCommonsFieldsDistinct()
    ensures Distinct(LinkCommonsFields)
  {
    assert LinkCommonsFields[1][12] == '2' && LinkCommonsFields[2][12] == '3';
    assert LinkCommonsFields[3][12] == '4' && LinkCommonsFields[4][12] == '5';
  }

  /** After the file is written into slot `i`, the slots before it are still occupied and slot `i` holds it. */
  lemma AddLinkSettles(content: string, fileValue: string, fields: seq<string>, i: nat)
    requires PlainNames(fields) && Distinct(fields)
    requires CleanValue(fileValue)
    requires i < |fields| && OccupiedBefore(content, fileValue, fields, i)
    requires !OccupiedValue(GetTemplateParam(content, fields[i]), fileValue)
    requires GetTemplateParam(content, fields[i]) != Some(fileValue)
    requires GetTemplateParam(content, fields[i]).Some? || Contains(content, "}}")
    ensures OccupiedBefore(SetTemplateParam(content, fields[i], fileValue), fileValue, fields, i)
    ensures GetTemplateParam(SetTemplateParam(content, fields[i], fileValue), fields[i]) == Some(fileValue)
  {
    GetAfterSet(content, fields[i], fileValue);
    forall j | 0 <= j < i
      ensures OccupiedValue(GetTemplateParam(SetTemplateParam(content, fields[i], fileValue), fields[j]), fileValue)
    {
      StaysOccupied(content, fields[i], fileValue, fields[j]);
    }
  }

  /** Writing the file into a free slot leaves an occupied slot occupied. */
  lemma StaysOccupied(content: string, h: string, fileValue: string, g: string)
    requires PlainName(h) && PlainName(g) && h != g && '$' !in fileValue && '|' !in fileValue
    requires !OccupiedValue(GetTemplateParam(content, h), fileValue)
    requires GetTemplateParam(content, h) != Some(fileValue)
    requires OccupiedValue(GetTemplateParam(content, g), fileValue)
    ensures OccupiedValue(GetTemplateParam(SetTemplateParam(content, h, fileValue), g), fileValue)
  {
    FreeSlot(GetTemplateParam(content, h), fileValue);
    SetKeepsOther(content, h, fileValue, g);
    OccupiedKept(GetTemplateParam(content, g), GetTemplateParam(SetTemplateParam(content, h, fileValue), g), fileValue);
  }

  /** A slot that is not occupied and does not hold the file is missing or empty. */
  lemma FreeSlot(existing: Option<string>, fileValue: string)
    requires !OccupiedValue(existing, fileValue) && existing != Some(fileValue)
    ensures existing.None? || existing == Some("")
  {
  }

  /** A slot value that is kept, or replaced by one holding a `|`, stays occupied by a file value without `|`. */
  lemma OccupiedKept(before: Option<string>, after: Option<string>, fileValue: string)
    requires OccupiedValue(before, fileValue) && '|' !in fileValue
    requires after.Some? && (after == before || '|' in after.value)
    ensures OccupiedValue(after, fileValue)
  {
  }

  /** `buildOrUpdateSpravaContent`: a fresh page for a missing page, the added link otherwise. */
  function BuildOrUpdateSpravaContent(existing: Option<string>, p: SpravaPageParams): (r: string)
    requires '$' !in p.publicFileName
    ensures existing.None? ==> r == BuildNewSpravaPage(p)
    ensures existing.Some? ==> r == AddLinkCommonsToContent(existing.value, p.publicFileName)
  {
    match existing
    case None => BuildNewSpravaPage(p)
    case Some(c) => AddLinkCommonsToContent(c, p.publicFileName)
  }

  /** What `updateSpravaPage` writes and reports, given what was read under its title. */
  datatype SpravaUpdate = SpravaUpdate(title: string, content: string, summary: string, created: bool)

  function UpdateSpravaPage(existing: Option<string>, p: SpravaPageParams): (r: SpravaUpdate)
    requires '$' !in p.publicFileName
    ensures r.title == SpravaPageTitle(p)
    ensures r.created <==> existing.None?
    ensures r.content == BuildOrUpdateSpravaContent(existing, p)
    ensures r.summary == "Додано посилання на Commons"
  {
    SpravaUpdate(SpravaPageTitle(p), BuildOrUpdateSpravaContent(existing, p), "Додано посилання на Commons", existing.None?)
  }

  // ---------------------------------------------------------------------------
  // Reading a fresh page back

  lemma PageHeadNoKey()
    ensures forall i :: 0 <= i < |PageHead| ==> PageHead[i] != '|' && PageHead[i] != '='
  {
  }

  /** The name line comes first on a fresh page and reads back. */
  lemma NewPageName(p: SpravaPageParams)
    requires '\n' !in p.spravaName
    ensures PlainName("назва")
    ensures GetTemplateParam(BuildNewSpravaPage(p), "назва") == Some(Trim(p.spravaName))
  {
    var page := BuildNewSpravaPage(p);
    var c := "\n " + ParamLine("рік", p.dates)
      + "\n " + ParamLine("link_commons", FileValue(p.publicFileName))
      + "\n | примітки =\n}}";
    PageNamesPlain();
    assert page == PageHead + ParamLine("назва", p.spravaName) + c;
    PageHeadNoKey();
    FirstParamReads(PageHead, "назва", p.spravaName, c);
  }

  /**
   * The file link on a fresh page reads back, when the name and dates lines
   * before it hold no `|` of their own.
   */
  lemma NewPageLink(p: SpravaPageParams)
    requires '|' !in p.spravaName && '|' !in p.dates && '\n' !in p.publicFileName
    ensures GetTemplateParam(BuildNewSpravaPage(p), "link_commons") == Some(Trim(FileValue(p.publicFileName)))
  {
    LinkCommonsFieldsPlain();
    PageNamesPlain();
    assert |"назва"| == 5 && |"рік"| == 3 && |"link_commons"| == 12;
    PageHeadNoKey();
    ThirdParamReads(PageHead, "назва", p.spravaName, "рік", p.dates, "link_commons",
      FileValue(p.publicFileName), "\n | примітки =\n}}");
  }

  /** The third line written after a head without `|` or `=` reads back. */
  lemma ThirdParamReads(head: string, n1: string, v1: string, n2: string, v2: string,
                        name: string, value: string, tail: string)
    requires PlainName(n1) && PlainName(n2) && PlainName(name) && name != n1 && name != n2
    requires '|' !in v1 && '|' !in v2 && '\n' !in value && (tail == [] || tail[0] == '\n')
    requires forall i :: 0 <= i < |head| ==> head[i] != '|' && head[i] != '='
    ensures GetTemplateParam(head + ParamLine(n1, v1) + "\n " + ParamLine(n2, v2) + "\n "
      + ParamLine(name, value) + tail, name) == Some(Trim(value))
  {
    var a := head + ParamLine(n1, v1) + "\n " + ParamLine(n2, v2) + "\n ";
    var page := a + ParamLine(name, value) + tail;
    HeadLinesNoKey(head, n1, v1, n2, v2, ParamLine(name, value) + tail, name);
    assert page == a + (ParamLine(name, value) + tail);
    ReadWrittenLine(page, a, tail, name, value, |a|);
  }

  /** Two lines of other names after a head without `|` hold no match of `name`. */
  lemma HeadLinesNoKey(head: string, n1: string, v1: string, n2: string, v2: string, rest: string, name: string)
    requires PlainName(n1) && PlainName(n2) && PlainName(name) && name != n1 && name != n2
    requires '|' !in v1 && '|' !in v2
    requires forall i :: 0 <= i < |head| ==> head[i] != '|'
    ensures var a := head + ParamLine(n1, v1) + "\n " + ParamLine(n2, v2) + "\n ";
      NoKeyBetween(a + rest, name, 0, |a|)
  {
    var a1 := head + ParamLine(n1, v1) + "\n ";
    var a := a1 + ParamLine(n2, v2) + "\n ";
    var page := a + rest;
    assert page == head + ParamLine(n1, v1) + "\n " + (ParamLine(n2, v2) + "\n " + rest);
    BarFreeNoKey(page, name, 0, |head|);
    NextLine(head, n1, v1, ParamLine(n2, v2) + "\n " + rest, name);
    NextLine(a1, n2, v2, rest, name);
  }

  /** A written line of another name and the line break after it add no match of `name`. */
  lemma NextLine(a: string, other: string, value: string, rest: string, name: string)
    requires PlainName(other) && PlainName(name) && other != name && '|' !in value
    requires NoKeyBetween(a + ParamLine(other, value) + "\n " + rest, name, 0, |a|)
    ensures NoKeyBetween(a + ParamLine(other, value) + "\n " + rest, name, 0, |a| + |ParamLine(other, value)| + 2)
  {
    var s := a + ParamLine(other, value) + "\n " + rest;
    var e := |a| + |ParamLine(other, value)|;
    assert s == a + ParamLine(other, value) + ("\n " + rest);
    PassLine(a, other, value, "\n " + rest, name);
    assert s[e] == '\n' && s[e + 1] == ' ';
    BarFreeNoKey(s, name, e, e + 2);
    NoKeyBetweenJoin(s, name, 0, e, e + 2);
  }

  /** Positions holding no `|` start no match. */
  lemma BarFreeNoKey(s: string, name: string, lo: nat, hi: nat)
    requires PlainName(name) && lo <= hi <= |s| && forall i :: lo <= i < hi ==> s[i] != '|'
    ensures NoKeyBetween(s, name, lo, hi)
  {
  }

  /** A written line of another name adds no match of `name`. */
  lemma PassLine(a: string, other: string, value: string, rest: string, name: string)
    requires PlainName(other) && PlainName(name) && other != name && '|' !in value
    requires NoKeyBetween(a + ParamLine(other, value) + rest, name, 0, |a|)
    ensures NoKeyBetween(a + ParamLine(other, value) + rest, name, 0, |a + ParamLine(other, value)|)
  {
    var pl := ParamLine(other, value);
    var s := a + pl + rest;
    OtherKeyAtLine(a, other, value, rest, name);
    LineRestNoKey(a, other, value, rest, name);
    NoKeyBetweenJoin(s, name, 0, |a|, |a| + 1);
    NoKeyBetweenJoin(s, name, 0, |a| + 1, |a| + |pl|);
  }

  /** The key written at the start of a line of another name is not `name`. */
  lemma OtherKeyAtLine(a: string, other: string, value: string, rest: string, name: string)
    requires PlainName(other) && PlainName(name) && other != name
    ensures NoKeyBetween(a + ParamLine(other, value) + rest, name, |a|, |a| + 1)
  {
    var s := a + ParamLine(other, value) + rest;
    WrittenKey(a, other, value, rest);
    if KeyEnd(s, name, |a|).Some? {
      DistinctKeys(s, name, other, |a|);
    }
  }

  /** Past its first character a written line holds no `|`, so no match of `name`. */
  lemma LineRestNoKey(a: string, other: string, value: string, rest: string, name: string)
    requires PlainName(other) && PlainName(name) && '|' !in value
    ensures NoKeyBetween(a + ParamLine(other, value) + rest, name, |a| + 1, |a| + |ParamLine(other, value)|)
  {
    var pl := ParamLine(other, value);
    var s := a + pl + rest;
    ParamLineBars(other, value);
    forall i | |a| < i < |a| + |pl| ensures s[i] != '|' {
      assert s[i] == pl[i - |a|];
    }
    NoBarNoKey(s, name, |a|, |a| + |pl|);
  }

  /**
   * A fresh page already holds its file in the first slot, so adding the same
   * file to it changes nothing.
   */
  lemma BuildThenAdd(p: SpravaPageParams)
    requires '|' !in p.spravaName && '|' !in p.dates
    requires '$' !in p.publicFileName && '|' !in p.publicFileName && '\n' !in p.publicFileName
    requires p.publicFileName == [] || !IsSpace(p.publicFileName[|p.publicFileName| - 1])
    ensures AddLinkCommonsToContent(BuildNewSpravaPage(p), p.publicFileName) == BuildNewSpravaPage(p)
  {
    NewPageFileLink(p);
    FirstSlotHolds(BuildNewSpravaPage(p), FileValue(p.publicFileName), LinkCommonsFields);
  }

  /** With no white space at the end of the name the link reads back exactly. */
  lemma NewPageFileLink(p: SpravaPageParams)
    requires '|' !in p.spravaName && '|' !in p.dates
    requires '$' !in p.publicFileName && '|' !in p.publicFileName && '\n' !in p.publicFileName
    requires p.publicFileName == [] || !IsSpace(p.publicFileName[|p.publicFileName| - 1])
    ensures PlainNames(LinkCommonsFields) && '$' !in FileValue(p.publicFileName)
    ensures GetTemplateParam(BuildNewSpravaPage(p), LinkCommonsFields[0]) == Some(FileValue(p.publicFileName))
  {
    LinkCommonsFieldsPlain();
    FileValueClean(p.publicFileName);
    NewPageLink(p);
    FirstSlotRead(BuildNewSpravaPage(p), FileValue(p.publicFileName));
  }

  /** A clean value read under `link_commons` is the first slot's value. */
  lemma FirstSlotRead(c: string, v: string)
    requires PlainNames(LinkCommonsFields) && |LinkCommonsFields| == 5
    requires GetTemplateParam(c, "link_commons") == Some(Trim(v)) && CleanValue(v)
    ensures GetTemplateParam(c, LinkCommonsFields[0]) == Some(v)
  {
  }

  /** The file value of a clean name with no white space at its end is clean. */
  lemma FileValueClean(publicFileName: string)
    requires '$' !in publicFileName && '|' !in publicFileName && '\n' !in publicFileName
    requires publicFileName == [] || !IsSpace(publicFileName[|publicFileName| - 1])
    ensures CleanValue(FileValue(publicFileName))
  {
    var fv := FileValue(publicFileName);
    assert fv[0] == 'F' && fv[|fv| - 1] == if publicFileName == [] then ':' else publicFileName[|publicFileName| - 1];
    TrimOfTrimmed(fv);
  }

  /** A page whose first slot already holds the file is left as it is. */
  lemma FirstSlotHolds(content: string, fileValue: string, fields: seq<string>)
    requires PlainNames(fields) && '$' !in fileValue && |fields| > 0
    requires GetTemplateParam(content, fields[0]) == Some(fileValue)
    ensures AddLink(content, fileValue, fields) == content
  {
    AddLinkAtSlot(content, fileValue, fields, 0);
  }
}
