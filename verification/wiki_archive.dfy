/**
 * The page of an archive's fond series on Wikisource
 * (src/lib/wikisource-archive.ts). Fonds are grouped by their letter prefix
 * (`Р-34` and `Р-5` share the page `Архів:<abbr>/Р`; fonds without a prefix
 * share the page of the default prefix `Д`), and each page is a `{{заголовок
 * ...}}` template followed by a four-column table linking to the fonds with
 * `[[../<fond>/]]`, ordered by the natural order of the fond numbers with
 * their prefixes stripped.
 */
module WikiArchive {
  import opened Text
  import opened WikiTable
  import opened TableEdit
  import opened NaturalOrder
  import opened WikiTemplate
  import opened Listing

  datatype ArchivePageParams = ArchivePageParams(
    archiveAbbr: string,
    archiveName: string,
    fond: string,
    fondName: string)

  // ---------------------------------------------------------------------------
  // The fond prefix: `^([А-ЯҐЄІЇA-Z]+)-`

  /** The character class `[А-ЯҐЄІЇA-Z]`: Ukrainian and Latin capitals. */
  predicate PrefixLetter(c: char) {
    ('А' <= c <= 'Я') || c == 'Ґ' || c == 'Є' || c == 'І' || c == 'Ї' || ('A' <= c <= 'Z')
  }

  /** The pattern matches with its group ending at `k`: one or more capitals, then a dash. */
  predicate PrefixAt(s: string, k: nat) {
    1 <= k < |s| && (forall i :: 0 <= i < k ==> PrefixLetter(s[i])) && s[k] == '-'
  }

  /** The length of the run of capitals a string starts with. */
  function LetterRun(s: string): (r: nat)
    ensures r <= |s|
    ensures forall i :: 0 <= i < r ==> PrefixLetter(s[i])
    ensures r < |s| ==> !PrefixLetter(s[r])
  {
    if s != [] && PrefixLetter(s[0]) then 1 + LetterRun(s[1..]) else 0
  }

  /**
   * Where the pattern's group ends, if it matches: the dash has to follow
   * the whole run of capitals, since a dash is not a capital, so there is at
   * most one place it can end.
   */
  function PrefixEnd(s: string): (r: Option<nat>)
    ensures forall k: nat :: PrefixAt(s, k) <==> r == Some(k)
  {
    var k := LetterRun(s);
    if 0 < k < |s| && s[k] == '-' then Some(k) else None
  }

  /** `extractFondPrefix`: the capitals before the dash, or `Д` when the pattern does not match. */
  function ExtractFondPrefix(fond: string): (r: string)
    ensures forall k: nat :: PrefixAt(fond, k) ==> r == fond[..k]
    ensures PrefixEnd(fond).None? ==> r == "Д"
  {
    match PrefixEnd(fond)
    case Some(k) => fond[..k]
    case None => "Д"
  }

  /** The `replace` in `fondCompare` and `buildNewArchivePage`: the fond without its prefix and dash. */
  function StripPrefix(fond: string): (r: string)
    ensures forall k: nat :: PrefixAt(fond, k) ==> r == fond[k + 1..]
    ensures PrefixEnd(fond).None? ==> r == fond
  {
    match PrefixEnd(fond)
    case Some(k) => fond[k + 1..]
    case None => fond
  }

  /** A fond written as capitals, a dash and a rest has those capitals as prefix and that rest stripped. */
  lemma PrefixedFond(pre: string, rest: string)
    requires pre != [] && forall i :: 0 <= i < |pre| ==> PrefixLetter(pre[i])
    ensures ExtractFondPrefix(pre + "-" + rest) == pre
    ensures StripPrefix(pre + "-" + rest) == rest
  {
    var s := pre + "-" + rest;
    assert PrefixAt(s, |pre|);
    assert s[..|pre|] == pre;
    assert s[|pre| + 1..] == rest;
  }

  /** And the other way round: a fond the pattern matches is its prefix, a dash and its stripped rest. */
  lemma FondSplit(fond: string)
    requires PrefixEnd(fond).Some?
    ensures fond == ExtractFondPrefix(fond) + "-" + StripPrefix(fond)
  {
    var k := PrefixEnd(fond).value;
    assert PrefixAt(fond, k);
    assert fond == fond[..k] + [fond[k]] + fond[k + 1..];
  }

  /** A fond that does not start with a capital has the default prefix and strips to itself. */
  lemma UnprefixedFond(fond: string)
    requires fond == [] || !PrefixLetter(fond[0])
    ensures ExtractFondPrefix(fond) == "Д" && StripPrefix(fond) == fond
  {
    assert !PrefixAt(fond, LetterRun(fond));
  }

  /** `getArchivePageTitle`: the page of the fond's prefix. */
  function GetArchivePageTitle(archiveAbbr: string, fond: string): string {
    "Архів:" + archiveAbbr + "/" + ExtractFondPrefix(fond)
  }

  /** Fonds with the same prefix share a page, and unprefixed fonds share the default one. */
  lemma SamePrefixSamePage(archiveAbbr: string, pre: string, x: string, y: string)
    requires pre != [] && forall i :: 0 <= i < |pre| ==> PrefixLetter(pre[i])
    ensures GetArchivePageTitle(archiveAbbr, pre + "-" + x) == GetArchivePageTitle(archiveAbbr, pre + "-" + y)
      == "Архів:" + archiveAbbr + "/" + pre
  {
    PrefixedFond(pre, x);
    PrefixedFond(pre, y);
  }

  /** Fonds with different prefixes are listed on different pages (`Р-34` and `Н-34`, say). */
  lemma DifferentPrefixDifferentPage(archiveAbbr: string, p: string, q: string, x: string, y: string)
    requires p != [] && forall i :: 0 <= i < |p| ==> PrefixLetter(p[i])
    requires q != [] && forall i :: 0 <= i < |q| ==> PrefixLetter(q[i])
    requires p != q
    ensures GetArchivePageTitle(archiveAbbr, p + "-" + x) != GetArchivePageTitle(archiveAbbr, q + "-" + y)
  {
    PrefixedFond(p, x);
    PrefixedFond(q, y);
    var head := "Архів:" + archiveAbbr + "/";
    assert (head + p)[|head|..] == p && (head + q)[|head|..] == q;
  }

  // ---------------------------------------------------------------------------
  // Ordering fonds

  /** `fondCompare`: the natural order of the fonds with their prefixes stripped. */
  function FondCompare(a: string, b: string): int {
    NaturalCompare(StripPrefix(a), StripPrefix(b))
  }

  /** The prefixes play no part in the order: only the numbers after them do. */
  lemma FondCompareIgnoresPrefix(p: string, q: string, x: string, y: string)
    requires p != [] && forall i :: 0 <= i < |p| ==> PrefixLetter(p[i])
    requires q != [] && forall i :: 0 <= i < |q| ==> PrefixLetter(q[i])
    ensures FondCompare(p + "-" + x, q + "-" + y) == NaturalCompare(x, y)
  {
    PrefixedFond(p, x);
    PrefixedFond(q, y);
  }

  /** On fonds whose stripped forms are plain ids, `fondCompare` is a total preorder. */
  lemma FondPreorder(ids: set<string>)
    requires forall s :: s in ids ==> PlainId(StripPrefix(s))
    ensures TotalPreorderOn(FondCompare, ids)
  {
    forall a, b | a in ids && b in ids
      ensures FondCompare(a, b) > 0 ==> FondCompare(b, a) < 0
    {
      NaturalCompareAntisymmetric(StripPrefix(a), StripPrefix(b));
    }
    forall a, b, c | a in ids && b in ids && c in ids && FondCompare(a, b) <= 0 && FondCompare(b, c) <= 0
      ensures FondCompare(a, c) <= 0
    {
      PlainTransitive(StripPrefix(a), StripPrefix(b), StripPrefix(c));
    }
  }

  // ---------------------------------------------------------------------------
  // Building a fresh page

  /** `buildFondRow`: the parent-relative link to the fond, its name, then empty dates and count. */
  function BuildFondRow(fond: string, name: string, columnCount: nat): string {
    RowText(fond, [name, "", ""], columnCount, "../")
  }

  /**
   * A fond row has the link, the name and two empty cells on a page of four
   * columns, and the parent-link id pattern reads the fond back from it.
   */
  lemma FondRowShape(fond: string, name: string, columnCount: nat)
    requires columnCount >= 1 && fond != "" && '/' !in fond
    ensures columnCount == 4 ==>
      RowCells(fond, [name, "", ""], columnCount, "../") == [LinkCell(fond, "../"), name, "", ""]
    ensures FindId(BuildFondRow(fond, name, columnCount), ParentLinkOpen, 0) == Some(fond)
  {
    BuildRowId(fond, [name, "", ""], columnCount, "../");
    assert "[[" + "../" == ParentLinkOpen;
  }

  /** The column headings of an archive table, whose header separates them with `||`. */
  const ArchiveColumns: seq<string> := ["№", "Назва фонду", "Крайні дати", "Справ"]

  /** `ARCHIVE_SCHEMA`, which is also the table a fresh page starts with. */
  const ArchiveSchema: FallbackSchema :=
    FallbackSchema("{| class=\"wikitable sortable\"", "!" + Join(ArchiveColumns, "||"), 4)

  /** The header line of the schema has as many columns as the schema says, so a reparse agrees. */
  lemma ArchiveSchemaColumns()
    ensures SeparatorCount(ArchiveSchema.headerLine) + 1 == ArchiveSchema.columnCount
  {
    HeaderColumnCount(ArchiveColumns, "||");
  }

  /** The template block of a fresh page: a title template naming the parent page and the archive's section. */
  const ArchiveOpen: string := "{{заголовок\n "
  const ParentTitle: string := "[[../]]"
  const ArchiveRest: string := "\n | попередня =\n | наступна =\n | примітки =\n}}"

  function ArchiveTemplate(archiveName: string): string {
    ArchiveOpen + ParamLine("назва", ParentTitle) + "\n | автор =\n " + ParamLine("секція", archiveName) + ArchiveRest
  }

  /** Everything a fresh page holds before its table. */
  function ArchiveHead(p: ArchivePageParams): string {
    ArchiveTemplate(p.archiveName) + "\n\n== Фонди ==\n"
  }

  /** Whether the fond is the first of its prefix: its number, once the prefix is stripped, is `1`. */
  predicate IsFirstFond(fond: string) {
    (if ExtractFondPrefix(fond) == "Д" then fond else StripPrefix(fond)) == "1"
  }

  /** The placeholder row's fond: `1` for the default prefix, the prefix and `-1` otherwise. */
  function PlaceholderId(fond: string): string {
    var prefix := ExtractFondPrefix(fond);
    if prefix == "Д" then "1" else prefix + "-1"
  }

  /**
   * The placeholder belongs on the same page as the fond and is the first
   * fond of that page: its number is `1`.
   */
  lemma PlaceholderOnSamePage(fond: string)
    ensures ExtractFondPrefix(PlaceholderId(fond)) == ExtractFondPrefix(fond)
    ensures StripPrefix(PlaceholderId(fond)) == "1"
    ensures PlaceholderId(fond) != "" && '/' !in PlaceholderId(fond)
  {
    if ExtractFondPrefix(fond) == "Д" {
      UnprefixedFond("1");
    } else {
      PrefixLetters(fond);
      FirstOfPrefix(ExtractFondPrefix(fond));
    }
  }

  /** A prefix the pattern finds is a run of capitals. */
  lemma PrefixLetters(fond: string)
    requires ExtractFondPrefix(fond) != "Д"
    ensures var prefix := ExtractFondPrefix(fond);
      prefix != [] && forall i :: 0 <= i < |prefix| ==> PrefixLetter(prefix[i])
  {
    var k := PrefixEnd(fond).value;
    assert PrefixAt(fond, k);
  }

  /** The first fond of a prefix has that prefix and the number `1`, and no slash. */
  lemma FirstOfPrefix(prefix: string)
    requires prefix != [] && forall i :: 0 <= i < |prefix| ==> PrefixLetter(prefix[i])
    ensures ExtractFondPrefix(prefix + "-1") == prefix && StripPrefix(prefix + "-1") == "1"
    ensures '/' !in prefix + "-1"
  {
    PrefixedFond(prefix, "1");
    assert prefix + "-" + "1" == prefix + "-1";
    assert !PrefixLetter('/');
  }

  /**
   * A fond written `Д-x` matches the pattern with prefix `Д`, the default
   * one, so its number is taken to be the whole `Д-x`: it is never counted
   * as first, and its fresh page gets the placeholder `1`, which sorts
   * against it as `1` against `x` (level with it for `Д-1`).
   */
  lemma DefaultPrefixDash(x: string)
    ensures ExtractFondPrefix("Д-" + x) == "Д" && !IsFirstFond("Д-" + x)
    ensures PlaceholderId("Д-" + x) == "1"
    ensures FondCompare("1", "Д-" + x) == NaturalCompare("1", x)
    ensures x == "1" ==> FondCompare("1", "Д-" + x) == 0
  {
    PrefixedFond("Д", x);
    assert "Д" + "-" + x == "Д-" + x;
    assert |"Д-" + x| >= 2;
    UnprefixedFond("1");
    NaturalCompareReflexive("1");
  }

  /**
   * `buildNewArchivePage`: the template, the heading and the table; the
   * first fond of its prefix stands alone, any other comes after a blank
   * placeholder row.
   */
  function BuildNewArchivePage(p: ArchivePageParams): string {
    FreshPage(ArchiveHead(p), ArchiveSchema,
      FreshRows(IsFirstFond(p.fond), BuildFondRow(PlaceholderId(p.fond), "", 4), BuildFondRow(p.fond, p.fondName, 4)))
  }

  /**
   * A fresh page is the page of an archive table: the template and heading
   * before it, the schema's lines, and either the fond's row alone (for the
   * first fond of its prefix) or the placeholder row and then the fond's
   * row, each carrying the id the parser reads from it.
   */
  lemma NewArchivePageTable(p: ArchivePageParams)
    requires p.fond != "" && '/' !in p.fond
    ensures var actual := Row(BuildFondRow(p.fond, p.fondName, 4), Some(p.fond));
      var placeholder := Row(BuildFondRow(PlaceholderId(p.fond), "", 4), Some(PlaceholderId(p.fond)));
      var rows := if IsFirstFond(p.fond) then [actual] else [placeholder, actual];
      && BuildNewArchivePage(p)
           == Rebuild(ParsedWikiTable(ArchiveHead(p), ArchiveSchema.tableStart, ArchiveSchema.headerLine, rows, "", 4))
      && forall k :: 0 <= k < |rows| ==> rows[k].id == FindId(rows[k].raw, ParentLinkOpen, 0)
  {
    var id := PlaceholderId(p.fond);
    var actual := Row(BuildFondRow(p.fond, p.fondName, 4), Some(p.fond));
    var placeholder := Row(BuildFondRow(id, "", 4), Some(id));
    PlaceholderOnSamePage(p.fond);
    FondRowShape(p.fond, p.fondName, 4);
    FondRowShape(id, "", 4);
    assert placeholder.raw[0] == '|' && actual.raw[0] == '|';
    FreshRowsTable(ArchiveHead(p), ArchiveSchema, IsFirstFond(p.fond), placeholder, actual, ParentLinkOpen);
  }

  /** What follows the title line on a fresh page. */
  function AfterTitle(p: ArchivePageParams): string {
    "\n | автор =\n " + ParamLine("секція", p.archiveName) + ArchiveRest + "\n\n== Фонди ==\n"
      + SchemaTable(ArchiveSchema,
          FreshRows(IsFirstFond(p.fond), BuildFondRow(PlaceholderId(p.fond), "", 4), BuildFondRow(p.fond, p.fondName, 4)))
  }

  lemma TitleLineFirst(p: ArchivePageParams)
    ensures BuildNewArchivePage(p) == ArchiveOpen + ParamLine("назва", ParentTitle) + AfterTitle(p)
    ensures AfterTitle(p)[0] == '\n'
  {
    var table := SchemaTable(ArchiveSchema,
      FreshRows(IsFirstFond(p.fond), BuildFondRow(PlaceholderId(p.fond), "", 4), BuildFondRow(p.fond, p.fondName, 4)));
    Regroup(ArchiveOpen + ParamLine("назва", ParentTitle), "\n | автор =\n ", ParamLine("секція", p.archiveName),
      ArchiveRest, "\n\n== Фонди ==\n", table);
  }

  lemma Regroup(x: string, a: string, b: string, c: string, d: string, e: string)
    ensures x + (a + b + c + d + e) == x + a + b + c + d + e
  {
  }

  /** The title parameter of a fresh page reads back as the link to the parent page. */
  lemma NewArchivePageName(p: ArchivePageParams)
    ensures PlainName("назва")
    ensures GetTemplateParam(BuildNewArchivePage(p), "назва") == Some(ParentTitle)
  {
    PageNamesPlain();
    TitleLineFirst(p);
    TitleReads(AfterTitle(p));
  }

  lemma TitleReads(c: string)
    requires c != [] && c[0] == '\n'
    ensures GetTemplateParam(ArchiveOpen + ParamLine("назва", ParentTitle) + c, "назва") == Some(ParentTitle)
  {
    PageNamesPlain();
    assert '\n' !in ParentTitle;
    ArchiveOpenNoKey();
    FirstParamReads(ArchiveOpen, "назва", ParentTitle, c);
    ParentTitleTrimmed();
  }

  lemma ArchiveOpenNoKey()
    ensures forall i :: 0 <= i < |ArchiveOpen| ==> ArchiveOpen[i] != '|' && ArchiveOpen[i] != '='
  {
  }

  lemma ParentTitleTrimmed()
    ensures Trim(ParentTitle) == ParentTitle
  {
    TrimOfTrimmed(ParentTitle);
  }

  // ---------------------------------------------------------------------------
  // Updating an existing page

  /** `parseArchivePage`: the parsed table of parent links, or the schema's empty table when the page has none. */
  function ParseArchivePage(content: string): TableOrFallback {
    ParseOrEmptyTable(content, ArchiveSchema, ParentLinkOpen)
  }

  /** `insertFondRow`: a row built for the parsed column count, inserted in `fondCompare` order. */
  function InsertFondRow(parsed: ParsedWikiTable, fond: string, name: string): string {
    InsertRowText(parsed, fond, BuildFondRow(fond, name, parsed.columnCount), FondCompare)
  }

  /**
   * `buildOrUpdateArchiveContent`: a fresh page for a missing page;
   * otherwise the row inserted into the parsed or fallback table, with the
   * warning that `parseArchivePage` logs when it falls back.
   */
  function BuildOrUpdateArchiveContent(existing: Option<string>, p: ArchivePageParams): LevelContent {
    match existing
    case None => LevelContent(BuildNewArchivePage(p), None)
    case Some(c) =>
      var parsed := ParseArchivePage(c);
      LevelContent(InsertFondRow(parsed.table, p.fond, p.fondName),
                   if parsed.fallback.Some? then Some(GetArchivePageTitle(p.archiveAbbr, p.fond)) else None)
  }

  /** What `updateArchivePage` writes and reports, given what was read under its title. */
  function UpdateArchivePage(existing: Option<string>, p: ArchivePageParams): (r: LevelUpdate)
    ensures r.title == GetArchivePageTitle(p.archiveAbbr, p.fond) && r.summary == "Додано фонд " + p.fond
    ensures r.created <==> existing.None?
    ensures r.warning.Some? <==> existing.Some? && ParseSpec(existing.value, ParentLinkOpen).Failure?
    ensures r.warning.Some? ==> r.warning == Some(r.title)
  {
    var w := BuildOrUpdateArchiveContent(existing, p);
    LevelUpdate(GetArchivePageTitle(p.archiveAbbr, p.fond), w.content, "Додано фонд " + p.fond, existing.None?, w.warning)
  }

  /**
   * A page without a table keeps its text, gets the archive table with only
   * the new row after a blank line, and a warning titled with the page.
   */
  lemma ArchiveFallback(c: string, p: ArchivePageParams)
    requires ParseSpec(c, ParentLinkOpen).Failure?
    ensures BuildOrUpdateArchiveContent(Some(c), p)
      == LevelContent(c + "\n\n" + SchemaTable(ArchiveSchema, [BuildFondRow(p.fond, p.fondName, 4)]),
                      Some("Архів:" + p.archiveAbbr + "/" + ExtractFondPrefix(p.fond)))
  {
    FallbackInsert(c, ArchiveSchema, ParentLinkOpen, p.fond, [p.fondName, "", ""], "../", FondCompare);
  }

  /** A page that already lists the fond, and parses back to itself, is written back unchanged. */
  lemma ArchivePresentUnchanged(c: string, p: ArchivePageParams, start: nat, end: nat)
    requires IndexOf(c, "{|", 0) == Some(start)
    requires IndexOf(c, "\n|}", start) == Some(end)
    requires WellFormedTable(Split(c[start..end + 3], '\n'))
    requires ParseSpec(c, ParentLinkOpen).Success? && HasId(ParseSpec(c, ParentLinkOpen).value.rows, p.fond)
    ensures BuildOrUpdateArchiveContent(Some(c), p) == LevelContent(c, None)
  {
    var t := ParseSpec(c, ParentLinkOpen).value;
    PresentUnchanged(c, ArchiveSchema, ParentLinkOpen, p.fond,
      BuildFondRow(p.fond, p.fondName, t.columnCount), FondCompare, start, end);
  }

  /**
   * A page whose table lists fonds in `fondCompare` order, each a prefix
   * and a plain number, gets the fond listed and stays in that order.
   */
  lemma ArchiveInsertSorted(c: string, p: ArchivePageParams)
    requires ParseSpec(c, ParentLinkOpen).Success?
    requires SortedBy(ParseSpec(c, ParentLinkOpen).value.rows, FondCompare)
    requires PlainId(StripPrefix(p.fond))
    requires forall s :: s in Ids(ParseSpec(c, ParentLinkOpen).value.rows) ==> PlainId(StripPrefix(s))
    ensures var t := ParseSpec(c, ParentLinkOpen).value;
      var rows := InsertedRows(t.rows, p.fond, BuildFondRow(p.fond, p.fondName, t.columnCount), FondCompare);
      && BuildOrUpdateArchiveContent(Some(c), p) == LevelContent(Rebuild(t.(rows := rows)), None)
      && HasId(rows, p.fond) && SortedBy(rows, FondCompare)
  {
    var t := ParseSpec(c, ParentLinkOpen).value;
    FondPreorder(Ids(t.rows) + {p.fond});
    InsertSorted(c, ArchiveSchema, ParentLinkOpen, p.fond,
      BuildFondRow(p.fond, p.fondName, t.columnCount), FondCompare);
  }
}
