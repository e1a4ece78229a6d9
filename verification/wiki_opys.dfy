/**
 * The page of an inventory (opys) on Wikisource (src/lib/wikisource-opys.ts):
 * an `{{Архіви/опис ...}}` template followed by a five-column table listing
 * its files (sprava), one row each, ordered by `naturalCompare`.
 */
module WikiOpys {
  import opened Text
  import opened WikiTable
  import opened TableEdit
  import opened NaturalOrder
  import opened WikiTemplate
  import opened Listing

  datatype OpysPageParams = OpysPageParams(
    archiveAbbr: string,
    fond: string,
    opys: string,
    sprava: string,
    spravaName: string,
    opysName: string,
    dates: string)

  /** The page title the opys page is read from and written to, also the warning's title. */
  function OpysPageTitle(p: OpysPageParams): string {
    "Архів:" + p.archiveAbbr + "/" + p.fond + "/" + p.opys
  }

  /** `buildSpravaRow`: the link to the sprava, its name and dates, then empty pages and notes. */
  function BuildSpravaRow(sprava: string, name: string, dates: string, columnCount: nat): string {
    RowText(sprava, [name, dates, "", ""], columnCount, "/")
  }

  /**
   * A sprava row has the link, name, dates and two empty cells on a page of
   * five columns, and the id pattern reads the sprava back from it.
   */
  lemma SpravaRowShape(sprava: string, name: string, dates: string, columnCount: nat)
    requires columnCount >= 1 && sprava != "" && '/' !in sprava
    ensures columnCount == 5 ==>
      RowCells(sprava, [name, dates, "", ""], columnCount, "/") == [LinkCell(sprava, "/"), name, dates, "", ""]
    ensures FindId(BuildSpravaRow(sprava, name, dates, columnCount), SelfLinkOpen, 0) == Some(sprava)
  {
    BuildRowId(sprava, [name, dates, "", ""], columnCount, "/");
    assert "[[" + "/" == SelfLinkOpen;
  }

  /** The column headings of an opys table. */
  const OpysColumns: seq<string> := ["№", "Назва", "Роки", "Сторінки", "Примітки"]

  /** `OPYS_SCHEMA`, which is also the table a fresh page starts with. */
  const OpysSchema: FallbackSchema :=
    FallbackSchema("{| class=\"wikitable sortable\"", "!" + Join(OpysColumns, "!!"), 5)

  /** The header line of the schema has as many columns as the schema says, so a reparse agrees. */
  lemma OpysSchemaColumns()
    ensures SeparatorCount(OpysSchema.headerLine) + 1 == OpysSchema.columnCount
  {
    HeaderColumnCount(OpysColumns, "!!");
  }

  /** The template block of a fresh page: its opening, the name line, and the rest of its lines. */
  const OpysOpen: string := "{{Архіви/опис\n  "
  const OpysRest: string := "\n  | рік =\n  | примітки =\n}}"

  function OpysTemplate(opysName: string): string {
    OpysOpen + ParamLine("назва", opysName) + OpysRest
  }

  /** Everything a fresh page holds before its table. */
  function OpysHead(p: OpysPageParams): string {
    OpysTemplate(p.opysName) + "\n\n== Справи ==\n"
  }

  /**
   * `buildNewOpysPage`: the template, the heading and the table; sprava `1`
   * stands alone, any other comes after a blank placeholder row `1`.
   */
  function BuildNewOpysPage(p: OpysPageParams): string {
    FreshPage(OpysHead(p), OpysSchema,
      FreshRows(p.sprava == "1", BuildSpravaRow("1", "", "", 5), BuildSpravaRow(p.sprava, p.spravaName, p.dates, 5)))
  }

  /**
   * A fresh page is the page of an opys table: the template and heading
   * before it, the schema's lines, and either the sprava's row alone (for
   * sprava `1`) or the placeholder row `1` and then the sprava's row, each
   * carrying the id the parser reads from it.
   */
  lemma NewOpysPageTable(p: OpysPageParams)
    requires p.sprava != "" && '/' !in p.sprava
    ensures var actual := Row(BuildSpravaRow(p.sprava, p.spravaName, p.dates, 5), Some(p.sprava));
      var placeholder := Row(BuildSpravaRow("1", "", "", 5), Some("1"));
      var rows := if p.sprava == "1" then [actual] else [placeholder, actual];
      && BuildNewOpysPage(p)
           == Rebuild(ParsedWikiTable(OpysHead(p), OpysSchema.tableStart, OpysSchema.headerLine, rows, "", 5))
      && forall k :: 0 <= k < |rows| ==> rows[k].id == FindId(rows[k].raw, SelfLinkOpen, 0)
  {
    var actual := Row(BuildSpravaRow(p.sprava, p.spravaName, p.dates, 5), Some(p.sprava));
    var placeholder := Row(BuildSpravaRow("1", "", "", 5), Some("1"));
    SpravaRowShape(p.sprava, p.spravaName, p.dates, 5);
    SpravaRowShape("1", "", "", 5);
    assert placeholder.raw[0] == '|' && actual.raw[0] == '|';
    FreshRowsTable(OpysHead(p), OpysSchema, p.sprava == "1", placeholder, actual, SelfLinkOpen);
  }

  /** The name of the opys reads back from a fresh page. */
  lemma NewOpysPageName(p: OpysPageParams)
    requires '\n' !in p.opysName
    ensures PlainName("назва")
    ensures GetTemplateParam(BuildNewOpysPage(p), "назва") == Some(Trim(p.opysName))
  {
    var rows := FreshRows(p.sprava == "1", BuildSpravaRow("1", "", "", 5), BuildSpravaRow(p.sprava, p.spravaName, p.dates, 5));
    PageNamesPlain();
    FreshPageAfterLine(OpysOpen, ParamLine("назва", p.opysName), OpysRest, "\n\n== Справи ==\n", OpysSchema, rows);
    OpysOpenNoKey();
    FirstParamReads(OpysOpen, "назва", p.opysName, OpysRest + "\n\n== Справи ==\n" + SchemaTable(OpysSchema, rows));
  }

  lemma OpysOpenNoKey()
    ensures forall i :: 0 <= i < |OpysOpen| ==> OpysOpen[i] != '|' && OpysOpen[i] != '='
  {
  }

  /** `parseOpysPage`: the parsed table, or the schema's empty table when the page has none. */
  function ParseOpysPage(content: string): TableOrFallback {
    ParseOrEmptyTable(content, OpysSchema, SelfLinkOpen)
  }

  /** `insertSpravaRow`: a row built for the parsed column count, inserted in natural order. */
  function InsertSpravaRow(parsed: ParsedWikiTable, sprava: string, name: string, dates: string): string {
    InsertRowText(parsed, sprava, BuildSpravaRow(sprava, name, dates, parsed.columnCount), NaturalCompare)
  }

  /**
   * `buildOrUpdateOpysContent`: a fresh page for a missing page; otherwise
   * the row inserted into the parsed or fallback table, with the warning
   * that `parseOpysPage` logs when it falls back.
   */
  function BuildOrUpdateOpysContent(existing: Option<string>, p: OpysPageParams): LevelContent {
    match existing
    case None => LevelContent(BuildNewOpysPage(p), None)
    case Some(c) =>
      var parsed := ParseOpysPage(c);
      LevelContent(InsertSpravaRow(parsed.table, p.sprava, p.spravaName, p.dates),
                   if parsed.fallback.Some? then Some(OpysPageTitle(p)) else None)
  }

  /** What `updateOpysPage` writes and reports, given what was read under its title. */
  function UpdateOpysPage(existing: Option<string>, p: OpysPageParams): (r: LevelUpdate)
    ensures r.title == OpysPageTitle(p) && r.summary == "Додано справу " + p.sprava
    ensures r.created <==> existing.None?
    ensures r.warning.Some? <==> existing.Some? && ParseSpec(existing.value, SelfLinkOpen).Failure?
    ensures r.warning.Some? ==> r.warning == Some(r.title)
  {
    var w := BuildOrUpdateOpysContent(existing, p);
    LevelUpdate(OpysPageTitle(p), w.content, "Додано справу " + p.sprava, existing.None?, w.warning)
  }

  /**
   * A page without a table keeps its text, gets the opys table with only the
   * new row after a blank line, and a warning titled with the opys page.
   */
  lemma OpysFallback(c: string, p: OpysPageParams)
    requires ParseSpec(c, SelfLinkOpen).Failure?
    ensures BuildOrUpdateOpysContent(Some(c), p)
      == LevelContent(c + "\n\n" + SchemaTable(OpysSchema, [BuildSpravaRow(p.sprava, p.spravaName, p.dates, 5)]),
                      Some("Архів:" + p.archiveAbbr + "/" + p.fond + "/" + p.opys))
  {
    FallbackInsert(c, OpysSchema, SelfLinkOpen, p.sprava, [p.spravaName, p.dates, "", ""], "/", NaturalCompare);
  }

  /** A page that already lists the sprava, and parses back to itself, is written back unchanged. */
  lemma OpysPresentUnchanged(c: string, p: OpysPageParams, start: nat, end: nat)
    requires IndexOf(c, "{|", 0) == Some(start)
    requires IndexOf(c, "\n|}", start) == Some(end)
    requires WellFormedTable(Split(c[start..end + 3], '\n'))
    requires ParseSpec(c, SelfLinkOpen).Success? && HasId(ParseSpec(c, SelfLinkOpen).value.rows, p.sprava)
    ensures BuildOrUpdateOpysContent(Some(c), p) == LevelContent(c, None)
  {
    var t := ParseSpec(c, SelfLinkOpen).value;
    PresentUnchanged(c, OpysSchema, SelfLinkOpen, p.sprava,
      BuildSpravaRow(p.sprava, p.spravaName, p.dates, t.columnCount), NaturalCompare, start, end);
  }

  /**
   * A page whose table lists plain ids in natural order gets the sprava
   * listed and stays in natural order, with no placeholder row added.
   */
  lemma OpysInsertSorted(c: string, p: OpysPageParams)
    requires ParseSpec(c, SelfLinkOpen).Success?
    requires SortedBy(ParseSpec(c, SelfLinkOpen).value.rows, NaturalCompare)
    requires PlainId(p.sprava) && forall s :: s in Ids(ParseSpec(c, SelfLinkOpen).value.rows) ==> PlainId(s)
    ensures var t := ParseSpec(c, SelfLinkOpen).value;
      var rows := InsertedRows(t.rows, p.sprava, BuildSpravaRow(p.sprava, p.spravaName, p.dates, t.columnCount), NaturalCompare);
      && BuildOrUpdateOpysContent(Some(c), p) == LevelContent(Rebuild(t.(rows := rows)), None)
      && HasId(rows, p.sprava) && SortedBy(rows, NaturalCompare)
  {
    var t := ParseSpec(c, SelfLinkOpen).value;
    PlainPreorder(Ids(t.rows) + {p.sprava});
    InsertSorted(c, OpysSchema, SelfLinkOpen, p.sprava,
      BuildSpravaRow(p.sprava, p.spravaName, p.dates, t.columnCount), NaturalCompare);
  }
}
