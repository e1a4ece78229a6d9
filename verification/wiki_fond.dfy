/**
 * The page of a fond on Wikisource (src/lib/wikisource-fond.ts): an
 * `{{Архіви/фонд ...}}` template followed by a four-column table listing its
 * inventories (opys), one row each, ordered by `naturalCompare`.
 */
module WikiFond {
  import opened Text
  import opened WikiTable
  import opened TableEdit
  import opened NaturalOrder
  import opened WikiTemplate
  import opened Listing

  datatype FondPageParams = FondPageParams(
    archiveAbbr: string,
    fond: string,
    opys: string,
    opysName: string,
    fondName: string)

  /** The page title the fond page is read from and written to, also the warning's title. */
  function FondPageTitle(p: FondPageParams): string {
    "Архів:" + p.archiveAbbr + "/" + p.fond
  }

  /** `buildOpysRow`: the link to the opys, its name, then empty dates and count. */
  function BuildOpysRow(opys: string, name: string, columnCount: nat): string {
    RowText(opys, [name, "", ""], columnCount, "/")
  }

  /**
   * An opys row has the link, the name and two empty cells on a page of four
   * columns, and the id pattern reads the opys back from it.
   */
  lemma OpysRowShape(opys: string, name: string, columnCount: nat)
    requires columnCount >= 1 && opys != "" && '/' !in opys
    ensures columnCount == 4 ==>
      RowCells(opys, [name, "", ""], columnCount, "/") == [LinkCell(opys, "/"), name, "", ""]
    ensures FindId(BuildOpysRow(opys, name, columnCount), SelfLinkOpen, 0) == Some(opys)
  {
    BuildRowId(opys, [name, "", ""], columnCount, "/");
    assert "[[" + "/" == SelfLinkOpen;
  }

  /** The column headings of a fond table. */
  const FondColumns: seq<string> := ["№", "Анотація", "Крайні дати", "Справ"]

  /** `FOND_SCHEMA`, which is also the table a fresh page starts with. */
  const FondSchema: FallbackSchema :=
    FallbackSchema("{| class=\"wikitable sortable\"", "!" + Join(FondColumns, "!!"), 4)

  /** The header line of the schema has as many columns as the schema says, so a reparse agrees. */
  lemma FondSchemaColumns()
    ensures SeparatorCount(FondSchema.headerLine) + 1 == FondSchema.columnCount
  {
    HeaderColumnCount(FondColumns, "!!");
  }

  /** The template block of a fresh page: its opening, the name line, and the rest of its lines. */
  const FondOpen: string := "{{Архіви/фонд\n  "
  const FondRest: string := "\n  | примітки =\n}}"

  function FondTemplate(fondName: string): string {
    FondOpen + ParamLine("назва", fondName) + FondRest
  }

  /** Everything a fresh page holds before its table. */
  function FondHead(p: FondPageParams): string {
    FondTemplate(p.fondName) + "\n\n== Описи ==\n"
  }

  /**
   * `buildNewFondPage`: the template, the heading and the table; opys `1`
   * stands alone, any other comes after a blank placeholder row `1`.
   */
  function BuildNewFondPage(p: FondPageParams): string {
    FreshPage(FondHead(p), FondSchema,
      FreshRows(p.opys == "1", BuildOpysRow("1", "", 4), BuildOpysRow(p.opys, p.opysName, 4)))
  }

  /**
   * A fresh page is the page of a fond table: the template and heading
   * before it, the schema's lines, and either the opys's row alone (for
   * opys `1`) or the placeholder row `1` and then the opys's row, each
   * carrying the id the parser reads from it.
   */
  lemma NewFondPageTable(p: FondPageParams)
    requires p.opys != "" && '/' !in p.opys
    ensures var actual := Row(BuildOpysRow(p.opys, p.opysName, 4), Some(p.opys));
      var placeholder := Row(BuildOpysRow("1", "", 4), Some("1"));
      var rows := if p.opys == "1" then [actual] else [placeholder, actual];
      && BuildNewFondPage(p)
           == Rebuild(ParsedWikiTable(FondHead(p), FondSchema.tableStart, FondSchema.headerLine, rows, "", 4))
      && forall k :: 0 <= k < |rows| ==> rows[k].id == FindId(rows[k].raw, SelfLinkOpen, 0)
  {
    var actual := Row(BuildOpysRow(p.opys, p.opysName, 4), Some(p.opys));
    var placeholder := Row(BuildOpysRow("1", "", 4), Some("1"));
    OpysRowShape(p.opys, p.opysName, 4);
    OpysRowShape("1", "", 4);
    assert placeholder.raw[0] == '|' && actual.raw[0] == '|';
    FreshRowsTable(FondHead(p), FondSchema, p.opys == "1", placeholder, actual, SelfLinkOpen);
  }

  /** The name of the fond reads back from a fresh page. */
  lemma NewFondPageName(p: FondPageParams)
    requires '\n' !in p.fondName
    ensures PlainName("назва")
    ensures GetTemplateParam(BuildNewFondPage(p), "назва") == Some(Trim(p.fondName))
  {
    var rows := FreshRows(p.opys == "1", BuildOpysRow("1", "", 4), BuildOpysRow(p.opys, p.opysName, 4));
    PageNamesPlain();
    FreshPageAfterLine(FondOpen, ParamLine("назва", p.fondName), FondRest, "\n\n== Описи ==\n", FondSchema, rows);
    FondOpenNoKey();
    FirstParamReads(FondOpen, "назва", p.fondName, FondRest + "\n\n== Описи ==\n" + SchemaTable(FondSchema, rows));
  }

  lemma FondOpenNoKey()
    ensures forall i :: 0 <= i < |FondOpen| ==> FondOpen[i] != '|' && FondOpen[i] != '='
  {
  }

  /**
   * `parseFondPage`: the strict parse, which fails where the page has no
   * table; it agrees with the table `buildOrUpdateFondContent` works on
   * whenever it succeeds, and fails exactly when that one falls back.
   */
  function ParseFondPage(content: string): (r: Result<ParsedWikiTable, ParseError>)
    ensures r.Success? <==> ParseOrEmptyTable(content, FondSchema, SelfLinkOpen).fallback.None?
    ensures r.Success? ==> r.value == ParseOrEmptyTable(content, FondSchema, SelfLinkOpen).table
    ensures r.Failure? ==> ParseOrEmptyTable(content, FondSchema, SelfLinkOpen).fallback == Some(r.error)
  {
    ParseSpec(content, SelfLinkOpen)
  }

  /** `insertOpysRow`: a row built for the parsed column count, inserted in natural order. */
  function InsertOpysRow(parsed: ParsedWikiTable, opys: string, name: string): string {
    InsertRowText(parsed, opys, BuildOpysRow(opys, name, parsed.columnCount), NaturalCompare)
  }

  /**
   * `buildOrUpdateFondContent`: a fresh page for a missing page; otherwise
   * the row inserted into the parsed or fallback table, with the warning it
   * logs when it falls back.
   */
  function BuildOrUpdateFondContent(existing: Option<string>, p: FondPageParams): LevelContent {
    match existing
    case None => LevelContent(BuildNewFondPage(p), None)
    case Some(c) =>
      var parsed := ParseOrEmptyTable(c, FondSchema, SelfLinkOpen);
      LevelContent(InsertOpysRow(parsed.table, p.opys, p.opysName),
                   if parsed.fallback.Some? then Some(FondPageTitle(p)) else None)
  }

  /** What `updateFondPage` writes and reports, given what was read under its title. */
  function UpdateFondPage(existing: Option<string>, p: FondPageParams): (r: LevelUpdate)
    ensures r.title == FondPageTitle(p) && r.summary == "Додано опис " + p.opys
    ensures r.created <==> existing.None?
    ensures r.warning.Some? <==> existing.Some? && ParseSpec(existing.value, SelfLinkOpen).Failure?
    ensures r.warning.Some? ==> r.warning == Some(r.title)
  {
    var w := BuildOrUpdateFondContent(existing, p);
    LevelUpdate(FondPageTitle(p), w.content, "Додано опис " + p.opys, existing.None?, w.warning)
  }

  /**
   * A page without a table keeps its text, gets the fond table with only the
   * new row after a blank line, and a warning titled with the fond page.
   */
  lemma FondFallback(c: string, p: FondPageParams)
    requires ParseSpec(c, SelfLinkOpen).Failure?
    ensures BuildOrUpdateFondContent(Some(c), p)
      == LevelContent(c + "\n\n" + SchemaTable(FondSchema, [BuildOpysRow(p.opys, p.opysName, 4)]),
                      Some("Архів:" + p.archiveAbbr + "/" + p.fond))
  {
    FallbackInsert(c, FondSchema, SelfLinkOpen, p.opys, [p.opysName, "", ""], "/", NaturalCompare);
  }

  /** A page that already lists the opys, and parses back to itself, is written back unchanged. */
  lemma FondPresentUnchanged(c: string, p: FondPageParams, start: nat, end: nat)
    requires IndexOf(c, "{|", 0) == Some(start)
    requires IndexOf(c, "\n|}", start) == Some(end)
    requires WellFormedTable(Split(c[start..end + 3], '\n'))
    requires ParseSpec(c, SelfLinkOpen).Success? && HasId(ParseSpec(c, SelfLinkOpen).value.rows, p.opys)
    ensures BuildOrUpdateFondContent(Some(c), p) == LevelContent(c, None)
  {
    var t := ParseSpec(c, SelfLinkOpen).value;
    PresentUnchanged(c, FondSchema, SelfLinkOpen, p.opys,
      BuildOpysRow(p.opys, p.opysName, t.columnCount), NaturalCompare, start, end);
  }

  /**
   * A page whose table lists plain ids in natural order gets the opys
   * listed and stays in natural order, with no placeholder row added.
   */
  lemma FondInsertSorted(c: string, p: FondPageParams)
    requires ParseSpec(c, SelfLinkOpen).Success?
    requires SortedBy(ParseSpec(c, SelfLinkOpen).value.rows, NaturalCompare)
    requires PlainId(p.opys) && forall s :: s in Ids(ParseSpec(c, SelfLinkOpen).value.rows) ==> PlainId(s)
    ensures var t := ParseSpec(c, SelfLinkOpen).value;
      var rows := InsertedRows(t.rows, p.opys, BuildOpysRow(p.opys, p.opysName, t.columnCount), NaturalCompare);
      && BuildOrUpdateFondContent(Some(c), p) == LevelContent(Rebuild(t.(rows := rows)), None)
      && HasId(rows, p.opys) && SortedBy(rows, NaturalCompare)
  {
    var t := ParseSpec(c, SelfLinkOpen).value;
    PlainPreorder(Ids(t.rows) + {p.opys});
    InsertSorted(c, FondSchema, SelfLinkOpen, p.opys,
      BuildOpysRow(p.opys, p.opysName, t.columnCount), NaturalCompare);
  }
}
