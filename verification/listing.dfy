/**
 * What the three listing levels (opys, fond and archive pages) share: a
 * fresh page is a template, a heading and a table holding either the new row
 * alone or a placeholder row followed by it; an existing page is parsed, or
 * replaced by an empty table from the level's schema when it has none, and
 * gets the new row inserted at its sorted place.
 */
module Listing {
  import opened Text
  import opened WikiTable
  import opened TableEdit
  import opened NaturalOrder

  /** The content a level writes, and the title of the warning it logs when the page had no table. */
  datatype LevelContent = LevelContent(content: string, warning: Option<string>)

  /** What an `update*Page` call writes and reports, given what was read under its title. */
  datatype LevelUpdate = LevelUpdate(title: string, content: string, summary: string, created: bool, warning: Option<string>)

  /** The text of a table with the schema's start and header lines and the given rows. */
  function SchemaTable(schema: FallbackSchema, rowTexts: seq<string>): string {
    schema.tableStart + "\n" + schema.headerLine + "\n" + Join(rowTexts, "\n") + "\n|}"
  }

  /** A fresh page: the head text, then the schema's table with the given rows, then nothing. */
  function FreshPage(head: string, schema: FallbackSchema, rowTexts: seq<string>): string {
    head + SchemaTable(schema, rowTexts)
  }

  /**
   * A fresh page whose head is an opening, a parameter line, the rest of the
   * template (starting a new line) and a heading: after the parameter line
   * comes a new line.
   */
  lemma FreshPageAfterLine(open: string, line: string, rest: string, heading: string,
                           schema: FallbackSchema, rowTexts: seq<string>)
    requires rest != [] && rest[0] == '\n'
    ensures FreshPage(open + line + rest + heading, schema, rowTexts)
      == open + line + (rest + heading + SchemaTable(schema, rowTexts))
    ensures (rest + heading + SchemaTable(schema, rowTexts))[0] == '\n'
  {
  }

  /** The first-row rule: the row for the first id stands alone, any other gets the placeholder before it. */
  function FreshRows(isFirst: bool, placeholder: string, actual: string): seq<string> {
    if isFirst then [actual] else [placeholder, actual]
  }

  /**
   * A fresh page is the page of a table: the head before it, the schema's
   * start and header lines, the given rows and nothing after.
   */
  lemma FreshPageIsTable(head: string, schema: FallbackSchema, rows: seq<Row>)
    requires |rows| > 0 && rows[0].raw != ""
    ensures FreshPage(head, schema, Raws(rows))
      == Rebuild(ParsedWikiTable(head, schema.tableStart, schema.headerLine, rows, "", schema.columnCount))
  {
    assert Raws(rows)[0] == rows[0].raw;
    JoinNonEmpty(Raws(rows), "\n");
    var table := SchemaTable(schema, Raws(rows));
    assert head + table + "" == head + table;
  }

  /**
   * The fresh page of a placeholder row and an actual row is the page of a
   * table of those rows, and each row carries the id read from it when both
   * do.
   */
  lemma FreshRowsTable(head: string, schema: FallbackSchema, isFirst: bool, placeholder: Row, actual: Row, open: string)
    requires placeholder.raw != "" && actual.raw != ""
    requires placeholder.id == FindId(placeholder.raw, open, 0) && actual.id == FindId(actual.raw, open, 0)
    ensures var rows := if isFirst then [actual] else [placeholder, actual];
      && FreshPage(head, schema, FreshRows(isFirst, placeholder.raw, actual.raw))
           == Rebuild(ParsedWikiTable(head, schema.tableStart, schema.headerLine, rows, "", schema.columnCount))
      && forall k :: 0 <= k < |rows| ==> rows[k].id == FindId(rows[k].raw, open, 0)
  {
    RawsOfTwo(placeholder, actual);
    if isFirst {
      FreshPageIsTable(head, schema, [actual]);
    } else {
      FreshPageIsTable(head, schema, [placeholder, actual]);
    }
  }

  /** The raw texts of one or two rows. */
  lemma RawsOfTwo(a: Row, b: Row)
    ensures Raws([a]) == [a.raw] && Raws([a, b]) == [a.raw, b.raw]
  {
    assert [a, b][1..] == [b];
  }

  /**
   * An existing page without a table keeps its text verbatim and gets the
   * schema's table appended after a blank line, holding only the new row,
   * built for the schema's column count.
   */
  lemma FallbackInsert(content: string, schema: FallbackSchema, open: string, id: string,
                       cells: seq<string>, linkPrefix: string, cmp: (string, string) -> int)
    requires ParseSpec(content, open).Failure?
    ensures var t := ParseOrEmptyTable(content, schema, open).table;
      InsertRowText(t, id, RowText(id, cells, t.columnCount, linkPrefix), cmp)
        == content + "\n\n" + SchemaTable(schema, [RowText(id, cells, schema.columnCount, linkPrefix)])
  {
    var t := ParseOrEmptyTable(content, schema, open).table;
    var raw := RowText(id, cells, schema.columnCount, linkPrefix);
    var row := Row(raw, Some(id));
    assert t.rows == [] && !HasId(t.rows, id);
    assert InsertedRows(t.rows, id, raw, cmp) == [row];
    FreshPageIsTable(content + "\n\n", schema, [row]);
    RawsOfTwo(row, row);
  }

  /**
   * An existing page whose table already lists the id, and which parses
   * back to itself, is written back unchanged.
   */
  lemma PresentUnchanged(content: string, schema: FallbackSchema, open: string, id: string,
                         raw: string, cmp: (string, string) -> int, start: nat, end: nat)
    requires IndexOf(content, "{|", 0) == Some(start)
    requires IndexOf(content, "\n|}", start) == Some(end)
    requires WellFormedTable(Split(content[start..end + 3], '\n'))
    requires ParseSpec(content, open).Success? && HasId(ParseSpec(content, open).value.rows, id)
    ensures ParseOrEmptyTable(content, schema, open).fallback.None?
    ensures InsertRowText(ParseOrEmptyTable(content, schema, open).table, id, raw, cmp) == content
  {
    RoundTrip(content, open, start, end);
  }

  /**
   * An existing page with a sorted table gets the id listed, the table kept
   * sorted, and everything around the rows kept, provided the comparison is
   * a total preorder on the ids involved.
   */
  lemma InsertSorted(content: string, schema: FallbackSchema, open: string, id: string,
                     raw: string, cmp: (string, string) -> int)
    requires ParseSpec(content, open).Success?
    requires SortedBy(ParseSpec(content, open).value.rows, cmp)
    requires TotalPreorderOn(cmp, Ids(ParseSpec(content, open).value.rows) + {id})
    ensures var t := ParseSpec(content, open).value;
      var rows := InsertedRows(t.rows, id, raw, cmp);
      && ParseOrEmptyTable(content, schema, open).fallback.None?
      && InsertRowText(ParseOrEmptyTable(content, schema, open).table, id, raw, cmp) == Rebuild(t.(rows := rows))
      && HasId(rows, id) && SortedBy(rows, cmp)
  {
    var t := ParseSpec(content, open).value;
    InsertIdempotent(t.rows, id, raw, raw, cmp);
    InsertKeepsSorted(t.rows, id, raw, cmp);
  }
}
