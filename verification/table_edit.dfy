/**
 * Editing a parsed table (src/lib/wikitable.ts): building a new row,
 * inserting it at its sorted place unless its id is already there, and
 * falling back to an empty table appended to the page when the page has no
 * parsable table.
 */
module TableEdit {
  import opened Text
  import opened WikiTable
  import opened NaturalOrder

  // ---------------------------------------------------------------------------
  // buildRow

  /** The self-link cell of a row: `[[` + prefix + id + `/]]`. */
  function LinkCell(id: string, linkPrefix: string): string {
    "[[" + linkPrefix + id + "/]]"
  }

  /** The cells of a new row: the link, then the given cells, padded with empty cells or cut to the column count. */
  function RowCells(id: string, cells: seq<string>, columnCount: nat, linkPrefix: string): (r: seq<string>)
    ensures |r| == columnCount
    ensures columnCount > 0 ==> r[0] == LinkCell(id, linkPrefix)
    ensures forall k :: 1 <= k < columnCount ==> r[k] == (if k - 1 < |cells| then cells[k - 1] else "")
  {
    var all := [LinkCell(id, linkPrefix)] + cells;
    if |all| < columnCount then all + seq(columnCount - |all|, _ => "") else all[..columnCount]
  }

  /** The text of a new row. */
  function RowText(id: string, cells: seq<string>, columnCount: nat, linkPrefix: string): string {
    "|-\n|" + Join(RowCells(id, cells, columnCount, linkPrefix), "||")
  }

  /** `buildRow`: pads with a loop and truncates, as the source does. */
  method BuildRow(id: string, cells: seq<string>, columnCount: nat, linkPrefix: string) returns (r: string)
    ensures r == RowText(id, cells, columnCount, linkPrefix)
  {
    var allCells := [LinkCell(id, linkPrefix)] + cells;
    while |allCells| < columnCount
      invariant |allCells| <= columnCount || allCells == [LinkCell(id, linkPrefix)] + cells
      invariant |allCells| >= 1 + |cells|
      invariant allCells[..1 + |cells|] == [LinkCell(id, linkPrefix)] + cells
      invariant forall k :: 1 + |cells| <= k < |allCells| ==> allCells[k] == ""
      decreases columnCount - |allCells|
    {
      allCells := allCells + [""];
    }
    if |allCells| > columnCount {
      allCells := allCells[..columnCount];
    }
    assert allCells == RowCells(id, cells, columnCount, linkPrefix);
    r := "|-\n|" + Join(allCells, "||");
  }

  lemma JoinStartsWithFirst(parts: seq<string>, sep: string)
    requires |parts| > 0
    ensures StartsWith(Join(parts, sep), parts[0])
  {
    if |parts| > 1 {
      assert Join(parts, sep) == parts[0] + (sep + Join(parts[1..], sep));
      assert Join(parts, sep)[..|parts[0]|] == parts[0];
    }
  }

  /**
   * A built row gives its id back when parsed: with the link opening that
   * matches the prefix, the leftmost id match is the row's own link.
   */
  lemma BuildRowId(id: string, cells: seq<string>, columnCount: nat, linkPrefix: string)
    requires columnCount >= 1 && |id| >= 1 && '/' !in id
    ensures FindId(RowText(id, cells, columnCount, linkPrefix), "[[" + linkPrefix, 0) == Some(id)
  {
    var open := "[[" + linkPrefix;
    var raw := RowText(id, cells, columnCount, linkPrefix);
    RowTextShape(id, cells, columnCount, linkPrefix);
    IdMatchAtComplete(raw, open, 4, id);
    forall j | 0 <= j < 4 ensures IdMatchAt(raw, open, j).None? {
      NoMatchAt(raw, open, j);
    }
    FindIdLeftmost(raw, open, 0, 4);
  }

  /** A row text is `|-`, a new line, `|`, then the link cell. */
  lemma RowTextShape(id: string, cells: seq<string>, columnCount: nat, linkPrefix: string)
    requires columnCount >= 1
    ensures var raw := RowText(id, cells, columnCount, linkPrefix);
      && |raw| >= 4 && raw[..4] == "|-\n|"
      && StartsWith(raw[4..], "[[" + linkPrefix + id + "/]]")
  {
    var rc := RowCells(id, cells, columnCount, linkPrefix);
    JoinStartsWithFirst(rc, "||");
    var raw := "|-\n|" + Join(rc, "||");
    assert raw[4..] == Join(rc, "||");
    assert "[[" + linkPrefix + id + "/]]" == LinkCell(id, linkPrefix);
  }

  /** No id match starts at a character other than the first of the link opening. */
  lemma NoMatchAt(raw: string, open: string, j: nat)
    requires j < |raw| && open != [] && raw[j] != open[0]
    ensures IdMatchAt(raw, open, j).None?
  {
    assert raw[j..][0] == raw[j];
  }

  // ---------------------------------------------------------------------------
  // insertRow

  /** Some row already carries the id (`rows.some(r => r.id === id)`). */
  predicate HasId(rows: seq<Row>, id: string) {
    exists k | 0 <= k < |rows| :: rows[k].id == Some(id)
  }

  /** The row a new id goes before: the first row with an id that compares after it. */
  function InsertIndex(rows: seq<Row>, id: string, cmp: (string, string) -> int, from: nat): (k: nat)
    requires from <= |rows|
    ensures from <= k <= |rows|
    ensures forall j :: from <= j < k ==> rows[j].id.None? || cmp(rows[j].id.value, id) <= 0
    ensures k < |rows| ==> rows[k].id.Some? && cmp(rows[k].id.value, id) > 0
    decreases |rows| - from
  {
    if from == |rows| then from
    else if rows[from].id.Some? && cmp(rows[from].id.value, id) > 0 then from
    else InsertIndex(rows, id, cmp, from + 1)
  }

  /** `splice(k, 0, row)`: the row placed at index `k`, the others kept in order around it. */
  function Splice(rows: seq<Row>, k: nat, row: Row): (r: seq<Row>)
    requires k <= |rows|
    ensures |r| == |rows| + 1 && r[k] == row
    ensures forall i :: 0 <= i < k ==> r[i] == rows[i]
    ensures forall i :: k < i < |r| ==> r[i] == rows[i - 1]
    ensures r[..k] + r[k + 1..] == rows
  {
    var r := rows[..k] + [row] + rows[k..];
    assert r[..k] == rows[..k];
    assert r[k + 1..] == rows[k..];
    r
  }

  /** The rows after insertion: unchanged when the id is present, else the new row spliced in. */
  function InsertedRows(rows: seq<Row>, id: string, raw: string, cmp: (string, string) -> int): seq<Row>
  {
    if HasId(rows, id) then rows
    else
      Splice(rows, InsertIndex(rows, id, cmp, 0), Row(raw, Some(id)))
  }

  /** The page text `insertRow` returns. */
  function InsertRowText(t: ParsedWikiTable, id: string, raw: string, cmp: (string, string) -> int): string {
    Rebuild(t.(rows := InsertedRows(t.rows, id, raw, cmp)))
  }

  /** `insertRow`: the duplicate check, the search loop with its break, and the splice. */
  method InsertRow(t: ParsedWikiTable, id: string, raw: string, cmp: (string, string) -> int) returns (r: string)
    ensures r == InsertRowText(t, id, raw, cmp)
  {
    var rows := t.rows;
    var j := 0;
    while j < |rows|
      invariant 0 <= j <= |rows|
      invariant forall m :: 0 <= m < j ==> rows[m].id != Some(id)
    {
      if rows[j].id == Some(id) {
        return Rebuild(t);
      }
      j := j + 1;
    }
    var insertIdx := |rows|;
    var i := 0;
    while i < |rows|
      invariant 0 <= i <= |rows|
      invariant InsertIndex(rows, id, cmp, 0) == InsertIndex(rows, id, cmp, i)
    {
      if rows[i].id.Some? && cmp(rows[i].id.value, id) > 0 {
        insertIdx := i;
        break;
      }
      i := i + 1;
    }
    var newRows := rows[..insertIdx] + [Row(raw, Some(id))] + rows[insertIdx..];
    assert newRows == Splice(rows, insertIdx, Row(raw, Some(id)));
    r := Rebuild(t.(rows := newRows));
  }

  /** After an insertion the id is present, so inserting it again, with any row text, changes nothing. */
  lemma InsertIdempotent(rows: seq<Row>, id: string, raw: string, raw2: string, cmp: (string, string) -> int)
    ensures HasId(InsertedRows(rows, id, raw, cmp), id)
    ensures InsertedRows(InsertedRows(rows, id, raw, cmp), id, raw2, cmp) == InsertedRows(rows, id, raw, cmp)
  {
    if !HasId(rows, id) {
      var k := InsertIndex(rows, id, cmp, 0);
      assert InsertedRows(rows, id, raw, cmp)[k].id == Some(id);
    }
  }

  /** The ids of rows that have one. */
  function Ids(rows: seq<Row>): (s: set<string>)
    ensures forall k :: 0 <= k < |rows| && rows[k].id.Some? ==> rows[k].id.value in s
  {
    set k | 0 <= k < |rows| && rows[k].id.Some? :: rows[k].id.value
  }

  /** Rows are sorted by `cmp` when no row with an id comes after a later one with an id. */
  predicate SortedBy(rows: seq<Row>, cmp: (string, string) -> int) {
    forall i, j :: 0 <= i < j < |rows| && rows[i].id.Some? && rows[j].id.Some? ==>
      cmp(rows[i].id.value, rows[j].id.value) <= 0
  }

  /**
   * Insertion keeps a sorted table sorted, provided the comparison is a
   * total preorder on the ids involved.
   */
  lemma InsertKeepsSorted(rows: seq<Row>, id: string, raw: string, cmp: (string, string) -> int)
    requires SortedBy(rows, cmp)
    requires TotalPreorderOn(cmp, Ids(rows) + {id})
    ensures SortedBy(InsertedRows(rows, id, raw, cmp), cmp)
  {
    if !HasId(rows, id) {
      SpliceSorted(rows, InsertIndex(rows, id, cmp, 0), id, raw, cmp, Ids(rows) + {id});
    }
  }

  /** Splicing a row in front of the first row that compares after it keeps the rows sorted. */
  lemma SpliceSorted(rows: seq<Row>, k: nat, id: string, raw: string, cmp: (string, string) -> int, ids: set<string>)
    requires k <= |rows| && SortedBy(rows, cmp)
    requires TotalPreorderOn(cmp, ids) && id in ids && Ids(rows) <= ids
    requires forall j :: 0 <= j < k ==> rows[j].id.None? || cmp(rows[j].id.value, id) <= 0
    requires k < |rows| ==> rows[k].id.Some? && cmp(rows[k].id.value, id) > 0
    ensures SortedBy(Splice(rows, k, Row(raw, Some(id))), cmp)
  {
    NewBeforeAll(rows, k, id, cmp, ids);
    SpliceBetween(rows, k, id, raw, cmp);
  }

  /** A row placed after every row not after it and before every row after it keeps the rows sorted. */
  lemma SpliceBetween(rows: seq<Row>, k: nat, id: string, raw: string, cmp: (string, string) -> int)
    requires k <= |rows| && SortedBy(rows, cmp)
    requires forall j :: 0 <= j < k ==> rows[j].id.None? || cmp(rows[j].id.value, id) <= 0
    requires forall c :: k <= c < |rows| && rows[c].id.Some? ==> cmp(id, rows[c].id.value) <= 0
    ensures SortedBy(Splice(rows, k, Row(raw, Some(id))), cmp)
  {
    var r := Splice(rows, k, Row(raw, Some(id)));
    forall i, j | 0 <= i < j < |r| && r[i].id.Some? && r[j].id.Some?
      ensures cmp(r[i].id.value, r[j].id.value) <= 0
    {
      if i == k {
        assert r[j] == rows[j - 1];
      } else if j == k {
        assert r[i] == rows[i];
      } else {
        var i', j' := if i < k then i else i - 1, if j < k then j else j - 1;
        assert r[i] == rows[i'] && r[j] == rows[j'] && i' < j';
      }
    }
  }

  /** Every row from the first one comparing after the new id on is not before it. */
  lemma NewBeforeAll(rows: seq<Row>, k: nat, id: string, cmp: (string, string) -> int, ids: set<string>)
    requires k <= |rows| && SortedBy(rows, cmp) && TotalPreorderOn(cmp, ids) && id in ids && Ids(rows) <= ids
    requires k < |rows| ==> rows[k].id.Some? && cmp(rows[k].id.value, id) > 0
    ensures forall c :: k <= c < |rows| && rows[c].id.Some? ==> cmp(id, rows[c].id.value) <= 0
  {
    forall c | k <= c < |rows| && rows[c].id.Some? ensures cmp(id, rows[c].id.value) <= 0 {
      NewBeforeRow(rows, k, id, cmp, ids, c);
    }
  }

  /** The new id is not after any row that follows the first row comparing after it. */
  lemma NewBeforeRow(rows: seq<Row>, k: nat, id: string, cmp: (string, string) -> int, ids: set<string>, c: nat)
    requires SortedBy(rows, cmp) && TotalPreorderOn(cmp, ids) && id in ids && Ids(rows) <= ids
    requires k <= c < |rows| && rows[c].id.Some?
    requires rows[k].id.Some? && cmp(rows[k].id.value, id) > 0
    ensures cmp(id, rows[c].id.value) <= 0
  {
    assert rows[k].id.value in ids && rows[c].id.value in ids;
    NewBeforeLater(cmp, ids, id, rows[k].id.value, rows[c].id.value);
  }

  /**
   * The new id against an old row after it: the first greater row `b` is at
   * or before that row `c`, so the new id is not after `c`.
   */
  lemma NewBeforeLater(cmp: (string, string) -> int, ids: set<string>, id: string, b: string, c: string)
    requires TotalPreorderOn(cmp, ids) && id in ids && b in ids && c in ids
    requires cmp(b, id) > 0 && (b == c || cmp(b, c) <= 0)
    ensures cmp(id, c) <= 0
  {
  }

  // ---------------------------------------------------------------------------
  // parseOrEmptyTable

  /** A table together with the error passed to the fallback callback, if parsing failed. */
  datatype TableOrFallback = TableOrFallback(table: ParsedWikiTable, fallback: Option<ParseError>)

  /** `parseOrEmptyTable`: the parsed table, or an empty one from the schema after the whole page. */
  function ParseOrEmptyTable(content: string, schema: FallbackSchema, open: string): TableOrFallback {
    match ParseSpec(content, open)
    case Success(t) => TableOrFallback(t, None)
    case Failure(e) =>
      TableOrFallback(ParsedWikiTable(content + "\n\n", schema.tableStart, schema.headerLine, [], "", schema.columnCount),
                      Some(e))
  }

  /**
   * The fallback keeps the page: the callback hears of exactly the parse
   * error, and the rebuilt page is the old page followed by a blank line and
   * the empty table.
   */
  lemma FallbackKeepsPage(content: string, schema: FallbackSchema, open: string)
    ensures var r := ParseOrEmptyTable(content, schema, open);
      && (r.fallback.None? <==> ParseSpec(content, open).Success?)
      && (r.fallback.None? ==> r.table == ParseSpec(content, open).value)
      && (r.fallback.Some? ==> Failure(r.fallback.value) == ParseSpec(content, open))
      && (r.fallback.Some? ==>
            Rebuild(r.table) == content + "\n\n" + schema.tableStart + "\n" + schema.headerLine + "\n|}")
  {
    var r := ParseOrEmptyTable(content, schema, open);
    if r.fallback.Some? {
      assert Raws([]) == [];
    }
  }
}
