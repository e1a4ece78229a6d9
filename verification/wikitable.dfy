/**
 * The table document model of a Wikisource listing page (src/lib/wikitable.ts):
 * a page is split into the text before the first `{|`, the table start line,
 * the header line, the data rows and the text after the first following
 * `\n|}`. Rows are rebuilt verbatim, so everything outside the managed rows
 * is preserved byte for byte.
 */
module WikiTable {
  import opened Text

  /** One data row: its raw text (starting with the `|-` line) and the id taken from its self-link. */
  datatype Row = Row(raw: string, id: Option<string>)

  datatype ParsedWikiTable = ParsedWikiTable(
    before: string,
    tableStart: string,
    headerLine: string,
    rows: seq<Row>,
    after: string,
    columnCount: nat)

  /** The three ways parsing throws. */
  datatype ParseError = NoTable | NoClosing | NoHeader

  /** What a level synthesises an empty table from when parsing fails. */
  datatype FallbackSchema = FallbackSchema(tableStart: string, headerLine: string, columnCount: nat)

  // ---------------------------------------------------------------------------
  // Row ids: the regular expression `\[\[<open>([^/]+)\/\]\]`

  /** The opening of the default self-link `[[/id/]]`. */
  const SelfLinkOpen := "[[/"
  /** The opening of the parent-relative link `[[../id/]]` used on archive pages. */
  const ParentLinkOpen := "[[../"

  /** Length of the longest prefix of `s` without a slash. */
  function SlashFreeRun(s: string): (n: nat)
    ensures n <= |s| && '/' !in s[..n]
    ensures n < |s| ==> s[n] == '/'
  {
    if s == [] || s[0] == '/' then 0
    else
      var n := 1 + SlashFreeRun(s[1..]);
      assert s[..n] == [s[0]] + s[1..][..n - 1];
      n
  }

  /**
   * The capture of the id pattern when a match starts at `p`: the `[^/]+`
   * run is greedy and cannot contain `/`, so it is the whole slash-free run.
   */
  function IdMatchAt(raw: string, open: string, p: nat): Option<string>
    requires p <= |raw|
  {
    if !StartsWith(raw[p..], open) then None
    else
      var q := p + |open|;
      var n := SlashFreeRun(raw[q..]);
      if n >= 1 && StartsWith(raw[q + n..], "/]]") then Some(raw[q..q + n]) else None
  }

  /** A match at `p` is exactly an occurrence of `open + id + "/]]"` with a non-empty, slash-free id. */
  lemma IdMatchAtMeaning(raw: string, open: string, p: nat, id: string)
    requires p <= |raw|
    ensures IdMatchAt(raw, open, p) == Some(id)
        <==> |id| >= 1 && '/' !in id && StartsWith(raw[p..], open + id + "/]]")
  {
    if IdMatchAt(raw, open, p) == Some(id) {
      IdMatchAtSound(raw, open, p, id);
    }
    if |id| >= 1 && '/' !in id && StartsWith(raw[p..], open + id + "/]]") {
      IdMatchAtComplete(raw, open, p, id);
    }
  }

  lemma IdMatchAtSound(raw: string, open: string, p: nat, id: string)
    requires p <= |raw| && IdMatchAt(raw, open, p) == Some(id)
    ensures |id| >= 1 && '/' !in id && StartsWith(raw[p..], open + id + "/]]")
  {
    var q := p + |open|;
    var n := SlashFreeRun(raw[q..]);
    assert raw[q..][..n] == id;
    assert raw[p..][|open|..] == raw[q..];
    assert raw[q..][|id|..] == raw[q + n..];
    StartsWithJoin(raw[q..], id, "/]]");
    StartsWithJoin(raw[p..], open, id + "/]]");
    assert open + (id + "/]]") == open + id + "/]]";
  }

  lemma IdMatchAtComplete(raw: string, open: string, p: nat, id: string)
    requires p <= |raw| && |id| >= 1 && '/' !in id && StartsWith(raw[p..], open + id + "/]]")
    ensures IdMatchAt(raw, open, p) == Some(id)
  {
    var q := p + |open|;
    StartsWithConcat(raw[p..], open + id, "/]]");
    StartsWithConcat(raw[p..], open, id);
    assert raw[q..] == raw[p..][|open|..];
    assert raw[q..][|id|..] == raw[p..][|open + id|..];
    SlashFreeRunOf(raw[q..], id);
    assert raw[q..q + |id|] == raw[q..][..|id|];
  }

  /** A string that starts with a slash-free `id` and then a slash has `id` as its slash-free run. */
  lemma SlashFreeRunOf(s: string, id: string)
    requires StartsWith(s, id) && '/' !in id && StartsWith(s[|id|..], "/]]")
    ensures SlashFreeRun(s) == |id| && StartsWith(s[SlashFreeRun(s)..], "/]]")
  {
    var n := SlashFreeRun(s);
    assert s[|id|] == s[|id|..][0] == '/';
    if n < |id| {
      assert false;
    } else if n > |id| {
      assert false;
    }
  }

  /** The leftmost match at or after `from` (String.prototype.match without the global flag). */
  function FindId(raw: string, open: string, from: nat): Option<string>
    requires from <= |raw|
    decreases |raw| - from
  {
    match IdMatchAt(raw, open, from)
    case Some(id) => Some(id)
    case None => if from == |raw| then None else FindId(raw, open, from + 1)
  }

  /** FindId finds a match exactly when there is one, and then the leftmost one. */
  lemma FindIdSpec(raw: string, open: string, from: nat)
    requires from <= |raw|
    ensures FindId(raw, open, from).None? <==> forall p :: from <= p <= |raw| ==> IdMatchAt(raw, open, p).None?
    ensures FindId(raw, open, from).Some? ==>
      exists p :: from <= p <= |raw| && IdMatchAt(raw, open, p) == FindId(raw, open, from)
        && forall j :: from <= j < p ==> IdMatchAt(raw, open, j).None?
  {
    FindIdNone(raw, open, from);
    if FindId(raw, open, from).Some? {
      FindIdFound(raw, open, from);
    }
  }

  lemma {:induction false} FindIdNone(raw: string, open: string, from: nat)
    requires from <= |raw|
    ensures FindId(raw, open, from).None? <==> forall p :: from <= p <= |raw| ==> IdMatchAt(raw, open, p).None?
    decreases |raw| - from
  {
    if IdMatchAt(raw, open, from).None? && from < |raw| {
      FindIdNone(raw, open, from + 1);
    }
  }

  lemma {:induction false} FindIdFound(raw: string, open: string, from: nat)
    requires from <= |raw| && FindId(raw, open, from).Some?
    ensures exists p ::
      from <= p <= |raw| && IdMatchAt(raw, open, p) == FindId(raw, open, from)
      && forall j :: from <= j < p ==> IdMatchAt(raw, open, j).None?
    decreases |raw| - from
  {
    if IdMatchAt(raw, open, from).None? {
      FindIdFound(raw, open, from + 1);
      var p :| from + 1 <= p <= |raw| && IdMatchAt(raw, open, p) == FindId(raw, open, from)
        && forall j :: from + 1 <= j < p ==> IdMatchAt(raw, open, j).None?;
      assert forall j :: from <= j < p ==> IdMatchAt(raw, open, j).None?;
    } else {
      assert IdMatchAt(raw, open, from) == FindId(raw, open, from);
    }
  }

  /** FindId picks the leftmost match. */
  lemma {:induction false} FindIdLeftmost(raw: string, open: string, from: nat, p: nat)
    requires from <= p <= |raw|
    requires IdMatchAt(raw, open, p).Some?
    requires forall j :: from <= j < p ==> IdMatchAt(raw, open, j).None?
    ensures FindId(raw, open, from) == IdMatchAt(raw, open, p)
    decreases p - from
  {
    if from < p {
      FindIdLeftmost(raw, open, from + 1, p);
    }
  }

  // ---------------------------------------------------------------------------
  // Parsing

  /** Number of non-overlapping `!!` or `||` matches, scanning left to right. */
  function SeparatorCount(s: string): nat
  {
    if |s| < 2 then 0
    else if s[..2] == "!!" || s[..2] == "||" then 1 + SeparatorCount(s[2..])
    else SeparatorCount(s[1..])
  }

  predicate IsSeparatorChar(c: char) {
    c == '!' || c == '|'
  }

  lemma {:induction false} SeparatorCountSkip(x: string, y: string)
    requires forall i :: 0 <= i < |x| ==> !IsSeparatorChar(x[i])
    ensures SeparatorCount(x + y) == SeparatorCount(y)
  {
    if x != [] {
      var s := x + y;
      assert s[1..] == x[1..] + y;
      SeparatorCountSkip(x[1..], y);
      if |s| >= 2 {
        assert s[..2][0] == x[0];
        assert s[..2] != "!!" && s[..2] != "||";
        assert SeparatorCount(s) == SeparatorCount(s[1..]);
      } else {
        assert y == [];
      }
    } else {
      assert x + y == y;
    }
  }

  /**
   * A header `!name1!!name2...` (or with `||`) naming n columns, with no `!`
   * or `|` inside the names, has n - 1 separators, so its column count is n.
   */
  lemma {:induction false} HeaderColumnCount(names: seq<string>, sep: string)
    requires sep == "!!" || sep == "||"
    requires |names| >= 1
    requires forall k :: 0 <= k < |names| ==> |names[k]| >= 1
    requires forall k, i :: 0 <= k < |names| && 0 <= i < |names[k]| ==> !IsSeparatorChar(names[k][i])
    ensures SeparatorCount("!" + Join(names, sep)) + 1 == |names|
  {
    var body := Join(names, sep);
    JoinSeparatorCount(names, sep);
    assert body == names[0] || body == names[0] + sep + Join(names[1..], sep);
    assert body[0] == names[0][0];
    assert ("!" + body)[..2] == ['!', body[0]];
    assert ("!" + body)[1..] == body;
  }

  lemma {:induction false} JoinSeparatorCount(names: seq<string>, sep: string)
    requires sep == "!!" || sep == "||"
    requires |names| >= 1
    requires forall k :: 0 <= k < |names| ==> |names[k]| >= 1
    requires forall k, i :: 0 <= k < |names| && 0 <= i < |names[k]| ==> !IsSeparatorChar(names[k][i])
    ensures SeparatorCount(Join(names, sep)) + 1 == |names|
  {
    if |names| == 1 {
      SeparatorCountSkip(names[0], "");
      assert names[0] + "" == names[0];
    } else {
      var rest := Join(names[1..], sep);
      JoinSeparatorCount(names[1..], sep);
      assert Join(names, sep) == names[0] + (sep + rest);
      SeparatorCountSkip(names[0], sep + rest);
      assert (sep + rest)[..2] == sep;
      assert (sep + rest)[2..] == rest;
    }
  }

  /** The first line at index `i` or later that starts with `!`. */
  function HeaderIndex(lines: seq<string>, i: nat): (r: Option<nat>)
    requires i <= |lines|
    ensures r.Some? ==> i <= r.value < |lines| && StartsWith(lines[r.value], "!")
    ensures r.Some? ==> forall j :: i <= j < r.value ==> !StartsWith(lines[j], "!")
    ensures r.None? ==> forall j :: i <= j < |lines| ==> !StartsWith(lines[j], "!")
    decreases |lines| - i
  {
    if i == |lines| then None
    else if StartsWith(lines[i], "!") then Some(i)
    else HeaderIndex(lines, i + 1)
  }

  /** A line that ends the current row: the next `|-...` line or the closing `|}`. */
  predicate EndsRow(line: string) {
    StartsWith(line, "|-") || line == "|}"
  }

  /** The index of the first line at or after `i` that ends a row, or |lines|. */
  function RowEnd(lines: seq<string>, i: nat): (k: nat)
    requires i <= |lines|
    ensures i <= k <= |lines|
    ensures forall j :: i <= j < k ==> !EndsRow(lines[j])
    ensures k < |lines| ==> EndsRow(lines[k])
    decreases |lines| - i
  {
    if i == |lines| || EndsRow(lines[i]) then i else RowEnd(lines, i + 1)
  }

  function MakeRow(raw: string, open: string): Row {
    Row(raw, FindId(raw, open, 0))
  }

  /**
   * The rows found from line `i` on: a row opens at a line that is exactly
   * `|-` and runs up to the next line ending a row; other lines are skipped.
   */
  function RowsFrom(lines: seq<string>, i: nat, open: string): seq<Row>
    requires i <= |lines|
    decreases |lines| - i
  {
    if i == |lines| then []
    else if lines[i] == "|-" then
      var k := RowEnd(lines, i + 1);
      [MakeRow(Join(lines[i..k], "\n"), open)] + RowsFrom(lines, k, open)
    else RowsFrom(lines, i + 1, open)
  }

  /** One step of the row segmentation. */
  lemma RowsFromStep(lines: seq<string>, i: nat, open: string)
    requires i < |lines| && lines[i] == "|-"
    ensures var k := RowEnd(lines, i + 1);
      RowsFrom(lines, i, open) == [MakeRow(Join(lines[i..k], "\n"), open)] + RowsFrom(lines, k, open)
  {
  }

  /** Every row starts with its `|-` line and carries the id found in its raw text. */
  lemma {:induction false} RowsFromShape(lines: seq<string>, i: nat, open: string)
    requires i <= |lines|
    ensures forall r :: r in RowsFrom(lines, i, open) ==>
      StartsWith(r.raw, "|-") && r.id == FindId(r.raw, open, 0)
    decreases |lines| - i
  {
    if i < |lines| {
      if lines[i] == "|-" {
        var k := RowEnd(lines, i + 1);
        var raw := Join(lines[i..k], "\n");
        assert lines[i..k][0] == "|-";
        assert raw[..2] == "|-";
        RowsFromShape(lines, k, open);
      } else {
        RowsFromShape(lines, i + 1, open);
      }
    }
  }

  /** The page split that `parseWikiTable` computes, or the error it throws. */
  function ParseSpec(content: string, open: string): Result<ParsedWikiTable, ParseError>
  {
    match IndexOf(content, "{|", 0)
    case None => Failure(NoTable)
    case Some(start) =>
      match IndexOf(content, "\n|}", start)
      case None => Failure(NoClosing)
      case Some(end) => ParseAt(content, start, end, open)
  }

  /** The parse once the table is known to run from `start` to the `\n|}` at `end`. */
  function ParseAt(content: string, start: nat, end: nat, open: string): Result<ParsedWikiTable, ParseError>
    requires start <= end + 3 <= |content|
  {
    ParseLines(content[..start], Split(content[start..end + 3], '\n'), content[end + 3..], open)
  }

  /** The part of the parse that works on the lines of the table text. */
  function ParseLines(before: string, lines: seq<string>, after: string, open: string): Result<ParsedWikiTable, ParseError>
    requires |lines| >= 1
  {
    match HeaderIndex(lines, 1)
    case None => Failure(NoHeader)
    case Some(h) =>
      Success(ParsedWikiTable(before, lines[0], lines[h], RowsFrom(lines, h + 1, open),
                              after, SeparatorCount(lines[h]) + 1))
  }

  lemma ParseSpecLines(content: string, open: string, start: nat, end: nat)
    requires IndexOf(content, "{|", 0) == Some(start)
    requires IndexOf(content, "\n|}", start) == Some(end)
    ensures start <= end + 3 <= |content|
    ensures ParseSpec(content, open)
      == ParseLines(content[..start], Split(content[start..end + 3], '\n'), content[end + 3..], open)
  {
    DelimiterBounds(content, start, end);
    SpecAt(content, open, start, end);
  }

  /** Once both delimiters are found, the parse is `ParseAt` on them. */
  lemma SpecAt(content: string, open: string, start: nat, end: nat)
    requires IndexOf(content, "{|", 0) == Some(start)
    requires IndexOf(content, "\n|}", start) == Some(end)
    requires start <= end + 3 <= |content|
    ensures ParseSpec(content, open) == ParseAt(content, start, end, open)
    ensures ParseSpec(content, open)
      == ParseLines(content[..start], Split(content[start..end + 3], '\n'), content[end + 3..], open)
  {
  }

  /** The closing `\n|}` found from the opening lies inside the page. */
  lemma DelimiterBounds(content: string, start: nat, end: nat)
    requires IndexOf(content, "{|", 0) == Some(start)
    requires IndexOf(content, "\n|}", start) == Some(end)
    ensures start <= end && end + 3 <= |content|
  {
    assert OccursAt(content, "\n|}", end);
  }

  /** The error cases, in the order the source checks them. */
  lemma ParseErrors(content: string, open: string)
    ensures ParseSpec(content, open) == Failure(NoTable) <==> !Contains(content, "{|")
    ensures ParseSpec(content, open) == Failure(NoClosing) <==>
      exists start :: IndexOf(content, "{|", 0) == Some(start) && IndexOf(content, "\n|}", start).None?
  {
    ContainsIndexOf(content, "{|");
  }

  /** Past the two delimiters, the parse fails exactly when no line after the start line begins with `!`. */
  lemma ParseNoHeader(content: string, open: string, start: nat, end: nat)
    requires IndexOf(content, "{|", 0) == Some(start)
    requires IndexOf(content, "\n|}", start) == Some(end)
    ensures var lines := Split(content[start..end + 3], '\n');
      ParseSpec(content, open) == Failure(NoHeader) <==> forall j :: 1 <= j < |lines| ==> !StartsWith(lines[j], "!")
  {
    ParseSpecLines(content, open, start, end);
  }

  /**
   * On success the text before the table is exactly what precedes the first
   * `{|`, the text after is exactly what follows the first `\n|}` after it,
   * and the column count is one more than the header's separators.
   */
  lemma ParseSplit(content: string, open: string)
    requires ParseSpec(content, open).Success?
    ensures var t := ParseSpec(content, open).value;
      && !Contains(t.before, "{|")
      && StartsWith(content, t.before + "{|")
      && EndsWith(content, "\n|}" + t.after)
      && IndexOf(content, "{|", 0) == Some(|t.before|)
      && |t.before| + 3 <= |content| - |t.after|
      && IndexOf(content, "\n|}", |t.before|) == Some(|content| - |t.after| - 3)
      && StartsWith(t.tableStart, "{|")
      && StartsWith(t.headerLine, "!")
      && t.columnCount == SeparatorCount(t.headerLine) + 1
      && forall r :: r in t.rows ==> StartsWith(r.raw, "|-") && r.id == FindId(r.raw, open, 0)
  {
    var start := IndexOf(content, "{|", 0).value;
    var end := IndexOf(content, "\n|}", start).value;
    ParseSpecLines(content, open, start, end);
    var tc := content[start..end + 3];
    var lines := Split(tc, '\n');
    var h := HeaderIndex(lines, 1).value;
    RowsFromShape(lines, h + 1, open);
    NothingBefore(content, start);
    TableBounds(content, start, end);
    FirstLineStart(tc, lines);
  }

  lemma TableBounds(content: string, start: nat, end: nat)
    requires OccursAt(content, "{|", start) && OccursAt(content, "\n|}", end) && start <= end
    ensures StartsWith(content, content[..start] + "{|")
    ensures EndsWith(content, "\n|}" + content[end + 3..])
    ensures StartsWith(content[start..end + 3], "{|")
  {
    assert content[..start + 2] == content[..start] + content[start..start + 2];
    assert content[end..] == content[end..end + 3] + content[end + 3..];
  }

  /** The text before the first `{|` holds no `{|`. */
  lemma NothingBefore(content: string, start: nat)
    requires IndexOf(content, "{|", 0) == Some(start)
    ensures !Contains(content[..start], "{|")
  {
    var b := content[..start];
    forall k | 0 <= k <= |b| ensures !OccursAt(b, "{|", k) {
      if k + 2 <= |b| {
        assert b[k..k + 2] == content[k..k + 2];
        assert !OccursAt(content, "{|", k);
      }
    }
  }

  lemma FirstLineStart(tc: string, lines: seq<string>)
    requires StartsWith(tc, "{|") && lines == Split(tc, '\n')
    ensures StartsWith(lines[0], "{|")
  {
    if |lines| > 1 {
      assert tc == lines[0] + "\n" + Join(lines[1..], "\n");
      FirstPieceStart(tc, lines[0], Join(lines[1..], "\n"));
    }
  }

  /** The piece before the first line break of a text that starts with `{|` starts with `{|`. */
  lemma FirstPieceStart(tc: string, x: string, rest: string)
    requires StartsWith(tc, "{|") && tc == x + "\n" + rest && '\n' !in x
    ensures StartsWith(x, "{|")
  {
    assert tc[0] == '{' && tc[1] == '|';
    assert tc[|x|] == '\n';
    assert x[..2] == tc[..2];
  }

  /** `parseWikiTable`: the line scan of the source, proved to compute ParseSpec. */
  method ParseWikiTable(content: string, open: string) returns (r: Result<ParsedWikiTable, ParseError>)
    ensures r == ParseSpec(content, open)
  {
    var startIdx := IndexOf(content, "{|", 0);
    if startIdx.None? {
      return Failure(NoTable);
    }
    var start := startIdx.value;
    var endIdx := IndexOf(content, "\n|}", start);
    if endIdx.None? {
      return Failure(NoClosing);
    }
    var end := endIdx.value;
    ParseSpecLines(content, open, start, end);
    var before := content[..start];
    var tableContent := content[start..end + 3];
    var after := content[end + 3..];
    var lines := Split(tableContent, '\n');
    r := ParseTableLines(before, lines, after, open);
  }

  /** The rest of `parseWikiTable`, once the table text is split into lines. */
  method ParseTableLines(before: string, lines: seq<string>, after: string, open: string)
    returns (r: Result<ParsedWikiTable, ParseError>)
    requires |lines| >= 1
    ensures r == ParseLines(before, lines, after, open)
  {
    var tableStart := lines[0];
    var header := FindHeaderLine(lines);
    if header.None? {
      return Failure(NoHeader);
    }
    var h := header.value;
    var headerLine := lines[h];
    var columnCount := SeparatorCount(headerLine) + 1;
    var rows := CollectRows(lines, h + 1, open);
    r := Success(ParsedWikiTable(before, tableStart, headerLine, rows, after, columnCount));
  }

  /** The search for the header line, from the second line on. */
  method FindHeaderLine(lines: seq<string>) returns (r: Option<nat>)
    ensures r == HeaderIndex(lines, if |lines| == 0 then 0 else 1)
  {
    if |lines| == 0 {
      return None;
    }
    var i := 1;
    while i < |lines|
      invariant 1 <= i <= |lines|
      invariant HeaderIndex(lines, 1) == HeaderIndex(lines, i)
    {
      if StartsWith(lines[i], "!") {
        return Some(i);
      }
      i := i + 1;
    }
    return None;
  }

  /** The row loop: gathers each `|-` line with the lines that follow it. */
  method CollectRows(lines: seq<string>, from: nat, open: string) returns (rows: seq<Row>)
    requires from <= |lines|
    ensures rows == RowsFrom(lines, from, open)
  {
    rows := [];
    var i := from;
    while i < |lines|
      invariant from <= i <= |lines|
      invariant rows + RowsFrom(lines, i, open) == RowsFrom(lines, from, open)
    {
      if lines[i] == "|-" {
        var rowStart := i;
        var rowLines;
        rowLines, i := RowLines(lines, i);
        var raw := Join(rowLines, "\n");
        var id := FindId(raw, open, 0);
        RowsFromStep(lines, rowStart, open);
        assert rows + RowsFrom(lines, rowStart, open) == (rows + [Row(raw, id)]) + RowsFrom(lines, i, open);
        rows := rows + [Row(raw, id)];
      } else {
        i := i + 1;
      }
    }
  }

  /** The inner loop of the row scan: the lines of the row opened at `start`, and where the next one starts. */
  method RowLines(lines: seq<string>, start: nat) returns (rowLines: seq<string>, next: nat)
    requires start < |lines|
    ensures next == RowEnd(lines, start + 1)
    ensures rowLines == lines[start..next]
  {
    rowLines := [lines[start]];
    next := start + 1;
    while next < |lines| && !StartsWith(lines[next], "|-") && lines[next] != "|}"
      invariant start < next <= |lines|
      invariant rowLines == lines[start..next]
      invariant RowEnd(lines, start + 1) == RowEnd(lines, next)
    {
      assert lines[start..next + 1] == lines[start..next] + [lines[next]];
      rowLines := rowLines + [lines[next]];
      next := next + 1;
    }
  }

  // ---------------------------------------------------------------------------
  // Rebuilding

  /** The raw texts of the rows, in order. */
  function Raws(rows: seq<Row>): (r: seq<string>)
    ensures |r| == |rows|
  {
    if rows == [] then [] else [rows[0].raw] + Raws(rows[1..])
  }

  /** `rebuildPage`: the inverse of parsing; the row block is left out when the joined rows are empty. */
  function Rebuild(t: ParsedWikiTable): (r: string)
    ensures StartsWith(r, t.before) && EndsWith(r, t.after)
  {
    var rowLines := Join(Raws(t.rows), "\n");
    var table := if rowLines != ""
      then t.tableStart + "\n" + t.headerLine + "\n" + rowLines + "\n|}"
      else t.tableStart + "\n" + t.headerLine + "\n|}";
    var r := t.before + table + t.after;
    assert r[..|t.before|] == t.before;
    assert r[|r| - |t.after|..] == t.after;
    r
  }

  /**
   * The body lines of a table (between the header and the closing line)
   * each belong to a row opened by an exact `|-` line: the first one is
   * `|-`, and every line that would end a row is an exact `|-`.
   */
  predicate WellFormedBody(body: seq<string>) {
    && (|body| > 0 ==> body[0] == "|-")
    && forall k :: 0 <= k < |body| ==> (EndsRow(body[k]) ==> body[k] == "|-")
  }

  /**
   * The lines of a table text: the start line, the header line directly
   * after it, then a well-formed body (the closing line comes last).
   */
  predicate WellFormedTable(lines: seq<string>) {
    |lines| >= 3 && StartsWith(lines[1], "!") && WellFormedBody(lines[2..|lines| - 1])
  }

  /** Over well-formed lines closed by `|}`, the rows' raw texts join back to the lines they came from. */
  lemma {:induction false} RowsCoverLines(lines: seq<string>, i: nat, open: string)
    requires |lines| >= 1 && lines[|lines| - 1] == "|}"
    requires i <= |lines| - 1 && (i < |lines| - 1 ==> lines[i] == "|-")
    requires forall k :: i <= k < |lines| - 1 ==> (EndsRow(lines[k]) ==> lines[k] == "|-")
    ensures |RowsFrom(lines, i, open)| == 0 <==> i == |lines| - 1
    ensures Join(Raws(RowsFrom(lines, i, open)), "\n") == Join(lines[i..|lines| - 1], "\n")
    decreases |lines| - i
  {
    var last := |lines| - 1;
    if i == last {
      assert RowsFrom(lines, i + 1, open) == [];
    } else {
      var k := RowEnd(lines, i + 1);
      RowEndInBody(lines, i + 1);
      RowsFromStep(lines, i, open);
      var rows := RowsFrom(lines, i, open);
      var rest := RowsFrom(lines, k, open);
      var row := MakeRow(Join(lines[i..k], "\n"), open);
      assert rows == [row] + rest;
      RowsCoverLines(lines, k, open);
      if k == last {
        CoverLast(lines, i, last, row, rest);
      } else {
        CoverStep(lines, i, k, last, row, rest);
      }
    }
  }

  /** A row made of the lines up to the closing line, with no row after it, covers those lines. */
  lemma CoverLast(lines: seq<string>, i: nat, last: nat, row: Row, rest: seq<Row>)
    requires i < last <= |lines| && rest == []
    requires row.raw == Join(lines[i..last], "\n")
    ensures Join(Raws([row] + rest), "\n") == Join(lines[i..last], "\n")
  {
    assert [row] + rest == [row];
  }

  /** A row made of the lines up to `k`, put before rows covering the lines from `k`, covers the lines from `i`. */
  lemma CoverStep(lines: seq<string>, i: nat, k: nat, last: nat, row: Row, rest: seq<Row>)
    requires i < k < last <= |lines| && rest != []
    requires row.raw == Join(lines[i..k], "\n")
    requires Join(Raws(rest), "\n") == Join(lines[k..last], "\n")
    ensures Join(Raws([row] + rest), "\n") == Join(lines[i..last], "\n")
  {
    assert ([row] + rest)[1..] == rest;
    JoinConcat([row.raw], Raws(rest), "\n");
    JoinConcat(lines[i..k], lines[k..last], "\n");
    SliceConcat(lines, i, k, last);
  }

  /** Inside a well-formed body, the next row starts at an exact `|-` line or at the closing line. */
  lemma RowEndInBody(lines: seq<string>, i: nat)
    requires |lines| >= 1 && lines[|lines| - 1] == "|}" && i <= |lines| - 1
    requires forall k :: i <= k < |lines| - 1 ==> (EndsRow(lines[k]) ==> lines[k] == "|-")
    ensures RowEnd(lines, i) <= |lines| - 1
    ensures RowEnd(lines, i) < |lines| - 1 ==> lines[RowEnd(lines, i)] == "|-"
  {
    assert EndsRow(lines[|lines| - 1]);
  }

  /** A table text ending in `\n|}` splits into lines whose last one is `|}`. */
  lemma {:induction false} LastLineIsClosing(tc: string, lines: seq<string>)
    requires EndsWith(tc, "\n|}") && lines == Split(tc, '\n')
    ensures |lines| >= 2 && lines[|lines| - 1] == "|}"
    ensures tc == Join(lines[..|lines| - 1], "\n") + "\n|}"
  {
    assert tc[|tc| - 3] == '\n';
    SplitHasSeparator(tc, '\n');
    ClosingLast(tc, lines);
  }

  lemma ClosingLast(tc: string, lines: seq<string>)
    requires EndsWith(tc, "\n|}") && |lines| >= 2 && Join(lines, "\n") == tc && '\n' !in lines[|lines| - 1]
    ensures lines[|lines| - 1] == "|}"
    ensures tc == Join(lines[..|lines| - 1], "\n") + "\n|}"
  {
    var n := |lines|;
    var init := lines[..n - 1];
    var last := lines[n - 1];
    InitLast(lines);
    JoinAppend(init, last, "\n");
    LastPieceClosing(Join(init, "\n"), last, tc);
  }

  lemma LastPieceClosing(a: string, last: string, tc: string)
    requires tc == a + "\n" + last && '\n' !in last && EndsWith(tc, "\n|}")
    ensures last == "|}"
  {
    var j := |tc| - |last|;
    assert tc[j..] == last && tc[j - 1] == '\n';
    assert tc[|tc| - 3] == '\n';
    assert j == |tc| - 2;
  }

  /**
   * Round trip: when the header line directly follows the table start line
   * and the body lines are well formed, rebuilding the parsed page gives the
   * page back exactly.
   */
  lemma RoundTrip(content: string, open: string, start: nat, end: nat)
    requires IndexOf(content, "{|", 0) == Some(start)
    requires IndexOf(content, "\n|}", start) == Some(end)
    requires WellFormedTable(Split(content[start..end + 3], '\n'))
    ensures ParseSpec(content, open).Success?
    ensures Rebuild(ParseSpec(content, open).value) == content
  {
    var tc := content[start..end + 3];
    var lines := Split(tc, '\n');
    ParseSpecLines(content, open, start, end);
    TableText(content, start, end);
    LastLineIsClosing(tc, lines);
    RebuildLines(content[..start], lines, content[end + 3..], open);
  }

  lemma TableText(content: string, start: nat, end: nat)
    requires start <= end && OccursAt(content, "\n|}", end)
    ensures EndsWith(content[start..end + 3], "\n|}")
    ensures content == content[..start] + content[start..end + 3] + content[end + 3..]
  {
    assert content[start..end + 3][end + 3 - start - 3..] == content[end..end + 3];
  }

  lemma BodyIndexForm(lines: seq<string>)
    requires |lines| >= 3 && lines[|lines| - 1] == "|}" && WellFormedBody(lines[2..|lines| - 1])
    ensures lines[2] == "|}" || lines[2] == "|-"
    ensures forall k :: 2 <= k < |lines| - 1 ==> (EndsRow(lines[k]) ==> lines[k] == "|-")
  {
    var body := lines[2..|lines| - 1];
    forall k | 2 <= k < |lines| - 1 ensures EndsRow(lines[k]) ==> lines[k] == "|-" {
      assert lines[k] == body[k - 2];
    }
  }

  /** The round trip on the table's lines, with the closing line last. */
  lemma RebuildLines(before: string, lines: seq<string>, after: string, open: string)
    requires WellFormedTable(lines) && lines[|lines| - 1] == "|}"
    ensures ParseLines(before, lines, after, open).Success?
    ensures Rebuild(ParseLines(before, lines, after, open).value)
      == before + (Join(lines[..|lines| - 1], "\n") + "\n|}") + after
  {
    var n := |lines|;
    BodyIndexForm(lines);
    assert HeaderIndex(lines, 1) == Some(1);
    var t := ParseLines(before, lines, after, open).value;
    assert t.rows == RowsFrom(lines, 2, open);
    RowsCoverLines(lines, 2, open);
    var body := lines[2..n - 1];
    var rowLines := Join(Raws(t.rows), "\n");
    assert rowLines == Join(body, "\n");
    if n == 3 {
      assert lines[..n - 1] == [lines[0], lines[1]];
    } else {
      assert lines[..n - 1] == [lines[0], lines[1]] + body;
      JoinConcat([lines[0], lines[1]], body, "\n");
      JoinNonEmpty(body, "\n");
    }
  }

  lemma JoinNonEmpty(parts: seq<string>, sep: string)
    requires |parts| > 0 && parts[0] != ""
    ensures Join(parts, sep) != ""
  {
    if |parts| > 1 {
      assert |Join(parts, sep)| >= |parts[0]|;
    }
  }
}
