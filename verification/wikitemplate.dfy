/**
 * Reading and writing `| name = value` parameters of a `{{...}}` template
 * (src/lib/wikitemplate.ts).
 *
 * The source builds the regular expression `\|[ \t]*NAME[ \t]*=[ \t]*([^\n]*)`
 * from the parameter name. Here it is an explicit scanner over positions of
 * the page: `KeyEnd` matches the `\|[ \t]*NAME[ \t]*=` part at a position,
 * `FindKey` finds the leftmost match, and the value is the rest of that line
 * after the blanks. The name must be plain (no blanks and no character a
 * regular expression treats specially), and a value written with
 * `String.prototype.replace` must not hold `$`.
 */
module WikiTemplate {
  import opened Text

  /** The `[ \t]` class. */
  predicate IsBlankChar(c: char) {
    c == ' ' || c == '\t'
  }

  /** A character that stands for itself in the name pattern and cannot be part of the blanks around it. */
  predicate NameChar(c: char) {
    && c != ' ' && c != '\t' && c != '\n' && c != '\r' && c != '|' && c != '=' && c != '\\'
    && c != '^' && c != '$' && c != '.' && c != '*' && c != '+' && c != '?' && c != '('
    && c != ')' && c != '[' && c != ']' && c != '{' && c != '}' && c != '/'
  }

  /** A parameter name that the source's pattern reads literally. */
  predicate PlainName(name: string) {
    name != [] && forall i :: 0 <= i < |name| ==> NameChar(name[i])
  }

  /** The two names every page builder writes first are plain. */
  lemma PageNamesPlain()
    ensures PlainName("назва") && PlainName("рік")
  {
  }

  // ---------------------------------------------------------------------------
  // Scanning

  /** The first position at or after `i` that does not hold a `[ \t]` character. */
  function SkipBlanks(s: string, i: nat): (r: nat)
    requires i <= |s|
    ensures i <= r <= |s|
    ensures r < |s| ==> !IsBlankChar(s[r])
    decreases |s| - i
  {
    if i < |s| && IsBlankChar(s[i]) then SkipBlanks(s, i + 1) else i
  }

  lemma {:induction false} SkipBlanksBlank(s: string, i: nat)
    requires i <= |s|
    ensures forall k :: i <= k < SkipBlanks(s, i) ==> IsBlankChar(s[k])
    decreases |s| - i
  {
    if i < |s| && IsBlankChar(s[i]) {
      SkipBlanksBlank(s, i + 1);
    }
  }

  lemma {:induction false} SkipBlanksOf(s: string, i: nat, r: nat)
    requires i <= r <= |s| && (forall k :: i <= k < r ==> IsBlankChar(s[k]))
    requires r == |s| || !IsBlankChar(s[r])
    ensures SkipBlanks(s, i) == r
    decreases r - i
  {
    if i < r {
      SkipBlanksOf(s, i + 1, r);
    }
  }

  /** The end of the line holding position `i`: the next `\n`, or the end of the page. */
  function LineEnd(s: string, i: nat): (r: nat)
    requires i <= |s|
    ensures i <= r <= |s|
    ensures r < |s| ==> s[r] == '\n'
    decreases |s| - i
  {
    if i < |s| && s[i] != '\n' then LineEnd(s, i + 1) else i
  }

  lemma {:induction false} LineEndNoBreak(s: string, i: nat)
    requires i <= |s|
    ensures forall k :: i <= k < LineEnd(s, i) ==> s[k] != '\n'
    decreases |s| - i
  {
    if i < |s| && s[i] != '\n' {
      LineEndNoBreak(s, i + 1);
    }
  }

  lemma {:induction false} LineEndOf(s: string, i: nat, r: nat)
    requires i <= r <= |s| && (forall k :: i <= k < r ==> s[k] != '\n')
    requires r == |s| || s[r] == '\n'
    ensures LineEnd(s, i) == r
    decreases r - i
  {
    if i < r {
      LineEndOf(s, i + 1, r);
    }
  }

  /**
   * The end of a match of `\|[ \t]*NAME[ \t]*=` starting at `p`. With a plain
   * name the blank runs cannot give anything back, so the greedy scan is the
   * only way to match.
   */
  function KeyEnd(s: string, name: string, p: nat): (r: Option<nat>)
    requires PlainName(name) && p <= |s|
    ensures r.Some? ==> p < r.value <= |s|
  {
    if p == |s| || s[p] != '|' then None
    else
      var a := SkipBlanks(s, p + 1);
      if a + |name| > |s| || s[a..a + |name|] != name then None
      else
        var b := SkipBlanks(s, a + |name|);
        if b < |s| && s[b] == '=' then Some(b + 1) else None
  }

  /** The match the scanner makes from its parts. */
  lemma KeyEndOf(s: string, name: string, p: nat, a: nat, b: nat)
    requires PlainName(name) && p < a && a + |name| <= b < |s|
    requires s[p] == '|' && SkipBlanks(s, p + 1) == a && s[a..a + |name|] == name
    requires SkipBlanks(s, a + |name|) == b && s[b] == '='
    ensures KeyEnd(s, name, p) == Some(b + 1)
  {
  }

  /** A match starts with `|`, ends with `=`, and has no other `|`, no `}` and no line end inside. */
  lemma KeySpan(s: string, name: string, p: nat)
    requires PlainName(name) && p <= |s| && KeyEnd(s, name, p).Some?
    ensures s[p] == '|' && s[KeyEnd(s, name, p).value - 1] == '='
    ensures forall k :: p < k < KeyEnd(s, name, p).value ==> s[k] != '|'
    ensures forall k :: p <= k < KeyEnd(s, name, p).value ==> s[k] != '\n' && s[k] != '}'
  {
    var a := SkipBlanks(s, p + 1);
    var b := SkipBlanks(s, a + |name|);
    SkipBlanksBlank(s, p + 1);
    SkipBlanksBlank(s, a + |name|);
    forall k | p < k < b + 1 ensures s[k] != '|' && s[k] != '\n' && s[k] != '}' {
      if a <= k < a + |name| {
        assert s[k] == s[a..a + |name|][k - a] == name[k - a];
      }
    }
  }

  /** Two pages agree on the positions `lo..hi`. */
  predicate Agree(s: string, t: string, lo: nat, hi: nat) {
    lo <= hi <= |s| && hi <= |t| && forall k :: lo <= k < hi ==> s[k] == t[k]
  }

  lemma AgreeWithin(s: string, t: string, lo: nat, hi: nat, lo2: nat, hi2: nat)
    requires Agree(s, t, lo, hi) && lo <= lo2 <= hi2 <= hi
    ensures Agree(s, t, lo2, hi2)
  {
  }

  lemma SkipBlanksAgree(s: string, t: string, i: nat, hi: nat)
    requires i <= hi && Agree(s, t, i, hi) && SkipBlanks(s, i) < hi
    ensures SkipBlanks(t, i) == SkipBlanks(s, i)
  {
    SkipBlanksBlank(s, i);
    SkipBlanksOf(t, i, SkipBlanks(s, i));
  }

  /** A match depends only on the characters it spans. */
  lemma KeyEndAgree(s: string, t: string, name: string, p: nat, e: nat)
    requires PlainName(name) && p <= |s| && KeyEnd(s, name, p) == Some(e) && Agree(s, t, p, e)
    ensures KeyEnd(t, name, p) == Some(e)
  {
    var a := SkipBlanks(s, p + 1);
    var b := SkipBlanks(s, a + |name|);
    KeyPartsAgree(s, t, name, p, a, b);
  }

  lemma KeyPartsAgree(s: string, t: string, name: string, p: nat, a: nat, b: nat)
    requires PlainName(name) && p < a && a + |name| <= b < |s| && Agree(s, t, p, b + 1)
    requires s[p] == '|' && SkipBlanks(s, p + 1) == a && s[a..a + |name|] == name
    requires SkipBlanks(s, a + |name|) == b && s[b] == '='
    ensures KeyEnd(t, name, p) == Some(b + 1)
  {
    AgreeWithin(s, t, p, b + 1, p + 1, b + 1);
    SkipBlanksAgree(s, t, p + 1, b + 1);
    AgreeWithin(s, t, p, b + 1, a, a + |name|);
    assert t[a..a + |name|] == s[a..a + |name|];
    AgreeWithin(s, t, p, b + 1, a + |name|, b + 1);
    SkipBlanksAgree(s, t, a + |name|, b + 1);
    KeyEndOf(t, name, p, a, b);
  }

  /** No match starts at a position in `lo..hi`. */
  predicate NoKeyBetween(s: string, name: string, lo: nat, hi: nat)
    requires PlainName(name)
  {
    forall j :: lo <= j < hi && j <= |s| ==> KeyEnd(s, name, j).None?
  }

  lemma NoKeyBetweenSub(s: string, name: string, lo: nat, hi: nat, hi2: nat)
    requires PlainName(name) && NoKeyBetween(s, name, lo, hi) && hi2 <= hi
    ensures NoKeyBetween(s, name, lo, hi2)
  {
  }

  /** The leftmost match at or after `from`. */
  function FindKey(s: string, name: string, from: nat): (r: Option<nat>)
    requires PlainName(name) && from <= |s|
    ensures r.Some? ==> from <= r.value <= |s| && KeyEnd(s, name, r.value).Some?
    decreases |s| - from
  {
    if KeyEnd(s, name, from).Some? then Some(from)
    else if from == |s| then None
    else FindKey(s, name, from + 1)
  }

  /** FindKey finds a match exactly when there is one. */
  lemma {:induction false} FindKeyNone(s: string, name: string, from: nat)
    requires PlainName(name) && from <= |s|
    ensures FindKey(s, name, from).None? <==> NoKeyBetween(s, name, from, |s| + 1)
    decreases |s| - from
  {
    if KeyEnd(s, name, from).None? && from < |s| {
      FindKeyNone(s, name, from + 1);
    }
  }

  /** No match starts before the one FindKey returns. */
  lemma {:induction false} FindKeyFirst(s: string, name: string, from: nat)
    requires PlainName(name) && from <= |s| && FindKey(s, name, from).Some?
    ensures NoKeyBetween(s, name, from, FindKey(s, name, from).value)
    decreases |s| - from
  {
    if KeyEnd(s, name, from).None? {
      FindKeyFirst(s, name, from + 1);
    }
  }

  lemma {:induction false} FindKeyLeftmost(s: string, name: string, from: nat, p: nat)
    requires PlainName(name) && from <= p <= |s|
    requires KeyEnd(s, name, p).Some? && NoKeyBetween(s, name, from, p)
    ensures FindKey(s, name, from) == Some(p)
    decreases p - from
  {
    if from < p {
      FindKeyLeftmost(s, name, from + 1, p);
    }
  }

  // ---------------------------------------------------------------------------
  // getTemplateParam and setTemplateParam

  /** The group `([^\n]*)`: from the first non-blank after the match to the end of the line. */
  function ValueAt(s: string, e: nat): (r: string)
    requires e <= |s|
    ensures '\n' !in r
  {
    var c := SkipBlanks(s, e);
    LineEndNoBreak(s, c);
    s[c..LineEnd(s, c)]
  }

  /** `getTemplateParam`: the trimmed rest of the line after the first `| name =`, or None. */
  function GetTemplateParam(content: string, name: string): (r: Option<string>)
    requires PlainName(name)
    ensures r.Some? ==> r.value == Trim(r.value)
  {
    match FindKey(content, name, 0)
    case None => None
    case Some(p) =>
      var v := Trim(ValueAt(content, KeyEnd(content, name, p).value));
      TrimOfTrimmed(v);
      Some(v)
  }

  /** The line `| name = value` that a set writes. */
  function ParamLine(name: string, value: string): string {
    "| " + name + " = " + value
  }

  /**
   * `setTemplateParam`: an existing parameter has its match and the rest of
   * its line (`[ \t]*[^\n]*` runs to the line end) replaced by
   * `| name = value`; a missing one is added as ` | name = value` on its own
   * line before the first `}}`; with no `}}` the content is unchanged.
   */
  function SetTemplateParam(content: string, name: string, value: string): (r: string)
    requires PlainName(name) && '$' !in value
    ensures FindKey(content, name, 0).None? && IndexOf(content, "}}", 0).None? ==> r == content
  {
    match FindKey(content, name, 0)
    case Some(p) =>
      content[..p] + ParamLine(name, value) + content[LineEnd(content, KeyEnd(content, name, p).value)..]
    case None =>
      match IndexOf(content, "}}", 0)
      case None => content
      case Some(q) => content[..q] + (" " + ParamLine(name, value) + "\n}}") + content[q + 2..]
  }

  /**
   * Setting an existing parameter replaces exactly the span from its `|` to
   * the end of its line; the text before and after is kept as it was.
   */
  lemma SetExisting(content: string, name: string, value: string)
    requires PlainName(name) && '$' !in value && FindKey(content, name, 0).Some?
    ensures var p := FindKey(content, name, 0).value;
      exists l :: p < l <= |content| && (l == |content| || content[l] == '\n')
        && (forall k :: p <= k < l ==> content[k] != '\n')
        && SetTemplateParam(content, name, value) == content[..p] + ParamLine(name, value) + content[l..]
  {
    var p := FindKey(content, name, 0).value;
    var e := KeyEnd(content, name, p).value;
    var l := LineEnd(content, e);
    LineEndNoBreak(content, e);
    KeySpan(content, name, p);
    assert forall k :: p <= k < l ==> content[k] != '\n';
    assert SetTemplateParam(content, name, value) == content[..p] + ParamLine(name, value) + content[l..];
  }

  /** Setting a missing parameter inserts its line before the first `}}`, keeping everything else. */
  lemma SetMissing(content: string, name: string, value: string)
    requires PlainName(name) && '$' !in value && FindKey(content, name, 0).None?
    requires IndexOf(content, "}}", 0).Some?
    ensures var q := IndexOf(content, "}}", 0).value;
      && content[q..q + 2] == "}}"
      && SetTemplateParam(content, name, value) == content[..q] + " " + ParamLine(name, value) + "\n" + content[q..]
  {
    var q := IndexOf(content, "}}", 0).value;
    AppendedAt(content, name, value, q);
    FirstClose(content, q);
    AppendedShape(content, q, ParamLine(name, value));
  }

  lemma FirstClose(content: string, q: nat)
    requires IndexOf(content, "}}", 0) == Some(q)
    ensures q + 2 <= |content| && content[q..q + 2] == "}}"
  {
  }

  /** Where the first `}}` is at `q`, a missing parameter's line goes in at `q`. */
  lemma AppendedAt(content: string, name: string, value: string, q: nat)
    requires PlainName(name) && '$' !in value && FindKey(content, name, 0).None?
    requires IndexOf(content, "}}", 0) == Some(q)
    ensures SetTemplateParam(content, name, value) == content[..q] + (" " + ParamLine(name, value) + "\n}}") + content[q + 2..]
  {
    FirstClose(content, q);
  }

  /** Re-inserting the `}}` that was cut out leaves the text before and after it as it was. */
  lemma AppendedShape(content: string, q: nat, line: string)
    requires q + 2 <= |content| && content[q..q + 2] == "}}"
    ensures content[..q] + (" " + line + "\n}}") + content[q + 2..] == content[..q] + " " + line + "\n" + content[q..]
  {
    assert content[q..] == "}}" + content[q + 2..];
  }

  // ---------------------------------------------------------------------------
  // Reading back what was written

  /** `getTemplateParam` returns None exactly when no `| name =` occurs anywhere in the content. */
  lemma GetNoneIffAbsent(content: string, name: string)
    requires PlainName(name)
    ensures GetTemplateParam(content, name).None? <==>
      forall p :: 0 <= p <= |content| ==> KeyEnd(content, name, p).None?
  {
    FindKeyNone(content, name, 0);
  }

  /**
   * Get after set: a value without a new line reads back trimmed, provided
   * the parameter was there or the content has a `}}` to insert it before.
   */
  lemma GetAfterSet(content: string, name: string, value: string)
    requires PlainName(name) && '$' !in value && '\n' !in value
    requires GetTemplateParam(content, name).Some? || Contains(content, "}}")
    ensures GetTemplateParam(SetTemplateParam(content, name, value), name) == Some(Trim(value))
  {
    if FindKey(content, name, 0).Some? {
      GetAfterReplace(content, name, value);
    } else {
      GetAfterAppend(content, name, value);
    }
  }

  lemma GetAfterReplace(content: string, name: string, value: string)
    requires PlainName(name) && '$' !in value && '\n' !in value
    requires FindKey(content, name, 0).Some?
    ensures GetTemplateParam(SetTemplateParam(content, name, value), name) == Some(Trim(value))
  {
    var p := FindKey(content, name, 0).value;
    FindKeyFirst(content, name, 0);
    var l := LineEnd(content, KeyEnd(content, name, p).value);
    var c := content[l..];
    assert SetTemplateParam(content, name, value) == content[..p] + ParamLine(name, value) + c;
    ReadWrittenLine(content, content[..p], c, name, value, p);
  }

  lemma GetAfterAppend(content: string, name: string, value: string)
    requires PlainName(name) && '$' !in value && '\n' !in value
    requires FindKey(content, name, 0).None? && Contains(content, "}}")
    ensures GetTemplateParam(SetTemplateParam(content, name, value), name) == Some(Trim(value))
  {
    FindKeyNone(content, name, 0);
    ContainsIndexOf(content, "}}");
    var q := IndexOf(content, "}}", 0).value;
    AppendedAt(content, name, value, q);
    FirstClose(content, q);
    NoKeyBetweenSub(content, name, 0, |content| + 1, q);
    ReadAppended(content, name, value, q);
  }

  /** The line put in before a `}}` reads back when nothing before it matches. */
  lemma ReadAppended(content: string, name: string, value: string, q: nat)
    requires PlainName(name) && '\n' !in value && q + 2 <= |content| && NoKeyBetween(content, name, 0, q)
    ensures GetTemplateParam(content[..q] + (" " + ParamLine(name, value) + "\n}}") + content[q + 2..], name) == Some(Trim(value))
  {
    var c := "\n}}" + content[q + 2..];
    assert content[..q] + (" " + ParamLine(name, value) + "\n}}") + content[q + 2..] == (content[..q] + " ") + ParamLine(name, value) + c;
    ReadWrittenLine(content, content[..q] + " ", c, name, value, q);
  }

  /**
   * The page `a + ParamLine(name, value) + c`, where `a` agrees with the old
   * content up to `m` and holds no `|` or `=` after it, reads back the value.
   */
  lemma ReadWrittenLine(content: string, a: string, c: string, name: string, value: string, m: nat)
    requires PlainName(name) && '\n' !in value && (c == [] || c[0] == '\n')
    requires m <= |a| && Agree(a, content, 0, m)
    requires forall i :: m <= i < |a| ==> a[i] != '|' && a[i] != '='
    requires NoKeyBetween(content, name, 0, m)
    ensures GetTemplateParam(a + ParamLine(name, value) + c, name) == Some(Trim(value))
  {
    var s := a + ParamLine(name, value) + c;
    WrittenKey(a, name, value, c);
    NoKeyBeforeLine(content, a, c, name, value, m);
    FindKeyLeftmost(s, name, 0, |a|);
    var e := |a| + |name| + 4;
    GetAt(s, name, |a|, e);
    WrittenValue(a, name, value, c);
    assert Trim(ValueAt(s, e)) == Trim(value);
    assert GetTemplateParam(s, name) == Some(Trim(ValueAt(s, e)));
  }

  /** The first parameter line after a head without `|` or `=` reads back. */
  lemma FirstParamReads(head: string, name: string, value: string, c: string)
    requires PlainName(name) && '\n' !in value && (c == [] || c[0] == '\n')
    requires forall i :: 0 <= i < |head| ==> head[i] != '|' && head[i] != '='
    ensures GetTemplateParam(head + ParamLine(name, value) + c, name) == Some(Trim(value))
  {
    ReadWrittenLine(head + ParamLine(name, value) + c, head, c, name, value, 0);
  }

  /** What `getTemplateParam` returns once the leftmost match is known. */
  lemma GetAt(s: string, name: string, p: nat, e: nat)
    requires PlainName(name) && FindKey(s, name, 0) == Some(p) && KeyEnd(s, name, p) == Some(e)
    ensures GetTemplateParam(s, name) == Some(Trim(ValueAt(s, e)))
  {
  }

  lemma NoKeyBeforeLine(content: string, a: string, c: string, name: string, value: string, m: nat)
    requires PlainName(name)
    requires m <= |a| && Agree(a, content, 0, m)
    requires forall i :: m <= i < |a| ==> a[i] != '|' && a[i] != '='
    requires NoKeyBetween(content, name, 0, m)
    ensures NoKeyBetween(a + ParamLine(name, value) + c, name, 0, |a|)
  {
    var s := a + ParamLine(name, value) + c;
    assert s[|a|] == '|';
    assert Agree(s, content, 0, m);
    assert forall i :: m <= i < |a| ==> s[i] == a[i];
    forall j | 0 <= j < |a| ensures KeyEnd(s, name, j).None? {
      NoKeyThroughBar(content, s, name, m, |a|, j);
    }
  }

  /** The written line is a match of the key. */
  lemma WrittenKey(a: string, name: string, value: string, c: string)
    requires PlainName(name)
    ensures KeyEnd(a + ParamLine(name, value) + c, name, |a|) == Some(|a| + |name| + 4)
  {
    var s := a + ParamLine(name, value) + c;
    var n := |a| + 2 + |name|;
    assert s[|a|..|a| + 2] == "| ";
    assert s[|a| + 2..n] == name;
    assert s[n..n + 2] == " =";
    assert s[|a| + 1] == ' ' && s[|a| + 2] == name[0];
    SkipBlanksOf(s, |a| + 1, |a| + 2);
    assert s[n] == ' ' && s[n + 1] == '=';
    SkipBlanksOf(s, n, n + 1);
    KeyEndOf(s, name, |a|, |a| + 2, n + 1);
  }

  /** The value read from the written line trims to the written value. */
  lemma WrittenValue(a: string, name: string, value: string, c: string)
    requires '\n' !in value && (c == [] || c[0] == '\n')
    ensures Trim(ValueAt(a + ParamLine(name, value) + c, |a| + |name| + 4)) == Trim(value)
  {
    var s := a + ParamLine(name, value) + c;
    var e := |a| + |name| + 4;
    var end := e + 1 + |value|;
    assert s[e] == ' ';
    assert s[e + 1..end] == value;
    if end < |s| {
      assert s[end] == c[0];
    }
    ValueOfLine(s, e, value);
    SkipBlanksBlank(value, 0);
    TrimSkipBlanks(value, SkipBlanks(value, 0));
  }

  /** A blank and then a value running to the line end: the value read is the one without its leading blanks. */
  lemma ValueOfLine(s: string, e: nat, value: string)
    requires '\n' !in value && e + 1 + |value| <= |s| && s[e] == ' ' && s[e + 1..e + 1 + |value|] == value
    requires e + 1 + |value| == |s| || s[e + 1 + |value|] == '\n'
    ensures ValueAt(s, e) == value[SkipBlanks(value, 0)..]
  {
    BlanksBeforeValue(s, e, value);
    ReadPlacedLine(s, e, value);
    TailOfPlaced(s, e + 1, value, SkipBlanks(value, 0));
  }

  /** A line holding `value` after its space reads up to the end of `value`. */
  lemma ReadPlacedLine(s: string, e: nat, value: string)
    requires '\n' !in value && e + 1 + |value| <= |s| && s[e] == ' ' && s[e + 1..e + 1 + |value|] == value
    requires e + 1 + |value| == |s| || s[e + 1 + |value|] == '\n'
    ensures SkipBlanks(s, e) <= e + 1 + |value| && ValueAt(s, e) == s[SkipBlanks(s, e)..e + 1 + |value|]
  {
    NoBreakInValue(s, e + 1, value, 0);
    ReadToLineEnd(s, e, e + 1 + |value|);
  }

  /** Past `b` characters, a copy of `value` placed at `v` reads as the rest of `value`. */
  lemma TailOfPlaced(s: string, v: nat, value: string, b: nat)
    requires v + |value| <= |s| && s[v..v + |value|] == value && b <= |value|
    ensures s[v + b..v + |value|] == value[b..]
  {
    SliceOfSlice(s, v, v + |value|, b);
  }

  /** Where the line runs on to `end`, the value read is the rest of the line after the blanks. */
  lemma ReadToLineEnd(s: string, e: nat, end: nat)
    requires e < end <= |s| && s[e] == ' ' && (forall k :: e < k < end ==> s[k] != '\n')
    requires end == |s| || s[end] == '\n'
    ensures SkipBlanks(s, e) <= end && ValueAt(s, e) == s[SkipBlanks(s, e)..end]
  {
    var c := SkipBlanks(s, e);
    SkipBlanksBlank(s, e);
    ValueAtOf(s, e, c, end);
  }

  /** The value read at `e` is what lies between the end of the blanks and the end of the line. */
  lemma ValueAtOf(s: string, e: nat, c: nat, l: nat)
    requires e <= c <= l <= |s| && SkipBlanks(s, e) == c
    requires (forall k :: c <= k < l ==> s[k] != '\n') && (l == |s| || s[l] == '\n')
    ensures ValueAt(s, e) == s[c..l]
  {
    LineEndOf(s, c, l);
  }

  lemma BlanksBeforeValue(s: string, e: nat, value: string)
    requires e + 1 + |value| <= |s| && s[e] == ' ' && s[e + 1..e + 1 + |value|] == value
    requires e + 1 + |value| == |s| || s[e + 1 + |value|] == '\n'
    ensures SkipBlanks(s, e) == e + 1 + SkipBlanks(value, 0)
  {
    var v := e + 1;
    var end := v + |value|;
    var b := SkipBlanks(value, 0);
    SkipBlanksBlank(value, 0);
    forall k | e <= k < v + b ensures IsBlankChar(s[k]) {
      if k > e {
        assert s[k] == s[v..end][k - v];
      }
    }
    if b < |value| {
      assert s[v + b] == s[v..end][b];
    }
    SkipBlanksOf(s, e, v + b);
  }

  lemma NoBreakInValue(s: string, v: nat, value: string, b: nat)
    requires '\n' !in value && b <= |value| && v + |value| <= |s| && s[v..v + |value|] == value
    ensures forall k :: v + b <= k < v + |value| ==> s[k] != '\n'
  {
    forall k | v + b <= k < v + |value| ensures s[k] != '\n' {
      assert s[k] == s[v..v + |value|][k - v];
    }
  }

  lemma {:induction false} TrimSkipBlanks(s: string, k: nat)
    requires k <= |s| && forall i :: 0 <= i < k ==> IsBlankChar(s[i])
    ensures Trim(s[k..]) == Trim(s)
    decreases k
  {
    if k > 0 {
      assert s[1..][k - 1..] == s[k..];
      TrimSkipBlanks(s[1..], k - 1);
      TrimDropBlank(s);
    }
  }

  /** A leading blank is dropped by trimming. */
  lemma TrimDropBlank(s: string)
    requires s != [] && IsBlankChar(s[0])
    ensures Trim(s[1..]) == Trim(s)
  {
    assert TrimStart(s) == TrimStart(s[1..]);
  }

  /**
   * No match starts before a `|` at `a` in a page that agrees with `content`
   * before `m` and holds no `|` or `=` from `m` to `a`: one that ended before
   * `m` would be a match of the old content, and one reaching further would
   * have to contain the `|` at `a` or end with an `=` after `m`.
   */
  lemma NoKeyThroughBar(content: string, s: string, name: string, m: nat, a: nat, j: nat)
    requires PlainName(name)
    requires m <= a < |s| && Agree(s, content, 0, m) && s[a] == '|'
    requires forall i :: m <= i < a ==> s[i] != '|' && s[i] != '='
    requires j < a && (j < m ==> KeyEnd(content, name, j).None?)
    ensures KeyEnd(s, name, j).None?
  {
    if KeyEnd(s, name, j).Some? {
      var e := KeyEnd(s, name, j).value;
      KeySpan(s, name, j);
      if e <= a {
        assert e <= m;
        AgreeWithin(s, content, 0, m, j, e);
        KeyEndAgree(s, content, name, j, e);
      }
    }
  }

  // ---------------------------------------------------------------------------
  // What setting one parameter leaves of another

  /** Two different plain names cannot both match at the same position. */
  lemma DistinctKeys(s: string, g: string, h: string, p: nat)
    requires PlainName(g) && PlainName(h) && p <= |s|
    requires KeyEnd(s, g, p).Some? && KeyEnd(s, h, p).Some?
    ensures g == h
  {
    var a := SkipBlanks(s, p + 1);
    NameFollowed(s, g, p);
    NameFollowed(s, h, p);
    NameStopsAt(s, a, h, |g|);
    NameStopsAt(s, a, g, |h|);
  }

  /** A matched name is followed by a blank or the `=`, neither of which a plain name holds. */
  lemma NameFollowed(s: string, name: string, p: nat)
    requires PlainName(name) && p <= |s| && KeyEnd(s, name, p).Some?
    ensures var a := SkipBlanks(s, p + 1);
      a + |name| < |s| && s[a..a + |name|] == name && !NameChar(s[a + |name|])
  {
    var a := SkipBlanks(s, p + 1);
    SkipBlanksBlank(s, a + |name|);
  }

  /** A plain name read at `a` cannot reach past a character that no name holds. */
  lemma NameStopsAt(s: string, a: nat, name: string, j: nat)
    requires PlainName(name) && a + |name| <= |s| && s[a..a + |name|] == name
    requires a + j < |s| && !NameChar(s[a + j])
    ensures |name| <= j
  {
    forall i | 0 <= i < |name| ensures s[a + i] == name[i] {
      assert s[a..a + |name|][i] == s[a + i];
    }
  }

  /** Two sub-ranges with no match make one. */
  lemma NoKeyBetweenJoin(s: string, name: string, lo: nat, mid: nat, hi: nat)
    requires PlainName(name) && lo <= mid <= hi
    requires NoKeyBetween(s, name, lo, mid) && NoKeyBetween(s, name, mid, hi)
    ensures NoKeyBetween(s, name, lo, hi)
  {
  }

  lemma NoKeyBetweenWithin(s: string, name: string, lo: nat, hi: nat, lo2: nat, hi2: nat)
    requires PlainName(name) && NoKeyBetween(s, name, lo, hi) && lo <= lo2 && hi2 <= hi
    ensures NoKeyBetween(s, name, lo2, hi2)
  {
  }

  /** Positions after `a` without a `|` start no match. */
  lemma NoBarNoKey(s: string, name: string, a: nat, hi: nat)
    requires PlainName(name) && hi <= |s| && forall i :: a < i < hi ==> s[i] != '|'
    ensures NoKeyBetween(s, name, a + 1, hi)
  {
  }

  /** Range form of `NoKeyThroughBar`. */
  lemma NoKeyBeforeBar(content: string, s: string, name: string, m: nat, a: nat, hi: nat)
    requires PlainName(name)
    requires m <= a < |s| && Agree(s, content, 0, m) && s[a] == '|'
    requires forall i :: m <= i < a ==> s[i] != '|' && s[i] != '='
    requires NoKeyBetween(content, name, 0, hi)
    ensures NoKeyBetween(s, name, 0, if hi < m then hi else a)
  {
    forall j | 0 <= j < (if hi < m then hi else a) && j <= |s|
      ensures KeyEnd(s, name, j).None?
    {
      NoKeyThroughBar(content, s, name, m, a, j);
    }
  }

  /** `t` from `n` on is `s` from `m` on. */
  predicate Shifted(s: string, t: string, m: nat, n: nat) {
    m <= |s| && n <= |t| && |s| - m == |t| - n && forall i :: m <= i < |s| ==> s[i] == t[i - m + n]
  }

  lemma SliceShift(s: string, t: string, m: nat, n: nat, lo: nat, hi: nat)
    requires Shifted(s, t, m, n) && m <= lo <= hi <= |s|
    ensures t[lo - m + n..hi - m + n] == s[lo..hi]
  {
    forall k | 0 <= k < hi - lo ensures t[lo - m + n..hi - m + n][k] == s[lo..hi][k] {
      assert s[lo + k] == t[lo + k - m + n];
    }
  }

  lemma {:induction false} SkipBlanksShift(s: string, t: string, m: nat, n: nat, i: nat)
    requires Shifted(s, t, m, n) && m <= i <= |s|
    ensures SkipBlanks(t, i - m + n) == SkipBlanks(s, i) - m + n
    decreases |s| - i
  {
    if i < |s| {
      assert t[i - m + n] == s[i];
      if IsBlankChar(s[i]) {
        SkipBlanksShift(s, t, m, n, i + 1);
      }
    }
  }

  lemma {:induction false} LineEndShift(s: string, t: string, m: nat, n: nat, i: nat)
    requires Shifted(s, t, m, n) && m <= i <= |s|
    ensures LineEnd(t, i - m + n) == LineEnd(s, i) - m + n
    decreases |s| - i
  {
    if i < |s| {
      assert t[i - m + n] == s[i];
      if s[i] != '\n' {
        LineEndShift(s, t, m, n, i + 1);
      }
    }
  }

  /** Matches move with the text they are in. */
  lemma KeyEndShift(s: string, t: string, name: string, m: nat, n: nat, p: nat)
    requires PlainName(name) && Shifted(s, t, m, n) && m <= p <= |s|
    ensures KeyEnd(t, name, p - m + n).Some? <==> KeyEnd(s, name, p).Some?
    ensures KeyEnd(s, name, p).Some? ==> KeyEnd(t, name, p - m + n).value == KeyEnd(s, name, p).value - m + n
  {
    if KeyEnd(s, name, p).Some? {
      KeyPartsShift(s, t, name, m, n, p);
    }
    if KeyEnd(t, name, p - m + n).Some? {
      ShiftedBack(s, t, m, n);
      KeyPartsShift(t, s, name, n, m, p - m + n);
    }
  }

  /** A match in shifted text is found at the shifted position, with the shifted end. */
  lemma KeyPartsShift(s: string, t: string, name: string, m: nat, n: nat, p: nat)
    requires PlainName(name) && Shifted(s, t, m, n) && m <= p <= |s| && KeyEnd(s, name, p).Some?
    ensures KeyEnd(t, name, p - m + n) == Some(KeyEnd(s, name, p).value - m + n)
  {
    var a := SkipBlanks(s, p + 1);
    var b := SkipBlanks(s, a + |name|);
    KeyParts(s, name, p);
    KeyPartsMoved(s, t, name, m, n, p, a, b);
  }

  /** The pieces the scanner reads for a match. */
  lemma KeyParts(s: string, name: string, p: nat)
    requires PlainName(name) && p <= |s| && KeyEnd(s, name, p).Some?
    ensures var a := SkipBlanks(s, p + 1); var b := SkipBlanks(s, a + |name|);
      && p < a && a + |name| <= b < |s| && s[p] == '|' && s[a..a + |name|] == name && s[b] == '='
      && KeyEnd(s, name, p) == Some(b + 1)
  {
  }

  lemma KeyPartsMoved(s: string, t: string, name: string, m: nat, n: nat, p: nat, a: nat, b: nat)
    requires PlainName(name) && Shifted(s, t, m, n) && m <= p
    requires p < a && a + |name| <= b < |s|
    requires s[p] == '|' && SkipBlanks(s, p + 1) == a && s[a..a + |name|] == name
    requires SkipBlanks(s, a + |name|) == b && s[b] == '='
    ensures KeyEnd(t, name, p - m + n) == Some(b + 1 - m + n)
  {
    assert t[p - m + n] == s[p] && t[b - m + n] == s[b];
    SkipBlanksShift(s, t, m, n, p + 1);
    SliceShift(s, t, m, n, a, a + |name|);
    SkipBlanksShift(s, t, m, n, a + |name|);
    KeyEndOf(t, name, p - m + n, a - m + n, b - m + n);
  }

  /** Shifting is undone by shifting back. */
  lemma ShiftedBack(s: string, t: string, m: nat, n: nat)
    requires Shifted(s, t, m, n)
    ensures Shifted(t, s, n, m)
  {
    forall i | n <= i < |t| ensures t[i] == s[i - n + m] {
      assert s[i - n + m] == t[i - n + m - m + n];
    }
  }

  lemma ValueAtShift(s: string, t: string, m: nat, n: nat, e: nat, f: nat)
    requires Shifted(s, t, m, n) && m <= e <= |s| && f == e - m + n
    ensures ValueAt(s, e) == ValueAt(t, f)
  {
    var c := SkipBlanks(s, e);
    SkipBlanksShift(s, t, m, n, e);
    LineEndShift(s, t, m, n, c);
    SliceShift(s, t, m, n, c, LineEnd(s, c));
  }

  lemma NoKeyShift(s: string, t: string, name: string, m: nat, n: nat, lo: nat, hi: nat)
    requires PlainName(name) && Shifted(s, t, m, n) && m <= lo <= hi && NoKeyBetween(s, name, lo, hi)
    ensures NoKeyBetween(t, name, lo - m + n, hi - m + n)
  {
    forall j | lo - m + n <= j < hi - m + n && j <= |t|
      ensures KeyEnd(t, name, j).None?
    {
      KeyEndShift(s, t, name, m, n, j - n + m);
    }
  }

  lemma LineEndAgree(s: string, t: string, i: nat, hi: nat)
    requires i <= hi && Agree(s, t, i, hi) && LineEnd(s, i) < hi
    ensures LineEnd(t, i) == LineEnd(s, i)
  {
    LineEndNoBreak(s, i);
    LineEndOf(t, i, LineEnd(s, i));
  }

  /** A value whose line ends before `m` reads the same in a page that agrees before `m`. */
  lemma ValueAgree(s: string, t: string, e: nat, m: nat)
    requires e <= m && Agree(s, t, 0, m) && LineEnd(s, SkipBlanks(s, e)) < m
    ensures ValueAt(t, e) == ValueAt(s, e)
  {
    var c := SkipBlanks(s, e);
    AgreeWithin(s, t, 0, m, e, m);
    SkipBlanksAgree(s, t, e, m);
    AgreeWithin(s, t, 0, m, c, m);
    LineEndAgree(s, t, c, m);
    assert t[c..LineEnd(s, c)] == s[c..LineEnd(s, c)];
  }

  /** A `|` reached from `e` without crossing a line end is part of the value read at `e`. */
  lemma ValueBar(s: string, e: nat, x: nat)
    requires e <= x < |s| && s[x] == '|' && forall k :: e <= k < x ==> s[k] != '\n'
    ensures '|' in ValueAt(s, e)
  {
    var c := SkipBlanks(s, e);
    SkipBlanksBlank(s, e);
    assert c <= x;
    var l := LineEnd(s, c);
    assert l > x;
    assert ValueAt(s, e)[x - c] == '|';
  }

  /** The line end is the same seen from before or after the blanks. */
  lemma LineEndSkip(s: string, i: nat)
    requires i <= |s|
    ensures LineEnd(s, SkipBlanks(s, i)) == LineEnd(s, i)
  {
    var c := SkipBlanks(s, i);
    SkipBlanksBlank(s, i);
    LineEndNoBreak(s, c);
    LineEndOf(s, i, LineEnd(s, c));
  }

  /** Either a value's line ends before `m`, or no line end lies between the match and `m`. */
  lemma LineBeforeOrOpen(s: string, e: nat, m: nat)
    requires e <= m <= |s| && LineEnd(s, SkipBlanks(s, e)) >= m
    ensures forall k :: e <= k < m ==> s[k] != '\n'
  {
    LineEndSkip(s, e);
    LineEndNoBreak(s, e);
  }

  /**
   * The first match of `g` lies before an edit at `m`, where the old page has
   * a `|` or `}` and the new one agrees before `m` and reaches a `|` at `a`
   * with no `|`, `=` or line end in between: `g` reads the same, or its value
   * ran on into the edit and now holds a `|`.
   */
  lemma KeepBefore(c: string, r: string, g: string, m: nat, a: nat)
    requires PlainName(g) && FindKey(c, g, 0).Some? && FindKey(c, g, 0).value < m < |c|
    requires c[m] == '|' || c[m] == '}'
    requires m <= a < |r| && Agree(r, c, 0, m) && r[a] == '|'
    requires forall i :: m <= i < a ==> r[i] != '|' && r[i] != '=' && r[i] != '\n'
    ensures GetTemplateParam(r, g).Some?
    ensures GetTemplateParam(r, g) == GetTemplateParam(c, g) || '|' in GetTemplateParam(r, g).value
  {
    var pg := FindKey(c, g, 0).value;
    var eg := KeyEnd(c, g, pg).value;
    KeepBeforeMatch(c, r, g, m, a);
    GetAt(r, g, pg, eg);
    GetAt(c, g, pg, eg);
    KeySpan(c, g, pg);
    if LineEnd(c, SkipBlanks(c, eg)) < m {
      ValueAgree(c, r, eg, m);
    } else {
      KeepBeforeOpen(c, r, eg, m, a);
    }
  }

  /** The first match of `g` stays where it was. */
  lemma KeepBeforeMatch(c: string, r: string, g: string, m: nat, a: nat)
    requires PlainName(g) && FindKey(c, g, 0).Some? && FindKey(c, g, 0).value < m < |c|
    requires c[m] == '|' || c[m] == '}'
    requires m <= a < |r| && Agree(r, c, 0, m) && r[a] == '|'
    requires forall i :: m <= i < a ==> r[i] != '|' && r[i] != '='
    ensures FindKey(r, g, 0) == FindKey(c, g, 0)
    ensures KeyEnd(r, g, FindKey(c, g, 0).value) == KeyEnd(c, g, FindKey(c, g, 0).value)
  {
    var pg := FindKey(c, g, 0).value;
    var eg := KeyEnd(c, g, pg).value;
    KeySpan(c, g, pg);
    assert eg <= m;
    assert Agree(c, r, 0, m);
    AgreeWithin(c, r, 0, m, pg, eg);
    KeyEndAgree(c, r, g, pg, eg);
    FindKeyFirst(c, g, 0);
    NoKeyBeforeBar(c, r, g, m, a, pg);
    FindKeyLeftmost(r, g, 0, pg);
  }

  /** A value whose line runs on past `m` now reaches the `|` at `a`. */
  lemma KeepBeforeOpen(c: string, r: string, eg: nat, m: nat, a: nat)
    requires eg <= m < |c| && LineEnd(c, SkipBlanks(c, eg)) >= m
    requires m <= a < |r| && Agree(r, c, 0, m) && r[a] == '|'
    requires forall i :: m <= i < a ==> r[i] != '\n'
    ensures '|' in Trim(ValueAt(r, eg))
  {
    LineBeforeOrOpen(c, eg, m);
    assert forall k :: eg <= k < m ==> r[k] == c[k];
    ValueBar(r, eg, a);
    TrimKeepsInner(ValueAt(r, eg), '|');
  }

  /**
   * The first match of `g` lies after an edit that replaced `c[m..l]` by
   * text running from `m` to `n` in `r`, the written text starting with a
   * match of another name at `a` and holding no other `|`: `g` reads the same.
   */
  lemma KeepAfter(c: string, r: string, g: string, h: string, m: nat, a: nat, l: nat, n: nat)
    requires PlainName(g) && PlainName(h) && g != h
    requires FindKey(c, g, 0).Some? && m <= l <= FindKey(c, g, 0).value
    requires LineWritten(c, r, h, m, a, l, n)
    ensures GetTemplateParam(r, g) == GetTemplateParam(c, g)
  {
    var pg := FindKey(c, g, 0).value;
    KeepAfterNoKey(c, r, g, h, m, a, l, n);
    KeepAfterRead(c, r, g, l, n, pg, KeyEnd(c, g, pg).value);
  }

  /** Text shifted behind an edit, with no match of `g` before its old first one, reads `g` the same. */
  lemma KeepAfterRead(c: string, r: string, g: string, l: nat, n: nat, pg: nat, eg: nat)
    requires PlainName(g) && FindKey(c, g, 0) == Some(pg) && l <= pg && KeyEnd(c, g, pg) == Some(eg)
    requires Shifted(c, r, l, n) && NoKeyBetween(r, g, 0, pg - l + n)
    ensures GetTemplateParam(r, g) == GetTemplateParam(c, g)
  {
    var pt, et := pg - l + n, eg - l + n;
    KeepAfterFind(c, r, g, l, n, pg, eg, pt, et);
    SameReadShifted(c, r, g, l, n, pg, eg, pt, et);
  }

  /** A match behind the edit moves with the text, and stays the first one when nothing matches before it. */
  lemma KeepAfterFind(c: string, r: string, g: string, l: nat, n: nat, pg: nat, eg: nat, pt: nat, et: nat)
    requires PlainName(g) && l <= pg <= |c| && KeyEnd(c, g, pg) == Some(eg)
    requires pt == pg - l + n && et == eg - l + n
    requires Shifted(c, r, l, n) && NoKeyBetween(r, g, 0, pt)
    ensures FindKey(r, g, 0) == Some(pt) && KeyEnd(r, g, pt) == Some(et)
  {
    KeyEndShift(c, r, g, l, n, pg);
    FindKeyLeftmost(r, g, 0, pt);
  }

  /** A page whose first match moved with the text behind the edit reads the same value there. */
  lemma SameReadShifted(c: string, r: string, g: string, l: nat, n: nat, pg: nat, eg: nat, pt: nat, et: nat)
    requires PlainName(g) && Shifted(c, r, l, n) && l <= eg <= |c| && pt == pg - l + n && et == eg - l + n
    requires FindKey(c, g, 0) == Some(pg) && KeyEnd(c, g, pg) == Some(eg)
    requires FindKey(r, g, 0) == Some(pt) && KeyEnd(r, g, pt) == Some(et)
    ensures GetTemplateParam(r, g) == GetTemplateParam(c, g)
  {
    ValueAtShift(c, r, l, n, eg, et);
    SameRead(c, r, g, pg, eg, pt, et);
  }

  /** Two pages whose first matches of `name` carry the same line read the same value. */
  lemma SameRead(s: string, t: string, name: string, ps: nat, es: nat, pt: nat, et: nat)
    requires PlainName(name)
    requires FindKey(s, name, 0) == Some(ps) && KeyEnd(s, name, ps) == Some(es)
    requires FindKey(t, name, 0) == Some(pt) && KeyEnd(t, name, pt) == Some(et)
    requires ValueAt(s, es) == ValueAt(t, et)
    ensures GetTemplateParam(s, name) == GetTemplateParam(t, name)
  {
    GetAt(s, name, ps, es);
    GetAt(t, name, pt, et);
  }

  /**
   * `r` is `c` with `c[m..l]` replaced by text running from `m` to `n`,
   * blanks up to a match of `h` at `a` and no other `|`.
   */
  predicate LineWritten(c: string, r: string, h: string, m: nat, a: nat, l: nat, n: nat)
    requires PlainName(h)
  {
    && Shifted(c, r, l, n)
    && m <= a < n && Agree(r, c, 0, m) && r[a] == '|' && KeyEnd(r, h, a).Some?
    && (forall i :: m <= i < a ==> r[i] != '|' && r[i] != '=')
    && (forall i :: a < i < n ==> r[i] != '|')
  }

  lemma KeepAfterNoKey(c: string, r: string, g: string, h: string, m: nat, a: nat, l: nat, n: nat)
    requires PlainName(g) && PlainName(h) && g != h
    requires FindKey(c, g, 0).Some? && m <= l <= FindKey(c, g, 0).value
    requires Shifted(c, r, l, n)
    requires m <= a < n && Agree(r, c, 0, m) && r[a] == '|' && KeyEnd(r, h, a).Some?
    requires forall i :: m <= i < a ==> r[i] != '|' && r[i] != '='
    requires forall i :: a < i < n ==> r[i] != '|'
    ensures NoKeyBetween(r, g, 0, FindKey(c, g, 0).value - l + n)
  {
    var pg := FindKey(c, g, 0).value;
    FindKeyFirst(c, g, 0);
    NoKeyInLine(c, r, g, h, m, a, n, pg);
    NoKeyBetweenWithin(c, g, 0, pg, l, pg);
    NoKeyShift(c, r, g, l, n, l, pg);
    NoKeyBetweenJoin(r, g, 0, n, pg - l + n);
  }

  /** Up to the end of the written line, only `h` can match: the text before it is the old text, cut at a `|`. */
  lemma NoKeyInLine(c: string, r: string, g: string, h: string, m: nat, a: nat, n: nat, pg: nat)
    requires PlainName(g) && PlainName(h) && g != h
    requires m <= pg && NoKeyBetween(c, g, 0, pg)
    requires m <= a < n <= |r| && Agree(r, c, 0, m) && r[a] == '|' && KeyEnd(r, h, a).Some?
    requires forall i :: m <= i < a ==> r[i] != '|' && r[i] != '='
    requires forall i :: a < i < n ==> r[i] != '|'
    ensures NoKeyBetween(r, g, 0, n)
  {
    NoKeyBeforeBar(c, r, g, m, a, pg);
    if KeyEnd(r, g, a).Some? {
      DistinctKeys(r, g, h, a);
    }
    NoBarNoKey(r, g, a, n);
    NoKeyBetweenJoin(r, g, 0, a, a + 1);
    NoKeyBetweenJoin(r, g, 0, a + 1, n);
  }

  /** The written line holds no `|` after its first character. */
  lemma ParamLineBars(name: string, value: string)
    requires PlainName(name) && '|' !in value
    ensures forall k :: 0 < k < |ParamLine(name, value)| ==> ParamLine(name, value)[k] != '|'
  {
    var pl := ParamLine(name, value);
    forall k | 0 < k < |pl| ensures pl[k] != '|' {
      if 2 <= k < 2 + |name| {
        assert pl[k] == name[k - 2];
      } else if k >= |name| + 5 {
        assert pl[k] == value[k - |name| - 5];
      }
    }
  }

  /** The line of a parameter with an empty value holds no `|` after the one that starts it. */
  lemma EmptyLineNoBar(c: string, h: string, p: nat)
    requires PlainName(h) && FindKey(c, h, 0) == Some(p) && GetTemplateParam(c, h) == Some("")
    ensures forall k :: p < k < LineEnd(c, KeyEnd(c, h, p).value) ==> c[k] != '|'
  {
    var eh := KeyEnd(c, h, p).value;
    GetAt(c, h, p, eh);
    EmptyValueSpace(c, eh);
    EmptyValueNoBar(c, eh);
    KeySpan(c, h, p);
  }

  /** An empty value leaves only white space on the rest of its line. */
  lemma EmptyValueSpace(c: string, e: nat)
    requires e <= |c| && Trim(ValueAt(c, e)) == ""
    ensures forall k :: SkipBlanks(c, e) <= k < LineEnd(c, SkipBlanks(c, e)) ==> IsSpace(c[k])
  {
    BlankSpan(c, SkipBlanks(c, e), LineEnd(c, SkipBlanks(c, e)));
  }

  lemma EmptyValueNoBar(c: string, e: nat)
    requires e <= |c| && (forall k :: SkipBlanks(c, e) <= k < LineEnd(c, SkipBlanks(c, e)) ==> IsSpace(c[k]))
    ensures forall k :: e <= k < LineEnd(c, e) ==> c[k] != '|'
  {
    SkipBlanksBlank(c, e);
    LineEndSkip(c, e);
  }

  lemma BlankSpan(c: string, lo: nat, hi: nat)
    requires lo <= hi <= |c| && Trim(c[lo..hi]) == ""
    ensures forall k :: lo <= k < hi ==> IsSpace(c[k])
  {
    BlankIffAllSpace(c[lo..hi]);
    forall k | lo <= k < hi ensures IsSpace(c[k]) {
      assert c[k] == c[lo..hi][k - lo];
    }
  }

  /**
   * Setting `h` where it stands with an empty value keeps every other
   * parameter `g` readable: with the same value, or with a `|` in it when
   * `g`'s value ran on into `h`'s line.
   */
  lemma SetExistingKeepsOther(c: string, h: string, v: string, g: string)
    requires PlainName(h) && PlainName(g) && h != g && '$' !in v && '|' !in v
    requires FindKey(c, h, 0).Some? && GetTemplateParam(c, h) == Some("")
    requires FindKey(c, g, 0).Some?
    ensures GetTemplateParam(SetTemplateParam(c, h, v), g).Some?
    ensures GetTemplateParam(SetTemplateParam(c, h, v), g) == GetTemplateParam(c, g)
      || '|' in GetTemplateParam(SetTemplateParam(c, h, v), g).value
  {
    var p := FindKey(c, h, 0).value;
    var l := LineEnd(c, KeyEnd(c, h, p).value);
    assert SetTemplateParam(c, h, v) == c[..p] + ParamLine(h, v) + c[l..];
    if FindKey(c, g, 0).value < p {
      KeySpan(c, h, p);
      ReplaceAfter(c, h, v, g, p, l);
    } else {
      AfterEmptyLine(c, h, g, p);
      ReplaceBefore(c, h, v, g, p, l);
    }
  }

  /** A match of another name after an empty-valued parameter lies past its line. */
  lemma AfterEmptyLine(c: string, h: string, g: string, p: nat)
    requires PlainName(h) && PlainName(g) && h != g
    requires FindKey(c, h, 0) == Some(p) && GetTemplateParam(c, h) == Some("")
    requires FindKey(c, g, 0).Some? && FindKey(c, g, 0).value >= p
    ensures FindKey(c, g, 0).value >= LineEnd(c, KeyEnd(c, h, p).value)
  {
    var pg := FindKey(c, g, 0).value;
    if pg == p {
      DistinctKeys(c, g, h, p);
    }
    EmptyLineNoBar(c, h, p);
    KeySpan(c, g, pg);
  }

  /** The line replaced comes after the first match of `g`. */
  lemma ReplaceAfter(c: string, h: string, v: string, g: string, p: nat, l: nat)
    requires PlainName(h) && PlainName(g) && '|' !in v && p <= l <= |c| && p < |c| && c[p] == '|'
    requires FindKey(c, g, 0).Some? && FindKey(c, g, 0).value < p
    ensures var r := c[..p] + ParamLine(h, v) + c[l..];
      GetTemplateParam(r, g).Some? && (GetTemplateParam(r, g) == GetTemplateParam(c, g) || '|' in GetTemplateParam(r, g).value)
  {
    ReplacedLine(c, h, v, p, l);
    KeepBefore(c, c[..p] + ParamLine(h, v) + c[l..], g, p, p);
  }

  /** The line replaced comes before the first match of `g`. */
  lemma ReplaceBefore(c: string, h: string, v: string, g: string, p: nat, l: nat)
    requires PlainName(h) && PlainName(g) && h != g && '|' !in v && p <= l <= |c|
    requires FindKey(c, g, 0).Some? && FindKey(c, g, 0).value >= l
    ensures GetTemplateParam(c[..p] + ParamLine(h, v) + c[l..], g) == GetTemplateParam(c, g)
  {
    ReplacedLine(c, h, v, p, l);
    KeepAfter(c, c[..p] + ParamLine(h, v) + c[l..], g, h, p, p, l, p + |ParamLine(h, v)|);
  }

  /** The shape of a page whose span `p..l` was replaced by a parameter line. */
  lemma ReplacedLine(c: string, h: string, v: string, p: nat, l: nat)
    requires PlainName(h) && '|' !in v && p <= l <= |c|
    ensures var r := c[..p] + ParamLine(h, v) + c[l..];
      && Agree(r, c, 0, p) && r[p] == '|'
      && LineWritten(c, r, h, p, p, l, p + |ParamLine(h, v)|)
  {
    var pl := ParamLine(h, v);
    var r := c[..p] + pl + c[l..];
    WrittenKey(c[..p], h, v, c[l..]);
    ParamLineBars(h, v);
    forall i | p < i < p + |pl| ensures r[i] != '|' {
      assert r[i] == pl[i - p];
    }
    forall i | l <= i < |c| ensures c[i] == r[i - l + p + |pl|] {
      assert r[i - l + p + |pl|] == c[l..][i - l];
    }
  }

  /**
   * Setting a missing `h` before the first `}}` keeps every other parameter
   * `g` readable: with the same value, or with a `|` in it when `g`'s value
   * ran on up to that `}}`.
   */
  lemma SetMissingKeepsOther(c: string, h: string, v: string, g: string)
    requires PlainName(h) && PlainName(g) && h != g && '$' !in v && '|' !in v
    requires FindKey(c, h, 0).None? && IndexOf(c, "}}", 0).Some?
    requires FindKey(c, g, 0).Some?
    ensures GetTemplateParam(SetTemplateParam(c, h, v), g).Some?
    ensures GetTemplateParam(SetTemplateParam(c, h, v), g) == GetTemplateParam(c, g)
      || '|' in GetTemplateParam(SetTemplateParam(c, h, v), g).value
  {
    var q := IndexOf(c, "}}", 0).value;
    SetMissing(c, h, v);
    assert c[q] == c[q..q + 2][0] == '}';
    if FindKey(c, g, 0).value < q {
      InsertAfter(c, h, v, g, q);
    } else {
      InsertBefore(c, h, v, g, q);
    }
  }

  /** The line inserted comes after the first match of `g`. */
  lemma InsertAfter(c: string, h: string, v: string, g: string, q: nat)
    requires PlainName(h) && PlainName(g) && '|' !in v && q < |c| && c[q] == '}'
    requires FindKey(c, g, 0).Some? && FindKey(c, g, 0).value < q
    ensures var r := c[..q] + " " + ParamLine(h, v) + "\n" + c[q..];
      GetTemplateParam(r, g).Some? && (GetTemplateParam(r, g) == GetTemplateParam(c, g) || '|' in GetTemplateParam(r, g).value)
  {
    InsertedLine(c, h, v, q);
    KeepBefore(c, c[..q] + " " + ParamLine(h, v) + "\n" + c[q..], g, q, q + 1);
  }

  /** The line inserted comes before the first match of `g`. */
  lemma InsertBefore(c: string, h: string, v: string, g: string, q: nat)
    requires PlainName(h) && PlainName(g) && h != g && '|' !in v && q <= |c|
    requires FindKey(c, g, 0).Some? && FindKey(c, g, 0).value >= q
    ensures GetTemplateParam(c[..q] + " " + ParamLine(h, v) + "\n" + c[q..], g) == GetTemplateParam(c, g)
  {
    InsertedLine(c, h, v, q);
    KeepAfter(c, c[..q] + " " + ParamLine(h, v) + "\n" + c[q..], g, h, q, q + 1, q, q + |ParamLine(h, v)| + 2);
  }

  /** The shape of a page with a parameter line inserted at `q`. */
  lemma InsertedLine(c: string, h: string, v: string, q: nat)
    requires PlainName(h) && '|' !in v && q <= |c|
    ensures var r := c[..q] + " " + ParamLine(h, v) + "\n" + c[q..];
      && Agree(r, c, 0, q) && r[q] == ' ' && r[q + 1] == '|'
      && LineWritten(c, r, h, q, q + 1, q, q + |ParamLine(h, v)| + 2)
  {
    var pl := ParamLine(h, v);
    var r := c[..q] + " " + pl + "\n" + c[q..];
    assert r == (c[..q] + " ") + pl + ("\n" + c[q..]);
    WrittenKey(c[..q] + " ", h, v, "\n" + c[q..]);
    ParamLineBars(h, v);
    forall i | q + 1 < i < q + |pl| + 2 ensures r[i] != '|' {
      if i < q + |pl| + 1 {
        assert r[i] == pl[i - q - 1];
      }
    }
    forall i | q <= i < |c| ensures c[i] == r[i - q + q + |pl| + 2] {
      assert r[i - q + q + |pl| + 2] == c[q..][i - q];
    }
  }

  /**
   * Setting a parameter that is absent or empty keeps every other parameter
   * readable: with the same value, or with a `|` in it when its value ran on
   * into the line written.
   */
  lemma SetKeepsOther(c: string, h: string, v: string, g: string)
    requires PlainName(h) && PlainName(g) && h != g && '$' !in v && '|' !in v
    requires GetTemplateParam(c, h).None? || GetTemplateParam(c, h) == Some("")
    requires GetTemplateParam(c, g).Some?
    ensures GetTemplateParam(SetTemplateParam(c, h, v), g).Some?
    ensures GetTemplateParam(SetTemplateParam(c, h, v), g) == GetTemplateParam(c, g)
      || '|' in GetTemplateParam(SetTemplateParam(c, h, v), g).value
  {
    if FindKey(c, h, 0).Some? {
      SetExistingKeepsOther(c, h, v, g);
    } else if IndexOf(c, "}}", 0).Some? {
      SetMissingKeepsOther(c, h, v, g);
    }
  }
}
