/**
 * String helpers shared by the page engine and the form helpers.
 *
 * A string is a sequence of Unicode scalar values. The ECMAScript library
 * operations the source relies on (indexOf, split, join, trim, the `\s` and
 * `\d` classes, parseInt, String(n), toLowerCase/toUpperCase) are given
 * explicit definitions here so that the other modules can state their
 * behaviour exactly.
 */
module Text {

  datatype Option<+T> = None | Some(value: T)

  /** The outcome of an operation that the source lets throw. */
  datatype Result<+T, +E> = Success(value: T) | Failure(error: E)

  /** `\d` in an ECMAScript regular expression: ASCII digits only. */
  predicate IsDigit(c: char) {
    '0' <= c <= '9'
  }

  /** `\s` in an ECMAScript regular expression; also what String.prototype.trim strips. */
  predicate IsSpace(c: char) {
    c == ' ' || c == '\t' || c == '\n' || c == '\U{000B}' || c == '\U{000C}' || c == '\r'
    || c == '\U{00A0}' || c == '\U{1680}' || ('\U{2000}' <= c <= '\U{200A}')
    || c == '\U{2028}' || c == '\U{2029}' || c == '\U{202F}' || c == '\U{205F}'
    || c == '\U{3000}' || c == '\U{FEFF}'
  }

  predicate AllDigits(s: string) {
    forall i :: 0 <= i < |s| ==> IsDigit(s[i])
  }

  predicate StartsWith(s: string, prefix: string) {
    |prefix| <= |s| && s[..|prefix|] == prefix
  }
  /** A string that starts with `a + b` starts with `a`, and after `a` with `b`. */
  lemma StartsWithConcat(s: string, a: string, b: string)
    requires StartsWith(s, a + b)
    ensures StartsWith(s, a) && StartsWith(s[|a|..], b)
  {
    assert s[..|a|] == (a + b)[..|a|];
    assert s[|a|..][..|b|] == (a + b)[|a|..];
  }

  /** The converse of `StartsWithConcat`. */
  lemma StartsWithJoin(s: string, a: string, b: string)
    requires StartsWith(s, a) && StartsWith(s[|a|..], b)
    ensures StartsWith(s, a + b)
  {
    assert s[..|a| + |b|] == s[..|a|] + s[|a|..][..|b|];
  }


  predicate EndsWith(s: string, suffix: string) {
    |suffix| <= |s| && s[|s| - |suffix|..] == suffix
  }

  /** `pat` occurs in `s` at index `k`. */
  predicate OccursAt(s: string, pat: string, k: int) {
    0 <= k && k + |pat| <= |s| && s[k..k + |pat|] == pat
  }

  predicate Contains(s: string, pat: string) {
    exists k | 0 <= k <= |s| :: OccursAt(s, pat, k)
  }

  /** String.prototype.indexOf(pat, from): the first occurrence at or after `from`. */
  function IndexOf(s: string, pat: string, from: nat): (r: Option<nat>)
    ensures r.Some? ==> from <= r.value && OccursAt(s, pat, r.value)
    ensures r.Some? ==> forall j :: from <= j < r.value ==> !OccursAt(s, pat, j)
    ensures r.None? ==> forall j :: from <= j ==> !OccursAt(s, pat, j)
    decreases |s| - from
  {
    if from + |pat| > |s| then None
    else if s[from..from + |pat|] == pat then Some(from)
    else IndexOf(s, pat, from + 1)
  }

  lemma ContainsIndexOf(s: string, pat: string)
    ensures Contains(s, pat) <==> IndexOf(s, pat, 0).Some?
  {
    if IndexOf(s, pat, 0).Some? {
      assert OccursAt(s, pat, IndexOf(s, pat, 0).value);
    }
  }

  /** The characters of `s` that satisfy `keep`, in order (String.prototype.replace with a global class). */
  function Filter(s: string, keep: char -> bool): (r: string)
    ensures |r| <= |s|
    ensures forall i :: 0 <= i < |r| ==> keep(r[i])
    ensures forall c :: c in r <==> c in s && keep(c)
  {
    if s == [] then []
    else (if keep(s[0]) then [s[0]] else []) + Filter(s[1..], keep)
  }

  lemma {:induction false} FilterKeepsAll(s: string, keep: char -> bool)
    requires forall c :: c in s ==> keep(c)
    ensures Filter(s, keep) == s
  {
    if s != [] {
      FilterKeepsAll(s[1..], keep);
    }
  }

  /** Filtering works piece by piece. */
  lemma {:induction false} FilterAppend(a: string, b: string, keep: char -> bool)
    ensures Filter(a + b, keep) == Filter(a, keep) + Filter(b, keep)
  {
    if a != [] {
      var head := if keep(a[0]) then [a[0]] else [];
      FilterHead(a, b, keep);
      FilterAppend(a[1..], b, keep);
      RegroupHead(head, Filter(a[1..], keep), Filter(b, keep), Filter(a[1..] + b, keep), Filter(a + b, keep));
    } else {
      assert a + b == b;
    }
  }

  /** `h + (x + y)` regrouped, with its pieces named. */
  lemma RegroupHead(h: string, x: string, y: string, xy: string, hxy: string)
    requires xy == x + y && hxy == h + xy
    ensures hxy == (h + x) + y
  {
  }

  /** One step of `FilterAppend`: the head of `a` leads `a + b`. */
  lemma FilterHead(a: string, b: string, keep: char -> bool)
    requires a != []
    ensures Filter(a + b, keep) == (if keep(a[0]) then [a[0]] else []) + Filter(a[1..] + b, keep)
  {
    assert (a + b)[0] == a[0] && (a + b)[1..] == a[1..] + b;
  }

  /** Concatenation of `parts` with `sep` between consecutive ones (Array.prototype.join). */
  function Join(parts: seq<string>, sep: string): string
  {
    if |parts| == 0 then ""
    else if |parts| == 1 then parts[0]
    else parts[0] + sep + Join(parts[1..], sep)
  }

  lemma {:induction false} JoinAppend(parts: seq<string>, last: string, sep: string)
    requires |parts| > 0
    ensures Join(parts + [last], sep) == Join(parts, sep) + sep + last
  {
    if |parts| == 1 {
      assert parts + [last] == [parts[0], last];
    } else {
      assert (parts + [last])[1..] == parts[1..] + [last];
      JoinAppend(parts[1..], last, sep);
    }
  }

  lemma {:induction false} JoinConcat(a: seq<string>, b: seq<string>, sep: string)
    requires |a| > 0 && |b| > 0
    ensures Join(a + b, sep) == Join(a, sep) + sep + Join(b, sep)
  {
    if |a| == 1 {
      assert (a + b)[1..] == b;
    } else {
      assert (a + b)[1..] == a[1..] + b;
      JoinConcat(a[1..], b, sep);
    }
  }

  /** String.prototype.split(sep) for a one-character separator. */
  function Split(s: string, sep: char): (r: seq<string>)
    ensures |r| >= 1
    ensures forall i :: 0 <= i < |r| ==> sep !in r[i]
    ensures Join(r, [sep]) == s
    decreases |s|
  {
    if sep !in s then [s]
    else
      var i := FirstIndexOfChar(s, sep);
      var rest := Split(s[i + 1..], sep);
      assert s == s[..i] + [sep] + s[i + 1..];
      [s[..i]] + rest
  }

  lemma SliceConcat<T>(s: seq<T>, i: nat, k: nat, j: nat)
    requires i <= k <= j <= |s|
    ensures s[i..k] + s[k..j] == s[i..j]
  {
  }

  lemma SliceOfSlice<T>(s: seq<T>, i: nat, j: nat, k: nat)
    requires i <= j <= |s| && k <= j - i
    ensures s[i..j][k..] == s[i + k..j]
  {
  }

  lemma InitLast<T>(s: seq<T>)
    requires |s| > 0
    ensures s == s[..|s| - 1] + [s[|s| - 1]]
  {
  }

  /** A string holding the separator splits into at least two parts. */
  lemma SplitHasSeparator(s: string, sep: char)
    requires sep in s
    ensures |Split(s, sep)| >= 2
  {
  }

  function FirstIndexOfChar(s: string, c: char): (i: nat)
    requires c in s
    ensures i < |s| && s[i] == c && c !in s[..i]
  {
    if s[0] == c then 0 else 1 + FirstIndexOfChar(s[1..], c)
  }

  /** Splitting the join of separator-free parts gives the parts back. */
  lemma {:induction false} SplitJoin(parts: seq<string>, sep: char)
    requires |parts| >= 1
    requires forall i :: 0 <= i < |parts| ==> sep !in parts[i]
    ensures Split(Join(parts, [sep]), sep) == parts
  {
    if |parts| == 1 {
    } else {
      var s := Join(parts, [sep]);
      assert s == parts[0] + [sep] + Join(parts[1..], [sep]);
      assert sep in s by { assert s[|parts[0]|] == sep; }
      var i := FirstIndexOfChar(s, sep);
      assert i == |parts[0]|;
      assert s[..i] == parts[0];
      assert s[i + 1..] == Join(parts[1..], [sep]);
      SplitJoin(parts[1..], sep);
    }
  }

  // ---------------------------------------------------------------------------
  // Trimming

  function TrimStart(s: string): (r: string)
    ensures |r| <= |s| && r == s[|s| - |r|..]
    ensures r != [] ==> !IsSpace(r[0])
    ensures forall i :: 0 <= i < |s| - |r| ==> IsSpace(s[i])
  {
    if s != [] && IsSpace(s[0]) then TrimStart(s[1..]) else s
  }

  function TrimEnd(s: string): (r: string)
    ensures |r| <= |s| && r == s[..|r|]
    ensures r != [] ==> !IsSpace(r[|r| - 1])
    ensures forall i :: |r| <= i < |s| ==> IsSpace(s[i])
  {
    if s != [] && IsSpace(s[|s| - 1]) then TrimEnd(s[..|s| - 1]) else s
  }

  /** A string that does not start with white space is its own TrimStart. */
  lemma TrimStartNoSpace(s: string)
    requires s == [] || !IsSpace(s[0])
    ensures TrimStart(s) == s
  {
  }

  /** String.prototype.trim. */
  function Trim(s: string): (r: string)
  {
    TrimEnd(TrimStart(s))
  }

  predicate IsBlank(s: string) {
    Trim(s) == ""
  }

  lemma {:induction false} BlankIffAllSpace(s: string)
    ensures IsBlank(s) <==> forall i :: 0 <= i < |s| ==> IsSpace(s[i])
  {
    var t := TrimStart(s);
    if !IsBlank(s) {
      var r := Trim(s);
      assert r == t[..|r|];
      assert r[0] == s[|s| - |t|];
    }
  }

  /** A string with no blank at either end is its own trim. */
  lemma TrimOfTrimmed(s: string)
    requires s != [] ==> !IsSpace(s[0]) && !IsSpace(s[|s| - 1])
    ensures Trim(s) == s
  {
  }

  /** A character that is not blank survives trimming. */
  lemma {:induction false} TrimKeepsInner(s: string, c: char)
    requires c in s && !IsSpace(c)
    ensures c in Trim(s)
  {
    var t := TrimStart(s);
    var k :| 0 <= k < |s| && s[k] == c;
    var d := |s| - |t|;
    assert k >= d;
    var m := k - d;
    assert t[m] == s[d + m];
    var r := TrimEnd(t);
    assert m < |r|;
    assert r[m] == t[m];
  }

  // ---------------------------------------------------------------------------
  // Case mapping (ASCII and the Cyrillic block U+0400..U+045F, Ґ/ґ)

  function LowerChar(c: char): char {
    if 'A' <= c <= 'Z' then (c as int + 32) as char
    else if '\U{0410}' <= c <= '\U{042F}' then (c as int + 32) as char
    else if '\U{0400}' <= c <= '\U{040F}' then (c as int + 80) as char
    else if c == '\U{0490}' then '\U{0491}'
    else c
  }

  function UpperChar(c: char): char {
    if 'a' <= c <= 'z' then (c as int - 32) as char
    else if '\U{0430}' <= c <= '\U{044F}' then (c as int - 32) as char
    else if '\U{0450}' <= c <= '\U{045F}' then (c as int - 80) as char
    else if c == '\U{0491}' then '\U{0490}'
    else c
  }

  function Lower(s: string): (r: string)
    ensures |r| == |s|
    ensures forall i :: 0 <= i < |s| ==> r[i] == LowerChar(s[i])
  {
    if s == [] then [] else [LowerChar(s[0])] + Lower(s[1..])
  }

  function Upper(s: string): (r: string)
    ensures |r| == |s|
    ensures forall i :: 0 <= i < |s| ==> r[i] == UpperChar(s[i])
  {
    if s == [] then [] else [UpperChar(s[0])] + Upper(s[1..])
  }

  lemma LowerCharIdempotent(c: char)
    ensures LowerChar(LowerChar(c)) == LowerChar(c)
  {
  }

  /** Lower-casing works character by character, so it distributes over concatenation. */
  lemma LowerAppend(a: string, b: string)
    ensures Lower(a + b) == Lower(a) + Lower(b)
  {
  }

  /** Lower-casing forgets an upper-casing: a case-insensitive match is unaffected by either. */
  lemma LowerOfUpper(s: string)
    ensures Lower(Upper(s)) == Lower(s)
  {
    assert forall i :: 0 <= i < |s| ==> LowerChar(UpperChar(s[i])) == LowerChar(s[i]);
  }

  lemma UpperCharIdempotent(c: char)
    ensures UpperChar(UpperChar(c)) == UpperChar(c)
  {
  }

  // ---------------------------------------------------------------------------
  // Numbers

  function DigitValue(c: char): nat
    requires IsDigit(c)
  {
    c as int - '0' as int
  }

  /** The value of a string of decimal digits. */
  function DecimalValue(s: string): nat
    requires AllDigits(s)
  {
    if s == [] then 0 else 10 * DecimalValue(s[..|s| - 1]) + DigitValue(s[|s| - 1])
  }

  lemma {:induction false} DecimalValueBound(s: string)
    requires AllDigits(s)
    ensures DecimalValue(s) < Pow10(|s|)
  {
    if s != [] {
      DecimalValueBound(s[..|s| - 1]);
    }
  }

  function Pow10(n: nat): nat {
    if n == 0 then 1 else 10 * Pow10(n - 1)
  }

  function DigitChar(d: nat): char
    requires d < 10
  {
    ('0' as int + d) as char
  }

  /** Decimal digits of a natural number, without leading zeros. */
  function NatToString(n: nat): (r: string)
    ensures |r| >= 1 && AllDigits(r)
    ensures DecimalValue(r) == n
    ensures r[0] != '0' || r == "0"
  {
    if n < 10 then [DigitChar(n)]
    else
      var r := NatToString(n / 10) + [DigitChar(n % 10)];
      assert r[..|r| - 1] == NatToString(n / 10);
      r
  }

  /** String(n) for an integer-valued number. */
  function IntToString(n: int): string {
    if n < 0 then "-" + NatToString(-n) else NatToString(n)
  }

  /** The longest prefix of `s` made of decimal digits. */
  function DigitRun(s: string): (r: string)
    ensures |r| <= |s| && r == s[..|r|] && AllDigits(r)
    ensures |r| < |s| ==> !IsDigit(s[|r|])
  {
    if s != [] && IsDigit(s[0]) then
      var r := [s[0]] + DigitRun(s[1..]);
      assert r == s[..|r|];
      r
    else []
  }

  /**
   * parseInt(s, 10) for values within the exactly representable range:
   * leading white space is skipped, an optional sign is read, then the
   * longest run of digits; no digit at all gives NaN (here None).
   */
  function ParseInt(s: string): Option<int>
  {
    ParseSigned(TrimStart(s))
  }

  /** The sign and digits part of parseInt, after the white space. */
  function ParseSigned(t: string): Option<int>
  {
    if t != [] && t[0] == '-' then
      match ParseDigits(t[1..])
      case None => None
      case Some(n) => Some(-(n as int))
    else if t != [] && t[0] == '+' then ParseDigits(t[1..])
    else ParseDigits(t)
  }

  /** The value of the leading digits, if there is at least one. */
  function ParseDigits(u: string): (r: Option<nat>)
    ensures r.Some? <==> u != [] && IsDigit(u[0])
  {
    var d := DigitRun(u);
    if d == [] then None else Some(DecimalValue(d))
  }

  /** Without a sign, only the digits count. */
  lemma ParseSignedUnsigned(t: string)
    requires t != [] && IsDigit(t[0])
    ensures ParseSigned(t) == ParseDigits(t)
  {
  }

  /** `s.slice(n)` for n >= 0: empty when n is past the end. */
  function SliceFrom(s: string, n: nat): (r: string)
    ensures n <= |s| ==> r == s[n..]
    ensures n >= |s| ==> r == []
  {
    if n >= |s| then [] else s[n..]
  }

  /**
   * String comparison by code points, as a sign: the first differing
   * character decides, and a proper prefix comes first.
   */
  function StrCompare(a: string, b: string): (r: int)
    ensures -1 <= r <= 1
  {
    if a == [] && b == [] then 0
    else if a == [] then -1
    else if b == [] then 1
    else if a[0] < b[0] then -1
    else if a[0] > b[0] then 1
    else StrCompare(a[1..], b[1..])
  }

  lemma {:induction false} StrCompareZero(a: string, b: string)
    ensures StrCompare(a, b) == 0 <==> a == b
  {
    if a != [] && b != [] && a[0] == b[0] {
      StrCompareZero(a[1..], b[1..]);
      assert a == [a[0]] + a[1..] && b == [b[0]] + b[1..];
    }
  }

  lemma {:induction false} StrCompareAntisymmetric(a: string, b: string)
    ensures StrCompare(b, a) == -StrCompare(a, b)
  {
    if a != [] && b != [] && a[0] == b[0] {
      StrCompareAntisymmetric(a[1..], b[1..]);
    }
  }

  lemma {:induction false} StrCompareTransitive(a: string, b: string, c: string)
    requires StrCompare(a, b) <= 0 && StrCompare(b, c) <= 0
    ensures StrCompare(a, c) <= 0
  {
    if a != [] && b != [] && c != [] && a[0] == b[0] && b[0] == c[0] {
      StrCompareTransitive(a[1..], b[1..], c[1..]);
    }
  }
}
