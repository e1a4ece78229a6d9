/**
 * The ordering of row ids (`naturalCompare` in src/lib/wikitable.ts): two
 * ids with different leading integers are ordered by those integers, two
 * with the same leading integer by what follows it, anything else by plain
 * string comparison.
 */
module NaturalOrder {
  import opened Text

  function NaturalCompare(a: string, b: string): int
  {
    var na := ParseInt(a);
    var nb := ParseInt(b);
    if na.Some? && nb.Some? && na.value != nb.value then na.value - nb.value
    else if na.Some? && nb.Some? then
      StrCompare(SliceFrom(a, |IntToString(na.value)|), SliceFrom(b, |IntToString(nb.value)|))
    else StrCompare(a, b)
  }

  /** Every id compares equal to itself. */
  lemma NaturalCompareReflexive(a: string)
    ensures NaturalCompare(a, a) == 0
  {
    StrCompareZero(a, a);
    if ParseInt(a).Some? {
      var s := SliceFrom(a, |IntToString(ParseInt(a).value)|);
      StrCompareZero(s, s);
    }
  }

  /** Swapping the arguments flips the sign. */
  lemma NaturalCompareAntisymmetric(a: string, b: string)
    ensures NaturalCompare(b, a) == -NaturalCompare(a, b)
  {
    StrCompareAntisymmetric(a, b);
    if ParseInt(a).Some? && ParseInt(b).Some? {
      StrCompareAntisymmetric(SliceFrom(a, |IntToString(ParseInt(a).value)|),
                              SliceFrom(b, |IntToString(ParseInt(b).value)|));
    }
  }

  /** Ids with different leading integers are ordered numerically ("2" before "10"). */
  lemma NumericOrder(a: string, b: string, na: nat, nb: nat)
    requires ParseInt(a) == Some(na) && ParseInt(b) == Some(nb) && na < nb
    ensures NaturalCompare(a, b) < 0
  {
  }

  /**
   * The digits of a natural number followed by a suffix that does not start
   * with a digit: parseInt reads the number back.
   */
  lemma ParseNumberWithSuffix(n: nat, suffix: string)
    requires suffix == [] || !IsDigit(suffix[0])
    ensures ParseInt(NatToString(n) + suffix) == Some(n)
  {
    var d := NatToString(n);
    DigitRunPrefix(d, suffix);
    ParseIntDigits(d + suffix);
  }

  /** A string starting with a digit parses as the value of its leading digits. */
  lemma ParseIntDigits(s: string)
    requires s != [] && IsDigit(s[0])
    ensures ParseInt(s) == Some(DecimalValue(DigitRun(s)) as int)
  {
    TrimStartNoSpace(s);
    ParseSignedUnsigned(s);
  }

  lemma {:induction false} DigitRunPrefix(d: string, suffix: string)
    requires AllDigits(d) && (suffix == [] || !IsDigit(suffix[0]))
    ensures DigitRun(d + suffix) == d
  {
    if d != [] {
      assert (d + suffix)[1..] == d[1..] + suffix;
      DigitRunPrefix(d[1..], suffix);
    } else {
      assert d + suffix == suffix;
    }
  }

  /**
   * Ids made of the same number and a suffix are ordered by their suffixes
   * ("4" before "4а" before "4б").
   */
  lemma SuffixOrder(n: nat, s1: string, s2: string)
    requires s1 == [] || !IsDigit(s1[0])
    requires s2 == [] || !IsDigit(s2[0])
    ensures NaturalCompare(NatToString(n) + s1, NatToString(n) + s2) == StrCompare(s1, s2)
  {
    var d := NatToString(n);
    ParseNumberWithSuffix(n, s1);
    ParseNumberWithSuffix(n, s2);
    assert IntToString(n) == d;
    SameNumberCompare(d + s1, d + s2, n, |d|);
    assert (d + s1)[|d|..] == s1;
    assert (d + s2)[|d|..] == s2;
  }

  /** Two ids with the same leading integer compare by what follows its digits. */
  lemma SameNumberCompare(a: string, b: string, n: int, k: nat)
    requires ParseInt(a) == Some(n) && ParseInt(b) == Some(n) && |IntToString(n)| == k
    requires k <= |a| && k <= |b|
    ensures NaturalCompare(a, b) == StrCompare(a[k..], b[k..])
  {
  }

  /**
   * The ordering is not transitive in general: an id with leading white
   * space parses as a number but compares as text against a non-numeric id,
   * which gives the cycle " 7" < " x" < "6" < " 7".
   */
  lemma NotTransitive()
    ensures NaturalCompare(" 7", " x") < 0
    ensures NaturalCompare(" x", "6") < 0
    ensures NaturalCompare("6", " 7") < 0
  {
    SevenBeforeX();
    XBeforeSix();
    SixBeforeSeven();
  }

  lemma SevenBeforeX()
    ensures NaturalCompare(" 7", " x") < 0
  {
    ParseSpaceX();
    CompareAsText(" 7", " x");
    SpacedCompare('7', 'x');
  }

  /** Against an id that does not parse as a number, the comparison is plain text. */
  lemma CompareAsText(a: string, b: string)
    requires ParseInt(b).None?
    ensures NaturalCompare(a, b) == StrCompare(a, b)
  {
  }

  lemma SpacedCompare(x: char, y: char)
    requires x < y
    ensures StrCompare([' ', x], [' ', y]) == -1
  {
    assert [' ', x][1..] == [x] && [' ', y][1..] == [y];
  }

  lemma XBeforeSix()
    ensures NaturalCompare(" x", "6") < 0
  {
    ParseSpaceX();
  }

  lemma SixBeforeSeven()
    ensures NaturalCompare("6", " 7") < 0
  {
    ParseSpaceSeven();
    ParseSix();
  }

  lemma ParseSpaceSeven()
    ensures ParseInt(" 7") == Some(7)
  {
    assert " 7"[1..] == "7";
    assert TrimStart(" 7") == TrimStart("7");
    ParseOneDigit('7');
  }

  lemma ParseSpaceX()
    ensures ParseInt(" x") == None
  {
    assert " x"[1..] == "x";
    TrimStartNoSpace("x");
  }

  lemma ParseSix()
    ensures ParseInt("6") == Some(6)
  {
    ParseOneDigit('6');
  }

  /** A single digit parses as its value. */
  lemma ParseOneDigit(c: char)
    requires IsDigit(c)
    ensures ParseInt([c]) == Some(DigitValue(c))
  {
    TrimStartNoSpace([c]);
    ParseSignedUnsigned([c]);
    assert [c][1..] == [];
    assert DigitRun([c]) == [c];
    assert [c][..0] == [];
    assert DecimalValue([c]) == DigitValue(c);
  }

  // ---------------------------------------------------------------------------
  // A domain on which the ordering is a total preorder

  /**
   * An id that starts with a digit, or with a character above '9' that is
   * not white space: every id of the form "12", "4а", "Р-34" or "П-1".
   */
  predicate PlainId(s: string) {
    s != [] && (IsDigit(s[0]) || (s[0] > '9' && !IsSpace(s[0])))
  }

  lemma PlainNumeric(s: string)
    requires PlainId(s) && IsDigit(s[0])
    ensures ParseInt(s).Some?
  {
    ParseIntDigits(s);
  }

  lemma PlainText(s: string)
    requires PlainId(s) && !IsDigit(s[0])
    ensures ParseInt(s).None?
  {
    TrimStartNoSpace(s);
  }

  lemma StrCompareFirst(a: string, b: string)
    requires a != [] && b != [] && a[0] < b[0]
    ensures StrCompare(a, b) < 0
  {
  }

  /** A numeric plain id always comes before a non-numeric one. */
  lemma NumericFirst(a: string, b: string)
    requires PlainId(a) && PlainId(b) && IsDigit(a[0]) && !IsDigit(b[0])
    ensures NaturalCompare(a, b) < 0
  {
    PlainNumeric(a);
    PlainText(b);
    StrCompareFirst(a, b);
  }

  /** On plain ids, "not after" is transitive. */
  lemma {:induction false} PlainTransitive(a: string, b: string, c: string)
    requires PlainId(a) && PlainId(b) && PlainId(c)
    requires NaturalCompare(a, b) <= 0 && NaturalCompare(b, c) <= 0
    ensures NaturalCompare(a, c) <= 0
  {
    if IsDigit(a[0]) && !IsDigit(c[0]) {
      NumericFirst(a, c);
    } else if IsDigit(a[0]) {
      if !IsDigit(b[0]) {
        NumericFirst(c, b);
        NaturalCompareAntisymmetric(b, c);
      } else {
        PlainNumeric(a);
        PlainNumeric(b);
        PlainNumeric(c);
        NumericTransitive(a, b, c);
      }
    } else {
      PlainText(a);
      PlainText(c);
      if IsDigit(b[0]) {
        NumericFirst(b, a);
        NaturalCompareAntisymmetric(a, b);
      } else {
        PlainText(b);
        StrCompareTransitive(a, b, c);
      }
    }
  }

  lemma NumericTransitive(a: string, b: string, c: string)
    requires ParseInt(a).Some? && ParseInt(b).Some? && ParseInt(c).Some?
    requires NaturalCompare(a, b) <= 0 && NaturalCompare(b, c) <= 0
    ensures NaturalCompare(a, c) <= 0
  {
    var na, nb, nc := ParseInt(a).value, ParseInt(b).value, ParseInt(c).value;
    if na == nb && nb == nc {
      StrCompareTransitive(SliceFrom(a, |IntToString(na)|), SliceFrom(b, |IntToString(nb)|),
                           SliceFrom(c, |IntToString(nc)|));
    }
  }

  /** On plain ids the ordering is a total preorder: antisymmetric in sign and transitive. */
  lemma PlainPreorder(ids: set<string>)
    requires forall s :: s in ids ==> PlainId(s)
    ensures TotalPreorderOn(NaturalCompare, ids)
  {
    forall a, b | a in ids && b in ids
      ensures NaturalCompare(a, b) > 0 ==> NaturalCompare(b, a) < 0
    {
      NaturalCompareAntisymmetric(a, b);
    }
    forall a, b, c | a in ids && b in ids && c in ids && NaturalCompare(a, b) <= 0 && NaturalCompare(b, c) <= 0
      ensures NaturalCompare(a, c) <= 0
    {
      PlainTransitive(a, b, c);
    }
  }

  /**
   * What sorted insertion needs of a comparison on the ids it meets: a
   * positive result reverses to a negative one, and "not after" chains.
   */
  predicate TotalPreorderOn(cmp: (string, string) -> int, ids: set<string>) {
    && (forall a, b :: a in ids && b in ids ==> (cmp(a, b) > 0 ==> cmp(b, a) < 0))
    && (forall a, b, c :: a in ids && b in ids && c in ids && cmp(a, b) <= 0 && cmp(b, c) <= 0 ==> cmp(a, c) <= 0)
  }
}
