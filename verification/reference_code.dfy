/**
 * How the form cleans up what is typed into the reference fields
 * (src/upload/hooks/useArchivalReferenceCode.ts): a fond such as `р203`
 * becomes `Р-203`, and an opys or sprava such as `4-А` becomes `4а`.
 */
module ReferenceCode {
  import opened Text
  import opened WikiArchive

  /** The characters `normalizeFond` drops: `\s` and `/`. */
  predicate FondDropped(c: char) {
    IsSpace(c) || c == '/'
  }

  /** The characters `normalizeOpysSprava` drops: `\s`, `-` and `/`. */
  predicate NumberDropped(c: char) {
    IsSpace(c) || c == '-' || c == '/'
  }

  /** A fond with the dropped characters removed and upper-cased. */
  function FondCleaned(v: string): string {
    Upper(Filter(v, c => !FondDropped(c)))
  }

  /**
   * `normalizeFond`: the cleaned fond, with a dash put after its first
   * character when that is a capital of `[A-ZА-ЯІЇЄҐ]` followed by a digit.
   */
  function NormalizeFond(v: string): (r: string)
    ensures forall i :: 0 <= i < |r| ==> !FondDropped(r[i]) && UpperChar(r[i]) == r[i]
    ensures |r| >= 2 && PrefixLetter(r[0]) ==> !IsDigit(r[1])
    ensures |FondCleaned(v)| <= |r| <= |FondCleaned(v)| + 1
    ensures var u := FondCleaned(v);
      !(|u| >= 2 && PrefixLetter(u[0]) && IsDigit(u[1])) ==> r == u
    ensures var u := FondCleaned(v);
      |u| >= 2 && PrefixLetter(u[0]) && IsDigit(u[1]) ==> r == u[..1] + "-" + u[1..]
  {
    var u := FondCleaned(v);
    UpperFixed(Filter(v, c => !FondDropped(c)));
    if |u| >= 2 && PrefixLetter(u[0]) && IsDigit(u[1]) then [u[0]] + "-" + u[1..] else u
  }

  /** Upper-cased text holds no dropped character and is left alone by upper-casing. */
  lemma UpperFixed(s: string)
    requires forall i :: 0 <= i < |s| ==> !FondDropped(s[i])
    ensures forall i :: 0 <= i < |Upper(s)| ==> !FondDropped(Upper(s)[i]) && UpperChar(Upper(s)[i]) == Upper(s)[i]
  {
  }

  /** The only character `normalizeFond` adds to the cleaned fond is a dash. */
  lemma NormalizeFondOnlyAddsDash(v: string)
    ensures Filter(NormalizeFond(v), c => c != '-') == Filter(FondCleaned(v), c => c != '-')
  {
    var u := FondCleaned(v);
    if |u| >= 2 && PrefixLetter(u[0]) && IsDigit(u[1]) {
      assert u == [u[0]] + u[1..];
      FilterAppend([u[0]], u[1..], c => c != '-');
      FilterAppend([u[0]] + "-", u[1..], c => c != '-');
      FilterAppend([u[0]], "-", c => c != '-');
    }
  }

  /** A fond already in normal form is left as it is. */
  lemma NormalizeFondIdempotent(v: string)
    ensures NormalizeFond(NormalizeFond(v)) == NormalizeFond(v)
  {
    var r := NormalizeFond(v);
    FilterKeepsAll(r, c => !FondDropped(c));
    UpperOfFixed(r);
  }

  /** Upper-casing text every character of which is already upper-case changes nothing. */
  lemma UpperOfFixed(s: string)
    requires forall i :: 0 <= i < |s| ==> UpperChar(s[i]) == s[i]
    ensures Upper(s) == s
  {
  }

  /**
   * A fond typed as a capital (in either case) and a number is filed on
   * that capital's archive page: the dash the form inserts is the one
   * `extractFondPrefix` looks for.
   */
  lemma NormalizedFondPrefix(v: string)
    requires |FondCleaned(v)| >= 2 && PrefixLetter(FondCleaned(v)[0]) && IsDigit(FondCleaned(v)[1])
    ensures ExtractFondPrefix(NormalizeFond(v)) == [FondCleaned(v)[0]]
    ensures StripPrefix(NormalizeFond(v)) == FondCleaned(v)[1..]
  {
    var u := FondCleaned(v);
    assert NormalizeFond(v) == [u[0]] + "-" + u[1..];
    PrefixedFond([u[0]], u[1..]);
  }

  /**
   * A fond typed as a letter of `[A-ZА-ЯІЇЄҐ]` in either case followed by
   * digits becomes that capital, a dash and the digits (`р203` becomes
   * `Р-203`).
   */
  lemma NormalizeLetterDigits(l: char, ds: string)
    requires PrefixLetter(UpperChar(l)) && !FondDropped(l)
    requires ds != [] && AllDigits(ds)
    ensures NormalizeFond([l] + ds) == [UpperChar(l)] + "-" + ds
  {
    var v := [l] + ds;
    assert forall c :: c in ds ==> IsDigit(c) by {
      forall c | c in ds ensures IsDigit(c) {
        var i :| 0 <= i < |ds| && ds[i] == c;
      }
    }
    FilterKeepsAll(v, c => !FondDropped(c));
    UpperOfDigits(ds);
    var u := Upper(v);
    assert u[0] == UpperChar(l);
    assert u[1..] == ds by {
      assert Upper(v)[1..] == Upper(ds);
    }
    assert FondCleaned(v) == u;
  }

  /** Digits are their own capitals. */
  lemma UpperOfDigits(ds: string)
    requires AllDigits(ds)
    ensures Upper(ds) == ds
  {
  }


  /** `normalizeOpysSprava`: the value without `\s`, `-` and `/`, lower-cased. */
  function NormalizeOpysSprava(v: string): (r: string)
    ensures |r| <= |v|
    ensures forall i :: 0 <= i < |r| ==> !NumberDropped(r[i]) && LowerChar(r[i]) == r[i]
    ensures forall i :: 0 <= i < |r| ==> exists j :: 0 <= j < |v| && r[i] == LowerChar(v[j])
    ensures r == Lower(Filter(v, c => !NumberDropped(c)))
  {
    var f := Filter(v, c => !NumberDropped(c));
    var r := Lower(f);
    forall i | 0 <= i < |r|
      ensures !NumberDropped(r[i]) && LowerChar(r[i]) == r[i]
      ensures exists j :: 0 <= j < |v| && r[i] == LowerChar(v[j])
    {
      assert f[i] in f;
      LowerCharIdempotent(f[i]);
      var j :| 0 <= j < |v| && v[j] == f[i];
    }
    r
  }

  /** An opys or sprava number already in normal form is left as it is. */
  lemma NormalizeOpysSpravaIdempotent(v: string)
    ensures NormalizeOpysSprava(NormalizeOpysSprava(v)) == NormalizeOpysSprava(v)
  {
    var r := NormalizeOpysSprava(v);
    FilterKeepsAll(r, c => !NumberDropped(c));
  }

  /** A dash typed between two parts is dropped and both parts are lower-cased (`4-А` becomes `4а`). */
  lemma NormalizeAcrossDash(a: string, b: string)
    requires forall i :: 0 <= i < |a| ==> !NumberDropped(a[i])
    requires forall i :: 0 <= i < |b| ==> !NumberDropped(b[i])
    ensures NormalizeOpysSprava(a + "-" + b) == Lower(a) + Lower(b)
  {
    var keep := c => !NumberDropped(c);
    FilterAppend(a + "-", b, keep);
    FilterAppend(a, "-", keep);
    FilterKeepsAll(a, keep);
    FilterKeepsAll(b, keep);
    assert Filter("-", keep) == [];
    LowerAppend(a, b);
  }
}
