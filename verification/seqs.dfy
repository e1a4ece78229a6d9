/**
 * Sequences kept in order: `Array.prototype.filter` and the subsequence
 * relation it establishes.
 */
module Seqs {

  /** `a` is `b` with some elements left out, the rest in their order. */
  ghost predicate Subsequence<T>(a: seq<T>, b: seq<T>)
    decreases |b|
  {
    if a == [] then true
    else if b == [] then false
    else if a[0] == b[0] then Subsequence(a[1..], b[1..])
    else Subsequence(a, b[1..])
  }

  /** `Array.prototype.filter`: the elements that satisfy `keep`, in order. */
  function Select<T(!new)>(s: seq<T>, keep: T -> bool): (r: seq<T>)
    ensures |r| <= |s|
    ensures forall x :: x in r <==> x in s && keep(x)
  {
    if s == [] then []
    else (if keep(s[0]) then [s[0]] else []) + Select(s[1..], keep)
  }

  /** A filter keeps the order of what it keeps. */
  lemma {:induction false} SelectSubsequence<T(!new)>(s: seq<T>, keep: T -> bool)
    ensures Subsequence(Select(s, keep), s)
  {
    if s != [] {
      SelectSubsequence(s[1..], keep);
      if keep(s[0]) {
        assert ([s[0]] + Select(s[1..], keep))[1..] == Select(s[1..], keep);
      } else {
        assert Select(s, keep) == Select(s[1..], keep);
        SubsequenceDrop(Select(s, keep), s);
      }
    }
  }

  /** When `a` is a subsequence of `b`'s tail, it is a subsequence of `b`. */
  lemma {:induction false} SubsequenceDrop<T>(a: seq<T>, b: seq<T>)
    requires b != [] && Subsequence(a, b[1..])
    ensures Subsequence(a, b)
    decreases |b|, |a|
  {
    if a != [] && a[0] == b[0] {
      // a[0] matches b[0]; a[1..] is a subsequence of b[1..] since a is.
      SubsequenceTail(a, b[1..]);
    }
  }

  /** Dropping the first element of a subsequence keeps it one. */
  lemma {:induction false} SubsequenceTail<T>(a: seq<T>, b: seq<T>)
    requires a != [] && Subsequence(a, b)
    ensures Subsequence(a[1..], b)
    decreases |b|, |a|
  {
    assert b != [];
    if a[0] == b[0] {
      if a[1..] != [] {
        SubsequenceDrop(a[1..], b);
      }
    } else {
      SubsequenceTail(a, b[1..]);
      if a[1..] != [] {
        SubsequenceDrop(a[1..], b);
      }
    }
  }

  /** A filter that keeps everything returns its input. */
  lemma {:induction false} SelectAll<T(!new)>(s: seq<T>, keep: T -> bool)
    requires forall x :: x in s ==> keep(x)
    ensures Select(s, keep) == s
  {
    if s != [] {
      SelectAll(s[1..], keep);
    }
  }

  /** A filter that keeps nothing returns nothing. */
  lemma SelectNone<T(!new)>(s: seq<T>, keep: T -> bool)
    requires forall x :: x in s ==> !keep(x)
    ensures Select(s, keep) == []
  {
    if Select(s, keep) != [] {
      assert Select(s, keep)[0] in Select(s, keep);
    }
  }

  /** A weaker filter keeps a subsequence of what a stronger one keeps. */
  lemma {:induction false} SelectMonotone<T(!new)>(s: seq<T>, strong: T -> bool, weak: T -> bool)
    requires forall x :: x in s && strong(x) ==> weak(x)
    ensures Subsequence(Select(s, strong), Select(s, weak))
  {
    if s != [] {
      SelectMonotone(s[1..], strong, weak);
      var a := Select(s[1..], strong);
      var b := Select(s[1..], weak);
      if strong(s[0]) {
        assert ([s[0]] + a)[1..] == a && ([s[0]] + b)[1..] == b;
      } else if weak(s[0]) {
        assert ([s[0]] + b)[1..] == b;
        assert Select(s, strong) == a && Select(s, weak) == [s[0]] + b;
        SubsequenceDrop(a, [s[0]] + b);
      } else {
        assert Select(s, strong) == a && Select(s, weak) == b;
      }
    }
  }

  /** Filtering a concatenation filters each part. */
  lemma {:induction false} SelectAppend<T(!new)>(a: seq<T>, b: seq<T>, keep: T -> bool)
    ensures Select(a + b, keep) == Select(a, keep) + Select(b, keep)
  {
    if a != [] {
      assert (a + b)[1..] == a[1..] + b;
      SelectAppend(a[1..], b, keep);
    } else {
      assert a + b == b;
    }
  }

  /** Every sequence is a subsequence of itself. */
  lemma {:induction false} SubsequenceRefl<T>(s: seq<T>)
    ensures Subsequence(s, s)
  {
    if s != [] {
      SubsequenceRefl(s[1..]);
    }
  }

  /** A non-empty sequence behind `x` is its head and its tail behind `x`. */
  lemma ConsHeadTail<T>(x: T, s: seq<T>)
    requires s != []
    ensures [x] + s == [x] + ([s[0]] + s[1..])
  {
    assert s == [s[0]] + s[1..];
  }
}
