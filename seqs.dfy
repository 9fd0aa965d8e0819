/** Concatenating, in order, what a function yields for each element of a sequence. */
module Seqs {

  /** `f(xs[0]) + f(xs[1]) + ... + f(xs[|xs| - 1])`. */
  function Concat<T, U>(f: T -> seq<U>, xs: seq<T>): seq<U> {
    if xs == [] then [] else f(xs[0]) + Concat(f, xs[1..])
  }

  lemma AppendAssoc<U>(a: seq<U>, b: seq<U>, c: seq<U>)
    ensures a + (b + c) == a + b + c
  {
  }

  lemma {:induction false} ConcatAppend<T, U>(f: T -> seq<U>, a: seq<T>, b: seq<T>)
    ensures Concat(f, a + b) == Concat(f, a) + Concat(f, b)
  {
    if a == [] {
      assert a + b == b;
    } else {
      assert (a + b)[1..] == a[1..] + b;
      ConcatAppend(f, a[1..], b);
    }
  }

  /** Extending a prefix by one element appends what `f` yields for it. */
  lemma ConcatSnoc<T, U>(f: T -> seq<U>, xs: seq<T>, i: nat)
    requires i < |xs|
    ensures Concat(f, xs[..i + 1]) == Concat(f, xs[..i]) + f(xs[i])
  {
    assert xs[..i + 1] == xs[..i] + [xs[i]];
    ConcatAppend(f, xs[..i], [xs[i]]);
    assert [xs[i]][1..] == [];
  }

  /** Element `i` contributes its own part between those of the elements before and after it. */
  lemma ConcatSplit<T, U>(f: T -> seq<U>, xs: seq<T>, i: nat)
    requires i < |xs|
    ensures Concat(f, xs) == Concat(f, xs[..i]) + f(xs[i]) + Concat(f, xs[i + 1..])
  {
    assert xs[..i] + xs[i..] == xs;
    ConcatAppend(f, xs[..i], xs[i..]);
    assert xs[i..][0] == xs[i] && xs[i..][1..] == xs[i + 1..];
    AppendAssoc(Concat(f, xs[..i]), f(xs[i]), Concat(f, xs[i + 1..]));
  }

  /** An item occurs in the concatenation exactly when it occurs in the part of some element. */
  lemma {:induction false} ConcatMember<T, U>(f: T -> seq<U>, xs: seq<T>, u: U)
    ensures u in Concat(f, xs) <==> exists i :: 0 <= i < |xs| && u in f(xs[i])
  {
    if xs != [] {
      ConcatMember(f, xs[1..], u);
      if exists i :: 0 <= i < |xs| && u in f(xs[i]) {
        var i :| 0 <= i < |xs| && u in f(xs[i]);
        if i > 0 {
          assert xs[1..][i - 1] == xs[i];
        }
      }
      if exists i :: 0 <= i < |xs[1..]| && u in f(xs[1..][i]) {
        var i :| 0 <= i < |xs[1..]| && u in f(xs[1..][i]);
        assert xs[1..][i] == xs[i + 1];
      }
    }
  }

  /** If no element yields more than `k` items, the concatenation has at most `k` items per element. */
  lemma {:induction false} ConcatBound<T, U>(f: T -> seq<U>, xs: seq<T>, k: nat)
    requires forall x :: |f(x)| <= k
    ensures |Concat(f, xs)| <= k * |xs|
  {
    if xs != [] {
      ConcatBound(f, xs[1..], k);
      assert k * |xs| == k + k * |xs[1..]|;
    }
  }
}
