/** Sequence helpers shared by the model: first positions, duplicate-freedom and
    the order-preserving de-duplication that JavaScript's `[...new Set(xs)]` performs. */
module Seqs {

  /** No value occurs twice in xs. */
  predicate NoDups<T(==)>(xs: seq<T>)
  {
    forall i, j :: 0 <= i < j < |xs| ==> xs[i] != xs[j]
  }

  /** The position of the first occurrence of x in xs. */
  function IndexOf<T(==)>(xs: seq<T>, x: T): (k: nat)
    requires x in xs
    ensures k < |xs| && xs[k] == x
    ensures forall j :: 0 <= j < k ==> xs[j] != x
  {
    if xs[0] == x then 0 else 1 + IndexOf(xs[1..], x)
  }

  /** The first occurrence of x is the only position before which x does not occur. */
  lemma IndexOfUnique<T>(xs: seq<T>, x: T, k: nat)
    requires k < |xs| && xs[k] == x
    requires forall j :: 0 <= j < k ==> xs[j] != x
    ensures IndexOf(xs, x) == k
  {
  }

  /** Extending a sequence does not move the first occurrence of a value it already held. */
  lemma IndexOfPrefix<T>(xs: seq<T>, n: nat)
    requires n <= |xs|
    ensures forall x :: x in xs[..n] ==> IndexOf(xs, x) == IndexOf(xs[..n], x) < n
  {
    forall x | x in xs[..n]
      ensures IndexOf(xs, x) == IndexOf(xs[..n], x) < n
    {
      var k := IndexOf(xs[..n], x);
      assert forall j :: 0 <= j < k ==> xs[j] == xs[..n][j];
      IndexOfUnique(xs, x, k);
    }
  }

  /** `[...new Set(xs)]`: the distinct values of xs, each kept at its first occurrence. */
  function Dedup<T(==,!new)>(xs: seq<T>): (r: seq<T>)
    ensures NoDups(r)
    ensures forall x :: x in r <==> x in xs
    ensures forall i, j :: 0 <= i < j < |r| ==> IndexOf(xs, r[i]) < IndexOf(xs, r[j])
    decreases |xs|
  {
    if |xs| == 0 then []
    else
      var init := xs[..|xs| - 1];
      var x := xs[|xs| - 1];
      var d := Dedup(init);
      IndexOfPrefix(xs, |xs| - 1);
      assert xs == init + [x];
      if x in d then d
      else
        assert x !in init;
        IndexOfUnique(xs, x, |xs| - 1);
        d + [x]
  }
}
