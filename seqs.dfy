/** Sequence helpers shared by the parsers, the registry and the matrix. */
module Seqs {

  /** No element occurs twice. */
  predicate Distinct<T(==)>(s: seq<T>) {
    forall i, j :: 0 <= i < j < |s| ==> s[i] != s[j]
  }

  /** The indices at which `flags` is true, in increasing order. */
  function Positions(flags: seq<bool>): (idx: seq<nat>)
    ensures forall a :: 0 <= a < |idx| ==> idx[a] < |flags| && flags[idx[a]]
    ensures forall a, b :: 0 <= a < b < |idx| ==> idx[a] < idx[b]
    ensures forall k :: 0 <= k < |flags| && flags[k] ==> k in idx
  {
    if flags == [] then []
    else
      var n := |flags| - 1;
      var prev := Positions(flags[..n]);
      assert forall k :: 0 <= k < n ==> flags[..n][k] == flags[k];
      if flags[n] then prev + [n] else prev
  }

  /** The positions of a longer prefix: those of the shorter one, then `i`
      when its flag is set. */
  lemma PositionsSnoc(flags: seq<bool>, i: nat)
    requires i < |flags|
    ensures Positions(flags[..i + 1]) == Positions(flags[..i]) + (if flags[i] then [i] else [])
  {
    assert flags[..i + 1][..i] == flags[..i];
  }

  /** Picking by the positions of a longer prefix appends the element at `i`
      when its flag is set. */
  lemma PickPositionsSnoc<T>(xs: seq<T>, flags: seq<bool>, i: nat)
    requires i < |flags| == |xs|
    ensures InRange(xs, Positions(flags[..i])) && InRange(xs, Positions(flags[..i + 1]))
    ensures Pick(xs, Positions(flags[..i + 1])) == Pick(xs, Positions(flags[..i])) + (if flags[i] then [xs[i]] else [])
  {
    PositionsSnoc(flags, i);
  }

  /** Sequences with the same elements are empty together. */
  lemma EmptyTogether<T>(a: seq<T>, b: seq<T>)
    requires forall x :: x in a <==> x in b
    ensures a == [] <==> b == []
  {
    if a != [] { assert a[0] in b; }
    if b != [] { assert b[0] in a; }
  }

  /** Every index is in range. */
  predicate InRange<T>(xs: seq<T>, idx: seq<nat>) {
    forall a :: 0 <= a < |idx| ==> idx[a] < |xs|
  }

  /** The elements at the given indices, in the order of the indices. */
  function Pick<T>(xs: seq<T>, idx: seq<nat>): (r: seq<T>)
    requires InRange(xs, idx)
    ensures |r| == |idx| && forall a :: 0 <= a < |idx| ==> r[a] == xs[idx[a]]
  {
    seq(|idx|, a requires 0 <= a < |idx| => xs[idx[a]])
  }

  /** Position of the first occurrence of `x` (Python's `list.index`). */
  function IndexOf<T(==)>(xs: seq<T>, x: T): (i: nat)
    requires x in xs
    ensures i < |xs| && xs[i] == x
    ensures forall j :: 0 <= j < i ==> xs[j] != x
  {
    if xs[0] == x then 0 else 1 + IndexOf(xs[1..], x)
  }
}
