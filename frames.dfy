/** The table the adjacency matrix is kept in, with the operations the
    trimming step uses on it: column and row sums, dropping a row and a
    column, and the frame restricted to some of its positions. */
module Frames {
  import opened Seqs

  /** A table stored column by column, as pandas builds it from a dictionary
      of columns: `data[c][r]` is the entry in row `r` of column `c`. */
  datatype Frame = Frame(index: seq<string>, columns: seq<string>, data: seq<seq<int>>)

  /** One column per column label, one entry per row label in each. */
  predicate WellFormed(f: Frame) {
    |f.data| == |f.columns| && forall c :: 0 <= c < |f.data| ==> |f.data[c]| == |f.index|
  }

  /** The rows carry the column labels, in the same order: the frame after
      `adj_df.index = adj_df.columns`. */
  predicate Square(f: Frame) {
    WellFormed(f) && f.index == f.columns
  }

  /** No entry is negative (the adjacency matrix holds only 0 and 1). */
  predicate NonNegative(f: Frame)
    requires WellFormed(f)
  {
    forall c, r :: 0 <= c < |f.data| && 0 <= r < |f.index| ==> f.data[c][r] >= 0
  }

  function Sum(xs: seq<int>): int {
    if xs == [] then 0 else Sum(xs[..|xs| - 1]) + xs[|xs| - 1]
  }

  /** The entries of row `r`, in column order. */
  function Row(f: Frame, r: nat): (row: seq<int>)
    requires WellFormed(f) && r < |f.index|
    ensures |row| == |f.columns| && forall c :: 0 <= c < |row| ==> row[c] == f.data[c][r]
  {
    seq(|f.columns|, c requires 0 <= c < |f.columns| => f.data[c][r])
  }

  /** `df.loc[:, label].sum()` for the label at column position `c`. */
  function ColumnSum(f: Frame, c: nat): (s: int)
    requires WellFormed(f) && c < |f.columns|
    ensures NonNegative(f) ==> (s == 0 <==> forall r :: 0 <= r < |f.index| ==> f.data[c][r] == 0)
  {
    if NonNegative(f) then SumZero(f.data[c]); Sum(f.data[c]) else Sum(f.data[c])
  }

  /** `df.loc[label, :].sum()` for the label at row position `r`. */
  function RowSum(f: Frame, r: nat): (s: int)
    requires WellFormed(f) && r < |f.index|
    ensures NonNegative(f) ==> (s == 0 <==> forall c :: 0 <= c < |f.columns| ==> f.data[c][r] == 0)
  {
    if NonNegative(f) then SumZero(Row(f, r)); Sum(Row(f, r)) else Sum(Row(f, r))
  }

  /** The sequence without its element at position `p`. */
  function Remove<T>(xs: seq<T>, p: nat): (r: seq<T>)
    requires p < |xs|
    ensures |r| == |xs| - 1
    ensures forall a :: 0 <= a < |r| ==> r[a] == if a < p then xs[a] else xs[a + 1]
  {
    xs[..p] + xs[p + 1..]
  }

  /** `df.drop([label], inplace=True)` for the label at row position `p`. */
  function DropRow(f: Frame, p: nat): (g: Frame)
    requires WellFormed(f) && p < |f.index|
    ensures WellFormed(g) && g.index == Remove(f.index, p) && g.columns == f.columns
  {
    Frame(Remove(f.index, p), f.columns, seq(|f.data|, c requires 0 <= c < |f.data| => Remove(f.data[c], p)))
  }

  /** `df.drop([label], axis=1, inplace=True)` for the label at column
      position `p`. */
  function DropColumn(f: Frame, p: nat): (g: Frame)
    requires WellFormed(f) && p < |f.columns|
    ensures WellFormed(g) && g.index == f.index && g.columns == Remove(f.columns, p)
  {
    Frame(f.index, Remove(f.columns, p), Remove(f.data, p))
  }

  /** Strictly increasing positions, each below `n`. */
  predicate Increasing(idx: seq<nat>, n: nat) {
    && (forall a :: 0 <= a < |idx| ==> idx[a] < n)
    && (forall a, b :: 0 <= a < b < |idx| ==> idx[a] < idx[b])
  }

  /** The square frame restricted to the rows and columns at positions
      `idx`, in that order. */
  function SubFrame(f: Frame, idx: seq<nat>): (g: Frame)
    requires Square(f) && Increasing(idx, |f.columns|)
    ensures Square(g) && |g.columns| == |idx|
    ensures g.columns == Pick(f.columns, idx)
    ensures forall a, b :: 0 <= a < |idx| && 0 <= b < |idx| ==> g.data[a][b] == f.data[idx[a]][idx[b]]
  {
    var labels := Pick(f.columns, idx);
    Frame(labels, labels, seq(|idx|, a requires 0 <= a < |idx| => Pick(f.data[idx[a]], idx)))
  }

  /** A restriction of a frame without negative entries has none. */
  lemma SubFrameNonNegative(f: Frame, idx: seq<nat>)
    requires Square(f) && NonNegative(f) && Increasing(idx, |f.columns|)
    ensures NonNegative(SubFrame(f, idx))
  {
    var g := SubFrame(f, idx);
    forall a, b | 0 <= a < |g.data| && 0 <= b < |g.index| ensures g.data[a][b] >= 0 {
      assert g.data[a][b] == f.data[idx[a]][idx[b]];
    }
  }

  /** All positions `0 .. n - 1`, in order. */
  function Identity(n: nat): (idx: seq<nat>)
    ensures |idx| == n && forall a :: 0 <= a < n ==> idx[a] == a
  {
    seq(n, a requires 0 <= a < n => a)
  }

  /** Restricting to every position changes nothing. */
  lemma SubFrameIdentity(f: Frame)
    requires Square(f)
    ensures SubFrame(f, Identity(|f.columns|)) == f
  {
    var g := SubFrame(f, Identity(|f.columns|));
    forall a | 0 <= a < |f.columns| ensures g.data[a] == f.data[a] {
    }
  }

  /** Leaving out one position keeps the positions strictly increasing. */
  lemma RemoveIncreasing(idx: seq<nat>, n: nat, p: nat)
    requires Increasing(idx, n) && p < |idx|
    ensures Increasing(Remove(idx, p), n)
  {
    var r := Remove(idx, p);
    forall a, b | 0 <= a < b < |r| ensures r[a] < r[b] {
      var a' := if a < p then a else a + 1;
      var b' := if b < p then b else b + 1;
      assert r[a] == idx[a'] && r[b] == idx[b'] && a' < b';
    }
  }

  /** Dropping the row and the column at position `p` of a restricted frame
      is restricting to the positions without the `p`-th one. */
  lemma DropSubFrame(f: Frame, idx: seq<nat>, p: nat)
    requires Square(f) && Increasing(idx, |f.columns|) && p < |idx|
    ensures Increasing(Remove(idx, p), |f.columns|)
    ensures DropColumn(DropRow(SubFrame(f, idx), p), p) == SubFrame(f, Remove(idx, p))
  {
    RemoveIncreasing(idx, |f.columns|, p);
    DropSubFrameLabels(f, idx, p);
    DropSubFrameData(f, idx, p);
  }

  /** The labels of both sides of `DropSubFrame`. */
  lemma DropSubFrameLabels(f: Frame, idx: seq<nat>, p: nat)
    requires Square(f) && Increasing(idx, |f.columns|) && p < |idx|
    requires Increasing(Remove(idx, p), |f.columns|)
    ensures DropColumn(DropRow(SubFrame(f, idx), p), p).columns == SubFrame(f, Remove(idx, p)).columns
    ensures DropColumn(DropRow(SubFrame(f, idx), p), p).index == SubFrame(f, Remove(idx, p)).index
  {
    var r := Remove(idx, p);
    var g := SubFrame(f, idx);
    var left := DropColumn(DropRow(g, p), p);
    var right := SubFrame(f, r);
    forall a | 0 <= a < |r| ensures left.columns[a] == right.columns[a] {
      var a' := if a < p then a else a + 1;
      assert left.columns[a] == g.columns[a'];
    }
  }

  /** The entries of both sides of `DropSubFrame`. */
  lemma DropSubFrameData(f: Frame, idx: seq<nat>, p: nat)
    requires Square(f) && Increasing(idx, |f.columns|) && p < |idx|
    requires Increasing(Remove(idx, p), |f.columns|)
    ensures DropColumn(DropRow(SubFrame(f, idx), p), p).data == SubFrame(f, Remove(idx, p)).data
  {
    var left := DropColumn(DropRow(SubFrame(f, idx), p), p).data;
    var right := SubFrame(f, Remove(idx, p)).data;
    forall a | 0 <= a < |idx| - 1 ensures left[a] == right[a] {
      DropSubFrameColumn(f, idx, p, a);
    }
  }

  /** Leaving out position `p` leaves out exactly the element there. */
  lemma RemoveMembers(idx: seq<nat>, n: nat, p: nat)
    requires Increasing(idx, n) && p < |idx|
    ensures forall x :: x in Remove(idx, p) <==> x in idx && x != idx[p]
  {
    var r := Remove(idx, p);
    forall x ensures x in r <==> x in idx && x != idx[p] {
      if x in r {
        var a :| 0 <= a < |r| && r[a] == x;
        var a' := if a < p then a else a + 1;
        assert idx[a'] == x && a' != p;
      }
      if x in idx && x != idx[p] {
        var a' :| 0 <= a' < |idx| && idx[a'] == x;
        var a := if a' < p then a' else a' - 1;
        assert r[a] == x;
      }
    }
  }

  /** Column `a` of both sides of `DropSubFrame`. */
  lemma DropSubFrameColumn(f: Frame, idx: seq<nat>, p: nat, a: nat)
    requires Square(f) && Increasing(idx, |f.columns|) && p < |idx| && a < |idx| - 1
    requires Increasing(Remove(idx, p), |f.columns|)
    ensures DropColumn(DropRow(SubFrame(f, idx), p), p).data[a] == SubFrame(f, Remove(idx, p)).data[a]
  {
    var r := Remove(idx, p);
    var g := SubFrame(f, idx);
    var a' := if a < p then a else a + 1;
    var left := DropColumn(DropRow(g, p), p).data[a];
    var right := SubFrame(f, r).data[a];
    assert |left| == |right|;
    forall b | 0 <= b < |r| ensures left[b] == right[b] {
      var b' := if b < p then b else b + 1;
      DropEntry(g, p, a, b);
      assert r[a] == idx[a'] && r[b] == idx[b'];
      assert g.data[a'][b'] == f.data[idx[a']][idx[b']];
    }
  }

  /** An entry left after dropping row and column `p` is the entry of the
      original frame one row and one column further on past `p`. */
  lemma DropEntry(g: Frame, p: nat, a: nat, b: nat)
    requires WellFormed(g) && p < |g.columns| && p < |g.index|
    requires a < |g.columns| - 1 && b < |g.index| - 1
    ensures DropColumn(DropRow(g, p), p).data[a][b]
            == g.data[if a < p then a else a + 1][if b < p then b else b + 1]
  {
    var a' := if a < p then a else a + 1;
    assert DropColumn(DropRow(g, p), p).data[a] == DropRow(g, p).data[a'] == Remove(g.data[a'], p);
  }

  /** A sum of non-negative entries is zero only when every entry is. */
  lemma {:induction false} SumZero(xs: seq<int>)
    requires forall k :: 0 <= k < |xs| ==> xs[k] >= 0
    ensures Sum(xs) >= 0
    ensures Sum(xs) == 0 <==> forall k :: 0 <= k < |xs| ==> xs[k] == 0
  {
    if xs != [] {
      SumZero(xs[..|xs| - 1]);
    }
  }

  /** There are at most `n` strictly increasing positions below `n`. */
  lemma {:induction false} IncreasingLength(idx: seq<nat>, n: nat)
    requires Increasing(idx, n)
    ensures |idx| <= n
    decreases |idx|
  {
    if idx != [] {
      var m := |idx| - 1;
      assert Increasing(idx[..m], idx[m]) by {
        forall a | 0 <= a < m ensures idx[..m][a] < idx[m] {
          assert idx[a] < idx[m];
        }
      }
      IncreasingLength(idx[..m], idx[m]);
    }
  }

  /** Leaving out only zero entries keeps the sum. */
  lemma {:induction false} SumPick(xs: seq<int>, idx: seq<nat>)
    requires Increasing(idx, |xs|)
    requires forall k :: 0 <= k < |xs| && k !in idx ==> xs[k] == 0
    ensures Sum(Pick(xs, idx)) == Sum(xs)
    decreases |xs|
  {
    if xs == [] {
      IncreasingLength(idx, 0);
      return;
    }
    var n := |xs| - 1;
    if |idx| > 0 && idx[|idx| - 1] == n {
      var m := |idx| - 1;
      PickWithLast(xs, idx);
      SumPick(xs[..n], idx[..m]);
      assert Pick(xs, idx)[..m] == Pick(xs[..n], idx[..m]);
    } else {
      PickWithoutLast(xs, idx);
      SumPick(xs[..n], idx);
    }
  }

  /** When the last position is picked, the rest is a restriction of the
      shorter sequence. */
  lemma PickWithLast(xs: seq<int>, idx: seq<nat>)
    requires Increasing(idx, |xs|) && |idx| > 0 && idx[|idx| - 1] == |xs| - 1
    requires forall k :: 0 <= k < |xs| && k !in idx ==> xs[k] == 0
    ensures var n, m := |xs| - 1, |idx| - 1;
            && Increasing(idx[..m], n)
            && (forall k :: 0 <= k < n && k !in idx[..m] ==> xs[..n][k] == 0)
            && Pick(xs, idx)[..m] == Pick(xs[..n], idx[..m])
            && Pick(xs, idx)[m] == xs[n]
  {
    var n, m := |xs| - 1, |idx| - 1;
    var rest := idx[..m];
    forall a | 0 <= a < m ensures rest[a] < n {
      assert idx[a] < idx[m];
    }
    forall k | 0 <= k < n && k !in rest ensures xs[..n][k] == 0 {
      forall a | 0 <= a < |idx| ensures idx[a] != k {
        if a < m {
          assert rest[a] == idx[a];
        }
      }
    }
  }

  /** When the last position is not picked, the same positions restrict the
      shorter sequence. */
  lemma PickWithoutLast(xs: seq<int>, idx: seq<nat>)
    requires Increasing(idx, |xs|) && xs != [] && !(|idx| > 0 && idx[|idx| - 1] == |xs| - 1)
    requires forall k :: 0 <= k < |xs| && k !in idx ==> xs[k] == 0
    ensures var n := |xs| - 1;
            && Increasing(idx, n)
            && (forall k :: 0 <= k < n && k !in idx ==> xs[..n][k] == 0)
            && xs[n] == 0
            && Pick(xs, idx) == Pick(xs[..n], idx)
  {
    var n := |xs| - 1;
    forall a | 0 <= a < |idx| ensures idx[a] < n {
      if a < |idx| - 1 {
        assert idx[a] < idx[|idx| - 1];
      }
    }
    assert n !in idx;
  }

  /** Two strictly increasing sequences with the same elements are equal. */
  lemma {:induction false} IncreasingUnique(a: seq<nat>, b: seq<nat>, n: nat)
    requires Increasing(a, n) && Increasing(b, n)
    requires forall x :: x in a <==> x in b
    ensures a == b
    decreases |a|
  {
    EmptyTogether(a, b);
    if a != [] {
      IncreasingHeadLeast(a, b[0], n);
      IncreasingHeadLeast(b, a[0], n);
      forall x ensures x in a[1..] <==> x in b[1..] {
        IncreasingTail(a, x, n);
        IncreasingTail(b, x, n);
      }
      IncreasingUnique(a[1..], b[1..], n);
      assert a == [a[0]] + a[1..] && b == [b[0]] + b[1..];
    }
  }

  /** The head of an increasing sequence is its least element. */
  lemma IncreasingHeadLeast(a: seq<nat>, x: nat, n: nat)
    requires Increasing(a, n) && x in a
    ensures a[0] <= x
  {
    var k :| 0 <= k < |a| && a[k] == x;
  }

  /** The tail of an increasing sequence holds every element but the head. */
  lemma IncreasingTail(a: seq<nat>, x: nat, n: nat)
    requires Increasing(a, n) && a != []
    ensures x in a[1..] <==> x in a && x != a[0]
  {
    if x in a && x != a[0] {
      var k :| 0 <= k < |a| && a[k] == x;
      assert a[1..][k - 1] == x;
    }
  }
}
