/** The step of the driver that removes the courses with no link: a course
    whose row and column of the adjacency matrix both sum to zero is dropped
    from the frame, and its title from the list of titles. */
module Trimming {
  import opened Seqs
  import opened Frames

  /** Nothing in row `c` or column `c` is non-zero, as the driver tests it:
      both sums are zero. */
  predicate Unlinked(f: Frame, c: nat)
    requires Square(f) && c < |f.columns|
  {
    ColumnSum(f, c) == 0 && RowSum(f, c) == 0
  }

  /** For each position, whether it has a link. */
  function KeepFlags(f: Frame): (flags: seq<bool>)
    requires Square(f)
    ensures |flags| == |f.columns| && forall c :: 0 <= c < |flags| ==> flags[c] == !Unlinked(f, c)
  {
    seq(|f.columns|, c requires 0 <= c < |f.columns| => !Unlinked(f, c))
  }

  /** The positions with a link, in order. */
  function Kept(f: Frame): (idx: seq<nat>)
    requires Square(f)
    ensures Increasing(idx, |f.columns|)
    ensures forall c :: 0 <= c < |f.columns| ==> (c in idx <==> !Unlinked(f, c))
  {
    Positions(KeepFlags(f))
  }

  /** In a restriction that leaves out only unlinked positions, every
      remaining position keeps its column and row sums. */
  lemma SubFrameSums(f: Frame, idx: seq<nat>, p: nat)
    requires Square(f) && NonNegative(f) && Increasing(idx, |f.columns|) && p < |idx|
    requires forall c :: 0 <= c < |f.columns| && c !in idx ==> Unlinked(f, c)
    ensures ColumnSum(SubFrame(f, idx), p) == ColumnSum(f, idx[p])
    ensures RowSum(SubFrame(f, idx), p) == RowSum(f, idx[p])
  {
    var g := SubFrame(f, idx);
    var n := |f.columns|;
    var col := f.data[idx[p]];
    var row := Row(f, idx[p]);
    forall k | 0 <= k < n && k !in idx ensures col[k] == 0 && row[k] == 0 {
      SumZero(Row(f, k));
      SumZero(f.data[k]);
      assert Row(f, k)[idx[p]] == col[k];
    }
    assert g.data[p] == Pick(col, idx);
    SumPick(col, idx);
    assert Row(g, p) == Pick(row, idx);
    SumPick(row, idx);
  }

  /** The positions still present before iteration `i` of the loop: all
      from `i` on, and the linked ones before. */
  predicate Pending(f: Frame, idx: seq<nat>, i: nat)
    requires Square(f)
  {
    forall c :: 0 <= c < |f.columns| ==> (c in idx <==> i <= c || !Unlinked(f, c))
  }

  /** The code at position `i` of the original frame sits at the position
      `IndexOf` finds in the restricted frame. */
  lemma LocateColumn(f: Frame, idx: seq<nat>, i: nat)
    requires Square(f) && Distinct(f.columns) && Increasing(idx, |f.columns|)
    requires i < |f.columns| && i in idx
    ensures f.columns[i] in SubFrame(f, idx).columns
    ensures var p := IndexOf(SubFrame(f, idx).columns, f.columns[i]); p < |idx| && idx[p] == i
  {
    var g := SubFrame(f, idx);
    var q :| 0 <= q < |idx| && idx[q] == i;
    assert g.columns[q] == f.columns[i];
    var p := IndexOf(g.columns, f.columns[i]);
    assert f.columns[idx[p]] == f.columns[i];
  }

  /** One iteration of the loop, on the restricted frame: the sums it tests
      are those of the original frame, and dropping an unlinked code moves
      on to the next restriction. */
  lemma TrimStep(f: Frame, idx: seq<nat>, i: nat, p: nat)
    requires Square(f) && NonNegative(f) && Increasing(idx, |f.columns|)
    requires i < |f.columns| && Pending(f, idx, i) && p < |idx| && idx[p] == i
    ensures ColumnSum(SubFrame(f, idx), p) == ColumnSum(f, i)
    ensures RowSum(SubFrame(f, idx), p) == RowSum(f, i)
    ensures Unlinked(f, i) ==> && Increasing(Remove(idx, p), |f.columns|)
                               && Pending(f, Remove(idx, p), i + 1)
                               && DropColumn(DropRow(SubFrame(f, idx), p), p) == SubFrame(f, Remove(idx, p))
    ensures !Unlinked(f, i) ==> Pending(f, idx, i + 1)
  {
    SubFrameSums(f, idx, p);
    if Unlinked(f, i) {
      DropSubFrame(f, idx, p);
      RemoveMembers(idx, |f.columns|, p);
    }
  }

  /** One iteration of the driver's loop, for the code at position `i` of
      the original columns: drop its row and column from the frame as it is
      by then when both sums are zero there, and otherwise append its title.
      `idx` is the restriction of the original frame the current one is. */
  method TrimAt(f: Frame, titles: seq<string>, i: nat, g: Frame, ghost idx: seq<nat>, newTitles: seq<string>)
    returns (g': Frame, ghost idx': seq<nat>, newTitles': seq<string>)
    requires Square(f) && NonNegative(f) && Distinct(f.columns) && |titles| == |f.columns| && i < |f.columns|
    requires Increasing(idx, |f.columns|) && g == SubFrame(f, idx) && Pending(f, idx, i)
    requires newTitles == Pick(titles, Positions(KeepFlags(f)[..i]))
    ensures Increasing(idx', |f.columns|) && g' == SubFrame(f, idx') && Pending(f, idx', i + 1)
    ensures newTitles' == Pick(titles, Positions(KeepFlags(f)[..i + 1]))
  {
    var code := f.columns[i];
    LocateColumn(f, idx, i);
    var p := IndexOf(g.columns, code);
    TrimStep(f, idx, i, p);
    PickPositionsSnoc(titles, KeepFlags(f), i);
    if ColumnSum(g, p) == 0 && RowSum(g, IndexOf(g.index, code)) == 0 {
      g', idx', newTitles' := DropColumn(DropRow(g, p), p), Remove(idx, p), newTitles;
    } else {
      assert IndexOf(f.columns, code) == i;
      g', idx', newTitles' := g, idx, newTitles + [titles[IndexOf(f.columns, code)]];
    }
  }

  /** The driver's loop: for each code of the original columns, in order,
      drop its row and column when both sums are zero in the frame as it is
      by then, and otherwise keep its title. Dropping an unlinked code
      changes no other code's sums, so the result is the frame restricted to
      the linked codes of the original, whatever the order. */
  method TrimUnlinked(f: Frame, titles: seq<string>) returns (g: Frame, newTitles: seq<string>)
    requires Square(f) && NonNegative(f) && Distinct(f.columns) && |titles| == |f.columns|
    ensures g == SubFrame(f, Kept(f))
    ensures newTitles == Pick(titles, Kept(f))
  {
    var cols := f.columns;
    var n := |cols|;
    g := f;
    newTitles := [];
    ghost var flags := KeepFlags(f);
    ghost var idx := Identity(n);
    SubFrameIdentity(f);
    forall c | 0 <= c < n ensures c in idx {
      assert idx[c] == c;
    }
    for i := 0 to n
      invariant Increasing(idx, n) && g == SubFrame(f, idx)
      invariant Pending(f, idx, i)
      invariant newTitles == Pick(titles, Positions(flags[..i]))
    {
      g, idx, newTitles := TrimAt(f, titles, i, g, idx, newTitles);
    }
    IncreasingUnique(idx, Kept(f), n);
    assert flags[..n] == flags;
  }

  /** Every course left by the trimming step still has a link in the trimmed
      frame: a link of a kept course is to a kept course. */
  lemma TrimmedLinked(f: Frame, p: nat)
    requires Square(f) && NonNegative(f) && p < |Kept(f)|
    ensures !Unlinked(SubFrame(f, Kept(f)), p)
  {
    SubFrameSums(f, Kept(f), p);
  }

  /** Trimming a trimmed frame keeps every position. */
  lemma TrimIdempotent(f: Frame)
    requires Square(f) && NonNegative(f)
    ensures var g := SubFrame(f, Kept(f)); NonNegative(g) && Kept(g) == Identity(|g.columns|)
  {
    var idx := Kept(f);
    var g := SubFrame(f, idx);
    SubFrameNonNegative(f, idx);
    var n := |g.columns|;
    forall c | 0 <= c < n ensures c in Kept(g) && c in Identity(n) {
      TrimmedLinked(f, c);
      assert Identity(n)[c] == c;
    }
    forall x ensures x in Kept(g) <==> x in Identity(n) {
      if x in Identity(n) {
        var a :| 0 <= a < n && Identity(n)[a] == x;
      }
    }
    IncreasingUnique(Kept(g), Identity(n), n);
  }
}
