/** `create_json_df`: one record per row of the trimmed frame, with the codes
    of the courses that require it, a size one more than their number, and a
    colour chosen by the four-letter subject prefix of its code. */
module Hierarchy {
  import opened Wrappers
  import opened Seqs
  import opened Text
  import opened Frames
  import opened Adjacency

  // ---------------------------------------------------------------- prefixes and their order

  /** `x[:4]`: the first four characters, or the whole string when shorter. */
  function Prefix(s: string): (p: string)
    ensures |p| <= 4 && |p| <= |s| && p == s[..|p|]
    ensures |s| >= 4 ==> |p| == 4
  {
    if |s| <= 4 then s else s[..4]
  }

  predicate StrictlySorted(xs: seq<string>) {
    forall a, b :: 0 <= a < b < |xs| ==> Less(xs[a], xs[b])
  }

  /** `x` placed into a strictly sorted list, unless it is already there. */
  function Insert(xs: seq<string>, x: string): (r: seq<string>)
    requires StrictlySorted(xs)
    ensures StrictlySorted(r)
    ensures forall y :: y in r <==> y in xs || y == x
  {
    if xs == [] then [x]
    else if x == xs[0] then xs
    else if Less(x, xs[0]) then
      var r := [x] + xs;
      forall b | 0 < b < |r| ensures Less(x, r[b]) {
        if b > 1 { LessTransitive(x, xs[0], r[b]); }
      }
      r
    else
      LessTotal(x, xs[0]);
      var rest := Insert(xs[1..], x);
      forall y | y in rest ensures Less(xs[0], y) {
        if y != x {
          var k :| 1 <= k < |xs| && xs[k] == y;
        }
      }
      var r := [xs[0]] + rest;
      assert forall b :: 0 < b < |r| ==> r[b] in rest;
      r
  }

  /** The distinct subject prefixes of the column labels, in increasing order:
      the table the colour index is looked up in. */
  function SortedPrefixes(columns: seq<string>): (r: seq<string>)
    ensures StrictlySorted(r)
    ensures forall p :: p in r <==> exists c :: c in columns && Prefix(c) == p
  {
    if columns == [] then []
    else
      var init := columns[..|columns| - 1];
      var r := Insert(SortedPrefixes(init), Prefix(columns[|columns| - 1]));
      assert forall c :: c in columns <==> c in init || c == columns[|columns| - 1];
      r
  }

  /** A strictly sorted list is determined by its elements: the sorted
      prefixes are the only ordering Python's `sorted` can produce. */
  lemma {:induction false} SortedUnique(a: seq<string>, b: seq<string>)
    requires StrictlySorted(a) && StrictlySorted(b)
    requires forall x :: x in a <==> x in b
    ensures a == b
  {
    EmptyTogether(a, b);
    if a != [] {
      assert a[0] in b && b[0] in a;
      if a[0] != b[0] {
        SortedHeadLeast(a, b[0]);
        SortedHeadLeast(b, a[0]);
        LessAsymmetric(a[0], b[0]);
      }
      forall x ensures x in a[1..] <==> x in b[1..] {
        TailMembers(a, x);
        TailMembers(b, x);
      }
      SortedUnique(a[1..], b[1..]);
      assert a == [a[0]] + a[1..] && b == [b[0]] + b[1..];
    }
  }

  /** The head of a strictly sorted list is below every other element. */
  lemma SortedHeadLeast(a: seq<string>, x: string)
    requires StrictlySorted(a) && x in a && x != a[0]
    ensures Less(a[0], x)
  {
    var k :| 0 <= k < |a| && a[k] == x;
  }

  /** The tail of a strictly sorted list holds every element but the head. */
  lemma TailMembers(a: seq<string>, x: string)
    requires StrictlySorted(a) && a != []
    ensures x in a[1..] <==> x in a && x != a[0]
  {
    if x in a[1..] {
      var k :| 1 <= k < |a| && a[k] == x;
      LessIrreflexive(x);
    }
    if x in a && x != a[0] {
      var k :| 0 <= k < |a| && a[k] == x;
      assert a[1..][k - 1] == x;
    }
  }

  /** Colour indices follow the order of the prefixes. */
  lemma ColourOrder(xs: seq<string>, x: string, y: string)
    requires StrictlySorted(xs) && x in xs && y in xs
    ensures IndexOf(xs, x) < IndexOf(xs, y) <==> Less(x, y)
    ensures IndexOf(xs, x) == IndexOf(xs, y) <==> x == y
  {
    var i, j := IndexOf(xs, x), IndexOf(xs, y);
    if j < i {
      LessAsymmetric(y, x);
    } else if i == j {
      LessIrreflexive(x);
    }
  }

  // ---------------------------------------------------------------- records

  /** One entry of `hierarchy.json`: name, size, title, colour (the position
      of the subject prefix among the sorted prefixes; the colour map itself
      is not modelled) and imports. */
  datatype Record = Record(name: string, size: int, title: string, colour: nat, imports: seq<string>)

  /** `list(row[row != 0].index)`: the labels of the columns whose entry in
      row `r` is non-zero, in column order. */
  function Imports(f: Frame, r: nat): (imps: seq<string>)
    requires WellFormed(f) && r < |f.index|
    ensures forall x :: x in imps ==> x in f.columns
  {
    var nonZero := seq(|f.columns|, c requires 0 <= c < |f.columns| => f.data[c][r] != 0);
    Pick(f.columns, Positions(nonZero))
  }

  /** The imports of row `r` are exactly the labels of the non-zero columns. */
  lemma ImportsMembers(f: Frame, r: nat)
    requires WellFormed(f) && r < |f.index|
    ensures forall c :: 0 <= c < |f.columns| && f.data[c][r] != 0 ==> f.columns[c] in Imports(f, r)
    ensures forall x :: x in Imports(f, r) ==> exists c :: 0 <= c < |f.columns| && f.data[c][r] != 0 && f.columns[c] == x
  {
    var nonZero := seq(|f.columns|, c requires 0 <= c < |f.columns| => f.data[c][r] != 0);
    var pos := Positions(nonZero);
    var imps := Imports(f, r);
    forall c | 0 <= c < |f.columns| && f.data[c][r] != 0 ensures f.columns[c] in imps {
      assert nonZero[c];
      var a :| 0 <= a < |pos| && pos[a] == c;
      assert imps[a] == f.columns[c];
    }
    forall x | x in imps ensures exists c :: 0 <= c < |f.columns| && f.data[c][r] != 0 && f.columns[c] == x {
      var a :| 0 <= a < |imps| && imps[a] == x;
      assert nonZero[pos[a]];
    }
  }

  /** `create_json_df`: a record per row, in row order. A title list shorter
      than the rows (IndexError) or a row whose prefix is not the prefix of
      any column (KeyError on the colour table) makes the whole call fail. */
  method CreateJsonRecords(df: Frame, titles: seq<string>) returns (res: Option<seq<Record>>)
    requires WellFormed(df)
    ensures res.Some? <==> && |df.index| <= |titles|
                           && forall r :: 0 <= r < |df.index| ==> Prefix(df.index[r]) in SortedPrefixes(df.columns)
    ensures res.Some? ==> |res.value| == |df.index|
    ensures res.Some? ==> forall r :: 0 <= r < |df.index| ==>
              var rec := res.value[r];
              && rec.name == df.index[r] && rec.title == titles[r]
              && rec.imports == Imports(df, r) && rec.size == |rec.imports| + 1
              && Prefix(df.index[r]) in SortedPrefixes(df.columns)
              && rec.colour == IndexOf(SortedPrefixes(df.columns), Prefix(df.index[r]))
  {
    var uniq := SortedPrefixes(df.columns);
    var recs: seq<Record> := [];
    for r := 0 to |df.index|
      invariant |recs| == r && r <= |titles|
      invariant forall q :: 0 <= q < r ==> Prefix(df.index[q]) in uniq
      invariant forall q :: 0 <= q < r ==>
                  var rec := recs[q];
                  && rec.name == df.index[q] && rec.title == titles[q]
                  && rec.imports == Imports(df, q) && rec.size == |rec.imports| + 1
                  && rec.colour == IndexOf(uniq, Prefix(df.index[q]))
    {
      var name := df.index[r];
      var reqs := Imports(df, r);
      if r >= |titles| {                            // IndexError on titles[i]
        return None;
      }
      var p := Prefix(name);
      if p !in uniq {                               // KeyError on code_color[index[:4]]
        return None;
      }
      recs := recs + [Record(name, |reqs| + 1, titles[r], IndexOf(uniq, p), reqs)];
    }
    return Some(recs);
  }

  /** On a frame whose rows carry the column labels (as after relabelling and
      trimming) with a title per row, the records are always produced. */
  lemma SquareHasRecords(f: Frame, titles: seq<string>)
    requires Square(f) && |titles| == |f.index|
    ensures forall r :: 0 <= r < |f.index| ==> Prefix(f.index[r]) in SortedPrefixes(f.columns)
  {
    forall r | 0 <= r < |f.index| ensures Prefix(f.index[r]) in SortedPrefixes(f.columns) {
      assert f.index[r] in f.columns;
    }
  }

  /** On the relabelled adjacency matrix restricted to positions `idx` (all of
      them, or those the trimming step keeps), the imports of a course's row
      are exactly the kept courses that require it. */
  lemma ImportsAreDependents(keys: seq<string>, titles: seq<string>, reqs: seq<seq<string>>, idx: seq<nat>, p: nat)
    requires |reqs| == |keys| == |titles| && Increasing(idx, |keys|) && p < |idx|
    ensures var g := SubFrame(Relabel(AdjacencyOf(keys, titles, reqs)), idx);
            forall x :: x in Imports(g, p) <==>
              exists c :: 0 <= c < |idx| && x == keys[idx[c]] && keys[idx[p]] in reqs[idx[c]]
  {
    forall x ensures x in Imports(SubFrame(Relabel(AdjacencyOf(keys, titles, reqs)), idx), p) <==>
                     exists c :: 0 <= c < |idx| && x == keys[idx[c]] && keys[idx[p]] in reqs[idx[c]] {
      DependentImport(keys, titles, reqs, idx, p, x);
    }
  }

  /** One code: it is imported by row `p` exactly when it is a kept course
      that requires the course of row `p`. */
  lemma DependentImport(keys: seq<string>, titles: seq<string>, reqs: seq<seq<string>>, idx: seq<nat>, p: nat, x: string)
    requires |reqs| == |keys| == |titles| && Increasing(idx, |keys|) && p < |idx|
    ensures x in Imports(SubFrame(Relabel(AdjacencyOf(keys, titles, reqs)), idx), p) <==>
              exists c :: 0 <= c < |idx| && x == keys[idx[c]] && keys[idx[p]] in reqs[idx[c]]
  {
    var g := SubFrame(Relabel(AdjacencyOf(keys, titles, reqs)), idx);
    ImportsMembers(g, p);
    if x in Imports(g, p) {
      var c :| 0 <= c < |g.columns| && g.data[c][p] != 0 && g.columns[c] == x;
      DependentCell(keys, titles, reqs, idx, p, c);
    }
    if exists c :: 0 <= c < |idx| && x == keys[idx[c]] && keys[idx[p]] in reqs[idx[c]] {
      var c :| 0 <= c < |idx| && x == keys[idx[c]] && keys[idx[p]] in reqs[idx[c]];
      DependentCell(keys, titles, reqs, idx, p, c);
    }
  }

  /** Entry (row `p`, column `c`) of the restricted, relabelled matrix. */
  lemma DependentCell(keys: seq<string>, titles: seq<string>, reqs: seq<seq<string>>, idx: seq<nat>, p: nat, c: nat)
    requires |reqs| == |keys| == |titles| && Increasing(idx, |keys|) && p < |idx| && c < |idx|
    ensures var g := SubFrame(Relabel(AdjacencyOf(keys, titles, reqs)), idx);
            && g.columns[c] == keys[idx[c]]
            && (g.data[c][p] != 0 <==> keys[idx[p]] in reqs[idx[c]])
  {
    var f := Relabel(AdjacencyOf(keys, titles, reqs));
    AdjacencyEntries(keys, titles, reqs);
    assert SubFrame(f, idx).data[c][p] == f.data[idx[c]][idx[p]];
  }
}
