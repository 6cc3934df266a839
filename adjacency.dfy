/** `create_adjacency_dataframe`: the 0/1 matrix of "requires" links between
    the courses of the registry, one column per course, and the relabelling
    the driver applies to it before trimming. */
module Adjacency {
  import opened Wrappers
  import opened Seqs
  import opened Courses
  import opened Registries
  import opened Frames
  import opened Trimming

  // ---------------------------------------------------------------- the matrix as a value

  /** The column of a course whose required list has the codes `codes`: a 1
      at the position of every key that is one of them. */
  function LinkColumn(keys: seq<string>, codes: seq<string>): (col: seq<int>)
    ensures |col| == |keys|
  {
    seq(|keys|, j requires 0 <= j < |keys| => if keys[j] in codes then 1 else 0)
  }

  /** The frame the source builds: column `i` is the course `keys[i]`, row `j`
      holds a 1 exactly when `keys[j]` is among the codes course `keys[i]`
      requires (`reqs[i]`); the rows are labelled with the titles. */
  function AdjacencyOf(keys: seq<string>, titles: seq<string>, reqs: seq<seq<string>>): (f: Frame)
    requires |reqs| == |keys| == |titles|
    ensures WellFormed(f) && f.index == titles && f.columns == keys
  {
    Frame(titles, keys, seq(|keys|, i requires 0 <= i < |keys| => LinkColumn(keys, reqs[i])))
  }

  /** `adj_df.index = adj_df.columns`: the rows take the course codes. */
  function Relabel(f: Frame): (g: Frame)
    requires WellFormed(f) && |f.index| == |f.columns|
    ensures Square(g) && g.columns == f.columns && g.data == f.data
  {
    Frame(f.columns, f.columns, f.data)
  }

  /** Entry (row `j`, column `i`) of the matrix says whether course `keys[i]`
      requires course `keys[j]`, and every entry is 0 or 1. */
  lemma AdjacencyEntries(keys: seq<string>, titles: seq<string>, reqs: seq<seq<string>>)
    requires |reqs| == |keys| == |titles|
    ensures var f := AdjacencyOf(keys, titles, reqs);
            forall i, j :: 0 <= i < |keys| && 0 <= j < |keys| ==>
              && (f.data[i][j] == 1 <==> keys[j] in reqs[i])
              && (f.data[i][j] == 0 <==> keys[j] !in reqs[i])
    ensures NonNegative(Relabel(AdjacencyOf(keys, titles, reqs)))
  {
  }

  /** After relabelling, a course is dropped by the trimming step exactly when
      it requires no course of the registry and no course of the registry
      requires it. */
  lemma UnlinkedIff(keys: seq<string>, titles: seq<string>, reqs: seq<seq<string>>, c: nat)
    requires |reqs| == |keys| == |titles| && c < |keys|
    ensures Unlinked(Relabel(AdjacencyOf(keys, titles, reqs)), c) <==>
              && (forall j :: 0 <= j < |keys| ==> keys[j] !in reqs[c])
              && (forall i :: 0 <= i < |keys| ==> keys[c] !in reqs[i])
  {
    var f := Relabel(AdjacencyOf(keys, titles, reqs));
    AdjacencyEntries(keys, titles, reqs);
    SumZero(f.data[c]);
    SumZero(Row(f, c));
  }

  // ---------------------------------------------------------------- the registry's side

  /** The row labels of the matrix: the title of each registered course, in key order. */
  function Titles(d: Registry): (titles: seq<string>)
    requires d.Valid()
    ensures |titles| == |d.keys| && forall i :: 0 <= i < |d.keys| ==> titles[i] == d.entries[d.keys[i]].title
  {
    seq(|d.keys|, i requires 0 <= i < |d.keys| => d.entries[d.keys[i]].title)
  }

  /** Every course of the registry has its required list set; otherwise the
      source raises TypeError iterating over `None`. */
  predicate RequiredSet(d: Registry)
    reads d.entries.Values
  {
    forall k :: k in d.entries ==> d.entries[k].required.Some?
  }

  /** The codes each course of the registry requires, in key order. */
  function Requirements(d: Registry): (reqs: seq<seq<string>>)
    requires d.Valid() && RequiredSet(d)
    reads d.entries.Values
    ensures |reqs| == |d.keys|
  {
    seq(|d.keys|, i requires 0 <= i < |d.keys| && d.entries[d.keys[i]].required.Some? reads d.entries.Values =>
      Codes(d.entries[d.keys[i]].required.value))
  }

  /** Course `keys[i]` requires code `x` exactly when one of the courses on
      its required list has that code. */
  lemma RequirementsMembers(d: Registry, i: nat, x: string)
    requires d.Valid() && RequiredSet(d) && i < |d.keys|
    ensures x in Requirements(d)[i] <==> exists c :: c in d.entries[d.keys[i]].required.value && c.code == x
  {
    var cs := d.entries[d.keys[i]].required.value;
    assert Requirements(d)[i] == Codes(cs);
    if x in Codes(cs) {
      var a :| 0 <= a < |cs| && Codes(cs)[a] == x;
      assert cs[a] in cs;
    }
    if exists c :: c in cs && c.code == x {
      var c :| c in cs && c.code == x;
      var a :| 0 <= a < |cs| && cs[a] == c;
      assert Codes(cs)[a] == x;
    }
  }

  /** Setting the entry of one more required code in a column. */
  lemma LinkColumnSnoc(keys: seq<string>, codes: seq<string>, x: string)
    requires Distinct(keys)
    ensures x in keys ==> LinkColumn(keys, codes + [x]) == LinkColumn(keys, codes)[IndexOf(keys, x) := 1]
    ensures x !in keys ==> LinkColumn(keys, codes + [x]) == LinkColumn(keys, codes)
  {
  }

  /** `create_adjacency_dataframe`: for each course, in key order, a column of
      zeros with a 1 at the position of each required course that is in the
      registry. A course whose required list is unset makes the whole call
      fail. */
  method CreateAdjacencyFrame(d: Registry) returns (res: Option<Frame>)
    requires d.Valid()
    ensures res.Some? <==> RequiredSet(d)
    ensures res.Some? ==> res.value == AdjacencyOf(d.keys, Titles(d), Requirements(d))
  {
    var n := |d.keys|;
    var cols: seq<seq<int>> := [];
    for i := 0 to n
      invariant |cols| == i
      invariant forall a :: 0 <= a < i ==> d.entries[d.keys[a]].required.Some?
      invariant forall a :: 0 <= a < i ==> cols[a] == LinkColumn(d.keys, Codes(d.entries[d.keys[a]].required.value))
    {
      var course := d.entries[d.keys[i]];
      if course.required.None? {                     // TypeError on iterating None
        return None;
      }
      var reqs := course.required.value;
      var row := new int[n](_ => 0);
      assert row[..] == LinkColumn(d.keys, Codes(reqs[..0]));
      for t := 0 to |reqs|
        invariant row[..] == LinkColumn(d.keys, Codes(reqs[..t]))
      {
        var code := reqs[t].code;
        assert Codes(reqs[..t + 1]) == Codes(reqs[..t]) + [code];
        LinkColumnSnoc(d.keys, Codes(reqs[..t]), code);
        if code in d.entries {
          var j := IndexOf(d.keys, code);
          row[j] := 1;
        }
      }
      assert reqs[..|reqs|] == reqs;
      cols := cols + [row[..]];
    }
    assert forall k :: k in d.entries ==> k in d.keys;
    return Some(Frame(Titles(d), d.keys, cols));
  }
}
