/** The registry `create_all_courses_dictionary` builds: an insertion-ordered
    dictionary from course code to `Course`, as a value (so that `.copy()` is
    the value itself), with the two OrderedDict operations the builder uses. */
module Registries {
  import opened Seqs
  import opened Courses

  datatype Registry = Registry(keys: seq<string>, entries: map<string, Course>) {

    /** An OrderedDict: each key once, and the order lists exactly the keys. */
    predicate Valid() {
      Distinct(keys) && entries.Keys == set k | k in keys
    }

    function KeySet(): set<string> {
      entries.Keys
    }

    /** `d[k] = v`: a new key goes last, an existing key keeps its place. */
    function Set(k: string, v: Course): (r: Registry)
      ensures k in r.entries && r.entries[k] == v
      ensures keys <= r.keys
    {
      if k in entries then Registry(keys, entries[k := v])
      else Registry(keys + [k], entries[k := v])
    }

    /** Register a course under its code unless the code is already taken: the
        first course with a code wins. */
    function Register(c: Course): (r: Registry)
      ensures c.code in r.entries
      ensures c.code !in entries ==> r.entries[c.code] == c
      ensures c.code in entries ==> r == this
    {
      if c.code in entries then this else Set(c.code, c)
    }
  }

  /** The empty registry: no keys, no courses. */
  function EmptyRegistry(): (r: Registry)
    ensures r.Valid() && r.keys == [] && r.entries == map[] && r.KeySet() == {}
  {
    Registry([], map[])
  }

  /** `big` holds `small` as its first keys with the same courses. */
  predicate Extends(big: Registry, small: Registry) {
    && |small.keys| <= |big.keys|
    && big.keys[..|small.keys|] == small.keys
    && forall k :: k in small.entries ==> k in big.entries && big.entries[k] == small.entries[k]
  }

  lemma ExtendsTransitive(a: Registry, b: Registry, c: Registry)
    requires Extends(a, b) && Extends(b, c)
    ensures Extends(a, c)
  {
    assert a.keys[..|c.keys|] == a.keys[..|b.keys|][..|c.keys|];
  }

  /** Setting a key keeps a registry valid and, for a new key, extends it. */
  lemma SetValid(d: Registry, k: string, v: Course)
    requires d.Valid()
    ensures d.Set(k, v).Valid()
    ensures d.Set(k, v).KeySet() == d.KeySet() + {k}
    ensures k !in d.entries ==> Extends(d.Set(k, v), d)
  {
    if k !in d.entries {
      assert d.Set(k, v).keys[..|d.keys|] == d.keys;
    }
  }

  // ---------------------------------------------------------------- update

  /** Setting the given keys of `m`, in order. */
  function UpdateWith(d: Registry, ks: seq<string>, m: map<string, Course>): Registry
    requires forall k :: k in ks ==> k in m
  {
    if ks == [] then d
    else
      var n := |ks| - 1;
      UpdateWith(d, ks[..n], m).Set(ks[n], m[ks[n]])
  }

  /** Every key of `other`, in its order, set to its course in `d`: a key
      already in `d` keeps its place, a new one goes last. */
  function Update(d: Registry, other: Registry): (r: Registry)
    requires other.Valid()
    ensures forall k :: k in other.entries ==> k in r.entries && r.entries[k] == other.entries[k]
    ensures forall k :: k in d.entries && k !in other.entries ==> k in r.entries && r.entries[k] == d.entries[k]
    ensures r.KeySet() == d.KeySet() + other.KeySet()
    ensures d.keys <= r.keys
  {
    UpdateWithEntries(d, other.keys, other.entries);
    UpdateWith(d, other.keys, other.entries)
  }

  /** Setting keys in order: each given key ends with its course from `m`,
      the other keys keep theirs, and the old keys stay first. */
  lemma {:induction false} UpdateWithEntries(d: Registry, ks: seq<string>, m: map<string, Course>)
    requires forall k :: k in ks ==> k in m
    ensures var r := UpdateWith(d, ks, m);
            && (forall k :: k in ks ==> k in r.entries && r.entries[k] == m[k])
            && (forall k :: k in d.entries && k !in ks ==> k in r.entries && r.entries[k] == d.entries[k])
            && r.KeySet() == d.KeySet() + (set k | k in ks)
            && d.keys <= r.keys
  {
    if ks != [] {
      var n := |ks| - 1;
      UpdateWithEntries(d, ks[..n], m);
      assert forall k :: k in ks <==> k in ks[..n] || k == ks[n];
    }
  }

  /** The first `n` keys of `r` with their courses. */
  function Prefix(r: Registry, n: nat): Registry
    requires r.Valid() && n <= |r.keys|
  {
    Registry(r.keys[..n], map k | k in r.keys[..n] :: r.entries[k])
  }

  lemma PrefixOfExtension(big: Registry, small: Registry)
    requires big.Valid() && small.Valid() && Extends(big, small)
    ensures Prefix(big, |small.keys|) == small
  {
    var p := Prefix(big, |small.keys|);
    assert p.entries == small.entries;
  }

  lemma PrefixSnoc(r: Registry, n: nat)
    requires r.Valid() && n < |r.keys|
    ensures Prefix(r, n + 1) == Prefix(r, n).Set(r.keys[n], r.entries[r.keys[n]])
  {
    var k := r.keys[n];
    assert r.keys[..n + 1] == r.keys[..n] + [k];
    assert k !in r.keys[..n];
    assert k !in Prefix(r, n).entries;
    assert Prefix(r, n + 1).entries == Prefix(r, n).entries[k := r.entries[k]];
  }

  /** Re-setting the keys `d` already has, with the courses it already has,
      changes nothing. */
  lemma {:induction false} UpdateWithOld(d: Registry, other: Registry, i: nat)
    requires d.Valid() && other.Valid() && Extends(other, d) && i <= |d.keys|
    ensures UpdateWith(d, other.keys[..i], other.entries) == d
  {
    if i > 0 {
      assert other.keys[..i][..i - 1] == other.keys[..i - 1];
      UpdateWithOld(d, other, i - 1);
      var k := other.keys[i - 1];
      assert k == d.keys[i - 1];
      assert d.entries[k := other.entries[k]] == d.entries;
    }
  }

  /** Past `d`'s keys, each step appends the next key of `other`. */
  lemma {:induction false} UpdateWithNew(d: Registry, other: Registry, i: nat)
    requires d.Valid() && other.Valid() && Extends(other, d) && |d.keys| <= i <= |other.keys|
    ensures UpdateWith(d, other.keys[..i], other.entries) == Prefix(other, i)
  {
    if i == |d.keys| {
      UpdateWithOld(d, other, i);
      PrefixOfExtension(other, d);
    } else {
      assert other.keys[..i][..i - 1] == other.keys[..i - 1];
      UpdateWithNew(d, other, i - 1);
      PrefixSnoc(other, i - 1);
    }
  }

  /** When `other` already extends `d` (the builder's sub-results do), the
      update leaves exactly `other`: nothing already present is replaced
      or moved, and the new keys follow in `other`'s order. */
  lemma UpdateByExtension(d: Registry, other: Registry)
    requires d.Valid() && other.Valid() && Extends(other, d)
    ensures Update(d, other) == other
  {
    UpdateWithNew(d, other, |other.keys|);
    assert other.keys[..|other.keys|] == other.keys;
    PrefixWhole(other);
  }

  /** All the keys of a registry, with their courses, are the registry. */
  lemma PrefixWhole(r: Registry)
    requires r.Valid()
    ensures Prefix(r, |r.keys|) == r
  {
    assert r.keys[..|r.keys|] == r.keys;
    assert Prefix(r, |r.keys|).entries == r.entries;
  }

  // ---------------------------------------------------------------- merging seeds without recursion

  /** The codes of the given courses, in order. */
  function Codes(cs: seq<Course>): (r: seq<string>)
    ensures |r| == |cs| && forall i :: 0 <= i < |cs| ==> r[i] == cs[i].code
  {
    seq(|cs|, i requires 0 <= i < |cs| => cs[i].code)
  }

  /** The builder's loop with recursion off: each course registered under its
      code unless the code is already present. */
  function Merge(d: Registry, seeds: seq<Course>): (r: Registry)
    ensures forall k :: k in d.entries ==> k in r.entries && r.entries[k] == d.entries[k]
    ensures d.keys <= r.keys
  {
    if seeds == [] then d
    else
      var n := |seeds| - 1;
      Merge(d, seeds[..n]).Register(seeds[n])
  }

  /** `xs[i]` is neither among `ks` nor among the elements before it. */
  predicate FirstNew(ks: seq<string>, xs: seq<string>, i: nat)
    requires i < |xs|
  {
    xs[i] !in ks && forall j :: 0 <= j < i ==> xs[j] != xs[i]
  }

  function FirstNewFlags(ks: seq<string>, xs: seq<string>): (f: seq<bool>)
    ensures |f| == |xs| && forall i :: 0 <= i < |xs| ==> f[i] == FirstNew(ks, xs, i)
  {
    seq(|xs|, i requires 0 <= i < |xs| => FirstNew(ks, xs, i))
  }

  /** The elements of `xs` not in `ks`, each once, in order of first
      occurrence. */
  function NewInOrder(ks: seq<string>, xs: seq<string>): seq<string> {
    Pick(xs, Positions(FirstNewFlags(ks, xs)))
  }

  lemma NewInOrderSnoc(ks: seq<string>, xs: seq<string>)
    requires xs != []
    ensures var n := |xs| - 1;
            NewInOrder(ks, xs) == NewInOrder(ks, xs[..n]) + (if FirstNew(ks, xs, n) then [xs[n]] else [])
  {
    var n := |xs| - 1;
    var f := FirstNewFlags(ks, xs);
    assert f[..n] == FirstNewFlags(ks, xs[..n]);
    var p := Positions(f[..n]);
    assert Pick(xs, p) == Pick(xs[..n], p);
  }

  /** The codes of a prefix of the seeds are a prefix of their codes. */
  lemma CodesPrefix(seeds: seq<Course>, n: nat)
    requires n <= |seeds|
    ensures Codes(seeds)[..n] == Codes(seeds[..n])
  {
  }

  /** The set of the seeds' codes. */
  function SeedCodes(seeds: seq<Course>): set<string> {
    set i | 0 <= i < |seeds| :: seeds[i].code
  }

  lemma SeedCodesSnoc(seeds: seq<Course>)
    requires seeds != []
    ensures SeedCodes(seeds) == SeedCodes(seeds[..|seeds| - 1]) + {seeds[|seeds| - 1].code}
  {
    var n := |seeds| - 1;
    forall x | x in SeedCodes(seeds) ensures x in SeedCodes(seeds[..n]) + {seeds[n].code} {
      var i :| 0 <= i < |seeds| && seeds[i].code == x;
      if i < n { assert seeds[..n][i].code == x; }
    }
    forall x | x in SeedCodes(seeds[..n]) ensures x in SeedCodes(seeds) {
      var i :| 0 <= i < n && seeds[..n][i].code == x;
      assert seeds[i].code == x;
    }
  }

  /** With recursion off, the registry stays valid, extends the parent and
      holds exactly the parent's codes and the seeds' codes. */
  lemma {:induction false} MergeValid(d: Registry, seeds: seq<Course>)
    requires d.Valid()
    ensures var r := Merge(d, seeds);
            && r.Valid() && Extends(r, d)
            && r.KeySet() == d.KeySet() + SeedCodes(seeds)
  {
    if seeds != [] {
      var n := |seeds| - 1;
      MergeValid(d, seeds[..n]);
      var prev := Merge(d, seeds[..n]);
      var c := seeds[n];
      SetValid(prev, c.code, c);
      if c.code !in prev.entries {
        ExtendsTransitive(prev.Set(c.code, c), prev, d);
      }
      SeedCodesSnoc(seeds);
    }
  }

  /** The last seed is new exactly when its code is not yet registered. */
  lemma LastIsFirstNew(d: Registry, seeds: seq<Course>)
    requires d.Valid() && seeds != []
    ensures var n := |seeds| - 1;
            FirstNew(d.keys, Codes(seeds), n) <==> seeds[n].code !in Merge(d, seeds[..n]).entries
  {
    var n := |seeds| - 1;
    MergeValid(d, seeds[..n]);
    var x := seeds[n].code;
    assert x in Merge(d, seeds[..n]).entries <==> x in d.keys || x in SeedCodes(seeds[..n]);
    EarlierCode(seeds, n);
  }

  /** A code is among the first `n` seeds' codes exactly when one of the
      first `n` codes equals it. */
  lemma EarlierCode(seeds: seq<Course>, n: nat)
    requires n < |seeds|
    ensures seeds[n].code in SeedCodes(seeds[..n]) <==> exists j :: 0 <= j < n && Codes(seeds)[j] == seeds[n].code
  {
    var x := seeds[n].code;
    if x in SeedCodes(seeds[..n]) {
      var j :| 0 <= j < n && seeds[..n][j].code == x;
      assert Codes(seeds)[j] == x;
    }
    if exists j :: 0 <= j < n && Codes(seeds)[j] == x {
      var j :| 0 <= j < n && Codes(seeds)[j] == x;
      assert seeds[..n][j].code == x;
    }
  }

  /** With recursion off, the parent's keys are followed by the seeds'
      codes not already present, each once, in order of first occurrence. */
  lemma {:induction false} MergeKeys(d: Registry, seeds: seq<Course>)
    requires d.Valid()
    ensures Merge(d, seeds).keys == d.keys + NewInOrder(d.keys, Codes(seeds))
  {
    if seeds == [] {
      assert NewInOrder(d.keys, []) == [];
    } else {
      var n := |seeds| - 1;
      MergeKeys(d, seeds[..n]);
      CodesPrefix(seeds, n);
      NewInOrderSnoc(d.keys, Codes(seeds));
      LastIsFirstNew(d, seeds);
    }
  }

  /** With recursion off, first write wins: a new code keeps the first seed
      that carries it, and the parent's courses are untouched. */
  lemma {:induction false} MergeEntries(d: Registry, seeds: seq<Course>)
    requires d.Valid()
    ensures var r := Merge(d, seeds);
            forall i :: 0 <= i < |seeds| && FirstNew(d.keys, Codes(seeds), i) ==>
              seeds[i].code in r.entries && r.entries[seeds[i].code] == seeds[i]
  {
    if seeds != [] {
      var n := |seeds| - 1;
      var init := seeds[..n];
      MergeEntries(d, init);
      var prev := Merge(d, init);
      var r := prev.Register(seeds[n]);
      assert r == Merge(d, seeds);
      var codes := Codes(seeds);
      CodesPrefix(seeds, n);
      forall i | 0 <= i < |seeds| && FirstNew(d.keys, codes, i)
        ensures seeds[i].code in r.entries && r.entries[seeds[i].code] == seeds[i]
      {
        if i < n {
          assert FirstNew(d.keys, Codes(init), i);
          assert init[i] == seeds[i];
          assert seeds[i].code in prev.entries && prev.entries[seeds[i].code] == seeds[i];
        } else {
          LastIsFirstNew(d, seeds);
        }
      }
    }
  }
}
