/** `create_all_courses_dictionary`: fill every course that has no
    prerequisite lists yet, register it under its code unless the code is
    taken, and (when recursing) do the same for its prerequisites that are
    not yet registered. */
module Builder {
  import opened Wrappers
  import opened Seqs
  import opened Pages
  import opened Courses
  import opened Registries

  // ---------------------------------------------------------------- specification predicates

  /** Every course of the list is one of `objs`. */
  ghost predicate AllIn(cs: seq<Course>, objs: set<Course>) {
    forall i :: 0 <= i < |cs| ==> cs[i] in objs
  }

  /** The lists of every filled course in `objs` point into `objs`. */
  ghost predicate Closed(objs: set<Course>)
    reads objs
  {
    forall o :: o in objs && o.Filled() ==> AllIn(o.required.value, objs) && AllIn(o.recommended.value, objs)
  }

  ghost predicate CodesWithin(objs: set<Course>, universe: set<string>) {
    forall o :: o in objs ==> o.code in universe
  }

  /** The code of every course of the list is registered in `r`. */
  predicate CodesRegistered(cs: seq<Course>, r: Registry) {
    forall i :: 0 <= i < |cs| ==> cs[i].code in r.entries
  }

  /** Every code a filled course lists, required or recommended, is
      registered in `r`. */
  ghost predicate ListsRegistered(o: Course, r: Registry)
    reads o
  {
    o.Filled() && CodesRegistered(o.required.value, r) && CodesRegistered(o.recommended.value, r)
  }

  /** Every course is registered under its own code. */
  predicate Keyed(r: Registry) {
    forall k :: k in r.entries ==> r.entries[k].code == k
  }

  /** The courses `r` registers beyond `base` are filled objects of `objs`
      and, when recursing, every code they list is registered too. */
  ghost predicate NewEntriesGood(r: Registry, base: Registry, objs: set<Course>, recurse: bool)
    reads objs
  {
    forall k :: k in r.entries && k !in base.entries ==>
      && r.entries[k] in objs
      && r.entries[k].Filled()
      && (recurse ==> ListsRegistered(r.entries[k], r))
  }

  /** Courses of `objs` change only by being filled. */
  twostate predicate OnlyFilled(objs: set<Course>)
    reads objs
  {
    forall o :: o in objs ==>
      || (o.required == old(o.required) && o.recommended == old(o.recommended))
      || (!old(o.Filled()) && o.Filled())
  }

  /** Registered lists stay registered in a larger registry while the course
      keeps its lists. */
  lemma ListsRegisteredMono(o: Course, r: Registry, big: Registry)
    requires ListsRegistered(o, r) && r.KeySet() <= big.KeySet()
    ensures ListsRegistered(o, big)
  {
  }

  /** Filtering out the registered courses loses nothing once the rest are
      registered too. */
  lemma FilterCovers(cs: seq<Course>, r: Registry, big: Registry)
    requires CodesRegistered(Unregistered(cs, r), big) && r.KeySet() <= big.KeySet()
    ensures CodesRegistered(cs, big)
  {
    var xs := Unregistered(cs, r);
    forall i | 0 <= i < |cs| ensures cs[i].code in big.entries {
      if cs[i].code !in r.entries {
        var a :| 0 <= a < |xs| && xs[a] == cs[i];
      }
    }
  }

  /** Every seed's code is still missing from `d`. */
  predicate AllNew(seeds: seq<Course>, d: Registry) {
    seeds != [] && forall i :: 0 <= i < |seeds| ==> seeds[i].code !in d.entries
  }

  /** Whether each course's code is still missing from `d`. */
  function UnregisteredFlags(cs: seq<Course>, d: Registry): (flags: seq<bool>)
    ensures |flags| == |cs|
  {
    seq(|cs|, i requires 0 <= i < |cs| => cs[i].code !in d.entries)
  }

  /** The courses whose code is not yet in `d`, in their order in `cs`,
      repeats kept: the list comprehension filtering before each recursion. */
  function Unregistered(cs: seq<Course>, d: Registry): (r: seq<Course>)
    ensures forall a :: 0 <= a < |r| ==> r[a] in cs && r[a].code !in d.entries
    ensures forall i :: 0 <= i < |cs| && cs[i].code !in d.entries ==> cs[i] in r
  {
    var flags := UnregisteredFlags(cs, d);
    var idx := Positions(flags);
    assert forall i :: 0 <= i < |cs| && flags[i] ==> cs[i] in Pick(cs, idx) by {
      forall i | 0 <= i < |cs| && flags[i] ensures cs[i] in Pick(cs, idx) {
        var a :| 0 <= a < |idx| && idx[a] == i;
        assert Pick(cs, idx)[a] == cs[i];
      }
    }
    Pick(cs, idx)
  }

  /** Filtering an empty list gives an empty list. */
  lemma UnregisteredEmpty(d: Registry)
    ensures Unregistered([], d) == []
  {
  }

  /** Filtering keeps order and repeats: one more course at the end is kept
      at the end exactly when its code is missing from `d`. */
  lemma UnregisteredSnoc(cs: seq<Course>, c: Course, d: Registry)
    ensures Unregistered(cs + [c], d) == Unregistered(cs, d) + (if c.code !in d.entries then [c] else [])
  {
    var xs := cs + [c];
    var flags, init := UnregisteredFlags(xs, d), UnregisteredFlags(cs, d);
    assert flags[..|cs|] == init by {
      forall i | 0 <= i < |cs| ensures flags[i] == init[i] {
        assert xs[i] == cs[i];
      }
    }
    assert flags[..|cs| + 1] == flags;
    PickPositionsSnoc(xs, flags, |cs|);
    var idx := Positions(init);
    assert Pick(xs, idx) == Pick(cs, idx) by {
      forall a | 0 <= a < |idx| ensures Pick(xs, idx)[a] == Pick(cs, idx)[a] {
        assert xs[idx[a]] == cs[idx[a]];
      }
    }
  }

  // ---------------------------------------------------------------- measure

  lemma {:induction false} SubsetCard(a: set<string>, b: set<string>)
    requires a <= b
    ensures |a| <= |b|
  {
    if a != {} {
      var x :| x in a;
      SubsetCard(a - {x}, b - {x});
    }
  }

  lemma MeasureMono(u: set<string>, a: set<string>, b: set<string>)
    requires a <= b
    ensures |u - b| <= |u - a|
  {
    SubsetCard(u - b, u - a);
  }

  lemma MeasureStrict(u: set<string>, a: set<string>, b: set<string>, x: string)
    requires a <= b && x in u && x in b && x !in a
    ensures |u - b| < |u - a|
  {
    SubsetCard(u - b, (u - a) - {x});
  }

  // ---------------------------------------------------------------- the builder

  /** The loop of `create_all_courses_dictionary` over `courses`, starting
      from a copy of `parent_courses`. `objs` is the set of courses the run
      may fill (closed under the prerequisite lists) and `universe` a set
      holding every code that can come up; both are ghost. */
  method Build(seeds: seq<Course>, parent: Registry, recurse: bool, catalog: Catalog,
               ghost objs: set<Course>, ghost universe: set<string>)
    returns (res: Result<Registry, Failure>, ghost created: set<Course>, ghost trace: seq<Registry>)
    requires parent.Valid() && Keyed(parent)
    requires AllIn(seeds, objs)
    requires Closed(objs) && CodesWithin(objs, universe) && TextCodes(catalog) <= universe
    modifies objs
    decreases |universe - parent.KeySet()|, if AllNew(seeds, parent) then 0 else 1, |seeds|, 7
    ensures fresh(created) && Closed(objs + created) && CodesWithin(created, universe)
    ensures OnlyFilled(objs)
    ensures res.Ok? ==>
              var r := res.value;
              && r.Valid() && Keyed(r) && Extends(r, parent)
              && CodesRegistered(seeds, r)
              && (forall i :: 0 <= i < |seeds| ==> seeds[i].Filled())
              && (recurse ==> forall i :: 0 <= i < |seeds| ==> ListsRegistered(seeds[i], r))
              && NewEntriesGood(r, parent, objs + created, recurse)
              && r.KeySet() - parent.KeySet() <= universe
              && (!recurse ==> r == Merge(parent, seeds))
    ensures res.Ok? ==> FirstWriteWins(seeds, |seeds|, parent, trace, res.value)
  {
    var reg := parent;
    created := {};
    trace := [parent];
    for i := 0 to |seeds|
      invariant reg.Valid() && Keyed(reg) && Extends(reg, parent)
      invariant fresh(created) && Closed(objs + created) && CodesWithin(created, universe)
      invariant OnlyFilled(objs)
      invariant forall j :: 0 <= j < i ==> seeds[j].code in reg.entries && seeds[j].Filled()
      invariant recurse ==> forall j :: 0 <= j < i ==> ListsRegistered(seeds[j], reg)
      invariant NewEntriesGood(reg, parent, objs + created, recurse)
      invariant reg.KeySet() - parent.KeySet() <= universe
      invariant !recurse ==> reg == Merge(parent, seeds[..i])
      invariant FirstWriteWins(seeds, i, parent, trace, reg)
    {
      var v, made := Iterate(seeds, i, reg, recurse, catalog, objs + created, universe, parent, trace);
      if v.Err? {
        return Err(v.error), created + made, trace;
      }
      reg := v.value;
      created := created + made;
      trace := trace + [reg];
    }
    assert seeds[..|seeds|] == seeds;
    return Ok(reg), created, trace;
  }

  /** First write wins across the first `n` iterations of the loop of
      `Build`: `trace[i]` is the registry before iteration `i` (starting from
      `parent`, ending at `r`), each one extends every earlier one, and a
      seed whose code was free when its iteration began is that code's entry
      at the end. */
  ghost predicate FirstWriteWins(seeds: seq<Course>, n: nat, parent: Registry, trace: seq<Registry>, r: Registry) {
    && n <= |seeds| && |trace| == n + 1 && trace[0] == parent && trace[n] == r
    && (forall i, j :: 0 <= i < j <= n ==> Extends(trace[j], trace[i]))
    && (forall i :: 0 <= i < n && seeds[i].code !in trace[i].entries ==>
          seeds[i].code in r.entries && r.entries[seeds[i].code] == seeds[i])
  }

  /** One more iteration that extends the registry and writes its seed when
      that seed's code was free keeps `FirstWriteWins`. */
  lemma FirstWriteWinsSnoc(seeds: seq<Course>, i: nat, parent: Registry, trace: seq<Registry>,
                           reg: Registry, r: Registry)
    requires i < |seeds| && FirstWriteWins(seeds, i, parent, trace, reg)
    requires Writes(seeds[i], reg, r)
    ensures FirstWriteWins(seeds, i + 1, parent, trace + [r], r)
  {
    var t := trace + [r];
    forall a, b | 0 <= a < b <= i + 1 ensures Extends(t[b], t[a]) {
      if b == i + 1 {
        if a < i {
          ExtendsTransitive(r, reg, trace[a]);
        }
      } else {
        assert t[a] == trace[a] && t[b] == trace[b];
      }
    }
    forall j | 0 <= j < i + 1 && seeds[j].code !in t[j].entries
      ensures seeds[j].code in r.entries && r.entries[seeds[j].code] == seeds[j]
    {
      if j < i {
        assert t[j] == trace[j];
      }
    }
  }

  /** Iteration `i` of the loop in `Build`, with the registries so far in
      `trace`: `Step`, which keeps first write wins. */
  method Iterate(seeds: seq<Course>, i: nat, reg: Registry, recurse: bool, catalog: Catalog,
                 ghost objs: set<Course>, ghost universe: set<string>, ghost parent: Registry,
                 ghost trace: seq<Registry>)
    returns (res: Result<Registry, Failure>, ghost created: set<Course>)
    requires i < |seeds| && AllIn(seeds, objs)
    requires reg.Valid() && Keyed(reg) && Extends(reg, parent)
    requires Closed(objs) && CodesWithin(objs, universe) && TextCodes(catalog) <= universe
    requires forall j :: 0 <= j < i ==> seeds[j].code in reg.entries && seeds[j].Filled()
    requires recurse ==> forall j :: 0 <= j < i ==> ListsRegistered(seeds[j], reg)
    requires NewEntriesGood(reg, parent, objs, recurse)
    requires reg.KeySet() - parent.KeySet() <= universe
    requires !recurse ==> reg == Merge(parent, seeds[..i])
    requires FirstWriteWins(seeds, i, parent, trace, reg)
    modifies objs
    decreases |universe - parent.KeySet()|, if AllNew(seeds, parent) then 0 else 1, |seeds|, 6
    ensures fresh(created) && Closed(objs + created) && CodesWithin(created, universe)
    ensures OnlyFilled(objs)
    ensures res.Ok? ==>
              var r := res.value;
              && r.Valid() && Keyed(r) && Extends(r, parent)
              && (forall j :: 0 <= j < i + 1 ==> seeds[j].code in r.entries && seeds[j].Filled())
              && (recurse ==> forall j :: 0 <= j < i + 1 ==> ListsRegistered(seeds[j], r))
              && NewEntriesGood(r, parent, objs + created, recurse)
              && r.KeySet() - parent.KeySet() <= universe
              && (!recurse ==> r == Merge(parent, seeds[..i + 1]))
              && FirstWriteWins(seeds, i + 1, parent, trace + [r], r)
  {
    res, created := Step(seeds, i, reg, recurse, catalog, objs, universe, parent);
    if res.Ok? {
      FirstWriteWinsSnoc(seeds, i, parent, trace, reg, res.value);
    }
  }

  /** Iteration `i` of the loop in `Build`: visit `seeds[i]` on top of the
      registry so far; the seeds already visited keep their (filled) lists. */
  method Step(seeds: seq<Course>, i: nat, reg: Registry, recurse: bool, catalog: Catalog,
              ghost objs: set<Course>, ghost universe: set<string>, ghost parent: Registry)
    returns (res: Result<Registry, Failure>, ghost created: set<Course>)
    requires i < |seeds| && AllIn(seeds, objs)
    requires reg.Valid() && Keyed(reg) && Extends(reg, parent)
    requires Closed(objs) && CodesWithin(objs, universe) && TextCodes(catalog) <= universe
    requires forall j :: 0 <= j < i ==> seeds[j].code in reg.entries && seeds[j].Filled()
    requires recurse ==> forall j :: 0 <= j < i ==> ListsRegistered(seeds[j], reg)
    requires NewEntriesGood(reg, parent, objs, recurse)
    requires reg.KeySet() - parent.KeySet() <= universe
    requires !recurse ==> reg == Merge(parent, seeds[..i])
    modifies objs
    decreases |universe - parent.KeySet()|, if AllNew(seeds, parent) then 0 else 1, |seeds|, 5
    ensures fresh(created) && Closed(objs + created) && CodesWithin(created, universe)
    ensures OnlyFilled(objs)
    ensures res.Ok? ==>
              var r := res.value;
              && r.Valid() && Keyed(r) && Extends(r, parent)
              && (forall j :: 0 <= j < i + 1 ==> seeds[j].code in r.entries && seeds[j].Filled())
              && (recurse ==> forall j :: 0 <= j < i + 1 ==> ListsRegistered(seeds[j], r))
              && NewEntriesGood(r, parent, objs + created, recurse)
              && r.KeySet() - parent.KeySet() <= universe
              && (!recurse ==> r == Merge(parent, seeds[..i + 1]))
    ensures res.Ok? ==> Writes(seeds[i], reg, res.value)
  {
    res, created := Visit(seeds[i], reg, recurse, catalog, objs, universe,
                          parent, AllNew(seeds, parent), |seeds|);
    if res.Ok? {
      var r := res.value;
      ExtendsTransitive(r, reg, parent);
      assert seeds[..i + 1][..i] == seeds[..i];
      forall j | 0 <= j < i
        ensures seeds[j].Filled() && (recurse ==> ListsRegistered(seeds[j], r))
      {
        var o := seeds[j];
        assert old(o.Filled()) && o in objs;
        assert o.required == old(o.required) && o.recommended == old(o.recommended);
        if recurse {
          assert CodesRegistered(o.required.value, reg) && CodesRegistered(o.recommended.value, reg);
          ListsRegisteredMono(o, reg, r);
        }
      }
    }
  }

  /** `r` extends `reg` and, if the code of `c` was free in `reg`, maps it to `c`. */
  ghost predicate Writes(c: Course, reg: Registry, r: Registry) {
    && Extends(r, reg)
    && (c.code !in reg.entries ==> c.code in r.entries && r.entries[c.code] == c)
  }

  /** `fill_course_prereqs(c)`, seen from the registry: on success `c` is
      filled with fresh, unfilled stubs whose codes occur in the catalog's
      text, hence in `universe`; on failure `c` is left as it was. */
  method FillWithin(c: Course, catalog: Catalog, ghost universe: set<string>)
    returns (res: Result<Course, Failure>, ghost created: set<Course>)
    requires TextCodes(catalog) <= universe
    modifies c
    ensures res.Ok? ==> && res.value == c && c.Filled()
                        && created == (set x | x in c.required.value) + (set x | x in c.recommended.value)
    ensures var pr := PagePrereqs(Fetch(catalog, c.urlid));
            && (res.Ok? <==> pr.Ok?)
            && (res.Ok? ==> && Infos(c.required.value) == pr.value.required
                            && Infos(c.recommended.value) == pr.value.recommended)
            && (res.Err? ==> res.error == pr.error)
    ensures fresh(created) && CodesWithin(created, universe)
    ensures forall o :: o in created ==> !o.Filled()
    ensures res.Err? ==> created == {} && c.required == old(c.required) && c.recommended == old(c.recommended)
  {
    created := {};
    res := FillPrereqs(c, catalog);
    if res.Ok? {
      created := (set x | x in c.required.value) + (set x | x in c.recommended.value);
      PrereqCodesInText(catalog, c.urlid);
      forall o | o in created ensures !o.Filled() {
        assert o in c.required.value + c.recommended.value;
      }
      forall o | o in created ensures o.code in universe {
        if o in c.required.value {
          var i :| 0 <= i < |c.required.value| && c.required.value[i] == o;
          assert Infos(c.required.value)[i].code == o.code;
        } else {
          var i :| 0 <= i < |c.recommended.value| && c.recommended.value[i] == o;
          assert Infos(c.recommended.value)[i].code == o.code;
        }
      }
    }
  }

  /** Fill the course only when one of its lists is unset; a course already
      filled is left alone. */
  method FillIfUnset(c: Course, catalog: Catalog, ghost objs: set<Course>, ghost universe: set<string>)
    returns (res: Result<Course, Failure>, ghost created: set<Course>)
    requires c in objs && Closed(objs) && CodesWithin(objs, universe) && TextCodes(catalog) <= universe
    modifies c
    ensures fresh(created) && Closed(objs + created) && CodesWithin(created, universe)
    ensures forall o :: o in created ==> !o.Filled()
    ensures (c.required == old(c.required) && c.recommended == old(c.recommended))
            || (!old(c.Filled()) && c.Filled())
    ensures res.Ok? ==> res.value == c && c.Filled()
    ensures old(c.Filled()) ==> res.Ok?
    ensures !old(c.Filled()) ==>
              var pr := PagePrereqs(Fetch(catalog, c.urlid));
              && (res.Ok? <==> pr.Ok?)
              && (res.Ok? ==> && Infos(c.required.value) == pr.value.required
                              && Infos(c.recommended.value) == pr.value.recommended)
              && (res.Err? ==> res.error == pr.error)
    ensures res.Err? ==> c.required == old(c.required) && c.recommended == old(c.recommended)
  {
    created := {};
    if c.Filled() {
      return Ok(c), created;
    }
    res, created := FillWithin(c, catalog, universe);
    if res.Ok? {
      forall o | o in objs + created && o.Filled()
        ensures AllIn(o.required.value, objs + created) && AllIn(o.recommended.value, objs + created)
      {
        if o != c {
          assert o in objs && old(o.Filled());
        }
      }
    }
  }

  /** One pass of the loop body for course `c`: fill it if unset, register
      it if its code is free, then (when recursing) build from its
      unregistered prerequisites. `top`, `topAllNew` and `n` carry the
      caller's termination measure. */
  method Visit(c: Course, reg: Registry, recurse: bool, catalog: Catalog,
               ghost objs: set<Course>, ghost universe: set<string>,
               ghost top: Registry, ghost topAllNew: bool, ghost n: nat)
    returns (res: Result<Registry, Failure>, ghost created: set<Course>)
    requires reg.Valid() && Keyed(reg)
    requires NewEntriesGood(reg, top, objs, recurse)
    requires c in objs && Closed(objs) && CodesWithin(objs, universe) && TextCodes(catalog) <= universe
    requires top.KeySet() <= reg.KeySet() && n >= 1
    requires topAllNew ==> c.code !in top.entries
    modifies objs
    decreases |universe - top.KeySet()|, if topAllNew then 0 else 1, n, 4
    ensures fresh(created) && Closed(objs + created) && CodesWithin(created, universe)
    ensures OnlyFilled(objs)
    ensures res.Ok? ==>
              var r := res.value;
              && r.Valid() && Keyed(r) && Extends(r, reg)
              && c.code in r.entries && c.Filled()
              && (c.code !in reg.entries ==> r.entries[c.code] == c)
              && (recurse ==> ListsRegistered(c, r))
              && NewEntriesGood(r, top, objs + created, recurse)
              && r.KeySet() - reg.KeySet() <= universe
              && (!recurse ==> r == reg.Register(c))
  {
    res, created := Enter(c, reg, recurse, catalog, objs, universe, top);
    if res.Err? || !recurse {
      return;
    }
    ghost var made;
    res, made := Deepen(c, reg, res.value, catalog, objs + created, universe, top, topAllNew, n);
    created := created + made;
  }

  /** The first half of `Visit`: fill `c` if unset and register it if its
      code is free. Only `c` may change, so the entries `reg` added over
      `top` keep their lists. */
  method Enter(c: Course, reg: Registry, recurse: bool, catalog: Catalog,
               ghost objs: set<Course>, ghost universe: set<string>, ghost top: Registry)
    returns (res: Result<Registry, Failure>, ghost created: set<Course>)
    requires reg.Valid() && Keyed(reg)
    requires NewEntriesGood(reg, top, objs, recurse)
    requires c in objs && Closed(objs) && CodesWithin(objs, universe) && TextCodes(catalog) <= universe
    modifies c
    ensures fresh(created) && Closed(objs + created) && CodesWithin(created, universe)
    ensures (c.required == old(c.required) && c.recommended == old(c.recommended))
            || (!old(c.Filled()) && c.Filled())
    ensures NewEntriesGood(reg, top, objs + created, recurse)
    ensures res.Ok? ==>
              var r := res.value;
              && r == reg.Register(c) && c.Filled()
              && r.Valid() && Keyed(r) && Extends(r, reg)
              && c.code in r.entries && r.KeySet() - reg.KeySet() <= universe
              && (forall k :: k in r.entries && k !in reg.entries ==> r.entries[k] == c)
              && NewEntriesGood(r, top, objs + created, false)
  {
    var f;
    f, created := FillIfUnset(c, catalog, objs, universe);
    if f.Err? {
      return Err(f.error), created;
    }
    assert NewEntriesGood(reg, top, objs + created, recurse);
    RegisterGood(reg, c, top, objs + created, recurse);
    return Ok(reg.Register(c)), created;
  }

  /** Registering a filled course keeps the registry valid and keyed, adds
      at most its code, and the new entry is that course. */
  lemma RegisterGood(reg: Registry, c: Course, top: Registry, objs: set<Course>, recurse: bool)
    requires reg.Valid() && Keyed(reg) && NewEntriesGood(reg, top, objs, recurse)
    requires c in objs && c.Filled()
    ensures var r := reg.Register(c);
            && r.Valid() && Keyed(r) && Extends(r, reg)
            && c.code in r.entries && r.KeySet() - reg.KeySet() <= {c.code}
            && (forall k :: k in r.entries && k !in reg.entries ==> r.entries[k] == c)
            && NewEntriesGood(r, top, objs, false)
  {
    SetValid(reg, c.code, c);
  }

  /** The recursive half of `Visit`: descend from `c`, freshly registered in
      `r`, and carry the entries `reg` added over `top` across the
      recursion (their lists are filled, hence left alone). */
  method Deepen(c: Course, reg: Registry, r: Registry, catalog: Catalog,
                ghost objs: set<Course>, ghost universe: set<string>,
                ghost top: Registry, ghost topAllNew: bool, ghost n: nat)
    returns (res: Result<Registry, Failure>, ghost created: set<Course>)
    requires r.Valid() && Keyed(r) && Extends(r, reg)
    requires r.KeySet() - reg.KeySet() <= universe
    requires NewEntriesGood(reg, top, objs, true)
    requires c in objs && c.Filled() && c.code in r.entries
    requires forall k :: k in r.entries && k !in reg.entries ==> r.entries[k] == c
    requires Closed(objs) && CodesWithin(objs, universe) && TextCodes(catalog) <= universe
    requires top.KeySet() <= reg.KeySet() && n >= 1
    requires topAllNew ==> c.code !in top.entries
    modifies objs
    decreases |universe - top.KeySet()|, if topAllNew then 0 else 1, n, 3
    ensures fresh(created) && Closed(objs + created) && CodesWithin(created, universe)
    ensures OnlyFilled(objs)
    ensures res.Ok? ==>
              var r2 := res.value;
              && r2.Valid() && Keyed(r2) && Extends(r2, reg) && Extends(r2, r)
              && c.code in r2.entries && ListsRegistered(c, r2)
              && NewEntriesGood(r2, top, objs + created, true)
              && r2.KeySet() - reg.KeySet() <= universe
  {
    res, created := Descend(c, r, catalog, objs, universe, top, topAllNew, n);
    if res.Ok? {
      var r2 := res.value;
      forall k | k in r2.entries && k !in top.entries && k in reg.entries
        ensures r2.entries[k] in objs + created && r2.entries[k].Filled() && ListsRegistered(r2.entries[k], r2)
      {
        var o := reg.entries[k];
        assert old(o.Filled() && ListsRegistered(o, reg)) && o in objs;
        assert o.required == old(o.required) && o.recommended == old(o.recommended);
        assert CodesRegistered(o.required.value, reg) && CodesRegistered(o.recommended.value, reg);
        ListsRegisteredMono(o, reg, r2);
      }
    }
  }

  /** The recursive part of the loop body for a filled, registered course:
      both filtered lists are computed first, then each is built on top of
      the registry so far and merged back with `update`. */
  method Descend(c: Course, r: Registry, catalog: Catalog,
                 ghost objs: set<Course>, ghost universe: set<string>,
                 ghost top: Registry, ghost topAllNew: bool, ghost n: nat)
    returns (res: Result<Registry, Failure>, ghost created: set<Course>)
    requires r.Valid() && Keyed(r)
    requires c in objs && c.Filled() && c.code in r.entries
    requires Closed(objs) && CodesWithin(objs, universe) && TextCodes(catalog) <= universe
    requires top.KeySet() <= r.KeySet() && n >= 1
    requires topAllNew ==> c.code !in top.entries
    modifies objs
    decreases |universe - top.KeySet()|, if topAllNew then 0 else 1, n, 2
    ensures fresh(created) && Closed(objs + created) && CodesWithin(created, universe)
    ensures OnlyFilled(objs)
    ensures res.Ok? ==>
              var r2 := res.value;
              && r2.Valid() && Keyed(r2) && Extends(r2, r)
              && ListsRegistered(c, r2)
              && NewEntriesGood(r2, r, objs + created, true)
              && r2.KeySet() - r.KeySet() <= universe
  {
    var reqNew := Unregistered(c.required.value, r);
    var rcoNew := Unregistered(c.recommended.value, r);
    var r1;
    r1, created := BuildOn(reqNew, r, catalog, objs, universe, r, top, topAllNew, n, c.code);
    if r1.Err? {
      return r1, created;
    }
    assert c.required == old(c.required) && c.recommended == old(c.recommended);
    ghost var made;
    res, made := BuildRecommended(c, r, r1.value, rcoNew, catalog, objs + created, universe, top, topAllNew, n);
    assert objs + (created + made) == objs + created + made;
    created := created + made;
  }

  /** The second half of `Descend`: with the required list registered in
      `r1`, build the recommended list filtered against `r`. */
  method BuildRecommended(c: Course, r: Registry, r1: Registry, rcoNew: seq<Course>, catalog: Catalog,
                          ghost objs: set<Course>, ghost universe: set<string>,
                          ghost top: Registry, ghost topAllNew: bool, ghost n: nat)
    returns (res: Result<Registry, Failure>, ghost created: set<Course>)
    requires r1.Valid() && Keyed(r1) && Extends(r1, r)
    requires c in objs && c.Filled() && c.code in r.entries
    requires CodesRegistered(Unregistered(c.required.value, r), r1)
    requires rcoNew == Unregistered(c.recommended.value, r)
    requires NewEntriesGood(r1, r, objs, true) && r1.KeySet() - r.KeySet() <= universe
    requires Closed(objs) && CodesWithin(objs, universe) && TextCodes(catalog) <= universe
    requires top.KeySet() <= r.KeySet() && n >= 1
    requires topAllNew ==> c.code !in top.entries
    modifies objs
    decreases |universe - top.KeySet()|, if topAllNew then 0 else 1, n, 1
    ensures fresh(created) && Closed(objs + created) && CodesWithin(created, universe)
    ensures OnlyFilled(objs)
    ensures res.Ok? ==>
              var r2 := res.value;
              && r2.Valid() && Keyed(r2) && Extends(r2, r)
              && ListsRegistered(c, r2)
              && NewEntriesGood(r2, r, objs + created, true)
              && r2.KeySet() - r.KeySet() <= universe
  {
    res, created := BuildOn(rcoNew, r1, catalog, objs, universe, r, top, topAllNew, n, c.code);
    if res.Ok? {
      ExtendsTransitive(res.value, r1, r);
      assert c.required == old(c.required) && c.recommended == old(c.recommended);
      FilterCovers(c.required.value, r, res.value);
      FilterCovers(c.recommended.value, r, res.value);
    }
  }

  /** The measure of the recursive call in `BuildOn` is below the caller's:
      fewer unregistered codes when the caller's seeds were all new or some
      of `xs` is already registered, and never more. */
  lemma BuildOnMeasure(xs: seq<Course>, r: Registry, universe: set<string>,
                       top: Registry, topAllNew: bool, marker: string)
    requires top.KeySet() <= r.KeySet()
    requires forall i :: 0 <= i < |xs| ==> xs[i].code in universe && xs[i].code !in top.entries
    requires topAllNew ==> marker in r.entries && marker !in top.entries && marker in universe
    ensures |universe - r.KeySet()| <= |universe - top.KeySet()|
    ensures topAllNew || (!AllNew(xs, r) && xs != []) ==> |universe - r.KeySet()| < |universe - top.KeySet()|
  {
    if topAllNew {
      MeasureStrict(universe, top.KeySet(), r.KeySet(), marker);
    } else if !AllNew(xs, r) && xs != [] {
      var i :| 0 <= i < |xs| && xs[i].code in r.entries;
      MeasureStrict(universe, top.KeySet(), r.KeySet(), xs[i].code);
    } else {
      MeasureMono(universe, top.KeySet(), r.KeySet());
    }
  }

  /** `all_courses.update(create_all_courses_dictionary(xs, all_courses))`
      for a list `xs` filtered against `base`, an earlier state of the
      registry `r`. */
  method BuildOn(xs: seq<Course>, r: Registry, catalog: Catalog,
                 ghost objs: set<Course>, ghost universe: set<string>,
                 ghost base: Registry, ghost top: Registry, ghost topAllNew: bool, ghost n: nat,
                 ghost marker: string)
    returns (res: Result<Registry, Failure>, ghost created: set<Course>)
    requires r.Valid() && Keyed(r)
    requires AllIn(xs, objs) && forall i :: 0 <= i < |xs| ==> xs[i].code !in base.entries
    requires NewEntriesGood(r, base, objs, true)
    requires Closed(objs) && CodesWithin(objs, universe) && TextCodes(catalog) <= universe
    requires top.KeySet() <= base.KeySet() <= r.KeySet() && n >= 1
    requires topAllNew ==> marker in base.entries && marker !in top.entries && marker in universe
    modifies objs
    decreases |universe - top.KeySet()|, if topAllNew then 0 else 1, n, 0
    ensures fresh(created) && Closed(objs + created) && CodesWithin(created, universe)
    ensures OnlyFilled(objs)
    ensures res.Ok? ==>
              var r2 := res.value;
              && r2.Valid() && Keyed(r2) && Extends(r2, r)
              && CodesRegistered(xs, r2)
              && NewEntriesGood(r2, base, objs + created, true)
              && r2.KeySet() - r.KeySet() <= universe
  {
    BuildOnMeasure(xs, r, universe, top, topAllNew, marker);
    var sub;
    ghost var trace;
    sub, created, trace := Build(xs, r, true, catalog, objs, universe);
    if sub.Err? {
      return Err(sub.error), created;
    }
    UpdateByExtension(r, sub.value);
    var r2 := sub.value;
    forall k | k in r2.entries && k !in base.entries && k in r.entries
      ensures r2.entries[k] in objs + created && r2.entries[k].Filled() && ListsRegistered(r2.entries[k], r2)
    {
      var o := r.entries[k];
      assert old(o.Filled() && ListsRegistered(o, r)) && o in objs;
      assert o.required == old(o.required) && o.recommended == old(o.recommended);
      assert CodesRegistered(o.required.value, r) && CodesRegistered(o.recommended.value, r);
      ListsRegisteredMono(o, r, r2);
    }
    return Ok(Update(r, sub.value)), created;
  }

  /** The dictionary the build starts from: a new empty one, or a copy of
      `parent_courses`. */
  function Start(parentCourses: Option<Registry>): (r: Registry)
    ensures parentCourses.None? ==> r.Valid() && r.keys == [] && r.entries == map[]
    ensures parentCourses.Some? ==> r == parentCourses.value
  {
    if parentCourses.None? then EmptyRegistry() else parentCourses.value
  }

  /** The codes of the given courses. */
  ghost function CodesOf(objs: set<Course>): set<string> {
    set o | o in objs :: o.code
  }

  /** `create_all_courses_dictionary(courses, parent_courses, recurse)`.
      `objs` is any set of courses holding `courses` and closed under the
      filled prerequisite lists (the courses reachable from `courses`).
      The dictionary returned extends the start one, holds every course
      of `courses` with its lists set, and, when recursing, the lists of
      every course it holds are registered in it; every code it adds is
      the code of a reachable course or is written on a catalog page.
      Without recursion it is the first-write-wins merge of `courses`; with
      it, `trace` holds the dictionary before each iteration and every course
      whose code was free when its iteration began is that code's entry. */
  method CreateAllCoursesDictionary(courses: seq<Course>, parentCourses: Option<Registry>, recurse: bool,
                                    catalog: Catalog, ghost objs: set<Course>)
    returns (res: Result<Registry, Failure>, ghost trace: seq<Registry>)
    requires Start(parentCourses).Valid() && Keyed(Start(parentCourses))
    requires AllIn(courses, objs) && Closed(objs)
    modifies objs
    ensures OnlyFilled(objs)
    ensures res.Ok? ==>
              var r, start := res.value, Start(parentCourses);
              && r.Valid() && Keyed(r) && Extends(r, start)
              && (forall i :: 0 <= i < |courses| ==> courses[i].code in r.entries && courses[i].Filled())
              && (recurse ==> forall i :: 0 <= i < |courses| ==> ListsRegistered(courses[i], r))
              && (forall k :: k in r.entries && k !in start.entries ==> r.entries[k].Filled())
              && (recurse ==> forall k :: k in r.entries && k !in start.entries ==> ListsRegistered(r.entries[k], r))
              && r.KeySet() - start.KeySet() <= CodesOf(objs) + TextCodes(catalog)
              && (!recurse ==> r == Merge(start, courses))
    ensures res.Ok? ==> FirstWriteWins(courses, |courses|, Start(parentCourses), trace, res.value)
  {
    ghost var universe := CodesOf(objs) + TextCodes(catalog);
    ghost var created;
    res, created, trace := Build(courses, Start(parentCourses), recurse, catalog, objs, universe);
  }
}
