/** The catalog pages as the parser sees them, with HTML replaced by abstract
    rows and sibling nodes, and the two parsing rules as specification
    functions: which subject-table rows become course stubs
    (`get_subject_courses`) and how the walk over the siblings of the first
    "MUST"/"RECOMMEND" text node classifies prerequisites
    (`fill_course_prereqs`). */
module Pages {
  import opened Wrappers
  import opened Text
  import opened CourseCodes
  import opened Seqs

  /** The first `<a>` inside a table cell: its `href` attribute, if present,
      and its text. */
  datatype Anchor = Anchor(href: Option<string>, text: string)

  /** A `<td>`: its text and the first anchor inside it. */
  datatype Cell = Cell(text: string, link: Option<Anchor>)

  /** A `<tr>`: its `<td>` cells. */
  type Row = seq<Cell>

  /** A child of the element that holds the classification markers: its
      serialised markup, its `.text` (absent where the parser raises
      AttributeError for it) and its `href` attribute. */
  datatype Node = Node(markup: string, text: Option<string>, href: Option<string>)

  /** A fetched page: every table row, and the children of the parent of the
      first text node that contains "MUST" or "RECOMMEND" (absent when no
      text node does). */
  datatype Page = Page(rows: seq<Row>, block: Option<seq<Node>>)

  /** The catalog: page id to page. */
  type Catalog = map<string, Page>

  /** A page the catalog does not hold parses as an empty document. */
  function Fetch(catalog: Catalog, urlid: string): (p: Page)
    ensures urlid in catalog ==> p == catalog[urlid]
    ensures urlid !in catalog ==> p.rows == [] && p.block.None?
  {
    if urlid in catalog then catalog[urlid] else Page([], None)
  }

  /** The exceptions that escape the parser and stop the run. */
  datatype Failure =
    | NoLink   // the third cell of a matching row has no anchor: `None["href"]` raises TypeError
    | NoHref   // an anchor or a classified sibling has no href: `x["href"]` raises KeyError/TypeError

  /** What `Course(code=..., urlid=..., title=...)` is built from. */
  datatype Stub = Stub(code: string, urlid: string, title: string)

  // ---------------------------------------------------------------- subject list

  /** One row of a subject table: `Ok(None)` when the row is skipped because
      IndexError or AttributeError was caught, `Err` when another exception
      escapes. */
  function RowStub(row: Row): (r: Result<Option<Stub>, Failure>)
    ensures (|row| < 3 || MatchStart(row[0].text).None?) ==> r == Ok(None)
    ensures r.Err? ==> (r.error == NoLink <==> row[2].link.None?)
  {
    if |row| == 0 then Ok(None)
    else match MatchStart(row[0].text)
      case None => Ok(None)
      case Some(code) =>
        if |row| < 3 then Ok(None)
        else match row[2].link
          case None => Err(NoLink)
          case Some(a) => match a.href
            case None => Err(NoHref)
            case Some(h) => Ok(Some(Stub(code, h, a.text)))
  }

  /** The stubs of a subject page's rows, in row order; the first escaping
      exception aborts the whole list. */
  function SubjectStubs(rows: seq<Row>): (r: Result<seq<Stub>, Failure>)
    ensures r.Ok? <==> forall k :: 0 <= k < |rows| ==> RowStub(rows[k]).Ok?
    ensures r.Ok? ==> |r.value| <= |rows|
  {
    if rows == [] then Ok([])
    else
      var prev := SubjectStubs(rows[..|rows| - 1]);
      var last := RowStub(rows[|rows| - 1]);
      assert forall k :: 0 <= k < |rows| - 1 ==> rows[..|rows| - 1][k] == rows[k];
      if prev.Err? then prev
      else match last
        case Err(e) => Err(e)
        case Ok(None) => prev
        case Ok(Some(s)) => Ok(prev.value + [s])
  }

  /** The row indices that yield a stub, in increasing order. */
  function StubRows(rows: seq<Row>): (idx: seq<nat>)
    ensures forall a :: 0 <= a < |idx| ==> idx[a] < |rows|
    ensures forall a, b :: 0 <= a < b < |idx| ==> idx[a] < idx[b]
    ensures forall k :: 0 <= k < |rows| ==> (k in idx <==> RowStub(rows[k]).Ok? && RowStub(rows[k]).value.Some?)
  {
    if rows == [] then []
    else
      var prev := StubRows(rows[..|rows| - 1]);
      assert forall k :: 0 <= k < |rows| - 1 ==> rows[..|rows| - 1][k] == rows[k];
      var last := RowStub(rows[|rows| - 1]);
      if last.Ok? && last.value.Some? then prev + [|rows| - 1] else prev
  }

  /** A successful parse keeps exactly the rows whose first cell starts with a
      code and that have a third cell with a linked href (see `RowStub`), in
      row order; each stub carries the code, the link target and the link
      text of its row. */
  lemma {:induction false} SubjectStubsAreRowStubs(rows: seq<Row>)
    requires SubjectStubs(rows).Ok?
    ensures var stubs, idx := SubjectStubs(rows).value, StubRows(rows);
            && |stubs| == |idx|
            && forall a :: 0 <= a < |idx| ==> RowStub(rows[idx[a]]) == Ok(Some(stubs[a]))
  {
    if rows != [] {
      var init := rows[..|rows| - 1];
      assert forall k :: 0 <= k < |rows| - 1 ==> init[k] == rows[k];
      SubjectStubsAreRowStubs(init);
    }
  }

  /** Which rows yield a stub: a row with at least three cells and a code at
      the start of its first cell is never skipped; it fails with NoLink
      exactly when its third cell has no link, and yields a stub exactly when
      that link has an href. */
  lemma RowStubCases(row: Row)
    ensures |row| >= 3 && MatchStart(row[0].text).Some? ==> RowStub(row) != Ok(None)
    ensures RowStub(row) == Err(NoLink) <==> |row| >= 3 && MatchStart(row[0].text).Some? && row[2].link.None?
    ensures (RowStub(row).Ok? && RowStub(row).value.Some?) <==>
              && |row| >= 3 && MatchStart(row[0].text).Some?
              && row[2].link.Some? && row[2].link.value.href.Some?
  {
  }

  /** The stub of a row, when there is one, names a recognised code found at
      the start of the first cell and the target and text of the third cell's
      link. */
  lemma RowStubFromFirstAndThirdCell(row: Row)
    requires RowStub(row).Ok? && RowStub(row).value.Some?
    ensures var s := RowStub(row).value.value;
            && |row| >= 3
            && IsCode(s.code) && MatchStart(row[0].text) == Some(s.code)
            && row[2].link.Some? && row[2].link.value.href == Some(s.urlid)
            && s.title == row[2].link.value.text
  {
  }

  // ---------------------------------------------------------------- prerequisite walk

  /** The walk's `state`: "", "must" or "reco". */
  datatype Section = Unclassified | Must | Recommend

  predicate IsMarker(n: Node) {
    Contains(n.markup, "MUST") || Contains(n.markup, "RECOMMEND")
  }

  /** The state after looking at one sibling: a marker switches it ("MUST"
      first), anything else leaves it. */
  function Step(st: Section, n: Node): (s: Section)
    ensures !IsMarker(n) ==> s == st
    ensures IsMarker(n) ==> s != Unclassified
  {
    if Contains(n.markup, "MUST") then Must
    else if Contains(n.markup, "RECOMMEND") then Recommend
    else st
  }

  /** The state after the given siblings, starting from "". */
  function StateAfter(nodes: seq<Node>): Section {
    if nodes == [] then Unclassified
    else Step(StateAfter(nodes[..|nodes| - 1]), nodes[|nodes| - 1])
  }

  /** The title of a prerequisite sibling: its text up to the character before
      the code, with surrounding whitespace removed. */
  function Title(text: string, start: nat): (t: string)
    requires start < |text|
    ensures start == 0 ==> t == Strip(text[..|text| - 1])
    ensures start > 0 ==> t == Strip(text[..start - 1])
  {
    Strip(SliceTo(text, start - 1))
  }

  /** The stub a non-marker sibling contributes while a section is active:
      `Ok(None)` when AttributeError is caught (no text, or no code in it),
      `Err` when reading its href raises. */
  function NodeStub(n: Node): (r: Result<Option<Stub>, Failure>)
    ensures r.Err? <==> n.text.Some? && Search(n.text.value).Some? && n.href.None?
    ensures r.Err? ==> r.error == NoHref
  {
    match n.text
    case None => Ok(None)
    case Some(t) =>
      match Search(t)
      case None => Ok(None)
      case Some(m) =>
        match n.href
        case None => Err(NoHref)
        case Some(h) => Ok(Some(Stub(m.code, h, Title(t, m.start))))
  }

  datatype Prereqs = Prereqs(required: seq<Stub>, recommended: seq<Stub>)

  /** One sibling of the walk: what the lists become after sibling `n` when
      the state before it is `st`. */
  function Extend(prev: Result<Prereqs, Failure>, st: Section, n: Node): (r: Result<Prereqs, Failure>)
    ensures prev.Err? ==> r == prev
    ensures r.Err? ==> prev.Err? || r.error == NoHref
  {
    if prev.Err? || IsMarker(n) || st == Unclassified then prev
    else match NodeStub(n)
      case Err(e) => Err(e)
      case Ok(None) => prev
      case Ok(Some(s)) =>
        if st == Must then Ok(prev.value.(required := prev.value.required + [s]))
        else Ok(prev.value.(recommended := prev.value.recommended + [s]))
  }

  /** The walk over the siblings, as the lists it appends to. */
  function Classify(nodes: seq<Node>): (r: Result<Prereqs, Failure>)
    ensures r.Err? ==> r.error == NoHref
  {
    if nodes == [] then Ok(Prereqs([], []))
    else
      var init := nodes[..|nodes| - 1];
      Extend(Classify(init), StateAfter(init), nodes[|nodes| - 1])
  }

  /** The walk and its state after one more sibling. */
  lemma ClassifySnoc(nodes: seq<Node>, i: nat)
    requires i < |nodes|
    ensures Classify(nodes[..i + 1]) == Extend(Classify(nodes[..i]), StateAfter(nodes[..i]), nodes[i])
    ensures StateAfter(nodes[..i + 1]) == Step(StateAfter(nodes[..i]), nodes[i])
  {
    assert nodes[..i + 1][..i] == nodes[..i];
  }

  /** What `fill_course_prereqs` stores for a page: both lists empty when no
      text node carries a marker, the walk's lists otherwise. */
  function PagePrereqs(p: Page): (r: Result<Prereqs, Failure>)
    ensures p.block.None? ==> r == Ok(Prereqs([], []))
    ensures r.Err? ==> r.error == NoHref
  {
    match p.block
    case None => Ok(Prereqs([], []))
    case Some(nodes) => Classify(nodes)
  }

  /** Sibling `k` contributes a stub to section `sec`: it is not a marker,
      the state before it is `sec`, and it carries a code. */
  predicate Contributes(nodes: seq<Node>, k: nat, sec: Section)
    requires k < |nodes|
  {
    && !IsMarker(nodes[k])
    && StateAfter(nodes[..k]) == sec
    && NodeStub(nodes[k]).Ok?
    && NodeStub(nodes[k]).value.Some?
  }

  /** Whether a sibling contributes does not depend on the siblings after it. */
  lemma ContributesInPrefix(nodes: seq<Node>, n: nat, k: nat, sec: Section)
    requires k < n <= |nodes|
    ensures Contributes(nodes[..n], k, sec) == Contributes(nodes, k, sec)
  {
    assert nodes[..n][k] == nodes[k] && nodes[..n][..k] == nodes[..k];
  }

  /** For each sibling, whether it contributes to `sec`. */
  function ContributorFlags(nodes: seq<Node>, sec: Section): (f: seq<bool>)
    ensures |f| == |nodes|
    ensures forall k :: 0 <= k < |nodes| ==> f[k] == Contributes(nodes, k, sec)
  {
    seq(|nodes|, k requires 0 <= k < |nodes| => Contributes(nodes, k, sec))
  }

  /** The indices of the siblings that contribute to `sec`, in document order. */
  function Contributors(nodes: seq<Node>, sec: Section): (idx: seq<nat>)
    ensures forall a :: 0 <= a < |idx| ==> idx[a] < |nodes| && Contributes(nodes, idx[a], sec)
    ensures forall a, b :: 0 <= a < b < |idx| ==> idx[a] < idx[b]
    ensures forall k :: 0 <= k < |nodes| && Contributes(nodes, k, sec) ==> k in idx
  {
    Positions(ContributorFlags(nodes, sec))
  }

  /** Contributors of a prefix are the contributors of the whole list that lie
      in the prefix. */
  lemma ContributorsSnoc(nodes: seq<Node>, sec: Section)
    requires nodes != []
    ensures var n := |nodes| - 1;
            Contributors(nodes, sec) ==
              Contributors(nodes[..n], sec) + (if Contributes(nodes, n, sec) then [n] else [])
  {
    var n := |nodes| - 1;
    var flags, short := ContributorFlags(nodes, sec), ContributorFlags(nodes[..n], sec);
    forall k | 0 <= k < n ensures flags[..n][k] == short[k] {
      ContributesInPrefix(nodes, n, k, sec);
    }
    assert flags[..n] == short;
    PositionsSnoc(flags, n);
    assert flags[..n + 1] == flags;
  }

  /** Every listed sibling carries a stub. */
  predicate CarryStubs(nodes: seq<Node>, idx: seq<nat>) {
    forall a :: 0 <= a < |idx| ==> idx[a] < |nodes| && NodeStub(nodes[idx[a]]).Ok? && NodeStub(nodes[idx[a]]).value.Some?
  }

  /** The stubs of the given siblings, in order. */
  function StubsAt(nodes: seq<Node>, idx: seq<nat>): seq<Stub>
    requires CarryStubs(nodes, idx)
  {
    seq(|idx|, a requires 0 <= a < |idx| => NodeStub(nodes[idx[a]]).value.value)
  }

  /** Appending one contributing sibling appends its stub. */
  lemma StubsAtSnoc(nodes: seq<Node>, idx: seq<nat>, k: nat)
    requires CarryStubs(nodes, idx)
    requires k < |nodes| && NodeStub(nodes[k]).Ok? && NodeStub(nodes[k]).value.Some?
    ensures CarryStubs(nodes, idx + [k])
    ensures StubsAt(nodes, idx + [k]) == StubsAt(nodes, idx) + [NodeStub(nodes[k]).value.value]
  {
    var r := idx + [k];
    forall a | 0 <= a < |r| ensures r[a] < |nodes| && NodeStub(nodes[r[a]]).Ok? && NodeStub(nodes[r[a]]).value.Some? {
      if a < |idx| { assert r[a] == idx[a]; }
    }
    var before, after := StubsAt(nodes, idx), StubsAt(nodes, r);
    forall a | 0 <= a < |idx| ensures after[a] == before[a] {
      assert r[a] == idx[a];
    }
  }

  /** Siblings of a prefix have the same stubs in the whole list. */
  lemma StubsAtPrefix(nodes: seq<Node>, n: nat, idx: seq<nat>)
    requires n <= |nodes| && CarryStubs(nodes[..n], idx)
    ensures CarryStubs(nodes, idx)
    ensures StubsAt(nodes[..n], idx) == StubsAt(nodes, idx)
  {
  }

  /** The walk fails exactly when a sibling it would classify has a code but
      no href. */
  lemma {:induction false} ClassifyFailsOnlyWithoutHref(nodes: seq<Node>)
    ensures Classify(nodes).Ok? <==> forall k :: 0 <= k < |nodes| ==> SiblingOk(nodes, k)
  {
    if nodes != [] {
      var n := |nodes| - 1;
      var init := nodes[..n];
      forall k | 0 <= k < n ensures SiblingOk(init, k) == SiblingOk(nodes, k) {
        assert init[k] == nodes[k] && init[..k] == nodes[..k];
      }
      ClassifyFailsOnlyWithoutHref(init);
      ClassifyLastOk(nodes);
    }
  }

  /** Sibling `k`, if the walk classifies it, yields no failure. */
  predicate SiblingOk(nodes: seq<Node>, k: nat)
    requires k < |nodes|
  {
    !IsMarker(nodes[k]) && StateAfter(nodes[..k]) != Unclassified ==> NodeStub(nodes[k]).Ok?
  }

  /** The walk succeeds on one more sibling exactly when it succeeded before
      and, if that sibling is classified, it yields no failure. */
  lemma ClassifyLastOk(nodes: seq<Node>)
    requires nodes != []
    ensures var n := |nodes| - 1;
            Classify(nodes).Ok? <==>
              && Classify(nodes[..n]).Ok?
              && SiblingOk(nodes, n)
  {
  }

  /** A successful walk puts in `required` the stubs of the siblings under a
      "MUST" marker and in `recommended` those under a "RECOMMEND" marker,
      each in document order. */
  lemma {:induction false} ClassifyCollectsContributors(nodes: seq<Node>)
    requires Classify(nodes).Ok?
    ensures CarryStubs(nodes, Contributors(nodes, Must)) && CarryStubs(nodes, Contributors(nodes, Recommend))
    ensures Classify(nodes).value.required == StubsAt(nodes, Contributors(nodes, Must))
    ensures Classify(nodes).value.recommended == StubsAt(nodes, Contributors(nodes, Recommend))
  {
    if nodes != [] {
      var n := |nodes| - 1;
      var init := nodes[..n];
      var prev := Classify(init);
      assert prev.Ok?;
      ClassifyCollectsContributors(init);
      var must, reco := Contributors(init, Must), Contributors(init, Recommend);
      ContributorsSnoc(nodes, Must);
      ContributorsSnoc(nodes, Recommend);
      StubsAtPrefix(nodes, n, must);
      StubsAtPrefix(nodes, n, reco);
      assert nodes[..n] == init;
      assert Classify(nodes) == Extend(prev, StateAfter(init), nodes[n]);
      if Contributes(nodes, n, Must) {
        StubsAtSnoc(nodes, must, n);
        assert !Contributes(nodes, n, Recommend);
        var s := NodeStub(nodes[n]).value.value;
        assert Classify(nodes).value == Prereqs(prev.value.required + [s], prev.value.recommended);
      } else if Contributes(nodes, n, Recommend) {
        StubsAtSnoc(nodes, reco, n);
        var s := NodeStub(nodes[n]).value.value;
        assert Classify(nodes).value == Prereqs(prev.value.required, prev.value.recommended + [s]);
      } else {
        assert Classify(nodes) == prev;
      }
    }
  }

  /** The state is "" until the first marker ... */
  lemma {:induction false} UnclassifiedBeforeMarkers(nodes: seq<Node>)
    requires forall k :: 0 <= k < |nodes| ==> !IsMarker(nodes[k])
    ensures StateAfter(nodes) == Unclassified
  {
    if nodes != [] {
      var init := nodes[..|nodes| - 1];
      assert forall k :: 0 <= k < |init| ==> init[k] == nodes[k];
      UnclassifiedBeforeMarkers(init);
    }
  }

  /** ... and afterwards is set by the last marker seen, "MUST" winning
      within one sibling: it never returns to "". */
  lemma {:induction false} LastMarkerDecides(nodes: seq<Node>, k: nat)
    requires k < |nodes| && IsMarker(nodes[k])
    requires forall l :: k < l < |nodes| ==> !IsMarker(nodes[l])
    ensures StateAfter(nodes) == (if Contains(nodes[k].markup, "MUST") then Must else Recommend)
  {
    var init := nodes[..|nodes| - 1];
    if k < |nodes| - 1 {
      assert init[k] == nodes[k];
      assert forall l :: k < l < |init| ==> init[l] == nodes[l];
      LastMarkerDecides(init, k);
      assert !IsMarker(nodes[|nodes| - 1]);
    }
  }

  /** A sibling is skipped exactly when it has no text or no code in its text;
      a sibling with a code and an href yields a stub, titled by the stripped
      text before the code. */
  lemma NodeStubCases(n: Node)
    ensures NodeStub(n) == Ok(None) <==> n.text.None? || Search(n.text.value).None?
    ensures (NodeStub(n).Ok? && NodeStub(n).value.Some?) <==>
              n.text.Some? && Search(n.text.value).Some? && n.href.Some?
    ensures NodeStub(n).Ok? && NodeStub(n).value.Some? ==>
              NodeStub(n).value.value.title == Title(n.text.value, Search(n.text.value).value.start)
  {
  }

  /** A sibling's stub names a recognised code: the leftmost one in its text. */
  lemma NodeStubCode(n: Node)
    requires NodeStub(n).Ok? && NodeStub(n).value.Some?
    ensures n.text.Some? && Search(n.text.value).Some?
    ensures NodeStub(n).value.value.code == Search(n.text.value).value.code
    ensures IsCode(NodeStub(n).value.value.code)
    ensures n.href == Some(NodeStub(n).value.value.urlid)
  {
  }

  /** The code-shaped substrings of the siblings' texts. */
  ghost function NodeCodes(nodes: seq<Node>): set<string> {
    set k, i, j | 0 <= k < |nodes| && nodes[k].text.Some? && 0 <= i <= j <= |nodes[k].text.value|
                  && IsCode(nodes[k].text.value[i..j]) :: nodes[k].text.value[i..j]
  }

  /** The code-shaped substrings of every sibling text in the catalog: a
      finite set that holds every code a page can list. */
  ghost function TextCodes(catalog: Catalog): set<string> {
    set u, x | u in catalog && catalog[u].block.Some? && x in NodeCodes(catalog[u].block.value) :: x
  }

  /** Every classified stub names a recognised code that occurs in the text
      of one of the siblings. */
  lemma ClassifiedCodesAreCodes(nodes: seq<Node>)
    requires Classify(nodes).Ok?
    ensures forall s :: s in Classify(nodes).value.required ==> IsCode(s.code) && s.code in NodeCodes(nodes)
    ensures forall s :: s in Classify(nodes).value.recommended ==> IsCode(s.code) && s.code in NodeCodes(nodes)
  {
    ClassifyCollectsContributors(nodes);
    var must, reco := Contributors(nodes, Must), Contributors(nodes, Recommend);
    forall a | 0 <= a < |must|
      ensures IsCode(StubsAt(nodes, must)[a].code) && StubsAt(nodes, must)[a].code in NodeCodes(nodes)
    {
      NodeStubCodeOccurs(nodes, must[a]);
    }
    forall a | 0 <= a < |reco|
      ensures IsCode(StubsAt(nodes, reco)[a].code) && StubsAt(nodes, reco)[a].code in NodeCodes(nodes)
    {
      NodeStubCodeOccurs(nodes, reco[a]);
    }
  }

  lemma NodeStubCodeOccurs(nodes: seq<Node>, k: nat)
    requires k < |nodes| && NodeStub(nodes[k]).Ok? && NodeStub(nodes[k]).value.Some?
    ensures IsCode(NodeStub(nodes[k]).value.value.code)
    ensures NodeStub(nodes[k]).value.value.code in NodeCodes(nodes)
  {
    NodeStubCode(nodes[k]);
    var t := nodes[k].text.value;
    var m := Search(t).value;
    var i, j := m.start, m.start + |m.code|;
    assert t[i..j] == m.code && IsCode(t[i..j]);
    assert nodes[k].text.value[i..j] in NodeCodes(nodes);
  }

  /** Every code on the lists of any page, present or missing, is one of
      the catalog's text codes. */
  lemma PrereqCodesInText(catalog: Catalog, urlid: string)
    requires PagePrereqs(Fetch(catalog, urlid)).Ok?
    ensures forall s :: s in PagePrereqs(Fetch(catalog, urlid)).value.required ==> s.code in TextCodes(catalog)
    ensures forall s :: s in PagePrereqs(Fetch(catalog, urlid)).value.recommended ==> s.code in TextCodes(catalog)
  {
    var p := Fetch(catalog, urlid);
    if p.block.Some? {
      assert urlid in catalog;
      ClassifiedCodesAreCodes(p.block.value);
    }
  }
}
