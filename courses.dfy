/** The `Course` object and the two parsing steps that create and fill it:
    `get_subject_courses` and `fill_course_prereqs`. */
module Courses {
  import opened Wrappers
  import opened Text
  import opened CourseCodes
  import opened Pages

  /** A course. Its code, page id and title are set when it is created and
      never reassigned; `required` and `recommended` stay `None` until the
      prerequisite walk has run for it. */
  class Course {
    const code: string
    const urlid: string
    const title: string
    var required: Option<seq<Course>>
    var recommended: Option<seq<Course>>

    constructor (code: string, urlid: string, title: string)
      ensures this.code == code && this.urlid == urlid && this.title == title
      ensures required.None? && recommended.None?
    {
      this.code, this.urlid, this.title := code, urlid, title;
      required, recommended := None, None;
    }

    /** Both prerequisite lists are set. */
    predicate Filled()
      reads this
    {
      required.Some? && recommended.Some?
    }

    /** The data the course was built from. */
    function Info(): Stub {
      Stub(code, urlid, title)
    }
  }

  /** The data the given courses were built from, in order. */
  function Infos(cs: seq<Course>): (r: seq<Stub>)
    ensures |r| == |cs| && forall i :: 0 <= i < |cs| ==> r[i] == cs[i].Info()
  {
    seq(|cs|, i requires 0 <= i < |cs| => cs[i].Info())
  }

  /** Appending a course appends its data. */
  lemma InfosSnoc(cs: seq<Course>, c: Course)
    ensures Infos(cs + [c]) == Infos(cs) + [c.Info()]
  {
  }

  /** `get_subject_courses`: one new course, prerequisites unset, per row of
      the subject page that yields a stub, in row order; an exception that
      escapes the row loop aborts the whole call. */
  method SubjectCourses(catalog: Catalog, urlid: string) returns (res: Result<seq<Course>, Failure>)
    ensures res.Ok? <==> SubjectStubs(Fetch(catalog, urlid).rows).Ok?
    ensures res.Ok? ==> && Infos(res.value) == SubjectStubs(Fetch(catalog, urlid).rows).value
                        && forall c :: c in res.value ==> fresh(c) && c.required.None? && c.recommended.None?
    ensures res.Err? ==> res.error == SubjectStubs(Fetch(catalog, urlid).rows).error
  {
    var rows := Fetch(catalog, urlid).rows;
    var courses: seq<Course> := [];
    for i := 0 to |rows|
      invariant SubjectStubs(rows[..i]).Ok?
      invariant Infos(courses) == SubjectStubs(rows[..i]).value
      invariant forall c :: c in courses ==> fresh(c) && c.required.None? && c.recommended.None?
    {
      var tds := rows[i];
      assert rows[..i + 1][..i] == rows[..i];
      if |tds| == 0 {                                  // IndexError on tds[0]
        assert RowStub(tds) == Ok(None);
        continue;
      }
      var m := MatchStart(tds[0].text);
      if m.None? || |tds| < 3 {                        // AttributeError on m.group(), IndexError on tds[2]
        assert RowStub(tds) == Ok(None);
        continue;
      }
      match tds[2].link {
        case None =>
          SubjectStubsFailAt(rows, i);
          return Err(NoLink);
        case Some(a) =>
          match a.href {
            case None =>
              SubjectStubsFailAt(rows, i);
              return Err(NoHref);
            case Some(h) =>
              assert RowStub(tds) == Ok(Some(Stub(m.value, h, a.text)));
              var c := new Course(m.value, h, a.text);
              InfosSnoc(courses, c);
              courses := courses + [c];
          }
      }
    }
    assert rows[..|rows|] == rows;
    return Ok(courses);
  }

  /** A row whose exception escapes makes the whole subject page fail with it,
      whatever the rows before it yielded. */
  lemma {:induction false} SubjectStubsFailAt(rows: seq<Row>, i: nat)
    requires i < |rows| && SubjectStubs(rows[..i]).Ok? && RowStub(rows[i]).Err?
    ensures SubjectStubs(rows) == Err(RowStub(rows[i]).error)
    decreases |rows|
  {
    var init := rows[..|rows| - 1];
    if i < |rows| - 1 {
      assert init[..i] == rows[..i] && init[i] == rows[i];
      SubjectStubsFailAt(init, i);
    } else {
      assert init == rows[..i];
    }
  }

  /** `fill_course_prereqs`: fetch the course's page and set both lists from
      its prerequisite walk, with new courses whose own lists are unset. When
      the page has no marker both lists are empty. An exception raised inside
      the walk leaves the course as it was. */
  method FillPrereqs(course: Course, catalog: Catalog) returns (res: Result<Course, Failure>)
    modifies course
    ensures var pr := PagePrereqs(Fetch(catalog, course.urlid));
            && (res.Ok? <==> pr.Ok?)
            && (res.Ok? ==> && res.value == course
                            && course.required.Some? && course.recommended.Some?
                            && Infos(course.required.value) == pr.value.required
                            && Infos(course.recommended.value) == pr.value.recommended)
            && (res.Err? ==> res.error == pr.error)
    ensures res.Ok? ==> forall c :: c in course.required.value + course.recommended.value ==>
                          fresh(c) && c.required.None? && c.recommended.None?
    ensures res.Err? ==> course.required == old(course.required) && course.recommended == old(course.recommended)
  {
    var page := Fetch(catalog, course.urlid);
    if page.block.None? {                             // no text node matches "MUST|RECOMMEND"
      course.required, course.recommended := Some([]), Some([]);
      return Ok(course);
    }
    var walked := WalkSiblings(page.block.value);
    match walked {
      case Err(e) =>
        return Err(e);
      case Ok((require, recommend)) =>
        course.required, course.recommended := Some(require), Some(recommend);
        assert forall c :: c in require + recommend ==> c in require || c in recommend;
        return Ok(course);
    }
  }

  /** The loop of `fill_course_prereqs` over the children of the marker's
      parent: the state machine and the two lists it appends new courses to. */
  method WalkSiblings(groups: seq<Node>) returns (res: Result<(seq<Course>, seq<Course>), Failure>)
    ensures res.Ok? <==> Classify(groups).Ok?
    ensures res.Ok? ==> && Infos(res.value.0) == Classify(groups).value.required
                        && Infos(res.value.1) == Classify(groups).value.recommended
    ensures res.Ok? ==> && (forall c :: c in res.value.0 ==> fresh(c) && c.required.None? && c.recommended.None?)
                        && (forall c :: c in res.value.1 ==> fresh(c) && c.required.None? && c.recommended.None?)
    ensures res.Err? ==> res.error == Classify(groups).error
  {
    var require: seq<Course> := [];
    var recommend: seq<Course> := [];
    var state := Unclassified;
    ghost var walk := Classify(groups[..0]);
    for i := 0 to |groups|
      invariant state == StateAfter(groups[..i])
      invariant walk == Classify(groups[..i]) && walk.Ok?
      invariant Infos(require) == walk.value.required && Infos(recommend) == walk.value.recommended
      invariant forall c :: c in require ==> fresh(c) && c.required.None? && c.recommended.None?
      invariant forall c :: c in recommend ==> fresh(c) && c.required.None? && c.recommended.None?
    {
      var s := groups[i];
      ClassifySnoc(groups, i);
      walk := Extend(walk, state, s);
      if Contains(s.markup, "MUST") {
        state := Must;
      } else if Contains(s.markup, "RECOMMEND") {
        state := Recommend;
      } else if state == Must || state == Recommend {
        var added := AddSibling(state, s, require, recommend);
        if added.Err? {
          ClassifyFailsAt(groups, i);
          return Err(added.error);
        }
        require, recommend := added.value.0, added.value.1;
      }
    }
    assert groups[..|groups|] == groups;
    return Ok((require, recommend));
  }

  /** A non-marker sibling in an active section: a new course from it, when it
      yields one, appended to the list of that section. */
  method AddSibling(state: Section, s: Node, require: seq<Course>, recommend: seq<Course>)
    returns (res: Result<(seq<Course>, seq<Course>), Failure>)
    requires state == Must || state == Recommend
    requires !IsMarker(s)
    ensures res.Err? <==> NodeStub(s).Err?
    ensures res.Err? ==> res.error == NodeStub(s).error
    ensures res.Ok? ==> && Infos(res.value.0) == Extend(Ok(Prereqs(Infos(require), Infos(recommend))), state, s).value.required
                        && Infos(res.value.1) == Extend(Ok(Prereqs(Infos(require), Infos(recommend))), state, s).value.recommended
    ensures res.Ok? ==> && (forall c :: c in res.value.0 ==> c in require || (fresh(c) && c.required.None? && c.recommended.None?))
                        && (forall c :: c in res.value.1 ==> c in recommend || (fresh(c) && c.required.None? && c.recommended.None?))
  {
    var made := NewStubCourse(s);
    match made {
      case Err(e) =>
        return Err(e);
      case Ok(None) =>
        return Ok((require, recommend));
      case Ok(Some(c)) =>
        if state == Must {
          InfosSnoc(require, c);
          return Ok((require + [c], recommend));
        } else {
          InfosSnoc(recommend, c);
          return Ok((require, recommend + [c]));
        }
    }
  }

  /** The body of the walk's `try` for a sibling in an active section: the
      leftmost code in its text, the title before it and its href become a new
      course; AttributeError (no text, no code) yields nothing. */
  method NewStubCourse(s: Node) returns (r: Result<Option<Course>, Failure>)
    ensures r.Err? <==> NodeStub(s).Err?
    ensures r.Err? ==> r.error == NodeStub(s).error
    ensures r.Ok? ==> (r.value.Some? <==> NodeStub(s).value.Some?)
    ensures r.Ok? && r.value.Some? ==> && r.value.value.Info() == NodeStub(s).value.value
                                       && fresh(r.value.value)
                                       && r.value.value.required.None? && r.value.value.recommended.None?
  {
    if s.text.None? { return Ok(None); }             // AttributeError on s.text
    var m := Search(s.text.value);
    if m.None? { return Ok(None); }                  // AttributeError on m.group()
    var code := m.value.code;
    var title := Title(s.text.value, m.value.start);
    if s.href.None? { return Err(NoHref); }          // s["href"] raises
    var c := new Course(code, s.href.value, title);
    return Ok(Some(c));
  }

  /** An exception raised at one sibling is the outcome of the whole walk. */
  lemma {:induction false} ClassifyFailsAt(nodes: seq<Node>, i: nat)
    requires i < |nodes| && Classify(nodes[..i]).Ok?
    requires !IsMarker(nodes[i]) && StateAfter(nodes[..i]) != Unclassified && NodeStub(nodes[i]).Err?
    ensures Classify(nodes) == Err(NodeStub(nodes[i]).error)
    decreases |nodes|
  {
    var init := nodes[..|nodes| - 1];
    if i < |nodes| - 1 {
      assert init[..i] == nodes[..i] && init[i] == nodes[i];
      ClassifyFailsAt(init, i);
    } else {
      assert init == nodes[..i];
    }
  }
}
