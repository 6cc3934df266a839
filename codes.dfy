/** The course-code recogniser `[A-Z]{4}\d{4,}`, used anchored (`match`) on the
    first cell of a subject-table row and as a leftmost search (`search`) on the
    text of a prerequisite sibling. */
module CourseCodes {
  import opened Wrappers
  import opened Text

  /** A string the pattern matches as a whole: four capitals, then at least
      four digits. */
  predicate IsCode(x: string) {
    && |x| >= 8
    && (forall k :: 0 <= k < 4 ==> IsUpper(x[k]))
    && (forall k :: 4 <= k < |x| ==> IsDigit(x[k]))
  }

  /** Length of the run of digits that starts at position `i` (what the greedy
      `\d{4,}` consumes). */
  function DigitRun(s: string, i: nat): (n: nat)
    requires i <= |s|
    ensures i + n <= |s|
    ensures forall k :: i <= k < i + n ==> IsDigit(s[k])
    ensures i + n == |s| || !IsDigit(s[i + n])
    decreases |s| - i
  {
    if i < |s| && IsDigit(s[i]) then 1 + DigitRun(s, i + 1) else 0
  }

  /** The match of the pattern anchored at position `i`, if there is one. */
  function MatchAt(s: string, i: nat): (r: Option<string>)
    requires i <= |s|
    ensures r.Some? ==> && IsCode(r.value)
                        && i + |r.value| <= |s|
                        && s[i..i + |r.value|] == r.value
                        && (i + |r.value| == |s| || !IsDigit(s[i + |r.value|]))
    ensures r.None? ==> forall j :: i <= j <= |s| ==> !IsCode(s[i..j])
  {
    if i + 4 <= |s| && IsUpper(s[i]) && IsUpper(s[i + 1]) && IsUpper(s[i + 2]) && IsUpper(s[i + 3])
       && DigitRun(s, i + 4) >= 4
    then
      Some(s[i..i + 4 + DigitRun(s, i + 4)])
    else
      None
  }

  /** `course_code_regex.match(s)`: the code at the very start of `s`. */
  function MatchStart(s: string): (r: Option<string>)
    ensures r.Some? ==> && IsCode(r.value) && |r.value| <= |s| && s[..|r.value|] == r.value
                        && (|r.value| == |s| || !IsDigit(s[|r.value|]))
    ensures r.None? ==> forall j :: 0 <= j <= |s| ==> !IsCode(s[..j])
  {
    MatchAt(s, 0)
  }

  /** A successful search: where the match starts and the matched code. */
  datatype Match = Match(start: nat, code: string)

  /** Leftmost match at a position `>= i`. */
  function SearchFrom(s: string, i: nat): (r: Option<Match>)
    requires i <= |s|
    ensures r.Some? ==> && i <= r.value.start <= |s|
                        && MatchAt(s, r.value.start) == Some(r.value.code)
                        && forall j :: i <= j < r.value.start ==> MatchAt(s, j).None?
    ensures r.None? ==> forall j :: i <= j <= |s| ==> MatchAt(s, j).None?
    decreases |s| - i
  {
    match MatchAt(s, i)
    case Some(code) => Some(Match(i, code))
    case None => if i == |s| then None else SearchFrom(s, i + 1)
  }

  /** `course_code_regex.search(s)`: the leftmost match anywhere in `s`. */
  function Search(s: string): (r: Option<Match>)
    ensures r.Some? ==> && r.value.start + |r.value.code| <= |s|
                        && IsCode(r.value.code)
                        && s[r.value.start..r.value.start + |r.value.code|] == r.value.code
                        && (r.value.start + |r.value.code| == |s| || !IsDigit(s[r.value.start + |r.value.code|]))
                        && forall j :: 0 <= j < r.value.start ==> MatchAt(s, j).None?
    ensures r.None? ==> forall i, j :: 0 <= i <= j <= |s| ==> !IsCode(s[i..j])
  {
    var r := SearchFrom(s, 0);
    assert r.None? ==> forall i, j :: 0 <= i <= j <= |s| ==> !IsCode(s[i..j]) by {
      if r.None? {
        forall i, j | 0 <= i <= j <= |s| ensures !IsCode(s[i..j]) {
          assert MatchAt(s, i).None?;
        }
      }
    }
    r
  }

  /** A match never stops inside a run of digits: the code is the whole run. */
  lemma {:induction false} MatchIsLongest(s: string, i: nat, j: nat)
    requires i <= j <= |s| && IsCode(s[i..j])
    ensures MatchAt(s, i).Some?
    ensures |MatchAt(s, i).value| >= j - i
  {
    assert forall k :: 0 <= k < 4 ==> s[i..j][k] == s[i + k];
  }
}
