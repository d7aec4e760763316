/** The list logic of the course browser page (website/app/components/HomeClient.tsx): the sorted
    course list, the search filter, the department list and filter, the capped list of courses
    handed to the graph, and the entry shown in the info panel.

    JavaScript's default `sort` compares strings by UTF-16 code units; here strings are compared
    character by character (the same order on the Basic Multilingual Plane). `toLowerCase` is
    modelled on ASCII letters. */
module CourseBrowser {
  import opened Wrappers
  import opened PyStr
  import opened Schema

  // ---------------------------------------------------------------------------------------
  // String order and sorting

  /** Lexicographic order: `a` is a prefix of `b`, or the first differing character is smaller. */
  predicate LexLeq(a: string, b: string)
    decreases |a|
  {
    a == [] || (b != [] && (a[0] < b[0] || (a[0] == b[0] && LexLeq(a[1..], b[1..]))))
  }

  lemma {:induction false} LexLeqTotal(a: string, b: string)
    ensures LexLeq(a, b) || LexLeq(b, a)
    decreases |a|
  {
    if a != [] && b != [] && a[0] == b[0] {
      LexLeqTotal(a[1..], b[1..]);
    }
  }

  lemma {:induction false} LexLeqTrans(a: string, b: string, c: string)
    requires LexLeq(a, b) && LexLeq(b, c)
    ensures LexLeq(a, c)
    decreases |a|
  {
    if a != [] && a[0] == b[0] && b[0] == c[0] {
      LexLeqTrans(a[1..], b[1..], c[1..]);
    }
  }

  lemma {:induction false} LexLeqAntisym(a: string, b: string)
    requires LexLeq(a, b) && LexLeq(b, a)
    ensures a == b
    decreases |a|
  {
    if a != [] {
      LexLeqAntisym(a[1..], b[1..]);
      assert a == [a[0]] + a[1..] && b == [b[0]] + b[1..];
    }
  }

  predicate Sorted(xs: seq<string>)
  {
    forall i, j | 0 <= i < j < |xs| :: LexLeq(xs[i], xs[j])
  }

  predicate Distinct(xs: seq<string>)
  {
    forall i, j | 0 <= i < j < |xs| :: xs[i] != xs[j]
  }

  /** Inserts `x` in front of the first element it does not follow. */
  function Insert(x: string, xs: seq<string>): (r: seq<string>)
    ensures multiset(r) == multiset(xs) + multiset{x}
    ensures forall y :: y in r <==> y == x || y in xs
    ensures Sorted(xs) ==> Sorted(r)
    ensures Distinct(xs) && x !in xs ==> Distinct(r)
  {
    if xs == [] then [x]
    else if LexLeq(x, xs[0]) then
      InsertFront(x, xs);
      [x] + xs
    else
      var rest := Insert(x, xs[1..]);
      assert xs == [xs[0]] + xs[1..];
      InsertBehind(x, xs, rest);
      [xs[0]] + rest
  }

  lemma InsertFront(x: string, xs: seq<string>)
    requires xs != [] && LexLeq(x, xs[0])
    ensures Sorted(xs) ==> Sorted([x] + xs)
  {
    if Sorted(xs) {
      forall j | 0 < j < |xs| ensures LexLeq(x, xs[j]) {
        LexLeqTrans(x, xs[0], xs[j]);
      }
    }
  }

  lemma InsertBehind(x: string, xs: seq<string>, rest: seq<string>)
    requires xs != [] && !LexLeq(x, xs[0])
    requires forall y :: y in rest <==> y == x || y in xs[1..]
    requires Sorted(xs[1..]) ==> Sorted(rest)
    requires Distinct(xs[1..]) && x !in xs[1..] ==> Distinct(rest)
    ensures Sorted(xs) ==> Sorted([xs[0]] + rest)
    ensures Distinct(xs) && x !in xs ==> Distinct([xs[0]] + rest)
  {
    var r := [xs[0]] + rest;
    if Sorted(xs) {
      assert Sorted(xs[1..]) by {
        forall i, j | 0 <= i < j < |xs[1..]| ensures LexLeq(xs[1..][i], xs[1..][j]) {
          assert xs[1..][i] == xs[i + 1] && xs[1..][j] == xs[j + 1];
        }
      }
      LexLeqTotal(x, xs[0]);
      forall k | 0 <= k < |rest| ensures LexLeq(xs[0], rest[k]) {
        assert rest[k] in rest;
        if rest[k] != x {
          var j :| 0 <= j < |xs[1..]| && xs[1..][j] == rest[k];
          assert xs[j + 1] == rest[k];
        }
      }
      forall i, j | 0 <= i < j < |r| ensures LexLeq(r[i], r[j]) {
        if i > 0 {
          assert r[i] == rest[i - 1] && r[j] == rest[j - 1];
        }
      }
    }
    if Distinct(xs) && x !in xs {
      assert Distinct(xs[1..]) by {
        forall i, j | 0 <= i < j < |xs[1..]| ensures xs[1..][i] != xs[1..][j] {
          assert xs[1..][i] == xs[i + 1] && xs[1..][j] == xs[j + 1];
        }
      }
      assert xs[0] !in xs[1..] by {
        forall k | 0 <= k < |xs[1..]| ensures xs[1..][k] != xs[0] {
          assert xs[1..][k] == xs[k + 1];
        }
      }
      forall i, j | 0 <= i < j < |r| ensures r[i] != r[j] {
        if i == 0 {
          assert r[j] == rest[j - 1] && rest[j - 1] in rest;
        } else {
          assert r[i] == rest[i - 1] && r[j] == rest[j - 1];
        }
      }
    }
  }

  /** `xs.sort()`: the same strings, in order; distinct strings stay distinct. */
  function SortStrings(xs: seq<string>): (r: seq<string>)
    ensures multiset(r) == multiset(xs)
    ensures forall y :: y in r <==> y in xs
    ensures Sorted(r)
    ensures Distinct(xs) ==> Distinct(r)
  {
    if xs == [] then []
    else
      assert xs == [xs[0]] + xs[1..];
      var rest := SortStrings(xs[1..]);
      if Distinct(xs) then
        assert Distinct(xs[1..]) by {
          forall i, j | 0 <= i < j < |xs[1..]| ensures xs[1..][i] != xs[1..][j] {
            assert xs[1..][i] == xs[i + 1] && xs[1..][j] == xs[j + 1];
          }
        }
        assert xs[0] !in xs[1..] by {
          forall k | 0 <= k < |xs[1..]| ensures xs[1..][k] != xs[0] {
            assert xs[1..][k] == xs[k + 1];
          }
        }
        Insert(xs[0], rest)
      else Insert(xs[0], rest)
  }

  // ---------------------------------------------------------------------------------------
  // Filters

  predicate IsSubsequence(r: seq<string>, xs: seq<string>)
    decreases |xs|
  {
    r == [] || (xs != [] && ((r[0] == xs[0] && IsSubsequence(r[1..], xs[1..])) || IsSubsequence(r, xs[1..])))
  }

  /** `xs.filter(keep)`: the elements that pass, in their order. */
  function Filter(xs: seq<string>, keep: string -> bool): (r: seq<string>)
    ensures forall x :: x in r <==> x in xs && keep(x)
    ensures forall x :: multiset(r)[x] == if keep(x) then multiset(xs)[x] else 0
    ensures IsSubsequence(r, xs)
    ensures |r| <= |xs|
  {
    if xs == [] then []
    else
      var rest := Filter(xs[1..], keep);
      assert xs == [xs[0]] + xs[1..];
      assert multiset(xs) == multiset([xs[0]]) + multiset(xs[1..]);
      if keep(xs[0]) then
        assert multiset([xs[0]] + rest) == multiset([xs[0]]) + multiset(rest);
        [xs[0]] + rest
      else
        assert rest == [] || IsSubsequence(rest, xs[1..]);
        rest
  }

  /** ASCII `toLowerCase`. */
  function Lower(s: string): string
  {
    seq(|s|, i requires 0 <= i < |s| => if 'A' <= s[i] <= 'Z' then (s[i] as int + 32) as char else s[i])
  }

  predicate IsUpper(c: char)
  {
    'A' <= c <= 'Z'
  }

  /** A lower-cased string has no capital letter left, and lower-casing it again changes nothing. */
  lemma LowerIdempotent(s: string)
    ensures forall i | 0 <= i < |Lower(s)| :: !IsUpper(Lower(s)[i])
    ensures Lower(Lower(s)) == Lower(s)
  {
  }

  /** A string without capital letters is its own lower-case form, and a string with one is not. */
  lemma LowerKeepsExactlyNonUpper(s: string)
    ensures Lower(s) == s <==> forall i | 0 <= i < |s| :: !IsUpper(s[i])
  {
    if Lower(s) == s {
      forall i | 0 <= i < |s| ensures !IsUpper(s[i]) {
        assert Lower(s)[i] == s[i];
      }
    }
  }

  predicate StartsWith(s: string, prefix: string)
  {
    |prefix| <= |s| && s[..|prefix|] == prefix
  }

  /** `s.includes(t)`: `t` occurs somewhere in `s` (the empty string occurs everywhere). */
  predicate Includes(s: string, t: string)
    decreases |s|
  {
    StartsWith(s, t) || (s != [] && Includes(s[1..], t))
  }

  /** `Object.keys(graphData).sort()`. */
  function CourseList(keys: seq<string>): (r: seq<string>)
    ensures Sorted(r) && multiset(r) == multiset(keys)
    ensures Distinct(keys) ==> Distinct(r)
    ensures forall c :: c in r <==> c in keys
  {
    SortStrings(keys)
  }

  predicate MatchesQuery(course: string, query: string)
  {
    Includes(Lower(course), Lower(query))
  }

  /** The courses whose code contains the query, ignoring case; all of them for an empty query. */
  function FilteredCourses(courseList: seq<string>, query: string): (r: seq<string>)
    ensures query == "" ==> r == courseList
    ensures query != "" ==> forall c :: c in r <==> c in courseList && MatchesQuery(c, query)
    ensures IsSubsequence(r, courseList) || r == courseList
  {
    if query == "" then courseList else Filter(courseList, c => MatchesQuery(c, query))
  }

  /** The filter ignores case in the query too. */
  lemma QueryCaseIgnored(course: string, query: string)
    ensures MatchesQuery(course, query) <==> MatchesQuery(course, Lower(query))
  {
    LowerIdempotent(query);
  }

  /** `course.split(" ")[0]`: the code up to its first space. */
  function Dept(course: string): string
  {
    Split(course, ' ')[0]
  }

  /** The first occurrence of each string, in order of first occurrence (a `Set` filled in order). */
  function Unique(xs: seq<string>): (r: seq<string>)
    ensures Distinct(r)
    ensures forall x :: x in r <==> x in xs
  {
    if xs == [] then []
    else
      var rest := Unique(xs[..|xs| - 1]);
      var last := xs[|xs| - 1];
      assert forall x | x in xs :: x == last || x in xs[..|xs| - 1];
      if last in rest then rest else rest + [last]
  }

  /** The sorted, duplicate-free department codes of the course list. */
  function Departments(courseList: seq<string>): (r: seq<string>)
    ensures Sorted(r) && Distinct(r)
    ensures forall d :: d in r <==> exists i | 0 <= i < |courseList| :: Dept(courseList[i]) == d
  {
    var depts := seq(|courseList|, i requires 0 <= i < |courseList| => Dept(courseList[i]));
    var u := Unique(depts);
    forall d ensures d in depts <==> exists i | 0 <= i < |courseList| :: Dept(courseList[i]) == d {
      if d in depts {
        var i :| 0 <= i < |depts| && depts[i] == d;
        assert Dept(courseList[i]) == d;
      }
      if exists i | 0 <= i < |courseList| :: Dept(courseList[i]) == d {
        var i :| 0 <= i < |courseList| && Dept(courseList[i]) == d;
        assert depts[i] == d;
      }
    }
    SortStrings(u)
  }

  /** With a department chosen, the filtered courses whose code starts with it and a space. */
  function DisplayedCourses(filtered: seq<string>, dept: string): (r: seq<string>)
    ensures dept == "" ==> r == filtered
    ensures dept != "" ==> forall c :: c in r <==> c in filtered && StartsWith(c, dept + " ")
    ensures IsSubsequence(r, filtered) || r == filtered
  {
    if dept == "" then filtered else Filter(filtered, c => StartsWith(c, dept + " "))
  }

  const MaxGraphCourses := 100

  /** The courses drawn in the graph: the selected one alone, or the first 100 displayed. */
  function GraphCourses(displayed: seq<string>, selected: string): (r: seq<string>)
    ensures selected != "" ==> r == [selected]
    ensures selected == "" ==> |r| == if |displayed| < MaxGraphCourses then |displayed| else MaxGraphCourses
    ensures selected == "" ==> r == displayed[..|r|]
  {
    if selected != "" then [selected]
    else if |displayed| < MaxGraphCourses then displayed
    else displayed[..MaxGraphCourses]
  }

  /** The entry shown in the info panel: none when no course is chosen or the code is unknown. */
  function InfoData(graph: map<string, CourseInfo>, infoCourse: string): Option<CourseInfo>
  {
    if infoCourse != "" && infoCourse in graph then Some(graph[infoCourse]) else None
  }

  /** The info panel has an entry for exactly the non-empty codes of the course list, and it is
      that course's catalog entry. */
  lemma InfoShownForListedCourses(graph: map<string, CourseInfo>, keys: seq<string>, c: string)
    requires forall k :: k in keys <==> k in graph
    ensures InfoData(graph, c).Some? <==> c != "" && c in CourseList(keys)
    ensures InfoData(graph, c).Some? ==> InfoData(graph, c).value == graph[c]
  {
  }

  /** Up to its first space, a code is its department followed by that space. */
  lemma {:induction false} DeptThenSpace(course: string)
    requires ' ' in course
    ensures StartsWith(course, Dept(course) + " ")
    decreases |course|
  {
    if course[0] != ' ' {
      var rest := course[1..];
      assert ' ' in rest;
      DeptThenSpace(rest);
      assert Split(course, ' ')[0] == [course[0]] + Split(rest, ' ')[0];
      assert course == [course[0]] + rest;
    }
  }

  /** Choosing a course's own department keeps it on the list, whenever its code has a space. */
  lemma OwnDepartmentKeepsCourse(filtered: seq<string>, course: string)
    requires course in filtered && ' ' in course
    ensures course in DisplayedCourses(filtered, Dept(course))
  {
    DeptThenSpace(course);
  }
}
