/** The catalog flattener (convert_courses_format.py): a document mapping each department to a
    list of scraped entries `{"course": "CODE.  Title.  n credits…", "desc": …}` becomes one map
    from course code to `{desc, title}`. Reading and writing the files, and the progress
    messages, are not modelled; the loaded document is given as its department entries in
    document order, and a Python exception is the `Crashed` outcome. */
module ConvertCourses {
  import opened Wrappers
  import opened Json
  import opened PyStr

  const Nbsp: char := '\U{A0}'

  /** `s.replace('\u00a0', ' ')`: every non-breaking space becomes a space, nothing else moves. */
  function Normalize(s: string): (r: string)
    ensures |r| == |s|
    ensures forall i | 0 <= i < |s| :: r[i] == if s[i] == Nbsp then ' ' else s[i]
  {
    ReplaceChar(s, Nbsp, ' ');
    Replace(s, [Nbsp], [' '])
  }

  /** The code and title of a scraped header: the first two `.`-pieces of the normalised
      header, stripped; none when the header holds no `.`. */
  function Header(course: string): (r: Option<(string, string)>)
  {
    var parts := Split(Normalize(course), '.');
    if |parts| >= 2 then Some((Strip(parts[0]), Strip(parts[1]))) else None
  }

  lemma NormalizeAppend(x: string, y: string)
    ensures Normalize(x + y) == Normalize(x) + Normalize(y)
  {
  }

  lemma NormalizeKeepsDots(s: string)
    ensures '.' in Normalize(s) <==> '.' in s
  {
    if '.' in s {
      var i :| 0 <= i < |s| && s[i] == '.';
      assert Normalize(s)[i] == '.';
    }
    if '.' in Normalize(s) {
      var i :| 0 <= i < |s| && Normalize(s)[i] == '.';
      assert s[i] == '.';
    }
  }

  lemma NormalizeWithoutNbsp(s: string)
    requires Nbsp !in s
    ensures Normalize(s) == s
  {
  }

  /** A header has a code and a title exactly when it contains a `.`. */
  lemma HeaderNeedsDot(course: string)
    ensures Header(course).Some? <==> '.' in course
  {
    SplitSeveral(Normalize(course), '.');
    NormalizeKeepsDots(course);
  }

  /** The code is everything before the first `.` and the title everything up to the second
      (or to the end), both normalised and stripped. */
  lemma HeaderFromPieces(a: string, b: string, rest: string)
    requires '.' !in a && '.' !in b
    requires rest == [] || rest[0] == '.'
    ensures Header(a + ['.'] + b + rest) == Some((Strip(Normalize(a)), Strip(Normalize(b))))
  {
    NormalizePieces(a, b, rest);
    NormalizeKeepsDots(a);
    NormalizeKeepsDots(b);
    SplitPieces(Normalize(a), Normalize(b), Normalize(rest));
  }

  /** Normalising a header normalises its pieces and keeps the dots between them. */
  lemma NormalizePieces(a: string, b: string, rest: string)
    requires rest == [] || rest[0] == '.'
    ensures Normalize(a + ['.'] + b + rest) == Normalize(a) + ['.'] + (Normalize(b) + Normalize(rest))
    ensures Normalize(rest) == [] || Normalize(rest)[0] == '.'
  {
    var x := a + ['.'];
    var y := x + b;
    assert Normalize(['.']) == ['.'];
    NormalizeAppend(a, ['.']);
    NormalizeAppend(x, b);
    NormalizeAppend(y, rest);
    assert a + ['.'] + b + rest == y + rest;
    if rest != [] {
      assert Normalize(rest)[0] == '.';
    }
  }

  /** The first two pieces of a split are the dot-free texts before the first and second dot. */
  lemma SplitPieces(na: string, nb: string, nr: string)
    requires '.' !in na && '.' !in nb
    requires nr == [] || nr[0] == '.'
    ensures var parts := Split(na + ['.'] + (nb + nr), '.'); |parts| >= 2 && parts[0] == na && parts[1] == nb
  {
    SplitAtFirst(na, '.', nb + nr);
    if nr == [] {
      assert nb + nr == nb;
      SplitWithoutSeparator(nb, '.');
    } else {
      assert nr == ['.'] + nr[1..];
      assert nb + nr == nb + ['.'] + nr[1..];
      SplitAtFirst(nb, '.', nr[1..]);
    }
  }

  /** Neither the code nor the title holds a non-breaking space. */
  lemma HeaderHasNoNbsp(course: string)
    ensures Header(course).Some? ==> Nbsp !in Header(course).value.0 && Nbsp !in Header(course).value.1
  {
    var n := Normalize(course);
    var parts := Split(n, '.');
    if |parts| >= 2 {
      SplitPiecesFrom(n, '.');
      StripCutsOnlySpace(parts[0]);
      StripCutsOnlySpace(parts[1]);
      assert Nbsp !in n;
      assert forall c | c in Strip(parts[0]) :: c in parts[0];
      assert forall c | c in Strip(parts[1]) :: c in parts[1];
    }
  }

  /** The example header of the converter's documentation. */
  lemma HeaderExample()
    ensures Header("BNFO 601" + "." + ("  " + "Foundations of Bioinformatics I") + ".  3 credits, 3 contact hours.")
         == Some(("BNFO 601", "Foundations of Bioinformatics I"))
  {
    var rest := ".  3 credits, 3 contact hours.";
    assert rest[0] == '.';
    ExampleCodeDotFree();
    ExampleTitleDotFree();
    HeaderFromPieces("BNFO 601", "  " + "Foundations of Bioinformatics I", rest);
    ExampleCode();
    ExampleTitle();
  }

  lemma NormalizeStripKeeps(s: string)
    requires Nbsp !in s && s != [] && !IsSpace(s[0]) && !IsSpace(s[|s| - 1])
    ensures Strip(Normalize(s)) == s
  {
    NormalizeWithoutNbsp(s);
    StripKeeps(s);
  }

  lemma ExampleCodeDotFree()
    ensures '.' !in "BNFO 601"
  {
  }

  lemma ExampleCode()
    ensures Strip(Normalize("BNFO 601")) == "BNFO 601"
  {
    NormalizeStripKeeps("BNFO 601");
  }

  lemma IndentedStripKeeps(t: string)
    requires Nbsp !in t && t != [] && !IsSpace(t[0]) && !IsSpace(t[|t| - 1])
    ensures Strip(Normalize("  " + t)) == t
  {
    NormalizeStripKeeps(t);
    NormalizeAppend("  ", t);
    NormalizeWithoutNbsp("  ");
    StripLeadingSpace(' ', " " + t);
    StripLeadingSpace(' ', t);
    assert "  " + t == [' '] + (" " + t) && " " + t == [' '] + t;
  }

  lemma ExampleTitleDotFree()
    ensures '.' !in "  " + "Foundations of Bioinformatics I"
  {
  }

  lemma ExampleTitle()
    ensures Strip(Normalize("  " + "Foundations of Bioinformatics I")) == "Foundations of Bioinformatics I"
  {
    IndentedStripKeeps("Foundations of Bioinformatics I");
  }

  // ---------------------------------------------------------------------------------------
  // One scraped entry

  datatype FlatEntry = FlatEntry(desc: Json, title: string)

  /** What one scraped entry does to the output. */
  datatype Step = Crash | Skip | Put(code: string, entry: FlatEntry)

  /** `course_data.get('course', '')` and `course_data.get('desc', '')`. */
  function CourseField(fields: map<string, Json>): Json { Get(fields, "course", JStr("")) }
  function DescField(fields: map<string, Json>): Json { Get(fields, "desc", JStr("")) }

  /** An entry that is not a dictionary, or whose truthy `course` is not a string, raises;
      a falsy `course` or a header without `.` is skipped; otherwise the entry is stored
      under its code with its `desc` (default `''`) copied unchanged. */
  function Classify(courseData: Json): (r: Step)
    ensures r.Crash? <==> !courseData.JObj? || (Truthy(CourseField(courseData.fields)) && !CourseField(courseData.fields).JStr?)
    ensures r.Skip? <==> courseData.JObj? && (!Truthy(CourseField(courseData.fields))
                         || (CourseField(courseData.fields).JStr? && '.' !in CourseField(courseData.fields).s))
    ensures r.Put? ==>
              && courseData.JObj? && CourseField(courseData.fields).JStr?
              && Header(CourseField(courseData.fields).s) == Some((r.code, r.entry.title))
              && r.entry.desc == DescField(courseData.fields)
  {
    if !courseData.JObj? then Crash
    else
      var course := CourseField(courseData.fields);
      if !Truthy(course) then Skip
      else if !course.JStr? then Crash
      else
        HeaderNeedsDot(course.s);
        match Header(course.s)
        case None => Skip
        case Some((code, title)) => Put(code, FlatEntry(DescField(courseData.fields), title))
  }

  /** A missing `course` key is skipped. */
  lemma MissingCourseSkipped(fields: map<string, Json>)
    requires "course" !in fields
    ensures Classify(JObj(fields)) == Skip
  {
  }

  // ---------------------------------------------------------------------------------------
  // The whole document

  datatype Outcome = Converted(flat: map<string, FlatEntry>) | Crashed

  function Apply(flat: map<string, FlatEntry>, step: Step): (r: Outcome)
  {
    match step
    case Crash => Crashed
    case Skip => Converted(flat)
    case Put(code, entry) => Converted(flat[code := entry])
  }

  /** The entries of one department, one after the other, starting from `flat`. */
  function ConvertList(flat: map<string, FlatEntry>, items: seq<Json>): Outcome
  {
    if items == [] then Converted(flat)
    else match ConvertList(flat, items[..|items| - 1])
      case Crashed => Crashed
      case Converted(f) => Apply(f, Classify(items[|items| - 1]))
  }

  /** `for course_data in course_list`: a list yields its items, an empty string or dictionary
      yields nothing, and any other value raises (a non-empty string or dictionary yields
      strings, and `.get` on a string raises). */
  function CourseListItems(courseList: Json): (r: Option<seq<Json>>)
    ensures courseList.JArr? ==> r == Some(courseList.items)
  {
    match courseList
    case JArr(items) => Some(items)
    case JStr(s) => if s == "" then Some([]) else None
    case JObj(f) => if f == map[] then Some([]) else None
    case _ => None
  }

  /** The departments, one after the other. */
  function ConvertAll(depts: seq<(string, Json)>): Outcome
  {
    if depts == [] then Converted(map[])
    else match ConvertAll(depts[..|depts| - 1])
      case Crashed => Crashed
      case Converted(f) =>
        match CourseListItems(depts[|depts| - 1].1)
        case None => Crashed
        case Some(items) => ConvertList(f, items)
  }

  lemma {:induction false} ListCrashSticks(flat: map<string, FlatEntry>, items: seq<Json>, k: nat)
    requires k <= |items| && ConvertList(flat, items[..k]) == Crashed
    ensures ConvertList(flat, items) == Crashed
    decreases |items| - k
  {
    if k < |items| {
      assert items[..k + 1][..k] == items[..k];
      ListCrashSticks(flat, items, k + 1);
    } else {
      assert items[..k] == items;
    }
  }

  lemma {:induction false} AllCrashSticks(depts: seq<(string, Json)>, k: nat)
    requires k <= |depts| && ConvertAll(depts[..k]) == Crashed
    ensures ConvertAll(depts) == Crashed
    decreases |depts| - k
  {
    if k < |depts| {
      assert depts[..k + 1][..k] == depts[..k];
      AllCrashSticks(depts, k + 1);
    } else {
      assert depts[..k] == depts;
    }
  }

  /** `convert_scraped_courses_format` on the loaded document. */
  method ConvertScrapedCourses(depts: seq<(string, Json)>) returns (out: Outcome)
    ensures out == ConvertAll(depts)
  {
    var flat: map<string, FlatEntry> := map[];
    var d := 0;
    while d < |depts|
      invariant 0 <= d <= |depts|
      invariant ConvertAll(depts[..d]) == Converted(flat)
    {
      assert depts[..d + 1][..d] == depts[..d];
      var items := CourseListItems(depts[d].1);
      if items.None? {
        AllCrashSticks(depts, d + 1);
        return Crashed;
      }
      var next := ConvertDepartment(flat, items.value);
      if next.Crashed? {
        AllCrashSticks(depts, d + 1);
        return Crashed;
      }
      flat := next.flat;
      d := d + 1;
    }
    assert depts[..d] == depts;
    out := Converted(flat);
  }

  /** The inner loop, over the entries of one department. */
  method ConvertDepartment(flat0: map<string, FlatEntry>, items: seq<Json>) returns (out: Outcome)
    ensures out == ConvertList(flat0, items)
  {
    var flat := flat0;
    var k := 0;
    while k < |items|
      invariant 0 <= k <= |items|
      invariant ConvertList(flat0, items[..k]) == Converted(flat)
    {
      assert items[..k + 1][..k] == items[..k];
      var step := Classify(items[k]);
      if step.Crash? {
        ListCrashSticks(flat0, items, k + 1);
        return Crashed;
      } else if step.Put? {
        flat := flat[step.code := step.entry];
      }
      k := k + 1;
    }
    assert items[..k] == items;
    out := Converted(flat);
  }

  // ---------------------------------------------------------------------------------------
  // Properties of the result

  lemma {:induction false} ConvertListAppend(flat: map<string, FlatEntry>, a: seq<Json>, b: seq<Json>)
    ensures ConvertList(flat, a + b) == match ConvertList(flat, a)
                                        case Crashed => Crashed
                                        case Converted(f) => ConvertList(f, b)
    decreases |b|
  {
    if b == [] {
      assert a + b == a;
    } else {
      var b' := b[..|b| - 1];
      assert (a + b)[..|a + b| - 1] == a + b';
      ConvertListAppend(flat, a, b');
    }
  }

  /** All entries of every department, in order. */
  function AllItems(depts: seq<(string, Json)>): seq<Json>
    requires forall d | 0 <= d < |depts| :: depts[d].1.JArr?
  {
    if depts == [] then [] else AllItems(depts[..|depts| - 1]) + depts[|depts| - 1].1.items
  }

  /** The department grouping does not matter: the result is that of one list holding every
      entry in document order. */
  lemma {:induction false} GroupingDiscarded(depts: seq<(string, Json)>)
    requires forall d | 0 <= d < |depts| :: depts[d].1.JArr?
    ensures ConvertAll(depts) == ConvertList(map[], AllItems(depts))
  {
    if depts != [] {
      var init := depts[..|depts| - 1];
      GroupingDiscarded(init);
      ConvertListAppend(map[], AllItems(init), depts[|depts| - 1].1.items);
    }
  }

  /** Whether entry `x` is stored under `code`. */
  predicate PutsCode(x: Json, code: string)
  {
    Classify(x).Put? && Classify(x).code == code
  }

  /** Later entries win: a code maps to the entry of the last entry stored under it. */
  lemma {:induction false} LastEntryWins(flat: map<string, FlatEntry>, items: seq<Json>, code: string, k: nat)
    requires ConvertList(flat, items).Converted?
    requires k < |items| && PutsCode(items[k], code)
    requires forall j | k < j < |items| :: !PutsCode(items[j], code)
    ensures code in ConvertList(flat, items).flat
    ensures ConvertList(flat, items).flat[code] == Classify(items[k]).entry
  {
    var init := items[..|items| - 1];
    assert ConvertList(flat, init).Converted?;
    var f := ConvertList(flat, init).flat;
    var st := Classify(items[|items| - 1]);
    assert ConvertList(flat, items) == Apply(f, st);
    if k < |init| {
      assert init[k] == items[k];
      forall j | k < j < |init| ensures !PutsCode(init[j], code) {
        assert init[j] == items[j];
      }
      LastEntryWins(flat, init, code, k);
      assert !(st.Put? && st.code == code);
    } else {
      assert k == |items| - 1;
      assert items[k] == items[|items| - 1];
      assert st == Classify(items[k]) && st.Put? && st.code == code;
      assert Apply(f, st) == Converted(f[code := st.entry]);
    }
  }

  /** A code no entry is stored under keeps whatever it had before, or stays absent. */
  lemma {:induction false} UntouchedCodeKept(flat: map<string, FlatEntry>, items: seq<Json>, code: string)
    requires ConvertList(flat, items).Converted?
    requires forall k | 0 <= k < |items| :: !PutsCode(items[k], code)
    ensures code in ConvertList(flat, items).flat <==> code in flat
    ensures code in flat ==> ConvertList(flat, items).flat[code] == flat[code]
  {
    if items != [] {
      var init := items[..|items| - 1];
      assert ConvertList(flat, init).Converted?;
      forall j | 0 <= j < |init| ensures !PutsCode(init[j], code) {
        assert init[j] == items[j];
      }
      UntouchedCodeKept(flat, init, code);
      assert !PutsCode(items[|items| - 1], code);
    }
  }
}
