/** The repair passes over a generated catalog (graph_fix.py): filling in missing descriptions,
    re-parsing entries whose generation failed to parse, and merging section titles and credits.
    Files are not modelled: each pass takes the decoded documents and returns the document it
    would write, or `Crashed` where Python raises before writing. */
module GraphFix {
  import opened Wrappers
  import opened Json
  import opened PyStr

  datatype Outcome = Fixed(graph: map<string, Json>) | Crashed

  // ---------------------------------------------------------------------------------------
  // A pass that rewrites each entry on its own

  /** Every entry rewritten by `fix`; a single entry `fix` fails on makes the pass fail. */
  function RewriteAll(graph: map<string, Json>, fix: (string, Json) -> Option<Json>): (r: Outcome)
    ensures r.Crashed? <==> exists k | k in graph :: fix(k, graph[k]).None?
    ensures r.Fixed? ==> r.graph.Keys == graph.Keys
    ensures r.Fixed? ==> forall k | k in graph :: fix(k, graph[k]) == Some(r.graph[k])
  {
    if exists k | k in graph :: fix(k, graph[k]).None? then Crashed
    else Fixed(map k | k in graph :: fix(k, graph[k]).value)
  }

  /** The loop over `graph.items()` assigning `graph[key]` in place. Each entry is looked at
      once and only its own value changes, so the order of the keys does not matter. */
  method RewriteEntries(graph0: map<string, Json>, fix: (string, Json) -> Option<Json>) returns (out: Outcome)
    ensures out == RewriteAll(graph0, fix)
  {
    var graph := graph0;
    var pending := graph0.Keys;
    while pending != {}
      invariant pending <= graph0.Keys && graph.Keys == graph0.Keys
      invariant forall k | k in pending :: graph[k] == graph0[k]
      invariant forall k | k in graph0.Keys - pending :: fix(k, graph0[k]) == Some(graph[k])
      decreases pending
    {
      var key :| key in pending;
      var fixed := fix(key, graph[key]);
      if fixed.None? {
        assert fix(key, graph0[key]).None?;
        return Crashed;
      }
      graph := graph[key := fixed.value];
      pending := pending - {key};
    }
    assert graph == map k | k in graph0 :: fix(k, graph0[k]).value;
    out := Fixed(graph);
  }

  // ---------------------------------------------------------------------------------------
  // add_missing_descriptions

  /** `'desc' not in course_data or course_data['desc'] is None`. */
  predicate LacksDesc(fields: map<string, Json>)
  {
    "desc" !in fields || fields["desc"] == JNull
  }

  const NoDescription: string := "No Description"

  /** One entry: a missing description is taken from the flat catalog when that has a truthy
      one, becomes "No Description" when the course is there without one, and stays missing
      when the course is not there. A non-dictionary entry, or a catalog value that is not a
      dictionary, raises. */
  function FillDesc(courses: map<string, Json>, name: string, entry: Json): (r: Option<Json>)
    ensures r.Some? ==> entry.JObj? && r.value.JObj?
    ensures r.Some? ==> r.value.fields.Keys == entry.fields.Keys + (if r.value == entry then {} else {"desc"})
    ensures r.Some? ==> forall key | key in entry.fields && key != "desc" :: r.value.fields[key] == entry.fields[key]
  {
    if !entry.JObj? then None
    else if !LacksDesc(entry.fields) || name !in courses then Some(entry)
    else if !courses[name].JObj? then None
    else
      var found := Get(courses[name].fields, "desc", JNull);
      Some(JObj(entry.fields["desc" := if Truthy(found) then found else JStr(NoDescription)]))
  }

  method AddMissingDescriptions(graph: map<string, Json>, courses: map<string, Json>) returns (out: Outcome)
    ensures out == RewriteAll(graph, (name, entry) => FillDesc(courses, name, entry))
  {
    out := RewriteEntries(graph, (name, entry) => FillDesc(courses, name, entry));
  }

  /** What the pass does to each course, case by case; no course is added or removed, and no
      field other than `desc` changes. */
  lemma DescriptionsFilled(graph: map<string, Json>, courses: map<string, Json>, name: string)
    requires RewriteAll(graph, (n, e) => FillDesc(courses, n, e)).Fixed?
    requires name in graph
    ensures var out := RewriteAll(graph, (n, e) => FillDesc(courses, n, e)).graph;
      && out.Keys == graph.Keys
      && graph[name].JObj? && out[name].JObj?
      && (!LacksDesc(graph[name].fields) ==> out[name] == graph[name])
      && (LacksDesc(graph[name].fields) && name !in courses ==> out[name] == graph[name])
      && (LacksDesc(graph[name].fields) && name in courses ==>
            courses[name].JObj?
            && var found := Get(courses[name].fields, "desc", JNull);
               out[name].fields["desc"] == if Truthy(found) then found else JStr(NoDescription))
      && (forall key | key in graph[name].fields && key != "desc" :: out[name].fields[key] == graph[name].fields[key])
  {
    var fix := (n, e) => FillDesc(courses, n, e);
    assert fix(name, graph[name]).Some?;
  }

  /** After the pass every course found in the flat catalog has a description. */
  lemma FoundCoursesDescribed(graph: map<string, Json>, courses: map<string, Json>, name: string)
    requires RewriteAll(graph, (n, e) => FillDesc(courses, n, e)).Fixed?
    requires name in graph && name in courses
    ensures !LacksDesc(RewriteAll(graph, (n, e) => FillDesc(courses, n, e)).graph[name].fields)
  {
    DescriptionsFilled(graph, courses, name);
  }

  // ---------------------------------------------------------------------------------------
  // fix_parse_errors

  const ParseError: string := "JSON Parse Error"

  /** One entry: an entry whose `error` is "JSON Parse Error" is replaced by its
      `raw_response` re-parsed after every `undefined` became `null`; every other entry is
      kept. `parse` is `json.loads` (none when it raises). A non-dictionary entry, a missing or
      non-string `raw_response`, or a response that still does not parse, raises. */
  function Repair(parse: string -> Option<Json>, entry: Json): (r: Option<Json>)
  {
    if !entry.JObj? then None
    else if "error" !in entry.fields || entry.fields["error"] != JStr(ParseError) then Some(entry)
    else if "raw_response" !in entry.fields || !entry.fields["raw_response"].JStr? then None
    else parse(Replace(entry.fields["raw_response"].s, "undefined", "null"))
  }

  method FixParseErrors(graph: map<string, Json>, parse: string -> Option<Json>) returns (out: Outcome)
    ensures out == RewriteAll(graph, (name, entry) => Repair(parse, entry))
  {
    out := RewriteEntries(graph, (name, entry) => Repair(parse, entry));
  }

  /** Only parse-error entries change, and each becomes the parse of its cleaned response. */
  lemma ParseErrorsRepaired(graph: map<string, Json>, parse: string -> Option<Json>, name: string)
    requires RewriteAll(graph, (n, e) => Repair(parse, e)).Fixed?
    requires name in graph
    ensures var out := RewriteAll(graph, (n, e) => Repair(parse, e)).graph;
      && out.Keys == graph.Keys
      && graph[name].JObj?
      && (("error" !in graph[name].fields || graph[name].fields["error"] != JStr(ParseError)) ==> out[name] == graph[name])
      && ("error" in graph[name].fields && graph[name].fields["error"] == JStr(ParseError) ==>
            && "raw_response" in graph[name].fields && graph[name].fields["raw_response"].JStr?
            && parse(Replace(graph[name].fields["raw_response"].s, "undefined", "null")) == Some(out[name]))
  {
    var fix := (n, e) => Repair(parse, e);
    assert fix(name, graph[name]).Some?;
  }

  /** A response with no `undefined` in it is parsed as it stands. */
  lemma CleanResponseParsedAsIs(parse: string -> Option<Json>, entry: Json)
    requires entry.JObj? && "error" in entry.fields && entry.fields["error"] == JStr(ParseError)
    requires "raw_response" in entry.fields && entry.fields["raw_response"].JStr?
    requires forall i: nat :: !OccursAt(entry.fields["raw_response"].s, "undefined", i)
    ensures Repair(parse, entry) == parse(entry.fields["raw_response"].s)
  {
    ReplaceAbsent(entry.fields["raw_response"].s, "undefined", "null");
  }

  // ---------------------------------------------------------------------------------------
  // section_info_into_graph

  /** The loop state: the catalog built so far and `num_credits` (none while unbound). */
  datatype MergeState = MergeState(newGraph: map<string, Json>, numCredits: Option<real>)

  /** The entry stored for one course: its fields with `title` and `credits` set. */
  function Merged(values: map<string, Json>, title: Json, credits: real): (r: Json)
    ensures r.JObj? && r.fields.Keys == values.Keys + {"title", "credits"}
    ensures r.fields["title"] == title && r.fields["credits"] == JNum(credits)
    ensures forall key | key in values && key != "title" && key != "credits" :: r.fields[key] == values[key]
  {
    JObj(values["title" := title]["credits" := JNum(credits)])
  }

  /** One course. `sections[name]` must exist and be a non-empty list whose first item is the
      title. `creditsOf` is the guarded expression `float(course_sections[1][…][-3])` (none
      when it raises). The handler names `exit` without calling it, so as written
      (`reuseStale`) the previous course's credits are reused after a failed parse, and with
      none yet the assignment raises; with `exit()` called (`!reuseStale`) the run stops there. */
  function MergeStep(sections: map<string, Json>, creditsOf: seq<Json> -> Option<real>, reuseStale: bool,
                     st: MergeState, name: string, values: Json): (r: Option<MergeState>)
  {
    if name !in sections || !sections[name].JArr? || sections[name].items == [] then None
    else
      var courseSections := sections[name].items;
      var credits := if creditsOf(courseSections).Some? || !reuseStale then creditsOf(courseSections) else st.numCredits;
      if credits.None? || !values.JObj? then None
      else Some(MergeState(st.newGraph[name := Merged(values.fields, courseSections[0], credits.value)], credits))
  }

  /** The loop over the entries of the decoded catalog, in document order. */
  function MergeAll(sections: map<string, Json>, creditsOf: seq<Json> -> Option<real>, reuseStale: bool,
                    entries: seq<(string, Json)>): Option<MergeState>
  {
    if entries == [] then Some(MergeState(map[], None))
    else match MergeAll(sections, creditsOf, reuseStale, entries[..|entries| - 1])
      case None => None
      case Some(st) => MergeStep(sections, creditsOf, reuseStale, st, entries[|entries| - 1].0, entries[|entries| - 1].1)
  }

  function Names(entries: seq<(string, Json)>): (r: set<string>)
    ensures forall i | 0 <= i < |entries| :: entries[i].0 in r
    ensures forall n | n in r :: exists i | 0 <= i < |entries| :: entries[i].0 == n
  {
    if entries == [] then {}
    else
      var init := entries[..|entries| - 1];
      var r := Names(init) + {entries[|entries| - 1].0};
      assert forall i | 0 <= i < |init| :: init[i] == entries[i];
      r
  }

  predicate DistinctNames(entries: seq<(string, Json)>)
  {
    forall i, j | 0 <= i < j < |entries| :: entries[i].0 != entries[j].0
  }

  /** `section_info_into_graph`, stopping at a credit value that does not parse (see
      `StaleCreditsCarried` for the code as written). */
  method SectionInfoIntoGraph(entries: seq<(string, Json)>, sections: map<string, Json>,
                              creditsOf: seq<Json> -> Option<real>) returns (out: Outcome)
    ensures out.Fixed? <==> MergeAll(sections, creditsOf, false, entries).Some?
    ensures out.Fixed? ==> out.graph == MergeAll(sections, creditsOf, false, entries).value.newGraph
  {
    var newGraph: map<string, Json> := map[];
    var numCredits: Option<real> := None;
    var i := 0;
    while i < |entries|
      invariant 0 <= i <= |entries|
      invariant MergeAll(sections, creditsOf, false, entries[..i]) == Some(MergeState(newGraph, numCredits))
    {
      var step := MergeStep(sections, creditsOf, false, MergeState(newGraph, numCredits), entries[i].0, entries[i].1);
      MergeAllSnoc(sections, creditsOf, false, entries, i);
      if step.None? {
        MergeFailureSticks(sections, creditsOf, false, entries, i + 1);
        return Crashed;
      }
      newGraph, numCredits := step.value.newGraph, step.value.numCredits;
      i := i + 1;
    }
    assert entries[..i] == entries;
    out := Fixed(newGraph);
  }

  /** One more entry is one more merge step. */
  lemma MergeAllSnoc(sections: map<string, Json>, creditsOf: seq<Json> -> Option<real>, reuseStale: bool,
                     entries: seq<(string, Json)>, i: nat)
    requires i < |entries|
    ensures MergeAll(sections, creditsOf, reuseStale, entries[..i + 1])
         == match MergeAll(sections, creditsOf, reuseStale, entries[..i])
            case None => None
            case Some(st) => MergeStep(sections, creditsOf, reuseStale, st, entries[i].0, entries[i].1)
  {
    assert entries[..i + 1][..i] == entries[..i];
  }

  lemma {:induction false} MergeFailureSticks(sections: map<string, Json>, creditsOf: seq<Json> -> Option<real>, reuseStale: bool,
                                              entries: seq<(string, Json)>, k: nat)
    requires k <= |entries| && MergeAll(sections, creditsOf, reuseStale, entries[..k]).None?
    ensures MergeAll(sections, creditsOf, reuseStale, entries).None?
    decreases |entries| - k
  {
    if k < |entries| {
      assert entries[..k + 1][..k] == entries[..k];
      MergeFailureSticks(sections, creditsOf, reuseStale, entries, k + 1);
    } else {
      assert entries[..k] == entries;
    }
  }

  /** The credits in force after a prefix of the entries: the last successful parse. */
  function LastCredits(sections: map<string, Json>, creditsOf: seq<Json> -> Option<real>,
                       entries: seq<(string, Json)>): Option<real>
  {
    if entries == [] then None
    else
      var name := entries[|entries| - 1].0;
      var parsed := if name in sections && sections[name].JArr? then creditsOf(sections[name].items) else None;
      if parsed.Some? then parsed else LastCredits(sections, creditsOf, entries[..|entries| - 1])
  }

  /** The merged catalog has exactly the courses of the input, and `num_credits` ends as the
      last successful parse. */
  lemma {:induction false} MergeKeys(sections: map<string, Json>, creditsOf: seq<Json> -> Option<real>, reuseStale: bool,
                                     entries: seq<(string, Json)>)
    requires MergeAll(sections, creditsOf, reuseStale, entries).Some?
    ensures MergeAll(sections, creditsOf, reuseStale, entries).value.newGraph.Keys == Names(entries)
    ensures MergeAll(sections, creditsOf, reuseStale, entries).value.numCredits == LastCredits(sections, creditsOf, entries)
  {
    if entries != [] {
      MergeKeys(sections, creditsOf, reuseStale, entries[..|entries| - 1]);
    }
  }

  /** The course of `entries[i]` is stored in `graph` with its first section item as title and
      the credits last parsed up to it, keeping its other fields. */
  predicate StoredAt(sections: map<string, Json>, creditsOf: seq<Json> -> Option<real>,
                     graph: map<string, Json>, entries: seq<(string, Json)>, i: nat)
    requires i < |entries|
  {
    var name := entries[i].0;
    && name in sections && sections[name].JArr? && sections[name].items != []
    && entries[i].1.JObj?
    && LastCredits(sections, creditsOf, entries[..i + 1]).Some?
    && name in graph
    && graph[name] == Merged(entries[i].1.fields, sections[name].items[0], LastCredits(sections, creditsOf, entries[..i + 1]).value)
  }

  /** Each course gets its first section item as title and the credits last parsed up to it,
      and keeps its other fields. */
  lemma {:induction false} MergeEntry(sections: map<string, Json>, creditsOf: seq<Json> -> Option<real>, reuseStale: bool,
                                      entries: seq<(string, Json)>, i: nat)
    requires DistinctNames(entries)
    requires MergeAll(sections, creditsOf, reuseStale, entries).Some?
    requires i < |entries|
    ensures StoredAt(sections, creditsOf, MergeAll(sections, creditsOf, reuseStale, entries).value.newGraph, entries, i)
  {
    var last := |entries| - 1;
    if i == last {
      assert entries[..i + 1] == entries;
      MergeLastEntry(sections, creditsOf, reuseStale, entries);
    } else {
      var init := entries[..last];
      DistinctInit(entries);
      MergeOtherName(sections, creditsOf, reuseStale, entries, entries[i].0);
      MergeEntry(sections, creditsOf, reuseStale, init, i);
      StoredBefore(sections, creditsOf, reuseStale, entries, i);
    }
  }

  /** A course stored before the last merge step is still stored after it. */
  lemma StoredBefore(sections: map<string, Json>, creditsOf: seq<Json> -> Option<real>, reuseStale: bool,
                     entries: seq<(string, Json)>, i: nat)
    requires i < |entries| - 1
    requires MergeAll(sections, creditsOf, reuseStale, entries).Some?
    requires MergeAll(sections, creditsOf, reuseStale, entries[..|entries| - 1]).Some?
    requires var before := MergeAll(sections, creditsOf, reuseStale, entries[..|entries| - 1]).value.newGraph;
      var after := MergeAll(sections, creditsOf, reuseStale, entries).value.newGraph;
      && (entries[i].0 in after <==> entries[i].0 in before)
      && (entries[i].0 in after ==> after[entries[i].0] == before[entries[i].0])
    requires StoredAt(sections, creditsOf, MergeAll(sections, creditsOf, reuseStale, entries[..|entries| - 1]).value.newGraph,
                      entries[..|entries| - 1], i)
    ensures StoredAt(sections, creditsOf, MergeAll(sections, creditsOf, reuseStale, entries).value.newGraph, entries, i)
  {
    var init := entries[..|entries| - 1];
    assert init[i] == entries[i] && init[..i + 1] == entries[..i + 1];
  }

  /** The last entry is stored by the last merge step. */
  lemma MergeLastEntry(sections: map<string, Json>, creditsOf: seq<Json> -> Option<real>, reuseStale: bool,
                       entries: seq<(string, Json)>)
    requires entries != [] && MergeAll(sections, creditsOf, reuseStale, entries).Some?
    ensures var name := entries[|entries| - 1].0;
      && name in sections && sections[name].JArr? && sections[name].items != []
      && entries[|entries| - 1].1.JObj?
      && LastCredits(sections, creditsOf, entries).Some?
      && name in MergeAll(sections, creditsOf, reuseStale, entries).value.newGraph
      && MergeAll(sections, creditsOf, reuseStale, entries).value.newGraph[name]
         == Merged(entries[|entries| - 1].1.fields, sections[name].items[0], LastCredits(sections, creditsOf, entries).value)
  {
    var init := entries[..|entries| - 1];
    assert MergeAll(sections, creditsOf, reuseStale, init).Some?;
    MergeKeys(sections, creditsOf, reuseStale, init);
  }

  /** A merge step leaves every other course as it was. */
  lemma MergeOtherName(sections: map<string, Json>, creditsOf: seq<Json> -> Option<real>, reuseStale: bool,
                       entries: seq<(string, Json)>, name: string)
    requires entries != [] && MergeAll(sections, creditsOf, reuseStale, entries).Some?
    requires name != entries[|entries| - 1].0
    ensures MergeAll(sections, creditsOf, reuseStale, entries[..|entries| - 1]).Some?
    ensures var before := MergeAll(sections, creditsOf, reuseStale, entries[..|entries| - 1]).value.newGraph;
      var after := MergeAll(sections, creditsOf, reuseStale, entries).value.newGraph;
      && (name in after <==> name in before)
      && (name in after ==> after[name] == before[name])
  {
  }

  /** The entries before the last have distinct names, all different from the last one. */
  lemma DistinctInit(entries: seq<(string, Json)>)
    requires entries != [] && DistinctNames(entries)
    ensures DistinctNames(entries[..|entries| - 1])
    ensures forall i | 0 <= i < |entries| - 1 :: entries[i].0 != entries[|entries| - 1].0
  {
    var init := entries[..|entries| - 1];
    forall a, b | 0 <= a < b < |init| ensures init[a].0 != init[b].0 {
      assert init[a] == entries[a] && init[b] == entries[b];
    }
  }

  /** With the run stopped at a failed parse, every course carries its own credits. */
  lemma OwnCredits(sections: map<string, Json>, creditsOf: seq<Json> -> Option<real>,
                   entries: seq<(string, Json)>, i: nat)
    requires DistinctNames(entries)
    requires MergeAll(sections, creditsOf, false, entries).Some?
    requires i < |entries|
    ensures var name := entries[i].0;
      && name in sections && sections[name].JArr?
      && creditsOf(sections[name].items).Some?
      && sections[name].items != [] && entries[i].1.JObj?
      && name in MergeAll(sections, creditsOf, false, entries).value.newGraph
      && MergeAll(sections, creditsOf, false, entries).value.newGraph[name]
         == Merged(entries[i].1.fields, sections[name].items[0], creditsOf(sections[name].items).value)
  {
    MergeEntry(sections, creditsOf, false, entries, i);
    MergePrefix(sections, creditsOf, false, entries, i + 1);
    OwnParseSucceeded(sections, creditsOf, entries[..i + 1]);
  }

  lemma {:induction false} MergePrefix(sections: map<string, Json>, creditsOf: seq<Json> -> Option<real>, reuseStale: bool,
                                       entries: seq<(string, Json)>, k: nat)
    requires k <= |entries| && MergeAll(sections, creditsOf, reuseStale, entries).Some?
    ensures MergeAll(sections, creditsOf, reuseStale, entries[..k]).Some?
  {
    if k < |entries| {
      var init := entries[..|entries| - 1];
      assert MergeAll(sections, creditsOf, reuseStale, init).Some?;
      MergePrefix(sections, creditsOf, reuseStale, init, k);
      assert init[..k] == entries[..k];
    } else {
      assert entries[..k] == entries;
    }
  }

  lemma OwnParseSucceeded(sections: map<string, Json>, creditsOf: seq<Json> -> Option<real>,
                          entries: seq<(string, Json)>)
    requires entries != [] && MergeAll(sections, creditsOf, false, entries).Some?
    ensures var name := entries[|entries| - 1].0;
      && name in sections && sections[name].JArr?
      && creditsOf(sections[name].items).Some?
      && LastCredits(sections, creditsOf, entries) == creditsOf(sections[name].items)
  {
  }

  /** As written, a course whose credits do not parse silently gets the previous course's. */
  lemma StaleCreditsCarried()
    ensures var a := [JStr("Intro"), JObj(map[])];
      var b := [JStr("Advanced"), JObj(map[])];
      var sections := map["CS 100" := JArr(a), "CS 200" := JArr(b)];
      var creditsOf := (cs: seq<Json>) => if cs == a then Some(3.0) else None;
      var entries := [("CS 100", JObj(map[])), ("CS 200", JObj(map[]))];
      && creditsOf(b).None?
      && MergeAll(sections, creditsOf, true, entries).Some?
      && MergeAll(sections, creditsOf, true, entries).value.newGraph["CS 200"].fields["credits"] == JNum(3.0)
      && MergeAll(sections, creditsOf, false, entries).None?
  {
    var a := [JStr("Intro"), JObj(map[])];
    var b := [JStr("Advanced"), JObj(map[])];
    var sections := map["CS 100" := JArr(a), "CS 200" := JArr(b)];
    var creditsOf := (cs: seq<Json> ) => if cs == a then Some(3.0) else None;
    var entries := [("CS 100", JObj(map[])), ("CS 200", JObj(map[]))];
    assert a != b;
    assert creditsOf(a) == Some(3.0) && creditsOf(b) == None;
    assert entries[..1] == [("CS 100", JObj(map[]))] && entries[..1][..0] == [];
    assert MergeAll(sections, creditsOf, true, []) == Some(MergeState(map[], None));
    var first := MergeState(map["CS 100" := Merged(map[], JStr("Intro"), 3.0)], Some(3.0));
    assert MergeStep(sections, creditsOf, true, MergeState(map[], None), "CS 100", JObj(map[])) == Some(first);
    assert MergeAll(sections, creditsOf, true, entries[..1]) == Some(first);
    assert MergeAll(sections, creditsOf, false, entries[..1]) == Some(first);
  }
}
