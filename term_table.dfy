/** The backend's per-term section tables (backend/constants.py, `update_sections_data` and
    `set_current_term`): the global `sections_data` maps each course offered in the chosen term
    to its sections, and `current_term_courses` holds the names of those courses. */
module TermTable {
  import opened Wrappers
  import opened Schema

  /** The sections a course lists for `term`, if it lists any sections at all. */
  predicate OffersIn(c: CourseInfo, term: string)
  {
    c.sections.Some? && term in c.sections.value
  }

  /** The table the update is meant to build: every catalog course offered in `term`, mapped to
      its sections for that term. */
  function TermSections(graph: map<string, CourseInfo>, term: string): map<string, map<string, seq<string>>>
  {
    map name | name in graph && OffersIn(graph[name], term) :: graph[name].sections.value[term]
  }

  /** The part of that table that comes from the courses in `names`. */
  function TermSectionsOf(graph: map<string, CourseInfo>, names: set<string>, term: string): map<string, map<string, seq<string>>>
  {
    map name | name in names && name in graph && OffersIn(graph[name], term) :: graph[name].sections.value[term]
  }

  /** Taking one more course into account adds it to the table when it is offered in the term. */
  lemma TermSectionsOfStep(graph: map<string, CourseInfo>, names: set<string>, name: string, term: string)
    requires name in graph
    ensures TermSectionsOf(graph, names + {name}, term)
         == if OffersIn(graph[name], term) then TermSectionsOf(graph, names, term)[name := graph[name].sections.value[term]]
            else TermSectionsOf(graph, names, term)
  {
  }

  lemma TermSectionsOfAll(graph: map<string, CourseInfo>, term: string)
    ensures TermSectionsOf(graph, graph.Keys, term) == TermSections(graph, term)
  {
  }

  /** A course is in the table exactly when it is in the catalog and lists sections for the
      term, and then holds exactly those sections; on a valid catalog every row has 13 strings. */
  lemma TermSectionsMembership(graph: map<string, CourseInfo>, term: string, name: string)
    ensures name in TermSections(graph, term) <==> name in graph && OffersIn(graph[name], term)
    ensures name in TermSections(graph, term) ==>
              TermSections(graph, term)[name] == graph[name].sections.value[term]
    ensures name in TermSections(graph, term) && ValidCourseInfo(graph[name]) ==>
              forall section | section in TermSections(graph, term)[name] ::
                |TermSections(graph, term)[name][section]| == SectionEntryCount
  {
  }

  // ---------------------------------------------------------------------------------------
  // The membership test as written

  /** A Python value, as far as the test `"sections" in course_info` needs one: a string, or
      one of the `(field name, value)` pairs iterating a pydantic model yields. */
  datatype PyValue = PyStr(s: string) | PyFieldPair(field: string)

  /** Iterating a `CourseInfoModel` yields one `(name, value)` pair per declared field; a model
      defines no `__contains__`, so `in` compares against these pairs. */
  function ModelItems(c: CourseInfo): seq<PyValue>
  {
    [PyFieldPair("prereq_tree"), PyFieldPair("coreq_tree"), PyFieldPair("restrictions"),
     PyFieldPair("desc"), PyFieldPair("title"), PyFieldPair("credits"), PyFieldPair("sections")]
  }

  /** The guard of the loop as written: `"sections" in course_info and term in course_info.sections`. */
  predicate OffersInAsWritten(c: CourseInfo, term: string)
  {
    PyStr("sections") in ModelItems(c) && OffersIn(c, term)
  }

  function TermSectionsAsWritten(graph: map<string, CourseInfo>, term: string): map<string, map<string, seq<string>>>
  {
    map name | name in graph && OffersInAsWritten(graph[name], term) :: graph[name].sections.value[term]
  }

  /** As written, the guard is never true, so the table stays empty whatever the catalog, while
      a catalog with one course offered in the term should give a table with that course. */
  lemma AsWrittenTableAlwaysEmpty(graph: map<string, CourseInfo>, term: string)
    ensures TermSectionsAsWritten(graph, term) == map[]
    ensures var c := CourseInfo(None, None, [], "", "", None, Some(map[term := map[]]));
            TermSections(map["CS 100" := c], term) == map["CS 100" := map[]]
  {
    forall c: CourseInfo ensures !OffersInAsWritten(c, term) {
      assert PyStr("sections") !in ModelItems(c);
    }
    var c := CourseInfo(None, None, [], "", "", None, Some(map[term := map[]]));
    assert OffersIn(c, term);
  }

  // ---------------------------------------------------------------------------------------
  // The global state

  /** The module's global state: the loaded catalog and the two tables derived from it. */
  class Tables {
    var graphData: map<string, CourseInfo>
    var sectionsData: map<string, map<string, seq<string>>>
    var currentTermCourses: set<string>

    /** The state right after the module is imported: the loaded catalog, empty tables. */
    constructor (graph: map<string, CourseInfo>)
      ensures graphData == graph && sectionsData == map[] && currentTermCourses == {}
    {
      graphData := graph;
      sectionsData := map[];
      currentTermCourses := {};
    }

    /** In the whole table, the courses of the term and their sections; the set holds the same
        names. The catalog is not changed. */
    method UpdateSectionsData(term: string)
      modifies this
      ensures graphData == old(graphData)
      ensures sectionsData == TermSections(graphData, term)
      ensures currentTermCourses == sectionsData.Keys
    {
      var graph := graphData;
      var table: map<string, map<string, seq<string>>> := map[];
      var names: set<string> := {};
      var pending := graph.Keys;
      ghost var done: set<string> := {};
      while pending != {}
        invariant done == graph.Keys - pending && pending <= graph.Keys
        invariant table == TermSectionsOf(graph, done, term)
        invariant names == table.Keys
        invariant graphData == graph
        decreases pending
      {
        var name :| name in pending;
        var info := graph[name];
        TermSectionsOfStep(graph, done, name, term);
        if OffersIn(info, term) {
          table := table[name := info.sections.value[term]];
          names := names + {name};
        }
        pending := pending - {name};
        done := done + {name};
      }
      TermSectionsOfAll(graph, term);
      sectionsData := table;
      currentTermCourses := names;
    }

    method SetCurrentTerm(term: string)
      modifies this
      ensures graphData == old(graphData)
      ensures sectionsData == TermSections(graphData, term)
      ensures currentTermCourses == sectionsData.Keys
    {
      UpdateSectionsData(term);
    }
  }
}
