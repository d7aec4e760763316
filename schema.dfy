/** The requirement-tree schema of the catalog (backend/constants.py): six node kinds, closed
    literal sets for the enum-typed fields, restriction and course-info records, the all-or-nothing
    catalog load, and the term codes.

    Validation follows the pydantic models: every model forbids unknown keys, an `Optional[...]`
    field accepts a missing key or `null`, a `str` field accepts only a string, a `Literal[...]`
    field only one of its listed strings, and the node union is decided by the `type` tag.
    `ParseNode` is that validation on decoded JSON; `ValidNode` is the invariant every validated
    tree satisfies; `ToJson` writes a tree back, and `ParseNode(ToJson(n)) == Some(n)`. */
module Schema {
  import opened Wrappers
  import opened Json

  // ---------------------------------------------------------------------------------------
  // Literal sets

  const PlacementKinds: set<string> :=
    {"PLACEMENT_INTO_COURSE", "PLACEMENT_ABOVE_COURSE", "PLACEMENT_TEST_REQUIRED",
     "SCORE_THRESHOLD", "DIAGNOSTIC", "UNKNOWN"}

  const PermissionKinds: set<string> :=
    {"INSTRUCTOR_APPROVAL", "ADVISOR_APPROVAL", "DEPARTMENT_APPROVAL", "SCHOOL_APPROVAL",
     "PROGRAM_APPROVAL", "ADMIN_OVERRIDE", "UNKNOWN"}

  const PermissionAuthorities: set<string> :=
    {"INSTRUCTOR", "FACULTY_SUPERVISOR", "DEPARTMENT", "SCHOOL", "PROGRAM", "ADVISOR",
     "REGISTRAR", "UNKNOWN"}

  const PermissionActions: set<string> :=
    {"APPROVAL_REQUIRED", "SIGNATURE_REQUIRED", "PROPOSAL_APPROVAL", "APPLICATION_REQUIRED",
     "OVERRIDE_REQUIRED", "UNKNOWN"}

  const RestrictionKinds: set<string> :=
    {"MAJOR_ONLY", "PROGRAM_ONLY", "CLASS_STANDING_ONLY", "CAMPUS_ONLY", "COLLEGE_ONLY",
     "INSTRUCTOR_PERMISSION", "DEPARTMENT_PERMISSION", "ADVISOR_PERMISSION", "NOT_FOR_MAJOR",
     "NOT_FOR_PROGRAM", "NO_CREDIT_IF_TAKEN", "REPEAT_LIMIT", "CROSS_LISTED",
     "TIME_CONFLICT_RULE", "PRIOR_CREDIT_EXCLUSION", "PROGRAM_APPROVAL", "OTHER"}

  /** The values of `StandingNodeModel.normalized`. */
  const StandingLevels: set<string> := {"FRESHMAN", "SOPHOMORE", "JUNIOR", "SENIOR", "GRAD"}

  // ---------------------------------------------------------------------------------------
  // Requirement trees

  datatype BoolOp = And | Or

  /** `min_score` is a number or a string. */
  datatype Score = ScoreNumber(value: real) | ScoreText(text: string)

  datatype Node =
    | AndOrNode(op: BoolOp, children: seq<Node>)
    | CourseNode(course: string, minGrade: Option<string>)
    | PlacementNode(name: string, placementKind: Option<string>, subject: Option<string>,
                    exam: Option<string>, minCourse: Option<string>, level: Option<string>,
                    minScore: Option<Score>)
    | PermissionNode(raw: string, permissionKind: Option<string>, authority: Option<string>,
                     action: Option<string>, artifact: Option<seq<string>>)
    | StandingNode(standing: string, normalized: Option<string>)
    | SkillNode(name: string)

  /** The `type` tag a node is stored under. */
  function Tag(n: Node): string
  {
    match n
    case AndOrNode(op, _) => if op == And then "AND" else "OR"
    case CourseNode(_, _) => "COURSE"
    case PlacementNode(_, _, _, _, _, _, _) => "PLACEMENT"
    case PermissionNode(_, _, _, _, _) => "PERMISSION"
    case StandingNode(_, _) => "STANDING"
    case SkillNode(_) => "SKILL"
  }

  /** The keys each node model declares; any other key is rejected (`extra="forbid"`).
      A tag outside the six kinds admits no object at all. */
  function AllowedKeys(tag: string): set<string>
  {
    if tag == "AND" || tag == "OR" then {"type", "children"}
    else if tag == "COURSE" then {"type", "course", "min_grade"}
    else if tag == "PLACEMENT" then
      {"type", "name", "placement_kind", "subject", "exam", "min_course", "level", "min_score"}
    else if tag == "PERMISSION" then
      {"type", "raw", "permission_kind", "authority", "action", "artifact"}
    else if tag == "STANDING" then {"type", "standing", "normalized"}
    else if tag == "SKILL" then {"type", "name"}
    else {}
  }

  predicate InLiterals(o: Option<string>, literals: set<string>)
  {
    o.None? || o.value in literals
  }

  /** What every validated tree satisfies: each enum-typed field is absent or one of its literals,
      at every depth. AND/OR nodes may have any number of children, none included. */
  predicate ValidNode(n: Node)
  {
    match n
    case AndOrNode(_, cs) => forall i | 0 <= i < |cs| :: ValidNode(cs[i])
    case PlacementNode(_, kind, _, _, _, _, _) => InLiterals(kind, PlacementKinds)
    case PermissionNode(_, kind, authority, action, _) =>
      InLiterals(kind, PermissionKinds) && InLiterals(authority, PermissionAuthorities)
      && InLiterals(action, PermissionActions)
    case StandingNode(_, normalized) => InLiterals(normalized, StandingLevels)
    case _ => true
  }

  // ---------------------------------------------------------------------------------------
  // Field validators. `None` is a validation error; `Some(None)` an absent or null optional field.

  /** A required `str` field holds `s`. */
  predicate HoldsStr(f: map<string, Json>, key: string, s: string)
  {
    key in f && f[key] == JStr(s)
  }

  /** An optional string field holds `o`: absent or null for none, otherwise that string. */
  predicate HoldsOptStr(f: map<string, Json>, key: string, o: Option<string>)
  {
    if o.None? then key !in f || f[key] == JNull else key in f && f[key] == JStr(o.value)
  }

  /** An optional list-of-strings field holds `o`. */
  predicate HoldsOptStrList(f: map<string, Json>, key: string, o: Option<seq<string>>)
  {
    if o.None? then key !in f || f[key] == JNull else key in f && f[key] == StrList(o.value)
  }

  /** An optional number-or-string field holds `o`. */
  predicate HoldsOptScore(f: map<string, Json>, key: string, o: Option<Score>)
  {
    if o.None? then key !in f || f[key] == JNull else key in f && f[key] == ScoreJson(o.value)
  }

  /** An optional number field holds `o`. */
  predicate HoldsOptNum(f: map<string, Json>, key: string, o: Option<real>)
  {
    if o.None? then key !in f || f[key] == JNull else key in f && f[key] == JNum(o.value)
  }

  function StrList(xs: seq<string>): Json
  {
    JArr(seq(|xs|, i requires 0 <= i < |xs| => JStr(xs[i])))
  }

  function ScoreJson(x: Score): Json
  {
    match x
    case ScoreNumber(v) => JNum(v)
    case ScoreText(t) => JStr(t)
  }

  /** A required `str` field: accepted exactly when it holds a string, which is the result. */
  function RequiredStr(f: map<string, Json>, key: string): (r: Option<string>)
    ensures r.Some? <==> key in f && f[key].JStr?
    ensures r.Some? ==> HoldsStr(f, key, r.value)
  {
    if key in f && f[key].JStr? then Some(f[key].s) else None
  }

  /** An `Optional[str] = None` field: a missing key, null or a string. */
  function OptionalStr(f: map<string, Json>, key: string): (r: Option<Option<string>>)
    ensures r.Some? <==> key !in f || f[key] == JNull || f[key].JStr?
    ensures r.Some? ==> HoldsOptStr(f, key, r.value)
  {
    if key !in f || f[key] == JNull then Some(None)
    else if f[key].JStr? then Some(Some(f[key].s))
    else None
  }

  /** An `Optional[Literal[...]] = None` field: a missing key, null or one of the literals. */
  function OptionalLiteral(f: map<string, Json>, key: string, literals: set<string>): (r: Option<Option<string>>)
    ensures r.Some? <==> key !in f || f[key] == JNull || (f[key].JStr? && f[key].s in literals)
    ensures r.Some? ==> HoldsOptStr(f, key, r.value) && InLiterals(r.value, literals)
  {
    match OptionalStr(f, key)
    case Some(Some(s)) => if s in literals then Some(Some(s)) else None
    case other => other
  }

  predicate AllStrings(items: seq<Json>)
  {
    forall i | 0 <= i < |items| :: items[i].JStr?
  }

  function Strings(items: seq<Json>): (r: seq<string>)
    requires AllStrings(items)
    ensures |r| == |items| && forall i | 0 <= i < |items| :: items[i] == JStr(r[i])
  {
    seq(|items|, i requires 0 <= i < |items| => items[i].s)
  }

  /** A list of strings written as JSON reads back as the same strings, and a JSON list of strings
      is the JSON of its strings. */
  lemma StringsOfStrList(xs: seq<string>)
    ensures AllStrings(StrList(xs).items) && Strings(StrList(xs).items) == xs
  {
  }

  lemma StrListOfStrings(items: seq<Json>)
    requires AllStrings(items)
    ensures StrList(Strings(items)) == JArr(items)
  {
  }

  /** An `Optional[List[str]] = None` field: a missing key, null or a list of strings. */
  function OptionalStrList(f: map<string, Json>, key: string): (r: Option<Option<seq<string>>>)
    ensures r.Some? <==> key !in f || f[key] == JNull || (f[key].JArr? && AllStrings(f[key].items))
    ensures r.Some? ==> HoldsOptStrList(f, key, r.value)
  {
    if key !in f || f[key] == JNull then Some(None)
    else if f[key].JArr? && AllStrings(f[key].items) then
      StrListOfStrings(f[key].items);
      Some(Some(Strings(f[key].items)))
    else None
  }

  /** An `Optional[List[Literal[...]]] = None` field: as above, every string one of the literals. */
  function OptionalLiteralList(f: map<string, Json>, key: string, literals: set<string>): (r: Option<Option<seq<string>>>)
    ensures r.Some? <==> key !in f || f[key] == JNull
                         || (f[key].JArr? && AllStrings(f[key].items)
                             && forall i | 0 <= i < |f[key].items| :: f[key].items[i].s in literals)
    ensures r.Some? ==> HoldsOptStrList(f, key, r.value)
    ensures r.Some? && r.value.Some? ==> forall i | 0 <= i < |r.value.value| :: r.value.value[i] in literals
  {
    match OptionalStrList(f, key)
    case Some(Some(xs)) => if forall i | 0 <= i < |xs| :: xs[i] in literals then Some(Some(xs)) else None
    case other => other
  }

  /** An `Optional[Union[float, str]] = None` field: a missing key, null, a number or a string. */
  function OptionalScore(f: map<string, Json>, key: string): (r: Option<Option<Score>>)
    ensures r.Some? <==> key !in f || f[key] == JNull || f[key].JNum? || f[key].JStr?
    ensures r.Some? ==> HoldsOptScore(f, key, r.value)
  {
    if key !in f || f[key] == JNull then Some(None)
    else if f[key].JNum? then Some(Some(ScoreNumber(f[key].n)))
    else if f[key].JStr? then Some(Some(ScoreText(f[key].s)))
    else None
  }

  // ---------------------------------------------------------------------------------------
  // Validation of a node (`NodesModel`)

  function ParseCourse(f: map<string, Json>): (r: Option<Node>)
    ensures r.Some? ==> r.value.CourseNode?
  {
    match (RequiredStr(f, "course"), OptionalStr(f, "min_grade"))
    case (Some(course), Some(grade)) => Some(CourseNode(course, grade))
    case _ => None
  }

  function ParsePlacement(f: map<string, Json>): (r: Option<Node>)
    ensures r.Some? ==> r.value.PlacementNode? && ValidNode(r.value)
  {
    match (RequiredStr(f, "name"), OptionalLiteral(f, "placement_kind", PlacementKinds),
           OptionalStr(f, "subject"), OptionalStr(f, "exam"), OptionalStr(f, "min_course"),
           OptionalStr(f, "level"), OptionalScore(f, "min_score"))
    case (Some(name), Some(kind), Some(subject), Some(exam), Some(minCourse), Some(level), Some(score)) =>
      Some(PlacementNode(name, kind, subject, exam, minCourse, level, score))
    case _ => None
  }

  function ParsePermission(f: map<string, Json>): (r: Option<Node>)
    ensures r.Some? ==> r.value.PermissionNode? && ValidNode(r.value)
  {
    match (RequiredStr(f, "raw"), OptionalLiteral(f, "permission_kind", PermissionKinds),
           OptionalLiteral(f, "authority", PermissionAuthorities),
           OptionalLiteral(f, "action", PermissionActions), OptionalStrList(f, "artifact"))
    case (Some(raw), Some(kind), Some(authority), Some(action), Some(artifact)) =>
      Some(PermissionNode(raw, kind, authority, action, artifact))
    case _ => None
  }

  function ParseStanding(f: map<string, Json>): (r: Option<Node>)
    ensures r.Some? ==> r.value.StandingNode? && ValidNode(r.value)
  {
    match (RequiredStr(f, "standing"), OptionalLiteral(f, "normalized", StandingLevels))
    case (Some(standing), Some(normalized)) => Some(StandingNode(standing, normalized))
    case _ => None
  }

  function ParseSkill(f: map<string, Json>): (r: Option<Node>)
    ensures r.Some? ==> r.value.SkillNode?
  {
    match RequiredStr(f, "name")
    case Some(name) => Some(SkillNode(name))
    case None => None
  }

  /** Validates decoded JSON against the node union. A result is always a valid tree of the
      variant the `type` tag names, decoded from an object whose keys that variant declares. */
  function ParseNode(j: Json): (r: Option<Node>)
    ensures r.Some? ==> ValidNode(r.value)
    ensures r.Some? ==> j.JObj? && "type" in j.fields && j.fields["type"] == JStr(Tag(r.value))
    ensures r.Some? ==> j.fields.Keys <= AllowedKeys(Tag(r.value))
  {
    if !j.JObj? then None
    else
      var f := j.fields;
      if "type" !in f || !f["type"].JStr? then None
      else
        var tag := f["type"].s;
        if !(f.Keys <= AllowedKeys(tag)) then None
        else if tag == "AND" || tag == "OR" then
          if "children" in f && f["children"].JArr? then
            assert f["children"] in f.Values;
            var items := f["children"].items;
            if forall i | 0 <= i < |items| :: ParseNode(items[i]).Some? then
              var children := seq(|items|, i requires 0 <= i < |items| => ParseNode(items[i]).value);
              Some(AndOrNode(if tag == "AND" then And else Or, children))
            else None
          else None
        else if tag == "COURSE" then ParseCourse(f)
        else if tag == "PLACEMENT" then ParsePlacement(f)
        else if tag == "PERMISSION" then ParsePermission(f)
        else if tag == "STANDING" then ParseStanding(f)
        else if tag == "SKILL" then ParseSkill(f)
        else None
  }

  // ---------------------------------------------------------------------------------------
  // Writing a tree back as JSON (optional fields that are `None` are left out)

  function PutStr(m: map<string, Json>, key: string, o: Option<string>): (r: map<string, Json>)
  {
    if o.Some? then m[key := JStr(o.value)] else m
  }

  function PutScore(m: map<string, Json>, key: string, o: Option<Score>): (r: map<string, Json>)
  {
    if o.Some? then m[key := ScoreJson(o.value)] else m
  }

  function PutStrList(m: map<string, Json>, key: string, o: Option<seq<string>>): (r: map<string, Json>)
  {
    if o.Some? then m[key := StrList(o.value)] else m
  }

  /** Writes a tree as the JSON object its model would be dumped to, leaving out `None` fields. */
  function ToJson(n: Node): Json
  {
    match n
    case AndOrNode(op, cs) =>
      JObj(map["type" := JStr(Tag(n)),
               "children" := JArr(seq(|cs|, i requires 0 <= i < |cs| => ToJson(cs[i])))])
    case CourseNode(course, grade) =>
      JObj(PutStr(map["type" := JStr("COURSE"), "course" := JStr(course)], "min_grade", grade))
    case PlacementNode(name, kind, subject, exam, minCourse, level, score) =>
      var m0 := map["type" := JStr("PLACEMENT"), "name" := JStr(name)];
      var m1 := PutStr(PutStr(m0, "placement_kind", kind), "subject", subject);
      var m2 := PutStr(PutStr(m1, "exam", exam), "min_course", minCourse);
      JObj(PutScore(PutStr(m2, "level", level), "min_score", score))
    case PermissionNode(raw, kind, authority, action, artifact) =>
      var m0 := map["type" := JStr("PERMISSION"), "raw" := JStr(raw)];
      var m1 := PutStr(PutStr(m0, "permission_kind", kind), "authority", authority);
      JObj(PutStrList(PutStr(m1, "action", action), "artifact", artifact))
    case StandingNode(standing, normalized) =>
      JObj(PutStr(map["type" := JStr("STANDING"), "standing" := JStr(standing)], "normalized", normalized))
    case SkillNode(name) =>
      JObj(map["type" := JStr("SKILL"), "name" := JStr(name)])
  }

  // ---------------------------------------------------------------------------------------
  // What validation accepts, exactly

  lemma RequiredStrExact(f: map<string, Json>, key: string, x: string)
    ensures RequiredStr(f, key) == Some(x) <==> HoldsStr(f, key, x)
  {
  }

  lemma OptionalStrExact(f: map<string, Json>, key: string, o: Option<string>)
    ensures OptionalStr(f, key) == Some(o) <==> HoldsOptStr(f, key, o)
  {
  }

  lemma OptionalLiteralExact(f: map<string, Json>, key: string, literals: set<string>, o: Option<string>)
    ensures OptionalLiteral(f, key, literals) == Some(o) <==> HoldsOptStr(f, key, o) && InLiterals(o, literals)
  {
  }

  lemma OptionalStrListExact(f: map<string, Json>, key: string, o: Option<seq<string>>)
    ensures OptionalStrList(f, key) == Some(o) <==> HoldsOptStrList(f, key, o)
  {
    if o.Some? {
      StringsOfStrList(o.value);
    }
  }

  lemma OptionalLiteralListExact(f: map<string, Json>, key: string, literals: set<string>, o: Option<seq<string>>)
    ensures OptionalLiteralList(f, key, literals) == Some(o)
            <==> HoldsOptStrList(f, key, o) && (o.Some? ==> forall i | 0 <= i < |o.value| :: o.value[i] in literals)
  {
    OptionalStrListExact(f, key, o);
  }

  lemma OptionalScoreExact(f: map<string, Json>, key: string, o: Option<Score>)
    ensures OptionalScore(f, key) == Some(o) <==> HoldsOptScore(f, key, o)
  {
  }

  /** The object `f` is one the node `n` validates from: it carries the node's `type` tag and
      only keys that variant declares, each field holds the node's value (absent or null for
      `None`), and the items of a group's `children` validate to its children, in order. */
  predicate Describes(f: map<string, Json>, n: Node)
  {
    && "type" in f && f["type"] == JStr(Tag(n)) && f.Keys <= AllowedKeys(Tag(n))
    && match n
       case AndOrNode(_, cs) =>
         && "children" in f && f["children"].JArr? && |f["children"].items| == |cs|
         && forall i | 0 <= i < |cs| :: ParseNode(f["children"].items[i]) == Some(cs[i])
       case CourseNode(course, grade) => HoldsStr(f, "course", course) && HoldsOptStr(f, "min_grade", grade)
       case PlacementNode(name, kind, subject, exam, minCourse, level, score) =>
         && HoldsStr(f, "name", name) && HoldsOptStr(f, "placement_kind", kind)
         && HoldsOptStr(f, "subject", subject) && HoldsOptStr(f, "exam", exam)
         && HoldsOptStr(f, "min_course", minCourse) && HoldsOptStr(f, "level", level)
         && HoldsOptScore(f, "min_score", score)
       case PermissionNode(raw, kind, authority, action, artifact) =>
         && HoldsStr(f, "raw", raw) && HoldsOptStr(f, "permission_kind", kind)
         && HoldsOptStr(f, "authority", authority) && HoldsOptStr(f, "action", action)
         && HoldsOptStrList(f, "artifact", artifact)
       case StandingNode(standing, normalized) =>
         HoldsStr(f, "standing", standing) && HoldsOptStr(f, "normalized", normalized)
       case SkillNode(name) => HoldsStr(f, "name", name)
  }

  /** An object validates to `n` exactly when it describes `n` and `n` is a valid tree: the
      validated node is determined by the JSON, and every valid node has JSON it comes from. */
  lemma ParseNodeExactly(f: map<string, Json>, n: Node)
    ensures ParseNode(JObj(f)) == Some(n) <==> Describes(f, n) && ValidNode(n)
  {
    match n
    case AndOrNode(_, _) => AndOrExactly(f, n);
    case CourseNode(course, grade) =>
      RequiredStrExact(f, "course", course);
      OptionalStrExact(f, "min_grade", grade);
    case PlacementNode(_, _, _, _, _, _, _) => PlacementExactly(f, n);
    case PermissionNode(_, _, _, _, _) => PermissionExactly(f, n);
    case StandingNode(standing, normalized) =>
      RequiredStrExact(f, "standing", standing);
      OptionalLiteralExact(f, "normalized", StandingLevels, normalized);
    case SkillNode(name) => RequiredStrExact(f, "name", name);
  }

  lemma AndOrExactly(f: map<string, Json>, n: Node)
    requires n.AndOrNode?
    ensures ParseNode(JObj(f)) == Some(n) <==> Describes(f, n) && ValidNode(n)
  {
    var cs := n.children;
    if ParseNode(JObj(f)) == Some(n) {
      var items := f["children"].items;
      assert seq(|items|, i requires 0 <= i < |items| => ParseNode(items[i]).value) == cs;
      assert forall i | 0 <= i < |cs| :: ParseNode(items[i]).Some? && ParseNode(items[i]).value == cs[i];
    }
    if Describes(f, n) && ValidNode(n) {
      var items := f["children"].items;
      assert forall i | 0 <= i < |items| :: ParseNode(items[i]).Some?;
      assert seq(|items|, i requires 0 <= i < |items| => ParseNode(items[i]).value) == cs;
    }
  }

  lemma PlacementExactly(f: map<string, Json>, n: Node)
    requires n.PlacementNode?
    ensures ParseNode(JObj(f)) == Some(n) <==> Describes(f, n) && ValidNode(n)
  {
    RequiredStrExact(f, "name", n.name);
    OptionalLiteralExact(f, "placement_kind", PlacementKinds, n.placementKind);
    OptionalStrExact(f, "subject", n.subject);
    OptionalStrExact(f, "exam", n.exam);
    OptionalStrExact(f, "min_course", n.minCourse);
    OptionalStrExact(f, "level", n.level);
    OptionalScoreExact(f, "min_score", n.minScore);
  }

  lemma PermissionExactly(f: map<string, Json>, n: Node)
    requires n.PermissionNode?
    ensures ParseNode(JObj(f)) == Some(n) <==> Describes(f, n) && ValidNode(n)
  {
    RequiredStrExact(f, "raw", n.raw);
    OptionalLiteralExact(f, "permission_kind", PermissionKinds, n.permissionKind);
    OptionalLiteralExact(f, "authority", PermissionAuthorities, n.authority);
    OptionalLiteralExact(f, "action", PermissionActions, n.action);
    OptionalStrListExact(f, "artifact", n.artifact);
  }

  // ---------------------------------------------------------------------------------------
  // Round trip

  /** The JSON a leaf is written as describes it. */
  lemma LeafJsonDescribes(n: Node)
    requires !n.AndOrNode?
    ensures Describes(ToJson(n).fields, n)
  {
    match n
    case PlacementNode(_, _, _, _, _, _, _) => PlacementJsonDescribes(n);
    case PermissionNode(_, _, _, _, _) => PermissionJsonDescribes(n);
    case _ =>
  }

  lemma PlacementJsonDescribes(n: Node)
    requires n.PlacementNode?
    ensures Describes(ToJson(n).fields, n)
  {
    PlacementJsonFirst(n);
    PlacementJsonRest(n);
  }

  lemma PlacementJsonFirst(n: Node)
    requires n.PlacementNode?
    ensures var f := ToJson(n).fields;
            && f["type"] == JStr("PLACEMENT") && f.Keys <= AllowedKeys("PLACEMENT") && HoldsStr(f, "name", n.name)
            && HoldsOptStr(f, "placement_kind", n.placementKind) && HoldsOptStr(f, "subject", n.subject)
  {
    var m1 := PutStr(PutStr(map["type" := JStr("PLACEMENT"), "name" := JStr(n.name)],
                "placement_kind", n.placementKind), "subject", n.subject);
    PlacementJsonStart(n, m1);
    assert ToJson(n).fields.Keys <= m1.Keys + {"exam", "min_course", "level", "min_score"};
  }

  lemma PlacementJsonStart(n: Node, m1: map<string, Json>)
    requires n.PlacementNode?
    requires m1 == PutStr(PutStr(map["type" := JStr("PLACEMENT"), "name" := JStr(n.name)],
                     "placement_kind", n.placementKind), "subject", n.subject)
    ensures m1["type"] == JStr("PLACEMENT") && HoldsStr(m1, "name", n.name)
    ensures HoldsOptStr(m1, "placement_kind", n.placementKind) && HoldsOptStr(m1, "subject", n.subject)
    ensures m1.Keys <= {"type", "name", "placement_kind", "subject"}
    ensures "exam" !in m1 && "min_course" !in m1 && "level" !in m1 && "min_score" !in m1
  {
  }

  lemma PlacementJsonRest(n: Node)
    requires n.PlacementNode?
    ensures var f := ToJson(n).fields;
            && HoldsOptStr(f, "exam", n.exam) && HoldsOptStr(f, "min_course", n.minCourse)
            && HoldsOptStr(f, "level", n.level) && HoldsOptScore(f, "min_score", n.minScore)
  {
    var m2 := PutStr(PutStr(PutStr(PutStr(map["type" := JStr("PLACEMENT"), "name" := JStr(n.name)],
                "placement_kind", n.placementKind), "subject", n.subject), "exam", n.exam), "min_course", n.minCourse);
    PlacementJsonMiddle(n, m2);
    var m3 := PutStr(m2, "level", n.level);
    assert ToJson(n).fields == PutScore(m3, "min_score", n.minScore);
    assert "min_score" !in m3 && HoldsOptStr(m3, "level", n.level);
  }

  lemma PlacementJsonMiddle(n: Node, m2: map<string, Json>)
    requires n.PlacementNode?
    requires m2 == PutStr(PutStr(PutStr(PutStr(map["type" := JStr("PLACEMENT"), "name" := JStr(n.name)],
                     "placement_kind", n.placementKind), "subject", n.subject), "exam", n.exam), "min_course", n.minCourse)
    ensures HoldsOptStr(m2, "exam", n.exam) && HoldsOptStr(m2, "min_course", n.minCourse)
    ensures "level" !in m2 && "min_score" !in m2
  {
  }

  lemma PermissionJsonDescribes(n: Node)
    requires n.PermissionNode?
    ensures Describes(ToJson(n).fields, n)
  {
    var m1 := PutStr(PutStr(map["type" := JStr("PERMISSION"), "raw" := JStr(n.raw)],
                "permission_kind", n.permissionKind), "authority", n.authority);
    PermissionJsonStart(n, m1);
    var m2 := PutStr(m1, "action", n.action);
    assert ToJson(n).fields == PutStrList(m2, "artifact", n.artifact);
    assert ToJson(n).fields.Keys <= m1.Keys + {"action", "artifact"};
  }

  lemma PermissionJsonStart(n: Node, m1: map<string, Json>)
    requires n.PermissionNode?
    requires m1 == PutStr(PutStr(map["type" := JStr("PERMISSION"), "raw" := JStr(n.raw)],
                     "permission_kind", n.permissionKind), "authority", n.authority)
    ensures m1["type"] == JStr("PERMISSION") && HoldsStr(m1, "raw", n.raw)
    ensures HoldsOptStr(m1, "permission_kind", n.permissionKind) && HoldsOptStr(m1, "authority", n.authority)
    ensures m1.Keys <= {"type", "raw", "permission_kind", "authority"}
    ensures "action" !in m1 && "artifact" !in m1
  {
  }

  /** Every valid tree written back as JSON validates to itself: validation accepts at least
      everything `ValidNode` admits, and loses nothing. */
  lemma {:induction false} ParseToJson(n: Node)
    requires ValidNode(n)
    ensures ParseNode(ToJson(n)) == Some(n)
  {
    var f := ToJson(n).fields;
    match n
    case AndOrNode(op, cs) =>
      forall i | 0 <= i < |cs| ensures ParseNode(f["children"].items[i]) == Some(cs[i]) {
        ParseToJson(cs[i]);
      }
      assert Describes(f, n);
      ParseNodeExactly(f, n);
    case _ =>
      LeafJsonDescribes(n);
      ParseNodeExactly(f, n);
  }

  /** An AND/OR node with no children is accepted: `children` has no minimum length. */
  lemma EmptyChildrenAccepted(tag: string)
    requires tag == "AND" || tag == "OR"
    ensures ParseNode(JObj(map["type" := JStr(tag), "children" := JArr([])])).Some?
  {
    var f := map["type" := JStr(tag), "children" := JArr([])];
    assert f.Keys == AllowedKeys(tag);
  }

  /** A key the tagged variant does not declare rejects the object, whatever else it holds. */
  lemma UnknownKeyRejected(f: map<string, Json>, key: string)
    requires "type" in f && f["type"].JStr? && key in f && key !in AllowedKeys(f["type"].s)
    ensures ParseNode(JObj(f)) == None
  {
  }

  /** An enum-typed field holding a string outside its literals rejects the node. */
  lemma PlacementKindOutsideLiteralsRejected(f: map<string, Json>, kind: string)
    requires "placement_kind" in f && f["placement_kind"] == JStr(kind) && kind !in PlacementKinds
    ensures ParseNode(JObj(f)) == None
  {
  }

  lemma PermissionKindOutsideLiteralsRejected(f: map<string, Json>, kind: string)
    requires "permission_kind" in f && f["permission_kind"] == JStr(kind) && kind !in PermissionKinds
    ensures ParseNode(JObj(f)) == None
  {
  }

  lemma AuthorityOutsideLiteralsRejected(f: map<string, Json>, authority: string)
    requires "authority" in f && f["authority"] == JStr(authority) && authority !in PermissionAuthorities
    ensures ParseNode(JObj(f)) == None
  {
  }

  lemma ActionOutsideLiteralsRejected(f: map<string, Json>, action: string)
    requires "action" in f && f["action"] == JStr(action) && action !in PermissionActions
    ensures ParseNode(JObj(f)) == None
  {
  }

  lemma NormalizedOutsideLiteralsRejected(f: map<string, Json>, level: string)
    requires "normalized" in f && f["normalized"] == JStr(level) && level !in StandingLevels
    ensures ParseNode(JObj(f)) == None
  {
  }

  // ---------------------------------------------------------------------------------------
  // Restrictions and catalog entries

  datatype Restriction = Restriction(raw: string, kinds: Option<seq<string>>, entities: Option<seq<string>>)

  /** Term code -> section number -> the 13 strings of a section row. */
  type Sections = map<string, map<string, seq<string>>>

  datatype CourseInfo = CourseInfo(
    prereqTree: Option<Node>,
    coreqTree: Option<Node>,
    restrictions: seq<Restriction>,
    desc: string,
    title: string,
    credits: Option<real>,
    sections: Option<Sections>)

  const RestrictionKeys: set<string> := {"raw", "kinds", "entities"}

  const CourseInfoKeys: set<string> :=
    {"prereq_tree", "coreq_tree", "restrictions", "desc", "title", "credits", "sections"}

  /** The keys a catalog entry must carry (`credits` and `sections` have defaults). */
  const RequiredCourseInfoKeys: set<string> := {"prereq_tree", "coreq_tree", "restrictions", "desc", "title"}

  /** Number of strings in a section row (`SectionEntries`). */
  const SectionEntryCount := 13

  /** A tree root is absent or an AND/OR node; a bare leaf is never a root. */
  predicate ValidRoot(t: Option<Node>)
  {
    t.None? || (t.value.AndOrNode? && ValidNode(t.value))
  }

  predicate ValidRestriction(r: Restriction)
  {
    r.kinds.Some? ==> forall i | 0 <= i < |r.kinds.value| :: r.kinds.value[i] in RestrictionKinds
  }

  predicate ValidSections(s: Sections)
  {
    forall term, section | term in s && section in s[term] :: |s[term][section]| == SectionEntryCount
  }

  /** What every validated catalog entry satisfies. */
  predicate ValidCourseInfo(c: CourseInfo)
  {
    && ValidRoot(c.prereqTree) && ValidRoot(c.coreqTree)
    && (forall i | 0 <= i < |c.restrictions| :: ValidRestriction(c.restrictions[i]))
    && (c.sections.Some? ==> ValidSections(c.sections.value))
  }

  /** The object `f` is one the restriction `x` validates from: only the three declared keys,
      `raw` holding its text, and `kinds` and `entities` holding its lists (absent or null for
      `None`). */
  predicate DescribesRestriction(f: map<string, Json>, x: Restriction)
  {
    && f.Keys <= RestrictionKeys && HoldsStr(f, "raw", x.raw)
    && HoldsOptStrList(f, "kinds", x.kinds) && HoldsOptStrList(f, "entities", x.entities)
  }

  /** Validates one restriction (`RestrictionModel`). */
  function ParseRestriction(j: Json): (r: Option<Restriction>)
    ensures r.Some? ==> j.JObj? && DescribesRestriction(j.fields, r.value) && ValidRestriction(r.value)
  {
    if !j.JObj? || !(j.fields.Keys <= RestrictionKeys) then None
    else
      match (RequiredStr(j.fields, "raw"), OptionalLiteralList(j.fields, "kinds", RestrictionKinds),
             OptionalStrList(j.fields, "entities"))
      case (Some(raw), Some(kinds), Some(entities)) => Some(Restriction(raw, kinds, entities))
      case _ => None
  }

  /** A tree root field holds `t`: the key is present, null for none, otherwise validating to
      the AND/OR node `t`. */
  predicate HoldsRoot(f: map<string, Json>, key: string, t: Option<Node>)
  {
    key in f && if t.None? then f[key] == JNull else t.value.AndOrNode? && ParseNode(f[key]) == t
  }

  /** `Optional[AndOrNodeModel]` with no default: the key is required, and holds null or an
      AND/OR node. */
  function ParseRoot(f: map<string, Json>, key: string): (r: Option<Option<Node>>)
    ensures key in f && f[key] == JNull ==> r == Some(None)
    ensures r.Some? ==> HoldsRoot(f, key, r.value) && ValidRoot(r.value)
  {
    if key !in f then None
    else if f[key] == JNull then Some(None)
    else
      match ParseNode(f[key])
      case Some(n) => if n.AndOrNode? then Some(Some(n)) else None
      case None => None
  }

  /** The `restrictions` field holds the list `rs`: each item validates to the restriction at
      its position. */
  predicate HoldsRestrictions(f: map<string, Json>, rs: seq<Restriction>)
  {
    && "restrictions" in f && f["restrictions"].JArr? && |f["restrictions"].items| == |rs|
    && forall i | 0 <= i < |rs| :: ParseRestriction(f["restrictions"].items[i]) == Some(rs[i])
  }

  function ParseRestrictions(f: map<string, Json>): (r: Option<seq<Restriction>>)
    ensures r.Some? ==> HoldsRestrictions(f, r.value)
    ensures r.Some? ==> forall i | 0 <= i < |r.value| :: ValidRestriction(r.value[i])
  {
    if "restrictions" in f && f["restrictions"].JArr? then
      var items := f["restrictions"].items;
      if forall i | 0 <= i < |items| :: ParseRestriction(items[i]).Some? then
        Some(seq(|items|, i requires 0 <= i < |items| => ParseRestriction(items[i]).value))
      else None
    else None
  }

  /** `Optional[float] = None`: a missing key, null or a number. */
  function ParseCredits(f: map<string, Json>): (r: Option<Option<real>>)
    ensures r.Some? <==> "credits" !in f || f["credits"] == JNull || f["credits"].JNum?
    ensures r.Some? ==> HoldsOptNum(f, "credits", r.value)
  {
    if "credits" !in f || f["credits"] == JNull then Some(None)
    else if f["credits"].JNum? then Some(Some(f["credits"].n))
    else None
  }

  predicate SectionRowOk(j: Json)
  {
    j.JArr? && |j.items| == SectionEntryCount && AllStrings(j.items)
  }

  predicate SectionInfoOk(j: Json)
  {
    j.JObj? && forall section | section in j.fields :: SectionRowOk(j.fields[section])
  }

  /** Section rows written as JSON: section number -> list of strings. */
  function SectionInfoJson(m: map<string, seq<string>>): Json
  {
    JObj(map section | section in m :: StrList(m[section]))
  }

  /** All sections written as JSON: term -> section number -> list of strings. */
  function SectionsJson(s: Sections): Json
  {
    JObj(map term | term in s :: SectionInfoJson(s[term]))
  }

  function SectionInfoOf(j: Json): (r: map<string, seq<string>>)
    requires SectionInfoOk(j)
    ensures forall section | section in r :: |r[section]| == SectionEntryCount
    ensures SectionInfoJson(r) == j
  {
    SectionInfoWritesBack(j);
    map section | section in j.fields :: Strings(j.fields[section].items)
  }

  lemma SectionInfoWritesBack(j: Json)
    requires SectionInfoOk(j)
    ensures SectionInfoJson(map section | section in j.fields :: Strings(j.fields[section].items)) == j
  {
    var m := map section | section in j.fields :: Strings(j.fields[section].items);
    forall section | section in j.fields ensures StrList(m[section]) == j.fields[section] {
      StrListOfStrings(j.fields[section].items);
    }
    assert (map section | section in m :: StrList(m[section])) == j.fields;
  }

  /** The `sections` field holds `o`: absent or null for none, otherwise the sections' JSON. */
  predicate HoldsSections(f: map<string, Json>, o: Option<Sections>)
  {
    if o.None? then "sections" !in f || f["sections"] == JNull
    else "sections" in f && f["sections"] == SectionsJson(o.value)
  }

  /** `Optional[Dict[str, Dict[str, Tuple[str x 13]]]] = None`. */
  function ParseSections(f: map<string, Json>): (r: Option<Option<Sections>>)
    ensures r.Some? ==> HoldsSections(f, r.value)
    ensures r.Some? && r.value.Some? ==> ValidSections(r.value.value)
  {
    if "sections" !in f || f["sections"] == JNull then Some(None)
    else if f["sections"].JObj? && forall term | term in f["sections"].fields :: SectionInfoOk(f["sections"].fields[term])
    then
      var terms := f["sections"].fields;
      var s := map term | term in terms :: SectionInfoOf(terms[term]);
      assert (map term | term in s :: SectionInfoJson(s[term])) == terms;
      Some(Some(s))
    else None
  }

  /** The object `f` is one the catalog entry `c` validates from: only declared keys, both tree
      roots present, each item of `restrictions` validating to the entry's restriction at that
      position, `desc` and `title` holding its strings, and `credits` and `sections` holding
      its values (absent or null for `None`). */
  predicate DescribesCourseInfo(f: map<string, Json>, c: CourseInfo)
  {
    && f.Keys <= CourseInfoKeys
    && HoldsRoot(f, "prereq_tree", c.prereqTree) && HoldsRoot(f, "coreq_tree", c.coreqTree)
    && HoldsRestrictions(f, c.restrictions)
    && HoldsStr(f, "desc", c.desc) && HoldsStr(f, "title", c.title)
    && HoldsOptNum(f, "credits", c.credits) && HoldsSections(f, c.sections)
  }

  /** Validates one catalog entry (`CourseInfoModel`): the five required keys are present, no
      other key than the seven declared ones appears, and the result is the valid entry the
      object describes. */
  function ParseCourseInfo(j: Json): (r: Option<CourseInfo>)
    ensures r.Some? ==> j.JObj? && RequiredCourseInfoKeys <= j.fields.Keys <= CourseInfoKeys
    ensures r.Some? ==> DescribesCourseInfo(j.fields, r.value) && ValidCourseInfo(r.value)
  {
    if !j.JObj? || !(j.fields.Keys <= CourseInfoKeys) then None
    else
      var f := j.fields;
      match (ParseRoot(f, "prereq_tree"), ParseRoot(f, "coreq_tree"), ParseRestrictions(f),
             RequiredStr(f, "desc"), RequiredStr(f, "title"), ParseCredits(f), ParseSections(f))
      case (Some(pre), Some(co), Some(rs), Some(desc), Some(title), Some(credits), Some(sections)) =>
        Some(CourseInfo(pre, co, rs, desc, title, credits, sections))
      case _ => None
  }

  // ---------------------------------------------------------------------------------------
  // Restrictions and catalog entries: what validation accepts, exactly

  /** An object validates to the restriction `x` exactly when it describes `x` and every kind
      of `x` is a RestrictionKind. */
  lemma ParseRestrictionExactly(f: map<string, Json>, x: Restriction)
    ensures ParseRestriction(JObj(f)) == Some(x) <==> DescribesRestriction(f, x) && ValidRestriction(x)
  {
    RequiredStrExact(f, "raw", x.raw);
    OptionalLiteralListExact(f, "kinds", RestrictionKinds, x.kinds);
    OptionalStrListExact(f, "entities", x.entities);
  }

  /** `kinds` and `entities` are optional: a restriction with only its text is accepted. */
  lemma RawOnlyRestrictionAccepted(raw: string)
    ensures ParseRestriction(JObj(map["raw" := JStr(raw)])) == Some(Restriction(raw, None, None))
  {
    ParseRestrictionExactly(map["raw" := JStr(raw)], Restriction(raw, None, None));
  }

  /** A kind outside RestrictionKind rejects the restriction. */
  lemma RestrictionKindOutsideLiteralsRejected(f: map<string, Json>, i: nat, kind: string)
    requires "kinds" in f && f["kinds"].JArr? && i < |f["kinds"].items|
    requires f["kinds"].items[i] == JStr(kind) && kind !in RestrictionKinds
    ensures ParseRestriction(JObj(f)) == None
  {
  }

  lemma ParseRootExactly(f: map<string, Json>, key: string, t: Option<Node>)
    ensures ParseRoot(f, key) == Some(t) <==> HoldsRoot(f, key, t)
  {
  }

  lemma ParseRestrictionsExactly(f: map<string, Json>, rs: seq<Restriction>)
    ensures ParseRestrictions(f) == Some(rs) <==> HoldsRestrictions(f, rs)
  {
    if HoldsRestrictions(f, rs) {
      var items := f["restrictions"].items;
      assert forall i | 0 <= i < |items| :: ParseRestriction(items[i]).Some?;
      assert seq(|items|, i requires 0 <= i < |items| => ParseRestriction(items[i]).value) == rs;
    }
  }

  lemma ParseSectionsExactly(f: map<string, Json>, o: Option<Sections>)
    ensures ParseSections(f) == Some(o) <==> HoldsSections(f, o) && (o.Some? ==> ValidSections(o.value))
  {
    if o.Some? && HoldsSections(f, o) && ValidSections(o.value) {
      SectionsReadBack(o.value);
    }
  }

  /** Valid sections written as JSON validate back to themselves. */
  lemma SectionsReadBack(s: Sections)
    requires ValidSections(s)
    ensures ParseSections(map["sections" := SectionsJson(s)]) == Some(Some(s))
  {
    var terms := SectionsJson(s).fields;
    forall term | term in terms ensures SectionInfoOk(terms[term]) && SectionInfoOf(terms[term]) == s[term] {
      SectionInfoReadBack(s[term]);
    }
    assert (map term | term in terms :: SectionInfoOf(terms[term])) == s;
  }

  lemma SectionInfoReadBack(m: map<string, seq<string>>)
    requires forall section | section in m :: |m[section]| == SectionEntryCount
    ensures SectionInfoOk(SectionInfoJson(m)) && SectionInfoOf(SectionInfoJson(m)) == m
  {
    var j := SectionInfoJson(m);
    forall section | section in m ensures SectionRowOk(j.fields[section]) && Strings(j.fields[section].items) == m[section] {
      StringsOfStrList(m[section]);
    }
    assert SectionInfoOf(j) == m;
  }

  /** An object validates to the catalog entry `c` exactly when it describes `c` and `c` is a
      valid entry: the entry is determined by the JSON, and every valid entry has JSON it comes from. */
  lemma ParseCourseInfoExactly(f: map<string, Json>, c: CourseInfo)
    ensures ParseCourseInfo(JObj(f)) == Some(c) <==> DescribesCourseInfo(f, c) && ValidCourseInfo(c)
  {
    ParseRootExactly(f, "prereq_tree", c.prereqTree);
    ParseRootExactly(f, "coreq_tree", c.coreqTree);
    ParseRestrictionsExactly(f, c.restrictions);
    RequiredStrExact(f, "desc", c.desc);
    RequiredStrExact(f, "title", c.title);
    ParseSectionsExactly(f, c.sections);
  }

  /** `credits` and `sections` are optional: an entry with only the five required keys, null
      trees and no restrictions is accepted. */
  lemma MinimalEntryAccepted(desc: string, title: string)
    ensures ParseCourseInfo(JObj(map["prereq_tree" := JNull, "coreq_tree" := JNull, "restrictions" := JArr([]),
                                     "desc" := JStr(desc), "title" := JStr(title)]))
            == Some(CourseInfo(None, None, [], desc, title, None, None))
  {
    var f := map["prereq_tree" := JNull, "coreq_tree" := JNull, "restrictions" := JArr([]),
                 "desc" := JStr(desc), "title" := JStr(title)];
    assert f.Keys <= CourseInfoKeys;
    ParseCourseInfoExactly(f, CourseInfo(None, None, [], desc, title, None, None));
  }

  /** A bare leaf where a tree root belongs rejects the whole entry. */
  lemma LeafRootRejected(f: map<string, Json>, n: Node)
    requires "prereq_tree" in f && ParseNode(f["prereq_tree"]) == Some(n) && !n.AndOrNode?
    ensures ParseCourseInfo(JObj(f)) == None
  {
  }

  /** Validates a dictionary whose values are validated by `parse` (pydantic's `Dict[str, V]`):
      it fails as soon as one value fails, and otherwise keeps every key. */
  function ParseDict<V>(j: Json, parse: Json -> Option<V>): (r: Option<map<string, V>>)
    ensures r.Some? <==> j.JObj? && forall k | k in j.fields :: parse(j.fields[k]).Some?
    ensures r.Some? ==> r.value.Keys == j.fields.Keys
    ensures r.Some? ==> forall k | k in r.value :: parse(j.fields[k]) == Some(r.value[k])
  {
    if j.JObj? && forall k | k in j.fields :: parse(j.fields[k]).Some? then
      var entries := map k | k in j.fields :: parse(j.fields[k]).value;
      assert entries.Keys == j.fields.Keys;
      Some(entries)
    else None
  }

  /** Validates the whole catalog (`CourseStructureModel`): a dictionary of catalog entries
      that fails as soon as one entry fails. */
  function ParseCatalog(j: Json): (r: Option<map<string, CourseInfo>>)
    ensures r.Some? <==> j.JObj? && forall k | k in j.fields :: ParseCourseInfo(j.fields[k]).Some?
    ensures r.Some? ==> r.value.Keys == j.fields.Keys
    ensures r.Some? ==> forall k | k in r.value :: ParseCourseInfo(j.fields[k]) == Some(r.value[k])
  {
    ParseDict(j, ParseCourseInfo)
  }

  // ---------------------------------------------------------------------------------------
  // Loading graph.json when the module is imported

  /** What reading the catalog file produces: no file, bytes `json.load` cannot decode, or a document. */
  datatype GraphFile = FileNotFound | Undecodable | Decoded(doc: Json)

  /** The value `graph_data` ends up with, or an import that fails with an uncaught exception. */
  datatype GraphLoad = Loaded(graph: map<string, CourseInfo>) | ImportFails

  /** The module-level load of `graph_data`: a missing file or a failed validation leave it empty;
      a decoding error is not caught. Whatever is loaded is a valid catalog. */
  function InitialGraphData(file: GraphFile): (r: GraphLoad)
    ensures file.FileNotFound? ==> r == Loaded(map[])
    ensures file.Undecodable? <==> r.ImportFails?
    ensures r.Loaded? ==> forall k | k in r.graph :: ValidCourseInfo(r.graph[k])
  {
    match file
    case FileNotFound => Loaded(map[])
    case Undecodable => ImportFails
    case Decoded(doc) =>
      match ParseCatalog(doc)
      case Some(g) => Loaded(g)
      case None => Loaded(map[])
  }

  /** The load is all-or-nothing: one entry that fails validation empties the whole catalog,
      and a catalog that is not empty holds every entry of the document. */
  lemma {:induction false} LoadAllOrNothing(doc: Json)
    ensures doc.JObj? && (exists k | k in doc.fields :: ParseCourseInfo(doc.fields[k]).None?)
            ==> InitialGraphData(Decoded(doc)) == Loaded(map[])
    ensures InitialGraphData(Decoded(doc)) != Loaded(map[])
            ==> doc.JObj? && InitialGraphData(Decoded(doc)).graph.Keys == doc.fields.Keys
  {
    var r := ParseCatalog(doc);
    if r.Some? && r.value != map[] {
      assert InitialGraphData(Decoded(doc)) == Loaded(r.value);
    }
  }

  // ---------------------------------------------------------------------------------------
  // Terms

  const Terms: seq<string> := ["202610", "202595", "202590", "202550", "202510"]

  /** Two-digit term suffix -> season. */
  const Semesters: map<string, string> := map["10" := "Spring", "90" := "Fall", "95" := "Winter", "50" := "Summer"]

  /** Every listed term is a six-character code whose last two digits name a season. */
  lemma TermsHaveSeasons()
    ensures forall i | 0 <= i < |Terms| :: |Terms[i]| == 6 && Terms[i][4..] in Semesters
  {
  }
}
