/** The website's copy of the catalog schema (website/app/constants.ts), read on the same tree
    values as the backend's models. The TypeScript interfaces declare the same node kinds and
    fields, but two literal unions are shorter: `PermissionKind` has no "ADVISOR_APPROVAL" and
    `RestrictionKind` has no "PROGRAM_APPROVAL". A `CourseInfo` also always has numeric `credits`.
    An optional field (`?:`) that is `None` is one the tree leaves out when it is written. */
module SchemaTs {
  import opened Wrappers
  import opened Json
  import opened Schema

  const TsPlacementKinds: set<string> :=
    {"PLACEMENT_INTO_COURSE", "PLACEMENT_ABOVE_COURSE", "PLACEMENT_TEST_REQUIRED",
     "SCORE_THRESHOLD", "DIAGNOSTIC", "UNKNOWN"}

  const TsPermissionKinds: set<string> :=
    {"INSTRUCTOR_APPROVAL", "DEPARTMENT_APPROVAL", "SCHOOL_APPROVAL", "PROGRAM_APPROVAL",
     "ADMIN_OVERRIDE", "UNKNOWN"}

  const TsPermissionAuthorities: set<string> :=
    {"INSTRUCTOR", "FACULTY_SUPERVISOR", "DEPARTMENT", "SCHOOL", "PROGRAM", "ADVISOR",
     "REGISTRAR", "UNKNOWN"}

  const TsPermissionActions: set<string> :=
    {"APPROVAL_REQUIRED", "SIGNATURE_REQUIRED", "PROPOSAL_APPROVAL", "APPLICATION_REQUIRED",
     "OVERRIDE_REQUIRED", "UNKNOWN"}

  const TsRestrictionKinds: set<string> :=
    {"MAJOR_ONLY", "PROGRAM_ONLY", "CLASS_STANDING_ONLY", "CAMPUS_ONLY", "COLLEGE_ONLY",
     "INSTRUCTOR_PERMISSION", "DEPARTMENT_PERMISSION", "ADVISOR_PERMISSION", "NOT_FOR_MAJOR",
     "NOT_FOR_PROGRAM", "NO_CREDIT_IF_TAKEN", "REPEAT_LIMIT", "CROSS_LISTED",
     "TIME_CONFLICT_RULE", "PRIOR_CREDIT_EXCLUSION", "OTHER"}

  const TsStandingLevels: set<string> := {"FRESHMAN", "SOPHOMORE", "JUNIOR", "SENIOR", "GRAD"}

  /** The union `Nodes`: each enum-typed field is absent or one of the website's literals. */
  predicate TsNode(n: Node)
  {
    match n
    case AndOrNode(_, cs) => forall i | 0 <= i < |cs| :: TsNode(cs[i])
    case PlacementNode(_, kind, _, _, _, _, _) => InLiterals(kind, TsPlacementKinds)
    case PermissionNode(_, kind, authority, action, _) =>
      InLiterals(kind, TsPermissionKinds) && InLiterals(authority, TsPermissionAuthorities)
      && InLiterals(action, TsPermissionActions)
    case StandingNode(_, normalized) => InLiterals(normalized, TsStandingLevels)
    case _ => true
  }

  predicate TsRestriction(r: Restriction)
  {
    r.kinds.Some? ==> forall i | 0 <= i < |r.kinds.value| :: r.kinds.value[i] in TsRestrictionKinds
  }

  predicate TsRoot(t: Option<Node>)
  {
    t.None? || (t.value.AndOrNode? && TsNode(t.value))
  }

  /** The interface `CourseInfo`: trees are null or AND/OR nodes, and `credits` is a number. */
  predicate TsCourseInfo(c: CourseInfo)
  {
    && TsRoot(c.prereqTree) && TsRoot(c.coreqTree)
    && (forall i | 0 <= i < |c.restrictions| :: TsRestriction(c.restrictions[i]))
    && c.credits.Some?
  }

  /** Whether any permission node of the tree has kind "ADVISOR_APPROVAL". */
  predicate UsesAdvisorApproval(n: Node)
  {
    match n
    case AndOrNode(_, cs) => exists i | 0 <= i < |cs| :: UsesAdvisorApproval(cs[i])
    case PermissionNode(_, kind, _, _, _) => kind == Some("ADVISOR_APPROVAL")
    case _ => false
  }

  /** The literal unions agree except for one value each. */
  lemma LiteralSetsCompared()
    ensures PermissionKinds - TsPermissionKinds == {"ADVISOR_APPROVAL"}
    ensures TsPermissionKinds <= PermissionKinds
    ensures RestrictionKinds - TsRestrictionKinds == {"PROGRAM_APPROVAL"}
    ensures TsRestrictionKinds <= RestrictionKinds
    ensures TsPlacementKinds == PlacementKinds && TsPermissionAuthorities == PermissionAuthorities
    ensures TsPermissionActions == PermissionActions && TsStandingLevels == StandingLevels
  {
    assert "ADVISOR_APPROVAL" in PermissionKinds - TsPermissionKinds;
    assert "PROGRAM_APPROVAL" in RestrictionKinds - TsRestrictionKinds;
  }

  /** A tree the backend accepts has the website's type exactly when no permission node in it
      names "ADVISOR_APPROVAL". */
  lemma {:induction false} TsNodeExactlyWithoutAdvisorApproval(n: Node)
    requires ValidNode(n)
    ensures TsNode(n) <==> !UsesAdvisorApproval(n)
  {
    match n
    case AndOrNode(_, cs) =>
      forall i | 0 <= i < |cs| ensures TsNode(cs[i]) <==> !UsesAdvisorApproval(cs[i]) {
        TsNodeExactlyWithoutAdvisorApproval(cs[i]);
      }
    case PermissionNode(_, _, _, _, _) => LiteralSetsCompared();
    case _ =>
  }

  /** A restriction the backend accepts has the website's type exactly when none of its kinds
      is "PROGRAM_APPROVAL". */
  lemma TsRestrictionExactlyWithoutProgramApproval(r: Restriction)
    requires ValidRestriction(r)
    ensures TsRestriction(r) <==> (r.kinds.Some? ==> "PROGRAM_APPROVAL" !in r.kinds.value)
  {
    LiteralSetsCompared();
  }

  /** Every tree that has the website's type is one the backend accepts. */
  lemma {:induction false} TsNodeIsValid(n: Node)
    requires TsNode(n)
    ensures ValidNode(n)
  {
    match n
    case AndOrNode(_, cs) =>
      forall i | 0 <= i < |cs| ensures ValidNode(cs[i]) {
        TsNodeIsValid(cs[i]);
      }
    case _ => LiteralSetsCompared();
  }

  /** A catalog entry the backend accepts without credits (the key absent or null) is not of
      the website's type. */
  lemma MissingCreditsNotTs(f: map<string, Json>)
    requires ParseCourseInfo(JObj(f)).Some?
    requires "credits" !in f || f["credits"] == JNull
    ensures !TsCourseInfo(ParseCourseInfo(JObj(f)).value)
  {
  }

  /** Such entries exist: the backend accepts every entry holding only the five required keys,
      and none of them has the website's type. */
  lemma MinimalEntryNotTs(desc: string, title: string)
    ensures var c := CourseInfo(None, None, [], desc, title, None, None);
            && ParseCourseInfo(JObj(map["prereq_tree" := JNull, "coreq_tree" := JNull, "restrictions" := JArr([]),
                                        "desc" := JStr(desc), "title" := JStr(title)])) == Some(c)
            && !TsCourseInfo(c)
  {
    MinimalEntryAccepted(desc, title);
  }
}
