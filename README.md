# FlowNJIT course catalog: a Dafny model

FlowNJIT visualises the prerequisites of NJIT courses. A catalog (`graph.json`) maps each
course code to its title, its description, its credits, its restrictions, its term sections and
two requirement trees. The trees are built from AND/OR groups and five leaf kinds: COURSE,
PLACEMENT, PERMISSION, STANDING and SKILL. This project models the catalog-handling core and
proves properties of it:

- **The backend schema** (`schema.dfy`, module `Schema`) models the pydantic models of
  `backend/constants.py`. They are modelled as parsers from decoded JSON to typed values:
  - the six node kinds, with `extra="forbid"` and the literal sets;
  - restrictions and catalog entries;
  - the all-or-nothing catalog load, and the configured terms.
- **The website schema** (`schema_ts.dfy`, module `SchemaTs`) models the TypeScript interfaces of
  `website/app/constants.ts`, read on the same tree values. They differ from the backend in two
  literal unions and in `credits`.
- **The term table** (`term_table.dfy`, module `TermTable`) models `update_sections_data` and
  `set_current_term` as a class whose fields are the module-level tables.
- **The search index** (`search_index.dfy`, module `SearchIndex`) models three parts of
  `backend/functions.py`:
  - the text behind the content hash;
  - the upsert decision and the batching loop of `initialize_database`, run against a modelled
    vector-store collection;
  - the flattening of query results in `course_query`.
- **The course browser** (`course_browser.dfy` and `prereq_text.dfy`, modules `CourseBrowser` and
  `PrereqText`) models `website/app/components/HomeClient.tsx`:
  - the sorted course list, the search filter, the department list and filter;
  - the capped list of courses drawn in the graph, and the info panel entry;
  - the prerequisite text, rendered as a token sequence.
- **The catalog converter** (`convert_courses.dfy`, module `ConvertCourses`) models
  `convert_courses_format.py`. It splits scraped headers into a code and a title and flattens the
  departments into one map.
- **The repair passes** (`graph_fix.dfy`, module `GraphFix`) model `graph_fix.py`:
  - filling missing descriptions;
  - re-parsing entries that failed to parse;
  - merging section titles and credits.

Shared pieces are defined once:

- `Json`: decoded JSON values and Python truthiness.
- `PyStr`: the Python string operations the scripts use, namely `strip`, `split` on one character
  and `replace`.
- `Wrappers`: `Option`.

A Python exception that aborts a script is an explicit outcome (`Crashed`, `None`,
`ImportFails`). Parameters stand in for the calls the model cannot see:

- `hashlib.md5` (`md5`);
- `json.loads` (`parse`);
- the guarded `float(...)` credit expression (`creditsOf`).

## Model

| member | source | states |
|---|---|---|
| Schema.RequiredStr | backend/constants.py:93 | A required `str` field is accepted exactly when the key holds a string, and the result is that string. |
| Schema.OptionalStr | backend/constants.py:94 | An `Optional[str] = None` field is accepted exactly when the key is missing, null or a string. Its value is none for the first two and the string otherwise. |
| Schema.OptionalLiteral | backend/constants.py:101 | An optional literal field is accepted exactly when the key is missing, null or one of the listed strings, and the result is what the key holds. |
| Schema.OptionalStrList | backend/constants.py:116 | An optional list of strings is accepted exactly when the key is missing, null or a list of strings, and the result is what the key holds. |
| Schema.OptionalLiteralList | backend/constants.py:147 | An optional list of literals is accepted exactly when the key is missing, null or a list of listed strings, and the result is what the key holds. |
| Schema.OptionalScore | backend/constants.py:106 | `min_score` is accepted exactly when the key is missing, null, a number or a string, and the result is what the key holds. |
| Schema.ParseNode | backend/constants.py:84-141 | An accepted node is a valid tree of the variant its `type` tag names, decoded from an object that holds only keys that variant declares. |
| Schema.ParseNodeExactly | backend/constants.py:84-141 | An object validates to a node exactly when the tree is valid and the object describes it. Describing means: the tag, only declared keys, each field holding the node's value (absent or null for `None`), and the `children` items validating to the children in order. |
| Schema.ParseToJson | backend/constants.py:84-141 | Every valid node, written out as JSON, validates back to itself. |
| Schema.EmptyChildrenAccepted | backend/constants.py:84-87 | An AND or OR node with an empty `children` list is accepted. |
| Schema.UnknownKeyRejected | backend/constants.py:85-131 | Any key that the tagged model does not declare makes the node invalid (`extra="forbid"`). |
| Schema.PlacementKindOutsideLiteralsRejected | backend/constants.py:23-30 | A `placement_kind` string outside the PlacementKind literals is rejected. |
| Schema.PermissionKindOutsideLiteralsRejected | backend/constants.py:32-40 | A `permission_kind` string outside the PermissionKind literals is rejected. |
| Schema.AuthorityOutsideLiteralsRejected | backend/constants.py:42-51 | An `authority` string outside the PermissionAuthority literals is rejected. |
| Schema.ActionOutsideLiteralsRejected | backend/constants.py:53-60 | An `action` string outside the PermissionAction literals is rejected. |
| Schema.NormalizedOutsideLiteralsRejected | backend/constants.py:123-125 | A `normalized` string outside the five standing levels is rejected. |
| Schema.ParseRestriction | backend/constants.py:145-149 | An accepted restriction comes from an object with only the three declared keys. Its text is `raw`, and its kind and entity lists are what `kinds` and `entities` hold (none when absent or null). Its kinds are RestrictionKinds. |
| Schema.ParseRestrictionExactly | backend/constants.py:145-149 | An object validates to a restriction exactly when it describes the restriction and every kind is a RestrictionKind. |
| Schema.RawOnlyRestrictionAccepted | backend/constants.py:148-149 | `kinds` and `entities` are optional: the object with only `raw` gives the restriction with no kinds or entities. |
| Schema.RestrictionKindOutsideLiteralsRejected | backend/constants.py:62-80 | A kind outside RestrictionKind anywhere in `kinds` rejects the restriction. |
| Schema.ParseRoot | backend/constants.py:155-156 | The tree key must be present. Null gives no tree; otherwise the result is the AND/OR node the value validates to. |
| Schema.ParseRootExactly | backend/constants.py:155-156 | A root field is accepted with tree `t` exactly when the key is present and is null for no tree, or validates to the AND/OR node `t`. |
| Schema.ParseRestrictions | backend/constants.py:157 | Accepted restrictions are a list whose items validate, in order, to the resulting restrictions. |
| Schema.ParseRestrictionsExactly | backend/constants.py:157 | The list validates to `rs` exactly when each of its items validates to the restriction of `rs` at its position. |
| Schema.ParseCredits | backend/constants.py:160 | `credits` is accepted exactly when it is missing, null or a number. That number, or none, is the result. |
| Schema.ParseSections | backend/constants.py:19-20 | Accepted sections map each term and section to exactly 13 strings. Written back as JSON they give the field's value, and absent or null gives none. |
| Schema.ParseSectionsExactly | backend/constants.py:161 | `sections` validates to `o` exactly when it holds the JSON of `o` (absent or null for none) and every row of `o` has 13 entries. |
| Schema.SectionsReadBack | backend/constants.py:19-20 | Valid sections written as JSON validate back to themselves. |
| Schema.SectionInfoReadBack | backend/constants.py:19-20 | A term's section map with 13-entry rows, written as JSON, is accepted and read back unchanged. |
| Schema.SectionInfoOf | backend/constants.py:19-20 | Every section row holds 13 entries, and the rows written back as JSON give the input. |
| Schema.ParseCourseInfo | backend/constants.py:152-161 | An accepted entry has the five required keys and no key outside the seven declared ones. Each field of the entry is what the JSON holds: the trees, restrictions, `desc`, `title`, `credits` and `sections`. The entry is valid. |
| Schema.ParseCourseInfoExactly | backend/constants.py:152-161 | An object validates to an entry exactly when it describes the entry and the entry is valid. |
| Schema.MinimalEntryAccepted | backend/constants.py:160-161 | `credits` and `sections` are optional: an object with only the five required keys, null trees and no restrictions gives the entry without credits or sections. |
| Schema.LeafRootRejected | backend/constants.py:155 | A bare leaf as `prereq_tree` makes the entry invalid. |
| Schema.ParseDict | backend/constants.py:164-165 | A dictionary validates exactly when it is an object whose every value validates. The keys are kept, and each value is what its field validates to. |
| Schema.ParseCatalog | backend/constants.py:164-165 | A document validates exactly when it is an object whose every value is a valid entry. The keys are kept, and each value is that entry. |
| Schema.InitialGraphData | backend/constants.py:169-185 | A missing file gives the empty catalog. An undecodable file makes the import fail. A loaded catalog holds only valid entries. |
| Schema.LoadAllOrNothing | backend/constants.py:176-185 | One invalid entry empties the whole catalog. A non-empty load has the document's keys. |
| Schema.TermsHaveSeasons | backend/constants.py:188-195 | Every configured term code has six characters and ends in a season code of SEMESTERS. |
| SchemaTs.LiteralSetsCompared | website/app/constants.ts:26-117 | The website's literal unions equal the backend's, except PermissionKind lacks ADVISOR_APPROVAL and RestrictionKind lacks PROGRAM_APPROVAL. |
| SchemaTs.TsNodeExactlyWithoutAdvisorApproval | website/app/constants.ts:2-90 | A backend-valid tree fits the website's `Nodes` type exactly when no permission in it has kind ADVISOR_APPROVAL. |
| SchemaTs.TsRestrictionExactlyWithoutProgramApproval | website/app/constants.ts:95-117 | A backend-valid restriction fits the website's type exactly when its kinds omit PROGRAM_APPROVAL. |
| SchemaTs.TsNodeIsValid | website/app/constants.ts:2-90 | Every tree of the website's type is valid for the backend. |
| SchemaTs.MissingCreditsNotTs | website/app/constants.ts:119-126 | Every entry the backend accepts with `credits` missing or null lacks the website's `CourseInfo` type. |
| SchemaTs.MinimalEntryNotTs | website/app/constants.ts:119-126 | The backend accepts an entry with only its five required keys, and that entry lacks the website's type. |
| TermTable.TermSectionsMembership | backend/constants.py:212-215 | A course is in the term table exactly when it is in the catalog and its sections contain the term. Its value is those sections, and each row has 13 entries. |
| TermTable.AsWrittenTableAlwaysEmpty | backend/constants.py:213 | As written, the membership test never holds, so the table is always empty. A concrete catalog shows the intended table is not. |
| TermTable.Tables.constructor | backend/constants.py:200-201 | The tables start empty over the given catalog. |
| TermTable.Tables.UpdateSectionsData | backend/constants.py:204-215 | The catalog is unchanged. The table is the term's sections of every offering course, and the course set is exactly the table's keys. |
| TermTable.Tables.SetCurrentTerm | backend/constants.py:218-222 | Same as the table update. |
| SearchIndex.GenerateHash | backend/functions.py:24-34 | The returned text is the stripped "title description" text, and the hash is the md5 of that text. |
| SearchIndex.HashDependsOnlyOnText | backend/functions.py:33-34 | Entries with the same combined text get the same hash. |
| SearchIndex.CombinedTextOneSided | backend/functions.py:30-33 | With one side empty, the text is the other side stripped. With both empty, it is empty. |
| SearchIndex.BlankFieldLikeMissing | backend/functions.py:30-31 | An empty title or description gives the same text as a missing one, because both are falsy. |
| SearchIndex.Collection.Get | backend/functions.py:65 | The lookup finds a record exactly when the id is stored, and returns that record. |
| SearchIndex.Collection.Upsert | backend/functions.py:90-94 | The store becomes the old store with the batch's records written in order. |
| SearchIndex.UpsertedLookup | backend/functions.py:90-94 | After an upsert of distinct ids, each id holds its document and metadata. |
| SearchIndex.UpsertedOtherId | backend/functions.py:90-94 | An upsert leaves every id outside the batch as it was. |
| SearchIndex.UpsertedAppend | backend/functions.py:89-107 | Two upserts in a row equal one upsert of both batches. |
| SearchIndex.ItemForFields | backend/functions.py:59-62 | The candidate record of a course has the combined text as its document. Its metadata has exactly title, description and the md5 of the document. |
| SearchIndex.NeedsUpsertNow | backend/functions.py:64-76 | A course needs upserting when it is not stored, or its metadata is missing or empty, or its hash differs. |
| SearchIndex.PendingMembership | backend/functions.py:58-86 | A course is queued exactly when it needs upserting, and it is queued with its own candidate record. |
| SearchIndex.PendingContains | backend/functions.py:58-86 | A candidate is in the queue exactly when it needs upserting. |
| SearchIndex.SyncedItemsUpToDate | backend/functions.py:58-86 | After the queued records are written, nothing is queued any more. |
| SearchIndex.SyncIsIdempotent | backend/functions.py:37-107 | A second synchronisation of the same catalog upserts nothing. |
| SearchIndex.InitializeDatabase | backend/functions.py:37-109 | The batches hold exactly the queued records, in catalog order. Each batch has 1 to 100 records, all but the last exactly 100. The store ends as the old store with all of them written. |
| SearchIndex.SyncCandidates | backend/functions.py:58-107 | Same as above, for any candidate list with distinct ids. |
| SearchIndex.ConsiderEntry | backend/functions.py:58-98 | One loop step keeps the invariant. Sent batches plus the held lists are the queue so far. Every sent batch has 100 records, fewer than 100 are held, and the store holds exactly the sent batches. |
| SearchIndex.Flush | backend/functions.py:89-98 | A flush appends the held lists as one batch and writes it to the store. |
| SearchIndex.CourseQuery | backend/functions.py:112-149 | No result or no id list gives no hits. Otherwise there is one hit per returned id, in order. Each hit has the id's document, metadata and distance, or nothing where that list is absent. |
| CourseBrowser.SortStrings | website/app/components/HomeClient.tsx:55 | The sorted list is a permutation of the input, in lexicographic order, and distinct input stays distinct. |
| CourseBrowser.CourseList | website/app/components/HomeClient.tsx:55 | The course list holds exactly the catalog's codes, once each, sorted. |
| CourseBrowser.Filter | website/app/components/HomeClient.tsx:59-61 | The filtered list keeps the passing elements in their order, each as many times as it occurs, and drops every other. |
| CourseBrowser.FilteredCourses | website/app/components/HomeClient.tsx:57-62 | An empty query gives the whole list. Otherwise the result is exactly the courses containing the query, ignoring case, in order. |
| CourseBrowser.QueryCaseIgnored | website/app/components/HomeClient.tsx:60 | A query and its lower-case form match the same courses. |
| CourseBrowser.LowerIdempotent | website/app/components/HomeClient.tsx:60 | A lower-cased string has no capital letter left, and lower-casing it again changes nothing. |
| CourseBrowser.LowerKeepsExactlyNonUpper | website/app/components/HomeClient.tsx:60 | A string is its own lower-case form exactly when it has no capital letter. |
| CourseBrowser.Unique | website/app/components/HomeClient.tsx:66-70 | The set's contents are the distinct departments, each once. |
| CourseBrowser.Departments | website/app/components/HomeClient.tsx:65-72 | The departments are sorted and distinct. They are exactly the texts before the first space of some course. |
| CourseBrowser.DisplayedCourses | website/app/components/HomeClient.tsx:82-90 | With no department chosen, the filtered list is shown. Otherwise it is exactly the filtered courses starting with the department and a space. |
| CourseBrowser.DeptThenSpace | website/app/components/HomeClient.tsx:68 | A code with a space starts with its department followed by a space. |
| CourseBrowser.OwnDepartmentKeepsCourse | website/app/components/HomeClient.tsx:68-87 | Choosing a course's own department keeps that course displayed. |
| CourseBrowser.GraphCourses | website/app/components/HomeClient.tsx:92-95 | A selected course is drawn alone. Otherwise the first min(n, 100) displayed courses are drawn. |
| CourseBrowser.InfoShownForListedCourses | website/app/components/HomeClient.tsx:97-101 | The info panel has an entry for exactly the non-empty codes of the course list, and it is that course's entry. |
| PrereqText.PrerequisitesText | website/app/components/HomeClient.tsx:139-142 | No course, or a null tree, reads "None". |
| PrereqText.RenderShowsLeaves | website/app/components/HomeClient.tsx:103-137 | The text shows every leaf label of the tree, left to right, none dropped or repeated. |
| PrereqText.RenderBalanced | website/app/components/HomeClient.tsx:114-136 | The coloured parentheses are balanced in every rendering. |
| ConvertCourses.Normalize | convert_courses_format.py:44 | Normalising turns every non-breaking space into a space and changes nothing else. |
| ConvertCourses.HeaderNeedsDot | convert_courses_format.py:44-46 | A header yields a code and a title exactly when it contains a `.`. |
| ConvertCourses.HeaderFromPieces | convert_courses_format.py:44-48 | The code is the text before the first `.` and the title the text up to the next `.`, both normalised and stripped. |
| ConvertCourses.HeaderHasNoNbsp | convert_courses_format.py:44-48 | Neither the code nor the title contains a non-breaking space. |
| ConvertCourses.HeaderExample | convert_courses_format.py:9-28 | The documented header gives "BNFO 601" and "Foundations of Bioinformatics I". |
| ConvertCourses.Classify | convert_courses_format.py:38-58 | A scraped entry raises when it is not a dictionary, or when its truthy `course` is not a string. It is skipped when `course` is falsy or has no `.`. Otherwise it is stored under its code, with its `desc` (default `''`) and its title. |
| ConvertCourses.MissingCourseSkipped | convert_courses_format.py:39-42 | An entry without `course` is skipped. |
| ConvertCourses.CourseListItems | convert_courses_format.py:38 | A list yields its items. |
| ConvertCourses.ConvertScrapedCourses | convert_courses_format.py:5-64 | The method computes the flattening of all departments, or the crash. |
| ConvertCourses.ConvertDepartment | convert_courses_format.py:38-58 | The inner loop computes the fold of one department's entries over the map so far. |
| ConvertCourses.GroupingDiscarded | convert_courses_format.py:36-53 | The result equals converting one list holding every department's entries in order. |
| ConvertCourses.LastEntryWins | convert_courses_format.py:50-53 | A code maps to the last entry stored under it. |
| ConvertCourses.UntouchedCodeKept | convert_courses_format.py:36-58 | A code that no entry produces keeps its previous value, or stays absent. |
| GraphFix.RewriteAll | graph_fix.py:34-39 | A per-entry pass fails exactly when some entry fails. Otherwise it keeps the keys and gives every entry its rewritten value. |
| GraphFix.RewriteEntries | graph_fix.py:34-39 | The in-place loop over the catalog computes that pass. |
| GraphFix.FillDesc | graph_fix.py:53-65 | The rewrite keeps every field but `desc`, and adds `desc` only when the entry changes. |
| GraphFix.AddMissingDescriptions | graph_fix.py:45-68 | The pass is the per-entry description fill over the catalog. |
| GraphFix.DescriptionsFilled | graph_fix.py:53-65 | A present, non-null `desc` is kept, and so is an entry whose course the flat catalog lacks. Otherwise `desc` becomes the catalog's truthy description, or "No Description". Keys and other fields never change. |
| GraphFix.FoundCoursesDescribed | graph_fix.py:55-63 | After the pass, every course found in the flat catalog has a description. |
| GraphFix.FixParseErrors | graph_fix.py:30-42 | The pass is the per-entry repair over the catalog. |
| GraphFix.ParseErrorsRepaired | graph_fix.py:34-41 | Only entries whose `error` is "JSON Parse Error" change. Each becomes the parse of its `raw_response` with `undefined` replaced by `null`. |
| GraphFix.CleanResponseParsedAsIs | graph_fix.py:37-38 | A response without `undefined` is parsed as it stands. |
| GraphFix.Merged | graph_fix.py:23-25 | The merged entry has its fields plus `title` and `credits`, set to the given values, and keeps every other field. |
| GraphFix.MergeKeys | graph_fix.py:12-25 | The merged catalog has exactly the input's courses. `num_credits` ends as the last successful parse. |
| GraphFix.MergeEntry | graph_fix.py:14-25 | Each course gets its first section item as title and the credits in force at it, and keeps its other fields. |
| GraphFix.SectionInfoIntoGraph | graph_fix.py:4-27 | The method computes the merge that stops at the first unparsable credit value. |
| GraphFix.OwnCredits | graph_fix.py:18-24 | With the run stopped at a failed parse, every merged course carries its own parsed credits. |
| GraphFix.StaleCreditsCarried | graph_fix.py:18-24 | As written, a course whose credits do not parse gets the previous course's credits. |
| PyStr.StripCutsOnlySpace | backend/functions.py:33 | `strip()` returns the inner slice. It cuts only whitespace, and neither end of the result is whitespace. |
| PyStr.StripIdempotent | backend/functions.py:33 | Stripping twice is stripping once. |
| PyStr.JoinSplit | convert_courses_format.py:44 | Splitting on a character and joining on it gives back the string. |
| PyStr.SplitAtFirst | convert_courses_format.py:44 | The first piece is the text before the first separator. |
| PyStr.SplitSeveral | convert_courses_format.py:46 | There are at least two pieces exactly when the separator occurs. |
| PyStr.ReplaceChar | convert_courses_format.py:44 | A one-character replace changes exactly the positions holding that character. |
| PyStr.ReplaceAbsent | graph_fix.py:37 | Replacing a pattern that never occurs leaves the string unchanged. |

## Left out

- The transport is not modelled:
  - file reads and writes, `json.load`/`json.dump` and the console output;
  - the ChromaDB client, the embedding model, `time.sleep` and the heartbeat (backend/functions.py:8-22, 41-50);
  - React state and effects, `encodeURIComponent` for the catalog link, and `SectionsPopover.tsx`.

  What happens to the in-memory data is modelled in their place.
- Catalog data is modelled as decoded values:
  - JSON numbers are `real`s, so float rounding is not modelled.
  - pydantic's lax coercions are not modelled. An accepted value must already have the declared
    JSON type, so for instance the number `3` is not coerced to the string "3".
- `dict` iteration order matters in two places: flattening departments and merging credits. There
  the input is given as a sequence in document order. Elsewhere the order does not change the
  result, and the catalog is a map.
- `json.dump` writes keys in insertion order. The order of keys in written documents is not
  modelled.
- The random colours (website/app/constants.ts:132-150, website/app/components/HomeClient.tsx:114)
  are not modelled. `PrereqText.Render` has no colour.
- PrereqText.Render assumes that `React.Children.count(el) > 0` (website/app/components/HomeClient.tsx:125)
  always holds. `el` is a single rendered element, so every later child is emitted with its
  operator. The exact JSX wrappers and spaces are reduced to tokens.
- PrereqText.Render covers only the node kinds of the typed tree. The `!Array.isArray(children)`
  guard (line 110) only matters for untyped data.
- CourseBrowser.SortStrings compares characters, while JavaScript compares UTF-16 code units. The two
  orders agree on the Basic Multilingual Plane and may differ for astral characters.
- CourseBrowser.Lower lower-cases ASCII letters only. `toLowerCase` also maps non-ASCII letters.
- CourseBrowser.InfoData looks the code up among the catalog's own keys. In the source,
  `graphData[infoCourse]` on a plain object also finds inherited members such as
  `constructor`, `toString` or `__proto__`. For such a code the model shows no entry, where the
  page would receive a function or the prototype in place of a catalog entry.
- SearchIndex.InitializeDatabase computes all candidate records before the loop, while the source
  computes each inside it. `md5` is a pure parameter, so the two agree.
- SearchIndex.NeedsUpsertNow reads the store through the modelled collection. The response shape of
  `collection.get` is reduced to the stored record.
- ConvertCourses.CourseListItems treats a non-empty string or dictionary in place of a department's
  list as a crash. In Python, iterating it yields strings, and `.get` on a string raises.
- GraphFix.FillDesc treats any catalog entry that is not a dictionary as a crash. Python handles
  some such entries differently: `'desc' not in` a list or string is a membership test, and such an
  entry only fails when the course is in the flat catalog.
- GraphFix.MergeStep treats a sections value that is not a non-empty list as a crash, including a
  string, whose first character Python would use as the title. The credit expression
  `float(course_sections[1][…][-3])` is the parameter `creditsOf`, because it depends on dictionary
  key order.
- The comment "added defaults" at backend/constants.py:154 does not match the fields, which have no
  defaults. The model follows the fields: both trees are required keys.
- `update_sections_data` (backend/constants.py:214) subscripts a pydantic model, which would
  raise. The membership test before it (line 213) never holds, so that line is never reached; see
  Findings. The corrected member reads the entry's `sections` field.
- prereq_ai/gemini_graph.py (LLM calls) and backend/main.py (start-up wiring) are not part of this
  model.

## Findings

| source | as written | input that shows it | evidently intended | confidence | as-written member | corrected member |
|---|---|---|---|---|---|---|
| backend/constants.py:213 | `"sections" in course_info` tests membership in a pydantic model, which iterates (field, value) pairs, so it never holds and the term table stays empty | a catalog with one course whose sections contain the term | the course's sections for that term enter the table | not executed | TermTable.AsWrittenTableAlwaysEmpty | TermTable.Tables.UpdateSectionsData |
| graph_fix.py:22 | `exit` is named but not called, so after a failed credit parse the loop goes on with the previous course's `num_credits` | two courses, the second with no parsable credits: it receives the first course's credits | stop at the failure, so that no course carries another's credits | not executed | GraphFix.StaleCreditsCarried | GraphFix.OwnCredits |
