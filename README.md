# EnforceVersionManagement, modelled in Dafny

`EnforceVersionManagement` is an OpenRewrite scanning recipe for Maven
projects. It moves the versions of directly requested dependencies out of
the `<dependencies>` sections of the module poms and into the dependency
management of the root pom. It runs in two passes over all pom documents:

- **Scanner.** For each document, the scanner records every requested
  dependency that has a version and is not exempt. It does this in an
  accumulator, `ProjectInformation`, which has three parts:
  - per-document lists of coordinates;
  - a map of the property values that those versions name through
    `${name}`;
  - the set of documents without a parent (the roots).
- **Rewriter.** Each root gets an add-managed-dependency edit for every
  coordinate recorded anywhere, followed by an add-property edit for every
  hoisted property. Each document then marks its own recorded dependencies as
  managed. A document that is not a root first removes the properties named by
  those dependencies' versions.

The exemptions come from the constructor's `retainVersions` list. Each entry
is split with Java's `split(":")`, which drops trailing empty fields, and the
fields left are counted. Three fields, as in `group:artifact:version`, exempt
that exact coordinate. Two fields, as in `group:artifact`, exempt the pair
whatever its version. Because of the dropped fields, `g:a:` is a two-field
(wildcard) entry and `g:a:v:` a three-field (versioned) one. An entry with
any other count of fields is ignored.

The files:

- `wrappers.dfy`: the `Option` type.
- `coordinates.dfy`: the GAV value, Java's `String.split(":")`, exemption
  parsing (the constructor) and `notExempt`.
- `property_refs.dfy`: `hasProperty`, and the regular expression
  `\$\{([^}]+)\}` with its `find` loop in `extractPropertyNames`. It holds a
  recursive definition and the loop as a method, with lemmas.
- `scanner.dfy`: the documents as the scanner sees them, the accumulator as
  the class `ProjectInformation` whose maps and set are updated in place, the
  scanner's `visitDocument` as methods on it, and the function `ScanAll` that
  specifies the whole scan.
- `rewriter.dfy`: the edits as values and the rewriter's `visitDocument` as a
  method. It is proved equal to the function `DocumentEdits`, and lemmas state
  what each kind of edit a document receives.
- `recipe.dfy`: the whole run (constructor, scan, rewrite) and end-to-end
  properties.
- `scenarios.dfy`: concrete poms for the repository's tests `untouched`,
  `manageVersion`, `manageVersionWithProperty`, `exemptVersions` and
  `manageMultiModule`, and a property-overwrite case.

When two documents contribute the same property, the scanner stores each
value with `Map.put` (`EnforceVersionManagement.java:128`), so a later
document's value replaces an earlier one: the last writer wins.
`Scanner.ScanAllPropertyLastWriter`, `Scanner.ScanAllPropertyOrigin` and
`Scenarios.LaterWriterWinsExample` state this.

## Model

Source paths are relative to the repository root.

| member | source | states |
|---|---|---|
| Coordinates.Fields | src/main/java/de/engehausen/openrewrite/maven/EnforceVersionManagement.java:61 | Splitting at every colon gives at least one piece, and no piece holds a colon. |
| Coordinates.DropTrailingEmpty | src/main/java/de/engehausen/openrewrite/maven/EnforceVersionManagement.java:61 | Java's `split` result is a prefix of the raw pieces. Its last piece is non-empty, and every dropped piece is empty. |
| Coordinates.FieldsOfColonFreePrefix | src/main/java/de/engehausen/openrewrite/maven/EnforceVersionManagement.java:61 | A colon-free prefix joins the first piece of the rest. |
| Coordinates.FieldsOfJoin | src/main/java/de/engehausen/openrewrite/maven/EnforceVersionManagement.java:61 | Splitting colon-free fields joined with `:` gives the fields back. |
| Coordinates.JavaSplitOfJoin | src/main/java/de/engehausen/openrewrite/maven/EnforceVersionManagement.java:61 | `split(":")` inverts the join when the last field is non-empty. |
| Coordinates.ParseExemptionOfJoin | src/main/java/de/engehausen/openrewrite/maven/EnforceVersionManagement.java:61-69 | Three fields give a versioned exemption. Two fields give a version-less exemption. Any other count gives none. |
| Coordinates.TrailingColonIsWildcard | src/main/java/de/engehausen/openrewrite/maven/EnforceVersionManagement.java:61-66 | `g:a:` loses its trailing empty field and becomes the wildcard exemption for `g:a`. |
| Coordinates.ParseEntry | src/main/java/de/engehausen/openrewrite/maven/EnforceVersionManagement.java:61-69 | Writing an exemption as `g:a` or `g:a:v` (colon-free fields, last one non-empty) and parsing it gives the exemption back. |
| Coordinates.ParsedIsWritable | src/main/java/de/engehausen/openrewrite/maven/EnforceVersionManagement.java:61-69 | Whatever an entry parses to has colon-free fields and a non-empty last field, so it writes out to an entry that parses the same. |
| Coordinates.ExemptionsOfEntries | src/main/java/de/engehausen/openrewrite/maven/EnforceVersionManagement.java:56-74 | For option entries written from a list of exemptions, the constructor's set is exactly that list's members, and a candidate is exempt iff it or its version-less form is in the list. |
| Coordinates.ExemptIff | src/main/java/de/engehausen/openrewrite/maven/EnforceVersionManagement.java:139-144 | A candidate fails `notExempt` iff some entry parses to the candidate itself or to its version-less form. |
| PropertyRefs.CloseFromIsFirst | src/main/java/de/engehausen/openrewrite/maven/EnforceVersionManagement.java:40 | The closing search finds the first `}` at or after its start, or reports that there is none. |
| PropertyRefs.ScanClose | src/main/java/de/engehausen/openrewrite/maven/EnforceVersionManagement.java:40 | The scanning loop for `[^}]+\}` stops at the first `}`, or at the end of the string. |
| PropertyRefs.FindAt | src/main/java/de/engehausen/openrewrite/maven/EnforceVersionManagement.java:205 | One match attempt at a position, with a non-empty group that ends before the string ends. |
| PropertyRefs.SearchFound | src/main/java/de/engehausen/openrewrite/maven/EnforceVersionManagement.java:205-206 | A successful `find` contributes its group, and the search resumes after the `}`. |
| PropertyRefs.SearchMissed | src/main/java/de/engehausen/openrewrite/maven/EnforceVersionManagement.java:205 | A failed attempt moves the search on by one character. |
| PropertyRefs.ExtractPropertyNames | src/main/java/de/engehausen/openrewrite/maven/EnforceVersionManagement.java:202-209 | The `while (matcher.find())` loop returns exactly the names of the recursive definition `PropertyNames`, in order. |
| PropertyRefs.NameOccurrence | src/main/java/de/engehausen/openrewrite/maven/EnforceVersionManagement.java:40 | Name `k` occurs in the version as `${name}` at the position where the `k`-th match starts. |
| PropertyRefs.MatchesAreOccurrences | src/main/java/de/engehausen/openrewrite/maven/EnforceVersionManagement.java:40 | Every match span is a complete occurrence: `${`, then no `}`, then the first `}`. |
| PropertyRefs.NamesAreGroups | src/main/java/de/engehausen/openrewrite/maven/EnforceVersionManagement.java:205-206 | Name `k` is the text between the `${` and the `}` of match `k`. |
| PropertyRefs.MatchesLength | src/main/java/de/engehausen/openrewrite/maven/EnforceVersionManagement.java:205-207 | There is exactly one match per extracted name. |
| PropertyRefs.MatchesOrdered | src/main/java/de/engehausen/openrewrite/maven/EnforceVersionManagement.java:205-207 | Each match has a non-empty group, and each match starts after the closing `}` of the one before. |
| PropertyRefs.MatchesGiveNames | src/main/java/de/engehausen/openrewrite/maven/EnforceVersionManagement.java:202-209 | The names are given in order of appearance: name `k` is enclosed by match `k`, and the matches follow one another without overlap. |
| PropertyRefs.OccurrenceFound | src/main/java/de/engehausen/openrewrite/maven/EnforceVersionManagement.java:202-209 | The search misses nothing: every complete `${…}` occurrence is a match, or starts inside a match reported before it. |
| PropertyRefs.NamesAreEnclosed | src/main/java/de/engehausen/openrewrite/maven/EnforceVersionManagement.java:40 | Every extracted name is non-empty, holds no `}`, and appears enclosed in `${`…`}`. |
| PropertyRefs.OccurrenceMatches | src/main/java/de/engehausen/openrewrite/maven/EnforceVersionManagement.java:40 | A complete `${…}` occurrence at the start is a match ending at its first `}`. |
| PropertyRefs.OccurrenceGivesName | src/main/java/de/engehausen/openrewrite/maven/EnforceVersionManagement.java:202-209 | Any complete occurrence anywhere makes the extracted list non-empty. |
| PropertyRefs.NoNamesIffNoOccurrence | src/main/java/de/engehausen/openrewrite/maven/EnforceVersionManagement.java:202-209 | No names are extracted iff the version holds no complete `${…}` occurrence. |
| PropertyRefs.NamesImplyHasProperty | src/main/java/de/engehausen/openrewrite/maven/EnforceVersionManagement.java:198-200 | If any name is extracted, `hasProperty` holds. The `hasProperty` guard never hides a name. |
| PropertyRefs.UnterminatedReference | src/main/java/de/engehausen/openrewrite/maven/EnforceVersionManagement.java:198-209 | `${` alone passes `hasProperty` but yields no names. The converse of the previous row fails. |
| PropertyRefs.EmptyReference | src/main/java/de/engehausen/openrewrite/maven/EnforceVersionManagement.java:40 | `${}` yields no name, because the group needs at least one character. |
| PropertyRefs.LiteralIsSkipped | src/main/java/de/engehausen/openrewrite/maven/EnforceVersionManagement.java:205-207 | Text without `$` before the rest contributes no names. |
| PropertyRefs.ReferenceIsExtracted | src/main/java/de/engehausen/openrewrite/maven/EnforceVersionManagement.java:205-207 | `${n}` followed by any rest yields `n`, then the names of the rest. |
| PropertyRefs.ExtractRender | src/main/java/de/engehausen/openrewrite/maven/EnforceVersionManagement.java:202-209 | Round trip: for a version built from literals without `$` and from `${name}` references, extraction returns exactly the referenced names in order. |
| Scanner.RecordedMembers | src/main/java/de/engehausen/openrewrite/maven/EnforceVersionManagement.java:110-117 | A coordinate is recorded iff it is requested, has a version and is not exempt. The record is no longer than the request list. |
| Scanner.RecordedAppend | src/main/java/de/engehausen/openrewrite/maven/EnforceVersionManagement.java:110-117 | Recording keeps declaration order: it distributes over concatenation. |
| Scanner.VersionNamesIgnoreGuard | src/main/java/de/engehausen/openrewrite/maven/EnforceVersionManagement.java:119-121 | The `hasProperty` guard before extraction changes no result. |
| Scanner.ReferencedMembers | src/main/java/de/engehausen/openrewrite/maven/EnforceVersionManagement.java:116-122 | A name is referenced iff it is named in the version of some recorded coordinate. |
| Scanner.ResolvedIff | src/main/java/de/engehausen/openrewrite/maven/EnforceVersionManagement.java:116-130 | A document contributes a property iff its pom defines it and the version of one of its recorded dependencies names it. The contributed value is the pom's. |
| Scanner.RecordStep | src/main/java/de/engehausen/openrewrite/maven/EnforceVersionManagement.java:116-131 | Recording one more coordinate extends both the document's list and its contribution. |
| Scanner.ProjectInformation.constructor | src/main/java/de/engehausen/openrewrite/maven/EnforceVersionManagement.java:96-98 | `getInitialValue`: empty maps and an empty root set. |
| Scanner.ProjectInformation.VisitDocument | src/main/java/de/engehausen/openrewrite/maven/EnforceVersionManagement.java:107-138 | The accumulator after one visit is `ScanDoc` of the accumulator before it. The entry is created if absent, the eligible coordinates are appended and their properties put, and a parentless document is added to the roots. |
| Scanner.ProjectInformation.RecordRequested | src/main/java/de/engehausen/openrewrite/maven/EnforceVersionManagement.java:110-133 | The stream over the requested dependencies appends exactly the recorded ones, in order. It puts exactly the document's resolved properties. The roots are untouched. |
| Scanner.ProjectInformation.RecordDependency | src/main/java/de/engehausen/openrewrite/maven/EnforceVersionManagement.java:116-131 | One eligible coordinate: `list.add`, then a `put` for each name its version resolves. |
| Scanner.ProjectInformation.PutResolved | src/main/java/de/engehausen/openrewrite/maven/EnforceVersionManagement.java:122-130 | The inner `forEach` puts exactly the names the pom defines, each with its value, over the previous map. |
| Scanner.Scan | src/main/java/de/engehausen/openrewrite/maven/EnforceVersionManagement.java:96-138 | A fresh accumulator visited by every document in order ends in `ScanAll`. |
| Scanner.ScanAllKeys | src/main/java/de/engehausen/openrewrite/maven/EnforceVersionManagement.java:109 | `computeIfAbsent` gives every visited document an entry, even an empty one, and gives none to other ids. |
| Scanner.ScanAllRoots | src/main/java/de/engehausen/openrewrite/maven/EnforceVersionManagement.java:134-136 | The roots are the ids of the documents without a parent. |
| Scanner.RootIdsIff | src/main/java/de/engehausen/openrewrite/maven/EnforceVersionManagement.java:134-136 | An id is a root iff some parentless document carries it. |
| Scanner.ScanAllDependencies | src/main/java/de/engehausen/openrewrite/maven/EnforceVersionManagement.java:109-117 | With unique ids, each document's entry is exactly its recorded coordinates, in order. |
| Scanner.OverlayLastWriter | src/main/java/de/engehausen/openrewrite/maven/EnforceVersionManagement.java:128 | Under repeated `put`, the value comes from the last layer that holds the key. |
| Scanner.OverlayOrigin | src/main/java/de/engehausen/openrewrite/maven/EnforceVersionManagement.java:128 | Every key of the overlay has a last layer that holds it. |
| Scanner.ScanAllVersionProperties | src/main/java/de/engehausen/openrewrite/maven/EnforceVersionManagement.java:128 | The hoisted properties are the documents' contributions overlaid in scan order. |
| Scanner.ScanAllPropertyLastWriter | src/main/java/de/engehausen/openrewrite/maven/EnforceVersionManagement.java:128 | A property is hoisted with the value of the last document that contributes it. |
| Scanner.ScanAllPropertyOrigin | src/main/java/de/engehausen/openrewrite/maven/EnforceVersionManagement.java:123-129 | Every hoisted property was contributed by some document. Its value is that of the last contributor. |
| Rewriter.AllRecordedRemove | src/main/java/de/engehausen/openrewrite/maven/EnforceVersionManagement.java:158-163 | The multiset of all recorded coordinates does not depend on which document is counted first. |
| Rewriter.FlattenIgnoresOtherKeys | src/main/java/de/engehausen/openrewrite/maven/EnforceVersionManagement.java:158-163 | Flattening reads only the keys it visits. |
| Rewriter.FlattenIsAllRecorded | src/main/java/de/engehausen/openrewrite/maven/EnforceVersionManagement.java:158-163 | `values().stream().flatMap` holds every recorded coordinate of every document, as often as recorded, whatever the map's iteration order. |
| Rewriter.ManagedEntries | src/main/java/de/engehausen/openrewrite/maven/EnforceVersionManagement.java:166-169 | Only add-managed-dependency edits. |
| Rewriter.PropertyEntries | src/main/java/de/engehausen/openrewrite/maven/EnforceVersionManagement.java:170-176 | Only add-property edits. |
| Rewriter.Removals | src/main/java/de/engehausen/openrewrite/maven/EnforceVersionManagement.java:186-188 | Only remove-property edits. |
| Rewriter.EditsFor | src/main/java/de/engehausen/openrewrite/maven/EnforceVersionManagement.java:183-191 | Each coordinate ends with its manage edit. Only property removals come before it. |
| Rewriter.VisitDocument | src/main/java/de/engehausen/openrewrite/maven/EnforceVersionManagement.java:155-194 | The queued edits equal `DocumentEdits`: the root block when the document is a root, then the local block when its list is non-empty. |
| Rewriter.QueueRootEdits | src/main/java/de/engehausen/openrewrite/maven/EnforceVersionManagement.java:156-178 | Nothing when no coordinate was recorded anywhere. Otherwise every coordinate, then every property, but properties only when the map is non-empty. |
| Rewriter.QueueManagedEntries | src/main/java/de/engehausen/openrewrite/maven/EnforceVersionManagement.java:166-169 | One add-managed edit per coordinate, in order, with the version verbatim. |
| Rewriter.QueuePropertyEntries | src/main/java/de/engehausen/openrewrite/maven/EnforceVersionManagement.java:170-176 | One add-property edit per entry, in the map's iteration order. |
| Rewriter.NoPropertyEntries | src/main/java/de/engehausen/openrewrite/maven/EnforceVersionManagement.java:170 | Skipping the loop on an empty map loses nothing. |
| Rewriter.Values | src/main/java/de/engehausen/openrewrite/maven/EnforceVersionManagement.java:158-163 | Concatenates the lists in the map's iteration order. |
| Rewriter.QueueLocalEdits | src/main/java/de/engehausen/openrewrite/maven/EnforceVersionManagement.java:179-192 | The edits for the document's own coordinates, in order. |
| Rewriter.QueueEditsFor | src/main/java/de/engehausen/openrewrite/maven/EnforceVersionManagement.java:184-190 | Outside a root, one removal per name in a property-based version, then the manage edit. |
| Rewriter.SelectAppend | src/main/java/de/engehausen/openrewrite/maven/EnforceVersionManagement.java:167-190 | Picking one kind of edit distributes over the queueing order. |
| Rewriter.ManagedEntriesSelect | src/main/java/de/engehausen/openrewrite/maven/EnforceVersionManagement.java:166-169 | The add-managed edits give back exactly the coordinates, in order. |
| Rewriter.PropertyEntriesSelect | src/main/java/de/engehausen/openrewrite/maven/EnforceVersionManagement.java:170-176 | The add-property edits are the visited names with the map's values. |
| Rewriter.RemovalsSelect | src/main/java/de/engehausen/openrewrite/maven/EnforceVersionManagement.java:186-188 | The removal edits give back exactly the names. |
| Rewriter.EditsForSelect | src/main/java/de/engehausen/openrewrite/maven/EnforceVersionManagement.java:183-191 | One coordinate's edits, kind by kind: one manage edit, removals only outside a root, and no additions. |
| Rewriter.LocalEditsManage | src/main/java/de/engehausen/openrewrite/maven/EnforceVersionManagement.java:179-192 | Exactly one manage edit per recorded coordinate, in order. |
| Rewriter.LocalEditsRemovals | src/main/java/de/engehausen/openrewrite/maven/EnforceVersionManagement.java:183-189 | A root removes nothing. Another document removes exactly the names in its recorded versions. |
| Rewriter.LocalEditsAddNothing | src/main/java/de/engehausen/openrewrite/maven/EnforceVersionManagement.java:179-192 | The local block adds no managed entry and no property. |
| Rewriter.RootEditsSelect | src/main/java/de/engehausen/openrewrite/maven/EnforceVersionManagement.java:156-178 | The root block adds the flattened coordinates, and the properties only when some coordinate exists. It manages and removes nothing. |
| Rewriter.DocumentEditsSelect | src/main/java/de/engehausen/openrewrite/maven/EnforceVersionManagement.java:155-193 | Any kind of edit comes from the root block first, then the local block. |
| Rewriter.RootHoistsAll | src/main/java/de/engehausen/openrewrite/maven/EnforceVersionManagement.java:156-169 | A root adds every recorded coordinate of every document as a managed dependency, with multiplicity and in any iteration order. Other documents add none. |
| Rewriter.RootAddsProperties | src/main/java/de/engehausen/openrewrite/maven/EnforceVersionManagement.java:164-176 | A root re-declares every hoisted property with its value, provided something was recorded. Otherwise, and in every other document, no property is added. |
| Rewriter.OrderedPropertiesIff | src/main/java/de/engehausen/openrewrite/maven/EnforceVersionManagement.java:170-176 | A (name, value) pair is added iff the hoisted map gives that value to that name. No name is added twice. |
| Rewriter.DocumentManages | src/main/java/de/engehausen/openrewrite/maven/EnforceVersionManagement.java:179-192 | Every document manages each of its own recorded coordinates once, in order, and nothing else. |
| Rewriter.DocumentRemovesProperties | src/main/java/de/engehausen/openrewrite/maven/EnforceVersionManagement.java:183-189 | A root keeps its properties. Another document removes every property its recorded versions name. |
| Rewriter.RootEditsOrder | src/main/java/de/engehausen/openrewrite/maven/EnforceVersionManagement.java:164-176 | In the root block every add-managed edit precedes every add-property edit. |
| Rewriter.NothingRecordedEmptyList | src/main/java/de/engehausen/openrewrite/maven/EnforceVersionManagement.java:179-180 | If nothing was recorded anywhere, every document's list is empty. |
| Rewriter.NothingRecordedNoEdits | src/main/java/de/engehausen/openrewrite/maven/EnforceVersionManagement.java:155-194 | If nothing was recorded anywhere, no document is edited. |
| Recipe.Run | src/main/java/de/engehausen/openrewrite/maven/EnforceVersionManagement.java:56-196 | One edit list per document. |
| Recipe.Apply | src/main/java/de/engehausen/openrewrite/maven/EnforceVersionManagement.java:96-196 | The scan, then the rewrite of each document against the same accumulator, gives `Run`. |
| Recipe.VisitAll | src/main/java/de/engehausen/openrewrite/maven/EnforceVersionManagement.java:152-196 | Each document's edits are `DocumentEdits` of the frozen accumulator. |
| Recipe.AllRecordedAppend | src/main/java/de/engehausen/openrewrite/maven/EnforceVersionManagement.java:109-117 | Appending to one list adds exactly the appended coordinates to the total. |
| Recipe.ScanAllRecordsAll | src/main/java/de/engehausen/openrewrite/maven/EnforceVersionManagement.java:107-138 | The accumulator holds every coordinate recorded in every document, with multiplicity. |
| Recipe.RootManagesEverything | src/main/java/de/engehausen/openrewrite/maven/EnforceVersionManagement.java:156-169 | Every parentless document manages every coordinate recorded in the project, with its version as written. |
| Recipe.LocalEditsOfDocument | src/main/java/de/engehausen/openrewrite/maven/EnforceVersionManagement.java:179-192 | A document's manage edits are exactly its recorded coordinates. Its removals are the names they reference, unless it is a root. |
| Recipe.GroupArtifactsMembers | src/main/java/de/engehausen/openrewrite/maven/EnforceVersionManagement.java:190 | A pair is managed iff some recorded coordinate has that group and artifact. |
| Recipe.ManagedIffEligible | src/main/java/de/engehausen/openrewrite/maven/EnforceVersionManagement.java:110-117 | A document manages a group and artifact iff it requests that dependency with a version that is not exempt. |
| Scenarios.ResolvedOne | src/main/java/de/engehausen/openrewrite/maven/EnforceVersionManagement.java:119-130 | One recorded version contributes the pom's values for exactly its names. |
| Scenarios.SingleReference | src/main/java/de/engehausen/openrewrite/maven/EnforceVersionManagement.java:202-209 | `${n}` names exactly `n`. |
| Scenarios.RootEditsOne | src/main/java/de/engehausen/openrewrite/maven/EnforceVersionManagement.java:164-176 | The root block for a single coordinate. |
| Scenarios.VersionedJunitExemption | src/test/java/de/engehausen/openrewrite/maven/EnforceVersionManagementTest.java:197-201 | `junit:junit:4.13.2` parses to the versioned coordinate. |
| Scenarios.WildcardJunitExemption | src/test/java/de/engehausen/openrewrite/maven/EnforceVersionManagementTest.java:197-201 | `junit:junit` parses to the version-less coordinate. |
| Scenarios.JunitIsExempt | src/test/java/de/engehausen/openrewrite/maven/EnforceVersionManagementTest.java:197-218 | Both option forms exempt `junit:junit:4.13.2`. |
| Scenarios.IneligibleUntouched | src/main/java/de/engehausen/openrewrite/maven/EnforceVersionManagement.java:109-192 | A lone root whose only dependency is ineligible gets an empty list and no edits. |
| Scenarios.Untouched | src/test/java/de/engehausen/openrewrite/maven/EnforceVersionManagementTest.java:15-43 | A dependency that declares no version (it is already managed) leaves the pom untouched. |
| Scenarios.ExemptVersions | src/test/java/de/engehausen/openrewrite/maven/EnforceVersionManagementTest.java:197-218 | With either exemption form, the pom is left unchanged. |
| Scenarios.ManageVersion | src/test/java/de/engehausen/openrewrite/maven/EnforceVersionManagementTest.java:45-87 | A literal version moves into the root's management, and the dependency is then managed. |
| Scenarios.RootWithPropertyVersion | src/main/java/de/engehausen/openrewrite/maven/EnforceVersionManagement.java:156-191 | A lone root whose version names one defined property: the version moves verbatim, the property is re-declared, and nothing is removed. |
| Scenarios.SingleRootScan | src/main/java/de/engehausen/openrewrite/maven/EnforceVersionManagement.java:107-138 | The accumulator for that lone root. |
| Scenarios.SingleRootEdits | src/main/java/de/engehausen/openrewrite/maven/EnforceVersionManagement.java:156-191 | The edits for that lone root. |
| Scenarios.ManageVersionWithProperty | src/test/java/de/engehausen/openrewrite/maven/EnforceVersionManagementTest.java:89-137 | `${the.version}` moves verbatim, and the root keeps and re-declares `the.version`. |
| Scenarios.MultiModule | src/test/java/de/engehausen/openrewrite/maven/EnforceVersionManagementTest.java:220-297 | The child's `${junit.version}` is hoisted: the parent manages it and adds only `junit.version`, and the child removes that property and manages the dependency. This holds in either iteration order. |
| Scenarios.ParentHoistsChild | src/main/java/de/engehausen/openrewrite/maven/EnforceVersionManagement.java:156-191 | The same, for any parent without dependencies and any child naming one defined property. |
| Scenarios.ContributesOne | src/main/java/de/engehausen/openrewrite/maven/EnforceVersionManagement.java:116-130 | A document with one dependency naming one defined property contributes exactly that property. |
| Scenarios.ParentChildScan | src/main/java/de/engehausen/openrewrite/maven/EnforceVersionManagement.java:107-138 | The accumulator after scanning the parent and the child. |
| Scenarios.ParentEdits | src/main/java/de/engehausen/openrewrite/maven/EnforceVersionManagement.java:156-178 | The parent's edits: the child's coordinate and its property. |
| Scenarios.ChildEdits | src/main/java/de/engehausen/openrewrite/maven/EnforceVersionManagement.java:179-192 | The child's edits: remove the property, then manage the dependency. |
| Scenarios.LaterWriterWins | src/main/java/de/engehausen/openrewrite/maven/EnforceVersionManagement.java:128 | When two documents contribute the same name, the second document's value is hoisted. |
| Scenarios.LaterWriterWinsExample | src/main/java/de/engehausen/openrewrite/maven/EnforceVersionManagement.java:128 | Concretely, `v = 1` followed by `v = 2` hoists `2`. |

## Left out

- The OpenRewrite machinery is not modelled: visitors, `doAfterVisit`, `ExecutionContext`, and the `super.visitDocument` call. The edits the rewriter queues are values (`Rewriter.Edit`), carrying the arguments that vary: group, artifact, version, property name and value. What those visitors then do to the XML, including that they are idempotent, is not part of this model.
- The constant arguments of the queued visitors are left out: the three `null`s passed to `AddManagedDependencyVisitor` (line 168), and the `TRUE`/`FALSE` flags passed to `AddProperty` (line 174) and to `ManageDependencies` (line 190). They are the same in every edit.
- The test `manageVersionWithAlreadyManaged` (test file lines 139-195) has no scenario of its own. Its pom already manages a different dependency (`junit-jupiter-engine`), and the recipe never reads a pom's existing dependency management. So the pom, as the scanner sees it, is the one of `Scenarios.ManageVersion`, and so are its edits. Where the new entry lands among the existing ones is decided by `AddManagedDependencyVisitor` on the XML, which is not modelled.
- End-to-end idempotence of the recipe on its own output is not modelled. It depends on the behaviour of those visitors on the XML.
- `maybeUpdateModel()` (lines 165 and 182) is left out. It only refreshes the resolution model.
- Maven POM resolution and the XML tree are left out. A document is what the scanner reads of it: an id, whether it has a parent, the requested dependencies and the resolved properties.
- A `null` requested-dependency list or property map behaves like an empty one, and is modelled as one. A `null` property value is an absent key.
- Document UUIDs are natural numbers. Documents are assumed to have distinct ids wherever that matters (`Scanner.UniqueIds`).
- Hash map iteration order is a parameter: `depOrder` for `dependencies().values()` and `propOrder` for `versionProperties().forEach`. A duplicate-free enumeration of the keys is required where a lemma needs one (`Rewriter.Enumerates`). Facts about the union of all coordinates are stated as multisets, because the order in which the root receives them is that unspecified order.
- The Jackson annotations, the `@Option` metadata, `getDisplayName` and `getDescription` (lines 76-90) carry no behaviour, and are left out.
- The `isEmpty` check on `versionProperties` (line 170) is modelled in the method that queues the root block, but its contract does not need it. A loop over an empty map adds nothing (`Rewriter.NoPropertyEntries`).
- The regular expression is modelled only for the single pattern `\$\{([^}]+)\}` that the source uses, as a leftmost first-match search over characters. There is no general regex engine.
- The document returned by each visit is unchanged and is not modelled.
