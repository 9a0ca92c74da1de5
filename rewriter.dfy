/**
 * The rewriting phase: `getVisitor().visitDocument`, which reads the frozen
 * accumulator and queues edits for each document with `doAfterVisit`.
 */
module Rewriter {
  import opened Wrappers
  import opened Coordinates
  import opened PropertyRefs
  import opened Scanner

  /**
   * The edits the rewriter queues: `AddManagedDependencyVisitor`,
   * `AddProperty`, `RemoveProperty` and `ManageDependencies`, by their arguments.
   */
  datatype Edit =
    | AddManagedDependency(group: string, artifact: string, version: Option<string>)
    | AddProperty(name: string, value: string)
    | RemoveProperty(name: string)
    | ManageDependency(group: string, artifact: string)

  /** `order` lists every key exactly once: the iteration order of a hash map or set. */
  ghost predicate Enumerates<K(!new)>(order: seq<K>, keys: set<K>)
  {
    (forall k :: k in order <==> k in keys) &&
    forall i, j :: 0 <= i < j < |order| ==> order[i] != order[j]
  }

  /** `dependencies().values().stream().flatMap(List::stream)`, the keys visited in `order`. */
  function Flatten(dependencies: map<DocId, seq<GAV>>, order: seq<DocId>): seq<GAV>
    decreases |order|
  {
    if order == [] then []
    else Flatten(dependencies, order[..|order| - 1]) + Lookup(dependencies, order[|order| - 1])
  }

  /** All recorded coordinates of all documents, counted with multiplicity, in no order. */
  ghost function AllRecorded(dependencies: map<DocId, seq<GAV>>): multiset<GAV>
    decreases dependencies.Keys
  {
    if dependencies == map[] then multiset{}
    else
      var k :| k in dependencies;
      multiset(dependencies[k]) + AllRecorded(dependencies - {k})
  }

  /** Taking any one document out first gives the same total. */
  lemma {:induction false} AllRecordedRemove(dependencies: map<DocId, seq<GAV>>, k: DocId)
    requires k in dependencies
    ensures AllRecorded(dependencies) == multiset(dependencies[k]) + AllRecorded(dependencies - {k})
    decreases dependencies.Keys
  {
    var k' :| k' in dependencies && AllRecorded(dependencies) ==
      multiset(dependencies[k']) + AllRecorded(dependencies - {k'});
    if k' != k {
      var both := dependencies - {k} - {k'};
      assert dependencies - {k'} - {k} == both;
      AllRecordedRemove(dependencies - {k'}, k);
      AllRecordedRemove(dependencies - {k}, k');
    }
  }

  /** Flattening looks only at the keys it visits. */
  lemma {:induction false} FlattenIgnoresOtherKeys(dependencies: map<DocId, seq<GAV>>, order: seq<DocId>, k: DocId)
    requires k !in order
    ensures Flatten(dependencies, order) == Flatten(dependencies - {k}, order)
    decreases |order|
  {
    if order != [] {
      FlattenIgnoresOtherKeys(dependencies, order[..|order| - 1], k);
    }
  }

  /**
   * Whatever the iteration order of the map, the flattened list holds every
   * recorded coordinate of every document, each as often as recorded.
   */
  lemma {:induction false} FlattenIsAllRecorded(dependencies: map<DocId, seq<GAV>>, order: seq<DocId>)
    requires Enumerates(order, dependencies.Keys)
    ensures multiset(Flatten(dependencies, order)) == AllRecorded(dependencies)
    decreases |order|
  {
    if order == [] {
      assert dependencies.Keys == {};
      assert dependencies == map[];
    } else {
      var last := order[|order| - 1];
      var front := order[..|order| - 1];
      var rest := dependencies - {last};
      assert last in dependencies;
      assert last !in front;
      assert Enumerates(front, rest.Keys) by {
        forall k | k in front ensures k in rest.Keys {
          var i :| 0 <= i < |front| && front[i] == k;
          assert order[i] == k;
        }
        forall k | k in rest.Keys ensures k in front {
          assert k in order;
          var i :| 0 <= i < |order| && order[i] == k;
          assert i != |order| - 1;
          assert front[i] == k;
        }
      }
      FlattenIsAllRecorded(rest, front);
      FlattenIgnoresOtherKeys(dependencies, front, last);
      AllRecordedRemove(dependencies, last);
    }
  }

  /** One add-managed edit per coordinate, version verbatim. */
  function ManagedEntries(gavs: seq<GAV>): (r: seq<Edit>)
    ensures forall e :: e in r ==> e.AddManagedDependency?
    decreases |gavs|
  {
    if gavs == [] then []
    else
      var g := gavs[|gavs| - 1];
      ManagedEntries(gavs[..|gavs| - 1]) + [AddManagedDependency(g.group, g.artifact, g.version)]
  }

  /** One add-property edit per property, visited in `order`. */
  function PropertyEntries(properties: map<string, string>, order: seq<string>): (r: seq<Edit>)
    ensures forall e :: e in r ==> e.AddProperty?
    decreases |order|
  {
    if order == [] then []
    else
      var n := order[|order| - 1];
      PropertyEntries(properties, order[..|order| - 1]) +
        (if n in properties then [AddProperty(n, properties[n])] else [])
  }

  /** What a root document gets: nothing at all when no document recorded anything. */
  function RootEdits(acc: ProjectState, depOrder: seq<DocId>, propOrder: seq<string>): seq<Edit>
  {
    var all := Flatten(acc.dependencies, depOrder);
    if all == [] then []
    else ManagedEntries(all) + PropertyEntries(acc.versionProperties, propOrder)
  }

  /** One remove-property edit per name. */
  function Removals(names: seq<string>): (r: seq<Edit>)
    ensures forall e :: e in r ==> e.RemoveProperty?
    decreases |names|
  {
    if names == [] then []
    else Removals(names[..|names| - 1]) + [RemoveProperty(names[|names| - 1])]
  }

  /**
   * The edits for one recorded coordinate: outside a root, a property-based
   * version first removes every property it names; then the dependency is managed.
   */
  function EditsFor(g: GAV, isRoot: bool): (r: seq<Edit>)
    ensures r != [] && r[|r| - 1] == ManageDependency(g.group, g.artifact)
    ensures forall e :: e in r[..|r| - 1] ==> e.RemoveProperty?
  {
    (if !isRoot && HasProperty(g.version) then Removals(PropertyNames(g.version.value)) else []) +
      [ManageDependency(g.group, g.artifact)]
  }

  /** The edits for a document's own recorded coordinates, in order. */
  function LocalEdits(gavs: seq<GAV>, isRoot: bool): seq<Edit>
    decreases |gavs|
  {
    if gavs == [] then []
    else LocalEdits(gavs[..|gavs| - 1], isRoot) + EditsFor(gavs[|gavs| - 1], isRoot)
  }

  /** All edits queued for document `id`, the hash orders given by `depOrder` and `propOrder`. */
  function DocumentEdits(acc: ProjectState, id: DocId, depOrder: seq<DocId>, propOrder: seq<string>): seq<Edit>
  {
    var isRoot := id in acc.roots;
    (if isRoot then RootEdits(acc, depOrder, propOrder) else []) +
      LocalEdits(Lookup(acc.dependencies, id), isRoot)
  }

  /** The rewriter's `visitDocument`: the edits it queues, in queueing order. */
  method VisitDocument(acc: ProjectState, id: DocId, depOrder: seq<DocId>, propOrder: seq<string>)
    returns (edits: seq<Edit>)
    ensures edits == DocumentEdits(acc, id, depOrder, propOrder)
  {
    var isRoot := id in acc.roots;
    edits := [];
    if isRoot {
      edits := QueueRootEdits(acc, depOrder, propOrder);
    }
    var deps := Lookup(acc.dependencies, id);
    if deps != [] {
      var local := QueueLocalEdits(deps, isRoot);
      edits := edits + local;
    } else {
      assert edits + [] == edits;
    }
  }

  /** The root block of `visitDocument`. */
  method QueueRootEdits(acc: ProjectState, depOrder: seq<DocId>, propOrder: seq<string>) returns (edits: seq<Edit>)
    ensures edits == RootEdits(acc, depOrder, propOrder)
  {
    var dependencies := Values(acc.dependencies, depOrder);
    edits := [];
    if dependencies != [] {
      edits := QueueManagedEntries(dependencies);
      var properties := acc.versionProperties;
      if properties != map[] {
        var added := QueuePropertyEntries(properties, propOrder);
        edits := edits + added;
      } else {
        NoPropertyEntries(propOrder);
        assert edits + [] == edits;
      }
    }
  }

  /** `dependencies.forEach`: one add-managed edit per coordinate. */
  method QueueManagedEntries(dependencies: seq<GAV>) returns (edits: seq<Edit>)
    ensures edits == ManagedEntries(dependencies)
  {
    edits := [];
    var i := 0;
    while i < |dependencies|
      invariant 0 <= i <= |dependencies|
      invariant edits == ManagedEntries(dependencies[..i])
    {
      var gav := dependencies[i];
      assert dependencies[..i + 1][..i] == dependencies[..i];
      edits := edits + [AddManagedDependency(gav.group, gav.artifact, gav.version)];
      i := i + 1;
    }
    assert dependencies[..|dependencies|] == dependencies;
  }

  /** `versionProperties().forEach`: one add-property edit per entry, in the map's order. */
  method QueuePropertyEntries(properties: map<string, string>, order: seq<string>) returns (edits: seq<Edit>)
    ensures edits == PropertyEntries(properties, order)
  {
    edits := [];
    var k := 0;
    while k < |order|
      invariant 0 <= k <= |order|
      invariant edits == PropertyEntries(properties, order[..k])
    {
      var name := order[k];
      assert order[..k + 1][..k] == order[..k];
      if name in properties {
        edits := edits + [AddProperty(name, properties[name])];
      } else {
        assert edits + [] == edits;
      }
      k := k + 1;
    }
    assert order[..|order|] == order;
  }

  /** An empty property map yields no add-property edits, whatever the order. */
  lemma {:induction false} NoPropertyEntries(order: seq<string>)
    ensures PropertyEntries(map[], order) == []
    decreases |order|
  {
    if order != [] {
      NoPropertyEntries(order[..|order| - 1]);
    }
  }

  /** The flattened `values()` of the dependency map. */
  method Values(dependencies: map<DocId, seq<GAV>>, order: seq<DocId>) returns (all: seq<GAV>)
    ensures all == Flatten(dependencies, order)
  {
    all := [];
    var i := 0;
    while i < |order|
      invariant 0 <= i <= |order|
      invariant all == Flatten(dependencies, order[..i])
    {
      assert order[..i + 1][..i] == order[..i];
      all := all + Lookup(dependencies, order[i]);
      i := i + 1;
    }
    assert order[..|order|] == order;
  }

  /** The per-document block of `visitDocument`: `deps.forEach`. */
  method QueueLocalEdits(gavs: seq<GAV>, isRoot: bool) returns (edits: seq<Edit>)
    ensures edits == LocalEdits(gavs, isRoot)
  {
    edits := [];
    var i := 0;
    while i < |gavs|
      invariant 0 <= i <= |gavs|
      invariant edits == LocalEdits(gavs[..i], isRoot)
    {
      assert gavs[..i + 1][..i] == gavs[..i];
      var more := QueueEditsFor(gavs[i], isRoot);
      edits := edits + more;
      i := i + 1;
    }
    assert gavs[..|gavs|] == gavs;
  }

  /** The body of that `forEach` for one coordinate. */
  method QueueEditsFor(gav: GAV, isRoot: bool) returns (edits: seq<Edit>)
    ensures edits == EditsFor(gav, isRoot)
  {
    edits := [];
    if !isRoot && HasProperty(gav.version) {
      var names := ExtractPropertyNames(gav.version.value);
      var k := 0;
      while k < |names|
        invariant 0 <= k <= |names|
        invariant edits == Removals(names[..k])
      {
        assert names[..k + 1][..k] == names[..k];
        edits := edits + [RemoveProperty(names[k])];
        k := k + 1;
      }
      assert names[..|names|] == names;
    }
    edits := edits + [ManageDependency(gav.group, gav.artifact)];
  }

  /** The edits of one kind, in order, through a projection. */
  function Select<T>(edits: seq<Edit>, project: Edit -> Option<T>): seq<T>
    decreases |edits|
  {
    if edits == [] then []
    else
      var e := edits[|edits| - 1];
      Select(edits[..|edits| - 1], project) + (match project(e) case Some(x) => [x] case None => [])
  }

  lemma {:induction false} SelectAppend<T>(a: seq<Edit>, b: seq<Edit>, project: Edit -> Option<T>)
    ensures Select(a + b, project) == Select(a, project) + Select(b, project)
    decreases |b|
  {
    if b == [] {
      assert a + b == a;
    } else {
      var b' := b[..|b| - 1];
      assert (a + b)[..|a + b| - 1] == a + b';
      SelectAppend(a, b', project);
    }
  }

  function AsAddManaged(e: Edit): Option<GAV>
  {
    if e.AddManagedDependency? then Some(GAV(e.group, e.artifact, e.version)) else None
  }

  function AsAddProperty(e: Edit): Option<(string, string)>
  {
    if e.AddProperty? then Some((e.name, e.value)) else None
  }

  function AsRemoveProperty(e: Edit): Option<string>
  {
    if e.RemoveProperty? then Some(e.name) else None
  }

  function AsManage(e: Edit): Option<(string, string)>
  {
    if e.ManageDependency? then Some((e.group, e.artifact)) else None
  }

  /** Group and artifact of each coordinate, in order. */
  function GroupArtifacts(gavs: seq<GAV>): (r: seq<(string, string)>)
    ensures |r| == |gavs|
    decreases |gavs|
  {
    if gavs == [] then []
    else
      var g := gavs[|gavs| - 1];
      GroupArtifacts(gavs[..|gavs| - 1]) + [(g.group, g.artifact)]
  }

  /** The names removed for the coordinates, in order. */
  function RemovedNames(gavs: seq<GAV>): seq<string>
    decreases |gavs|
  {
    if gavs == [] then []
    else
      var g := gavs[|gavs| - 1];
      RemovedNames(gavs[..|gavs| - 1]) + (if g.version.Some? then PropertyNames(g.version.value) else [])
  }

  /** A projection that ignores every edit of a sequence selects nothing from it. */
  lemma {:induction false} SelectNone<T>(edits: seq<Edit>, project: Edit -> Option<T>)
    requires forall e :: e in edits ==> project(e).None?
    ensures Select(edits, project) == []
    decreases |edits|
  {
    if edits != [] {
      SelectNone(edits[..|edits| - 1], project);
    }
  }

  lemma {:induction false} ManagedEntriesSelect(gavs: seq<GAV>)
    ensures Select(ManagedEntries(gavs), AsAddManaged) == gavs
    decreases |gavs|
  {
    if gavs != [] {
      var front := gavs[..|gavs| - 1];
      var g := gavs[|gavs| - 1];
      ManagedEntriesSelect(front);
      SelectAppend(ManagedEntries(front), [AddManagedDependency(g.group, g.artifact, g.version)], AsAddManaged);
      assert front + [g] == gavs;
    }
  }

  /** Properties are visited in `order`; each name of it gives one entry with the map's value. */
  lemma {:induction false} PropertyEntriesSelect(properties: map<string, string>, order: seq<string>)
    requires forall n :: n in order ==> n in properties
    ensures Select(PropertyEntries(properties, order), AsAddProperty) ==
      seq(|order|, i requires 0 <= i < |order| => (order[i], properties[order[i]]))
    decreases |order|
  {
    if order != [] {
      var front := order[..|order| - 1];
      var n := order[|order| - 1];
      PropertyEntriesSelect(properties, front);
      SelectAppend(PropertyEntries(properties, front), [AddProperty(n, properties[n])], AsAddProperty);
    }
  }

  lemma {:induction false} RemovalsSelect(names: seq<string>)
    ensures Select(Removals(names), AsRemoveProperty) == names
    decreases |names|
  {
    if names != [] {
      var front := names[..|names| - 1];
      RemovalsSelect(front);
      SelectAppend(Removals(front), [RemoveProperty(names[|names| - 1])], AsRemoveProperty);
      assert front + [names[|names| - 1]] == names;
    }
  }

  /** What the edits for one coordinate hold, kind by kind. */
  lemma EditsForSelect(g: GAV, isRoot: bool)
    ensures Select(EditsFor(g, isRoot), AsManage) == [(g.group, g.artifact)]
    ensures Select(EditsFor(g, isRoot), AsRemoveProperty) ==
      if isRoot || g.version.None? then [] else PropertyNames(g.version.value)
    ensures Select(EditsFor(g, isRoot), AsAddManaged) == []
    ensures Select(EditsFor(g, isRoot), AsAddProperty) == []
  {
    var r := EditsFor(g, isRoot);
    var removals := r[..|r| - 1];
    var manage := ManageDependency(g.group, g.artifact);
    assert r == removals + [manage];
    SelectNone(removals, AsManage);
    SelectNone(removals, AsAddManaged);
    SelectNone(removals, AsAddProperty);
    SelectNone([manage], AsAddManaged);
    SelectNone([manage], AsAddProperty);
    SelectAppend(removals, [manage], AsManage);
    SelectAppend(removals, [manage], AsRemoveProperty);
    SelectAppend(removals, [manage], AsAddManaged);
    SelectAppend(removals, [manage], AsAddProperty);
    assert [manage][..0] == [];
    if !isRoot && HasProperty(g.version) {
      assert removals == Removals(PropertyNames(g.version.value));
      RemovalsSelect(PropertyNames(g.version.value));
    } else {
      assert removals == [];
    }
    VersionNamesIgnoreGuard(g.version);
  }

  /** Exactly one manage edit per recorded coordinate of the document, in order. */
  lemma {:induction false} LocalEditsManage(gavs: seq<GAV>, isRoot: bool)
    ensures Select(LocalEdits(gavs, isRoot), AsManage) == GroupArtifacts(gavs)
    decreases |gavs|
  {
    if gavs != [] {
      var front := gavs[..|gavs| - 1];
      var g := gavs[|gavs| - 1];
      LocalEditsManage(front, isRoot);
      EditsForSelect(g, isRoot);
      SelectAppend(LocalEdits(front, isRoot), EditsFor(g, isRoot), AsManage);
    }
  }

  /** A root removes no property; another document removes exactly the names in its recorded versions. */
  lemma {:induction false} LocalEditsRemovals(gavs: seq<GAV>, isRoot: bool)
    ensures Select(LocalEdits(gavs, isRoot), AsRemoveProperty) == if isRoot then [] else RemovedNames(gavs)
    decreases |gavs|
  {
    if gavs != [] {
      var front := gavs[..|gavs| - 1];
      var g := gavs[|gavs| - 1];
      LocalEditsRemovals(front, isRoot);
      EditsForSelect(g, isRoot);
      SelectAppend(LocalEdits(front, isRoot), EditsFor(g, isRoot), AsRemoveProperty);
    }
  }

  /** Local edits add nothing to management or properties. */
  lemma {:induction false} LocalEditsAddNothing(gavs: seq<GAV>, isRoot: bool)
    ensures Select(LocalEdits(gavs, isRoot), AsAddManaged) == []
    ensures Select(LocalEdits(gavs, isRoot), AsAddProperty) == []
    decreases |gavs|
  {
    if gavs != [] {
      var front := gavs[..|gavs| - 1];
      var g := gavs[|gavs| - 1];
      LocalEditsAddNothing(front, isRoot);
      var r := EditsFor(g, isRoot);
      EditsForSelect(g, isRoot);
      SelectAppend(LocalEdits(front, isRoot), r, AsAddManaged);
      SelectAppend(LocalEdits(front, isRoot), r, AsAddProperty);
    }
  }

  /** The root block, kind by kind: the flattened coordinates, then the properties, and nothing else. */
  lemma RootEditsSelect(acc: ProjectState, depOrder: seq<DocId>, propOrder: seq<string>)
    ensures Select(RootEdits(acc, depOrder, propOrder), AsAddManaged) == Flatten(acc.dependencies, depOrder)
    ensures Select(RootEdits(acc, depOrder, propOrder), AsAddProperty) ==
      if Flatten(acc.dependencies, depOrder) == [] then []
      else Select(PropertyEntries(acc.versionProperties, propOrder), AsAddProperty)
    ensures Select(RootEdits(acc, depOrder, propOrder), AsManage) == []
    ensures Select(RootEdits(acc, depOrder, propOrder), AsRemoveProperty) == []
  {
    RootSelectManaged(acc, depOrder, propOrder);
    RootSelectProperties(acc, depOrder, propOrder);
    RootSelectManage(acc, depOrder, propOrder);
    RootSelectRemovals(acc, depOrder, propOrder);
  }

  lemma RootSelectManaged(acc: ProjectState, depOrder: seq<DocId>, propOrder: seq<string>)
    ensures Select(RootEdits(acc, depOrder, propOrder), AsAddManaged) == Flatten(acc.dependencies, depOrder)
  {
    var all := Flatten(acc.dependencies, depOrder);
    RootSelect(acc, depOrder, propOrder, AsAddManaged);
    if all != [] {
      ManagedEntriesSelect(all);
      SelectNone(PropertyEntries(acc.versionProperties, propOrder), AsAddManaged);
    }
  }

  lemma RootSelectProperties(acc: ProjectState, depOrder: seq<DocId>, propOrder: seq<string>)
    ensures Select(RootEdits(acc, depOrder, propOrder), AsAddProperty) ==
      if Flatten(acc.dependencies, depOrder) == [] then []
      else Select(PropertyEntries(acc.versionProperties, propOrder), AsAddProperty)
  {
    var all := Flatten(acc.dependencies, depOrder);
    RootSelect(acc, depOrder, propOrder, AsAddProperty);
    if all != [] {
      SelectNone(ManagedEntries(all), AsAddProperty);
    }
  }

  lemma RootSelectManage(acc: ProjectState, depOrder: seq<DocId>, propOrder: seq<string>)
    ensures Select(RootEdits(acc, depOrder, propOrder), AsManage) == []
  {
    var all := Flatten(acc.dependencies, depOrder);
    RootSelect(acc, depOrder, propOrder, AsManage);
    if all != [] {
      SelectNone(ManagedEntries(all), AsManage);
      SelectNone(PropertyEntries(acc.versionProperties, propOrder), AsManage);
    }
  }

  lemma RootSelectRemovals(acc: ProjectState, depOrder: seq<DocId>, propOrder: seq<string>)
    ensures Select(RootEdits(acc, depOrder, propOrder), AsRemoveProperty) == []
  {
    var all := Flatten(acc.dependencies, depOrder);
    RootSelect(acc, depOrder, propOrder, AsRemoveProperty);
    if all != [] {
      SelectNone(ManagedEntries(all), AsRemoveProperty);
      SelectNone(PropertyEntries(acc.versionProperties, propOrder), AsRemoveProperty);
    }
  }

  /** Selecting from the root block: the managed entries' share, then the properties' share. */
  lemma RootSelect<T>(acc: ProjectState, depOrder: seq<DocId>, propOrder: seq<string>, project: Edit -> Option<T>)
    ensures Select(RootEdits(acc, depOrder, propOrder), project) ==
      if Flatten(acc.dependencies, depOrder) == [] then []
      else (Select(ManagedEntries(Flatten(acc.dependencies, depOrder)), project) +
        Select(PropertyEntries(acc.versionProperties, propOrder), project))
  {
    var all := Flatten(acc.dependencies, depOrder);
    if all != [] {
      SelectAppend(ManagedEntries(all), PropertyEntries(acc.versionProperties, propOrder), project);
    }
  }

  /** Selecting from a document's edits: the root block's share followed by the local share. */
  lemma DocumentEditsSelect<T>(acc: ProjectState, id: DocId, depOrder: seq<DocId>, propOrder: seq<string>,
                               project: Edit -> Option<T>)
    ensures Select(DocumentEdits(acc, id, depOrder, propOrder), project) ==
      (if id in acc.roots then Select(RootEdits(acc, depOrder, propOrder), project) else []) +
      Select(LocalEdits(Lookup(acc.dependencies, id), id in acc.roots), project)
  {
    var isRoot := id in acc.roots;
    var root := if isRoot then RootEdits(acc, depOrder, propOrder) else [];
    SelectAppend(root, LocalEdits(Lookup(acc.dependencies, id), isRoot), project);
  }

  /**
   * Hoisting: a root document adds a managed dependency for every recorded
   * coordinate of every document, as often as recorded and whatever the map's
   * iteration order; any other document adds none.
   */
  lemma RootHoistsAll(acc: ProjectState, id: DocId, depOrder: seq<DocId>, propOrder: seq<string>)
    requires Enumerates(depOrder, acc.dependencies.Keys)
    ensures id in acc.roots ==>
      multiset(Select(DocumentEdits(acc, id, depOrder, propOrder), AsAddManaged)) == AllRecorded(acc.dependencies)
    ensures id !in acc.roots ==> Select(DocumentEdits(acc, id, depOrder, propOrder), AsAddManaged) == []
  {
    var isRoot := id in acc.roots;
    DocumentEditsSelect(acc, id, depOrder, propOrder, AsAddManaged);
    LocalEditsAddNothing(Lookup(acc.dependencies, id), isRoot);
    RootEditsSelect(acc, depOrder, propOrder);
    FlattenIsAllRecorded(acc.dependencies, depOrder);
    var r := if isRoot then Select(RootEdits(acc, depOrder, propOrder), AsAddManaged) else [];
    assert r + [] == r;
  }

  /** The property entries, visited in `order`, when every name of it is in the map. */
  function OrderedProperties(properties: map<string, string>, order: seq<string>): seq<(string, string)>
    requires forall n :: n in order ==> n in properties
  {
    seq(|order|, i requires 0 <= i < |order| => (order[i], properties[order[i]]))
  }

  /**
   * A root document adds every hoisted property with its value, in the map's
   * iteration order, provided some coordinate was recorded anywhere; otherwise,
   * and in every other document, no property is added.
   */
  lemma RootAddsProperties(acc: ProjectState, id: DocId, depOrder: seq<DocId>, propOrder: seq<string>)
    requires Enumerates(propOrder, acc.versionProperties.Keys)
    ensures Select(DocumentEdits(acc, id, depOrder, propOrder), AsAddProperty) ==
      if id in acc.roots && Flatten(acc.dependencies, depOrder) != []
      then OrderedProperties(acc.versionProperties, propOrder)
      else []
  {
    var isRoot := id in acc.roots;
    DocumentEditsSelect(acc, id, depOrder, propOrder, AsAddProperty);
    LocalEditsAddNothing(Lookup(acc.dependencies, id), isRoot);
    RootEditsSelect(acc, depOrder, propOrder);
    PropertyEntriesSelect(acc.versionProperties, propOrder);
    var r := if isRoot then Select(RootEdits(acc, depOrder, propOrder), AsAddProperty) else [];
    assert r + [] == r;
  }

  /**
   * The added properties as a set: a pair is added exactly when the hoisted map
   * gives that value to that name, and no name is added twice.
   */
  lemma OrderedPropertiesIff(properties: map<string, string>, order: seq<string>, n: string, v: string)
    requires Enumerates(order, properties.Keys)
    ensures (n, v) in OrderedProperties(properties, order) <==> n in properties && properties[n] == v
    ensures forall i, j :: 0 <= i < j < |order| ==>
      OrderedProperties(properties, order)[i].0 != OrderedProperties(properties, order)[j].0
  {
    var r := OrderedProperties(properties, order);
    if n in properties && properties[n] == v {
      assert n in order;
      var i :| 0 <= i < |order| && order[i] == n;
      assert r[i] == (n, v);
    }
  }

  /** Every document manages each of its own recorded coordinates once, in order, and nothing else. */
  lemma DocumentManages(acc: ProjectState, id: DocId, depOrder: seq<DocId>, propOrder: seq<string>)
    ensures Select(DocumentEdits(acc, id, depOrder, propOrder), AsManage) == GroupArtifacts(Lookup(acc.dependencies, id))
  {
    DocumentEditsSelect(acc, id, depOrder, propOrder, AsManage);
    LocalEditsManage(Lookup(acc.dependencies, id), id in acc.roots);
    RootEditsSelect(acc, depOrder, propOrder);
  }

  /**
   * A root keeps its properties; any other document removes every property
   * named by the versions it recorded (whether or not the root hoists a value).
   */
  lemma DocumentRemovesProperties(acc: ProjectState, id: DocId, depOrder: seq<DocId>, propOrder: seq<string>)
    ensures Select(DocumentEdits(acc, id, depOrder, propOrder), AsRemoveProperty) ==
      if id in acc.roots then [] else RemovedNames(Lookup(acc.dependencies, id))
  {
    DocumentEditsSelect(acc, id, depOrder, propOrder, AsRemoveProperty);
    LocalEditsRemovals(Lookup(acc.dependencies, id), id in acc.roots);
    RootEditsSelect(acc, depOrder, propOrder);
  }

  /** In the root block every add-managed edit comes before every add-property edit. */
  lemma RootEditsOrder(acc: ProjectState, depOrder: seq<DocId>, propOrder: seq<string>)
    ensures forall i, j :: 0 <= i < j < |RootEdits(acc, depOrder, propOrder)| ==>
      !(RootEdits(acc, depOrder, propOrder)[i].AddProperty? && RootEdits(acc, depOrder, propOrder)[j].AddManagedDependency?)
  {
    var all := Flatten(acc.dependencies, depOrder);
    if all != [] {
      var managed := ManagedEntries(all);
      var props := PropertyEntries(acc.versionProperties, propOrder);
      var r := managed + props;
      forall k | 0 <= k < |managed| ensures r[k].AddManagedDependency? {
        assert r[k] in managed;
      }
      forall k | |managed| <= k < |r| ensures r[k].AddProperty? {
        assert r[k] == props[k - |managed|];
        assert r[k] in props;
      }
    }
  }

  /** A document that has recorded nothing has nothing in its list. */
  lemma NothingRecordedEmptyList(dependencies: map<DocId, seq<GAV>>, id: DocId)
    requires AllRecorded(dependencies) == multiset{}
    ensures Lookup(dependencies, id) == []
  {
    if id in dependencies {
      AllRecordedRemove(dependencies, id);
      assert multiset(dependencies[id]) == multiset{};
    }
  }

  /** When no document recorded anything, no document is edited at all. */
  lemma NothingRecordedNoEdits(acc: ProjectState, id: DocId, depOrder: seq<DocId>, propOrder: seq<string>)
    requires Enumerates(depOrder, acc.dependencies.Keys)
    requires AllRecorded(acc.dependencies) == multiset{}
    ensures DocumentEdits(acc, id, depOrder, propOrder) == []
  {
    FlattenIsAllRecorded(acc.dependencies, depOrder);
    NothingRecordedEmptyList(acc.dependencies, id);
  }
}
