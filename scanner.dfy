/**
 * The scanning phase: `getScanner().visitDocument` run over every module
 * document, filling the `ProjectInformation` accumulator.
 */
module Scanner {
  import opened Wrappers
  import opened Coordinates
  import opened PropertyRefs

  /** The run-scoped document id (a UUID in the source). */
  type DocId = nat

  /**
   * What the scanner reads of one pom.xml through its resolution result: the
   * document id, whether the pom has a parent, the directly requested
   * dependencies and the pom's resolved properties.
   */
  datatype Doc = Doc(id: DocId, hasParent: bool, requested: seq<GAV>, properties: map<string, string>)

  /**
   * A snapshot of the accumulator: recorded coordinates per document, the
   * property values to hoist, and the ids of the root documents.
   */
  datatype ProjectState = ProjectState(
    dependencies: map<DocId, seq<GAV>>,
    versionProperties: map<string, string>,
    roots: set<DocId>)

  /** `getInitialValue`: nothing recorded. */
  const Initial := ProjectState(map[], map[], {})

  /** The list recorded for `id`, or the empty list when there is none. */
  function Lookup(dependencies: map<DocId, seq<GAV>>, id: DocId): seq<GAV>
  {
    if id in dependencies then dependencies[id] else []
  }

  /** A requested dependency is recorded when it has a version and is not exempt. */
  predicate Eligible(g: GAV, exemptions: set<GAV>)
  {
    g.version.Some? && NotExempt(g, exemptions)
  }

  /** The requested dependencies the scanner records, in declaration order. */
  function Recorded(requested: seq<GAV>, exemptions: set<GAV>): seq<GAV>
    decreases |requested|
  {
    if requested == [] then []
    else
      var last := requested[|requested| - 1];
      Recorded(requested[..|requested| - 1], exemptions) + (if Eligible(last, exemptions) then [last] else [])
  }

  /** Exactly the eligible requested dependencies are recorded. */
  lemma {:induction false} RecordedMembers(requested: seq<GAV>, exemptions: set<GAV>)
    ensures |Recorded(requested, exemptions)| <= |requested|
    ensures forall g :: g in Recorded(requested, exemptions) <==> g in requested && Eligible(g, exemptions)
    decreases |requested|
  {
    if requested != [] {
      var front := requested[..|requested| - 1];
      RecordedMembers(front, exemptions);
      assert requested == front + [requested[|requested| - 1]];
    }
  }

  /** Recording keeps declaration order: it distributes over concatenation. */
  lemma {:induction false} RecordedAppend(a: seq<GAV>, b: seq<GAV>, exemptions: set<GAV>)
    ensures Recorded(a + b, exemptions) == Recorded(a, exemptions) + Recorded(b, exemptions)
    decreases |b|
  {
    if b == [] {
      assert a + b == a;
    } else {
      var b' := b[..|b| - 1];
      assert (a + b)[..|a + b| - 1] == a + b';
      RecordedAppend(a, b', exemptions);
    }
  }

  /** The names the scanner extracts from a version: only when `hasProperty` holds. */
  function VersionNames(version: Option<string>): seq<string>
  {
    if HasProperty(version) then PropertyNames(version.value) else []
  }

  /** The `hasProperty` guard changes nothing: a version without `${` has no names anyway. */
  lemma VersionNamesIgnoreGuard(version: Option<string>)
    ensures VersionNames(version) == if version.Some? then PropertyNames(version.value) else []
  {
    if version.Some? && PropertyNames(version.value) != [] {
      NamesImplyHasProperty(version.value);
    }
  }

  /** One more requested dependency: recorded at the end, or skipped. */
  lemma RecordedStep(requested: seq<GAV>, i: nat, exemptions: set<GAV>)
    requires i < |requested|
    ensures Recorded(requested[..i + 1], exemptions) ==
      Recorded(requested[..i], exemptions) + (if Eligible(requested[i], exemptions) then [requested[i]] else [])
  {
    assert requested[..i + 1][..i] == requested[..i];
  }

  /** Every property name referenced by the versions of `gavs`. */
  function Referenced(gavs: seq<GAV>): set<string>
    decreases |gavs|
  {
    if gavs == [] then {}
    else
      var last := gavs[|gavs| - 1];
      Referenced(gavs[..|gavs| - 1]) + NameSet(VersionNames(last.version))
  }

  /** One more recorded dependency adds the names in its version. */
  lemma ReferencedStep(gavs: seq<GAV>, g: GAV)
    ensures Referenced(gavs + [g]) == Referenced(gavs) + NameSet(VersionNames(g.version))
  {
    assert (gavs + [g])[..|gavs|] == gavs;
  }

  function NameSet(names: seq<string>): (r: set<string>)
    ensures forall n :: n in r <==> n in names
  {
    set n | n in names
  }

  /** The referenced names are exactly those in the version of some coordinate. */
  lemma {:induction false} ReferencedMembers(gavs: seq<GAV>)
    ensures forall n :: n in Referenced(gavs) <==> exists g :: g in gavs && n in VersionNames(g.version)
    decreases |gavs|
  {
    if gavs != [] {
      var front := gavs[..|gavs| - 1];
      ReferencedMembers(front);
      assert gavs == front + [gavs[|gavs| - 1]];
    }
  }

  /** The entries of `properties` whose names are in `names`. */
  function Restrict(properties: map<string, string>, names: set<string>): (r: map<string, string>)
    ensures r.Keys == names * properties.Keys
    ensures forall n :: n in r ==> r[n] == properties[n]
  {
    map n | n in names && n in properties :: properties[n]
  }

  /** The `versionProperties` entries one document contributes. */
  function Resolved(doc: Doc, exemptions: set<GAV>): map<string, string>
  {
    Restrict(doc.properties, Referenced(Recorded(doc.requested, exemptions)))
  }

  /**
   * A document contributes a property exactly when the property is named in
   * the version of one of its recorded dependencies and the document's
   * properties give it a value; that value is the one contributed.
   */
  lemma ResolvedIff(doc: Doc, exemptions: set<GAV>, n: string)
    ensures n in Resolved(doc, exemptions) <==>
      n in doc.properties &&
      exists g :: g in Recorded(doc.requested, exemptions) && g.version.Some? && n in PropertyNames(g.version.value)
    ensures n in Resolved(doc, exemptions) ==> Resolved(doc, exemptions)[n] == doc.properties[n]
  {
    ReferencedMembers(Recorded(doc.requested, exemptions));
    forall g | g in Recorded(doc.requested, exemptions) {
      VersionNamesIgnoreGuard(g.version);
    }
  }

  /** One more name in a sequence adds it to the name set. */
  lemma NameSetStep(names: seq<string>, k: nat)
    requires k < |names|
    ensures NameSet(names[..k + 1]) == NameSet(names[..k]) + {names[k]}
  {
    assert names[..k + 1] == names[..k] + [names[k]];
  }

  /** A `put` of one more resolved name is the restriction to one more name. */
  lemma PutStep(m: map<string, string>, properties: map<string, string>, names: set<string>, name: string)
    ensures name in properties ==>
      (m + Restrict(properties, names))[name := properties[name]] == m + Restrict(properties, names + {name})
    ensures name !in properties ==>
      m + Restrict(properties, names) == m + Restrict(properties, names + {name})
  {
  }

  /** Adding two restrictions one after the other adds the restriction to both name sets. */
  lemma RestrictTwice(m: map<string, string>, properties: map<string, string>, a: set<string>, b: set<string>)
    ensures (m + Restrict(properties, a)) + Restrict(properties, b) == m + Restrict(properties, a + b)
  {
  }

  /** Recording `g` after `before` extends both the document's list and its contribution. */
  lemma RecordStep(deps: map<DocId, seq<GAV>>, vp: map<string, string>, doc: Doc,
                   base: seq<GAV>, before: seq<GAV>, g: GAV)
    ensures deps[doc.id := base + before][doc.id := (base + before) + [g]] ==
      deps[doc.id := base + (before + [g])]
    ensures (vp + Restrict(doc.properties, Referenced(before))) + Restrict(doc.properties, NameSet(VersionNames(g.version))) ==
      vp + Restrict(doc.properties, Referenced(before + [g]))
  {
    assert (base + before) + [g] == base + (before + [g]);
    ReferencedStep(before, g);
    RestrictTwice(vp, doc.properties, Referenced(before), NameSet(VersionNames(g.version)));
  }

  /** One visit of the scanner, as a change to the accumulator. */
  function ScanDoc(st: ProjectState, doc: Doc, exemptions: set<GAV>): ProjectState
  {
    ProjectState(
      st.dependencies[doc.id := Lookup(st.dependencies, doc.id) + Recorded(doc.requested, exemptions)],
      st.versionProperties + Resolved(doc, exemptions),
      if doc.hasParent then st.roots else st.roots + {doc.id})
  }

  /** The accumulator after the scanner has visited `docs` in order. */
  function ScanAll(docs: seq<Doc>, exemptions: set<GAV>): ProjectState
    decreases |docs|
  {
    if docs == [] then Initial
    else ScanDoc(ScanAll(docs[..|docs| - 1], exemptions), docs[|docs| - 1], exemptions)
  }

  /** The `ProjectInformation` record, whose maps and set the scanner updates in place. */
  class ProjectInformation {
    var dependencies: map<DocId, seq<GAV>>
    var versionProperties: map<string, string>
    var roots: set<DocId>

    function State(): ProjectState
      reads this
    {
      ProjectState(dependencies, versionProperties, roots)
    }

    constructor ()
      ensures State() == Initial
    {
      dependencies := map[];
      versionProperties := map[];
      roots := {};
    }

    /** The scanner's `visitDocument`. */
    method VisitDocument(doc: Doc, exemptions: set<GAV>)
      modifies this
      ensures State() == ScanDoc(old(State()), doc, exemptions)
    {
      if doc.id !in dependencies {
        dependencies := dependencies[doc.id := []];
      }
      RecordRequested(doc, exemptions);
      if !doc.hasParent {
        roots := roots + {doc.id};
      }
    }

    /** The `forEach` over the requested dependencies of `doc`. */
    method RecordRequested(doc: Doc, exemptions: set<GAV>)
      requires doc.id in dependencies
      modifies this`dependencies, this`versionProperties
      ensures dependencies == old(dependencies)[doc.id := old(dependencies)[doc.id] + Recorded(doc.requested, exemptions)]
      ensures versionProperties == old(versionProperties) + Resolved(doc, exemptions)
    {
      var requested := doc.requested;
      ghost var deps0, props0 := dependencies, versionProperties;
      ghost var base := dependencies[doc.id];
      ghost var recorded: seq<GAV> := [];
      assert dependencies == deps0[doc.id := base + recorded] by {
        assert base + [] == base;
      }
      assert requested[..0] == [];
      var i := 0;
      while i < |requested|
        invariant 0 <= i <= |requested|
        invariant recorded == Recorded(requested[..i], exemptions)
        invariant dependencies == deps0[doc.id := base + recorded]
        invariant versionProperties == props0 + Restrict(doc.properties, Referenced(recorded))
      {
        var gav := requested[i];
        RecordedStep(requested, i, exemptions);
        if gav.version.Some? && NotExempt(gav, exemptions) {
          RecordDependency(doc.id, gav, doc.properties);
          RecordStep(deps0, props0, doc, base, recorded, gav);
          recorded := recorded + [gav];
        } else {
          assert recorded + [] == recorded;
        }
        i := i + 1;
      }
      assert requested[..|requested|] == requested;
    }

    /**
     * The body of the `forEach` for a recorded coordinate: append it to the
     * document's list and `put` the properties its version names.
     */
    method RecordDependency(id: DocId, gav: GAV, properties: map<string, string>)
      requires id in dependencies
      modifies this`dependencies, this`versionProperties
      ensures dependencies == old(dependencies)[id := old(dependencies)[id] + [gav]]
      ensures versionProperties == old(versionProperties) + Restrict(properties, NameSet(VersionNames(gav.version)))
    {
      dependencies := dependencies[id := dependencies[id] + [gav]];
      if HasProperty(gav.version) {
        var names := ExtractPropertyNames(gav.version.value);
        PutResolved(names, properties);
      } else {
        assert Restrict(properties, NameSet([])) == map[];
        assert versionProperties + map[] == versionProperties;
      }
    }

    /** The inner `forEach` over extracted names: `put` every name the properties resolve. */
    method PutResolved(names: seq<string>, properties: map<string, string>)
      modifies this`versionProperties
      ensures versionProperties == old(versionProperties) + Restrict(properties, NameSet(names))
    {
      var k := 0;
      while k < |names|
        invariant 0 <= k <= |names|
        invariant versionProperties == old(versionProperties) + Restrict(properties, NameSet(names[..k]))
      {
        var name := names[k];
        NameSetStep(names, k);
        PutStep(old(versionProperties), properties, NameSet(names[..k]), name);
        if name in properties {
          versionProperties := versionProperties[name := properties[name]];
        }
        k := k + 1;
      }
      assert names[..|names|] == names;
    }
  }

  /** The scanning phase: one accumulator, every document visited once, in order. */
  method Scan(docs: seq<Doc>, exemptions: set<GAV>) returns (info: ProjectInformation)
    ensures fresh(info)
    ensures info.State() == ScanAll(docs, exemptions)
  {
    info := new ProjectInformation();
    var i := 0;
    while i < |docs|
      invariant 0 <= i <= |docs|
      invariant info.State() == ScanAll(docs[..i], exemptions)
    {
      assert docs[..i + 1][..i] == docs[..i];
      info.VisitDocument(docs[i], exemptions);
      i := i + 1;
    }
    assert docs[..|docs|] == docs;
  }

  /** Document ids are unique within one run. */
  predicate UniqueIds(docs: seq<Doc>)
  {
    forall i, j :: 0 <= i < j < |docs| ==> docs[i].id != docs[j].id
  }

  /** Every visited document has an entry (possibly empty), and nothing else does. */
  lemma {:induction false} ScanAllKeys(docs: seq<Doc>, exemptions: set<GAV>)
    ensures ScanAll(docs, exemptions).dependencies.Keys == set d | d in docs :: d.id
    decreases |docs|
  {
    if docs != [] {
      var front := docs[..|docs| - 1];
      ScanAllKeys(front, exemptions);
      assert docs == front + [docs[|docs| - 1]];
    }
  }

  /** The ids of the documents without a parent, in visiting order. */
  ghost function RootIds(docs: seq<Doc>): set<DocId>
    decreases |docs|
  {
    if docs == [] then {}
    else
      var last := docs[|docs| - 1];
      RootIds(docs[..|docs| - 1]) + (if last.hasParent then {} else {last.id})
  }

  /** The roots are exactly the ids of the documents without a parent. */
  lemma {:induction false} ScanAllRoots(docs: seq<Doc>, exemptions: set<GAV>)
    ensures ScanAll(docs, exemptions).roots == RootIds(docs)
    decreases |docs|
  {
    if docs != [] {
      ScanAllRoots(docs[..|docs| - 1], exemptions);
    }
  }

  /** An id is a root id exactly when some document without a parent carries it. */
  lemma {:induction false} RootIdsIff(docs: seq<Doc>, id: DocId)
    ensures id in RootIds(docs) <==> exists d :: d in docs && !d.hasParent && d.id == id
    decreases |docs|
  {
    if docs != [] {
      var front := docs[..|docs| - 1];
      RootIdsIff(front, id);
      assert docs == front + [docs[|docs| - 1]];
    }
  }

  /** With unique ids, each document's entry is exactly its recorded dependencies, in order. */
  lemma {:induction false} ScanAllDependencies(docs: seq<Doc>, exemptions: set<GAV>, i: nat)
    requires UniqueIds(docs) && i < |docs|
    ensures docs[i].id in ScanAll(docs, exemptions).dependencies
    ensures ScanAll(docs, exemptions).dependencies[docs[i].id] == Recorded(docs[i].requested, exemptions)
    decreases |docs|
  {
    var front := docs[..|docs| - 1];
    var last := docs[|docs| - 1];
    if i == |docs| - 1 {
      ScanAllKeys(front, exemptions);
      assert last.id !in ScanAll(front, exemptions).dependencies by {
        forall d | d in front ensures d.id != last.id {
          var j :| 0 <= j < |front| && front[j] == d;
        }
      }
    } else {
      ScanAllDependencies(front, exemptions, i);
    }
  }

  /** Maps laid over one another in order, later entries replacing earlier ones (repeated `put`). */
  function Overlay(layers: seq<map<string, string>>): map<string, string>
    decreases |layers|
  {
    if layers == [] then map[] else Overlay(layers[..|layers| - 1]) + layers[|layers| - 1]
  }

  /** Layer `i` holds `n` and no later layer does. */
  predicate LastLayerWith(layers: seq<map<string, string>>, n: string, i: int)
  {
    0 <= i < |layers| && n in layers[i] && forall j :: i < j < |layers| ==> n !in layers[j]
  }

  lemma {:induction false} OverlayLastWriter(layers: seq<map<string, string>>, n: string, i: int)
    requires LastLayerWith(layers, n, i)
    ensures n in Overlay(layers) && Overlay(layers)[n] == layers[i][n]
    decreases |layers|
  {
    if i < |layers| - 1 {
      var front := layers[..|layers| - 1];
      assert LastLayerWith(front, n, i);
      OverlayLastWriter(front, n, i);
    }
  }

  lemma {:induction false} OverlayOrigin(layers: seq<map<string, string>>, n: string)
    requires n in Overlay(layers)
    ensures exists i :: LastLayerWith(layers, n, i)
    decreases |layers|
  {
    var last := |layers| - 1;
    if n in layers[last] {
      assert LastLayerWith(layers, n, last);
    } else {
      var front := layers[..last];
      OverlayOrigin(front, n);
      var i :| LastLayerWith(front, n, i);
      assert LastLayerWith(layers, n, i);
    }
  }

  /** What each document contributes to `versionProperties`, in scan order. */
  function Contributions(docs: seq<Doc>, exemptions: set<GAV>): (r: seq<map<string, string>>)
    ensures |r| == |docs|
  {
    seq(|docs|, i requires 0 <= i < |docs| => Resolved(docs[i], exemptions))
  }

  lemma {:induction false} ScanAllVersionProperties(docs: seq<Doc>, exemptions: set<GAV>)
    ensures ScanAll(docs, exemptions).versionProperties == Overlay(Contributions(docs, exemptions))
    decreases |docs|
  {
    if docs != [] {
      var front := docs[..|docs| - 1];
      ScanAllVersionProperties(front, exemptions);
      assert Contributions(docs, exemptions)[..|docs| - 1] == Contributions(front, exemptions);
    }
  }

  /**
   * `put` semantics: the value of a hoisted property comes from the last
   * document that contributes that name; later documents overwrite earlier ones.
   */
  lemma ScanAllPropertyLastWriter(docs: seq<Doc>, exemptions: set<GAV>, n: string, i: nat)
    requires i < |docs| && n in Resolved(docs[i], exemptions)
    requires forall j :: i < j < |docs| ==> n !in Resolved(docs[j], exemptions)
    ensures n in ScanAll(docs, exemptions).versionProperties
    ensures ScanAll(docs, exemptions).versionProperties[n] == docs[i].properties[n]
  {
    ScanAllVersionProperties(docs, exemptions);
    var layers := Contributions(docs, exemptions);
    assert LastLayerWith(layers, n, i);
    OverlayLastWriter(layers, n, i);
  }

  /**
   * Every hoisted property was contributed by some document, and its value is
   * that of the last document contributing the name.
   */
  lemma ScanAllPropertyOrigin(docs: seq<Doc>, exemptions: set<GAV>, n: string)
    requires n in ScanAll(docs, exemptions).versionProperties
    ensures exists i :: (0 <= i < |docs| && n in Resolved(docs[i], exemptions) &&
      ScanAll(docs, exemptions).versionProperties[n] == docs[i].properties[n] &&
      forall j :: i < j < |docs| ==> n !in Resolved(docs[j], exemptions))
  {
    ScanAllVersionProperties(docs, exemptions);
    var layers := Contributions(docs, exemptions);
    OverlayOrigin(layers, n);
    var i :| LastLayerWith(layers, n, i);
    OverlayLastWriter(layers, n, i);
    assert forall j :: i < j < |docs| ==> n !in Resolved(docs[j], exemptions) by {
      forall j | i < j < |docs| ensures n !in Resolved(docs[j], exemptions) {
        assert layers[j] == Resolved(docs[j], exemptions);
      }
    }
  }
}
