/**
 * The recipe's documented scenarios, stated on concrete poms: a single pom
 * managing a literal or a property-based version, exempt coordinates, and a
 * parent with one child module.
 */
module Scenarios {
  import opened Wrappers
  import opened Coordinates
  import opened PropertyRefs
  import opened Scanner
  import opened Rewriter
  import opened Recipe

  /** A single root pom requesting `junit:junit` at `version`. */
  function SinglePom(version: string, properties: map<string, string>): seq<Doc>
  {
    [Doc(0, false, [GAV("junit", "junit", Some(version))], properties)]
  }

  /** One document: the scan is one visit from the initial accumulator. */
  lemma ScanOne(doc: Doc, exemptions: set<GAV>)
    ensures ScanAll([doc], exemptions) == ScanDoc(Initial, doc, exemptions)
  {
    assert [doc][..0] == [];
  }

  /** Two documents: two visits in order. */
  lemma ScanTwo(d0: Doc, d1: Doc, exemptions: set<GAV>)
    ensures ScanAll([d0, d1], exemptions) == ScanDoc(ScanDoc(Initial, d0, exemptions), d1, exemptions)
  {
    assert [d0, d1][..1] == [d0];
    ScanOne(d0, exemptions);
  }

  /** The run over one document: its edits against its own accumulator. */
  lemma RunOne(retainVersions: Option<seq<string>>, doc: Doc, depOrder: seq<DocId>, propOrder: seq<string>)
    ensures Run(retainVersions, [doc], depOrder, propOrder) ==
      [DocumentEdits(ScanAll([doc], Exemptions(retainVersions)), doc.id, depOrder, propOrder)]
  {
  }

  /** The run over two documents: the edits of each against the accumulator of both. */
  lemma RunTwo(retainVersions: Option<seq<string>>, d0: Doc, d1: Doc, depOrder: seq<DocId>, propOrder: seq<string>)
    ensures Run(retainVersions, [d0, d1], depOrder, propOrder) ==
      [DocumentEdits(ScanAll([d0, d1], Exemptions(retainVersions)), d0.id, depOrder, propOrder),
       DocumentEdits(ScanAll([d0, d1], Exemptions(retainVersions)), d1.id, depOrder, propOrder)]
  {
  }

  /** One requested dependency is recorded exactly when it is eligible. */
  lemma RecordedOne(g: GAV, exemptions: set<GAV>)
    ensures Recorded([g], exemptions) == if Eligible(g, exemptions) then [g] else []
  {
    assert [g][..0] == [];
  }

  /** The contribution of a document whose single recorded version names exactly `names`. */
  lemma ResolvedOne(doc: Doc, exemptions: set<GAV>, g: GAV, names: set<string>)
    requires Recorded(doc.requested, exemptions) == [g]
    requires g.version.Some? && NameSet(PropertyNames(g.version.value)) == names
    ensures Resolved(doc, exemptions) == Restrict(doc.properties, names)
  {
    VersionNamesIgnoreGuard(g.version);
    assert [g][..0] == [];
    assert Referenced([g]) == NameSet(VersionNames(g.version));
  }

  /** A version of the form `${n}` names exactly `n`. */
  lemma SingleReference(version: string, n: string)
    requires n != [] && '}' !in n && version == "${" + n + "}"
    ensures PropertyNames(version) == [n]
    ensures NameSet(PropertyNames(version)) == {n}
  {
    ReferenceIsExtracted(n, "");
    assert "${" + n + "}" + "" == "${" + n + "}";
    assert PropertyNames("") == [];
  }

  /** The local edits of a single coordinate. */
  lemma LocalEditsOne(g: GAV, isRoot: bool)
    ensures LocalEdits([g], isRoot) == EditsFor(g, isRoot)
  {
    assert [g][..0] == [];
    assert [] + EditsFor(g, isRoot) == EditsFor(g, isRoot);
  }

  /** The root block when the flattened coordinates are `[g]`. */
  lemma RootEditsOne(acc: ProjectState, depOrder: seq<DocId>, propOrder: seq<string>, g: GAV)
    requires Flatten(acc.dependencies, depOrder) == [g]
    ensures RootEdits(acc, depOrder, propOrder) ==
      [AddManagedDependency(g.group, g.artifact, g.version)] + PropertyEntries(acc.versionProperties, propOrder)
  {
    assert [g][..0] == [];
    assert ManagedEntries([g]) == [AddManagedDependency(g.group, g.artifact, g.version)];
  }

  /** Property entries over a one-name order. */
  lemma PropertyEntriesOne(properties: map<string, string>, n: string)
    requires n in properties
    ensures PropertyEntries(properties, [n]) == [AddProperty(n, properties[n])]
  {
    assert [n][..0] == [];
  }

  /** The full `retainVersions` form of the exemption parses to the versioned coordinate. */
  lemma VersionedJunitExemption()
    ensures ParseExemption("junit:junit:4.13.2") == Some(GAV("junit", "junit", Some("4.13.2")))
  {
    var fields := ["junit", "junit", "4.13.2"];
    assert Join(fields) == "junit:junit:4.13.2" by {
      assert fields[1..] == ["junit", "4.13.2"] && fields[1..][1..] == ["4.13.2"];
    }
    assert ColonFree(fields) by {
      assert forall k :: 0 <= k < |fields| ==> forall c :: c in fields[k] ==> c != ':';
    }
    ParseExemptionOfJoin(fields);
  }

  /** The short form parses to the version-less (wildcard) coordinate. */
  lemma WildcardJunitExemption()
    ensures ParseExemption("junit:junit") == Some(GAV("junit", "junit", None))
  {
    var fields := ["junit", "junit"];
    assert Join(fields) == "junit:junit" by {
      assert fields[1..] == ["junit"];
    }
    assert ColonFree(fields) by {
      assert forall k :: 0 <= k < |fields| ==> forall c :: c in fields[k] ==> c != ':';
    }
    ParseExemptionOfJoin(fields);
  }

  /** Each entry makes `junit:junit:4.13.2` exempt: by its full coordinate, or by group and artifact. */
  lemma JunitIsExempt(entry: string)
    requires entry == "junit:junit:4.13.2" || entry == "junit:junit"
    ensures !Eligible(GAV("junit", "junit", Some("4.13.2")), Exemptions(Some([entry])))
  {
    VersionedJunitExemption();
    WildcardJunitExemption();
    ExemptIff([entry], GAV("junit", "junit", Some("4.13.2")));
    assert entry in [entry];
  }

  /** A single root pom whose only dependency is not eligible is left untouched. */
  lemma IneligibleUntouched(exemptions: set<GAV>, doc: Doc)
    requires doc.id == 0 && |doc.requested| == 1 && !Eligible(doc.requested[0], exemptions)
    ensures ScanAll([doc], exemptions).dependencies == map[0 := []]
    ensures DocumentEdits(ScanAll([doc], exemptions), 0, [0], []) == []
  {
    assert doc.requested == [doc.requested[0]];
    RecordedOne(doc.requested[0], exemptions);
    ScanOne(doc, exemptions);
    var acc := ScanAll([doc], exemptions);
    assert acc.dependencies == map[0 := []];
    assert Flatten(acc.dependencies, [0]) == [] by {
      assert [0][..0] == [];
    }
  }

  /** A dependency that declares no version of its own (it is already managed) leaves the pom untouched. */
  lemma Untouched()
    ensures Run(None, [Doc(0, false, [GAV("junit", "junit", None)], map[])], [0], []) == [[]]
  {
    var doc := Doc(0, false, [GAV("junit", "junit", None)], map[]);
    IneligibleUntouched(Exemptions(None), doc);
  }

  /** An exempt dependency, by full coordinate or by group and artifact alone, leaves the pom untouched. */
  lemma ExemptVersions(entry: string)
    requires entry == "junit:junit:4.13.2" || entry == "junit:junit"
    ensures Run(Some([entry]), SinglePom("4.13.2", map[]), [0], []) == [[]]
  {
    var docs := SinglePom("4.13.2", map[]);
    JunitIsExempt(entry);
    IneligibleUntouched(Exemptions(Some([entry])), docs[0]);
  }

  /** A literal version moves to the root's dependency management; the dependency is then managed. */
  lemma ManageVersion()
    ensures Run(None, SinglePom("4.13.2", map[]), [0], []) ==
      [[AddManagedDependency("junit", "junit", Some("4.13.2")), ManageDependency("junit", "junit")]]
  {
    var docs := SinglePom("4.13.2", map[]);
    var g := docs[0].requested[0];
    RecordedOne(g, {});
    ScanOne(docs[0], {});
    var acc := ScanAll(docs, {});
    assert acc.dependencies == map[0 := [g]] && acc.roots == {0};
    assert Flatten(acc.dependencies, [0]) == [g] by {
      assert [0][..0] == [];
    }
    RootEditsOne(acc, [0], [], g);
    LocalEditsOne(g, true);
    assert DocumentEdits(acc, 0, [0], []) ==
      [AddManagedDependency("junit", "junit", Some("4.13.2")), ManageDependency("junit", "junit")];
  }

  /**
   * A single root pom whose one dependency has a version naming exactly the
   * property `n`, which the pom defines: the coordinate moves verbatim, the
   * property is re-declared with its value, and the root removes nothing.
   */
  lemma RootWithPropertyVersion(doc: Doc, n: string)
    requires doc.id == 0 && !doc.hasParent && |doc.requested| == 1
    requires doc.requested[0].version.Some? && PropertyNames(doc.requested[0].version.value) == [n]
    requires n in doc.properties
    ensures Run(None, [doc], [0], [n]) ==
      [[AddManagedDependency(doc.requested[0].group, doc.requested[0].artifact, doc.requested[0].version),
        AddProperty(n, doc.properties[n]),
        ManageDependency(doc.requested[0].group, doc.requested[0].artifact)]]
  {
    SingleRootScan(doc, n);
    SingleRootEdits(ScanAll([doc], Exemptions(None)), doc.requested[0], n, doc.properties[n]);
    RunOne(None, doc, [0], [n]);
  }

  /** The accumulator after scanning a lone root whose single coordinate names `n`. */
  lemma SingleRootScan(doc: Doc, n: string)
    requires doc.id == 0 && !doc.hasParent && |doc.requested| == 1
    requires doc.requested[0].version.Some? && PropertyNames(doc.requested[0].version.value) == [n]
    requires n in doc.properties
    ensures ScanAll([doc], Exemptions(None)) ==
      ProjectState(map[0 := [doc.requested[0]]], map[n := doc.properties[n]], {0})
  {
    var g := doc.requested[0];
    var ex := Exemptions(None);
    assert ex == {};
    assert Recorded(doc.requested, ex) == [g] by {
      assert doc.requested == [g];
      RecordedOne(g, {});
    }
    assert Resolved(doc, ex) == map[n := doc.properties[n]] by {
      assert NameSet([n]) == {n};
      ResolvedOne(doc, {}, g, {n});
      assert Restrict(doc.properties, {n}) == map[n := doc.properties[n]];
    }
    ScanOne(doc, ex);
    assert Lookup(Initial.dependencies, 0) + [g] == [g];
    assert Initial.versionProperties + map[n := doc.properties[n]] == map[n := doc.properties[n]];
  }

  /** The edits of the lone root `0` whose accumulator holds one coordinate and one property. */
  lemma SingleRootEdits(acc: ProjectState, g: GAV, n: string, v: string)
    requires acc == ProjectState(map[0 := [g]], map[n := v], {0})
    ensures DocumentEdits(acc, 0, [0], [n]) ==
      [AddManagedDependency(g.group, g.artifact, g.version), AddProperty(n, v), ManageDependency(g.group, g.artifact)]
  {
    assert Flatten(acc.dependencies, [0]) == [g] by {
      assert [0][..0] == [];
    }
    RootEditsOne(acc, [0], [n], g);
    PropertyEntriesOne(map[n := v], n);
    LocalEditsOne(g, true);
    var am, ap, m := AddManagedDependency(g.group, g.artifact, g.version), AddProperty(n, v),
      ManageDependency(g.group, g.artifact);
    assert DocumentEdits(acc, 0, [0], [n]) == [am] + [ap] + [m];
    assert [am] + [ap] + [m] == [am, ap, m];
  }

  /**
   * A property-based version moves verbatim; the root re-declares the
   * property with its value and, being the root, removes nothing.
   */
  lemma ManageVersionWithProperty()
    ensures Run(None, SinglePom("${the.version}", map["the.version" := "4.13.2"]), [0], ["the.version"]) ==
      [[AddManagedDependency("junit", "junit", Some("${the.version}")),
        AddProperty("the.version", "4.13.2"),
        ManageDependency("junit", "junit")]]
  {
    var docs := SinglePom("${the.version}", map["the.version" := "4.13.2"]);
    SingleReference(docs[0].requested[0].version.value, "the.version");
    RootWithPropertyVersion(docs[0], "the.version");
    assert docs == [docs[0]];
  }

  /** The parent of `MultiModule` (no dependencies) and its child using `${junit.version}`. */
  function ParentAndChild(): seq<Doc>
  {
    [Doc(0, false, [], map[]),
     Doc(1, true, [GAV("junit", "junit", Some("${junit.version}"))],
         map["ignore" := "true", "junit.version" := "4.13.2"])]
  }

  /**
   * A child's property-based version is hoisted into the parent: the parent
   * manages it and gains the property the version names (and no other), while
   * the child drops that property and its version. Either iteration order of
   * the two-entry map gives the same edits.
   */
  lemma MultiModule(depOrder: seq<DocId>)
    requires depOrder == [0, 1] || depOrder == [1, 0]
    ensures Run(None, ParentAndChild(), depOrder, ["junit.version"]) ==
      [[AddManagedDependency("junit", "junit", Some("${junit.version}")), AddProperty("junit.version", "4.13.2")],
       [RemoveProperty("junit.version"), ManageDependency("junit", "junit")]]
  {
    var docs := ParentAndChild();
    SingleReference(docs[1].requested[0].version.value, "junit.version");
    ParentHoistsChild(docs[0], docs[1], "junit.version", depOrder);
    assert docs == [docs[0], docs[1]];
  }

  /**
   * A parent without dependencies and a child whose one dependency names the
   * property `n`, which the child defines: the parent manages the coordinate
   * and re-declares `n`, while the child removes `n` and manages the coordinate.
   */
  lemma ParentHoistsChild(parent: Doc, child: Doc, n: string, depOrder: seq<DocId>)
    requires parent.id == 0 && !parent.hasParent && parent.requested == []
    requires child.id == 1 && child.hasParent && |child.requested| == 1
    requires child.requested[0].version.Some? && PropertyNames(child.requested[0].version.value) == [n]
    requires n in child.properties
    requires depOrder == [0, 1] || depOrder == [1, 0]
    ensures Run(None, [parent, child], depOrder, [n]) ==
      [[AddManagedDependency(child.requested[0].group, child.requested[0].artifact, child.requested[0].version),
        AddProperty(n, child.properties[n])],
       [RemoveProperty(n), ManageDependency(child.requested[0].group, child.requested[0].artifact)]]
  {
    var g := child.requested[0];
    var acc := ScanAll([parent, child], {});
    ParentChildScan(parent, child, n);
    ParentEdits(acc, g, n, child.properties[n], depOrder);
    ChildEdits(acc, g, n, depOrder);
    RunTwo(None, parent, child, depOrder, [n]);
  }

  /** A document whose one dependency names `n`, which it defines, contributes exactly `n`. */
  lemma ContributesOne(doc: Doc, n: string)
    requires |doc.requested| == 1
    requires doc.requested[0].version.Some? && PropertyNames(doc.requested[0].version.value) == [n]
    requires n in doc.properties
    ensures Recorded(doc.requested, {}) == doc.requested
    ensures Resolved(doc, {}) == map[n := doc.properties[n]]
  {
    var g := doc.requested[0];
    assert doc.requested == [g];
    RecordedOne(g, {});
    assert NameSet([n]) == {n};
    ResolvedOne(doc, {}, g, {n});
    assert Restrict(doc.properties, {n}) == map[n := doc.properties[n]];
  }

  /** What the scanner accumulates over the parent and the child. */
  lemma ParentChildScan(parent: Doc, child: Doc, n: string)
    requires parent.id == 0 && !parent.hasParent && parent.requested == []
    requires child.id == 1 && child.hasParent && |child.requested| == 1
    requires child.requested[0].version.Some? && PropertyNames(child.requested[0].version.value) == [n]
    requires n in child.properties
    ensures ScanAll([parent, child], {}) ==
      ProjectState(map[0 := [], 1 := [child.requested[0]]], map[n := child.properties[n]], {0})
  {
    ContributesOne(child, n);
    assert child.requested == [child.requested[0]];
    assert Resolved(parent, {}) == map[];
    ScanTwo(parent, child, {});
  }

  /** Flattening a two-key order. */
  lemma FlattenTwo(dependencies: map<DocId, seq<GAV>>, a: DocId, b: DocId)
    ensures Flatten(dependencies, [a, b]) == Lookup(dependencies, a) + Lookup(dependencies, b)
  {
    assert [a, b][..1] == [a] && [a][..0] == [];
    assert Flatten(dependencies, [a]) == [] + Lookup(dependencies, a);
    assert [] + Lookup(dependencies, a) == Lookup(dependencies, a);
  }

  /** The parent's edits: the child's coordinate and its property, and nothing local. */
  lemma ParentEdits(acc: ProjectState, g: GAV, n: string, v: string, depOrder: seq<DocId>)
    requires acc == ProjectState(map[0 := [], 1 := [g]], map[n := v], {0})
    requires depOrder == [0, 1] || depOrder == [1, 0]
    ensures DocumentEdits(acc, 0, depOrder, [n]) ==
      [AddManagedDependency(g.group, g.artifact, g.version), AddProperty(n, v)]
  {
    var am, ap := AddManagedDependency(g.group, g.artifact, g.version), AddProperty(n, v);
    assert Flatten(acc.dependencies, depOrder) == [g] by {
      FlattenTwo(acc.dependencies, depOrder[0], depOrder[1]);
      assert depOrder == [depOrder[0], depOrder[1]];
      assert Lookup(acc.dependencies, 0) == [] && Lookup(acc.dependencies, 1) == [g];
      assert [] + [g] == [g] && [g] + [] == [g];
    }
    assert RootEdits(acc, depOrder, [n]) == [am, ap] by {
      RootEditsOne(acc, depOrder, [n], g);
      PropertyEntriesOne(acc.versionProperties, n);
      assert [am] + [ap] == [am, ap];
    }
    assert LocalEdits(Lookup(acc.dependencies, 0), true) == [] by {
      assert Lookup(acc.dependencies, 0) == [];
    }
    assert [am, ap] + [] == [am, ap];
  }

  /** The child's edits: remove the property its version names, then manage the coordinate. */
  lemma ChildEdits(acc: ProjectState, g: GAV, n: string, depOrder: seq<DocId>)
    requires acc.dependencies == map[0 := [], 1 := [g]] && acc.roots == {0}
    requires g.version.Some? && PropertyNames(g.version.value) == [n]
    ensures DocumentEdits(acc, 1, depOrder, [n]) == [RemoveProperty(n), ManageDependency(g.group, g.artifact)]
  {
    var rm, m := RemoveProperty(n), ManageDependency(g.group, g.artifact);
    assert EditsFor(g, false) == [rm, m] by {
      NamesImplyHasProperty(g.version.value);
      assert Removals([n]) == [rm] by {
        assert [n][..0] == [];
      }
      assert [rm] + [m] == [rm, m];
    }
    assert DocumentEdits(acc, 1, depOrder, [n]) == LocalEdits([g], false) by {
      assert Lookup(acc.dependencies, 1) == [g];
      assert [] + LocalEdits([g], false) == LocalEdits([g], false);
    }
    LocalEditsOne(g, false);
  }


  /**
   * When two documents contribute the same property, the later one's value is
   * hoisted: each `put` overwrites the previous one.
   */
  lemma LaterWriterWins(first: Doc, second: Doc, n: string)
    requires |first.requested| == 1 && |second.requested| == 1
    requires first.requested[0].version.Some? && PropertyNames(first.requested[0].version.value) == [n]
    requires second.requested[0].version.Some? && PropertyNames(second.requested[0].version.value) == [n]
    requires n in first.properties && n in second.properties
    ensures ScanAll([first, second], {}).versionProperties == map[n := second.properties[n]]
  {
    ContributesOne(first, n);
    ContributesOne(second, n);
    ScanTwo(first, second, {});
  }

  /** Two poms both defining `v` for a `${v}` version: the second value is the one hoisted. */
  lemma LaterWriterWinsExample()
    ensures ScanAll([Doc(0, false, [GAV("g", "a", Some("${v}"))], map["v" := "1"]),
                     Doc(1, true, [GAV("g", "b", Some("${v}"))], map["v" := "2"])], {}).versionProperties ==
      map["v" := "2"]
  {
    SingleReference("${v}", "v");
    LaterWriterWins(Doc(0, false, [GAV("g", "a", Some("${v}"))], map["v" := "1"]),
                    Doc(1, true, [GAV("g", "b", Some("${v}"))], map["v" := "2"]), "v");
  }
}
