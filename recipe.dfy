/**
 * The whole recipe run: the constructor builds the exemptions, the scanner
 * visits every module document, then the rewriter visits every document
 * against the frozen accumulator.
 */
module Recipe {
  import opened Wrappers
  import opened Coordinates
  import opened PropertyRefs
  import opened Scanner
  import opened Rewriter

  /** The edits queued for each document, in document order. */
  function Run(retainVersions: Option<seq<string>>, docs: seq<Doc>, depOrder: seq<DocId>, propOrder: seq<string>)
    : (r: seq<seq<Edit>>)
    ensures |r| == |docs|
  {
    var acc := ScanAll(docs, Exemptions(retainVersions));
    seq(|docs|, i requires 0 <= i < |docs| => DocumentEdits(acc, docs[i].id, depOrder, propOrder))
  }

  /**
   * The run as the framework drives it: one accumulator filled by the scanner,
   * then one rewriter visit per document. `depOrder` and `propOrder` stand for
   * the iteration orders of the accumulator's hash maps.
   */
  method Apply(retainVersions: Option<seq<string>>, docs: seq<Doc>, depOrder: seq<DocId>, propOrder: seq<string>)
    returns (edits: seq<seq<Edit>>)
    ensures edits == Run(retainVersions, docs, depOrder, propOrder)
  {
    var info := Scan(docs, Exemptions(retainVersions));
    var acc := info.State();
    edits := VisitAll(acc, docs, depOrder, propOrder);
  }

  /** The rewriter's pass: one visit per document against the same accumulator. */
  method VisitAll(acc: ProjectState, docs: seq<Doc>, depOrder: seq<DocId>, propOrder: seq<string>)
    returns (edits: seq<seq<Edit>>)
    ensures |edits| == |docs|
    ensures forall k :: 0 <= k < |docs| ==> edits[k] == DocumentEdits(acc, docs[k].id, depOrder, propOrder)
  {
    edits := [];
    var i := 0;
    while i < |docs|
      invariant 0 <= i <= |docs|
      invariant |edits| == i
      invariant forall k :: 0 <= k < i ==> edits[k] == DocumentEdits(acc, docs[k].id, depOrder, propOrder)
    {
      var e := VisitDocument(acc, docs[i].id, depOrder, propOrder);
      edits := edits + [e];
      i := i + 1;
    }
  }

  /** All coordinates the scanner records over `docs`, with multiplicity. */
  function TotalRecorded(docs: seq<Doc>, exemptions: set<GAV>): multiset<GAV>
    decreases |docs|
  {
    if docs == [] then multiset{}
    else TotalRecorded(docs[..|docs| - 1], exemptions) + multiset(Recorded(docs[|docs| - 1].requested, exemptions))
  }

  /** Appending to one document's list adds exactly the appended coordinates to the total. */
  lemma AllRecordedAppend(dependencies: map<DocId, seq<GAV>>, id: DocId, more: seq<GAV>)
    ensures AllRecorded(dependencies[id := Lookup(dependencies, id) + more]) ==
      AllRecorded(dependencies) + multiset(more)
  {
    var updated := dependencies[id := Lookup(dependencies, id) + more];
    AllRecordedRemove(updated, id);
    if id in dependencies {
      AllRecordedRemove(dependencies, id);
      assert updated - {id} == dependencies - {id};
    } else {
      assert updated - {id} == dependencies;
    }
  }

  /** The accumulator's lists hold, together, every recorded coordinate of every document. */
  lemma {:induction false} ScanAllRecordsAll(docs: seq<Doc>, exemptions: set<GAV>)
    ensures AllRecorded(ScanAll(docs, exemptions).dependencies) == TotalRecorded(docs, exemptions)
    decreases |docs|
  {
    if docs == [] {
      assert AllRecorded(map[]) == multiset{};
    } else {
      var front := docs[..|docs| - 1];
      var last := docs[|docs| - 1];
      ScanAllRecordsAll(front, exemptions);
      AllRecordedAppend(ScanAll(front, exemptions).dependencies, last.id, Recorded(last.requested, exemptions));
    }
  }

  /**
   * Every document without a parent manages, in its own dependency
   * management, every coordinate recorded anywhere in the project, each as
   * often as it was recorded and with its version as written.
   */
  lemma RootManagesEverything(retainVersions: Option<seq<string>>, docs: seq<Doc>, depOrder: seq<DocId>,
                              propOrder: seq<string>, i: nat)
    requires i < |docs| && !docs[i].hasParent
    requires Enumerates(depOrder, ScanAll(docs, Exemptions(retainVersions)).dependencies.Keys)
    ensures multiset(Select(Run(retainVersions, docs, depOrder, propOrder)[i], AsAddManaged)) ==
      TotalRecorded(docs, Exemptions(retainVersions))
  {
    var exemptions := Exemptions(retainVersions);
    var acc := ScanAll(docs, exemptions);
    ScanAllRoots(docs, exemptions);
    RootIdsIff(docs, docs[i].id);
    assert docs[i] in docs;
    RootHoistsAll(acc, docs[i].id, depOrder, propOrder);
    ScanAllRecordsAll(docs, exemptions);
  }

  /**
   * A document is edited locally by exactly its own recorded coordinates:
   * a managed-dependency edit for each, and a property removal for each name
   * in their versions unless the document is a root.
   */
  lemma LocalEditsOfDocument(retainVersions: Option<seq<string>>, docs: seq<Doc>, depOrder: seq<DocId>,
                             propOrder: seq<string>, i: nat)
    requires UniqueIds(docs) && i < |docs|
    ensures Select(Run(retainVersions, docs, depOrder, propOrder)[i], AsManage) ==
      GroupArtifacts(Recorded(docs[i].requested, Exemptions(retainVersions)))
    ensures Select(Run(retainVersions, docs, depOrder, propOrder)[i], AsRemoveProperty) ==
      if docs[i].hasParent then RemovedNames(Recorded(docs[i].requested, Exemptions(retainVersions))) else []
  {
    var exemptions := Exemptions(retainVersions);
    var acc := ScanAll(docs, exemptions);
    ScanAllDependencies(docs, exemptions, i);
    ScanAllRoots(docs, exemptions);
    RootIdsIff(docs, docs[i].id);
    assert docs[i] in docs;
    assert docs[i].id in acc.roots <==> !docs[i].hasParent by {
      if docs[i].id in acc.roots {
        var d :| d in docs && !d.hasParent && d.id == docs[i].id;
        var k :| 0 <= k < |docs| && docs[k] == d;
        assert k == i;
      }
    }
    DocumentManages(acc, docs[i].id, depOrder, propOrder);
    DocumentRemovesProperties(acc, docs[i].id, depOrder, propOrder);
  }

  /** The coordinate pairs of `gavs` are exactly the pairs of its members. */
  lemma {:induction false} GroupArtifactsMembers(gavs: seq<GAV>, p: (string, string))
    ensures p in GroupArtifacts(gavs) <==> exists g :: g in gavs && (g.group, g.artifact) == p
    decreases |gavs|
  {
    if gavs != [] {
      var front := gavs[..|gavs| - 1];
      GroupArtifactsMembers(front, p);
      assert gavs == front + [gavs[|gavs| - 1]];
    }
  }

  /**
   * A document manages a group and artifact exactly when it requests that
   * dependency with a version and the dependency is not exempt.
   */
  lemma ManagedIffEligible(retainVersions: Option<seq<string>>, docs: seq<Doc>, depOrder: seq<DocId>,
                           propOrder: seq<string>, i: nat, p: (string, string))
    requires UniqueIds(docs) && i < |docs|
    ensures p in Select(Run(retainVersions, docs, depOrder, propOrder)[i], AsManage) <==>
      exists g :: g in docs[i].requested && Eligible(g, Exemptions(retainVersions)) && (g.group, g.artifact) == p
  {
    var exemptions := Exemptions(retainVersions);
    LocalEditsOfDocument(retainVersions, docs, depOrder, propOrder, i);
    GroupArtifactsMembers(Recorded(docs[i].requested, exemptions), p);
    RecordedMembers(docs[i].requested, exemptions);
  }
}
