/**
 * Maven coordinates and the `retainVersions` exemptions built from them
 * (the constructor of EnforceVersionManagement and the scanner's `notExempt`).
 */
module Coordinates {
  import opened Wrappers

  /** A group/artifact/version coordinate; the version may be absent (`null`). */
  datatype GAV = GAV(group: string, artifact: string, version: Option<string>)

  /**
   * The pieces of `s` between its colons, empty pieces included: one more
   * piece than there are colons, and no piece holds a colon.
   */
  function Fields(s: string): (r: seq<string>)
    ensures |r| >= 1
    ensures forall k :: 0 <= k < |r| ==> ':' !in r[k]
  {
    if s == [] then [[]]
    else
      var rest := Fields(s[1..]);
      if s[0] == ':' then [[]] + rest
      else [[s[0]] + rest[0]] + rest[1..]
  }

  /** Java's rule for `split` with limit 0: trailing empty strings are removed. */
  function DropTrailingEmpty(parts: seq<string>): (r: seq<string>)
    ensures |r| <= |parts| && r == parts[..|r|]
    ensures r == [] || r[|r| - 1] != []
    ensures forall k :: |r| <= k < |parts| ==> parts[k] == []
  {
    if parts == [] then []
    else if parts[|parts| - 1] == [] then DropTrailingEmpty(parts[..|parts| - 1])
    else parts
  }

  /**
   * `s.split(":")` in Java: a string without a colon is returned whole (even
   * the empty string); otherwise the pieces between colons, with the trailing
   * empty pieces dropped.
   */
  function JavaSplit(s: string): seq<string>
  {
    if ':' !in s then [s] else DropTrailingEmpty(Fields(s))
  }

  /** The fields written out with a colon between neighbours. */
  function Join(fields: seq<string>): string
    decreases |fields|
  {
    if fields == [] then []
    else if |fields| == 1 then fields[0]
    else fields[0] + ":" + Join(fields[1..])
  }

  /** One entry of `retainVersions`: three fields are a versioned exemption, two a wildcard one, anything else is dropped. */
  function ParseExemption(s: string): Option<GAV>
  {
    var parts := JavaSplit(s);
    if |parts| == 3 then Some(GAV(parts[0], parts[1], Some(parts[2])))
    else if |parts| == 2 then Some(GAV(parts[0], parts[1], None))
    else None
  }

  /** The exemption set built by the constructor; a `null` option list gives the empty set. */
  function Exemptions(retainVersions: Option<seq<string>>): (r: set<GAV>)
    ensures retainVersions.None? ==> r == {}
    ensures retainVersions.Some? ==>
      forall g :: g in r <==> exists s :: s in retainVersions.value && ParseExemption(s) == Some(g)
  {
    match retainVersions
    case None => {}
    case Some(list) => set s | s in list && ParseExemption(s).Some? :: ParseExemption(s).value
  }

  /** The scanner's `notExempt`: neither the exact coordinate nor its version-less form is exempt. */
  predicate NotExempt(candidate: GAV, exemptions: set<GAV>)
  {
    candidate !in exemptions && candidate.(version := None) !in exemptions
  }

  predicate ColonFree(fields: seq<string>)
  {
    forall k :: 0 <= k < |fields| ==> ':' !in fields[k]
  }

  lemma {:induction false} FieldsOfColonFreePrefix(a: string, b: string)
    requires ':' !in a
    ensures Fields(a + b) == [a + Fields(b)[0]] + Fields(b)[1..]
    decreases |a|
  {
    if a == [] {
      assert a + b == b && a + Fields(b)[0] == Fields(b)[0];
      assert [Fields(b)[0]] + Fields(b)[1..] == Fields(b);
    } else {
      assert (a + b)[0] == a[0];
      assert (a + b)[1..] == a[1..] + b;
      FieldsOfColonFreePrefix(a[1..], b);
      assert [a[0]] + (a[1..] + Fields(b)[0]) == a + Fields(b)[0];
    }
  }

  /** Splitting on every colon undoes joining colon-free fields. */
  lemma {:induction false} FieldsOfJoin(fields: seq<string>)
    requires |fields| >= 1 && ColonFree(fields)
    ensures Fields(Join(fields)) == fields
    decreases |fields|
  {
    if |fields| == 1 {
      FieldsOfColonFreePrefix(fields[0], []);
      assert fields[0] + [] == fields[0] && Fields([]) == [[]];
      assert [fields[0]] == fields;
    } else {
      var rest := fields[1..];
      FieldsOfJoin(rest);
      var tail := ":" + Join(rest);
      FieldsOfColonFreePrefix(fields[0], tail);
      assert fields[0] + ":" + Join(rest) == fields[0] + tail;
      assert tail[0] == ':' && tail[1..] == Join(rest);
      assert Fields(tail) == [[]] + rest;
      assert fields[0] + Fields(tail)[0] == fields[0];
      assert [fields[0]] + rest == fields;
    }
  }

  /** Java's `split(":")` undoes the join when the last field is non-empty or is the only one. */
  lemma JavaSplitOfJoin(fields: seq<string>)
    requires |fields| >= 1 && ColonFree(fields)
    requires |fields| == 1 || fields[|fields| - 1] != []
    ensures JavaSplit(Join(fields)) == fields
  {
    if |fields| == 1 {
      assert Join(fields) == fields[0];
    } else {
      assert Join(fields)[|fields[0]|] == ':';
      FieldsOfJoin(fields);
    }
  }

  /**
   * What the constructor makes of a colon-joined entry: three fields give a
   * versioned exemption, two a wildcard exemption, any other count nothing.
   */
  lemma ParseExemptionOfJoin(fields: seq<string>)
    requires |fields| >= 1 && ColonFree(fields)
    requires |fields| == 1 || fields[|fields| - 1] != []
    ensures |fields| == 3 ==> ParseExemption(Join(fields)) == Some(GAV(fields[0], fields[1], Some(fields[2])))
    ensures |fields| == 2 ==> ParseExemption(Join(fields)) == Some(GAV(fields[0], fields[1], None))
    ensures |fields| != 2 && |fields| != 3 ==> ParseExemption(Join(fields)) == None
  {
    JavaSplitOfJoin(fields);
  }

  /** A trailing colon is dropped by `split`: `g:a:` is the wildcard exemption for `g:a`. */
  lemma TrailingColonIsWildcard(g: string, a: string)
    requires ':' !in g && ':' !in a && a != []
    ensures ParseExemption(g + ":" + a + ":") == Some(GAV(g, a, None))
  {
    var fields := [g, a, []];
    assert fields[1..] == [a, []] && fields[1..][1..] == [[]];
    assert Join([a, []]) == a + ":";
    assert Join(fields) == g + ":" + a + ":";
    FieldsOfJoin(fields);
    assert ':' in Join(fields) by { assert Join(fields)[|g|] == ':'; }
    assert DropTrailingEmpty(fields) == [g, a];
  }

  /**
   * A candidate is exempt exactly when some entry of the option list parses
   * to the candidate itself or to its version-less (wildcard) form.
   */
  lemma ExemptIff(list: seq<string>, g: GAV)
    ensures !NotExempt(g, Exemptions(Some(list))) <==>
      exists s :: s in list && (ParseExemption(s) == Some(g) || ParseExemption(s) == Some(GAV(g.group, g.artifact, None)))
  {
    assert g.(version := None) == GAV(g.group, g.artifact, None);
  }

  /** An exemption that can be written as an option entry: no field holds a colon, and the last one is non-empty. */
  predicate Writable(x: GAV)
  {
    ':' !in x.group && ':' !in x.artifact &&
    match x.version
    case None => x.artifact != []
    case Some(v) => ':' !in v && v != []
  }

  /** The fields of an exemption entry: group and artifact, then the version when there is one. */
  function EntryFields(x: GAV): seq<string>
  {
    [x.group, x.artifact] + (if x.version.Some? then [x.version.value] else [])
  }

  /** The option entry for an exemption: `group:artifact` or `group:artifact:version`. */
  function Entry(x: GAV): string
  {
    Join(EntryFields(x))
  }

  /** Writing an exemption out and parsing it back gives the exemption. */
  lemma ParseEntry(x: GAV)
    requires Writable(x)
    ensures ParseExemption(Entry(x)) == Some(x)
  {
    ParseExemptionOfJoin(EntryFields(x));
  }

  /** Whatever an entry parses to can be written out again, and the written form parses the same. */
  lemma ParsedIsWritable(s: string, x: GAV)
    requires ParseExemption(s) == Some(x)
    ensures Writable(x) && ParseExemption(Entry(x)) == Some(x)
  {
    var parts := JavaSplit(s);
    assert ':' in s;
    assert parts == DropTrailingEmpty(Fields(s));
    assert forall k :: 0 <= k < |parts| ==> parts[k] == Fields(s)[k];
    ParseEntry(x);
  }

  /** The option entries written for a list of exemptions. */
  function Entries(xs: seq<GAV>): (r: seq<string>)
    ensures |r| == |xs| && forall k :: 0 <= k < |xs| ==> r[k] == Entry(xs[k])
  {
    seq(|xs|, k requires 0 <= k < |xs| => Entry(xs[k]))
  }

  /**
   * The constructor recovers exactly the exemptions an option list was
   * written from; a candidate is then exempt when it, or its version-less
   * form, is one of them.
   */
  lemma ExemptionsOfEntries(xs: seq<GAV>)
    requires forall k :: 0 <= k < |xs| ==> Writable(xs[k])
    ensures Exemptions(Some(Entries(xs))) == set x | x in xs
    ensures forall c :: !NotExempt(c, Exemptions(Some(Entries(xs)))) <==>
      c in xs || GAV(c.group, c.artifact, None) in xs
  {
    var list := Entries(xs);
    forall x | x in xs ensures x in Exemptions(Some(list)) {
      var k :| 0 <= k < |xs| && xs[k] == x;
      ParseEntry(x);
      assert list[k] in list;
    }
    forall x | x in Exemptions(Some(list)) ensures x in xs {
      var s :| s in list && ParseExemption(s) == Some(x);
      var k :| 0 <= k < |list| && list[k] == s;
      ParseEntry(xs[k]);
    }
    forall c: GAV ensures c.(version := None) == GAV(c.group, c.artifact, None) {}
  }
}
