/**
 * Property references `${name}` in version strings: `hasProperty`, and
 * `extractPropertyNames`, which repeats `Matcher.find` with the pattern
 * `\$\{([^}]+)\}` and collects capture group 1 of every match.
 */
module PropertyRefs {
  import opened Wrappers

  /** `hasProperty`: the version is present and contains `${` somewhere. */
  predicate HasProperty(version: Option<string>)
  {
    version.Some? &&
    exists i :: 0 <= i < |version.value| - 1 && version.value[i] == '$' && version.value[i + 1] == '{'
  }

  /** No `}` at the positions `lo` up to (excluding) `hi`. */
  predicate NoCloseIn(s: string, lo: nat, hi: nat)
    requires lo <= hi <= |s|
  {
    forall m :: lo <= m < hi ==> s[m] != '}'
  }

  /** The position of the first `}` at or after `k`, if there is one. */
  function CloseFrom(s: string, k: nat): (r: Option<nat>)
    requires k <= |s|
    ensures r.Some? ==> k <= r.value < |s|
    decreases |s| - k
  {
    if k == |s| then None
    else if s[k] == '}' then Some(k)
    else CloseFrom(s, k + 1)
  }

  /** What `CloseFrom` finds is a `}` with none before it; when it finds nothing there is none. */
  lemma {:induction false} CloseFromIsFirst(s: string, k: nat)
    requires k <= |s|
    ensures CloseFrom(s, k).Some? ==> s[CloseFrom(s, k).value] == '}' && NoCloseIn(s, k, CloseFrom(s, k).value)
    ensures CloseFrom(s, k).None? ==> NoCloseIn(s, k, |s|)
    decreases |s| - k
  {
    if k < |s| && s[k] != '}' {
      CloseFromIsFirst(s, k + 1);
    }
  }

  /**
   * One attempt of the pattern anchored at `i`: `${`, then `[^}]+` runs up to
   * the first `}`, which must exist with at least one character before it.
   * The result is the position of that `}`.
   */
  function MatchAt(s: string, i: nat): Option<nat>
    requires i <= |s|
  {
    if i + 1 < |s| && s[i] == '$' && s[i + 1] == '{' then
      match CloseFrom(s, i + 2)
      case Some(j) => if j > i + 2 then Some(j) else None
      case None => None
    else None
  }

  /**
   * The names captured by successive `find`s over `s`: a match at the start
   * yields its group and the search resumes after its `}`; otherwise the
   * search moves on by one character. A match never looks behind its start,
   * so searching on from position `i` is searching the suffix `s[i..]`.
   */
  function PropertyNames(s: string): seq<string>
    decreases |s|
  {
    if |s| == 0 then []
    else
      match MatchAt(s, 0)
      case Some(j) => [s[2..j]] + PropertyNames(s[j + 1..])
      case None => PropertyNames(s[1..])
  }

  /** `extractPropertyNames`: the `while (matcher.find())` loop. */
  method ExtractPropertyNames(version: string) returns (names: seq<string>)
    ensures names == PropertyNames(version)
  {
    names := [];
    var from := 0;
    while from < |version|
      invariant 0 <= from <= |version|
      invariant names + PropertyNames(version[from..]) == PropertyNames(version)
    {
      var m := FindAt(version, from);
      if m.Some? {
        var j := m.value;
        SearchFound(version, from, j);
        var name := version[from + 2..j];
        AppendAssociates(names, [name], PropertyNames(version[j + 1..]));
        names := names + [name];
        from := j + 1;
      } else {
        SearchMissed(version, from);
        from := from + 1;
      }
    }
    assert version[from..] == [];
  }

  lemma AppendAssociates(a: seq<string>, b: seq<string>, c: seq<string>)
    ensures (a + b) + c == a + (b + c)
  {
  }

  /** One attempt of the matcher at `i`. */
  method FindAt(s: string, i: nat) returns (m: Option<nat>)
    requires i <= |s|
    ensures m == MatchAt(s, i)
    ensures m.Some? ==> i + 2 < m.value < |s|
  {
    m := None;
    if i + 1 < |s| && s[i] == '$' && s[i + 1] == '{' {
      var j := ScanClose(s, i + 2);
      if j < |s| && j > i + 2 {
        m := Some(j);
      }
    }
  }

  /** `[^}]*` run from `k`: the position of the first `}` at or after `k`, or `|s|` if none. */
  method ScanClose(s: string, k: nat) returns (j: nat)
    requires k <= |s|
    ensures k <= j <= |s|
    ensures CloseFrom(s, k) == if j < |s| then Some(j) else None
  {
    j := k;
    while j < |s| && s[j] != '}'
      invariant k <= j <= |s|
      invariant CloseFrom(s, k) == CloseFrom(s, j)
    {
      j := j + 1;
    }
  }

  /** `s` holds `t` from position `d` to its end. */
  predicate Shifted(s: string, t: string, d: nat)
  {
    |s| == d + |t| && forall k :: 0 <= k < |t| ==> s[d + k] == t[k]
  }

  /** The first `}` from `d + k` in `s` is the first from `k` in its suffix `t`, moved by `d`. */
  lemma {:induction false} CloseFromShift(s: string, t: string, d: nat, k: nat)
    requires Shifted(s, t, d) && k <= |t|
    ensures CloseFrom(t, k).None? ==> CloseFrom(s, d + k).None?
    ensures CloseFrom(t, k).Some? ==> CloseFrom(s, d + k) == Some(d + CloseFrom(t, k).value)
    decreases |t| - k
  {
    if k < |t| {
      assert s[d + k] == t[k];
      CloseFromShift(s, t, d, k + 1);
      assert d + (k + 1) == d + k + 1;
    }
  }

  /** A match at `d + i` in `s` is a match at `i` in its suffix `t`, moved by `d`. */
  lemma MatchAtShift(s: string, t: string, d: nat, i: nat)
    requires Shifted(s, t, d) && i <= |t|
    ensures MatchAt(t, i).None? ==> MatchAt(s, d + i).None?
    ensures MatchAt(t, i).Some? ==> MatchAt(s, d + i) == Some(d + MatchAt(t, i).value)
  {
    if i + 1 < |t| {
      assert s[d + i] == t[i] && s[d + i + 1] == t[i + 1];
      CloseFromShift(s, t, d, i + 2);
      assert d + (i + 2) == d + i + 2;
    }
  }

  /** A `find` that matches at `i` yields its group; the search goes on after the `}`. */
  lemma SearchFound(s: string, i: nat, j: nat)
    requires i < |s| && MatchAt(s, i) == Some(j)
    ensures i + 2 < j < |s|
    ensures PropertyNames(s[i..]) == [s[i + 2..j]] + PropertyNames(s[j + 1..])
  {
    var t := s[i..];
    MatchAtShift(s, t, i, 0);
    assert MatchAt(t, 0) == Some(j - i);
    assert PropertyNames(t) == [t[2..j - i]] + PropertyNames(t[j - i + 1..]);
    assert t[2..j - i] == s[i + 2..j];
    assert t[j - i + 1..] == s[j + 1..];
  }

  /** A `find` attempt that fails at `i` moves the search on by one character. */
  lemma SearchMissed(s: string, i: nat)
    requires i < |s| && MatchAt(s, i).None?
    ensures PropertyNames(s[i..]) == PropertyNames(s[i + 1..])
  {
    var t := s[i..];
    MatchAtShift(s, t, i, 0);
    assert t[1..] == s[i + 1..];
  }

  /**
   * A complete occurrence of the pattern: `${` at `i`, the first `}` after it
   * at `j`, with at least one character in between.
   */
  ghost predicate Occurrence(s: string, i: int, j: int)
  {
    0 <= i && i + 2 < j < |s| && s[i] == '$' && s[i + 1] == '{' && s[j] == '}' &&
    forall m :: i + 2 <= m < j ==> s[m] != '}'
  }

  /** `name` is the text enclosed by a complete occurrence starting at `i`. */
  ghost predicate EnclosedAt(s: string, i: int, name: string)
  {
    Occurrence(s, i, i + 2 + |name|) && s[i + 2..i + 2 + |name|] == name
  }

  /** An occurrence in a suffix is an occurrence in the whole string. */
  lemma OccurrenceFromSuffix(s: string, d: nat, a: nat, b: nat)
    requires d <= |s| && Occurrence(s[d..], a, b)
    ensures Occurrence(s, a + d, b + d)
  {
    var t := s[d..];
    assert s[a + d] == t[a] && s[a + d + 1] == t[a + 1] && s[b + d] == t[b];
    forall m | a + d + 2 <= m < b + d ensures s[m] != '}' {
      assert s[m] == t[m - d];
    }
  }

  /** The text enclosed by a complete occurrence is non-empty and holds no `}`. */
  lemma EnclosedName(s: string, p: nat, name: string)
    requires EnclosedAt(s, p, name)
    ensures name != [] && '}' !in name
  {
    forall m | 0 <= m < |name| ensures name[m] != '}' {
      assert name[m] == s[p + 2 + m];
    }
  }

  /** Where a match lies: the `$` of its `${` and its closing `}`. */
  datatype Span = Span(start: nat, close: nat)

  /** Spans moved `d` characters to the right. */
  function Shift(spans: seq<Span>, d: nat): seq<Span>
  {
    seq(|spans|, k requires 0 <= k < |spans| => Span(spans[k].start + d, spans[k].close + d))
  }

  /** The spans of the successive matches of `find` over `s`, in the order they are reported. */
  function Matches(s: string): seq<Span>
    decreases |s|
  {
    if |s| == 0 then []
    else
      match MatchAt(s, 0)
      case Some(j) => [Span(0, j)] + Shift(Matches(s[j + 1..]), j + 1)
      case None => Shift(Matches(s[1..]), 1)
  }

  /** Each span encloses at least one character, and each ends before any later one begins. */
  predicate Ordered(spans: seq<Span>)
  {
    (forall k :: 0 <= k < |spans| ==> spans[k].start + 2 < spans[k].close) &&
    forall k, l :: 0 <= k < l < |spans| ==> spans[k].close < spans[l].start
  }

  lemma ShiftAt(spans: seq<Span>, d: nat, k: nat)
    requires k < |spans|
    ensures k < |Shift(spans, d)| && Shift(spans, d)[k] == Span(spans[k].start + d, spans[k].close + d)
  {
  }

  /** A match at the start is the first span; the others are found after its `}`. */
  lemma MatchesAfterMatch(s: string, j: nat)
    requires MatchAt(s, 0) == Some(j)
    ensures j < |s| && Matches(s) == [Span(0, j)] + Shift(Matches(s[j + 1..]), j + 1)
  {
  }

  /** Without a match at the start, every span is found from the second character on. */
  lemma MatchesAfterMiss(s: string)
    requires |s| != 0 && MatchAt(s, 0).None?
    ensures Matches(s) == Shift(Matches(s[1..]), 1)
  {
  }

  /** Span by span, when the search matches at the start, up to `j`. */
  lemma SpanAfterMatch(s: string, j: nat, k: nat)
    requires MatchAt(s, 0) == Some(j)
    ensures j < |s| && |Matches(s)| == 1 + |Matches(s[j + 1..])| && Matches(s)[0] == Span(0, j)
    ensures 0 < k < |Matches(s)| ==>
      Matches(s)[k] == Span(Matches(s[j + 1..])[k - 1].start + j + 1, Matches(s[j + 1..])[k - 1].close + j + 1)
  {
    MatchesAfterMatch(s, j);
    if 0 < k < |Matches(s)| {
      ShiftAt(Matches(s[j + 1..]), j + 1, k - 1);
    }
  }

  /** Span by span, when the search does not match at the start. */
  lemma SpanAfterMiss(s: string, k: nat)
    requires |s| != 0 && MatchAt(s, 0).None?
    ensures |Matches(s)| == |Matches(s[1..])|
    ensures k < |Matches(s)| ==>
      Matches(s)[k] == Span(Matches(s[1..])[k].start + 1, Matches(s[1..])[k].close + 1)
  {
    MatchesAfterMiss(s);
    if k < |Matches(s)| {
      ShiftAt(Matches(s[1..]), 1, k);
    }
  }

  /** Every span of `Matches` is a complete occurrence. */
  lemma {:induction false} MatchesAreOccurrences(s: string, k: nat)
    requires k < |Matches(s)|
    ensures Occurrence(s, Matches(s)[k].start, Matches(s)[k].close)
    decreases |s|, 1
  {
    assert |s| != 0;
    if MatchAt(s, 0).Some? {
      OccurrenceAfterMatch(s, MatchAt(s, 0).value, k);
    } else {
      OccurrenceAfterMiss(s, k);
    }
  }

  lemma {:induction false} OccurrenceAfterMatch(s: string, j: nat, k: nat)
    requires MatchAt(s, 0) == Some(j) && k < |Matches(s)|
    ensures Occurrence(s, Matches(s)[k].start, Matches(s)[k].close)
    decreases |s|, 0
  {
    SpanAfterMatch(s, j, k);
    if k == 0 {
      MatchIsOccurrence(s, j);
    } else {
      var t := s[j + 1..];
      var m := Matches(t)[k - 1];
      MatchesAreOccurrences(t, k - 1);
      OccurrenceFromSuffix(s, j + 1, m.start, m.close);
    }
  }

  /** A match at the start spans a complete occurrence. */
  lemma MatchIsOccurrence(s: string, j: nat)
    requires MatchAt(s, 0) == Some(j)
    ensures Occurrence(s, 0, j)
  {
    MatchEncloses(s, j);
    assert |s[2..j]| == j - 2;
  }

  lemma {:induction false} OccurrenceAfterMiss(s: string, k: nat)
    requires |s| != 0 && MatchAt(s, 0).None? && k < |Matches(s)|
    ensures Occurrence(s, Matches(s)[k].start, Matches(s)[k].close)
    decreases |s|, 0
  {
    SpanAfterMiss(s, k);
    var t := s[1..];
    var m := Matches(t)[k];
    MatchesAreOccurrences(t, k);
    OccurrenceFromSuffix(s, 1, m.start, m.close);
  }

  /** Name `k` is the text between the `${` and the `}` of span `k`. */
  lemma {:induction false} NamesAreGroups(s: string, k: nat)
    requires k < |PropertyNames(s)|
    ensures k < |Matches(s)|
    ensures Matches(s)[k].start + 2 <= Matches(s)[k].close <= |s|
    ensures PropertyNames(s)[k] == s[Matches(s)[k].start + 2..Matches(s)[k].close]
    decreases |s|, 1
  {
    if MatchAt(s, 0).Some? {
      GroupAfterMatch(s, MatchAt(s, 0).value, k);
    } else {
      GroupAfterMiss(s, k);
    }
  }

  lemma {:induction false} GroupAfterMatch(s: string, j: nat, k: nat)
    requires MatchAt(s, 0) == Some(j) && k < |PropertyNames(s)|
    ensures k < |Matches(s)|
    ensures Matches(s)[k].start + 2 <= Matches(s)[k].close <= |s|
    ensures PropertyNames(s)[k] == s[Matches(s)[k].start + 2..Matches(s)[k].close]
    decreases |s|, 0
  {
    NameAfterMatch(s, j, k);
    SpanAfterMatch(s, j, k);
    if k == 0 {
      assert Matches(s)[k] == Span(0, j);
    } else {
      var t := s[j + 1..];
      NamesAreGroups(t, k - 1);
      var m := Matches(t)[k - 1];
      GroupFromSuffix(s, j + 1, m.start, m.close);
      assert Matches(s)[k] == Span(m.start + j + 1, m.close + j + 1);
    }
  }


  lemma {:induction false} GroupAfterMiss(s: string, k: nat)
    requires MatchAt(s, 0).None? && k < |PropertyNames(s)|
    ensures k < |Matches(s)|
    ensures Matches(s)[k].start + 2 <= Matches(s)[k].close <= |s|
    ensures PropertyNames(s)[k] == s[Matches(s)[k].start + 2..Matches(s)[k].close]
    decreases |s|, 0
  {
    NameAfterMiss(s, k);
    var t := s[1..];
    NamesAreGroups(t, k);
    var m := Matches(t)[k];
    SpanAfterMiss(s, k);
    GroupFromSuffix(s, 1, m.start, m.close);
  }

  /** A slice of a suffix is the slice of the whole, moved by the suffix's offset. */
  lemma GroupFromSuffix(s: string, d: nat, a: nat, b: nat)
    requires d <= |s| && a + 2 <= b <= |s| - d
    ensures s[d..][a + 2..b] == s[a + d + 2..b + d]
  {
  }


  /**
   * Every extracted name is the text of a complete `${...}` occurrence,
   * which starts at `p` and is the span of the match that yields the name.
   */
  lemma NameOccurrence(s: string, k: nat) returns (p: nat)
    requires k < |PropertyNames(s)|
    ensures EnclosedAt(s, p, PropertyNames(s)[k])
    ensures k < |Matches(s)| && Matches(s)[k] == Span(p, p + 2 + |PropertyNames(s)[k]|)
  {
    NamesAreGroups(s, k);
    MatchesAreOccurrences(s, k);
    p := Matches(s)[k].start;
  }

  /** A match at the start encloses its group. */
  lemma MatchEncloses(s: string, j: nat)
    requires MatchAt(s, 0) == Some(j)
    ensures EnclosedAt(s, 0, s[2..j])
  {
    CloseFromIsFirst(s, 2);
    assert |s[2..j]| == j - 2;
  }

  /** The first name is the first match's group; the others are found after that match. */
  lemma NameAfterMatch(s: string, j: nat, k: nat)
    requires MatchAt(s, 0) == Some(j) && k < |PropertyNames(s)|
    ensures j + 1 <= |s|
    ensures k == 0 ==> PropertyNames(s)[k] == s[2..j]
    ensures k > 0 ==> k - 1 < |PropertyNames(s[j + 1..])| && PropertyNames(s)[k] == PropertyNames(s[j + 1..])[k - 1]
  {
  }

  /** Without a match at the start, every name is found from the second character on. */
  lemma NameAfterMiss(s: string, k: nat)
    requires MatchAt(s, 0).None? && k < |PropertyNames(s)|
    ensures k < |PropertyNames(s[1..])| && PropertyNames(s)[k] == PropertyNames(s[1..])[k]
  {
  }

  /** Every extracted name is non-empty, holds no `}`, and is enclosed by a complete occurrence. */
  lemma NamesAreEnclosed(s: string, name: string)
    requires name in PropertyNames(s)
    ensures name != [] && '}' !in name
    ensures exists p :: EnclosedAt(s, p, name)
  {
    var k :| 0 <= k < |PropertyNames(s)| && PropertyNames(s)[k] == name;
    var p := NameOccurrence(s, k);
    EnclosedName(s, p, name);
  }

  /** There is one match per extracted name. */
  lemma {:induction false} MatchesLength(s: string)
    ensures |Matches(s)| == |PropertyNames(s)|
    decreases |s|
  {
    if |s| != 0 {
      match MatchAt(s, 0)
      case Some(j) =>
        MatchesAfterMatch(s, j);
        MatchesLength(s[j + 1..]);
      case None =>
        MatchesAfterMiss(s);
        MatchesLength(s[1..]);
    }
  }

  /** Matches are reported left to right and never overlap. */
  lemma {:induction false} MatchesOrdered(s: string)
    ensures Ordered(Matches(s))
    decreases |s|
  {
    if |s| != 0 {
      match MatchAt(s, 0)
      case Some(j) =>
        MatchesAfterMatch(s, j);
        MatchesOrdered(s[j + 1..]);
      case None =>
        MatchesAfterMiss(s);
        MatchesOrdered(s[1..]);
    }
  }

  /**
   * The names in order of appearance: name `k` is the text enclosed by match
   * `k`, and the matches follow one another without overlapping.
   */
  lemma MatchesGiveNames(s: string)
    ensures |Matches(s)| == |PropertyNames(s)|
    ensures forall k :: 0 <= k < |Matches(s)| ==> EnclosedAt(s, Matches(s)[k].start, PropertyNames(s)[k])
    ensures Ordered(Matches(s))
  {
    MatchesLength(s);
    MatchesOrdered(s);
    forall k | 0 <= k < |Matches(s)| ensures EnclosedAt(s, Matches(s)[k].start, PropertyNames(s)[k]) {
      var p := NameOccurrence(s, k);
    }
  }

  /** An occurrence seen from position `d` on. */
  lemma OccurrenceInSuffix(s: string, d: nat, i: nat, j: nat)
    requires d <= i && Occurrence(s, i, j)
    ensures Occurrence(s[d..], i - d, j - d)
  {
    var t := s[d..];
    forall m | i - d + 2 <= m < j - d ensures t[m] != '}' {
      assert t[m] == s[m + d];
    }
  }

  /** Occurrence `(i, j)` is match `k`, or starts inside it. */
  ghost predicate CoveredBy(spans: seq<Span>, k: int, i: int, j: int)
  {
    0 <= k < |spans| && ((spans[k].start == i && spans[k].close == j) || spans[k].start < i <= spans[k].close)
  }

  /**
   * The search misses no occurrence: every complete `${...}` occurrence is a
   * match, or starts inside a match reported before it.
   */
  lemma {:induction false} OccurrenceFound(s: string, i: nat, j: nat)
    requires Occurrence(s, i, j)
    ensures exists k :: CoveredBy(Matches(s), k, i, j)
    decreases i, 1
  {
    if i == 0 {
      OccurrenceMatches(s, j);
      MatchesAfterMatch(s, j);
      assert CoveredBy(Matches(s), 0, i, j);
    } else if MatchAt(s, 0).Some? {
      FoundAfterMatch(s, MatchAt(s, 0).value, i, j);
    } else {
      FoundAfterMiss(s, i, j);
    }
  }

  /** `OccurrenceFound` for an occurrence after the start when the search matches at the start, up to `c`. */
  lemma {:induction false} FoundAfterMatch(s: string, c: nat, i: nat, j: nat)
    requires MatchAt(s, 0) == Some(c) && 0 < i && Occurrence(s, i, j)
    ensures exists k :: CoveredBy(Matches(s), k, i, j)
    decreases i, 0
  {
    MatchesAfterMatch(s, c);
    if i <= c {
      assert CoveredBy(Matches(s), 0, i, j);
    } else {
      var t := s[c + 1..];
      OccurrenceInSuffix(s, c + 1, i, j);
      OccurrenceFound(t, i - (c + 1), j - (c + 1));
      var k :| CoveredBy(Matches(t), k, i - (c + 1), j - (c + 1));
      assert Matches(s)[k + 1] == Shift(Matches(t), c + 1)[k];
      assert CoveredBy(Matches(s), k + 1, i, j);
    }
  }

  /** `OccurrenceFound` for an occurrence after the start when the search does not match at the start. */
  lemma {:induction false} FoundAfterMiss(s: string, i: nat, j: nat)
    requires MatchAt(s, 0).None? && 0 < i && Occurrence(s, i, j)
    ensures exists k :: CoveredBy(Matches(s), k, i, j)
    decreases i, 0
  {
    MatchesAfterMiss(s);
    var t := s[1..];
    OccurrenceInSuffix(s, 1, i, j);
    OccurrenceFound(t, i - 1, j - 1);
    var k :| CoveredBy(Matches(t), k, i - 1, j - 1);
    assert CoveredBy(Matches(s), k, i, j);
  }

  /** A complete occurrence anywhere guarantees a name is found. */
  lemma {:induction false} OccurrenceGivesName(s: string, p: nat, j: nat)
    requires Occurrence(s, p, j)
    ensures PropertyNames(s) != []
    decreases p
  {
    if p == 0 {
      OccurrenceMatches(s, j);
      SearchFound(s, 0, j);
      assert s[0..] == s;
    } else if MatchAt(s, 0).None? {
      SearchMissed(s, 0);
      assert s[0..] == s;
      var t := s[1..];
      assert Occurrence(t, p - 1, j - 1) by {
        forall m | p + 1 <= m < j - 1 ensures t[m] != '}' {
          assert t[m] == s[m + 1];
        }
      }
      OccurrenceGivesName(t, p - 1, j - 1);
    } else {
      SearchFound(s, 0, MatchAt(s, 0).value);
      assert s[0..] == s;
    }
  }

  /** An occurrence at the start is exactly what the matcher finds there. */
  lemma OccurrenceMatches(s: string, j: nat)
    requires Occurrence(s, 0, j)
    ensures MatchAt(s, 0) == Some(j)
  {
    CloseFromIsFirst(s, 2);
    var c := CloseFrom(s, 2);
    assert c != None by { assert s[j] == '}'; }
    assert !(c.value < j) && !(j < c.value);
  }

  /** No names are extracted exactly when the string holds no complete occurrence. */
  lemma NoNamesIffNoOccurrence(s: string)
    ensures PropertyNames(s) == [] <==> forall i, j :: !Occurrence(s, i, j)
  {
    if PropertyNames(s) != [] {
      NamesAreEnclosed(s, PropertyNames(s)[0]);
    } else {
      forall i, j | Occurrence(s, i, j) ensures false {
        OccurrenceGivesName(s, i, j);
      }
    }
  }

  /** A string with a name contains `${`, so the `hasProperty` guard never hides a name. */
  lemma NamesImplyHasProperty(s: string)
    requires PropertyNames(s) != []
    ensures HasProperty(Some(s))
  {
    NamesAreEnclosed(s, PropertyNames(s)[0]);
    var p :| EnclosedAt(s, p, PropertyNames(s)[0]);
    assert s[p] == '$' && s[p + 1] == '{';
  }

  /** An unterminated `${` counts as "has property" yet yields no name. */
  lemma UnterminatedReference()
    ensures HasProperty(Some("${"))
    ensures PropertyNames("${") == []
  {
    var s := "${";
    assert s[0] == '$' && s[1] == '{';
    assert MatchAt(s, 0) == None;
    assert s[1..] == "{";
    assert MatchAt(s[1..], 0) == None;
    assert s[1..][1..] == [];
  }

  /** An empty reference `${}` yields no name. */
  lemma EmptyReference()
    ensures PropertyNames("${}") == []
  {
    var s := "${}";
    assert s[0] == '$' && s[1] == '{' && s[2] == '}';
    assert CloseFrom(s, 2) == Some(2);
    assert MatchAt(s, 0) == None;
    assert s[1..] == "{}";
    assert MatchAt(s[1..], 0) == None;
    assert s[1..][1..] == "}";
    assert MatchAt(s[1..][1..], 0) == None;
    assert s[1..][1..][1..] == [];
  }

  /** A piece of a version string: literal text or a `${name}` reference. */
  datatype Segment = Literal(text: string) | Reference(name: string)

  function Piece(segment: Segment): string
  {
    match segment
    case Literal(t) => t
    case Reference(n) => "${" + n + "}"
  }

  function Render(segments: seq<Segment>): string
  {
    if segments == [] then [] else Piece(segments[0]) + Render(segments[1..])
  }

  function ReferencedNames(segments: seq<Segment>): seq<string>
  {
    if segments == [] then []
    else (if segments[0].Reference? then [segments[0].name] else []) + ReferencedNames(segments[1..])
  }

  /** Literal text without `$`; references with a non-empty name free of `}`. */
  predicate WellFormed(segments: seq<Segment>)
  {
    forall k :: 0 <= k < |segments| ==>
      match segments[k]
      case Literal(t) => '$' !in t
      case Reference(n) => n != [] && '}' !in n
  }

  /** Literal text without `$` contributes no name and hides none. */
  lemma {:induction false} LiteralIsSkipped(t: string, rest: string)
    requires '$' !in t
    ensures PropertyNames(t + rest) == PropertyNames(rest)
    decreases |t|
  {
    if t == [] {
      assert t + rest == rest;
    } else {
      var s := t + rest;
      assert s[0] == t[0];
      assert MatchAt(s, 0) == None;
      assert s[1..] == t[1..] + rest;
      LiteralIsSkipped(t[1..], rest);
    }
  }

  /** A reference `${n}` in front contributes exactly `n`. */
  lemma ReferenceIsExtracted(n: string, rest: string)
    requires n != [] && '}' !in n
    ensures PropertyNames("${" + n + "}" + rest) == [n] + PropertyNames(rest)
  {
    var s := "${" + n + "}" + rest;
    var j := |n| + 2;
    assert s[0] == '$' && s[1] == '{' && s[j] == '}';
    assert Occurrence(s, 0, j) by {
      forall m | 2 <= m < j ensures s[m] != '}' {
        assert s[m] == n[m - 2];
      }
    }
    OccurrenceMatches(s, j);
    assert s[2..j] == n;
    assert s[j + 1..] == rest;
  }

  /**
   * Rendering references among `$`-free literals and extracting the names
   * again gives the references back, in order; a name may contain `$` and `{`.
   */
  lemma {:induction false} ExtractRender(segments: seq<Segment>)
    requires WellFormed(segments)
    ensures PropertyNames(Render(segments)) == ReferencedNames(segments)
  {
    if segments != [] {
      assert WellFormed(segments[1..]) by {
        forall k | 0 <= k < |segments[1..]| ensures segments[1..][k] == segments[k + 1] { }
      }
      ExtractRender(segments[1..]);
      var rest := Render(segments[1..]);
      match segments[0]
      case Literal(t) =>
        assert '$' !in t by { assert segments[0] == Literal(t); }
        LiteralIsSkipped(t, rest);
      case Reference(n) =>
        assert n != [] && '}' !in n by { assert segments[0] == Reference(n); }
        ReferenceIsExtracted(n, rest);
    }
  }
}
