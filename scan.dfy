/**
 * Leftmost, non-overlapping scanning of a text, as done by Python's
 * `Pattern.findall`, `Pattern.sub` and `str.replace`.
 */
module Scan {
  import opened Options
  import Patterns

  /** What a scan looks for: one of the redaction patterns, or a literal string */
  datatype Matcher = Pattern(rule: Patterns.Rule) | Literal(needle: string)

  /** `str.replace` is only modelled for a non-empty needle */
  predicate ValidMatcher(m: Matcher) {
    m.Literal? ==> |m.needle| > 0
  }

  /** The end of the match of m that starts at position i, if any */
  function MatchAt(m: Matcher, t: string, i: nat): (r: Option<nat>)
    requires ValidMatcher(m) && i <= |t|
    ensures r.Some? ==> i < r.value <= |t|
  {
    match m
    case Pattern(rule) => Patterns.MatchAt(rule, t, i)
    case Literal(needle) =>
      if i + |needle| <= |t| && t[i..i + |needle|] == needle then Some(i + |needle|) else None
  }

  /** A match: the half-open range t[start..end] */
  datatype Span = Span(start: nat, end: nat)

  /** The spans lie in t[from..], in order, without overlapping */
  predicate Ordered(spans: seq<Span>, from: nat, n: nat) {
    (forall k :: 0 <= k < |spans| ==> from <= spans[k].start < spans[k].end <= n)
    && (forall k, l :: 0 <= k < l < |spans| ==> spans[k].end <= spans[l].start)
  }

  /**
   * The matches `findall` reports when it searches t from position from:
   * the leftmost match, then the leftmost match after its end, and so on.
   */
  function FindAll(m: Matcher, t: string, from: nat): (spans: seq<Span>)
    requires ValidMatcher(m) && from <= |t|
    ensures Ordered(spans, from, |t|)
    ensures forall k :: 0 <= k < |spans| ==> MatchAt(m, t, spans[k].start) == Some(spans[k].end)
    decreases |t| - from
  {
    if from == |t| then []
    else
      match MatchAt(m, t, from)
      case Some(e) => [Span(from, e)] + FindAll(m, t, e)
      case None => FindAll(m, t, from + 1)
  }

  /** t[from..] with every span replaced by tok and every other character kept */
  function Splice(t: string, spans: seq<Span>, tok: string, from: nat): string
    requires from <= |t| && Ordered(spans, from, |t|)
    decreases |spans|
  {
    if spans == [] then t[from..]
    else t[from..spans[0].start] + tok + Splice(t, spans[1..], tok, spans[0].end)
  }

  /**
   * What `sub` (or `str.replace`) builds from t[from..]: tok in place of each
   * match found by the scan, the other characters copied. It rewrites
   * exactly the matches `findall` reports.
   */
  function Sub(m: Matcher, t: string, tok: string, from: nat): (r: string)
    requires ValidMatcher(m) && from <= |t|
    ensures r == Splice(t, FindAll(m, t, from), tok, from)
    decreases |t| - from
  {
    if from == |t| then []
    else
      match MatchAt(m, t, from)
      case Some(e) => tok + Sub(m, t, tok, e)
      case None =>
        SpliceSkip(t, FindAll(m, t, from + 1), tok, from);
        [t[from]] + Sub(m, t, tok, from + 1)
  }

  /** Splicing from a position no span starts at keeps that position's character */
  lemma SpliceSkip(t: string, spans: seq<Span>, tok: string, from: nat)
    requires from < |t| && Ordered(spans, from + 1, |t|)
    ensures Splice(t, spans, tok, from) == [t[from]] + Splice(t, spans, tok, from + 1)
  {
    if spans == [] {
      assert t[from..] == [t[from]] + t[from + 1..];
    } else {
      var s := spans[0];
      assert Ordered(spans[1..], s.end, |t|);
      var rest := Splice(t, spans[1..], tok, s.end);
      assert t[from..s.start] == [t[from]] + t[from + 1..s.start];
      assert Splice(t, spans, tok, from) == t[from..s.start] + tok + rest;
      assert Splice(t, spans, tok, from + 1) == t[from + 1..s.start] + tok + rest;
    }
  }

  /** Python's `str.replace(needle, rep)`: every leftmost non-overlapping occurrence of needle becomes rep */
  function Replace(t: string, needle: string, rep: string): (r: string)
    requires |needle| > 0
    ensures r == Splice(t, FindAll(Literal(needle), t, 0), rep, 0)
  {
    Sub(Literal(needle), t, rep, 0)
  }

  /** needle occurs in t at position p */
  predicate OccursAt(t: string, needle: string, p: nat) {
    p + |needle| <= |t| && t[p..p + |needle|] == needle
  }

  /** Position p lies inside one of the spans */
  predicate Covered(spans: seq<Span>, p: nat) {
    exists k :: 0 <= k < |spans| && spans[k].start <= p < spans[k].end
  }

  /**
   * The scan misses no match: wherever a match of m could start, a reported
   * match starts there or an earlier reported match already covers it.
   */
  lemma {:induction false} FindAllIsLeftmost(m: Matcher, t: string, from: nat, p: nat)
    requires ValidMatcher(m) && from <= p < |t| && MatchAt(m, t, p).Some?
    ensures Covered(FindAll(m, t, from), p)
    decreases |t| - from
  {
    var r := MatchAt(m, t, from);
    if r.Some? {
      FindAllFound(m, t, from);
      if r.value <= p {
        FindAllIsLeftmost(m, t, r.value, p);
      }
      CoveredCons(Span(from, r.value), FindAll(m, t, r.value), p);
    } else {
      FindAllIsLeftmost(m, t, from + 1, p);
    }
  }

  /** The first span of a scan is the match at its start position, when there is one */
  lemma FindAllFound(m: Matcher, t: string, from: nat)
    requires ValidMatcher(m) && from < |t| && MatchAt(m, t, from).Some?
    ensures FindAll(m, t, from) == [Span(from, MatchAt(m, t, from).value)] + FindAll(m, t, MatchAt(m, t, from).value)
  {
  }

  /** A position is covered by a span put in front, or by the spans after it */
  lemma CoveredCons(s: Span, spans: seq<Span>, p: nat)
    requires s.start <= p < s.end || Covered(spans, p)
    ensures Covered([s] + spans, p)
  {
    if s.start <= p < s.end {
      assert ([s] + spans)[0] == s;
    } else {
      var k :| 0 <= k < |spans| && spans[k].start <= p < spans[k].end;
      assert ([s] + spans)[k + 1] == spans[k];
    }
  }

  /** The scan finds nothing exactly when no match of m starts anywhere in t[from..] */
  lemma {:induction false} FindAllEmpty(m: Matcher, t: string, from: nat)
    requires ValidMatcher(m) && from <= |t|
    ensures FindAll(m, t, from) == [] <==> forall p :: from <= p < |t| ==> MatchAt(m, t, p).None?
    decreases |t| - from
  {
    if from < |t| {
      FindAllEmpty(m, t, from + 1);
      if FindAll(m, t, from) == [] {
        forall p | from <= p < |t| ensures MatchAt(m, t, p).None? {
          if MatchAt(m, t, p).Some? {
            FindAllIsLeftmost(m, t, from, p);
          }
        }
      }
    }
  }

  /** When the scan finds nothing, `sub` returns the text unchanged */
  lemma SubWithoutMatches(m: Matcher, t: string, tok: string)
    requires ValidMatcher(m) && FindAll(m, t, 0) == []
    ensures Sub(m, t, tok, 0) == t
  {
  }

  /** `str.replace` leaves a text without any occurrence of needle unchanged */
  lemma ReplaceAbsent(t: string, needle: string, rep: string)
    requires |needle| > 0
    requires forall p :: !OccursAt(t, needle, p)
    ensures Replace(t, needle, rep) == t
  {
    forall p | 0 <= p < |t| ensures MatchAt(Literal(needle), t, p).None? {
      assert !OccursAt(t, needle, p);
    }
    FindAllEmpty(Literal(needle), t, 0);
  }

  /** Every span `str.replace` rewrites is an occurrence of needle, and every occurrence is rewritten or overlaps one that is */
  lemma ReplaceRewritesOccurrences(t: string, needle: string, p: nat)
    requires |needle| > 0
    ensures forall k :: 0 <= k < |FindAll(Literal(needle), t, 0)| ==>
      var s := FindAll(Literal(needle), t, 0)[k]; t[s.start..s.end] == needle
    ensures OccursAt(t, needle, p) ==> Covered(FindAll(Literal(needle), t, 0), p)
  {
    if OccursAt(t, needle, p) {
      FindAllIsLeftmost(Literal(needle), t, 0, p);
    }
  }

  /** Positions where no match starts are skipped by the scan */
  lemma {:induction false} FindAllSkip(m: Matcher, t: string, from: nat, q: nat)
    requires ValidMatcher(m) && from <= q <= |t|
    requires forall p :: from <= p < q ==> MatchAt(m, t, p).None?
    ensures FindAll(m, t, from) == FindAll(m, t, q)
    decreases q - from
  {
    if from < q {
      FindAllSkip(m, t, from + 1, q);
      assert FindAll(m, t, from) == FindAll(m, t, from + 1);
    }
  }

  /** A scan whose only match is t[s..e] reports just that span */
  lemma FindAllSingle(m: Matcher, t: string, s: nat, e: nat)
    requires ValidMatcher(m) && s < |t| && MatchAt(m, t, s) == Some(e)
    requires forall p :: 0 <= p < s ==> MatchAt(m, t, p).None?
    requires forall p :: e <= p < |t| ==> MatchAt(m, t, p).None?
    ensures FindAll(m, t, 0) == [Span(s, e)]
  {
    FindAllSkip(m, t, 0, s);
    FindAllFound(m, t, s);
    FindAllEmpty(m, t, e);
  }

  /** A scan with a single match rewrites just that span */
  lemma SubSingle(m: Matcher, t: string, tok: string, s: nat, e: nat)
    requires ValidMatcher(m) && s < e <= |t| && FindAll(m, t, 0) == [Span(s, e)]
    ensures Sub(m, t, tok, 0) == t[..s] + tok + t[e..]
  {
    assert [Span(s, e)][1..] == [];
    assert Splice(t, [Span(s, e)], tok, 0) == t[0..s] + tok + Splice(t, [], tok, e);
  }

  /** A scan whose only matches are t[s1..e1] and t[s2..e2] reports just those two spans */
  lemma FindAllPair(m: Matcher, t: string, s1: nat, e1: nat, s2: nat, e2: nat)
    requires ValidMatcher(m) && s1 < e1 <= s2 < |t|
    requires MatchAt(m, t, s1) == Some(e1) && MatchAt(m, t, s2) == Some(e2)
    requires forall p :: 0 <= p < s1 ==> MatchAt(m, t, p).None?
    requires forall p :: e1 <= p < s2 ==> MatchAt(m, t, p).None?
    requires forall p :: e2 <= p < |t| ==> MatchAt(m, t, p).None?
    ensures FindAll(m, t, 0) == [Span(s1, e1), Span(s2, e2)]
  {
    FindAllSkip(m, t, 0, s1);
    FindAllFound(m, t, s1);
    FindAllSkip(m, t, e1, s2);
    FindAllFound(m, t, s2);
    FindAllEmpty(m, t, e2);
  }

  /** A scan with two matches rewrites both spans and keeps the text before, between and after them */
  lemma SubPair(m: Matcher, t: string, tok: string, s1: nat, e1: nat, s2: nat, e2: nat)
    requires ValidMatcher(m) && s1 < e1 <= s2 < e2 <= |t| && FindAll(m, t, 0) == [Span(s1, e1), Span(s2, e2)]
    ensures Sub(m, t, tok, 0) == t[..s1] + tok + (t[e1..s2] + tok + t[e2..])
  {
    var last := [Span(s2, e2)];
    assert last[1..] == [] && last[0] == Span(s2, e2);
    assert Splice(t, [], tok, e2) == t[e2..];
    var tail := Splice(t, last, tok, e1);
    assert tail == t[e1..s2] + tok + t[e2..];
    var spans := [Span(s1, e1)] + last;
    assert spans[1..] == last;
    assert Splice(t, spans, tok, 0) == t[0..s1] + tok + tail;
  }

  /** A literal occurrence starts with the needle's first character */
  lemma OccursAtFirst(t: string, needle: string, p: nat)
    requires |needle| > 0 && OccursAt(t, needle, p)
    ensures t[p] == needle[0]
  {
    assert t[p..p + |needle|][0] == t[p];
  }
}
