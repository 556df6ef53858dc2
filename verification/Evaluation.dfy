/**
 * What evaluating a snapshot means, declaratively: for every rule hit somewhere,
 * its surfaces in order, each with the ordered spans and pattern ids of all its
 * hits when it keeps details. The loops that compute it are in TwoPass.
 */
module Evaluation {
  import opened Wrappers
  import opened Sorting
  import opened Spans
  import opened PolicyModel
  import opened TextTables
  import opened Matcher
  import opened PatternSharing
  import opened Compiler

  // ---- Ordered sets of spans ---------------------------------------------------

  ghost predicate LeastSpan(keys: set<ByteSpan>, k: ByteSpan) {
    k in keys && forall x :: x in keys ==> SpanLeq(k, x)
  }

  lemma {:induction false} LeastSpanExists(keys: set<ByteSpan>)
    requires keys != {}
    ensures exists k :: LeastSpan(keys, k)
  {
    var k :| k in keys;
    if keys == {k} {
      assert LeastSpan(keys, k);
    } else {
      LeastSpanExists(keys - {k});
      var m :| LeastSpan(keys - {k}, m);
      var least := if SpanLeq(k, m) then k else m;
      forall x | x in keys ensures SpanLeq(least, x) {
        assert x != k ==> x in keys - {k};
      }
      assert LeastSpan(keys, least);
    }
  }

  /** Ascending and without repeats: what `sort_unstable` then `dedup` leave. */
  ghost predicate AscendingSpans(s: seq<ByteSpan>) {
    forall i, j :: 0 <= i < j < |s| ==> SpanLeq(s[i], s[j]) && s[i] != s[j]
  }

  ghost function OrderedSpans(keys: set<ByteSpan>): (r: seq<ByteSpan>)
    ensures AscendingSpans(r) && forall k :: k in r <==> k in keys
  {
    if keys == {} then []
    else
      LeastSpanExists(keys);
      var k :| LeastSpan(keys, k);
      var rest := OrderedSpans(keys - {k});
      [k] + rest
  }

  lemma {:induction false} AscendingSpansUnique(a: seq<ByteSpan>, b: seq<ByteSpan>)
    requires AscendingSpans(a) && AscendingSpans(b) && forall k :: k in a <==> k in b
    ensures a == b
  {
    assert (a != [] ==> a[0] in b) && (b != [] ==> b[0] in a);
    if a == [] {
    } else {
      assert a[0] == b[0];
      forall k ensures k in a[1..] <==> k in b[1..] {
        if k in a[1..] {
          assert k in b && k != b[0];
        }
        if k in b[1..] {
          assert k in a && k != a[0];
        }
      }
      AscendingSpansUnique(a[1..], b[1..]);
    }
  }

  method SortDedupSpans(spans: seq<ByteSpan>, ghost want: set<ByteSpan>) returns (r: seq<ByteSpan>)
    requires forall x :: x in spans <==> x in want
    ensures r == OrderedSpans(want)
  {
    SortCorrect(spans, SpanLeq);
    var sorted := Sort(spans, SpanLeq);
    r := [];
    for n := 0 to |sorted|
      invariant forall x :: x in r <==> x in sorted[..n]
      invariant AscendingSpans(r)
      invariant r != [] ==> n > 0 && r[|r| - 1] == sorted[n - 1]
      invariant n > 0 ==> r != []
    {
      assert sorted[..n + 1] == sorted[..n] + [sorted[n]];
      if r == [] || r[|r| - 1] != sorted[n] {
        AppendSpan(r, sorted, n);
        r := r + [sorted[n]];
      }
    }
    assert sorted[..|sorted|] == sorted;
    AscendingSpansUnique(r, OrderedSpans(want));
  }

  lemma AppendSpan(r: seq<ByteSpan>, sorted: seq<ByteSpan>, n: nat)
    requires AscendingSpans(r) && Sorted(sorted, SpanLeq) && n < |sorted|
    requires r != [] ==> n > 0 && r[|r| - 1] == sorted[n - 1] && r[|r| - 1] != sorted[n]
    ensures AscendingSpans(r + [sorted[n]])
  {
    var all := r + [sorted[n]];
    forall i | 0 <= i < |r| ensures SpanLeq(r[i], sorted[n]) && r[i] != sorted[n] {
      assert SpanLeq(sorted[n - 1], sorted[n]);
      assert i < |r| - 1 ==> SpanLeq(r[i], r[|r| - 1]) && r[i] != r[|r| - 1];
    }
  }

  method SortDedupIds(ids: seq<Uuid>, ghost want: set<Uuid>) returns (r: seq<Uuid>)
    requires forall x :: x in ids <==> x in want
    ensures r == SortedKeys(want)
  {
    var keys := set x | x in ids;
    assert keys == want;
    r := SortedKeys(keys);
  }

  // ---- The declarative result --------------------------------------------------------

  ghost function HitSpans(t: Tables, v: View, excluded: seq<ByteSpan>, d: PatternDefinition): set<ByteSpan>
    requires ViewOk(v)
  {
    set i: nat, j: nat | i <= |v.text| && j <= |v.text| && Hit(t, v, excluded, d, i, j) :: SourceSpan(v, i, j)
  }

  ghost function DefinitionSpans(t: Tables, input: SurfaceInput, d: PatternDefinition): set<ByteSpan>
    requires InputOk(input)
  {
    HitSpans(t, input.canonical, [], d)
    + (if input.security.Some? then HitSpans(t, input.security.value, input.excluded, d) else {})
  }

  lemma HitSpansMember(t: Tables, v: View, excluded: seq<ByteSpan>, d: PatternDefinition, q: ByteSpan)
    requires ViewOk(v)
    ensures q in HitSpans(t, v, excluded, d) <==> HitIn(t, v, excluded, d, q)
  {
    if i: nat, j: nat :| Hit(t, v, excluded, d, i, j) && q == SourceSpan(v, i, j) {
      assert i <= |v.text| && j <= |v.text|;
    }
  }

  lemma DefinitionSpansMember(t: Tables, input: SurfaceInput, d: PatternDefinition, q: ByteSpan)
    requires InputOk(input)
    ensures q in DefinitionSpans(t, input, d) <==> HitAt(t, input, d, q)
  {
    HitSpansMember(t, input.canonical, [], d, q);
    if input.security.Some? {
      HitSpansMember(t, input.security.value, input.excluded, d, q);
    }
  }

  /** Every source span at which some pattern of the rule is hit. */
  ghost function RuleSpans(t: Tables, input: SurfaceInput, rule: PolicyRule): set<ByteSpan>
    requires InputOk(input)
  {
    set p, q | p in rule.patterns && q in DefinitionSpans(t, input, DefinitionOf(rule.id, p)) :: q
  }

  ghost function RulePatternIds(t: Tables, input: SurfaceInput, rule: PolicyRule): set<Uuid>
    requires InputOk(input)
  {
    set p | p in rule.patterns && DefinitionSpans(t, input, DefinitionOf(rule.id, p)) != {} :: p.id
  }

  ghost predicate HitOn(t: Tables, a: Analyzed, rule: PolicyRule, s: Surface)
    requires AnalyzedOk(a)
  {
    s in a.normalized && s in rule.surfaces && (InputForOk(a, s); RuleSpans(t, InputFor(a, s), rule) != {})
  }

  ghost function SurfaceResult(t: Tables, a: Analyzed, rule: PolicyRule, s: Surface, all: bool): MatchedSurface
    requires AnalyzedOk(a) && s in a.normalized
  {
    InputForOk(a, s);
    var input := InputFor(a, s);
    if all || NeedsDetails(rule) then
      MatchedSurface(s, OrderedSpans(RuleSpans(t, input, rule)), SortedKeys(RulePatternIds(t, input, rule)))
    else MatchedSurface(s, [], [])
  }

  /** The matched surfaces of a rule among the first `n`. */
  ghost function SurfaceResults(t: Tables, a: Analyzed, rule: PolicyRule, all: bool, n: nat): seq<MatchedSurface>
    requires AnalyzedOk(a) && n <= 6
  {
    if n == 0 then []
    else
      SurfaceResults(t, a, rule, all, n - 1)
      + (if HitOn(t, a, rule, ALL_SURFACES[n - 1]) then [SurfaceResult(t, a, rule, ALL_SURFACES[n - 1], all)] else [])
  }

  ghost function MatchedRuleOf(t: Tables, a: Analyzed, snap: Snapshot, rule: PolicyRule, all: bool): MatchedRule
    requires AnalyzedOk(a)
  {
    MatchedRule(snap.policyId, snap.version, snap.scope, rule.id, rule.name, rule.customReason,
                SurfaceResults(t, a, rule, all, 6), rule.actions)
  }

  ghost function TriggeredRules(t: Tables, a: Analyzed, rules: map<Uuid, PolicyRule>): set<Uuid>
    requires AnalyzedOk(a)
  {
    set id | id in rules && exists s :: HitOn(t, a, rules[id], s)
  }

  ghost function MatchedRules(t: Tables, a: Analyzed, snap: Snapshot, all: bool, ids: seq<Uuid>): (r: seq<MatchedRule>)
    requires AnalyzedOk(a) && forall i :: i in ids ==> i in snap.rules
    ensures |r| == |ids| && forall i :: 0 <= i < |r| ==> r[i] == MatchedRuleOf(t, a, snap, snap.rules[ids[i]], all)
  {
    seq(|ids|, i requires 0 <= i < |ids| => assert ids[i] in ids; MatchedRuleOf(t, a, snap, snap.rules[ids[i]], all))
  }

  /** What evaluating a snapshot means. */
  ghost function Evaluated(t: Tables, a: Analyzed, snap: Snapshot, all: bool): seq<MatchedRule>
    requires AnalyzedOk(a)
  {
    MatchedRules(t, a, snap, all, SortedKeys(TriggeredRules(t, a, snap.rules)))
  }
}
