/**
 * Why one variant serves a whole profile group. Resolving does not read
 * pattern ids, and below GLOBAL it does not read anything else that tells the
 * members of a group apart, so their layers render alike.
 */
module Rendering {
  import opened Wrappers
  import opened Sorting
  import opened Spans
  import opened PolicyModel
  import opened TextTables
  import opened Fingerprint
  import opened Matcher
  import opened PatternSharing
  import opened Resolver
  import opened Layers
  import opened Compiler
  import opened Evaluation
  import opened TwoPass
  import opened Delivery
  import opened Remapping

  // ---- Resolving does not read pattern ids -----------------------------------------

  ghost predicate SameSteps(x: seq<Step>, y: seq<Step>) {
    |x| == |y| && forall i :: 0 <= i < |x| ==> WithoutIds(x[i].rule) == WithoutIds(y[i].rule) && x[i].action == y[i].action
  }

  lemma {:induction false} StepsIgnoreIds(x: seq<MatchedRule>, y: seq<MatchedRule>)
    requires MapSeq(WithoutIds, x) == MapSeq(WithoutIds, y)
    ensures SameSteps(Steps(x), Steps(y))
  {
    assert |x| == |MapSeq(WithoutIds, x)| == |y|;
    if x != [] {
      var n := |x| - 1;
      assert MapSeq(WithoutIds, x[..n]) == MapSeq(WithoutIds, x)[..n] && MapSeq(WithoutIds, y[..n]) == MapSeq(WithoutIds, y)[..n];
      StepsIgnoreIds(x[..n], y[..n]);
      assert MapSeq(WithoutIds, x)[n] == WithoutIds(x[n]) && MapSeq(WithoutIds, y)[n] == WithoutIds(y[n]);
      SameActions(x[n], y[n]);
      hide WithoutIds;
    }
  }

  lemma SameActions(m: MatchedRule, m': MatchedRule)
    requires WithoutIds(m) == WithoutIds(m')
    ensures m.actions == m'.actions && AttributionOf(m) == AttributionOf(m')
    ensures |m.surfaces| == |m'.surfaces| && MapSeq(DropIds, m.surfaces) == MapSeq(DropIds, m'.surfaces)
  {
    assert |MapSeq(DropIds, m.surfaces)| == |m.surfaces|;
  }

  lemma SurfacesIgnoreIds(x: seq<MatchedSurface>, y: seq<MatchedSurface>, k: nat)
    requires MapSeq(DropIds, x) == MapSeq(DropIds, y) && k < |x|
    ensures |x| == |y| && x[k].surface == y[k].surface && x[k].spans == y[k].spans
  {
    assert |MapSeq(DropIds, x)| == |x|;
    assert MapSeq(DropIds, x)[k] == DropIds(x[k]) && MapSeq(DropIds, y)[k] == DropIds(y[k]);
  }

  lemma PrefixIgnoresIds(x: seq<MatchedSurface>, y: seq<MatchedSurface>)
    requires MapSeq(DropIds, x) == MapSeq(DropIds, y) && x != []
    ensures |x| == |y| && MapSeq(DropIds, x[..|x| - 1]) == MapSeq(DropIds, y[..|y| - 1])
  {
    SurfacesIgnoreIds(x, y, 0);
    assert MapSeq(DropIds, x[..|x| - 1]) == MapSeq(DropIds, x)[..|x| - 1];
    assert MapSeq(DropIds, y[..|y| - 1]) == MapSeq(DropIds, y)[..|y| - 1];
  }

  lemma {:induction false} AddSurfacesIgnoresIds(m: map<Surface, seq<ByteSpan>>, x: seq<MatchedSurface>, y: seq<MatchedSurface>)
    requires MapSeq(DropIds, x) == MapSeq(DropIds, y)
    ensures AddSurfaces(m, x) == AddSurfaces(m, y)
    decreases |x|
  {
    assert |MapSeq(DropIds, x)| == |x| && |MapSeq(DropIds, y)| == |y|;
    hide MapSeq, DropIds;
    if x != [] {
      PrefixIgnoresIds(x, y);
      SurfacesIgnoreIds(x, y, |x| - 1);
      AddSurfacesIgnoresIds(m, x[..|x| - 1], y[..|y| - 1]);
    }
  }

  lemma {:induction false} AddNamesIgnoresIds(m: map<Surface, NameReplacement>, x: seq<MatchedSurface>, y: seq<MatchedSurface>, v: NameReplacement)
    requires MapSeq(DropIds, x) == MapSeq(DropIds, y)
    ensures AddNames(m, x, v) == AddNames(m, y, v)
    decreases |x|
  {
    assert |MapSeq(DropIds, x)| == |x| && |MapSeq(DropIds, y)| == |y|;
    hide MapSeq, DropIds;
    if x != [] {
      PrefixIgnoresIds(x, y);
      SurfacesIgnoreIds(x, y, |x| - 1);
      AddNamesIgnoresIds(m, x[..|x| - 1], y[..|y| - 1], v);
    }
  }

  lemma {:induction false} AccumulatesIgnoringIds(scope: PolicyScope, x: seq<Step>, y: seq<Step>)
    requires SameSteps(x, y)
    ensures BlockedBy(x) == BlockedBy(y) && Censors(x) == Censors(y) && Names(scope, x) == Names(scope, y)
    decreases |x|
  {
    hide WithoutIds, DropIds, MapSeq, AddSurfaces, AddNames;
    if x != [] {
      var n := |x| - 1;
      AccumulatesIgnoringIds(scope, x[..n], y[..n]);
      SameActions(x[n].rule, y[n].rule);
      AddSurfacesIgnoresIds(Censors(x[..n]), x[n].rule.surfaces, y[n].rule.surfaces);
      AddNamesIgnoresIds(Names(scope, x[..n]), x[n].rule.surfaces, y[n].rule.surfaces,
                         NameReplacement(ReplacementOf(scope, x[n].action), AttributionOf(x[n].rule)));
    }
  }

  lemma FlagsIgnoreIds(x: seq<Step>, y: seq<Step>, t: ActionType)
    requires SameSteps(x, y)
    ensures HasAction(x, t) == HasAction(y, t)
  {
    hide WithoutIds;
  }

  function RuleIds(rules: seq<MatchedRule>): seq<Uuid> { MapSeq((m: MatchedRule) => m.ruleId, rules) }

  lemma ResolvingIgnoresIds(scope: PolicyScope, x: seq<MatchedRule>, y: seq<MatchedRule>)
    requires MapSeq(WithoutIds, Sort(x, RuleLeq)) == MapSeq(WithoutIds, Sort(y, RuleLeq))
    ensures Resolved(scope, x).delivery == Resolved(scope, y).delivery
    ensures RuleIds(Resolved(scope, x).matchedRules) == RuleIds(Resolved(scope, y).matchedRules)
  {
    var p, q := Sort(x, RuleLeq), Sort(y, RuleLeq);
    StepsIgnoreIds(p, q);
    AccumulatesIgnoringIds(scope, Steps(p), Steps(q));
    FlagsIgnoreIds(Steps(p), Steps(q), StripLink);
    FlagsIgnoreIds(Steps(p), Steps(q), SuppressLinks);
    hide Sort, Steps, SameSteps, DropIds, BlockedBy, Censors, Names, HasAction;
    assert |MapSeq(WithoutIds, p)| == |p| && |MapSeq(WithoutIds, q)| == |q|;
    forall i | 0 <= i < |p| ensures RuleIds(p)[i] == RuleIds(q)[i] {
      assert MapSeq(WithoutIds, p)[i].ruleId == p[i].ruleId && MapSeq(WithoutIds, q)[i].ruleId == q[i].ruleId;
    }
  }

  // ---- Members of a group render alike ------------------------------------------------

  ghost predicate Alike(m: MatchedRule, m': MatchedRule) {
    MapSeq(DropIds, m.surfaces) == MapSeq(DropIds, m'.surfaces) && forall k :: HasKind(m, k) <==> HasKind(m', k)
  }

  ghost predicate Mirrors(x: seq<MatchedRule>, y: seq<MatchedRule>) {
    forall m :: m in x ==> exists m' :: m' in y && Alike(m, m')
  }

  lemma AlikeSpans(m: MatchedRule, m': MatchedRule, s: Surface, b: ByteSpan)
    requires MapSeq(DropIds, m.surfaces) == MapSeq(DropIds, m'.surfaces)
    ensures OnSurface(m, s) ==> OnSurface(m', s)
    ensures SpanOn(m, s, b) ==> SpanOn(m', s, b)
  {
    if k :| k in m.surfaces && k.surface == s {
      var i :| 0 <= i < |m.surfaces| && m.surfaces[i] == k;
      SurfacesIgnoreIds(m.surfaces, m'.surfaces, i);
      assert m'.surfaces[i] in m'.surfaces;
    }
    if k :| k in m.surfaces && k.surface == s && b in k.spans {
      var i :| 0 <= i < |m.surfaces| && m.surfaces[i] == k;
      SurfacesIgnoreIds(m.surfaces, m'.surfaces, i);
      assert m'.surfaces[i] in m'.surfaces;
    }
  }

  lemma MirrorOf(x: seq<MatchedRule>, y: seq<MatchedRule>, m: MatchedRule, t: ActionType, s: Surface, b: ByteSpan)
    returns (m': MatchedRule)
    requires Mirrors(x, y) && m in x
    ensures m' in y && (HasKind(m, t) ==> HasKind(m', t))
    ensures (OnSurface(m, s) ==> OnSurface(m', s)) && (SpanOn(m, s, b) ==> SpanOn(m', s, b))
  {
    hide HasKind, OnSurface, SpanOn, MapSeq, DropIds;
    m' :| m' in y && Alike(m, m');
    AlikeSpans(m, m', s, b);
  }

  lemma MirroredKind(x: seq<MatchedRule>, y: seq<MatchedRule>, t: ActionType)
    requires Mirrors(x, y) && RuleWith(x, t)
    ensures RuleWith(y, t)
  {
    hide HasKind, OnSurface, SpanOn, Mirrors;
    var m :| m in x && HasKind(m, t);
    var _ := MirrorOf(x, y, m, t, MessageContent, ByteSpan(0, 0));
  }

  lemma MirroredTouch(x: seq<MatchedRule>, y: seq<MatchedRule>, t: ActionType, s: Surface)
    requires Mirrors(x, y) && Touches(x, t, s)
    ensures Touches(y, t, s)
  {
    hide HasKind, OnSurface, SpanOn, Mirrors;
    var m :| m in x && HasKind(m, t) && OnSurface(m, s);
    var _ := MirrorOf(x, y, m, t, s, ByteSpan(0, 0));
  }

  lemma MirroredReport(x: seq<MatchedRule>, y: seq<MatchedRule>, t: ActionType, s: Surface, b: ByteSpan)
    requires Mirrors(x, y) && Reports(x, t, s, b)
    ensures Reports(y, t, s, b)
  {
    hide HasKind, OnSurface, SpanOn, Mirrors;
    var m :| m in x && HasKind(m, t) && SpanOn(m, s, b);
    var _ := MirrorOf(x, y, m, t, s, b);
  }

  lemma MirroredMeaning(x: seq<MatchedRule>, y: seq<MatchedRule>, t: ActionType, s: Surface, b: ByteSpan)
    requires Mirrors(x, y)
    ensures RuleWith(x, t) ==> RuleWith(y, t)
    ensures Touches(x, t, s) ==> Touches(y, t, s)
    ensures Reports(x, t, s, b) ==> Reports(y, t, s, b)
  {
    hide RuleWith, Touches, Reports, Mirrors;
    if RuleWith(x, t) { MirroredKind(x, y, t); }
    if Touches(x, t, s) { MirroredTouch(x, y, t, s); }
    if Reports(x, t, s, b) { MirroredReport(x, y, t, s, b); }
  }

  /** Every reported span is non-empty. */
  ghost predicate ProperMatches(x: seq<MatchedRule>) {
    forall m, s, b :: m in x && SpanOn(m, s, b) ==> b.start < b.end
  }

  lemma ProperReports(x: seq<MatchedRule>, t: ActionType, s: Surface, b: ByteSpan)
    requires ProperMatches(x) && Reports(x, t, s, b)
    ensures b.start < b.end
  {
  }

  /** What a layer's censor map holds for a surface, independent of rule order and ids. */
  lemma MirroredCensors(scope: PolicyScope, scope': PolicyScope, x: seq<MatchedRule>, y: seq<MatchedRule>, s: Surface)
    requires Mirrors(x, y) && Mirrors(y, x) && ProperMatches(x)
    ensures var c, d := Censors(Steps(Sort(x, RuleLeq))), Censors(Steps(Sort(y, RuleLeq)));
      && (s in c <==> s in d)
      && NonEmpty(SpansAt(c, s)) && NonEmpty(SpansAt(d, s))
      && MergedSpans(SpansAt(c, s)) == MergedSpans(SpansAt(d, s))
  {
    hide Mirrors, ProperMatches, Touches, Reports, Censors, MergedSpans, Covers, Steps, Sort, SpansAt;
    var c, d := Censors(Steps(Sort(x, RuleLeq))), Censors(Steps(Sort(y, RuleLeq)));
    forall b ensures (b in SpansAt(c, s) <==> b in SpansAt(d, s)) && (s in c <==> s in d) {
      ResolvedCensors(scope, x, s, b);
      ResolvedCensors(scope', y, s, b);
      MirroredMeaning(x, y, CensorMatch, s, b);
      MirroredMeaning(y, x, CensorMatch, s, b);
    }
    assert s in c <==> s in d by {
      var b := ByteSpan(0, 0);
      assert b in SpansAt(c, s) <==> b in SpansAt(d, s);
    }
    forall i | 0 <= i < |SpansAt(c, s)| ensures SpansAt(c, s)[i].start < SpansAt(c, s)[i].end {
      ResolvedCensors(scope, x, s, SpansAt(c, s)[i]);
      ProperReports(x, CensorMatch, s, SpansAt(c, s)[i]);
    }
    SameElements(SpansAt(c, s), SpansAt(d, s));
    MergedByCoverage(SpansAt(c, s), SpansAt(d, s));
  }

  lemma MirroredFlags(scope: PolicyScope, scope': PolicyScope, x: seq<MatchedRule>, y: seq<MatchedRule>)
    requires Mirrors(x, y) && Mirrors(y, x)
    ensures var e, f := Resolved(scope, x).delivery, Resolved(scope', y).delivery;
      e.IsBlocked() == f.IsBlocked() && e.stripLinks == f.stripLinks && e.suppressLinks == f.suppressLinks
  {
    hide Mirrors, Resolved, RuleWith, DeliveryEffects.IsBlocked;
    ResolvedFlags(scope, x);
    ResolvedFlags(scope', y);
    forall t ensures RuleWith(x, t) == RuleWith(y, t) {
      MirroredMeaning(x, y, t, MessageContent, ByteSpan(0, 0));
      MirroredMeaning(y, x, t, MessageContent, ByteSpan(0, 0));
    }
  }

  lemma MirroredNames(scope: PolicyScope, scope': PolicyScope, x: seq<MatchedRule>, y: seq<MatchedRule>, s: Surface)
    requires Mirrors(x, y) && Mirrors(y, x) && scope.authority != Global && scope'.authority != Global
    ensures var e, f := Resolved(scope, x).delivery.nameReplacements, Resolved(scope', y).delivery.nameReplacements;
      (s in e <==> s in f) && (s in e ==> e[s].replacement == f[s].replacement)
  {
    hide Mirrors, Resolved, Touches;
    ResolvedNames(scope, x, s);
    ResolvedNames(scope', y, s);
    MirroredMeaning(x, y, ReplaceName, s, ByteSpan(0, 0));
    MirroredMeaning(y, x, ReplaceName, s, ByteSpan(0, 0));
  }

  lemma CensorsOfDelivery(scope: PolicyScope, x: seq<MatchedRule>, s: Surface)
    ensures var e := Resolved(scope, x).delivery; var c := Censors(Steps(Sort(x, RuleLeq)));
      && (s in e.censorSpans <==> !e.IsBlocked() && s in c)
      && (s in e.censorSpans ==> e.censorSpans[s] == MergedSpans(SpansAt(c, s)))
  {
    hide Censors, Steps, Sort, BlockedBy, HasAction, Names, MergedSpans, Requests, Strongest;
  }

  lemma LayersRenderAlike(scope: PolicyScope, scope': PolicyScope, x: seq<MatchedRule>, y: seq<MatchedRule>)
    requires Mirrors(x, y) && Mirrors(y, x) && ProperMatches(x)
    requires scope.authority != Global && scope'.authority != Global
    ensures SameRendering(Resolved(scope, x).delivery, Resolved(scope', y).delivery)
    ensures Resolved(scope, x).delivery.IsBlocked() == Resolved(scope', y).delivery.IsBlocked()
  {
    hide Mirrors, ProperMatches, Resolved, DeliveryEffects.IsBlocked, Censors, Steps, Sort, MergedSpans, SpansAt;
    MirroredFlags(scope, scope', x, y);
    var e, f := Resolved(scope, x).delivery, Resolved(scope', y).delivery;
    forall s ensures s in e.censorSpans <==> s in f.censorSpans {
      CensorsOfDelivery(scope, x, s);
      CensorsOfDelivery(scope', y, s);
      MirroredCensors(scope, scope', x, y, s);
    }
    forall s | s in e.censorSpans ensures e.censorSpans[s] == f.censorSpans[s] {
      CensorsOfDelivery(scope, x, s);
      CensorsOfDelivery(scope', y, s);
      MirroredCensors(scope, scope', x, y, s);
    }
    assert e.censorSpans == f.censorSpans;
    forall s ensures s in e.nameReplacements <==> s in f.nameReplacements {
      MirroredNames(scope, scope', x, y, s);
    }
    forall s | s in e.nameReplacements ensures e.nameReplacements[s].replacement == f.nameReplacements[s].replacement {
      MirroredNames(scope, scope', x, y, s);
    }
  }

  /** Adding layers that render alike to the same shared effects renders alike. */
  lemma ComposedRenderAlike(shared: DeliveryEffects, e: DeliveryEffects, f: DeliveryEffects)
    requires SameRendering(e, f) && e.IsBlocked() == f.IsBlocked()
    ensures Composed([shared, e]).IsBlocked() == Composed([shared, f]).IsBlocked() == (shared.IsBlocked() || e.IsBlocked())
    ensures SameRendering(Composed([shared, e]), Composed([shared, f]))
  {
    LayeredTwo(shared, e);
    LayeredTwo(shared, f);
    var x, y := AddLayer(shared, e), AddLayer(shared, f);
    SortEmpty(x.blockedBy);
    SortEmpty(y.blockedBy);
    hide Sort, Layered, MergedSpans;
    var p, q := Sort(x.blockedBy, LayerLeq), Sort(y.blockedBy, LayerLeq);
    if p != [] {
      FinishBlocked(p, x.censorSpans);
      FinishBlocked(q, y.censorSpans);
    }
  }

  lemma LayeredTwo(shared: DeliveryEffects, e: DeliveryEffects)
    ensures Layered([shared, e]) == AddLayer(shared, e)
  {
    AddLayerUnit(shared);
    hide AddLayer;
    assert [shared][..|[shared]| - 1] == [];
    assert Layered([shared]) == AddLayer(Layered([]), shared) == shared;
    assert [shared, e][..|[shared, e]| - 1] == [shared];
  }

  // ---- Results of the members of a group -------------------------------------------------

  lemma SurfaceResultProper(t: Tables, a: Analyzed, rule: PolicyRule, s: Surface, b: ByteSpan)
    requires AnalyzedOk(a) && s in a.normalized && b in SurfaceResult(t, a, rule, s, false).spans
    ensures b.start < b.end
  {
    hide NeedsDetails, RulePatternIds;
    InputForOk(a, s);
    var input := InputFor(a, s);
    assert b in RuleSpans(t, input, rule);
    var p :| p in rule.patterns && b in DefinitionSpans(t, input, DefinitionOf(rule.id, p));
    var d := DefinitionOf(rule.id, p);
    if b in HitSpans(t, input.canonical, [], d) {
      HitSpanProper(t, input.canonical, [], d, b);
    } else {
      HitSpanProper(t, input.security.value, input.excluded, d, b);
    }
  }

  lemma HitSpanProper(t: Tables, v: View, excluded: seq<ByteSpan>, d: PatternDefinition, b: ByteSpan)
    requires ViewOk(v) && NonEmpty(v.source) && b in HitSpans(t, v, excluded, d)
    ensures b.start < b.end
  {
    var i: nat, j: nat :| i <= |v.text| && j <= |v.text| && Hit(t, v, excluded, d, i, j) && SourceSpan(v, i, j) == b;
    HullProper(v.source[i..j]);
  }

  lemma {:induction false} ResultsProper(t: Tables, a: Analyzed, rule: PolicyRule, n: nat, k: MatchedSurface, b: ByteSpan)
    requires AnalyzedOk(a) && n <= 6 && k in SurfaceResults(t, a, rule, false, n) && b in k.spans
    ensures b.start < b.end
  {
    hide HitOn, AnalyzedOk, SurfaceResult;
    if n > 0 {
      var s := ALL_SURFACES[n - 1];
      if k in SurfaceResults(t, a, rule, false, n - 1) {
        ResultsProper(t, a, rule, n - 1, k, b);
      } else {
        HitIsNormalized(t, a, rule, s);
        SurfaceResultProper(t, a, rule, s, b);
      }
    }
  }

  lemma EvaluatedProper(t: Tables, a: Analyzed, snap: Snapshot)
    requires AnalyzedOk(a)
    ensures ProperMatches(Evaluated(t, a, snap, false))
  {
    hide AnalyzedOk, TriggeredRules, SurfaceResults, SortedKeys;
    TriggeredAreRules(t, a, snap.rules);
    var e := Evaluated(t, a, snap, false);
    forall m, s, b | m in e && SpanOn(m, s, b) ensures b.start < b.end {
      var k :| k in m.surfaces && k.surface == s && b in k.spans;
      var i :| 0 <= i < |e| && e[i] == m;
      var ids := SortedKeys(TriggeredRules(t, a, snap.rules));
      assert ids[i] in ids;
      ResultsProper(t, a, snap.rules[ids[i]], 6, k, b);
    }
  }

  lemma TwinAlike(t: Tables, a: Analyzed, x: PolicyRule, y: PolicyRule, sp: Snapshot, sq: Snapshot)
    requires AnalyzedOk(a) && SameProfile(t, x, y)
    ensures Alike(MatchedRuleOf(t, a, sp, x, false), MatchedRuleOf(t, a, sq, y, false))
  {
    SameResults(t, a, x, y, 6);
    hide AnalyzedOk, SurfaceResults, BehaviourOf, SecurityReach;
    forall k ensures HasKind(MatchedRuleOf(t, a, sp, x, false), k) <==> HasKind(MatchedRuleOf(t, a, sq, y, false), k) {
      ActionKind(t, x, k);
      ActionKind(t, y, k);
    }
  }

  lemma EvaluatedMirrors(t: Tables, a: Analyzed, sp: Snapshot, sq: Snapshot)
    requires AnalyzedOk(a) && Twins(t, sp, sq)
    ensures Mirrors(Evaluated(t, a, sp, false), Evaluated(t, a, sq, false))
  {
    hide AnalyzedOk, TriggeredRules, MatchedRuleOf, Alike, SameProfile, SortedKeys;
    TriggeredAreRules(t, a, sp.rules);
    TriggeredAreRules(t, a, sq.rules);
    var e, f := Evaluated(t, a, sp, false), Evaluated(t, a, sq, false);
    forall m | m in e ensures exists m' :: m' in f && Alike(m, m') {
      var i :| 0 <= i < |e| && e[i] == m;
      var ids, twins := SortedKeys(TriggeredRules(t, a, sp.rules)), SortedKeys(TriggeredRules(t, a, sq.rules));
      assert ids[i] in ids;
      var rule := sp.rules[ids[i]];
      TwinResult(t, a, sp, sq, ids[i]);
      var twin := TwinId(sq, rule);
      assert twin in twins;
      var j :| 0 <= j < |twins| && twins[j] == twin;
      TwinAlike(t, a, rule, sq.rules[twin], sp, sq);
      assert f[j] in f;
    }
  }

  /** Two members of a group: their SERVER layers render alike over any shared effects. */
  lemma GroupRendersAlike(t: Tables, a: Analyzed, p: ContentPolicy, q: ContentPolicy, sp: Snapshot, sq: Snapshot, shared: DeliveryEffects)
    requires AnalyzedOk(a) && SameGroup(t, p, q, sp, sq)
    requires sp.scope.authority != Global && sq.scope.authority != Global
    ensures var e := Resolved(sp.scope, Evaluated(t, a, sp, false)).delivery;
            var f := Resolved(sq.scope, Evaluated(t, a, sq, false)).delivery;
      && e.IsBlocked() == f.IsBlocked()
      && Composed([shared, e]).IsBlocked() == Composed([shared, f]).IsBlocked() == (shared.IsBlocked() || e.IsBlocked())
      && SameRendering(Composed([shared, e]), Composed([shared, f]))
  {
    AllTwins(t, p, q, sp, sq);
    AgreeBack(t, p, q);
    AllTwins(t, q, p, sq, sp);
    hide SameGroup, AnalyzedOk, Twins, Evaluated, Mirrors, ProperMatches, Resolved, SameRendering, Composed, DeliveryEffects.IsBlocked;
    EvaluatedMirrors(t, a, sp, sq);
    EvaluatedMirrors(t, a, sq, sp);
    EvaluatedProper(t, a, sp);
    LayersRenderAlike(sp.scope, sq.scope, Evaluated(t, a, sp, false), Evaluated(t, a, sq, false));
    ComposedRenderAlike(shared, Resolved(sp.scope, Evaluated(t, a, sp, false)).delivery,
                        Resolved(sq.scope, Evaluated(t, a, sq, false)).delivery);
  }
}
