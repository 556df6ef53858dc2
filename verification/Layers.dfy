/**
 * What a resolved layer means, and `compose_delivery`: layering is a monoid,
 * so composing in stages equals composing at once, and a layer only tightens.
 */
module Layers {
  import opened Wrappers
  import opened Sorting
  import opened Spans
  import opened PolicyModel
  import opened Resolver

  // ---- The meaning of one layer ----------------------------------------------

  ghost predicate HasKind(rule: MatchedRule, t: ActionType) {
    exists a :: a in rule.actions && a.actionType == t
  }

  ghost predicate OnSurface(rule: MatchedRule, s: Surface) {
    exists m :: m in rule.surfaces && m.surface == s
  }

  ghost predicate SpanOn(rule: MatchedRule, s: Surface, x: ByteSpan) {
    exists m :: m in rule.surfaces && m.surface == s && x in m.spans
  }

  lemma {:induction false} StepElements(rules: seq<MatchedRule>, t: ActionType, rule: MatchedRule)
    ensures (exists p :: p in Steps(rules) && p.rule == rule && p.action.actionType == t)
        <==> rule in rules && HasKind(rule, t)
  {
    if rules != [] {
      var n := |rules| - 1;
      StepElements(rules[..n], t, rule);
      var last := StepsOf(rules[n], rules[n].actions);
      assert rules == rules[..n] + [rules[n]];
      assert Steps(rules) == Steps(rules[..n]) + last;
      if rule == rules[n] && HasKind(rule, t) {
        var a :| a in rule.actions && a.actionType == t;
        var i :| 0 <= i < |rule.actions| && rule.actions[i] == a;
        assert last[i] in Steps(rules);
      }
      if p :| p in last && p.rule == rule && p.action.actionType == t {
        var i :| 0 <= i < |last| && last[i] == p;
        assert rules[n].actions[i] in rules[n].actions;
      }
      assert forall p :: p in Steps(rules) <==> p in Steps(rules[..n]) || p in last;
    }
  }

  ghost predicate Visits(done: seq<Step>, rule: MatchedRule, t: ActionType) {
    exists p :: p in done && p.rule == rule && p.action.actionType == t
  }

  lemma VisitsLast(done: seq<Step>, rule: MatchedRule, t: ActionType)
    requires done != []
    ensures Visits(done, rule, t) <==>
      (Visits(done[..|done| - 1], rule, t)
       || (done[|done| - 1].rule == rule && done[|done| - 1].action.actionType == t))
  {
    assert done == done[..|done| - 1] + [done[|done| - 1]];
  }

  lemma {:induction false} AddedSurfaces(m: map<Surface, seq<ByteSpan>>, surfaces: seq<MatchedSurface>, s: Surface, x: ByteSpan)
    ensures s in AddSurfaces(m, surfaces) <==> s in m || exists k :: k in surfaces && k.surface == s
    ensures x in SpansAt(AddSurfaces(m, surfaces), s) <==>
      (x in SpansAt(m, s) || exists k :: k in surfaces && k.surface == s && x in k.spans)
  {
    if surfaces != [] {
      var n := |surfaces| - 1;
      AddedSurfaces(m, surfaces[..n], s, x);
      assert surfaces == surfaces[..n] + [surfaces[n]];
    }
  }

  /** A surface is censored, by a span, exactly when a CENSOR_MATCH rule reported it. */
  lemma {:induction false} CensorElements(done: seq<Step>, s: Surface, x: ByteSpan)
    ensures s in Censors(done) <==> exists rule :: Visits(done, rule, CensorMatch) && OnSurface(rule, s)
    ensures x in SpansAt(Censors(done), s) <==> exists rule :: Visits(done, rule, CensorMatch) && SpanOn(rule, s, x)
  {
    if done == [] {
    } else {
      var n := |done| - 1;
      var front, last := done[..n], done[n].rule;
      CensorElements(front, s, x);
      AddedSurfaces(Censors(front), last.surfaces, s, x);
      forall rule ensures Visits(done, rule, CensorMatch)
        <==> Visits(front, rule, CensorMatch) || (last == rule && done[n].action.actionType == CensorMatch)
      {
        VisitsLast(done, rule, CensorMatch);
      }
      hide Visits, AddSurfaces;
      if done[n].action.actionType == CensorMatch {
        assert Visits(done, last, CensorMatch);
        assert OnSurface(last, s) <==> exists k :: k in last.surfaces && k.surface == s;
        assert SpanOn(last, s, x) <==> exists k :: k in last.surfaces && k.surface == s && x in k.spans;
      }
    }
  }

  lemma {:induction false} AddedNames(m: map<Surface, NameReplacement>, surfaces: seq<MatchedSurface>, v: NameReplacement, s: Surface)
    ensures s in AddNames(m, surfaces, v) <==> s in m || (IsName(s) && exists k :: k in surfaces && k.surface == s)
    ensures s in m ==> AddNames(m, surfaces, v)[s] == m[s]
    ensures s !in m && s in AddNames(m, surfaces, v) ==> AddNames(m, surfaces, v)[s] == v
  {
    if surfaces != [] {
      var n := |surfaces| - 1;
      AddedNames(m, surfaces[..n], v, s);
      assert surfaces == surfaces[..n] + [surfaces[n]];
    }
  }

  /** A name is replaced exactly when a REPLACE_NAME rule matched it; below GLOBAL the text is always the safe name. */
  lemma {:induction false} NameElements(scope: PolicyScope, done: seq<Step>, s: Surface)
    ensures s in Names(scope, done) <==> IsName(s) && exists rule :: Visits(done, rule, ReplaceName) && OnSurface(rule, s)
    ensures s in Names(scope, done) && scope.authority != Global
        ==> Names(scope, done)[s].replacement == DEFAULT_SAFE_NAME
  {
    if done != [] {
      var n := |done| - 1;
      var front, last := done[..n], done[n].rule;
      NameElements(scope, front, s);
      var v := NameReplacement(ReplacementOf(scope, done[n].action), AttributionOf(last));
      AddedNames(Names(scope, front), last.surfaces, v, s);
      forall rule ensures Visits(done, rule, ReplaceName)
        <==> Visits(front, rule, ReplaceName) || (last == rule && done[n].action.actionType == ReplaceName)
      {
        VisitsLast(done, rule, ReplaceName);
      }
      hide Visits, AddNames;
      if done[n].action.actionType == ReplaceName {
        assert Visits(done, last, ReplaceName);
        assert OnSurface(last, s) <==> exists k :: k in last.surfaces && k.surface == s;
      }
    }
  }

  lemma {:induction false} BlockElements(done: seq<Step>, a: Attribution)
    ensures a in BlockedBy(done) <==> exists rule :: Visits(done, rule, Block) && AttributionOf(rule) == a
  {
    if done != [] {
      var n := |done| - 1;
      BlockElements(done[..n], a);
      forall rule ensures Visits(done, rule, Block)
        <==> Visits(done[..n], rule, Block) || (done[n].rule == rule && done[n].action.actionType == Block)
      {
        VisitsLast(done, rule, Block);
      }
      hide Visits;
      if done[n].action.actionType == Block {
        assert Visits(done, done[n].rule, Block);
      }
    }
  }

  lemma VisitsSorted(matched: seq<MatchedRule>, rule: MatchedRule, t: ActionType)
    ensures Visits(Steps(Sort(matched, RuleLeq)), rule, t) <==> rule in matched && HasKind(rule, t)
  {
    SortCorrect(matched, RuleLeq);
    StepElements(Sort(matched, RuleLeq), t, rule);
  }

  ghost predicate RuleWith(matched: seq<MatchedRule>, t: ActionType) {
    exists rule :: rule in matched && HasKind(rule, t)
  }

  ghost predicate Touches(matched: seq<MatchedRule>, t: ActionType, s: Surface) {
    exists rule :: rule in matched && HasKind(rule, t) && OnSurface(rule, s)
  }

  ghost predicate Reports(matched: seq<MatchedRule>, t: ActionType, s: Surface, x: ByteSpan) {
    exists rule :: rule in matched && HasKind(rule, t) && SpanOn(rule, s, x)
  }

  /** The flags of a resolved layer, independent of rule order. */
  lemma ResolvedFlags(scope: PolicyScope, matched: seq<MatchedRule>)
    ensures var d := Resolved(scope, matched).delivery;
      && (d.IsBlocked() <==> RuleWith(matched, Block))
      && (d.stripLinks <==> RuleWith(matched, StripLink))
      && (d.suppressLinks <==> RuleWith(matched, SuppressLinks))
  {
    var done := Steps(Sort(matched, RuleLeq));
    ActionOf(matched, StripLink);
    ActionOf(matched, SuppressLinks);
    ActionOf(matched, Block);
    BlockedIffAction(done);
    SortCorrect(BlockedBy(done), AttributionLeq);
  }

  lemma ActionOf(matched: seq<MatchedRule>, t: ActionType)
    ensures HasAction(Steps(Sort(matched, RuleLeq)), t) <==> RuleWith(matched, t)
  {
    var done := Steps(Sort(matched, RuleLeq));
    if i: nat :| i < |done| && done[i].action.actionType == t {
      assert Visits(done, done[i].rule, t);
      VisitsSorted(matched, done[i].rule, t);
    }
    if rule :| rule in matched && HasKind(rule, t) {
      VisitsSorted(matched, rule, t);
      var p :| p in done && p.rule == rule && p.action.actionType == t;
      var i :| 0 <= i < |done| && done[i] == p;
    }
  }

  lemma {:induction false} BlockedIffAction(done: seq<Step>)
    ensures BlockedBy(done) != [] <==> HasAction(done, Block)
  {
    if done != [] {
      var n := |done| - 1;
      BlockedIffAction(done[..n]);
      assert done == done[..n] + [done[n]];
      HasActionStep(done[..n], done[n], Block);
    }
  }

  /** A layer is blocked by exactly the matched rules with BLOCK. */
  lemma ResolvedBlockers(scope: PolicyScope, matched: seq<MatchedRule>, a: Attribution)
    ensures a in Resolved(scope, matched).delivery.blockedBy <==>
      exists rule :: rule in matched && HasKind(rule, Block) && AttributionOf(rule) == a
  {
    var done := Steps(Sort(matched, RuleLeq));
    BlockElements(done, a);
    forall rule ensures Visits(done, rule, Block) <==> rule in matched && HasKind(rule, Block) {
      VisitsSorted(matched, rule, Block);
    }
    hide Visits, HasKind, Steps, BlockedBy;
    SortCorrect(BlockedBy(done), AttributionLeq);
  }

  /** The censor map of an unblocked layer: which surfaces, and exactly which spans before merging. */
  lemma ResolvedCensors(scope: PolicyScope, matched: seq<MatchedRule>, s: Surface, x: ByteSpan)
    ensures var c := Censors(Steps(Sort(matched, RuleLeq)));
      && (s in c <==> Touches(matched, CensorMatch, s))
      && (x in SpansAt(c, s) <==> Reports(matched, CensorMatch, s, x))
  {
    var done := Steps(Sort(matched, RuleLeq));
    CensorElements(done, s, x);
    forall rule ensures Visits(done, rule, CensorMatch) <==> rule in matched && HasKind(rule, CensorMatch) {
      VisitsSorted(matched, rule, CensorMatch);
    }
  }

  lemma ResolvedNames(scope: PolicyScope, matched: seq<MatchedRule>, s: Surface)
    ensures var names := Resolved(scope, matched).delivery.nameReplacements;
      && (s in names <==> IsName(s) && Touches(matched, ReplaceName, s))
      && (s in names && scope.authority != Global ==> names[s].replacement == DEFAULT_SAFE_NAME)
  {
    var done := Steps(Sort(matched, RuleLeq));
    NameElements(scope, done, s);
    forall rule ensures Visits(done, rule, ReplaceName) <==> rule in matched && HasKind(rule, ReplaceName) {
      VisitsSorted(matched, rule, ReplaceName);
    }
  }

  // ---- Composition -------------------------------------------------------------

  /** Authority precedence, then policy id, then rule id. */
  predicate LayerLeq(a: Attribution, b: Attribution) {
    var p, q := Precedence(a.scope.authority), Precedence(b.scope.authority);
    || p < q
    || (p == q && a.policyId < b.policyId)
    || (p == q && a.policyId == b.policyId && a.ruleId <= b.ruleId)
  }

  function JoinSpans(a: map<Surface, seq<ByteSpan>>, b: map<Surface, seq<ByteSpan>>): map<Surface, seq<ByteSpan>> {
    map s | s in a.Keys + b.Keys :: SpansAt(a, s) + SpansAt(b, s)
  }

  /** The accumulated output after one more layer; names keep the first layer's value. */
  function AddLayer(output: DeliveryEffects, layer: DeliveryEffects): DeliveryEffects {
    DeliveryEffects(output.blockedBy + layer.blockedBy, JoinSpans(output.censorSpans, layer.censorSpans),
                    output.stripLinks || layer.stripLinks, output.suppressLinks || layer.suppressLinks,
                    layer.nameReplacements + output.nameReplacements)
  }

  function Layered(layers: seq<DeliveryEffects>): DeliveryEffects {
    if layers == [] then NO_EFFECTS else AddLayer(Layered(layers[..|layers| - 1]), layers[|layers| - 1])
  }

  function Normalized(raw: DeliveryEffects): DeliveryEffects {
    var blocked := Sort(raw.blockedBy, LayerLeq);
    raw.(blockedBy := blocked, censorSpans := Finish(blocked, raw.censorSpans))
  }

  function Composed(layers: seq<DeliveryEffects>): DeliveryEffects { Normalized(Layered(layers)) }

  lemma JoinSpansAt(a: map<Surface, seq<ByteSpan>>, b: map<Surface, seq<ByteSpan>>, s: Surface)
    ensures s in JoinSpans(a, b) <==> s in a || s in b
    ensures SpansAt(JoinSpans(a, b), s) == SpansAt(a, s) + SpansAt(b, s)
  {
  }

  method JoinCensors(output: map<Surface, seq<ByteSpan>>, layer: map<Surface, seq<ByteSpan>>)
    returns (r: map<Surface, seq<ByteSpan>>)
    ensures r == JoinSpans(output, layer)
  {
    r := output;
    for i := 0 to |ALL_SURFACES|
      invariant forall s :: s in r <==> s in output || (s in layer && SurfaceCode(s) < i)
      invariant forall s :: s in r && SurfaceCode(s) < i ==> r[s] == SpansAt(output, s) + SpansAt(layer, s)
      invariant forall s :: s in r && SurfaceCode(s) >= i ==> r[s] == output[s]
    {
      var s := ALL_SURFACES[i];
      SurfaceAt(i);
      if s in layer {
        r := r[s := SpansAt(r, s) + layer[s]];
      }
    }
    assert forall s :: SurfaceCode(s) < 6;
  }

  lemma SurfaceAt(i: nat)
    requires i < |ALL_SURFACES|
    ensures forall s :: SurfaceCode(s) == i <==> s == ALL_SURFACES[i]
  {
  }

  method JoinNames(output: map<Surface, NameReplacement>, layer: map<Surface, NameReplacement>)
    returns (r: map<Surface, NameReplacement>)
    ensures r == layer + output
  {
    r := output;
    for i := 0 to |ALL_SURFACES|
      invariant forall s :: s in r <==> s in output || (s in layer && SurfaceCode(s) < i)
      invariant forall s :: s in r ==> r[s] == (layer + output)[s]
    {
      var s := ALL_SURFACES[i];
      SurfaceAt(i);
      if s in layer && s !in r {
        r := r[s := layer[s]];
      }
    }
    assert forall s :: SurfaceCode(s) < 6;
  }

  /** One iteration over the layers. */
  method JoinLayer(output: DeliveryEffects, layer: DeliveryEffects) returns (r: DeliveryEffects)
    ensures r == AddLayer(output, layer)
  {
    var censors := JoinCensors(output.censorSpans, layer.censorSpans);
    var names := JoinNames(output.nameReplacements, layer.nameReplacements);
    r := DeliveryEffects(output.blockedBy + layer.blockedBy, censors,
                         output.stripLinks || layer.stripLinks, output.suppressLinks || layer.suppressLinks, names);
  }

  method ComposeDelivery(layers: seq<DeliveryEffects>) returns (r: DeliveryEffects)
    ensures r == Composed(layers)
  {
    r := NO_EFFECTS;
    for i := 0 to |layers|
      invariant r == Layered(layers[..i])
    {
      assert layers[..i + 1][..i] == layers[..i];
      r := JoinLayer(r, layers[i]);
    }
    assert layers[..|layers|] == layers;
    var blocked := Sort(r.blockedBy, LayerLeq);
    var censors := MergeAll(blocked, r.censorSpans);
    r := r.(blockedBy := blocked, censorSpans := censors);
  }

  lemma JoinThree(a: map<Surface, seq<ByteSpan>>, b: map<Surface, seq<ByteSpan>>, c: map<Surface, seq<ByteSpan>>, s: Surface)
    ensures s in JoinSpans(JoinSpans(a, b), c) <==> s in JoinSpans(a, JoinSpans(b, c))
    ensures SpansAt(JoinSpans(JoinSpans(a, b), c), s) == SpansAt(JoinSpans(a, JoinSpans(b, c)), s)
  {
    hide JoinSpans, SpansAt;
    JoinSpansAt(a, b, s);
    JoinSpansAt(b, c, s);
    JoinSpansAt(JoinSpans(a, b), c, s);
    JoinSpansAt(a, JoinSpans(b, c), s);
    assert (SpansAt(a, s) + SpansAt(b, s)) + SpansAt(c, s) == SpansAt(a, s) + (SpansAt(b, s) + SpansAt(c, s));
  }

  lemma JoinSpansAssociative(a: map<Surface, seq<ByteSpan>>, b: map<Surface, seq<ByteSpan>>, c: map<Surface, seq<ByteSpan>>)
    ensures JoinSpans(JoinSpans(a, b), c) == JoinSpans(a, JoinSpans(b, c))
  {
    hide JoinSpans, SpansAt;
    var left, right := JoinSpans(JoinSpans(a, b), c), JoinSpans(a, JoinSpans(b, c));
    forall s ensures (s in left <==> s in right) && SpansAt(left, s) == SpansAt(right, s) {
      JoinThree(a, b, c, s);
    }
    SameSpans(left, right);
  }

  lemma SameSpans(a: map<Surface, seq<ByteSpan>>, b: map<Surface, seq<ByteSpan>>)
    requires forall s :: (s in a <==> s in b) && SpansAt(a, s) == SpansAt(b, s)
    ensures a == b
  {
    assert a.Keys == b.Keys;
    forall s | s in a ensures a[s] == b[s] {
      assert SpansAt(a, s) == SpansAt(b, s);
    }
  }

  lemma AddLayerAssociative(a: DeliveryEffects, b: DeliveryEffects, c: DeliveryEffects)
    ensures AddLayer(AddLayer(a, b), c) == AddLayer(a, AddLayer(b, c))
  {
    JoinSpansAssociative(a.censorSpans, b.censorSpans, c.censorSpans);
    hide JoinSpans;
    assert (a.blockedBy + b.blockedBy) + c.blockedBy == a.blockedBy + (b.blockedBy + c.blockedBy);
    assert (c.nameReplacements + b.nameReplacements) + a.nameReplacements
        == c.nameReplacements + (b.nameReplacements + a.nameReplacements);
  }

  lemma AddLayerUnit(a: DeliveryEffects)
    ensures AddLayer(a, NO_EFFECTS) == a && AddLayer(NO_EFFECTS, a) == a
  {
    var none: map<Surface, seq<ByteSpan>> := map[];
    forall s ensures (s in JoinSpans(a.censorSpans, none) <==> s in a.censorSpans)
      && SpansAt(JoinSpans(a.censorSpans, none), s) == SpansAt(a.censorSpans, s)
      && (s in JoinSpans(none, a.censorSpans) <==> s in a.censorSpans)
      && SpansAt(JoinSpans(none, a.censorSpans), s) == SpansAt(a.censorSpans, s)
    {
      JoinSpansAt(a.censorSpans, none, s);
      JoinSpansAt(none, a.censorSpans, s);
    }
    SameSpans(JoinSpans(a.censorSpans, none), a.censorSpans);
    SameSpans(JoinSpans(none, a.censorSpans), a.censorSpans);
  }

  lemma {:induction false} LayeredConcat(xs: seq<DeliveryEffects>, ys: seq<DeliveryEffects>)
    ensures Layered(xs + ys) == AddLayer(Layered(xs), Layered(ys))
    decreases |ys|
  {
    if ys == [] {
      assert xs + ys == xs;
      AddLayerUnit(Layered(xs));
    } else {
      var n := |ys| - 1;
      assert (xs + ys)[..|xs + ys| - 1] == xs + ys[..n];
      LayeredConcat(xs, ys[..n]);
      AddLayerAssociative(Layered(xs), Layered(ys[..n]), ys[n]);
    }
  }

  /** Every censor span of the layer is non-empty, as `ByteSpan::new` guarantees. */
  ghost predicate ProperSpans(d: DeliveryEffects) {
    forall s :: s in d.censorSpans ==> NonEmpty(d.censorSpans[s])
  }

  lemma SpansAtProper(d: DeliveryEffects, s: Surface)
    requires ProperSpans(d)
    ensures NonEmpty(SpansAt(d.censorSpans, s))
  {
  }

  lemma LayerLeqOrder()
    ensures TotalPreorder(LayerLeq)
  {
  }

  /** Normalizing an accumulated prefix early does not change the normalized whole. */
  lemma NormalizedEarly(x: DeliveryEffects, y: DeliveryEffects)
    requires ProperSpans(x) && ProperSpans(y)
    ensures Normalized(AddLayer(Normalized(x), y)) == Normalized(AddLayer(x, y))
  {
    LayerLeqOrder();
    SortPrefixFirst(x.blockedBy, y.blockedBy, LayerLeq);
    hide TotalPreorder, LayerLeq, NonEmpty, Sort, JoinSpans, SpansAt, Finish, ProperSpans, MergedSpans;
    SortEmpty(x.blockedBy);
    SortEmpty(x.blockedBy + y.blockedBy);
    var left, right := Normalized(AddLayer(Normalized(x), y)), Normalized(AddLayer(x, y));
    if right.IsBlocked() {
      FinishBlocked(left.blockedBy, AddLayer(Normalized(x), y).censorSpans);
      FinishBlocked(right.blockedBy, AddLayer(x, y).censorSpans);
    } else {
      forall s ensures (s in left.censorSpans <==> s in right.censorSpans)
        && SpansAt(left.censorSpans, s) == SpansAt(right.censorSpans, s)
      {
        FinishAt(left.blockedBy, AddLayer(Normalized(x), y).censorSpans, s);
        FinishAt(right.blockedBy, AddLayer(x, y).censorSpans, s);
        FinishAt(Normalized(x).blockedBy, x.censorSpans, s);
        JoinSpansAt(Normalized(x).censorSpans, y.censorSpans, s);
        JoinSpansAt(x.censorSpans, y.censorSpans, s);
        SpansAtProper(x, s);
        SpansAtProper(y, s);
        MergeInStages(SpansAt(x.censorSpans, s), SpansAt(y.censorSpans, s));
      }
      SameSpans(left.censorSpans, right.censorSpans);
    }
  }

  lemma SortEmpty(a: seq<Attribution>)
    ensures Sort(a, LayerLeq) == [] <==> a == []
  {
    LayerLeqOrder();
    SortCorrect(a, LayerLeq);
  }

  lemma FinishBlocked(blockedBy: seq<Attribution>, censors: map<Surface, seq<ByteSpan>>)
    requires blockedBy != []
    ensures Finish(blockedBy, censors) == map[]
  {
  }

  lemma FinishAt(blockedBy: seq<Attribution>, censors: map<Surface, seq<ByteSpan>>, s: Surface)
    requires blockedBy == []
    ensures s in Finish(blockedBy, censors) <==> s in censors
    ensures SpansAt(Finish(blockedBy, censors), s) == MergedSpans(SpansAt(censors, s))
  {
    NothingMerged();
  }

  lemma NothingMerged()
    ensures MergedSpans([]) == []
  {
    assert Sort<ByteSpan>([], SpanLeq) == [];
  }

  lemma {:induction false} LayeredProper(layers: seq<DeliveryEffects>)
    requires forall i :: 0 <= i < |layers| ==> ProperSpans(layers[i])
    ensures ProperSpans(Layered(layers))
  {
    if layers != [] {
      LayeredProper(layers[..|layers| - 1]);
    }
  }

  /** GLOBAL and HUB composed first, then SERVER, is the same as all three at once. */
  lemma ComposeInStages(xs: seq<DeliveryEffects>, ys: seq<DeliveryEffects>)
    requires forall i :: 0 <= i < |xs| ==> ProperSpans(xs[i])
    requires forall i :: 0 <= i < |ys| ==> ProperSpans(ys[i])
    ensures Composed([Composed(xs)] + ys) == Composed(xs + ys)
  {
    LayeredProper(xs);
    LayeredProper(ys);
    LayeredConcat(xs, ys);
    LayeredConcat([Composed(xs)], ys);
    assert [Composed(xs)][..0] == [];
    AddLayerUnit(Composed(xs));
    NormalizedEarly(Layered(xs), Layered(ys));
  }

  /** A further layer never unblocks, drops a flag, uncovers a censored byte, or replaces a higher layer's name. */
  lemma LayerOnlyTightens(xs: seq<DeliveryEffects>, y: DeliveryEffects)
    requires ProperSpans(y) && forall i :: 0 <= i < |xs| ==> ProperSpans(xs[i])
    ensures var before, after := Composed(xs), Composed(xs + [y]);
      && (forall a :: a in before.blockedBy || a in y.blockedBy <==> a in after.blockedBy)
      && (before.stripLinks || y.stripLinks <==> after.stripLinks)
      && (before.suppressLinks || y.suppressLinks <==> after.suppressLinks)
      && (forall s :: s in before.nameReplacements ==>
            s in after.nameReplacements && after.nameReplacements[s] == before.nameReplacements[s])
      && (!after.IsBlocked() ==> !before.IsBlocked())
    ensures var before, after := Composed(xs), Composed(xs + [y]);
      !after.IsBlocked() ==> forall s, b :: Covers(SpansAt(after.censorSpans, s), b) <==>
        (Covers(SpansAt(before.censorSpans, s), b) || Covers(SpansAt(y.censorSpans, s), b))
  {
    var raw := Layered(xs);
    assert (xs + [y])[..|xs|] == xs;
    LayeredProper(xs);
    LayerLeqOrder();
    SortCorrect(raw.blockedBy, LayerLeq);
    SortCorrect(raw.blockedBy + y.blockedBy, LayerLeq);
    var before, after := Composed(xs), Composed(xs + [y]);
    if !after.IsBlocked() {
      forall s, b ensures Covers(SpansAt(after.censorSpans, s), b)
        <==> Covers(SpansAt(before.censorSpans, s), b) || Covers(SpansAt(y.censorSpans, s), b)
      {
        TightensAt(raw, y, s, b);
      }
    }
  }

  lemma TightensAt(raw: DeliveryEffects, y: DeliveryEffects, s: Surface, b: nat)
    requires ProperSpans(raw) && ProperSpans(y) && !raw.IsBlocked() && !y.IsBlocked()
    ensures Covers(SpansAt(Normalized(AddLayer(raw, y)).censorSpans, s), b)
      <==> Covers(SpansAt(Normalized(raw).censorSpans, s), b) || Covers(SpansAt(y.censorSpans, s), b)
  {
    hide Sort, JoinSpans, SpansAt, Finish, ProperSpans, MergedSpans, Covers, Canonical;
    var p, q := SpansAt(raw.censorSpans, s), SpansAt(y.censorSpans, s);
    SpansAtProper(raw, s);
    SpansAtProper(y, s);
    SortEmpty(raw.blockedBy);
    SortEmpty(raw.blockedBy + y.blockedBy);
    FinishAt(Normalized(raw).blockedBy, raw.censorSpans, s);
    FinishAt(Normalized(AddLayer(raw, y)).blockedBy, AddLayer(raw, y).censorSpans, s);
    JoinSpansAt(raw.censorSpans, y.censorSpans, s);
    MergedCanonical(p);
    NonEmptyConcat(p, q);
    MergedCanonical(p + q);
    CoversConcat(p, q, b);
  }

  lemma NonEmptyConcat(p: seq<ByteSpan>, q: seq<ByteSpan>)
    requires NonEmpty(p) && NonEmpty(q)
    ensures NonEmpty(p + q)
  {
  }
}
