/**
 * What the decision for one destination says, in terms of the rules of the
 * server's policy and of where they are seen in the message: whose policy
 * decided, which rules matched, who blocks, and what is delivered.
 */
module DecisionMeaning {
  import opened Wrappers
  import opened Sorting
  import opened Spans
  import opened Utf8Text
  import opened Censoring
  import opened PolicyModel
  import opened TextTables
  import opened ByteEncoding
  import opened Fingerprint
  import opened Resolver
  import opened Layers
  import opened Compiler
  import opened Evaluation
  import opened Remapping
  import opened Rendering
  import opened Fitting
  import opened Delivery
  import opened Engine
  import opened MatchMeaning
  import opened LayerMeaning
  import opened CompositionMeaning
  import opened DeliveryMeaning

  // ---- The rules that match --------------------------------------------------------------------

  /** An enabled rule of the policy with a pattern that is seen on a surface it watches. */
  ghost predicate Matching(w: World, policy: ContentPolicy, rule: PolicyRule)
    requires AnalyzedOk(w.analyzed)
  {
    rule in policy.rules && rule.enabled && exists s :: RuleSeen(w.t, w.analyzed, rule, s)
  }

  /** The matched rule is the report of `rule`. */
  ghost predicate ReportOf(w: World, snap: Snapshot, rule: PolicyRule, m: MatchedRule)
    requires AnalyzedOk(w.analyzed)
  {
    && m.policyId == snap.policyId && m.policyVersion == snap.version && m.scope == snap.scope
    && m.ruleId == rule.id && m.ruleName == rule.name && m.customReason == rule.customReason && m.actions == rule.actions
    && EntriesFor(w.t, w.analyzed, rule, false, 6, m.surfaces)
  }

  /** The matched rules of a server are the reports of its policy's matching rules, each once. */
  ghost predicate ReportsAll(w: World, policy: ContentPolicy, snap: Snapshot, matched: seq<MatchedRule>)
    requires AnalyzedOk(w.analyzed)
  {
    && (forall i, j :: 0 <= i < j < |matched| ==> matched[i].ruleId < matched[j].ruleId)
    && (forall m :: m in matched ==> exists rule :: Matching(w, policy, rule) && ReportOf(w, snap, rule, m))
    && (forall rule :: Matching(w, policy, rule) ==> exists m :: m in matched && ReportOf(w, snap, rule, m))
  }

  lemma MatchedMeans(w: World, policy: ContentPolicy, snap: Snapshot)
    requires AnalyzedOk(w.analyzed) && RulesOf(policy, snap.rules, snap.ruleNames)
    ensures ReportsAll(w, policy, snap, Evaluated(w.t, w.analyzed, snap, false))
  {
    hide AnalyzedOk, RuleSeen, EntriesFor, Evaluated;
    var matched := Evaluated(w.t, w.analyzed, snap, false);
    var ids := EvaluatedMeans(w.t, w.analyzed, snap, false);
    forall i | 0 <= i < |matched| ensures Reported(w.t, w.analyzed, snap, false, ids[i], matched[i]) && matched[i].ruleId == ids[i] {
    }
    forall m | m in matched ensures exists rule :: Matching(w, policy, rule) && ReportOf(w, snap, rule, m) {
      var i :| 0 <= i < |matched| && matched[i] == m;
      assert ids[i] in ids;
      assert Matching(w, policy, snap.rules[ids[i]]) && ReportOf(w, snap, snap.rules[ids[i]], m);
    }
    forall rule | Matching(w, policy, rule) ensures exists m :: m in matched && ReportOf(w, snap, rule, m) {
      var i :| 0 <= i < |ids| && ids[i] == rule.id;
      assert ReportOf(w, snap, rule, matched[i]);
    }
  }

  /** The rule that an entry reports. */
  lemma Reporting(w: World, policy: ContentPolicy, snap: Snapshot, matched: seq<MatchedRule>, m: MatchedRule) returns (rule: PolicyRule)
    requires AnalyzedOk(w.analyzed) && ReportsAll(w, policy, snap, matched) && m in matched
    ensures Matching(w, policy, rule) && ReportOf(w, snap, rule, m)
  {
    hide AnalyzedOk, Matching, ReportOf;
    rule :| Matching(w, policy, rule) && ReportOf(w, snap, rule, m);
  }

  /** The entry that reports a rule. */
  lemma ReportIn(w: World, policy: ContentPolicy, snap: Snapshot, matched: seq<MatchedRule>, rule: PolicyRule) returns (m: MatchedRule)
    requires AnalyzedOk(w.analyzed) && ReportsAll(w, policy, snap, matched) && Matching(w, policy, rule)
    ensures m in matched && ReportOf(w, snap, rule, m)
  {
    hide AnalyzedOk, Matching, ReportOf;
    m :| m in matched && ReportOf(w, snap, rule, m);
  }

  ghost predicate Has(rule: PolicyRule, kind: ActionType) { exists x :: x in rule.actions && x.actionType == kind }

  lemma ReportHas(w: World, snap: Snapshot, rule: PolicyRule, m: MatchedRule, kind: ActionType)
    requires AnalyzedOk(w.analyzed) && ReportOf(w, snap, rule, m)
    ensures HasKind(m, kind) <==> Has(rule, kind)
  {
    hide AnalyzedOk, EntriesFor;
  }

  // ---- The decision ----------------------------------------------------------------------------

  /** The blocker is a matching rule with a BLOCK action, named with its policy, version and scope. */
  ghost predicate Blocks(w: World, policy: ContentPolicy, snap: Snapshot, rule: PolicyRule, a: Attribution)
    requires AnalyzedOk(w.analyzed)
  {
    && Matching(w, policy, rule) && Has(rule, Block)
    && a == Attribution(snap.policyId, snap.version, snap.scope, rule.id, rule.name, rule.customReason)
  }

  /** What the decision of a server with a policy says. */
  ghost predicate DecisionFor(w: World, policy: ContentPolicy, snap: Snapshot, d: Destination, decision: DestinationDecision)
    requires AnalyzedOk(w.analyzed)
  {
    && decision.targetIndex == d.targetIndex && decision.serverId == d.serverId
    && decision.policyId == Some(policy.id) && decision.policyVersion == Some(policy.version)
    && (forall i, j :: 0 <= i < j < |decision.matchedRuleIds| ==> decision.matchedRuleIds[i] < decision.matchedRuleIds[j])
    && (forall x :: x in decision.matchedRuleIds <==> exists rule :: Matching(w, policy, rule) && rule.id == x)
    && (forall i, j :: 0 <= i < j < |decision.blockedBy| ==> decision.blockedBy[i].ruleId <= decision.blockedBy[j].ruleId)
    && (forall a :: a in decision.blockedBy <==> exists rule :: Blocks(w, policy, snap, rule, a))
  }

  lemma ResolvedIds(w: World, policy: ContentPolicy, snap: Snapshot, matched: seq<MatchedRule>, ids: seq<Uuid>)
    requires AnalyzedOk(w.analyzed) && ReportsAll(w, policy, snap, matched)
    requires |ids| == |matched| && forall i :: 0 <= i < |matched| ==> ids[i] == matched[i].ruleId
    ensures forall x :: x in ids <==> exists rule :: Matching(w, policy, rule) && rule.id == x
  {
    hide AnalyzedOk, Matching, EntriesFor, ReportsAll;
    forall x | x in ids ensures exists rule :: Matching(w, policy, rule) && rule.id == x {
      var i :| 0 <= i < |ids| && ids[i] == x;
      var rule := Reporting(w, policy, snap, matched, matched[i]);
    }
    forall rule | Matching(w, policy, rule) ensures rule.id in ids {
      var m := ReportIn(w, policy, snap, matched, rule);
      var i :| 0 <= i < |matched| && matched[i] == m;
      assert ids[i] in ids;
    }
  }

  lemma ResolvedBlocks(w: World, policy: ContentPolicy, snap: Snapshot, matched: seq<MatchedRule>, a: Attribution)
    requires AnalyzedOk(w.analyzed) && ReportsAll(w, policy, snap, matched)
    ensures a in Resolved(snap.scope, matched).delivery.blockedBy <==> exists rule :: Blocks(w, policy, snap, rule, a)
  {
    hide AnalyzedOk, Matching, EntriesFor, Resolved, ReportsAll, Has, HasKind;
    BlockersMean(snap.scope, matched, a);
    if m :| m in matched && HasKind(m, Block) && Identifies(m, a) {
      var rule := Reporting(w, policy, snap, matched, m);
      ReportHas(w, snap, rule, m, Block);
      assert Blocks(w, policy, snap, rule, a);
    }
    if rule :| Blocks(w, policy, snap, rule, a) {
      var m := ReportIn(w, policy, snap, matched, rule);
      ReportHas(w, snap, rule, m, Block);
      assert Identifies(m, a);
    }
  }

  /** Matches already by rule id stay in their order. */
  lemma AlreadySorted(scope: PolicyScope, matched: seq<MatchedRule>)
    requires forall i, j :: 0 <= i < j < |matched| ==> matched[i].ruleId < matched[j].ruleId
    ensures Resolved(scope, matched).matchedRules == matched
  {
    hide DeliveryOf, Strongest, Steps, Requests;
    SortCorrect(matched, RuleLeq);
    hide Sort;
    SortedUnique(matched, Sort(matched, RuleLeq), RuleLeq);
  }

  /** A decided server's decision names its policy, the rules that match, and those of them that block. */
  lemma DecisionMeans(w: World, policy: ContentPolicy, d: Destination)
    requires AnalyzedOk(w.analyzed) && d.serverId in w.store && CompiledFrom(w.t, policy, false, w.store[d.serverId])
    requires DecideAlone(w, d).Ok?
    ensures DecisionFor(w, policy, w.store[d.serverId], d, DecideAlone(w, d).value.decision)
  {
    hide AnalyzedOk, Matching, ReportOf, Blocks, Evaluated, Resolved, Composed, Materialized, DeliveryEffects.IsBlocked, SurfacesCompiled,
      ProfileFingerprint, RulesOf;
    var snap := w.store[d.serverId];
    var matched := Evaluated(w.t, w.analyzed, snap, false);
    var decision := DecideAlone(w, d).value.decision;
    MatchedMeans(w, policy, snap);
    AlreadySorted(snap.scope, matched);
    ResolvedIds(w, policy, snap, matched, decision.matchedRuleIds);
    DecidedBlockers(w, d);
    forall a ensures a in decision.blockedBy <==> exists rule :: Blocks(w, policy, snap, rule, a) {
      ResolvedBlocks(w, policy, snap, matched, a);
    }
    BlockersSorted(snap.scope, matched);
  }

  lemma DecidedBlockers(w: World, d: Destination)
    requires AnalyzedOk(w.analyzed) && d.serverId in w.store && DecideAlone(w, d).Ok?
    ensures DecideAlone(w, d).value.decision.blockedBy == LocalScope(w, w.store[d.serverId]).delivery.blockedBy
  {
    hide AnalyzedOk, LocalScope, Composed, Materialized, RuleIds;
  }

  /** A server without a policy gets the shared variant, and its decision names no policy and no rule. */
  lemma UndecidedMeans(w: World, d: Destination)
    requires AnalyzedOk(w.analyzed) && d.serverId !in w.store && DecideAlone(w, d).Ok?
    ensures Materialized(w.presentation, w.shared).Ok?
    ensures var v := Materialized(w.presentation, w.shared).value;
      && DecideAlone(w, d).value.variant == Some(v)
      && DecideAlone(w, d).value.decision == DestinationDecision(d.targetIndex, d.serverId, None, None, [], [], Some(v.fingerprint))
  {
    hide AnalyzedOk, Materialized;
  }

  /** Decisions are returned by target index. */
  lemma ReturnedInOrder(g: Decider, ds: seq<Destination>, decisions: seq<DestinationDecision>, variants: map<seq<Byte>, DeliveryVariant>)
    requires Returned(g, ds, decisions, variants)
    ensures |decisions| == |ds| && forall i, j :: 0 <= i < j < |decisions| ==> decisions[i].targetIndex <= decisions[j].targetIndex
    ensures forall d :: d in ds ==> g(d).Ok? && g(d).value.decision in decisions
    ensures forall x :: x in decisions ==> exists d :: d in ds && g(d).Ok? && g(d).value.decision == x
  {
    hide VariantsOf;
    var deciding := MapSeq(Deciding(g), ds);
    assert |decisions| == |multiset(decisions)| == |multiset(deciding)| == |deciding|;
    forall i, j | 0 <= i < j < |decisions| ensures decisions[i].targetIndex <= decisions[j].targetIndex {
      assert ByTarget(decisions[i], decisions[j]);
    }
    forall d | d in ds ensures g(d).Ok? && g(d).value.decision in decisions {
      var i :| 0 <= i < |ds| && ds[i] == d;
      assert deciding[i] in multiset(deciding);
    }
    forall x | x in decisions ensures exists d :: d in ds && g(d).Ok? && g(d).value.decision == x {
      assert x in multiset(deciding);
      var i :| 0 <= i < |deciding| && deciding[i] == x;
      assert ds[i] in ds;
    }
  }

  // ---- What is delivered -------------------------------------------------------------------------

  /** Some matching rule of the policy has the action. */
  ghost predicate AnyWith(w: World, policy: ContentPolicy, kind: ActionType)
    requires AnalyzedOk(w.analyzed)
  {
    exists rule :: Matching(w, policy, rule) && Has(rule, kind)
  }

  /** Some rule with REPLACE_NAME is seen on the surface. */
  ghost predicate Replaces(w: World, policy: ContentPolicy, s: Surface)
    requires AnalyzedOk(w.analyzed)
  {
    exists rule :: rule in policy.rules && rule.enabled && Has(rule, ReplaceName) && RuleSeen(w.t, w.analyzed, rule, s)
  }

  /** A rule with CENSOR_MATCH watches the surface and has a pattern that is seen there around byte `b`. */
  ghost predicate CensorsThere(w: World, policy: ContentPolicy, s: Surface, b: nat)
    requires AnalyzedOk(w.analyzed)
  {
    exists rule, p, q :: rule in policy.rules && rule.enabled && Has(rule, CensorMatch) && s in rule.surfaces
      && p in rule.patterns && SeenAt(w.t, w.analyzed, s, p, q) && q.start <= b < q.end
  }

  /** The byte is censored on the surface, for all servers or by this one's policy. */
  ghost predicate CensoredFor(w: World, policy: ContentPolicy, s: Surface, b: nat)
    requires AnalyzedOk(w.analyzed)
  {
    Covers(SpansAt(w.shared.censorSpans, s), b) || CensorsThere(w, policy, s, b)
  }

  lemma ReplacedMeans(w: World, policy: ContentPolicy, snap: Snapshot, matched: seq<MatchedRule>, s: Surface)
    requires AnalyzedOk(w.analyzed) && ReportsAll(w, policy, snap, matched)
    ensures (exists m :: m in matched && ReplacesOn(m, s)) <==> Replaces(w, policy, s)
  {
    hide AnalyzedOk, RuleSeen, ReportOf, ReportsAll, Has, HasKind, OnSurface;
    if m :| m in matched && ReplacesOn(m, s) {
      var rule := Reporting(w, policy, snap, matched, m);
      ReportHas(w, snap, rule, m, ReplaceName);
      SeenOn(w, snap, rule, m, s);
    }
    if rule :| rule in policy.rules && rule.enabled && Has(rule, ReplaceName) && RuleSeen(w.t, w.analyzed, rule, s) {
      var m := ReportIn(w, policy, snap, matched, rule);
      ReportHas(w, snap, rule, m, ReplaceName);
      SeenOn(w, snap, rule, m, s);
    }
  }

  lemma SeenOn(w: World, snap: Snapshot, rule: PolicyRule, m: MatchedRule, s: Surface)
    requires AnalyzedOk(w.analyzed) && ReportOf(w, snap, rule, m)
    ensures OnSurface(m, s) <==> RuleSeen(w.t, w.analyzed, rule, s)
  {
    hide AnalyzedOk, RuleSeen;
    RankBelow(s);
    if e :| e in m.surfaces && e.surface == s {
      var i :| 0 <= i < |m.surfaces| && m.surfaces[i] == e;
      assert EntryFor(w.t, w.analyzed, rule, false, m.surfaces[i]);
    }
  }

  lemma RankBelow(s: Surface)
    ensures Rank(s) < 6
  {
  }

  lemma CensoringMeans(w: World, policy: ContentPolicy, snap: Snapshot, matched: seq<MatchedRule>, s: Surface, b: nat)
    requires AnalyzedOk(w.analyzed) && ReportsAll(w, policy, snap, matched)
    ensures (exists m, x :: m in matched && HasKind(m, CensorMatch) && SpanOn(m, s, x) && In(x, b)) <==> CensorsThere(w, policy, s, b)
  {
    hide AnalyzedOk, SeenAt, ReportOf, ReportsAll, Has, HasKind, SpanOn;
    if m, x :| m in matched && HasKind(m, CensorMatch) && SpanOn(m, s, x) && In(x, b) {
      var rule := Reporting(w, policy, snap, matched, m);
      ReportHas(w, snap, rule, m, CensorMatch);
      SpanSeen(w, snap, rule, m, s, x);
    }
    if CensorsThere(w, policy, s, b) {
      var rule, p, q :| rule in policy.rules && rule.enabled && Has(rule, CensorMatch) && s in rule.surfaces
        && p in rule.patterns && SeenAt(w.t, w.analyzed, s, p, q) && q.start <= b < q.end;
      assert RuleSeen(w.t, w.analyzed, rule, s);
      var m := ReportIn(w, policy, snap, matched, rule);
      ReportHas(w, snap, rule, m, CensorMatch);
      SpanSeen(w, snap, rule, m, s, q);
    }
  }

  /** A rule with CENSOR_MATCH reports exactly the spans at which its patterns are seen. */
  lemma SpanSeen(w: World, snap: Snapshot, rule: PolicyRule, m: MatchedRule, s: Surface, x: ByteSpan)
    requires AnalyzedOk(w.analyzed) && ReportOf(w, snap, rule, m) && Has(rule, CensorMatch)
    ensures SpanOn(m, s, x) <==> s in rule.surfaces && exists p :: p in rule.patterns && SeenAt(w.t, w.analyzed, s, p, x)
  {
    hide AnalyzedOk, SeenAt, EntriesFor;
    if e :| e in m.surfaces && e.surface == s && x in e.spans {
      EntryIsFor(w, rule, m.surfaces, e);
    }
    if p :| p in rule.patterns && s in rule.surfaces && SeenAt(w.t, w.analyzed, s, p, x) {
      assert RuleSeen(w.t, w.analyzed, rule, s);
      var e := EntryOn(w, rule, m.surfaces, s);
    }
  }

  lemma EntryIsFor(w: World, rule: PolicyRule, entries: seq<MatchedSurface>, e: MatchedSurface)
    requires AnalyzedOk(w.analyzed) && EntriesFor(w.t, w.analyzed, rule, false, 6, entries) && e in entries
    ensures EntryFor(w.t, w.analyzed, rule, false, e)
  {
    hide AnalyzedOk, EntryFor;
    var i :| 0 <= i < |entries| && entries[i] == e;
  }

  lemma EntryOn(w: World, rule: PolicyRule, entries: seq<MatchedSurface>, s: Surface) returns (e: MatchedSurface)
    requires AnalyzedOk(w.analyzed) && EntriesFor(w.t, w.analyzed, rule, false, 6, entries) && RuleSeen(w.t, w.analyzed, rule, s)
    ensures e in entries && e.surface == s && EntryFor(w.t, w.analyzed, rule, false, e)
  {
    hide AnalyzedOk, EntryFor, RuleSeen;
    RankBelow(s);
    var i :| 0 <= i < |entries| && entries[i].surface == s;
    e := entries[i];
  }

  lemma AnyWithMeans(w: World, policy: ContentPolicy, snap: Snapshot, matched: seq<MatchedRule>, kind: ActionType)
    requires AnalyzedOk(w.analyzed) && ReportsAll(w, policy, snap, matched)
    ensures RuleWith(matched, kind) <==> AnyWith(w, policy, kind)
  {
    hide AnalyzedOk, Matching, ReportOf, ReportsAll, Has, HasKind;
    if m :| m in matched && HasKind(m, kind) {
      var rule := Reporting(w, policy, snap, matched, m);
      ReportHas(w, snap, rule, m, kind);
    }
    if rule :| Matching(w, policy, rule) && Has(rule, kind) {
      var m := ReportIn(w, policy, snap, matched, rule);
      ReportHas(w, snap, rule, m, kind);
    }
  }

  ghost function CensoredScalars(w: World, policy: ContentPolicy, s: Surface, text: string): set<nat>
    requires AnalyzedOk(w.analyzed)
  {
    set i: nat | i < |text| && CensoredFor(w, policy, s, Offset(text, i))
  }

  /**
   * How a server's members see a name: as the shared layers replace it; else,
   * where a rule of the server replaces it, as the safe name; else masked.
   */
  ghost predicate NameDelivered(w: World, policy: ContentPolicy, s: Surface, text: string, shown: string)
    requires AnalyzedOk(w.analyzed)
  {
    && (s in w.shared.nameReplacements ==> shown == w.shared.nameReplacements[s].replacement)
    && (s !in w.shared.nameReplacements && Replaces(w, policy, s) ==> shown == "InterChat User")
    && (s !in w.shared.nameReplacements && !Replaces(w, policy, s) ==> MaskedText(text, CensoredScalars(w, policy, s, text), shown))
  }

  ghost predicate Stripped(w: World, policy: ContentPolicy)
    requires AnalyzedOk(w.analyzed)
  {
    w.shared.stripLinks || AnyWith(w, policy, StripLink)
  }

  /** How they see the message: masked, or, where links are stripped, what is left of it masked. */
  ghost predicate MessageDelivered(w: World, policy: ContentPolicy, shown: string)
    requires AnalyzedOk(w.analyzed)
  {
    var text := w.presentation.messageContent;
    && (!Stripped(w, policy) ==> MaskedText(text, CensoredScalars(w, policy, MessageContent, text), shown))
    && (Stripped(w, policy) ==> exists spans :: CensorRuns(w, policy, spans) && StrippedShown(text, spans, w.presentation.urlSpans, shown))
  }

  /** The runs of the message's censored bytes. */
  ghost predicate CensorRuns(w: World, policy: ContentPolicy, spans: seq<ByteSpan>)
    requires AnalyzedOk(w.analyzed)
  {
    Canonical(spans) && forall b :: Covers(spans, b) <==> CensoredFor(w, policy, MessageContent, b)
  }

  /** What a server's members get to see, field by field. */
  ghost predicate VariantFor(w: World, policy: ContentPolicy, v: DeliveryVariant)
    requires AnalyzedOk(w.analyzed)
  {
    var p := w.presentation;
    && MessageDelivered(w, policy, v.messageContent)
    && NameDelivered(w, policy, DisplayName, p.displayName, v.displayName)
    && NameDelivered(w, policy, Username, p.username, v.username)
    && NameDelivered(w, policy, ServerName, p.serverName, v.serverName)
    && NameDelivered(w, policy, HubName, p.hubName, v.hubName)
    && (v.suppressLinks <==> w.shared.suppressLinks || AnyWith(w, policy, SuppressLinks))
  }

  /** The composed effects of a server below GLOBAL, in terms of its policy. */
  ghost predicate EffectsFor(w: World, policy: ContentPolicy, e: DeliveryEffects, s: Surface)
    requires AnalyzedOk(w.analyzed)
  {
    && (e.stripLinks <==> Stripped(w, policy))
    && (e.suppressLinks <==> w.shared.suppressLinks || AnyWith(w, policy, SuppressLinks))
    && (s in e.nameReplacements <==> s in w.shared.nameReplacements || (IsNameSurface(s) && Replaces(w, policy, s)))
    && (s in w.shared.nameReplacements ==> s in e.nameReplacements && e.nameReplacements[s] == w.shared.nameReplacements[s])
    && (s !in w.shared.nameReplacements && s in e.nameReplacements ==> e.nameReplacements[s].replacement == "InterChat User")
    && Canonical(SpansAt(e.censorSpans, s)) && forall b :: Covers(SpansAt(e.censorSpans, s), b) <==> CensoredFor(w, policy, s, b)
  }

  lemma LocalNames(w: World, policy: ContentPolicy, snap: Snapshot, matched: seq<MatchedRule>, s: Surface)
    requires AnalyzedOk(w.analyzed) && ReportsAll(w, policy, snap, matched) && snap.scope.authority != Global
    ensures var names := Resolved(snap.scope, matched).delivery.nameReplacements;
      && (s in names <==> IsNameSurface(s) && Replaces(w, policy, s)) && (s in names ==> names[s].replacement == "InterChat User")
  {
    hide AnalyzedOk, ReportsAll, Resolved, Replaces, ReplacesOn;
    ReplacementMeans(snap.scope, matched, s);
    ReplacedMeans(w, policy, snap, matched, s);
  }

  lemma LocalCensors(w: World, policy: ContentPolicy, snap: Snapshot, matched: seq<MatchedRule>, s: Surface)
    requires AnalyzedOk(w.analyzed) && ReportsAll(w, policy, snap, matched) && ProperMatches(matched)
    requires Resolved(snap.scope, matched).delivery.blockedBy == []
    ensures var spans := SpansAt(Resolved(snap.scope, matched).delivery.censorSpans, s);
      Canonical(spans) && forall b :: Covers(spans, b) <==> CensorsThere(w, policy, s, b)
  {
    hide AnalyzedOk, ReportsAll, ProperMatches, Resolved, CensorsThere, Canonical, Covers, SpanOn, HasKind, SpansAt;
    CensorsMean(snap.scope, matched, s);
    forall b: nat ensures Covers(SpansAt(Resolved(snap.scope, matched).delivery.censorSpans, s), b) <==> CensorsThere(w, policy, s, b) {
      CensoringMeans(w, policy, snap, matched, s, b);
    }
  }

  lemma LocalFlags(w: World, policy: ContentPolicy, snap: Snapshot, matched: seq<MatchedRule>)
    requires AnalyzedOk(w.analyzed) && ReportsAll(w, policy, snap, matched)
    ensures var e := Resolved(snap.scope, matched).delivery;
      && (e.stripLinks <==> AnyWith(w, policy, StripLink)) && (e.suppressLinks <==> AnyWith(w, policy, SuppressLinks))
      && (e.blockedBy != [] <==> AnyWith(w, policy, Block))
  {
    hide AnalyzedOk, ReportsAll, Resolved, AnyWith, RuleWith;
    ResolvedFlags(snap.scope, matched);
    AnyWithMeans(w, policy, snap, matched, StripLink);
    AnyWithMeans(w, policy, snap, matched, SuppressLinks);
    AnyWithMeans(w, policy, snap, matched, Block);
  }

  lemma TwoFlags(x: DeliveryEffects, y: DeliveryEffects)
    ensures var d := Composed([x, y]);
      && (d.stripLinks <==> x.stripLinks || y.stripLinks) && (d.suppressLinks <==> x.suppressLinks || y.suppressLinks)
      && (d.blockedBy == [] <==> x.blockedBy == [] && y.blockedBy == [])
  {
    hide Composed;
    var layers := [x, y];
    forall a ensures a in Composed(layers).blockedBy <==> a in x.blockedBy || a in y.blockedBy {
      ComposedFlags(layers, a);
      assert layers[0] == x && layers[1] == y;
    }
    var d := Composed(layers);
    if d.blockedBy != [] { assert d.blockedBy[0] in d.blockedBy; }
    if x.blockedBy != [] { assert x.blockedBy[0] in d.blockedBy; }
    if y.blockedBy != [] { assert y.blockedBy[0] in d.blockedBy; }
    ComposedFlags(layers, Attribution(0, 0, PolicyScope(Global, ""), 0, "", None));
    assert layers[0] == x && layers[1] == y;
  }

  lemma TwoNames(x: DeliveryEffects, y: DeliveryEffects, s: Surface)
    ensures var names := Composed([x, y]).nameReplacements;
      && (s in names <==> s in x.nameReplacements || s in y.nameReplacements)
      && (s in x.nameReplacements ==> s in names && names[s] == x.nameReplacements[s])
      && (s !in x.nameReplacements && s in names ==> s in y.nameReplacements && names[s] == y.nameReplacements[s])
  {
    hide Composed;
    var layers := [x, y];
    ComposedNames(layers, s);
    assert layers[0] == x && layers[1] == y;
  }

  lemma TwoCensors(x: DeliveryEffects, y: DeliveryEffects, s: Surface)
    requires x.blockedBy == [] && y.blockedBy == [] && NonEmpty(SpansAt(x.censorSpans, s)) && NonEmpty(SpansAt(y.censorSpans, s))
    ensures var spans := SpansAt(Composed([x, y]).censorSpans, s);
      Canonical(spans) && forall b :: Covers(spans, b) <==> Covers(SpansAt(x.censorSpans, s), b) || Covers(SpansAt(y.censorSpans, s), b)
  {
    hide Composed, Canonical, Covers, NonEmpty, SpansAt;
    var layers := [x, y];
    assert layers[0] == x && layers[1] == y;
    TwoFlags(x, y);
    ComposedCensors(layers, s);
  }

  /** What the composed effects of a server below GLOBAL do, in terms of its policy. */
  lemma EffectsMean(w: World, policy: ContentPolicy, snap: Snapshot, s: Surface)
    requires AnalyzedOk(w.analyzed) && CompiledFrom(w.t, policy, false, snap) && snap.scope.authority != Global
    requires w.shared.blockedBy == [] && LocalScope(w, snap).delivery.blockedBy == [] && NonEmpty(SpansAt(w.shared.censorSpans, s))
    ensures EffectsFor(w, policy, Composed([w.shared, LocalScope(w, snap).delivery]), s)
  {
    hide AnalyzedOk, SurfacesCompiled, RulesOf, Evaluated, Resolved, Composed, ReportsAll, ProperMatches, Canonical, Covers, NonEmpty, SpansAt,
      Replaces, AnyWith, CensorsThere, ProfileFingerprint;
    var matched := Evaluated(w.t, w.analyzed, snap, false);
    var local := Resolved(snap.scope, matched).delivery;
    MatchedMeans(w, policy, snap);
    EvaluatedProper(w.t, w.analyzed, snap);
    LocalFlags(w, policy, snap, matched);
    LocalNames(w, policy, snap, matched, s);
    LocalCensors(w, policy, snap, matched, s);
    CanonicalNonEmpty(SpansAt(local.censorSpans, s));
    TwoFlags(w.shared, local);
    TwoNames(w.shared, local, s);
    TwoCensors(w.shared, local, s);
  }

  lemma NameFor(w: World, policy: ContentPolicy, e: DeliveryEffects, s: Surface, text: string, shown: string)
    requires AnalyzedOk(w.analyzed) && IsName(s) && EffectsFor(w, policy, e, s) && NameShown(e, s, text, shown)
    ensures NameDelivered(w, policy, s, text, shown)
  {
    hide AnalyzedOk, CensoredFor, Replaces, Covers, Canonical, Stripped, AnyWith, MaskedText, SpansAt;
    assert CoveredScalars(text, SpansAt(e.censorSpans, s)) == CensoredScalars(w, policy, s, text);
  }

  lemma MessageFor(w: World, policy: ContentPolicy, e: DeliveryEffects, shown: string)
    requires AnalyzedOk(w.analyzed) && EffectsFor(w, policy, e, MessageContent) && MessageShown(w.presentation, e, shown)
    ensures MessageDelivered(w, policy, shown)
  {
    hide AnalyzedOk, CensoredFor, Replaces, Covers, Canonical, Stripped, AnyWith, MaskedText, SpansAt, StrippedShown;
    var text, spans := w.presentation.messageContent, SpansAt(e.censorSpans, MessageContent);
    assert CoveredScalars(text, spans) == CensoredScalars(w, policy, MessageContent, text);
    assert CensorRuns(w, policy, spans);
  }

  lemma FitNonEmpty(p: Presentation, e: DeliveryEffects, s: Surface)
    requires FittingEffects(p, e) && s != UrlDomain
    ensures NonEmpty(SpansAt(e.censorSpans, s))
  {
    hide SpansAt, IsBoundary;
  }

  /** The variant made for a server shows each text as its policy's matching rules have it. */
  lemma VariantIsFor(w: World, policy: ContentPolicy, snap: Snapshot)
    requires AnalyzedOk(w.analyzed) && WorldFits(w) && CompiledFrom(w.t, policy, false, snap) && snap.scope.authority != Global
    requires w.shared.blockedBy == [] && LocalScope(w, snap).delivery.blockedBy == []
    ensures var e := Composed([w.shared, LocalScope(w, snap).delivery]);
      Materialized(w.presentation, e).Ok? && VariantFor(w, policy, Materialized(w.presentation, e).value)
  {
    hide AnalyzedOk, CompiledFrom, LocalScope, Composed, Materialized, FittingEffects, EffectsFor, NameShown, MessageShown, NameDelivered,
      MessageDelivered, NonEmpty, AllValid;
    var layers := [w.shared, LocalScope(w, snap).delivery];
    var e, p := Composed(layers), w.presentation;
    LocalFits(w, snap);
    ComposedFits(p, layers);
    VariantMeans(p, e);
    var v := Materialized(p, e).value;
    forall s | s != UrlDomain ensures EffectsFor(w, policy, e, s) {
      FitNonEmpty(p, w.shared, s);
      EffectsMean(w, policy, snap, s);
    }
    MessageFor(w, policy, e, v.messageContent);
    NameFor(w, policy, e, DisplayName, p.displayName, v.displayName);
    NameFor(w, policy, e, Username, p.username, v.username);
    NameFor(w, policy, e, ServerName, p.serverName, v.serverName);
    NameFor(w, policy, e, HubName, p.hubName, v.hubName);
    FlagsFor(w, policy, e);
  }

  lemma FlagsFor(w: World, policy: ContentPolicy, e: DeliveryEffects)
    requires AnalyzedOk(w.analyzed) && EffectsFor(w, policy, e, MessageContent)
    ensures e.suppressLinks <==> w.shared.suppressLinks || AnyWith(w, policy, SuppressLinks)
  {
    hide AnalyzedOk, Canonical, Covers, CensoredFor, AnyWith, Replaces;
  }

  lemma LocalFits(w: World, snap: Snapshot)
    requires AnalyzedOk(w.analyzed) && WorldFits(w)
    ensures FittingEffects(w.presentation, LocalScope(w, snap).delivery) && AllValid(w.presentation.messageContent, w.presentation.urlSpans)
  {
    hide FittingEffects, Evaluated, Resolved, AllValid;
    LayerFits(w.t, w.analyzed, w.presentation, snap);
  }

  /** The outcome has no variant exactly when a matching rule blocks; otherwise it refers to its variant, which shows what the rules ask for. */
  ghost predicate OutcomeFor(w: World, policy: ContentPolicy, o: Outcome)
    requires AnalyzedOk(w.analyzed)
  {
    && (o.variant.None? <==> AnyWith(w, policy, Block))
    && (o.variant.None? ==> o.decision.variantFingerprint == None)
    && (o.variant.Some? ==> o.decision.variantFingerprint == Some(o.variant.value.fingerprint) && VariantFor(w, policy, o.variant.value))
  }

  /**
   * A server below GLOBAL gets no variant exactly when a matching rule of its
   * policy blocks; otherwise its variant shows what the matching rules ask for.
   */
  lemma DeliveryMeans(w: World, policy: ContentPolicy, d: Destination)
    requires AnalyzedOk(w.analyzed) && WorldFits(w) && w.shared.blockedBy == [] && d.serverId in w.store
    requires CompiledFrom(w.t, policy, false, w.store[d.serverId]) && w.store[d.serverId].scope.authority != Global
    ensures DecideAlone(w, d).Ok? && OutcomeFor(w, policy, DecideAlone(w, d).value)
  {
    hide AnalyzedOk, WorldFits, CompiledFrom, LocalScope, Composed, Materialized, VariantFor, AnyWith, RuleIds;
    AnalyzedNeverFails(w, d);
    var snap := w.store[d.serverId];
    TwoFlags(w.shared, LocalScope(w, snap).delivery);
    LocalBlocks(w, policy, snap);
    if LocalScope(w, snap).delivery.blockedBy == [] {
      VariantIsFor(w, policy, snap);
    }
  }

  lemma LocalBlocks(w: World, policy: ContentPolicy, snap: Snapshot)
    requires AnalyzedOk(w.analyzed) && CompiledFrom(w.t, policy, false, snap)
    ensures LocalScope(w, snap).delivery.blockedBy != [] <==> AnyWith(w, policy, Block)
  {
    hide AnalyzedOk, SurfacesCompiled, RulesOf, Evaluated, Resolved, ReportsAll, AnyWith, ProfileFingerprint;
    MatchedMeans(w, policy, snap);
    LocalFlags(w, policy, snap, Evaluated(w.t, w.analyzed, snap, false));
  }
}
