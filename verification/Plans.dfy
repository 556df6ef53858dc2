/**
 * engine.rs: the hub and call plans. A GLOBAL or HUB block is terminal for
 * every destination; otherwise each destination is decided exactly as if its
 * authority layers were composed at once.
 */
module Plans {
  import opened Wrappers
  import opened Sorting
  import opened Spans
  import opened PolicyModel
  import opened TextTables
  import opened ByteEncoding
  import opened Resolver
  import opened Layers
  import opened Compiler
  import opened Evaluation
  import opened TwoPass
  import opened Delivery
  import opened Remapping
  import opened Rendering
  import opened Fitting
  import opened Engine

  datatype PolicyStore = PolicyStore(global: Option<Snapshot>, hubs: map<string, Snapshot>, servers: map<string, Snapshot>)

  datatype SenderFeedback =
    | GlobalSafetyBlock | CallSafetyBlock | HubModerationBlock(customReason: Option<string>) | ServerFilters(count: nat)

  datatype HubPlan = HubPlan(
    global: ResolvedScope, hub: ResolvedScope, destinations: seq<DestinationDecision>,
    variants: map<seq<Byte>, DeliveryVariant>, sideEffects: seq<SideEffect>, feedback: Option<SenderFeedback>, profiles: nat)

  const GLOBAL_SCOPE := PolicyScope(Global, "")

  /** One analysed message: its views, its URLs, and the cooldown's answers. */
  datatype Message = Message(t: Tables, analyzed: Analyzed, canonical: Presentation, urls: seq<ByteSpan>, allow: SideEffect -> bool)

  /** The order of two digests, which SHA-256 leaves unspecified. */
  type DigestOrder = (seq<Byte>, seq<Byte>) -> bool

  /** The policies behind the stored snapshots, and what the store guarantees about them. */
  datatype Policies = Policies(global: ContentPolicy, hubs: map<string, ContentPolicy>, servers: map<string, ContentPolicy>)

  ghost predicate StoreOk(t: Tables, store: PolicyStore, policies: Policies) {
    && (store.global.Some? ==> CompiledFrom(t, policies.global, false, store.global.value))
    && (forall h :: h in store.hubs ==> h in policies.hubs && CompiledFrom(t, policies.hubs[h], false, store.hubs[h]))
    && StoreCompiled(t, store.servers, policies.servers) && IdsIdentify(store.servers)
    && ProfilesAgree(t, store.servers, policies.servers)
  }

  function Lookup(snapshots: map<string, Snapshot>, id: string): Option<Snapshot> {
    if id in snapshots then Some(snapshots[id]) else None
  }

  /** `evaluate_snapshot`: an absent policy matches nothing. */
  ghost function ScopeDecision(m: Message, scope: PolicyScope, snap: Option<Snapshot>): ResolvedScope
    requires AnalyzedOk(m.analyzed)
  {
    if snap.Some? then Resolved(snap.value.scope, Evaluated(m.t, m.analyzed, snap.value, false)) else Resolved(scope, [])
  }

  method EvaluateSnapshot(m: Message, scope: PolicyScope, snap: Option<Snapshot>, ghost policy: ContentPolicy)
    returns (r: ResolvedScope)
    requires AnalyzedOk(m.analyzed) && (snap.Some? ==> CompiledFrom(m.t, policy, false, snap.value))
    ensures r == ScopeDecision(m, scope, snap)
  {
    hide AnalyzedOk, CompiledFrom, Resolved, Evaluated;
    if snap.Some? {
      var matches := EvaluateNormalized(m.t, m.analyzed, snap.value, policy, false);
      r := ResolveScope(snap.value.scope, matches.value);
    } else {
      r := ResolveScope(scope, []);
    }
  }

  function Allowed(m: Message, requests: seq<SideEffect>): (r: seq<SideEffect>)
    ensures forall x :: x in r <==> x in requests && m.allow(x)
  {
    if requests == [] then []
    else (if m.allow(requests[0]) then [requests[0]] else []) + Allowed(m, requests[1..])
  }

  /** The decision of every destination under a terminal block. */
  function Terminal(blockedBy: seq<Attribution>): Destination -> DestinationDecision {
    (d: Destination) => DestinationDecision(d.targetIndex, d.serverId, None, None, [], blockedBy, None)
  }

  /** The first custom reason among the attributions, if any. */
  function FirstReason(blockedBy: seq<Attribution>): (r: Option<string>)
    ensures r.Some? ==> exists i :: 0 <= i < |blockedBy| && blockedBy[i].customReason == r
    ensures r.None? ==> forall i :: 0 <= i < |blockedBy| ==> blockedBy[i].customReason.None?
  {
    if blockedBy == [] then None
    else if blockedBy[0].customReason.Some? then blockedBy[0].customReason
    else
      var rest := FirstReason(blockedBy[1..]);
      assert forall i :: 0 <= i < |blockedBy[1..]| ==> blockedBy[1..][i] == blockedBy[i + 1];
      assert forall i :: 0 < i < |blockedBy| ==> blockedBy[i] == blockedBy[1..][i - 1];
      rest
  }

  /** What the server stage sees: URLs from the analysis, and the effects of the shared layers. */
  function Shared(m: Message, store: PolicyStore, shared: DeliveryEffects): World {
    World(m.t, m.analyzed, m.canonical.(urlSpans := m.urls), shared, store.servers)
  }

  function CountBlocked(decisions: seq<DestinationDecision>): nat {
    if decisions == [] then 0 else CountBlocked(decisions[..|decisions| - 1]) + (if decisions[|decisions| - 1].blockedBy != [] then 1 else 0)
  }

  function FilterFeedback(decisions: seq<DestinationDecision>): Option<SenderFeedback> {
    if CountBlocked(decisions) > 0 then Some(ServerFilters(CountBlocked(decisions))) else None
  }

  method CountFiltered(decisions: seq<DestinationDecision>) returns (n: nat)
    ensures n == CountBlocked(decisions)
  {
    n := 0;
    for i := 0 to |decisions|
      invariant n == CountBlocked(decisions[..i])
    {
      assert decisions[..i + 1][..i] == decisions[..i];
      if decisions[i].blockedBy != [] {
        n := n + 1;
      }
    }
    assert decisions[..|decisions|] == decisions;
  }

  /** The server stage of a plan, in the world of its shared layers. */
  ghost predicate ServerStage(w: World, ds: seq<Destination>, decisions: seq<DestinationDecision>, variants: map<seq<Byte>, DeliveryVariant>)
    requires AnalyzedOk(w.analyzed)
  {
    Returned(Alone(w), ds, decisions, variants)
  }

  ghost function GlobalDecision(m: Message, store: PolicyStore): ResolvedScope
    requires AnalyzedOk(m.analyzed)
  {
    ScopeDecision(m, GLOBAL_SCOPE, store.global)
  }

  ghost function HubDecision(m: Message, store: PolicyStore, hubId: string): ResolvedScope
    requires AnalyzedOk(m.analyzed)
  {
    ScopeDecision(m, PolicyScope(Hub, hubId), Lookup(store.hubs, hubId))
  }

  function TerminalHubPlan(g: ResolvedScope, h: ResolvedScope, blockers: seq<Attribution>, ds: seq<Destination>,
                           feedback: SenderFeedback, effects: seq<SideEffect>): HubPlan {
    HubPlan(g, h, MapSeq(Terminal(blockers), ds), map[], effects, Some(feedback), 0)
  }

  /** The plan once GLOBAL lets the message through. */
  ghost predicate PlannedBelowGlobal(m: Message, store: PolicyStore, g: ResolvedScope, h: ResolvedScope, ds: seq<Destination>, plan: HubPlan)
    requires AnalyzedOk(m.analyzed)
  {
    var effects := Allowed(m, g.sideEffects) + Allowed(m, h.sideEffects);
    if h.delivery.IsBlocked() then
      plan == TerminalHubPlan(g, h, h.delivery.blockedBy, ds, HubModerationBlock(FirstReason(h.delivery.blockedBy)), effects)
    else
      && plan.global == g && plan.hub == h && plan.sideEffects == effects
      && ServerStage(Shared(m, store, Composed([g.delivery, h.delivery])), ds, plan.destinations, plan.variants)
      && plan.feedback == FilterFeedback(plan.destinations) && plan.profiles == |Profiles(store.servers, ds)|
  }

  ghost predicate HubPlanned(m: Message, store: PolicyStore, hubId: string, ds: seq<Destination>, plan: HubPlan)
    requires AnalyzedOk(m.analyzed)
  {
    var g := GlobalDecision(m, store);
    if g.delivery.IsBlocked() then
      plan == TerminalHubPlan(g, Resolved(PolicyScope(Hub, hubId), []), g.delivery.blockedBy, ds, GlobalSafetyBlock, Allowed(m, g.sideEffects))
    else PlannedBelowGlobal(m, store, g, HubDecision(m, store, hubId), ds, plan)
  }

  lemma SharedWorld(m: Message, store: PolicyStore, policies: Policies, shared: DeliveryEffects)
    requires AnalyzedOk(m.analyzed) && StoreOk(m.t, store, policies) && !shared.IsBlocked()
    ensures WorldOk(Shared(m, store, shared), policies.servers)
  {
    hide AnalyzedOk, StoreCompiled, IdsIdentify, ProfilesAgree, CompiledFrom;
  }

  lemma {:induction false} LayeredUnblocked(layers: seq<DeliveryEffects>)
    ensures Layered(layers).IsBlocked() <==> exists i :: 0 <= i < |layers| && layers[i].IsBlocked()
  {
    hide JoinSpans;
    if layers != [] {
      LayeredUnblocked(layers[..|layers| - 1]);
    }
  }

  lemma ComposedUnblocked(layers: seq<DeliveryEffects>)
    ensures Composed(layers).IsBlocked() <==> exists i :: 0 <= i < |layers| && layers[i].IsBlocked()
  {
    LayeredUnblocked(layers);
    SortEmpty(Layered(layers).blockedBy);
    hide Sort, Layered, Finish;
  }

  /** The error of a failed stage is that of some destination decided alone. */
  ghost predicate StageFails(w: World, ds: seq<Destination>, e: EvaluationError)
    requires AnalyzedOk(w.analyzed)
  {
    Fails(Alone(w), ds, e)
  }

  /** The message's views and URLs come from its analysis. */
  ghost predicate MessageAnalyzed(m: Message) { AnalyzedFrom(m.analyzed, m.canonical.(urlSpans := m.urls)) }

  /** No stage of an analyzed message fails. */
  lemma StageFits(m: Message, store: PolicyStore, shared: DeliveryEffects, ds: seq<Destination>, e: EvaluationError)
    requires AnalyzedOk(m.analyzed) && MessageAnalyzed(m) && FittingEffects(m.canonical.(urlSpans := m.urls), shared)
    ensures !StageFails(Shared(m, store, shared), ds, e)
  {
    hide AnalyzedOk, Alone, Fails, FittingEffects, AnalyzedFrom;
    NoneFails(Shared(m, store, shared));
    NoFailure(Shared(m, store, shared), ds, e);
  }

  lemma ScopeFits(m: Message, scope: PolicyScope, snap: Option<Snapshot>)
    requires AnalyzedOk(m.analyzed) && MessageAnalyzed(m)
    ensures FittingEffects(m.canonical.(urlSpans := m.urls), ScopeDecision(m, scope, snap).delivery)
  {
    hide AnalyzedOk, FittingEffects, Resolved, Evaluated, AnalyzedFrom, FittingMatches;
    var p := m.canonical.(urlSpans := m.urls);
    if snap.Some? {
      LayerFits(m.t, m.analyzed, p, snap.value);
    } else {
      NoMatchesFit(p);
      ResolvedFits(p, scope, []);
    }
  }

  lemma NoMatchesFit(p: Presentation)
    ensures FittingMatches(p, [])
  {
  }

  method DecideDestinations(m: Message, store: PolicyStore, ghost policies: Policies, shared: DeliveryEffects, ds: seq<Destination>)
    returns (out: Result<(seq<DestinationDecision>, map<seq<Byte>, DeliveryVariant>, nat), EvaluationError>)
    requires AnalyzedOk(m.analyzed) && StoreOk(m.t, store, policies) && !shared.IsBlocked()
    ensures out.Ok? ==> ServerStage(Shared(m, store, shared), ds, out.value.0, out.value.1)
    ensures out.Ok? ==> out.value.2 == |Profiles(store.servers, ds)|
    ensures out.Err? ==> StageFails(Shared(m, store, shared), ds, out.error)
  {
    hide AnalyzedOk, StoreOk, Alone, Grouped, Returned, Fails, WorldOk, Evaluable, Profiles, DeliveryEffects.IsBlocked;
    SharedWorld(m, store, policies, shared);
    WorldEvaluable(Shared(m, store, shared), policies.servers);
    out := EvaluateServerDestinations(Shared(m, store, shared), policies.servers, ds);
  }

  method PlanBelowGlobal(m: Message, store: PolicyStore, ghost policies: Policies, g: ResolvedScope, h: ResolvedScope, ds: seq<Destination>)
    returns (out: Result<HubPlan, EvaluationError>)
    requires AnalyzedOk(m.analyzed) && StoreOk(m.t, store, policies) && !g.delivery.IsBlocked()
    ensures out.Ok? ==> PlannedBelowGlobal(m, store, g, h, ds, out.value)
    ensures out.Err? ==> StageFails(Shared(m, store, Composed([g.delivery, h.delivery])), ds, out.error)
  {
    hide AnalyzedOk, StoreOk, StageFails, ServerStage, Composed, Profiles, CountBlocked, FirstReason, Allowed;
    var effects := Allowed(m, g.sideEffects) + Allowed(m, h.sideEffects);
    if h.delivery.IsBlocked() {
      return Ok(TerminalHubPlan(g, h, h.delivery.blockedBy, ds, HubModerationBlock(FirstReason(h.delivery.blockedBy)), effects));
    }
    TwoUnblocked(g.delivery, h.delivery);
    var shared := ComposeDelivery([g.delivery, h.delivery]);
    var stage := DecideDestinations(m, store, policies, shared, ds);
    if stage.Err? {
      return Err(stage.error);
    }
    var filtered := CountFiltered(stage.value.0);
    out := Ok(HubPlan(g, h, stage.value.0, stage.value.1, effects,
                      if filtered > 0 then Some(ServerFilters(filtered)) else None, stage.value.2));
  }

  /** `evaluate_hub`. */
  method EvaluateHub(m: Message, store: PolicyStore, ghost policies: Policies, hubId: string, ds: seq<Destination>)
    returns (out: Result<HubPlan, EvaluationError>)
    requires AnalyzedOk(m.analyzed) && StoreOk(m.t, store, policies)
    ensures out.Ok? ==> HubPlanned(m, store, hubId, ds, out.value)
    ensures out.Err? ==> StageFails(
      Shared(m, store, Composed([GlobalDecision(m, store).delivery, HubDecision(m, store, hubId).delivery])), ds, out.error)
    ensures MessageAnalyzed(m) ==> out.Ok?
  {
    hide AnalyzedOk, CompiledFrom, StoreOk, ScopeDecision, StageFails, PlannedBelowGlobal, Composed, TerminalHubPlan, Resolved, Allowed,
      DeliveryEffects.IsBlocked, MessageAnalyzed;
    HubParts(m, store, policies, hubId);
    var g := EvaluateSnapshot(m, GLOBAL_SCOPE, store.global, policies.global);
    if g.delivery.IsBlocked() {
      var none := ResolveScope(PolicyScope(Hub, hubId), []);
      return Ok(TerminalHubPlan(g, none, g.delivery.blockedBy, ds, GlobalSafetyBlock, Allowed(m, g.sideEffects)));
    }
    ghost var hubPolicy := if hubId in policies.hubs then policies.hubs[hubId] else policies.global;
    var h := EvaluateSnapshot(m, PolicyScope(Hub, hubId), Lookup(store.hubs, hubId), hubPolicy);
    out := PlanBelowGlobal(m, store, policies, g, h, ds);
    if MessageAnalyzed(m) && out.Err? {
      HubFits(m, store, hubId, ds, out.error);
    }
  }

  lemma HubFits(m: Message, store: PolicyStore, hubId: string, ds: seq<Destination>, e: EvaluationError)
    requires AnalyzedOk(m.analyzed) && MessageAnalyzed(m)
    ensures !StageFails(Shared(m, store, Composed([GlobalDecision(m, store).delivery, HubDecision(m, store, hubId).delivery])), ds, e)
  {
    hide AnalyzedOk, MessageAnalyzed, ScopeDecision, Composed, FittingEffects, StageFails, Shared;
    ScopeFits(m, GLOBAL_SCOPE, store.global);
    ScopeFits(m, PolicyScope(Hub, hubId), Lookup(store.hubs, hubId));
    var layers := [GlobalDecision(m, store).delivery, HubDecision(m, store, hubId).delivery];
    ComposedFits(m.canonical.(urlSpans := m.urls), layers);
    StageFits(m, store, Composed(layers), ds, e);
  }

  lemma TwoUnblocked(x: DeliveryEffects, y: DeliveryEffects)
    requires !x.IsBlocked() && !y.IsBlocked()
    ensures !Composed([x, y]).IsBlocked()
  {
    ComposedUnblocked([x, y]);
  }

  lemma HubParts(m: Message, store: PolicyStore, policies: Policies, hubId: string)
    requires StoreOk(m.t, store, policies)
    ensures store.global.Some? ==> CompiledFrom(m.t, policies.global, false, store.global.value)
    ensures hubId in store.hubs ==> hubId in policies.hubs && CompiledFrom(m.t, policies.hubs[hubId], false, store.hubs[hubId])
  {
    hide CompiledFrom, StoreCompiled, IdsIdentify, ProfilesAgree;
  }

  // ---- One composition of three layers ---------------------------------------------------

  lemma ResolvedProper(scope: PolicyScope, matched: seq<MatchedRule>)
    requires ProperMatches(matched)
    ensures ProperSpans(Resolved(scope, matched).delivery)
  {
    hide ProperMatches, Resolved, MergedSpans, Canonical, Covers, Touches, Reports, Censors, Steps, Sort;
    var e := Resolved(scope, matched).delivery;
    var c := Censors(Steps(Sort(matched, RuleLeq)));
    forall s | s in e.censorSpans ensures NonEmpty(e.censorSpans[s]) {
      CensorsOfDelivery(scope, matched, s);
      forall i | 0 <= i < |SpansAt(c, s)| ensures SpansAt(c, s)[i].start < SpansAt(c, s)[i].end {
        ResolvedCensors(scope, matched, s, SpansAt(c, s)[i]);
        ProperReports(matched, CensorMatch, s, SpansAt(c, s)[i]);
      }
      MergedCanonical(SpansAt(c, s));
      CanonicalNonEmpty(MergedSpans(SpansAt(c, s)));
    }
  }

  lemma NoMatchesProper()
    ensures ProperMatches([])
  {
  }

  lemma ScopeProper(m: Message, scope: PolicyScope, snap: Option<Snapshot>)
    requires AnalyzedOk(m.analyzed)
    ensures ProperSpans(ScopeDecision(m, scope, snap).delivery)
  {
    hide AnalyzedOk, ProperMatches, ProperSpans, Resolved, Evaluated;
    if snap.Some? {
      EvaluatedProper(m.t, m.analyzed, snap.value);
      ResolvedProper(snap.value.scope, Evaluated(m.t, m.analyzed, snap.value, false));
    } else {
      NoMatchesProper();
      ResolvedProper(scope, []);
    }
  }

  /** All the layers that apply to a destination of a hub, highest authority first. */
  ghost function HubLayers(m: Message, store: PolicyStore, hubId: string, server: Snapshot): seq<DeliveryEffects>
    requires AnalyzedOk(m.analyzed)
  {
    [GlobalDecision(m, store).delivery, HubDecision(m, store, hubId).delivery, ScopeDecision(m, server.scope, Some(server)).delivery]
  }

  /** The server layer added to the composed GLOBAL and HUB layers is the three layers composed at once. */
  lemma HubComposesThreeLayers(m: Message, store: PolicyStore, hubId: string, server: Snapshot)
    requires AnalyzedOk(m.analyzed)
    ensures Composed([Composed([GlobalDecision(m, store).delivery, HubDecision(m, store, hubId).delivery]),
                      ScopeDecision(m, server.scope, Some(server)).delivery])
         == Composed(HubLayers(m, store, hubId, server))
  {
    hide AnalyzedOk, ProperSpans, ScopeDecision, Composed;
    ScopeProper(m, GLOBAL_SCOPE, store.global);
    ScopeProper(m, PolicyScope(Hub, hubId), Lookup(store.hubs, hubId));
    ScopeProper(m, server.scope, Some(server));
    var g, h, s := GlobalDecision(m, store).delivery, HubDecision(m, store, hubId).delivery,
                   ScopeDecision(m, server.scope, Some(server)).delivery;
    ComposeInStages([g, h], [s]);
    assert [g, h] + [s] == [g, h, s];
    assert [Composed([g, h])] + [s] == [Composed([g, h]), s];
  }

  /**
   * A destination of a delivering hub plan: it is blocked exactly when its own
   * server blocks, and otherwise gets the presentation under all three layers.
   */
  lemma HubDestination(m: Message, store: PolicyStore, hubId: string, d: Destination)
    requires AnalyzedOk(m.analyzed) && d.serverId in store.servers
    requires !GlobalDecision(m, store).delivery.IsBlocked() && !HubDecision(m, store, hubId).delivery.IsBlocked()
    ensures var server := store.servers[d.serverId];
            var w := Shared(m, store, Composed([GlobalDecision(m, store).delivery, HubDecision(m, store, hubId).delivery]));
            var own := ScopeDecision(m, server.scope, Some(server));
      DecideAlone(w, d) == OutcomeUnder(w, Composed(HubLayers(m, store, hubId, server)), server, d, own)
      && (Composed(HubLayers(m, store, hubId, server)).IsBlocked() <==> own.delivery.IsBlocked())
  {
    hide AnalyzedOk, Resolved, Composed, OutcomeUnder, Evaluated, GlobalDecision, HubDecision;
    var server := store.servers[d.serverId];
    HubComposesThreeLayers(m, store, hubId, server);
    var layers := HubLayers(m, store, hubId, server);
    ComposedUnblocked(layers);
    assert !layers[0].IsBlocked() && !layers[1].IsBlocked();
    assert layers[2] == ScopeDecision(m, server.scope, Some(server)).delivery;
  }

  // ---- Calls ---------------------------------------------------------------------------

  datatype CallPlan = CallPlan(
    global: ResolvedScope, variant: Option<DeliveryVariant>, destinations: seq<DestinationDecision>,
    variants: map<seq<Byte>, DeliveryVariant>, sideEffects: seq<SideEffect>, feedback: Option<SenderFeedback>, profiles: nat)

  /** The variant with the least digest, if there is one. */
  ghost predicate IsFirst(leq: DigestOrder, variants: map<seq<Byte>, DeliveryVariant>, v: Option<DeliveryVariant>) {
    && (v == None <==> variants == map[])
    && (v.Some? ==> exists f :: f in variants && v.value == variants[f] && forall g :: g in variants ==> leq(f, g))
  }

  ghost predicate CallPlanned(m: Message, store: PolicyStore, leq: DigestOrder, ds: seq<Destination>, plan: CallPlan)
    requires AnalyzedOk(m.analyzed)
  {
    var g := GlobalDecision(m, store);
    plan.global == g && plan.sideEffects == Allowed(m, g.sideEffects) &&
    if g.delivery.IsBlocked() then
      plan == CallPlan(g, None, MapSeq(Terminal(g.delivery.blockedBy), ds), map[], Allowed(m, g.sideEffects), Some(CallSafetyBlock), 0)
    else
      && ServerStage(Shared(m, store, g.delivery), ds, plan.destinations, plan.variants)
      && plan.feedback == FilterFeedback(plan.destinations) && plan.profiles == |Profiles(store.servers, ds)|
      && IsFirst(leq, plan.variants, plan.variant)
  }

  /** `variants.values().next()`. */
  method FirstVariant(leq: DigestOrder, variants: map<seq<Byte>, DeliveryVariant>) returns (v: Option<DeliveryVariant>)
    requires TotalPreorder(leq)
    ensures IsFirst(leq, variants, v)
  {
    if variants == map[] {
      return None;
    }
    assert variants.Keys == {} ==> variants == map[];
    var first :| first in variants.Keys;
    var todo := variants.Keys;
    while todo != {}
      invariant first in variants && todo <= variants.Keys
      invariant forall g :: g in variants && g !in todo ==> leq(first, g)
      decreases todo
    {
      var g :| g in todo;
      if !leq(first, g) {
        first := g;
      }
      todo := todo - {g};
    }
    v := Some(variants[first]);
  }

  /** `evaluate_call_for_destinations`. */
  method EvaluateCallForDestinations(m: Message, store: PolicyStore, ghost policies: Policies, leq: DigestOrder, ds: seq<Destination>)
    returns (out: Result<CallPlan, EvaluationError>)
    requires AnalyzedOk(m.analyzed) && StoreOk(m.t, store, policies) && TotalPreorder(leq)
    ensures out.Ok? ==> CallPlanned(m, store, leq, ds, out.value)
    ensures out.Err? ==> StageFails(Shared(m, store, GlobalDecision(m, store).delivery), ds, out.error)
    ensures MessageAnalyzed(m) ==> out.Ok?
  {
    hide AnalyzedOk, CompiledFrom, StoreOk, ScopeDecision, StageFails, ServerStage, Composed, Resolved, Allowed, CountBlocked, MapSeq,
      DeliveryEffects.IsBlocked, MessageAnalyzed, IsFirst, TotalPreorder;
    GlobalPart(m, store, policies);
    var g := EvaluateSnapshot(m, GLOBAL_SCOPE, store.global, policies.global);
    if g.delivery.IsBlocked() {
      return Ok(CallPlan(g, None, MapSeq(Terminal(g.delivery.blockedBy), ds), map[], Allowed(m, g.sideEffects), Some(CallSafetyBlock), 0));
    }
    var stage := DecideDestinations(m, store, policies, g.delivery, ds);
    if stage.Err? {
      if MessageAnalyzed(m) {
        ScopeFits(m, GLOBAL_SCOPE, store.global);
        StageFits(m, store, g.delivery, ds, stage.error);
      }
      return Err(stage.error);
    }
    var filtered := CountFiltered(stage.value.0);
    var first := FirstVariant(leq, stage.value.1);
    out := Ok(CallPlan(g, first, stage.value.0, stage.value.1, Allowed(m, g.sideEffects),
                       if filtered > 0 then Some(ServerFilters(filtered)) else None, stage.value.2));
  }

  lemma GlobalPart(m: Message, store: PolicyStore, policies: Policies)
    requires StoreOk(m.t, store, policies)
    ensures store.global.Some? ==> CompiledFrom(m.t, policies.global, false, store.global.value)
  {
    hide CompiledFrom, StoreCompiled, IdsIdentify, ProfilesAgree;
  }
}
