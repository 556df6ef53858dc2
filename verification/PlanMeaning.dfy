/**
 * What a hub or call plan says: who blocked and why, what every destination is
 * told then, how many servers filtered the message, and which side effects pass.
 */
module PlanMeaning {
  import opened Wrappers
  import opened Sorting
  import opened PolicyModel
  import opened TextTables
  import opened ByteEncoding
  import opened Resolver
  import opened Layers
  import opened Compiler
  import opened Delivery
  import opened Engine
  import opened Plans
  import DecisionMeaning

  // ---- Side effects ------------------------------------------------------------------------------

  ghost predicate Rising(at: seq<nat>) { forall k, l :: 0 <= k < l < |at| ==> at[k] < at[l] }

  ghost predicate OnlyAllowed(m: Message, requests: seq<SideEffect>, at: seq<nat>) {
    forall k :: 0 <= k < |at| ==> at[k] < |requests| && m.allow(requests[at[k]])
  }

  ghost predicate EveryAllowed(m: Message, requests: seq<SideEffect>, at: seq<nat>) {
    forall i: nat :: i < |requests| && m.allow(requests[i]) ==> i in at
  }

  /** The positions of the allowed requests, in order. */
  ghost predicate AllowedAt(m: Message, requests: seq<SideEffect>, at: seq<nat>) {
    Rising(at) && OnlyAllowed(m, requests, at) && EveryAllowed(m, requests, at)
  }

  /** Exactly the requests that the cooldown allows pass, each where and as often as it was made. */
  lemma {:induction false} AllowedMeans(m: Message, requests: seq<SideEffect>) returns (at: seq<nat>)
    ensures AllowedAt(m, requests, at) && |Allowed(m, requests)| == |at|
    ensures forall k :: 0 <= k < |at| ==> Allowed(m, requests)[k] == requests[at[k]]
  {
    if requests == [] {
      at := [];
    } else {
      var rest := AllowedMeans(m, requests[1..]);
      at := (if m.allow(requests[0]) then [0] else []) + Later(rest);
      hide Allowed;
      AllowedLater(m, requests, rest);
      assert forall k :: 0 <= k < |rest| ==> requests[rest[k] + 1] == requests[1..][rest[k]];
    }
  }

  ghost function Later(at: seq<nat>): (r: seq<nat>)
    ensures |r| == |at| && forall k :: 0 <= k < |at| ==> r[k] == at[k] + 1
  {
    seq(|at|, k requires 0 <= k < |at| => at[k] + 1)
  }

  lemma AllowedLater(m: Message, requests: seq<SideEffect>, rest: seq<nat>)
    requires requests != [] && AllowedAt(m, requests[1..], rest)
    ensures AllowedAt(m, requests, (if m.allow(requests[0]) then [0] else []) + Later(rest))
  {
    var at := (if m.allow(requests[0]) then [0] else []) + Later(rest);
    assert OnlyAllowed(m, requests, at) by {
      hide EveryAllowed, Rising;
      assert forall k :: 0 <= k < |rest| ==> requests[rest[k] + 1] == requests[1..][rest[k]];
    }
    hide OnlyAllowed;
    assert Rising(at) by {
      hide EveryAllowed;
    }
    hide Rising;
    forall i: nat | i < |requests| && m.allow(requests[i]) ensures i in at {
      if i > 0 {
        EarlierAllowed(m, requests, rest, i);
        var k :| 0 <= k < |rest| && rest[k] == i - 1;
        assert Later(rest)[k] == i;
      }
    }
  }

  lemma EarlierAllowed(m: Message, requests: seq<SideEffect>, rest: seq<nat>, i: nat)
    requires 0 < i < |requests| && m.allow(requests[i]) && EveryAllowed(m, requests[1..], rest)
    ensures i - 1 in rest
  {
    assert requests[1..][i - 1] == requests[i];
  }

  // ---- Feedback ----------------------------------------------------------------------------------

  /** The reason given is that of the first attribution with one. */
  ghost predicate FirstGiven(blockedBy: seq<Attribution>, reason: Option<string>) {
    && (reason == None ==> forall i :: 0 <= i < |blockedBy| ==> blockedBy[i].customReason == None)
    && (reason != None ==> exists i :: 0 <= i < |blockedBy| && blockedBy[i].customReason == reason && NoneBefore(blockedBy, i))
  }

  ghost predicate NoneBefore(blockedBy: seq<Attribution>, n: nat) {
    forall j :: 0 <= j < n && j < |blockedBy| ==> blockedBy[j].customReason == None
  }

  lemma {:induction false} ReasonMeans(blockedBy: seq<Attribution>)
    ensures FirstGiven(blockedBy, FirstReason(blockedBy))
  {
    if blockedBy != [] && blockedBy[0].customReason == None {
      ReasonMeans(blockedBy[1..]);
      assert forall i :: 0 < i < |blockedBy| ==> blockedBy[i] == blockedBy[1..][i - 1];
      if FirstReason(blockedBy) != None {
        var i :| 0 <= i < |blockedBy| - 1 && blockedBy[1..][i].customReason == FirstReason(blockedBy) && NoneBefore(blockedBy[1..], i);
        assert blockedBy[i + 1].customReason == FirstReason(blockedBy) && NoneBefore(blockedBy, i + 1);
      }
    } else if blockedBy != [] {
      assert NoneBefore(blockedBy, 0);
    }
  }

  ghost function BlockedPositions(decisions: seq<DestinationDecision>): set<nat> {
    set i: nat | i < |decisions| && decisions[i].blockedBy != []
  }

  /** As many decisions are counted as have a blocker. */
  lemma {:induction false} CountMeans(decisions: seq<DestinationDecision>)
    ensures CountBlocked(decisions) == |BlockedPositions(decisions)|
  {
    if decisions != [] {
      var n := |decisions| - 1;
      CountMeans(decisions[..n]);
      assert BlockedPositions(decisions) == BlockedPositions(decisions[..n]) + if decisions[n].blockedBy != [] then {n} else {};
    }
  }

  /** The sender hears of server filters exactly when some server blocks, and how many do. */
  ghost predicate FiltersTold(decisions: seq<DestinationDecision>, feedback: Option<SenderFeedback>) {
    && (BlockedPositions(decisions) == {} ==> feedback == None)
    && (BlockedPositions(decisions) != {} ==> feedback == Some(ServerFilters(|BlockedPositions(decisions)|)))
  }

  lemma FeedbackMeans(decisions: seq<DestinationDecision>)
    ensures FiltersTold(decisions, FilterFeedback(decisions))
  {
    hide CountBlocked;
    CountMeans(decisions);
  }

  // ---- Plans ------------------------------------------------------------------------------------------

  /** Every destination, in the order asked, is refused by the blockers: it has no policy of its own, no rule and no variant. */
  ghost predicate AllRefused(ds: seq<Destination>, blockers: seq<Attribution>, decisions: seq<DestinationDecision>) {
    && |decisions| == |ds|
    && forall i :: 0 <= i < |ds| ==> decisions[i] == DestinationDecision(ds[i].targetIndex, ds[i].serverId, None, None, [], blockers, None)
  }

  /** No rule matched, and nothing is asked for. */
  ghost predicate NothingDecided(scope: PolicyScope, r: ResolvedScope) {
    && r.scope == scope && r.matchedRules == [] && r.sideEffects == []
    && r.delivery == DeliveryEffects([], map[], false, false, map[])
  }

  lemma EmptyDecision(scope: PolicyScope)
    ensures NothingDecided(scope, Resolved(scope, []))
  {
    NoRequests();
  }

  lemma NoRequests()
    ensures Strongest([]) == []
  {
  }

  lemma AllTerminal(ds: seq<Destination>, blockers: seq<Attribution>)
    ensures AllRefused(ds, blockers, MapSeq(Terminal(blockers), ds))
  {
  }

  /** A delivering stage answers every destination, by target index. */
  ghost predicate AllAnswered(w: World, ds: seq<Destination>, decisions: seq<DestinationDecision>)
    requires AnalyzedOk(w.analyzed)
  {
    && |decisions| == |ds| && (forall i, j :: 0 <= i < j < |decisions| ==> decisions[i].targetIndex <= decisions[j].targetIndex)
    && (forall d :: d in ds ==> DecideAlone(w, d).Ok? && DecideAlone(w, d).value.decision in decisions)
    && (forall x :: x in decisions ==> exists d :: d in ds && DecideAlone(w, d).Ok? && DecideAlone(w, d).value.decision == x)
  }

  lemma StageMeans(w: World, ds: seq<Destination>, decisions: seq<DestinationDecision>, variants: map<seq<Byte>, DeliveryVariant>)
    requires AnalyzedOk(w.analyzed) && ServerStage(w, ds, decisions, variants)
    ensures AllAnswered(w, ds, decisions)
  {
    hide AnalyzedOk, DecideAlone, Returned;
    DecisionMeaning.ReturnedInOrder(Alone(w), ds, decisions, variants);
    forall x | x in decisions ensures exists d :: d in ds && DecideAlone(w, d).Ok? && DecideAlone(w, d).value.decision == x {
      var d :| d in ds && Alone(w)(d).Ok? && Alone(w)(d).value.decision == x;
      assert DecideAlone(w, d) == Alone(w)(d);
    }
  }

  /** What every destination is told by the servers, and the sender with them, under the effects of the layers above. */
  ghost predicate ToldByServers(m: Message, store: PolicyStore, shared: DeliveryEffects, ds: seq<Destination>,
                                decisions: seq<DestinationDecision>, feedback: Option<SenderFeedback>)
    requires AnalyzedOk(m.analyzed)
  {
    AllAnswered(Shared(m, store, shared), ds, decisions) && FiltersTold(decisions, feedback)
  }

  /** What a hub plan says when GLOBAL blocks, when the hub does, and when neither does. */
  lemma HubMeans(m: Message, store: PolicyStore, hubId: string, ds: seq<Destination>, plan: HubPlan)
    requires AnalyzedOk(m.analyzed) && HubPlanned(m, store, hubId, ds, plan)
    ensures plan.global.delivery.blockedBy != [] ==>
      && plan.feedback == Some(GlobalSafetyBlock) && AllRefused(ds, plan.global.delivery.blockedBy, plan.destinations)
      && plan.variants == map[] && plan.profiles == 0 && NothingDecided(PolicyScope(Hub, hubId), plan.hub)
      && plan.sideEffects == Allowed(m, plan.global.sideEffects)
    ensures plan.global.delivery.blockedBy == [] && plan.hub.delivery.blockedBy != [] ==>
      && AllRefused(ds, plan.hub.delivery.blockedBy, plan.destinations) && plan.variants == map[] && plan.profiles == 0
      && plan.feedback.Some? && plan.feedback.value.HubModerationBlock?
      && FirstGiven(plan.hub.delivery.blockedBy, plan.feedback.value.customReason)
      && plan.sideEffects == Allowed(m, plan.global.sideEffects) + Allowed(m, plan.hub.sideEffects)
    ensures plan.global.delivery.blockedBy == [] && plan.hub.delivery.blockedBy == [] ==>
      && ToldByServers(m, store, Composed([plan.global.delivery, plan.hub.delivery]), ds, plan.destinations, plan.feedback)
      && plan.sideEffects == Allowed(m, plan.global.sideEffects) + Allowed(m, plan.hub.sideEffects)
  {
    hide AnalyzedOk, ScopeDecision, Resolved, Allowed, FirstReason, FirstGiven, FilterFeedback, FiltersTold, MapSeq, Terminal, AllRefused,
      ServerStage, Composed, NothingDecided, Profiles, AllAnswered;
    EmptyDecision(PolicyScope(Hub, hubId));
    AllTerminal(ds, plan.global.delivery.blockedBy);
    AllTerminal(ds, plan.hub.delivery.blockedBy);
    ReasonMeans(plan.hub.delivery.blockedBy);
    FeedbackMeans(plan.destinations);
    if plan.global.delivery.blockedBy == [] && plan.hub.delivery.blockedBy == [] {
      StageMeans(Shared(m, store, Composed([plan.global.delivery, plan.hub.delivery])), ds, plan.destinations, plan.variants);
    }
  }

  /** What a call plan says when GLOBAL blocks, and when it does not. */
  lemma CallMeans(m: Message, store: PolicyStore, leq: DigestOrder, ds: seq<Destination>, plan: CallPlan)
    requires AnalyzedOk(m.analyzed) && CallPlanned(m, store, leq, ds, plan)
    ensures plan.sideEffects == Allowed(m, plan.global.sideEffects)
    ensures plan.global.delivery.blockedBy != [] ==>
      && plan.feedback == Some(CallSafetyBlock) && AllRefused(ds, plan.global.delivery.blockedBy, plan.destinations)
      && plan.variants == map[] && plan.variant == None && plan.profiles == 0
    ensures plan.global.delivery.blockedBy == [] ==>
      ToldByServers(m, store, plan.global.delivery, ds, plan.destinations, plan.feedback)
  {
    hide AnalyzedOk, ScopeDecision, Allowed, FilterFeedback, FiltersTold, MapSeq, Terminal, AllRefused, ServerStage, Profiles,
      AllAnswered, IsFirst;
    AllTerminal(ds, plan.global.delivery.blockedBy);
    FeedbackMeans(plan.destinations);
    if plan.global.delivery.blockedBy == [] {
      StageMeans(Shared(m, store, plan.global.delivery), ds, plan.destinations, plan.variants);
    }
  }
}
