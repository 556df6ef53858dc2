/**
 * Which side effects a layer requests, by the action types themselves: every
 * logging rule once, and of each family of punishments the worst one asked for.
 */
module SideEffectMeaning {
  import opened Wrappers
  import opened Sorting
  import opened PolicyModel
  import opened Resolver
  import opened Layers
  import opened LayerMeaning

  // ---- What is asked for ---------------------------------------------------------------------------

  ghost predicate Requestable(t: ActionType) { t in {Log, LobbyWarn, LobbyBan, Blacklist, HubWarn, HubMute, HubBan} }

  /** The request that action `x` of rule `m` makes. */
  ghost predicate AskedBy(r: SideEffect, m: MatchedRule, x: PolicyAction) {
    x in m.actions && Requestable(x.actionType) && r.actionType == x.actionType && r.duration == x.duration && Identifies(m, r.attribution)
  }

  ghost predicate StepAsks(p: Step, r: SideEffect) {
    Requestable(p.action.actionType) && r.actionType == p.action.actionType && r.duration == p.action.duration && Identifies(p.rule, r.attribution)
  }

  lemma StepRequest(p: Step, r: SideEffect)
    ensures StepAsks(p, r) <==> IsSideEffect(p.action.actionType) && r == SideEffect(p.action.actionType, p.action.duration, AttributionOf(p.rule))
  {
  }

  lemma {:induction false} RequestsOfSteps(steps: seq<Step>, r: SideEffect)
    ensures r in Requests(steps) <==> exists i :: 0 <= i < |steps| && StepAsks(steps[i], r)
  {
    hide StepAsks, IsSideEffect, AttributionOf;
    if steps != [] {
      var n := |steps| - 1;
      RequestsOfSteps(steps[..n], r);
      assert forall i :: 0 <= i < n ==> steps[..n][i] == steps[i];
      StepRequest(steps[n], r);
    }
  }

  /** A layer's requests are those of its matched rules' actions. */
  lemma RequestMeans(matched: seq<MatchedRule>, r: SideEffect)
    ensures r in Requests(Steps(Sort(matched, RuleLeq))) <==> exists m, x :: m in matched && AskedBy(r, m, x)
  {
    hide Requests, Steps, StepsFrom, Identifies, Requestable;
    var rules := Sort(matched, RuleLeq);
    var steps := Steps(rules);
    SortCorrect(matched, RuleLeq);
    StepsAreFrom(rules);
    RequestsOfSteps(steps, r);
    if i :| 0 <= i < |steps| && StepAsks(steps[i], r) {
      StepOfRule(steps, rules, i);
      assert AskedBy(r, steps[i].rule, steps[i].action);
    }
    if m, x :| m in matched && AskedBy(r, m, x) {
      StepIn(steps, rules, m, x);
      var i :| 0 <= i < |steps| && steps[i] == Step(m, x);
      assert StepAsks(steps[i], r);
    }
  }

  lemma StepIn(steps: seq<Step>, rules: seq<MatchedRule>, m: MatchedRule, x: PolicyAction)
    requires StepsFrom(steps, rules) && m in rules && x in m.actions
    ensures Step(m, x) in steps
  {
  }

  // ---- What is passed on -----------------------------------------------------------------------------

  ghost predicate Asked(requests: seq<SideEffect>, t: ActionType) {
    exists i :: 0 <= i < |requests| && requests[i].actionType == t
  }

  ghost function Length(d: Option<nat>): nat { match d case None => 0 case Some(n) => n }

  /** Of three punishments the worst that is asked for, the longest of its kind, from the rule of least id among equal durations. */
  ghost predicate Worst(requests: seq<SideEffect>, r: seq<SideEffect>, worst: ActionType, middle: ActionType, least: ActionType) {
    && |r| <= 1
    && (r == [] <==> !Asked(requests, worst) && !Asked(requests, middle) && !Asked(requests, least))
    && (r != [] ==>
          && r[0] in requests
          && r[0].actionType == (if Asked(requests, worst) then worst else if Asked(requests, middle) then middle else least)
          && forall x :: x in requests && x.actionType == r[0].actionType ==>
               Length(x.duration) <= Length(r[0].duration) && (x.duration == r[0].duration ==> r[0].attribution.ruleId <= x.attribution.ruleId))
  }

  /** Every rule that logs, once, by its first request, by rule id. */
  ghost predicate LogsOf(requests: seq<SideEffect>, logs: seq<SideEffect>) {
    && (forall i :: 0 <= i < |logs| ==> logs[i].actionType == Log)
    && (forall i, j :: 0 <= i < j < |logs| ==> logs[i].attribution.ruleId < logs[j].attribution.ruleId)
    && (forall x :: x in logs <==> exists i :: 0 <= i < |requests| && FirstLog(requests, i) && requests[i] == x)
  }

  lemma Families(t: ActionType)
    ensures Family(t) == 1 <==> t in {LobbyWarn, LobbyBan, Blacklist}
    ensures Family(t) == 2 <==> t in {HubWarn, HubMute, HubBan}
  {
  }

  lemma LobbyOrder(x: SideEffect, y: SideEffect)
    requires x.actionType in {LobbyWarn, LobbyBan, Blacklist} && y.actionType in {LobbyWarn, LobbyBan, Blacklist} && AtLeastAsStrong(x, y)
    ensures y.actionType == Blacklist ==> x.actionType == Blacklist
    ensures y.actionType == LobbyBan ==> x.actionType != LobbyWarn
    ensures x.actionType == y.actionType ==>
      Length(y.duration) <= Length(x.duration) && (y.duration == x.duration ==> x.attribution.ruleId <= y.attribution.ruleId)
  {
  }

  lemma HubOrder(x: SideEffect, y: SideEffect)
    requires x.actionType in {HubWarn, HubMute, HubBan} && y.actionType in {HubWarn, HubMute, HubBan} && AtLeastAsStrong(x, y)
    ensures y.actionType == HubBan ==> x.actionType == HubBan
    ensures y.actionType == HubMute ==> x.actionType != HubWarn
    ensures x.actionType == y.actionType ==>
      Length(y.duration) <= Length(x.duration) && (y.duration == x.duration ==> x.attribution.ruleId <= y.attribution.ruleId)
  {
  }

  lemma LobbyMeans(requests: seq<SideEffect>)
    ensures Worst(requests, SlotList(Winner(requests, 1)), Blacklist, LobbyBan, LobbyWarn)
  {
    hide AtLeastAsStrong, Family, Winner;
    WinnerIsMaximum(requests, 1);
    forall t ensures Family(t) == 1 <==> t in {LobbyWarn, LobbyBan, Blacklist} {
      Families(t);
    }
    if Winner(requests, 1).Some? {
      var w := Winner(requests, 1).value;
      forall i | 0 <= i < |requests| && requests[i].actionType in {LobbyWarn, LobbyBan, Blacklist}
        ensures requests[i].actionType == Blacklist ==> w.actionType == Blacklist
        ensures requests[i].actionType == LobbyBan ==> w.actionType != LobbyWarn
        ensures requests[i].actionType == w.actionType ==>
          Length(requests[i].duration) <= Length(w.duration)
          && (requests[i].duration == w.duration ==> w.attribution.ruleId <= requests[i].attribution.ruleId)
      {
        LobbyOrder(w, requests[i]);
      }
      var k :| 0 <= k < |requests| && requests[k] == w;
    }
  }

  lemma HubMeans(requests: seq<SideEffect>)
    ensures Worst(requests, SlotList(Winner(requests, 2)), HubBan, HubMute, HubWarn)
  {
    hide AtLeastAsStrong, Family, Winner;
    WinnerIsMaximum(requests, 2);
    forall t ensures Family(t) == 2 <==> t in {HubWarn, HubMute, HubBan} {
      Families(t);
    }
    if Winner(requests, 2).Some? {
      var w := Winner(requests, 2).value;
      forall i | 0 <= i < |requests| && requests[i].actionType in {HubWarn, HubMute, HubBan}
        ensures requests[i].actionType == HubBan ==> w.actionType == HubBan
        ensures requests[i].actionType == HubMute ==> w.actionType != HubWarn
        ensures requests[i].actionType == w.actionType ==>
          Length(requests[i].duration) <= Length(w.duration)
          && (requests[i].duration == w.duration ==> w.attribution.ruleId <= requests[i].attribution.ruleId)
      {
        HubOrder(w, requests[i]);
      }
      var k :| 0 <= k < |requests| && requests[k] == w;
    }
  }

  lemma {:induction false} LogKeys(requests: seq<SideEffect>, rule: Uuid)
    requires rule in Logs(requests)
    ensures Logs(requests)[rule].actionType == Log && Logs(requests)[rule].attribution.ruleId == rule
  {
    var n := |requests| - 1;
    if rule in Logs(requests[..n]) {
      LogKeys(requests[..n], rule);
    }
  }

  lemma LogsMean(requests: seq<SideEffect>)
    ensures LogsOf(requests, InKeyOrder(Logs(requests)))
  {
    hide Logs, FirstLog;
    var logs, keys := Logs(requests), SortedKeys(Logs(requests).Keys);
    var r := InKeyOrder(logs);
    forall i | 0 <= i < |r| ensures r[i].actionType == Log && r[i].attribution.ruleId == keys[i] {
      assert keys[i] in keys;
      LogKeys(requests, keys[i]);
    }
    hide InKeyOrder;
    forall x ensures x in r <==> exists i :: 0 <= i < |requests| && FirstLog(requests, i) && requests[i] == x {
      LogElements(requests, x);
    }
  }

  lemma SlotFamily(requests: seq<SideEffect>, family: nat)
    ensures forall x :: x in SlotList(Winner(requests, family)) ==> Family(x.actionType) == family
  {
    hide Winner, Family, AtLeastAsStrong;
    WinnerIsMaximum(requests, family);
  }

  lemma AlreadySorted(logs: seq<SideEffect>, lobby: seq<SideEffect>, hub: seq<SideEffect>)
    requires (forall i :: 0 <= i < |logs| ==> logs[i].actionType == Log) && |lobby| <= 1 && |hub| <= 1
    requires forall i, j :: 0 <= i < j < |logs| ==> logs[i].attribution.ruleId < logs[j].attribution.ruleId
    requires (forall x :: x in lobby ==> Family(x.actionType) == 1) && (forall x :: x in hub ==> Family(x.actionType) == 2)
    ensures Sorted(logs + lobby + hub, EffectLeq)
  {
    var all := logs + lobby + hub;
    forall i, j | 0 <= i < j < |all| ensures EffectLeq(all[i], all[j]) {
      assert |logs| <= i < |logs| + |lobby| ==> all[i] in lobby;
      assert |logs| <= j < |logs| + |lobby| ==> all[j] in lobby;
      assert |logs| + |lobby| <= j ==> all[j] in hub;
    }
  }

  /** The requests passed on: the logging rules, then the worst lobby punishment, then the worst hub punishment. */
  lemma StrongestMeans(requests: seq<SideEffect>) returns (logs: seq<SideEffect>, lobby: seq<SideEffect>, hub: seq<SideEffect>)
    ensures Strongest(requests) == logs + lobby + hub && LogsOf(requests, logs)
    ensures Worst(requests, lobby, Blacklist, LobbyBan, LobbyWarn) && Worst(requests, hub, HubBan, HubMute, HubWarn)
  {
    hide Logs, InKeyOrder, Winner, Asked, FirstLog, Family, EffectLeq, Sort;
    logs, lobby, hub := InKeyOrder(Logs(requests)), SlotList(Winner(requests, 1)), SlotList(Winner(requests, 2));
    LogsMean(requests);
    LobbyMeans(requests);
    HubMeans(requests);
    SlotFamily(requests, 1);
    SlotFamily(requests, 2);
    AlreadySorted(logs, lobby, hub);
    SortSorted(logs + lobby + hub, EffectLeq);
  }

  lemma OwnRequest(m: MatchedRule, x: PolicyAction) returns (r: SideEffect)
    requires x in m.actions && Requestable(x.actionType)
    ensures AskedBy(r, m, x)
  {
    r := SideEffect(x.actionType, x.duration, Attribution(m.policyId, m.policyVersion, m.scope, m.ruleId, m.ruleName, m.customReason));
  }

  /** A layer asks for a punishment exactly when a matched rule has that action. */
  lemma AskedMeans(matched: seq<MatchedRule>, t: ActionType)
    requires Requestable(t)
    ensures Asked(Requests(Steps(Sort(matched, RuleLeq))), t) <==> exists m :: m in matched && HasKind(m, t)
  {
    hide Requests, Steps, Requestable, Sort, Identifies;
    var requests := Requests(Steps(Sort(matched, RuleLeq)));
    if i :| 0 <= i < |requests| && requests[i].actionType == t {
      RequestMeans(matched, requests[i]);
      var m, x :| m in matched && AskedBy(requests[i], m, x);
    }
    if m :| m in matched && HasKind(m, t) {
      var x :| x in m.actions && x.actionType == t;
      var r := OwnRequest(m, x);
      RequestMeans(matched, r);
      var i :| 0 <= i < |requests| && requests[i] == r;
    }
  }

  /** The side effects of a resolved layer are those of its matched rules, the worst of each family only. */
  lemma SideEffectsMean(scope: PolicyScope, matched: seq<MatchedRule>)
    returns (requests: seq<SideEffect>, logs: seq<SideEffect>, lobby: seq<SideEffect>, hub: seq<SideEffect>)
    ensures Resolved(scope, matched).sideEffects == logs + lobby + hub && LogsOf(requests, logs)
    ensures Worst(requests, lobby, Blacklist, LobbyBan, LobbyWarn) && Worst(requests, hub, HubBan, HubMute, HubWarn)
    ensures forall r :: r in requests <==> exists m, x :: m in matched && AskedBy(r, m, x)
  {
    hide Requests, Steps, AskedBy, Strongest, Sort, DeliveryOf, Worst, LogsOf;
    requests := Requests(Steps(Sort(matched, RuleLeq)));
    logs, lobby, hub := StrongestMeans(requests);
    forall r ensures r in requests <==> exists m, x :: m in matched && AskedBy(r, m, x) {
      RequestMeans(matched, r);
    }
  }
}
