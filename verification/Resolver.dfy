/**
 * resolver.rs: resolving one authority layer and composing layers. The loops
 * are specified by what each processed (rule, action) pair contributed.
 */
module Resolver {
  import opened Wrappers
  import opened Sorting
  import opened Spans
  import opened PolicyModel

  // ---- One layer ---------------------------------------------------------

  datatype Step = Step(rule: MatchedRule, action: PolicyAction)

  predicate RuleLeq(a: MatchedRule, b: MatchedRule) { a.ruleId <= b.ruleId }

  predicate AttributionLeq(a: Attribution, b: Attribution) { a.ruleId <= b.ruleId }

  /** The (rule, action) pairs in the order the nested loops visit them. */
  function Steps(rules: seq<MatchedRule>): seq<Step> {
    if rules == [] then []
    else
      var n := |rules| - 1;
      Steps(rules[..n]) + StepsOf(rules[n], rules[n].actions)
  }

  function StepsOf(rule: MatchedRule, actions: seq<PolicyAction>): (r: seq<Step>)
    ensures |r| == |actions| && forall i :: 0 <= i < |r| ==> r[i] == Step(rule, actions[i])
  {
    seq(|actions|, i requires 0 <= i < |actions| => Step(rule, actions[i]))
  }

  function SpansAt(m: map<Surface, seq<ByteSpan>>, s: Surface): seq<ByteSpan> {
    if s in m then m[s] else []
  }

  function AddSurfaces(m: map<Surface, seq<ByteSpan>>, surfaces: seq<MatchedSurface>): map<Surface, seq<ByteSpan>> {
    if surfaces == [] then m
    else
      var n := |surfaces| - 1;
      var before := AddSurfaces(m, surfaces[..n]);
      before[surfaces[n].surface := SpansAt(before, surfaces[n].surface) + surfaces[n].spans]
  }

  function AddNames(m: map<Surface, NameReplacement>, surfaces: seq<MatchedSurface>, value: NameReplacement):
    map<Surface, NameReplacement>
  {
    if surfaces == [] then m
    else
      var n := |surfaces| - 1;
      var before := AddNames(m, surfaces[..n], value);
      var s := surfaces[n].surface;
      if IsName(s) && s !in before then before[s := value] else before
  }

  function ReplacementOf(scope: PolicyScope, action: PolicyAction): string {
    if action.replacement.Some? && scope.authority == Global then action.replacement.value else DEFAULT_SAFE_NAME
  }

  function BlockedBy(done: seq<Step>): seq<Attribution> {
    if done == [] then []
    else
      var n := |done| - 1;
      BlockedBy(done[..n]) + (if done[n].action.actionType == Block then [AttributionOf(done[n].rule)] else [])
  }

  function Censors(done: seq<Step>): map<Surface, seq<ByteSpan>> {
    if done == [] then map[]
    else
      var n := |done| - 1;
      if done[n].action.actionType == CensorMatch then AddSurfaces(Censors(done[..n]), done[n].rule.surfaces)
      else Censors(done[..n])
  }

  function Names(scope: PolicyScope, done: seq<Step>): map<Surface, NameReplacement> {
    if done == [] then map[]
    else
      var n := |done| - 1;
      if done[n].action.actionType == ReplaceName then
        AddNames(Names(scope, done[..n]), done[n].rule.surfaces,
                 NameReplacement(ReplacementOf(scope, done[n].action), AttributionOf(done[n].rule)))
      else Names(scope, done[..n])
  }

  predicate HasAction(done: seq<Step>, t: ActionType) {
    exists i :: 0 <= i < |done| && done[i].action.actionType == t
  }

  predicate IsSideEffect(t: ActionType) { ActionTypeCode(t) >= 6 }

  function Requests(done: seq<Step>): seq<SideEffect> {
    if done == [] then []
    else
      var n := |done| - 1;
      Requests(done[..n])
      + (if IsSideEffect(done[n].action.actionType)
         then [SideEffect(done[n].action.actionType, done[n].action.duration, AttributionOf(done[n].rule))] else [])
  }

  /** BLOCK clears the censor spans; otherwise each surface's spans are merged. */
  function Finish(blockedBy: seq<Attribution>, censors: map<Surface, seq<ByteSpan>>): map<Surface, seq<ByteSpan>> {
    if blockedBy != [] then map[] else map s | s in censors :: MergedSpans(censors[s])
  }

  function DeliveryOf(scope: PolicyScope, done: seq<Step>): DeliveryEffects {
    var blocked := Sort(BlockedBy(done), AttributionLeq);
    DeliveryEffects(blocked, Finish(blocked, Censors(done)),
                    HasAction(done, StripLink), HasAction(done, SuppressLinks), Names(scope, done))
  }

  datatype ResolvedScope = ResolvedScope(
    scope: PolicyScope, matchedRules: seq<MatchedRule>, delivery: DeliveryEffects, sideEffects: seq<SideEffect>)

  function Resolved(scope: PolicyScope, matched: seq<MatchedRule>): ResolvedScope {
    var rules := Sort(matched, RuleLeq);
    ResolvedScope(scope, rules, DeliveryOf(scope, Steps(rules)), Strongest(Requests(Steps(rules))))
  }

  method MergeAll(blockedBy: seq<Attribution>, censors: map<Surface, seq<ByteSpan>>)
    returns (merged: map<Surface, seq<ByteSpan>>)
    ensures merged == Finish(blockedBy, censors)
  {
    hide MergedSpans;
    if blockedBy != [] {
      return map[];
    }
    merged := map[];
    for i := 0 to |ALL_SURFACES|
      invariant merged == map s | s in censors && s in ALL_SURFACES[..i] :: MergedSpans(censors[s])
    {
      var s := ALL_SURFACES[i];
      assert ALL_SURFACES[..i + 1] == ALL_SURFACES[..i] + [s];
      if s in censors {
        var spans := MergeSpans(censors[s]);
        merged := merged[s := spans];
      }
    }
    EverySurface();
    assert ALL_SURFACES[..|ALL_SURFACES|] == ALL_SURFACES;
  }

  lemma EverySurface()
    ensures forall s :: s in ALL_SURFACES
  {
    forall s ensures s in ALL_SURFACES {
      assert ALL_SURFACES[SurfaceCode(s)] == s;
    }
  }

  lemma HasActionStep(done: seq<Step>, step: Step, t: ActionType)
    ensures HasAction(done + [step], t) <==> HasAction(done, t) || step.action.actionType == t
  {
    var all := done + [step];
    assert all[|done|] == step;
    if HasAction(done, t) {
      var i :| 0 <= i < |done| && done[i].action.actionType == t;
      assert all[i] == done[i];
    }
  }

  /** What one processed pair adds to every accumulator. */
  lemma StepAdds(scope: PolicyScope, done: seq<Step>, step: Step)
    ensures var all := done + [step]; var t := step.action.actionType;
      && BlockedBy(all) == BlockedBy(done) + (if t == Block then [AttributionOf(step.rule)] else [])
      && Censors(all) == (if t == CensorMatch then AddSurfaces(Censors(done), step.rule.surfaces) else Censors(done))
      && Names(scope, all) == (if t == ReplaceName
           then AddNames(Names(scope, done), step.rule.surfaces,
                         NameReplacement(ReplacementOf(scope, step.action), AttributionOf(step.rule)))
           else Names(scope, done))
      && Requests(all) == Requests(done)
           + (if IsSideEffect(t) then [SideEffect(t, step.action.duration, AttributionOf(step.rule))] else [])
  {
    assert (done + [step])[..|done|] == done;
  }

  /** The local variables of `resolve_scope` after the pairs `done`. */
  datatype Accumulator = Accumulator(
    blocked: seq<Attribution>, censors: map<Surface, seq<ByteSpan>>, strip: bool, suppress: bool,
    names: map<Surface, NameReplacement>, requests: seq<SideEffect>)

  ghost function Accumulated(scope: PolicyScope, done: seq<Step>): Accumulator {
    Accumulator(BlockedBy(done), Censors(done), HasAction(done, StripLink), HasAction(done, SuppressLinks),
                Names(scope, done), Requests(done))
  }

  /** The match on one action. */
  method ApplyAction(scope: PolicyScope, rule: MatchedRule, action: PolicyAction, acc: Accumulator, ghost done: seq<Step>)
    returns (r: Accumulator)
    requires acc == Accumulated(scope, done)
    ensures r == Accumulated(scope, done + [Step(rule, action)])
  {
    hide BlockedBy, Censors, Names, Requests, HasAction, AddNames, AddSurfaces;
    StepAdds(scope, done, Step(rule, action));
    HasActionStep(done, Step(rule, action), StripLink);
    HasActionStep(done, Step(rule, action), SuppressLinks);
    r := acc;
    match action.actionType {
      case Allow =>
      case Block => r := r.(blocked := r.blocked + [AttributionOf(rule)]);
      case CensorMatch =>
        var censors := ExtendCensors(r.censors, rule);
        r := r.(censors := censors);
      case StripLink => r := r.(strip := true);
      case SuppressLinks => r := r.(suppress := true);
      case ReplaceName =>
        var value := NameReplacement(ReplacementOf(scope, action), AttributionOf(rule));
        var names := InsertNames(r.names, rule, value);
        r := r.(names := names);
      case _ =>
        r := r.(requests := r.requests + [SideEffect(action.actionType, action.duration, AttributionOf(rule))]);
    }
  }

  /** `entry(..).or_default().extend(..)` for every matched surface. */
  method ExtendCensors(censors: map<Surface, seq<ByteSpan>>, rule: MatchedRule)
    returns (r: map<Surface, seq<ByteSpan>>)
    ensures r == AddSurfaces(censors, rule.surfaces)
  {
    r := censors;
    for k := 0 to |rule.surfaces|
      invariant r == AddSurfaces(censors, rule.surfaces[..k])
    {
      var m := rule.surfaces[k];
      assert rule.surfaces[..k + 1][..k] == rule.surfaces[..k];
      r := r[m.surface := SpansAt(r, m.surface) + m.spans];
    }
    assert rule.surfaces[..|rule.surfaces|] == rule.surfaces;
  }

  method ResolveScope(scope: PolicyScope, matched: seq<MatchedRule>) returns (r: ResolvedScope)
    ensures r == Resolved(scope, matched)
  {
    hide Accumulated, Steps;
    var rules := Sort(matched, RuleLeq);
    var acc := Accumulator([], map[], false, false, map[], []);
    NothingYet(scope, rules[..0]);
    for i := 0 to |rules|
      invariant acc == Accumulated(scope, Steps(rules[..i]))
    {
      var rule := rules[i];
      var all := StepsOf(rule, rule.actions);
      assert Steps(rules[..i]) + all[..0] == Steps(rules[..i]);
      for j := 0 to |rule.actions|
        invariant acc == Accumulated(scope, Steps(rules[..i]) + all[..j])
      {
        acc := ApplyAction(scope, rule, rule.actions[j], acc, Steps(rules[..i]) + all[..j]);
        assert Steps(rules[..i]) + all[..j] + [all[j]] == Steps(rules[..i]) + all[..j + 1];
      }
      StepsRule(rules, i);
    }
    assert rules[..|rules|] == rules;
    r := FinishScope(scope, rules, acc);
  }

  method FinishScope(scope: PolicyScope, rules: seq<MatchedRule>, acc: Accumulator) returns (r: ResolvedScope)
    requires acc == Accumulated(scope, Steps(rules))
    ensures r == ResolvedScope(scope, rules, DeliveryOf(scope, Steps(rules)), Strongest(Requests(Steps(rules))))
  {
    var blocked := Sort(acc.blocked, AttributionLeq);
    var censors := MergeAll(blocked, acc.censors);
    var sideEffects := StrongestSideEffects(acc.requests);
    r := ResolvedScope(scope, rules, DeliveryEffects(blocked, censors, acc.strip, acc.suppress, acc.names), sideEffects);
  }

  lemma NothingYet(scope: PolicyScope, rules: seq<MatchedRule>)
    requires rules == []
    ensures Accumulated(scope, Steps(rules)) == Accumulator([], map[], false, false, map[], [])
  {
  }

  lemma StepsRule(rules: seq<MatchedRule>, i: nat)
    requires i < |rules|
    ensures Steps(rules[..i + 1])
         == Steps(rules[..i]) + StepsOf(rules[i], rules[i].actions)[..|rules[i].actions|]
  {
    assert rules[..i + 1][..i] == rules[..i];
    var all := StepsOf(rules[i], rules[i].actions);
    assert all[..|all|] == all;
  }

  /** `entry(..).or_insert_with(..)` for every matched name surface. */
  method InsertNames(names: map<Surface, NameReplacement>, rule: MatchedRule, value: NameReplacement)
    returns (r: map<Surface, NameReplacement>)
    ensures r == AddNames(names, rule.surfaces, value)
  {
    r := names;
    for k := 0 to |rule.surfaces|
      invariant r == AddNames(names, rule.surfaces[..k], value)
    {
      assert rule.surfaces[..k + 1][..k] == rule.surfaces[..k];
      var s := rule.surfaces[k].surface;
      if IsName(s) && s !in r {
        r := r[s := value];
      }
    }
    assert rule.surfaces[..|rule.surfaces|] == rule.surfaces;
  }

  // ---- Strongest side effects ----------------------------------------------

  function Family(t: ActionType): nat {
    if t == Log then 0
    else if t == LobbyWarn || t == LobbyBan || t == Blacklist then 1
    else if t == HubWarn || t == HubMute || t == HubBan then 2
    else 3
  }

  function Strength(t: ActionType): nat {
    if t == LobbyWarn || t == HubWarn then 1
    else if t == LobbyBan || t == HubMute then 2
    else if t == Blacklist || t == HubBan then 3
    else 0
  }

  function Seconds(d: Option<nat>): nat { if d.Some? then d.value else 0 }

  function SelectStrongest(slot: Option<SideEffect>, candidate: SideEffect): Option<SideEffect> {
    if slot.None? then Some(candidate)
    else
      var current := slot.value;
      var cs, os := Strength(candidate.actionType), Strength(current.actionType);
      if || cs > os
         || (cs == os && Seconds(candidate.duration) > Seconds(current.duration))
         || (cs == os && candidate.duration == current.duration
             && candidate.attribution.ruleId < current.attribution.ruleId)
      then Some(candidate) else slot
  }

  /** The winner of one family after processing `requests` in order. */
  function Winner(requests: seq<SideEffect>, family: nat): Option<SideEffect> {
    if requests == [] then None
    else
      var n := |requests| - 1;
      var before := Winner(requests[..n], family);
      if Family(requests[n].actionType) == family then SelectStrongest(before, requests[n]) else before
  }

  function Logs(requests: seq<SideEffect>): map<Uuid, SideEffect> {
    if requests == [] then map[]
    else
      var n := |requests| - 1;
      var before := Logs(requests[..n]);
      var id := requests[n].attribution.ruleId;
      if requests[n].actionType == Log && id !in before then before[id := requests[n]] else before
  }

  function SlotList(slot: Option<SideEffect>): seq<SideEffect> {
    if slot.Some? then [slot.value] else []
  }

  function InKeyOrder(m: map<Uuid, SideEffect>): seq<SideEffect> {
    var keys := SortedKeys(m.Keys);
    seq(|keys|, i requires 0 <= i < |keys| => assert keys[i] in keys; m[keys[i]])
  }

  predicate EffectLeq(a: SideEffect, b: SideEffect) {
    Family(a.actionType) < Family(b.actionType)
    || (Family(a.actionType) == Family(b.actionType) && a.attribution.ruleId <= b.attribution.ruleId)
  }

  function Strongest(requests: seq<SideEffect>): seq<SideEffect> {
    Sort(InKeyOrder(Logs(requests)) + SlotList(Winner(requests, 1)) + SlotList(Winner(requests, 2)), EffectLeq)
  }

  method StrongestSideEffects(requests: seq<SideEffect>) returns (r: seq<SideEffect>)
    ensures r == Strongest(requests)
  {
    var logs: map<Uuid, SideEffect> := map[];
    var global, hub := None, None;
    for n := 0 to |requests|
      invariant logs == Logs(requests[..n])
      invariant global == Winner(requests[..n], 1) && hub == Winner(requests[..n], 2)
    {
      var request := requests[n];
      assert requests[..n + 1][..n] == requests[..n];
      match Family(request.actionType) {
        case 0 =>
          if request.attribution.ruleId !in logs {
            logs := logs[request.attribution.ruleId := request];
          }
        case 1 => global := SelectStrongest(global, request);
        case 2 => hub := SelectStrongest(hub, request);
        case _ =>
      }
    }
    assert requests[..|requests|] == requests;
    r := Sort(InKeyOrder(logs) + SlotList(global) + SlotList(hub), EffectLeq);
  }

  /**
   * `a` is at least as strong as `b`: action strength, then duration, then the
   * smaller rule id - which is compared only when the durations are written alike,
   * so an absent duration and one of zero seconds, which validation excludes, tie.
   */
  ghost predicate AtLeastAsStrong(a: SideEffect, b: SideEffect) {
    var x, y := Strength(a.actionType), Strength(b.actionType);
    || x > y
    || (x == y && Seconds(a.duration) > Seconds(b.duration))
    || (x == y && Seconds(a.duration) == Seconds(b.duration)
        && (a.duration == b.duration ==> a.attribution.ruleId <= b.attribution.ruleId))
  }

  /** The slot holds a maximum of its family, whatever the order of the requests. */
  lemma {:induction false} WinnerIsMaximum(requests: seq<SideEffect>, family: nat)
    ensures Winner(requests, family).None?
        <==> forall i :: 0 <= i < |requests| ==> Family(requests[i].actionType) != family
    ensures Winner(requests, family).Some? ==>
      && Winner(requests, family).value in requests
      && Family(Winner(requests, family).value.actionType) == family
      && forall i :: 0 <= i < |requests| && Family(requests[i].actionType) == family ==>
           AtLeastAsStrong(Winner(requests, family).value, requests[i])
  {
    if requests != [] {
      var n := |requests| - 1;
      var front := requests[..n];
      WinnerIsMaximum(front, family);
      assert requests == front + [requests[n]];
      assert forall i :: 0 <= i < n ==> requests[i] == front[i];
    }
  }

  /** Request `i` is the first LOG request of its rule. */
  ghost predicate FirstLog(requests: seq<SideEffect>, i: nat)
    requires i < |requests|
  {
    && requests[i].actionType == Log
    && forall j :: 0 <= j < i && requests[j].actionType == Log ==> requests[j].attribution.ruleId != requests[i].attribution.ruleId
  }

  /** A rule is logged once, by its first LOG request, exactly when it requests it. */
  lemma {:induction false} LogsOncePerRule(requests: seq<SideEffect>, rule: Uuid)
    ensures rule in Logs(requests) <==> exists i :: 0 <= i < |requests| && requests[i].actionType == Log && requests[i].attribution.ruleId == rule
    ensures rule in Logs(requests) ==>
      exists i :: 0 <= i < |requests| && FirstLog(requests, i) && requests[i].attribution.ruleId == rule && Logs(requests)[rule] == requests[i]
  {
    if requests != [] {
      var n := |requests| - 1;
      var front := requests[..n];
      LogsOncePerRule(front, rule);
      assert forall i :: 0 <= i < n ==> requests[i] == front[i];
      if rule in Logs(front) {
        var i :| 0 <= i < n && FirstLog(front, i) && front[i].attribution.ruleId == rule && Logs(front)[rule] == front[i];
        assert FirstLog(requests, i);
      } else if rule in Logs(requests) {
        assert FirstLog(requests, n);
      }
    }
  }

  lemma KeyOrderElements(m: map<Uuid, SideEffect>, x: SideEffect)
    ensures x in InKeyOrder(m) <==> exists k :: k in m && m[k] == x
  {
    var keys := SortedKeys(m.Keys);
    if k :| k in m && m[k] == x {
      assert k in keys;
      var i :| 0 <= i < |keys| && keys[i] == k;
      assert InKeyOrder(m)[i] == x;
    }
    if x in InKeyOrder(m) {
      var i :| 0 <= i < |keys| && InKeyOrder(m)[i] == x;
      assert keys[i] in keys;
    }
  }

  lemma LogElements(requests: seq<SideEffect>, x: SideEffect)
    ensures x in InKeyOrder(Logs(requests)) <==> exists i :: 0 <= i < |requests| && FirstLog(requests, i) && requests[i] == x
  {
    var logs, rule := Logs(requests), x.attribution.ruleId;
    hide Logs, InKeyOrder;
    KeyOrderElements(logs, x);
    if k :| k in logs && logs[k] == x {
      LogsOncePerRule(requests, k);
    }
    if i :| 0 <= i < |requests| && FirstLog(requests, i) && requests[i] == x {
      LogsOncePerRule(requests, rule);
      var j :| 0 <= j < |requests| && FirstLog(requests, j) && requests[j].attribution.ruleId == rule && logs[rule] == requests[j];
      assert !(i < j) && !(j < i);
    }
  }

  lemma SlotElements(slot: Option<SideEffect>, x: SideEffect)
    ensures x in SlotList(slot) <==> slot == Some(x)
  {
  }

  lemma EffectOrder()
    ensures TotalPreorder(EffectLeq)
  {
  }

  /**
   * What is requested of the caller: the first LOG request of every rule that
   * has one, the strongest punishment of each of the two families, and nothing
   * else; by family, then by rule id.
   */
  lemma StrongestElements(requests: seq<SideEffect>, x: SideEffect)
    ensures x in Strongest(requests) <==>
      || (exists i :: 0 <= i < |requests| && FirstLog(requests, i) && requests[i] == x)
      || Winner(requests, 1) == Some(x) || Winner(requests, 2) == Some(x)
    ensures Sorted(Strongest(requests), EffectLeq)
  {
    hide Logs, InKeyOrder, Winner, SlotList, FirstLog, EffectLeq, Sort, TotalPreorder, Sorted;
    EffectOrder();
    var all := InKeyOrder(Logs(requests)) + SlotList(Winner(requests, 1)) + SlotList(Winner(requests, 2));
    SortCorrect(all, EffectLeq);
    LogElements(requests, x);
    SlotElements(Winner(requests, 1), x);
    SlotElements(Winner(requests, 2), x);
  }
}
