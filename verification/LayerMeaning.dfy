/**
 * What a resolved layer and a composition of layers do, in terms of the matched
 * rules' actions and of the layers: who blocks, which name becomes what, which
 * bytes are censored, and which side effects are requested of the caller.
 */
module LayerMeaning {
  import opened Wrappers
  import opened Sorting
  import opened Spans
  import opened PolicyModel
  import opened Resolver
  import opened Layers
  import opened Rendering

  /** The matched rule as its effects name it. */
  ghost predicate Identifies(m: MatchedRule, a: Attribution) {
    && a.policyId == m.policyId && a.policyVersion == m.policyVersion && a.scope == m.scope
    && a.ruleId == m.ruleId && a.ruleName == m.ruleName && a.customReason == m.customReason
  }

  lemma AttributionMeans(m: MatchedRule, a: Attribution)
    ensures a == AttributionOf(m) <==> Identifies(m, a)
  {
  }

  // ---- Rules and blockers ------------------------------------------------------------------------

  /** The matched rules are listed by rule id, none lost or invented. */
  lemma MatchedInOrder(scope: PolicyScope, matched: seq<MatchedRule>)
    ensures var rules := Resolved(scope, matched).matchedRules;
      multiset(rules) == multiset(matched) && forall i, j :: 0 <= i < j < |rules| ==> rules[i].ruleId <= rules[j].ruleId
  {
    hide DeliveryOf, Strongest, Steps, Requests;
    SortCorrect(matched, RuleLeq);
  }

  /** A layer is blocked by exactly its rules with BLOCK, by rule id. */
  lemma BlockersMean(scope: PolicyScope, matched: seq<MatchedRule>, a: Attribution)
    ensures var blockers := Resolved(scope, matched).delivery.blockedBy;
      && (a in blockers <==> exists m :: m in matched && HasKind(m, Block) && Identifies(m, a))
      && forall i, j :: 0 <= i < j < |blockers| ==> blockers[i].ruleId <= blockers[j].ruleId
  {
    hide Resolved, HasKind;
    ResolvedBlockers(scope, matched, a);
    forall m ensures a == AttributionOf(m) <==> Identifies(m, a) {
      AttributionMeans(m, a);
    }
    BlockersSorted(scope, matched);
  }

  lemma BlockersSorted(scope: PolicyScope, matched: seq<MatchedRule>)
    ensures var blockers := Resolved(scope, matched).delivery.blockedBy; forall i, j :: 0 <= i < j < |blockers| ==> blockers[i].ruleId <= blockers[j].ruleId
  {
    hide BlockedBy, Steps, Censors, Names, HasAction, Strongest, Requests;
    SortCorrect(BlockedBy(Steps(Sort(matched, RuleLeq))), AttributionLeq);
  }

  // ---- Name replacements ---------------------------------------------------------------------------

  ghost predicate IsNameSurface(s: Surface) { s in {DisplayName, Username, ServerName, HubName} }

  /** The rule replaces names, and was matched on surface `s`. */
  ghost predicate ReplacesOn(m: MatchedRule, s: Surface) { HasKind(m, ReplaceName) && OnSurface(m, s) }

  /** The text a REPLACE_NAME action of the rule puts in place of a name: its own, which only GLOBAL honours, or the safe one. */
  ghost predicate ReplacementText(scope: PolicyScope, m: MatchedRule, text: string) {
    exists x :: x in m.actions && x.actionType == ReplaceName
      && text == if scope.authority == Global && x.replacement.Some? then x.replacement.value else "InterChat User"
  }

  /** The replacement comes from a rule that replaces on `s`, of least rule id. */
  ghost predicate FirstReplacement(scope: PolicyScope, rules: seq<MatchedRule>, s: Surface, v: NameReplacement) {
    exists m :: m in rules && ReplacesOn(m, s) && Identifies(m, v.attribution) && ReplacementText(scope, m, v.replacement)
      && forall o :: o in rules && ReplacesOn(o, s) ==> m.ruleId <= o.ruleId
  }

  /** The pairs up to some point: a name is replaced by the first pair that replaces it. */
  ghost predicate NamedBy(scope: PolicyScope, done: seq<Step>, s: Surface, v: NameReplacement) {
    exists i :: 0 <= i < |done| && ReplacesAt(done[i], s) && Identifies(done[i].rule, v.attribution)
      && v.replacement == (if scope.authority == Global && done[i].action.replacement.Some? then done[i].action.replacement.value else "InterChat User")
      && forall j :: 0 <= j < i ==> !ReplacesAt(done[j], s)
  }

  ghost predicate ReplacesAt(p: Step, s: Surface) {
    p.action.actionType == ReplaceName && OnSurface(p.rule, s)
  }

  lemma NamedEarlier(scope: PolicyScope, done: seq<Step>, s: Surface, v: NameReplacement)
    requires done != [] && NamedBy(scope, done[..|done| - 1], s, v)
    ensures NamedBy(scope, done, s, v)
  {
    hide OnSurface;
    var front := done[..|done| - 1];
    assert forall i :: 0 <= i < |front| ==> front[i] == done[i];
  }

  lemma NamedLast(scope: PolicyScope, done: seq<Step>, s: Surface)
    requires done != [] && ReplacesAt(done[|done| - 1], s) && forall j :: 0 <= j < |done| - 1 ==> !ReplacesAt(done[j], s)
    ensures NamedBy(scope, done, s, NameReplacement(ReplacementOf(scope, done[|done| - 1].action), AttributionOf(done[|done| - 1].rule)))
  {
    hide OnSurface;
  }

  lemma {:induction false} NamesMean(scope: PolicyScope, done: seq<Step>, s: Surface)
    ensures s in Names(scope, done) <==> IsNameSurface(s) && exists i :: 0 <= i < |done| && ReplacesAt(done[i], s)
    ensures s in Names(scope, done) ==> NamedBy(scope, done, s, Names(scope, done)[s])
  {
    hide AddNames, OnSurface, NamedBy;
    if done != [] {
      var n := |done| - 1;
      var front := done[..n];
      NamesMean(scope, front, s);
      assert forall i :: 0 <= i < n ==> front[i] == done[i];
      assert (exists i :: 0 <= i < |done| && ReplacesAt(done[i], s)) <==> (exists i :: 0 <= i < n && ReplacesAt(front[i], s)) || ReplacesAt(done[n], s);
      NameAdded(scope, done, s);
      if s in Names(scope, front) {
        NamedEarlier(scope, done, s, Names(scope, front)[s]);
      } else if s in Names(scope, done) {
        NamedLast(scope, done, s);
      }
    }
  }

  lemma NameAdded(scope: PolicyScope, done: seq<Step>, s: Surface)
    requires done != []
    ensures var n := |done| - 1; var before, after := Names(scope, done[..n]), Names(scope, done);
      && (s in after <==> s in before || (IsNameSurface(s) && ReplacesAt(done[n], s)))
      && (s in before ==> after[s] == before[s])
      && (s !in before && s in after ==>
            after[s] == NameReplacement(ReplacementOf(scope, done[n].action), AttributionOf(done[n].rule)))
  {
    var n := |done| - 1;
    var v := NameReplacement(ReplacementOf(scope, done[n].action), AttributionOf(done[n].rule));
    AddedNames(Names(scope, done[..n]), done[n].rule.surfaces, v, s);
    hide AddNames, ReplacementOf, AttributionOf;
  }

  /** The pairs come by rule id. */
  ghost predicate InRuleOrder(steps: seq<Step>) {
    forall i, j :: 0 <= i < j < |steps| ==> steps[i].rule.ruleId <= steps[j].rule.ruleId
  }

  /** The pairs are the rules' own actions. */
  ghost predicate StepsFrom(steps: seq<Step>, rules: seq<MatchedRule>) {
    && (forall p :: p in steps ==> p.rule in rules && p.action in p.rule.actions)
    && (forall m, x :: m in rules && x in m.actions ==> Step(m, x) in steps)
  }

  lemma {:induction false} StepsAreFrom(rules: seq<MatchedRule>)
    ensures StepsFrom(Steps(rules), rules)
  {
    if rules != [] {
      var n := |rules| - 1;
      var front, last := rules[..n], StepsOf(rules[n], rules[n].actions);
      StepsAreFrom(front);
      assert rules == front + [rules[n]];
      forall m, x | m in rules && x in m.actions ensures Step(m, x) in Steps(front) + last {
        if m == rules[n] {
          var k :| 0 <= k < |m.actions| && m.actions[k] == x;
          assert last[k] == Step(m, x);
        }
      }
      forall p | p in last ensures p.rule == rules[n] && p.action in rules[n].actions {
        var k :| 0 <= k < |last| && last[k] == p;
      }
    }
  }

  lemma {:induction false} StepsInOrder(rules: seq<MatchedRule>)
    requires Sorted(rules, RuleLeq)
    ensures InRuleOrder(Steps(rules))
  {
    if rules != [] {
      var n := |rules| - 1;
      var front, last := rules[..n], StepsOf(rules[n], rules[n].actions);
      StepsInOrder(front);
      StepsAreFrom(front);
      var before := Steps(front);
      forall i | 0 <= i < |before| ensures before[i].rule.ruleId <= rules[n].ruleId {
        assert before[i] in before;
        var k :| 0 <= k < n && front[k] == before[i].rule;
        assert RuleLeq(rules[k], rules[n]);
      }
    }
  }

  /** A pair replaces on `s` exactly when some rule does. */
  lemma SomeReplaces(steps: seq<Step>, rules: seq<MatchedRule>, s: Surface)
    requires StepsFrom(steps, rules)
    ensures (exists i :: 0 <= i < |steps| && ReplacesAt(steps[i], s)) <==> exists m :: m in rules && ReplacesOn(m, s)
  {
    hide OnSurface;
    if m :| m in rules && ReplacesOn(m, s) {
      var x :| x in m.actions && x.actionType == ReplaceName;
      assert Step(m, x) in steps;
      var i :| 0 <= i < |steps| && steps[i] == Step(m, x);
      assert ReplacesAt(steps[i], s);
    }
    if i :| 0 <= i < |steps| && ReplacesAt(steps[i], s) {
      assert steps[i] in steps;
      assert ReplacesOn(steps[i].rule, s);
    }
  }

  /** A name is replaced by the replacing rule of least id that was matched on it, with that rule's text. */
  lemma ReplacementMeans(scope: PolicyScope, matched: seq<MatchedRule>, s: Surface)
    ensures var names := Resolved(scope, matched).delivery.nameReplacements;
      && (s in names <==> IsNameSurface(s) && exists m :: m in matched && ReplacesOn(m, s))
      && (s in names ==> FirstReplacement(scope, matched, s, names[s]))
  {
    hide Steps, Names, NamedBy, StepsFrom, InRuleOrder, ReplacesOn, ReplacesAt, FirstReplacement, Sorted, Resolved;
    var rules := Sort(matched, RuleLeq);
    var steps := Steps(rules);
    SortCorrect(matched, RuleLeq);
    StepsInOrder(rules);
    StepsAreFrom(rules);
    NamesOfLayer(scope, matched);
    NamesMean(scope, steps, s);
    SomeReplaces(steps, rules, s);
    if s in Names(scope, steps) {
      FirstOfSteps(scope, rules, steps, s, Names(scope, steps)[s]);
      FirstAmong(scope, rules, matched, s, Names(scope, steps)[s]);
    }
  }

  lemma NamesOfLayer(scope: PolicyScope, matched: seq<MatchedRule>)
    ensures Resolved(scope, matched).delivery.nameReplacements == Names(scope, Steps(Sort(matched, RuleLeq)))
  {
    hide BlockedBy, Steps, Censors, Names, HasAction, Strongest, Requests, Sort;
  }

  lemma FirstAmong(scope: PolicyScope, rules: seq<MatchedRule>, matched: seq<MatchedRule>, s: Surface, v: NameReplacement)
    requires FirstReplacement(scope, rules, s, v) && forall m :: m in rules <==> m in matched
    ensures FirstReplacement(scope, matched, s, v)
  {
    hide ReplacesOn, Identifies, ReplacementText;
  }

  lemma FirstOfSteps(scope: PolicyScope, rules: seq<MatchedRule>, steps: seq<Step>, s: Surface, v: NameReplacement)
    requires InRuleOrder(steps) && StepsFrom(steps, rules) && NamedBy(scope, steps, s, v)
    ensures FirstReplacement(scope, rules, s, v)
  {
    hide OnSurface, Identifies, StepsFrom;
    var i :| 0 <= i < |steps| && ReplacesAt(steps[i], s) && Identifies(steps[i].rule, v.attribution)
      && v.replacement == (if scope.authority == Global && steps[i].action.replacement.Some? then steps[i].action.replacement.value else "InterChat User")
      && forall j :: 0 <= j < i ==> !ReplacesAt(steps[j], s);
    var m := steps[i].rule;
    StepOfRule(steps, rules, i);
    assert ReplacesOn(m, s) && ReplacementText(scope, m, v.replacement);
    forall o | o in rules && ReplacesOn(o, s) ensures m.ruleId <= o.ruleId {
      var k := ReplacingStep(steps, rules, o, s);
    }
  }

  lemma StepOfRule(steps: seq<Step>, rules: seq<MatchedRule>, i: nat)
    requires StepsFrom(steps, rules) && i < |steps|
    ensures steps[i].rule in rules && steps[i].action in steps[i].rule.actions
  {
    assert steps[i] in steps;
  }

  lemma ReplacingStep(steps: seq<Step>, rules: seq<MatchedRule>, o: MatchedRule, s: Surface) returns (k: nat)
    requires StepsFrom(steps, rules) && o in rules && ReplacesOn(o, s)
    ensures k < |steps| && steps[k].rule == o && ReplacesAt(steps[k], s)
  {
    hide OnSurface;
    var x :| x in o.actions && x.actionType == ReplaceName;
    assert Step(o, x) in steps;
    k :| 0 <= k < |steps| && steps[k] == Step(o, x);
  }

  // ---- Censoring -------------------------------------------------------------------------------------

  /** An unblocked layer censors, merged, exactly the bytes that matched rules with CENSOR_MATCH report. */
  lemma CensorsMean(scope: PolicyScope, matched: seq<MatchedRule>, s: Surface)
    requires ProperMatches(matched)
    ensures var d := Resolved(scope, matched).delivery;
      && (d.IsBlocked() ==> d.censorSpans == map[])
      && (!d.IsBlocked() ==>
            && Canonical(SpansAt(d.censorSpans, s))
            && forall b :: Covers(SpansAt(d.censorSpans, s), b) <==> exists m, x :: m in matched && HasKind(m, CensorMatch) && SpanOn(m, s, x) && In(x, b))
  {
    hide ProperMatches, Resolved, MergedSpans, Canonical, Censors, Steps, Sort, SpansAt, Covers, Reports, DeliveryEffects.IsBlocked;
    var d := Resolved(scope, matched).delivery;
    var c := Censors(Steps(Sort(matched, RuleLeq)));
    CensorsOfDelivery(scope, matched, s);
    BlockedCensorsNothing(scope, matched);
    var spans := SpansAt(c, s);
    forall i | 0 <= i < |spans| ensures spans[i].start < spans[i].end {
      ResolvedCensors(scope, matched, s, spans[i]);
      ProperReports(matched, CensorMatch, s, spans[i]);
    }
    MergedCanonical(spans);
    if !d.IsBlocked() {
      MergedAt(d.censorSpans, c, s);
      forall b ensures Covers(SpansAt(d.censorSpans, s), b) <==> exists m, x :: m in matched && HasKind(m, CensorMatch) && SpanOn(m, s, x) && In(x, b) {
        CoveredBy(scope, matched, s, b);
      }
    }
  }

  lemma BlockedCensorsNothing(scope: PolicyScope, matched: seq<MatchedRule>)
    ensures Resolved(scope, matched).delivery.IsBlocked() ==> Resolved(scope, matched).delivery.censorSpans == map[]
  {
    hide BlockedBy, Steps, Censors, Names, HasAction, Strongest, Requests, Sort;
  }

  lemma MergedAt(d: map<Surface, seq<ByteSpan>>, c: map<Surface, seq<ByteSpan>>, s: Surface)
    requires (s in d <==> s in c) && (s in d ==> d[s] == MergedSpans(SpansAt(c, s)))
    ensures SpansAt(d, s) == MergedSpans(SpansAt(c, s))
  {
    hide MergedSpans;
    NothingMerged();
  }

  lemma CoveredBy(scope: PolicyScope, matched: seq<MatchedRule>, s: Surface, b: nat)
    ensures Covers(SpansAt(Censors(Steps(Sort(matched, RuleLeq))), s), b) <==>
      exists m, x :: m in matched && HasKind(m, CensorMatch) && SpanOn(m, s, x) && In(x, b)
  {
    hide Censors, Steps, Sort, SpansAt, HasKind, SpanOn;
    var spans := SpansAt(Censors(Steps(Sort(matched, RuleLeq))), s);
    if k: nat :| k < |spans| && In(spans[k], b) {
      ResolvedCensors(scope, matched, s, spans[k]);
    }
    if m, x :| m in matched && HasKind(m, CensorMatch) && SpanOn(m, s, x) && In(x, b) {
      assert Reports(matched, CensorMatch, s, x);
      ResolvedCensors(scope, matched, s, x);
      var k :| 0 <= k < |spans| && spans[k] == x;
    }
  }
}
