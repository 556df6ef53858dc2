/**
 * `evaluate_normalized` as it runs: a cheap pass per surface, a detailed pass
 * when a triggered rule keeps details, then one entry per rule. It returns the
 * declarative result and never meets an unknown rule.
 */
module TwoPass {
  import opened Wrappers
  import opened Sorting
  import opened Spans
  import opened PolicyModel
  import opened TextTables
  import Fingerprint
  import opened Matcher
  import opened PatternSharing
  import opened Compiler
  import opened Evaluation

  ghost predicate OwnIds(rules: map<Uuid, PolicyRule>) {
    forall id :: id in rules ==> rules[id].id == id
  }

  // ---- Hits of a surface's definitions are hits of its rules ----------------------

  lemma SurfaceDefinition(rules: map<Uuid, PolicyRule>, s: Surface, d: PatternDefinition)
    requires OwnIds(rules)
    ensures d in SurfaceDefinitions(rules, s) <==>
      d.ruleId in rules && s in rules[d.ruleId].surfaces && exists p :: p in rules[d.ruleId].patterns && d == DefinitionOf(d.ruleId, p)
  {
    DefinitionsOnElements(rules, SortedKeys(rules.Keys), s, d);
  }

  /** A hit at `q` of a pattern of rule `id` on surface `s`. */
  ghost predicate PatternHit(t: Tables, input: SurfaceInput, rule: PolicyRule, p: RulePattern, q: ByteSpan)
    requires InputOk(input)
  {
    p in rule.patterns && HitAt(t, input, DefinitionOf(rule.id, p), q)
  }

  lemma SpanIsHit(t: Tables, input: SurfaceInput, rule: PolicyRule, q: ByteSpan)
    requires InputOk(input)
    ensures q in RuleSpans(t, input, rule) <==> exists p :: PatternHit(t, input, rule, p, q)
  {
    hide HitAt, DefinitionSpans;
    if q in RuleSpans(t, input, rule) {
      var p :| p in rule.patterns && q in DefinitionSpans(t, input, DefinitionOf(rule.id, p));
      DefinitionSpansMember(t, input, DefinitionOf(rule.id, p), q);
      assert PatternHit(t, input, rule, p, q);
    }
    if p :| PatternHit(t, input, rule, p, q) {
      DefinitionSpansMember(t, input, DefinitionOf(rule.id, p), q);
    }
  }

  lemma IdIsHit(t: Tables, input: SurfaceInput, rule: PolicyRule, x: Uuid)
    requires InputOk(input)
    ensures x in RulePatternIds(t, input, rule) <==> exists p, q :: PatternHit(t, input, rule, p, q) && p.id == x
  {
    hide HitAt, DefinitionSpans;
    if x in RulePatternIds(t, input, rule) {
      var p :| p in rule.patterns && DefinitionSpans(t, input, DefinitionOf(rule.id, p)) != {} && p.id == x;
      var q :| q in DefinitionSpans(t, input, DefinitionOf(rule.id, p));
      DefinitionSpansMember(t, input, DefinitionOf(rule.id, p), q);
      assert PatternHit(t, input, rule, p, q);
    }
    if p, q :| PatternHit(t, input, rule, p, q) && p.id == x {
      DefinitionSpansMember(t, input, DefinitionOf(rule.id, p), q);
    }
  }

  lemma ShownIsHit(t: Tables, input: SurfaceInput, rules: map<Uuid, PolicyRule>, s: Surface, id: Uuid, x: Uuid, y: PatternType, q: ByteSpan)
    requires InputOk(input) && OwnIds(rules)
    ensures RuleShows(t, input, SurfaceDefinitions(rules, s), id, x, y, q) <==>
      id in rules && s in rules[id].surfaces
      && exists p :: PatternHit(t, input, rules[id], p, q) && p.id == x && p.patternType == y
  {
    hide HitAt, SurfaceDefinitions;
    var defs := SurfaceDefinitions(rules, s);
    if d :| d in defs && d.ruleId == id && d.patternId == x && d.patternType == y && HitAt(t, input, d, q) {
      SurfaceDefinition(rules, s, d);
      var p :| p in rules[id].patterns && d == DefinitionOf(id, p);
      assert PatternHit(t, input, rules[id], p, q);
    }
    if id in rules && s in rules[id].surfaces {
      if p :| PatternHit(t, input, rules[id], p, q) && p.id == x && p.patternType == y {
        SurfaceDefinition(rules, s, DefinitionOf(id, p));
      }
    }
  }

  lemma TriggeredIsHit(t: Tables, input: SurfaceInput, rules: map<Uuid, PolicyRule>, s: Surface, id: Uuid)
    requires InputOk(input) && OwnIds(rules)
    ensures RuleTriggers(t, input, SurfaceDefinitions(rules, s), id) <==>
      id in rules && s in rules[id].surfaces && RuleSpans(t, input, rules[id]) != {}
  {
    hide HitAt, SurfaceDefinitions, RuleSpans;
    var defs := SurfaceDefinitions(rules, s);
    if d, q :| d in defs && d.ruleId == id && HitAt(t, input, d, q) {
      SurfaceDefinition(rules, s, d);
      var p :| p in rules[id].patterns && d == DefinitionOf(id, p);
      assert PatternHit(t, input, rules[id], p, q);
      SpanIsHit(t, input, rules[id], q);
    }
    if id in rules && s in rules[id].surfaces && RuleSpans(t, input, rules[id]) != {} {
      var q :| q in RuleSpans(t, input, rules[id]);
      SpanIsHit(t, input, rules[id], q);
      var p :| PatternHit(t, input, rules[id], p, q);
      SurfaceDefinition(rules, s, DefinitionOf(id, p));
    }
  }

  // ---- One surface --------------------------------------------------------------

  /** `matches` shows exactly the hits of the rule. */
  ghost predicate ShowsHits(t: Tables, input: SurfaceInput, rule: PolicyRule, matches: seq<PatternMatch>)
    requires InputOk(input)
  {
    forall x, y, q :: Shows(matches, x, y, q) <==>
      exists p :: PatternHit(t, input, rule, p, q) && p.id == x && p.patternType == y
  }

  lemma ShownSpan(t: Tables, input: SurfaceInput, rule: PolicyRule, matches: seq<PatternMatch>, q: ByteSpan)
    requires InputOk(input) && ShowsHits(t, input, rule, matches)
    ensures q in RuleSpans(t, input, rule) <==> exists m :: m in matches && m.original == q
  {
    hide PatternHit, RuleSpans;
    SpanIsHit(t, input, rule, q);
    if p :| PatternHit(t, input, rule, p, q) {
      assert Shows(matches, p.id, p.patternType, q);
    }
    if m :| m in matches && m.original == q {
      assert Shows(matches, m.patternId, m.patternType, q);
    }
  }

  lemma ShownId(t: Tables, input: SurfaceInput, rule: PolicyRule, matches: seq<PatternMatch>, x: Uuid)
    requires InputOk(input) && ShowsHits(t, input, rule, matches)
    ensures x in RulePatternIds(t, input, rule) <==> exists m :: m in matches && m.patternId == x
  {
    hide PatternHit, RulePatternIds;
    IdIsHit(t, input, rule, x);
    if p, q :| PatternHit(t, input, rule, p, q) && p.id == x {
      assert Shows(matches, p.id, p.patternType, q);
    }
    if m :| m in matches && m.patternId == x {
      assert Shows(matches, m.patternId, m.patternType, m.original);
    }
  }

  /** `details_by_rule`. */
  method DetailsByRule(report: Report) returns (details: map<Uuid, seq<PatternMatch>>)
    requires UniqueRules(report)
    ensures forall r :: r in details <==> Triggers(report, r)
    ensures forall r, x, y, q :: r in details ==> (Shows(details[r], x, y, q) <==> Evidence(report, r, x, y, q))
  {
    hide Shows;
    details := map[];
    for n := 0 to |report|
      invariant forall k :: 0 <= k < n ==> report[k].ruleId in details && details[report[k].ruleId] == report[k].matches
      invariant forall r :: r in details ==> exists k :: 0 <= k < n && report[k].ruleId == r
    {
      details := details[report[n].ruleId := report[n].matches];
    }
  }

  /** The spans and pattern ids collected from a rule's details. */
  method Collect(matches: seq<PatternMatch>, ghost spans: set<ByteSpan>, ghost ids: set<Uuid>)
    returns (s: seq<ByteSpan>, i: seq<Uuid>)
    requires forall q :: q in spans <==> exists m :: m in matches && m.original == q
    requires forall x :: x in ids <==> exists m :: m in matches && m.patternId == x
    ensures s == OrderedSpans(spans) && i == SortedKeys(ids)
  {
    var allSpans := MapSeq((m: PatternMatch) => m.original, matches);
    var allIds := MapSeq((m: PatternMatch) => m.patternId, matches);
    forall q ensures q in allSpans <==> q in spans {
      if m :| m in matches && m.original == q {
        var k :| 0 <= k < |matches| && matches[k] == m;
        assert allSpans[k] == q;
      }
    }
    forall x ensures x in allIds <==> x in ids {
      if m :| m in matches && m.patternId == x {
        var k :| 0 <= k < |matches| && matches[k] == m;
        assert allIds[k] == x;
      }
    }
    s := SortDedupSpans(allSpans, spans);
    i := SortDedupIds(allIds, ids);
  }

  /** One trigger's matched surface: ordered details if the rule keeps them, none otherwise. */
  method SurfaceEntry(t: Tables, a: Analyzed, ghost rule: PolicyRule, s: Surface, ghost all: bool, detailed: bool, matches: seq<PatternMatch>)
    returns (entry: MatchedSurface)
    requires AnalyzedOk(a) && s in a.normalized
    requires detailed <==> all || NeedsDetails(rule)
    requires detailed ==> (InputForOk(a, s); ShowsHits(t, InputFor(a, s), rule, matches))
    ensures entry == SurfaceResult(t, a, rule, s, all)
  {
    hide RuleSpans, RulePatternIds, ShowsHits, AnalyzedOk, OrderedSpans, SortedKeys, InputFor, NeedsDetails;
    InputForOk(a, s);
    ghost var input := InputFor(a, s);
    if detailed {
      forall q ensures q in RuleSpans(t, input, rule) <==> exists m :: m in matches && m.original == q {
        ShownSpan(t, input, rule, matches, q);
      }
      forall x ensures x in RulePatternIds(t, input, rule) <==> exists m :: m in matches && m.patternId == x {
        ShownId(t, input, rule, matches, x);
      }
      var spans, ids := Collect(matches, RuleSpans(t, input, rule), RulePatternIds(t, input, rule));
      entry := MatchedSurface(s, spans, ids);
    } else {
      entry := MatchedSurface(s, [], []);
    }
  }

  type Matched = map<Uuid, seq<MatchedSurface>>

  /** What one surface adds to the entry of rule `id`. */
  ghost function Added(t: Tables, a: Analyzed, rules: map<Uuid, PolicyRule>, s: Surface, all: bool, id: Uuid): seq<MatchedSurface>
    requires AnalyzedOk(a)
  {
    if id in rules && HitOn(t, a, rules[id], s) then [SurfaceResult(t, a, rules[id], s, all)] else []
  }

  function Entry(m: Matched, id: Uuid): seq<MatchedSurface> { if id in m then m[id] else [] }

  /** `after` is `before` with the surface's result pushed for every rule hit on it. */
  ghost predicate SurfaceAdded(t: Tables, a: Analyzed, rules: map<Uuid, PolicyRule>, s: Surface, all: bool, before: Matched, after: Matched)
    requires AnalyzedOk(a)
  {
    && (forall id :: Entry(after, id) == Entry(before, id) + Added(t, a, rules, s, all, id))
    && (forall id :: id in after ==> id in before || Added(t, a, rules, s, all, id) != [])
  }

  /** The fast and detailed reports of one surface, read as hits of its rules. */
  ghost predicate FastReports(t: Tables, a: Analyzed, rules: map<Uuid, PolicyRule>, s: Surface, fast: Report)
    requires AnalyzedOk(a)
  {
    forall id :: Triggers(fast, id) <==> id in rules && HitOn(t, a, rules[id], s)
  }

  /** The details found for any rule on the surface show exactly its hits. */
  ghost predicate DetailsReport(t: Tables, a: Analyzed, rules: map<Uuid, PolicyRule>, s: Surface, details: map<Uuid, seq<PatternMatch>>)
    requires AnalyzedOk(a) && s in a.normalized
  {
    InputForOk(a, s);
    forall id :: id in rules && HitOn(t, a, rules[id], s) ==> id in details && ShowsHits(t, InputFor(a, s), rules[id], details[id])
  }

  lemma FastIsHits(t: Tables, a: Analyzed, rules: map<Uuid, PolicyRule>, s: Surface, fast: Report)
    requires AnalyzedOk(a) && s in a.normalized && OwnIds(rules)
    requires (InputForOk(a, s); forall id :: Triggers(fast, id) <==> RuleTriggers(t, InputFor(a, s), SurfaceDefinitions(rules, s), id))
    ensures FastReports(t, a, rules, s, fast)
  {
    hide Triggers, SurfaceDefinitions, RuleSpans, RuleTriggers;
    InputForOk(a, s);
    forall id ensures Triggers(fast, id) <==> id in rules && HitOn(t, a, rules[id], s) {
      TriggeredIsHit(t, InputFor(a, s), rules, s, id);
    }
  }

  lemma DetailsAreHits(t: Tables, a: Analyzed, rules: map<Uuid, PolicyRule>, s: Surface, report: Report, details: map<Uuid, seq<PatternMatch>>)
    requires AnalyzedOk(a) && s in a.normalized && OwnIds(rules)
    requires (InputForOk(a, s); forall id :: Triggers(report, id) <==> RuleTriggers(t, InputFor(a, s), SurfaceDefinitions(rules, s), id))
    requires (InputForOk(a, s); forall id, x, y, q ::
      Evidence(report, id, x, y, q) <==> RuleShows(t, InputFor(a, s), SurfaceDefinitions(rules, s), id, x, y, q))
    requires forall r :: r in details <==> Triggers(report, r)
    requires forall r, x, y, q :: r in details ==> (Shows(details[r], x, y, q) <==> Evidence(report, r, x, y, q))
    ensures DetailsReport(t, a, rules, s, details)
  {
    hide Triggers, Evidence, SurfaceDefinitions, RuleSpans, RuleTriggers, RuleShows, Shows, PatternHit;
    InputForOk(a, s);
    var input := InputFor(a, s);
    forall id | id in rules && HitOn(t, a, rules[id], s) ensures id in details && ShowsHits(t, input, rules[id], details[id]) {
      TriggeredIsHit(t, input, rules, s, id);
      forall x, y, q ensures Shows(details[id], x, y, q) <==>
        exists p :: PatternHit(t, input, rules[id], p, q) && p.id == x && p.patternType == y
      {
        ShownIsHit(t, input, rules, s, id, x, y, q);
      }
    }
  }

  /** The two passes over one surface. */
  method MatchSurface(t: Tables, a: Analyzed, ghost rules: map<Uuid, PolicyRule>, s: Surface, m: SurfaceMatcher, ghost all: bool)
    returns (fast: Report, details: map<Uuid, seq<PatternMatch>>)
    requires AnalyzedOk(a) && s in a.normalized && OwnIds(rules) && SurfaceCompiled(t, rules, s, m, all)
    ensures UniqueRules(fast) && FastReports(t, a, rules, s, fast)
    ensures (exists k :: 0 <= k < |fast| && fast[k].ruleId in m.detailed) ==> DetailsReport(t, a, rules, s, details)
  {
    hide AnalyzedOk, BuiltFrom, UniqueRules, Triggers, Evidence, RuleTriggers, RuleShows, FastReports, DetailsReport, SurfaceDefinitions, Shows, OwnIds, DetailedRules;
    InputForOk(a, s);
    var input := InputFor(a, s);
    ghost var defs := SurfaceDefinitions(rules, s);
    fast := MatchNormalizedWithSecurity(t, m.matcher, defs, input, false);
    FastIsHits(t, a, rules, s, fast);
    details := map[];
    if exists k :: 0 <= k < |fast| && fast[k].ruleId in m.detailed {
      var detailed := MatchNormalizedWithSecurity(t, m.matcher, defs, input, true);
      details := DetailsByRule(detailed);
      DetailsAreHits(t, a, rules, s, detailed, details);
    }
  }

  lemma TriggeredEntry(t: Tables, a: Analyzed, rules: map<Uuid, PolicyRule>, s: Surface, fast: Report, k: nat)
    requires AnalyzedOk(a) && FastReports(t, a, rules, s, fast) && k < |fast|
    ensures fast[k].ruleId in rules && HitOn(t, a, rules[fast[k].ruleId], s)
  {
    assert Triggers(fast, fast[k].ruleId);
  }

  predicate Earlier(fast: Report, n: nat, id: Uuid)
    requires n <= |fast|
  {
    exists k :: 0 <= k < n && fast[k].ruleId == id
  }

  /** The body of the loop over triggers: the matched surface pushed for the trigger's rule. */
  method TriggerEntry(t: Tables, a: Analyzed, ghost rules: map<Uuid, PolicyRule>, s: Surface, m: SurfaceMatcher, ghost all: bool,
                      fast: Report, details: map<Uuid, seq<PatternMatch>>, n: nat)
    returns (entry: MatchedSurface)
    requires AnalyzedOk(a) && s in a.normalized && SurfaceCompiled(t, rules, s, m, all)
    requires n < |fast| && FastReports(t, a, rules, s, fast)
    requires (exists k :: 0 <= k < |fast| && fast[k].ruleId in m.detailed) ==> DetailsReport(t, a, rules, s, details)
    ensures Added(t, a, rules, s, all, fast[n].ruleId) == [entry]
  {
    hide AnalyzedOk, SurfaceCompiled, ShowsHits, HitOn, SurfaceResult, FastReports, DetailsReport, InputFor, NeedsDetails;
    var id := fast[n].ruleId;
    TriggeredEntry(t, a, rules, s, fast, n);
    DetailedIff(rules, s, all, m, id, t, a);
    var matches := [];
    if id in m.detailed {
      DetailsFound(t, a, rules, s, details, id);
      matches := details[id];
    }
    entry := SurfaceEntry(t, a, rules[id], s, all, id in m.detailed, matches);
  }

  /** The whole body of the surface loop. */
  method AddSurface(t: Tables, a: Analyzed, ghost rules: map<Uuid, PolicyRule>, s: Surface, m: SurfaceMatcher, ghost all: bool, before: Matched)
    returns (after: Matched)
    requires AnalyzedOk(a) && s in a.normalized && OwnIds(rules) && SurfaceCompiled(t, rules, s, m, all)
    ensures SurfaceAdded(t, a, rules, s, all, before, after)
  {
    hide AnalyzedOk, OwnIds, SurfaceCompiled, HitOn, Added, FastReports, DetailsReport, UniqueRules, Pushed, SurfaceAdded;
    var fast, details := MatchSurface(t, a, rules, s, m, all);
    after := before;
    NonePushed(t, a, rules, s, all, before, fast);
    for n := 0 to |fast|
      invariant Pushed(t, a, rules, s, all, before, fast, n, after)
    {
      var id := fast[n].ruleId;
      var entry := TriggerEntry(t, a, rules, s, m, all, fast, details, n);
      PushNext(t, a, rules, s, all, before, fast, n, after, entry);
      after := after[id := Entry(after, id) + [entry]];
    }
    AllPushed(t, a, rules, s, all, before, fast, after);
  }

  /** The first `n` triggers' entries are pushed. */
  ghost predicate Pushed(t: Tables, a: Analyzed, rules: map<Uuid, PolicyRule>, s: Surface, all: bool,
                         before: Matched, fast: Report, n: nat, after: Matched)
    requires AnalyzedOk(a) && n <= |fast|
  {
    && (forall id :: Entry(after, id) == (if Earlier(fast, n, id) then Entry(before, id) + Added(t, a, rules, s, all, id) else Entry(before, id)))
    && (forall id :: id in after ==> id in before || Earlier(fast, n, id))
  }

  lemma NonePushed(t: Tables, a: Analyzed, rules: map<Uuid, PolicyRule>, s: Surface, all: bool, before: Matched, fast: Report)
    requires AnalyzedOk(a)
    ensures Pushed(t, a, rules, s, all, before, fast, 0, before)
  {
  }

  lemma PushNext(t: Tables, a: Analyzed, rules: map<Uuid, PolicyRule>, s: Surface, all: bool,
                 before: Matched, fast: Report, n: nat, after: Matched, entry: MatchedSurface)
    requires AnalyzedOk(a) && n < |fast| && UniqueRules(fast) && Pushed(t, a, rules, s, all, before, fast, n, after)
    requires Added(t, a, rules, s, all, fast[n].ruleId) == [entry]
    ensures Pushed(t, a, rules, s, all, before, fast, n + 1, after[fast[n].ruleId := Entry(after, fast[n].ruleId) + [entry]])
  {
    EarlierStep(fast, n);
    hide UniqueRules, Earlier, Added, AnalyzedOk;
  }

  lemma AllPushed(t: Tables, a: Analyzed, rules: map<Uuid, PolicyRule>, s: Surface, all: bool, before: Matched, fast: Report, after: Matched)
    requires AnalyzedOk(a) && FastReports(t, a, rules, s, fast) && Pushed(t, a, rules, s, all, before, fast, |fast|, after)
    ensures SurfaceAdded(t, a, rules, s, all, before, after)
  {
    AllAdded(t, a, rules, s, all, fast);
    hide Earlier, Added, AnalyzedOk, FastReports;
    forall id ensures Entry(after, id) == Entry(before, id) + Added(t, a, rules, s, all, id) {
      assert Entry(before, id) + [] == Entry(before, id);
    }
  }

  lemma AllAdded(t: Tables, a: Analyzed, rules: map<Uuid, PolicyRule>, s: Surface, all: bool, fast: Report)
    requires AnalyzedOk(a) && FastReports(t, a, rules, s, fast)
    ensures forall id :: Earlier(fast, |fast|, id) <==> Added(t, a, rules, s, all, id) != []
  {
    hide HitOn, SurfaceResult, Earlier, FastReports, AnalyzedOk;
    AllEarlier(t, a, rules, s, fast);
  }

  lemma DetailsFound(t: Tables, a: Analyzed, rules: map<Uuid, PolicyRule>, s: Surface, details: map<Uuid, seq<PatternMatch>>, id: Uuid)
    requires AnalyzedOk(a) && s in a.normalized && DetailsReport(t, a, rules, s, details)
    requires id in rules && HitOn(t, a, rules[id], s)
    ensures id in details && (InputForOk(a, s); ShowsHits(t, InputFor(a, s), rules[id], details[id]))
  {
    hide ShowsHits, HitOn;
  }

  lemma DetailedIff(rules: map<Uuid, PolicyRule>, s: Surface, all: bool, m: SurfaceMatcher, id: Uuid, t: Tables, a: Analyzed)
    requires AnalyzedOk(a) && id in rules && HitOn(t, a, rules[id], s) && SurfaceCompiled(t, rules, s, m, all)
    ensures id in m.detailed <==> all || NeedsDetails(rules[id])
  {
    hide BuiltFrom, RuleSpans, NeedsDetails, AnalyzedOk, InputFor;
  }

  lemma EarlierStep(fast: Report, n: nat)
    requires UniqueRules(fast) && n < |fast|
    ensures forall id :: Earlier(fast, n + 1, id) <==> Earlier(fast, n, id) || id == fast[n].ruleId
    ensures !Earlier(fast, n, fast[n].ruleId)
  {
  }

  lemma AllEarlier(t: Tables, a: Analyzed, rules: map<Uuid, PolicyRule>, s: Surface, fast: Report)
    requires AnalyzedOk(a) && FastReports(t, a, rules, s, fast)
    ensures forall id :: Earlier(fast, |fast|, id) <==> id in rules && HitOn(t, a, rules[id], s)
  {
    hide HitOn;
    forall id ensures Earlier(fast, |fast|, id) <==> id in rules && HitOn(t, a, rules[id], s) {
      assert Triggers(fast, id) <==> Earlier(fast, |fast|, id);
    }
  }

  // ---- All surfaces ---------------------------------------------------------------

  ghost predicate Collected(t: Tables, a: Analyzed, rules: map<Uuid, PolicyRule>, all: bool, n: nat, m: Matched)
    requires AnalyzedOk(a) && n <= 6
  {
    && (forall id :: id in rules ==> Entry(m, id) == SurfaceResults(t, a, rules[id], all, n))
    && (forall id :: id in m ==> id in rules && SurfaceResults(t, a, rules[id], all, n) != [])
  }

  lemma CollectedStep(t: Tables, a: Analyzed, rules: map<Uuid, PolicyRule>, all: bool, n: nat, before: Matched, after: Matched)
    requires AnalyzedOk(a) && n < 6 && Collected(t, a, rules, all, n, before)
    requires SurfaceAdded(t, a, rules, ALL_SURFACES[n], all, before, after)
    ensures Collected(t, a, rules, all, n + 1, after)
  {
    hide HitOn, SurfaceResult, AnalyzedOk;
    forall id | id in rules ensures Entry(after, id) == SurfaceResults(t, a, rules[id], all, n + 1) {
      assert Entry(after, id) == Entry(before, id) + Added(t, a, rules, ALL_SURFACES[n], all, id);
    }
    forall id | id in after ensures id in rules && SurfaceResults(t, a, rules[id], all, n + 1) != [] {
      assert id in before || Added(t, a, rules, ALL_SURFACES[n], all, id) != [];
    }
  }

  lemma SurfaceSkipped(t: Tables, a: Analyzed, rules: map<Uuid, PolicyRule>, s: Surface, all: bool, m: Matched)
    requires AnalyzedOk(a) && (s !in a.normalized || RulesOn(rules, s) == {})
    ensures SurfaceAdded(t, a, rules, s, all, m, m)
  {
    hide RuleSpans, SurfaceResult;
    forall id ensures Added(t, a, rules, s, all, id) == [] {
      assert id in rules && s in rules[id].surfaces ==> id in RulesOn(rules, s);
    }
    forall id ensures Entry(m, id) == Entry(m, id) + [] {
    }
  }

  method CollectSurfaces(t: Tables, a: Analyzed, snap: Snapshot, ghost all: bool) returns (matched: Matched)
    requires AnalyzedOk(a) && OwnIds(snap.rules) && SurfacesCompiled(t, snap.rules, snap.surfaces, all)
    ensures Collected(t, a, snap.rules, all, 6, matched)
  {
    hide AnalyzedOk, OwnIds, SurfaceCompiled, RulesOn, SurfaceAdded, Collected;
    matched := map[];
    NothingCollected(t, a, snap.rules, all);
    for n := 0 to 6
      invariant Collected(t, a, snap.rules, all, n, matched)
    {
      var s := ALL_SURFACES[n];
      var before := matched;
      if s in snap.surfaces && s in a.normalized {
        matched := AddSurface(t, a, snap.rules, s, snap.surfaces[s], all, before);
      } else {
        SurfaceSkipped(t, a, snap.rules, s, all, before);
      }
      CollectedStep(t, a, snap.rules, all, n, before, matched);
    }
  }

  lemma NothingCollected(t: Tables, a: Analyzed, rules: map<Uuid, PolicyRule>, all: bool)
    requires AnalyzedOk(a)
    ensures Collected(t, a, rules, all, 0, map[])
  {
  }

  // ---- The entries, in rule-id order --------------------------------------------------

  predicate SurfaceOrder(x: MatchedSurface, y: MatchedSurface) { SurfaceCode(x.surface) <= SurfaceCode(y.surface) }

  lemma {:induction false} ResultsOrdered(t: Tables, a: Analyzed, rule: PolicyRule, all: bool, n: nat)
    requires AnalyzedOk(a) && n <= 6
    ensures Sorted(SurfaceResults(t, a, rule, all, n), SurfaceOrder)
    ensures forall x :: x in SurfaceResults(t, a, rule, all, n) ==> SurfaceCode(x.surface) < n
  {
    hide HitOn, AnalyzedOk, OrderedSpans, SortedKeys, RuleSpans, RulePatternIds;
    if n > 0 {
      ResultsOrdered(t, a, rule, all, n - 1);
      var rest := SurfaceResults(t, a, rule, all, n - 1);
      forall i | 0 <= i < |rest| ensures SurfaceCode(rest[i].surface) < n - 1 {
        assert rest[i] in rest;
      }
      CodeAt(n - 1);
    }
  }

  lemma {:induction false} SomeResult(t: Tables, a: Analyzed, rule: PolicyRule, all: bool, n: nat)
    requires AnalyzedOk(a) && n <= 6
    ensures SurfaceResults(t, a, rule, all, n) != [] <==> exists s :: SurfaceCode(s) < n && HitOn(t, a, rule, s)
  {
    hide HitOn, AnalyzedOk, SurfaceResult;
    if n > 0 {
      SomeResult(t, a, rule, all, n - 1);
      CodeAt(n - 1);
    }
  }

  lemma CollectedKeys(t: Tables, a: Analyzed, rules: map<Uuid, PolicyRule>, all: bool, m: Matched)
    requires AnalyzedOk(a) && Collected(t, a, rules, all, 6, m)
    ensures m.Keys == TriggeredRules(t, a, rules)
  {
    hide HitOn, AnalyzedOk, SurfaceResults;
    forall id ensures id in m.Keys <==> id in TriggeredRules(t, a, rules) {
      if id in rules {
        SomeResult(t, a, rules[id], all, 6);
        assert forall s :: SurfaceCode(s) < 6;
      }
    }
  }

  /** The closure over the collected entries. */
  method RuleEntry(t: Tables, a: Analyzed, snap: Snapshot, ghost all: bool, matched: Matched, id: Uuid)
    returns (r: Result<MatchedRule, PolicyMatchError>)
    requires AnalyzedOk(a) && OwnIds(snap.rules) && Collected(t, a, snap.rules, all, 6, matched) && id in matched
    ensures id in snap.rules && r == Ok(MatchedRuleOf(t, a, snap, snap.rules[id], all))
  {
    hide AnalyzedOk, Collected, SurfaceResults, Sorted, SurfaceOrder;
    EntryIsResult(t, a, snap.rules, all, matched, id);
    if id !in snap.rules {
      return Err(UnknownRule(id));
    }
    var rule := snap.rules[id];
    ResultsOrdered(t, a, rule, all, 6);
    SortSorted(matched[id], SurfaceOrder);
    r := Ok(MatchedRule(snap.policyId, snap.version, snap.scope, id, rule.name, rule.customReason,
                        Sort(matched[id], SurfaceOrder), rule.actions));
  }

  method RuleEntries(t: Tables, a: Analyzed, snap: Snapshot, ghost all: bool, matched: Matched, ids: seq<Uuid>)
    returns (r: Result<seq<MatchedRule>, PolicyMatchError>)
    requires AnalyzedOk(a) && OwnIds(snap.rules) && Collected(t, a, snap.rules, all, 6, matched)
    requires forall i :: 0 <= i < |ids| ==> ids[i] in matched && ids[i] in snap.rules
    ensures r == Ok(MatchedRules(t, a, snap, all, ids))
  {
    hide AnalyzedOk, OwnIds, Collected, MatchedRuleOf;
    var out := [];
    for n := 0 to |ids|
      invariant |out| == n
      invariant forall i :: 0 <= i < n ==> out[i] == MatchedRuleOf(t, a, snap, snap.rules[ids[i]], all)
    {
      var entry := RuleEntry(t, a, snap, all, matched, ids[n]);
      out := out + [entry.value];
    }
    assert out == MatchedRules(t, a, snap, all, ids);
    r := Ok(out);
  }

  /** `evaluate_normalized`. */
  method EvaluateNormalized(t: Tables, a: Analyzed, snap: Snapshot, ghost policy: ContentPolicy, ghost all: bool)
    returns (r: Result<seq<MatchedRule>, PolicyMatchError>)
    requires AnalyzedOk(a) && CompiledFrom(t, policy, all, snap)
    ensures r == Ok(Evaluated(t, a, snap, all))
  {
    SnapshotParts(t, policy, all, snap);
    hide AnalyzedOk, CompiledFrom, OwnIds, Collected, HitOn, SurfacesCompiled, MatchedRules, SortedKeys;
    var matched := CollectSurfaces(t, a, snap, all);
    CollectedKeys(t, a, snap.rules, all, matched);
    var ids := SortedKeys(matched.Keys);
    r := RuleEntries(t, a, snap, all, matched, ids);
  }

  lemma SnapshotParts(t: Tables, policy: ContentPolicy, all: bool, snap: Snapshot)
    requires CompiledFrom(t, policy, all, snap)
    ensures OwnIds(snap.rules) && SurfacesCompiled(t, snap.rules, snap.surfaces, all)
  {
    hide SurfacesCompiled, Fingerprint.ProfileFingerprint;
  }

  lemma EntryIsResult(t: Tables, a: Analyzed, rules: map<Uuid, PolicyRule>, all: bool, m: Matched, id: Uuid)
    requires AnalyzedOk(a) && Collected(t, a, rules, all, 6, m) && id in m
    ensures id in rules && m[id] == SurfaceResults(t, a, rules[id], all, 6)
  {
  }

  // ---- Production and diagnostic snapshots ------------------------------------------

  predicate ActionsNeedDetails(actions: seq<PolicyAction>) {
    exists i :: 0 <= i < |actions| && (actions[i].actionType == CensorMatch || actions[i].actionType == Log)
  }

  function EraseSurfaces(surfaces: seq<MatchedSurface>): seq<MatchedSurface> {
    if surfaces == [] then []
    else EraseSurfaces(surfaces[..|surfaces| - 1]) + [MatchedSurface(surfaces[|surfaces| - 1].surface, [], [])]
  }

  /** A matched rule without CENSOR_MATCH or LOG loses its spans and pattern ids, and nothing else. */
  function EraseUnneeded(m: MatchedRule): MatchedRule {
    if ActionsNeedDetails(m.actions) then m else m.(surfaces := EraseSurfaces(m.surfaces))
  }

  lemma {:induction false} ErasedSurfaces(t: Tables, a: Analyzed, rule: PolicyRule, n: nat)
    requires AnalyzedOk(a) && n <= 6
    ensures SurfaceResults(t, a, rule, false, n)
      == if NeedsDetails(rule) then SurfaceResults(t, a, rule, true, n) else EraseSurfaces(SurfaceResults(t, a, rule, true, n))
  {
    hide HitOn, AnalyzedOk, OrderedSpans, SortedKeys, RuleSpans, RulePatternIds, InputFor, NeedsDetails;
    if n > 0 {
      ErasedSurfaces(t, a, rule, n - 1);
      var rest := SurfaceResults(t, a, rule, true, n - 1);
      if HitOn(t, a, rule, ALL_SURFACES[n - 1]) {
        HitIsNormalized(t, a, rule, ALL_SURFACES[n - 1]);
        var last := SurfaceResult(t, a, rule, ALL_SURFACES[n - 1], true);
        assert (rest + [last])[..|rest|] == rest;
      } else {
        assert rest + [] == rest;
        assert SurfaceResults(t, a, rule, false, n - 1) + [] == SurfaceResults(t, a, rule, false, n - 1);
      }
    }
  }

  lemma HitIsNormalized(t: Tables, a: Analyzed, rule: PolicyRule, s: Surface)
    requires AnalyzedOk(a) && HitOn(t, a, rule, s)
    ensures s in a.normalized
  {
  }

  lemma SameRules(policy: ContentPolicy, rules: map<Uuid, PolicyRule>, names: map<string, Uuid>,
                  rules': map<Uuid, PolicyRule>, names': map<string, Uuid>)
    requires RulesOf(policy, rules, names) && RulesOf(policy, rules', names')
    ensures rules == rules'
  {
    assert forall id :: id in rules ==> rules[id] in policy.rules && id in rules' && rules'[id] == rules[id];
    assert forall id :: id in rules' ==> rules'[id] in policy.rules && id in rules;
  }

  /**
   * The production snapshot reports what the diagnostic one reports, with spans
   * and pattern ids erased exactly for rules without CENSOR_MATCH or LOG.
   */
  lemma ProductionErasesDiagnostic(t: Tables, a: Analyzed, policy: ContentPolicy, production: Snapshot, diagnostic: Snapshot)
    requires AnalyzedOk(a)
    requires CompiledFrom(t, policy, false, production) && CompiledFrom(t, policy, true, diagnostic)
    ensures Evaluated(t, a, production, false) == MapSeq(EraseUnneeded, Evaluated(t, a, diagnostic, true))
  {
    SameSnapshots(t, policy, production, diagnostic);
    hide AnalyzedOk, CompiledFrom, HitOn, MatchedRuleOf, EraseUnneeded;
    var ids := SortedKeys(TriggeredRules(t, a, production.rules));
    forall i | 0 <= i < |ids|
      ensures Evaluated(t, a, production, false)[i] == EraseUnneeded(Evaluated(t, a, diagnostic, true)[i])
    {
      assert ids[i] in ids;
      ErasedRule(t, a, production, diagnostic, production.rules[ids[i]]);
    }
  }

  lemma ErasedRule(t: Tables, a: Analyzed, production: Snapshot, diagnostic: Snapshot, rule: PolicyRule)
    requires AnalyzedOk(a)
    requires production.policyId == diagnostic.policyId && production.scope == diagnostic.scope && production.version == diagnostic.version
    ensures MatchedRuleOf(t, a, production, rule, false) == EraseUnneeded(MatchedRuleOf(t, a, diagnostic, rule, true))
  {
    hide AnalyzedOk, SurfaceResults, ActionsNeedDetails, EraseSurfaces, NeedsDetails;
    ErasedSurfaces(t, a, rule, 6);
    SameNeed(rule);
  }

  lemma SameNeed(rule: PolicyRule)
    ensures NeedsDetails(rule) <==> ActionsNeedDetails(rule.actions)
  {
  }

  lemma SameSnapshots(t: Tables, policy: ContentPolicy, p: Snapshot, d: Snapshot)
    requires CompiledFrom(t, policy, false, p) && CompiledFrom(t, policy, true, d)
    ensures p.policyId == d.policyId && p.scope == d.scope && p.version == d.version && p.rules == d.rules
  {
    hide Fingerprint.ProfileFingerprint, SurfacesCompiled, RulesOf;
    SameRules(policy, p.rules, p.ruleNames, d.rules, d.ruleNames);
  }
}
