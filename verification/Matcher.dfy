/**
 * matcher.rs: patterns deduplicated over rules, one overlapping search per
 * view, boundary checks on candidates, and the merge of the two views. The
 * automaton is replaced by its specification: every occurrence of every
 * pattern. Positions in a view are scalar indices.
 */
module Matcher {
  import opened Wrappers
  import opened Spans
  import opened PolicyModel
  import opened TextTables

  /** A normalized text with the source span of every scalar; `security` marks the auxiliary view. */
  datatype View = View(text: string, source: seq<ByteSpan>, security: bool)

  ghost predicate ViewOk(v: View) { |v.source| == |v.text| }

  datatype PatternDefinition = PatternDefinition(ruleId: Uuid, patternId: Uuid, pattern: string, patternType: PatternType)

  datatype Target = Target(ruleId: Uuid, patternId: Uuid)

  datatype CompiledPattern = CompiledPattern(text: string, patternType: PatternType, targets: seq<Target>)

  datatype CompiledMatcher = CompiledMatcher(canonical: seq<CompiledPattern>, security: Option<seq<CompiledPattern>>)

  datatype BuildError = EmptyPattern(ruleId: Uuid, patternId: Uuid)

  datatype PatternMatch = PatternMatch(
    patternId: Uuid, patternType: PatternType, start: nat, end: nat, original: ByteSpan)

  datatype RuleTrigger = RuleTrigger(ruleId: Uuid, matches: seq<PatternMatch>)

  type Report = seq<RuleTrigger>

  // ---- Occurrences ---------------------------------------------------------

  datatype Found = Found(pattern: nat, start: nat, end: nat)

  predicate Occurs(text: string, i: nat, j: nat, pattern: string) {
    i <= j <= |text| && text[i..j] == pattern
  }

  /** `find_overlapping_iter`: all occurrences of all patterns, in some order. */
  method FindOverlapping(patterns: seq<CompiledPattern>, text: string) returns (found: seq<Found>)
    ensures forall f :: f in found <==> f.pattern < |patterns| && Occurs(text, f.start, f.end, patterns[f.pattern].text)
  {
    found := [];
    for k := 0 to |patterns|
      invariant forall f :: f in found <==> f.pattern < k && Occurs(text, f.start, f.end, patterns[f.pattern].text)
    {
      var n := |patterns[k].text|;
      for i := 0 to |text| + 1
        invariant forall f :: f in found <==>
          && f.pattern <= k && Occurs(text, f.start, f.end, patterns[f.pattern].text)
          && (f.pattern == k ==> f.start < i)
      {
        if i + n <= |text| && text[i..i + n] == patterns[k].text {
          found := found + [Found(k, i, i + n)];
        }
      }
    }
  }

  /** `span_for`: the source span of [i, j), which is empty outside the view. */
  function SourceSpan(v: View, i: nat, j: nat): ByteSpan {
    if i < j <= |v.source| then Hull(v.source[i..j]) else ByteSpan(0, 0)
  }

  predicate IsToken(t: Tables, v: View, c: char) { t.isToken(c) && !(v.security && c == '_') }

  predicate LeftOk(t: Tables, v: View, i: nat)
    requires i <= |v.text|
  {
    i == 0 || !IsToken(t, v, v.text[i - 1])
  }

  predicate RightOk(t: Tables, v: View, j: nat)
    requires j <= |v.text|
  {
    j == |v.text| || !IsToken(t, v, v.text[j])
  }

  /** `matches_boundary`. */
  predicate MatchesBoundary(t: Tables, v: View, i: nat, j: nat, p: PatternType)
    requires i <= j <= |v.text|
  {
    match p
    case ExactWord => LeftOk(t, v, i) && RightOk(t, v, j)
    case Phrase => LeftOk(t, v, i) && RightOk(t, v, j)
    case Prefix => LeftOk(t, v, i)
    case Suffix => RightOk(t, v, j)
    case Contains => true
  }

  /** `span_is_within_original`. */
  predicate WithinOriginal(v: View, i: nat, j: nat, outer: ByteSpan)
    requires i <= j <= |v.source|
  {
    i < j && forall n :: i <= n < j ==> outer.start <= v.source[n].start && v.source[n].end <= outer.end
  }

  predicate IsExcluded(v: View, i: nat, j: nat, excluded: seq<ByteSpan>)
    requires i <= j <= |v.source|
  {
    exists k :: 0 <= k < |excluded| && WithinOriginal(v, i, j, excluded[k])
  }

  /** An occurrence that counts: on the pattern's boundaries, with a source span, and not inside an excluded range. */
  predicate Admissible(t: Tables, v: View, excluded: seq<ByteSpan>, text: string, p: PatternType, i: nat, j: nat)
    requires ViewOk(v)
  {
    i < j && Occurs(v.text, i, j, text) && MatchesBoundary(t, v, i, j, p) && !IsExcluded(v, i, j, excluded)
  }

  // ---- Reports as sets of events -----------------------------------------------

  datatype Event = Event(ruleId: Uuid, item: PatternMatch)

  ghost predicate Triggers(report: Report, rule: Uuid) {
    exists k :: 0 <= k < |report| && report[k].ruleId == rule
  }

  ghost predicate Records(report: Report, e: Event) {
    exists k :: 0 <= k < |report| && report[k].ruleId == e.ruleId && e.item in report[k].matches
  }

  /** `indexes` locates each rule's only entry. */
  ghost predicate Indexed(report: Report, indexes: map<Uuid, nat>) {
    && (forall r :: r in indexes ==> indexes[r] < |report| && report[indexes[r]].ruleId == r)
    && (forall k :: 0 <= k < |report| ==> report[k].ruleId in indexes && indexes[report[k].ruleId] == k)
  }

  ghost predicate UniqueRules(report: Report) {
    forall i, j :: 0 <= i < j < |report| ==> report[i].ruleId != report[j].ruleId
  }

  lemma IndexedUnique(report: Report, indexes: map<Uuid, nat>)
    requires Indexed(report, indexes)
    ensures UniqueRules(report)
  {
  }

  /** `entry(rule).or_insert_with(push)`, then record the match when details are wanted. */
  method RecordEvent(report: Report, indexes: map<Uuid, nat>, rule: Uuid, items: seq<PatternMatch>)
    returns (r: Report, ix: map<Uuid, nat>)
    requires Indexed(report, indexes)
    ensures Indexed(r, ix)
    ensures forall x :: Triggers(r, x) <==> Triggers(report, x) || x == rule
    ensures forall e :: Records(r, e) <==> Records(report, e) || (e.ruleId == rule && e.item in items)
  {
    r, ix := report, indexes;
    if rule !in ix {
      ix := ix[rule := |r|];
      r := r + [RuleTrigger(rule, [])];
    }
    assert Triggers(r, rule) by {
      assert r[ix[rule]].ruleId == rule;
    }
    assert forall k :: 0 <= k < |report| ==> r[k] == report[k];
    var k := ix[rule];
    var before := r;
    r := r[k := RuleTrigger(rule, r[k].matches + items)];
    RecordedAt(before, r, k, rule, items);
    RecordedNew(report, before, rule);
  }

  lemma RecordedNew(report: Report, r: Report, rule: Uuid)
    requires |report| <= |r| <= |report| + 1 && r[..|report|] == report
    requires |r| > |report| ==> r[|report|] == RuleTrigger(rule, [])
    requires Triggers(r, rule)
    ensures forall x :: Triggers(r, x) <==> Triggers(report, x) || x == rule
    ensures forall e :: Records(r, e) <==> Records(report, e)
  {
    assert forall k :: 0 <= k < |report| ==> r[k] == report[k];
  }

  lemma RecordedAt(before: Report, after: Report, k: nat, rule: Uuid, items: seq<PatternMatch>)
    requires k < |before| && before[k].ruleId == rule
    requires after == before[k := RuleTrigger(rule, before[k].matches + items)]
    ensures forall x :: Triggers(after, x) <==> Triggers(before, x)
    ensures forall e :: Records(after, e) <==> Records(before, e) || (e.ruleId == rule && e.item in items)
  {
    forall x ensures Triggers(after, x) <==> Triggers(before, x) {
      assert forall i :: 0 <= i < |before| ==> before[i].ruleId == after[i].ruleId;
    }
    forall e ensures Records(after, e) <==> Records(before, e) || (e.ruleId == rule && e.item in items) {
      if i: nat :| i < |before| && before[i].ruleId == e.ruleId && e.item in before[i].matches {
        assert e.item in after[i].matches && after[i].ruleId == e.ruleId;
      }
      if i: nat :| i < |after| && after[i].ruleId == e.ruleId && e.item in after[i].matches {
        assert i != k ==> before[i] == after[i];
      }
      if e.ruleId == rule && e.item in items {
        assert after[k].ruleId == rule && e.item in after[k].matches;
      }
    }
  }

  // ---- One view ------------------------------------------------------------------

  /** `e` is what an admissible occurrence of one of its targets' patterns reports. */
  ghost predicate ViewEvent(t: Tables, v: View, excluded: seq<ByteSpan>, patterns: seq<CompiledPattern>, e: Event)
    requires ViewOk(v)
  {
    exists k :: 0 <= k < |patterns| && PatternEvent(t, v, excluded, patterns[k], e)
  }

  ghost predicate PatternEvent(t: Tables, v: View, excluded: seq<ByteSpan>, p: CompiledPattern, e: Event)
    requires ViewOk(v)
  {
    && Target(e.ruleId, e.item.patternId) in p.targets
    && Admissible(t, v, excluded, p.text, p.patternType, e.item.start, e.item.end)
    && e.item == PatternMatch(e.item.patternId, p.patternType, e.item.start, e.item.end,
                              SourceSpan(v, e.item.start, e.item.end))
  }

  /** The events of one candidate. */
  ghost predicate FoundEvent(t: Tables, v: View, excluded: seq<ByteSpan>, patterns: seq<CompiledPattern>, f: Found, e: Event)
    requires ViewOk(v)
  {
    && f.pattern < |patterns| && f.start == e.item.start && f.end == e.item.end
    && PatternEvent(t, v, excluded, patterns[f.pattern], e)
  }

  ghost predicate SeenEvent(t: Tables, v: View, excluded: seq<ByteSpan>, patterns: seq<CompiledPattern>, found: seq<Found>, e: Event)
    requires ViewOk(v)
  {
    exists m :: 0 <= m < |found| && FoundEvent(t, v, excluded, patterns, found[m], e)
  }

  lemma SeenAppend(t: Tables, v: View, excluded: seq<ByteSpan>, patterns: seq<CompiledPattern>, found: seq<Found>, n: nat, e: Event)
    requires ViewOk(v) && n < |found|
    ensures SeenEvent(t, v, excluded, patterns, found[..n + 1], e)
      <==> SeenEvent(t, v, excluded, patterns, found[..n], e) || FoundEvent(t, v, excluded, patterns, found[n], e)
  {
    hide FoundEvent;
    var a, b := found[..n], found[..n + 1];
    assert b[n] == found[n];
    assert forall m :: 0 <= m < n ==> a[m] == b[m];
  }

  /** Every event of the view is seen in a complete candidate list. */
  lemma AllSeen(t: Tables, v: View, excluded: seq<ByteSpan>, patterns: seq<CompiledPattern>, found: seq<Found>, e: Event)
    requires ViewOk(v)
    requires forall f :: f in found <==> f.pattern < |patterns| && Occurs(v.text, f.start, f.end, patterns[f.pattern].text)
    ensures SeenEvent(t, v, excluded, patterns, found, e) <==> ViewEvent(t, v, excluded, patterns, e)
  {
    if k: nat :| k < |patterns| && PatternEvent(t, v, excluded, patterns[k], e) {
      var f := Found(k, e.item.start, e.item.end);
      assert f in found;
      var m :| 0 <= m < |found| && found[m] == f;
      assert FoundEvent(t, v, excluded, patterns, found[m], e);
    }
  }

  ghost predicate TargetsRule(targets: seq<Target>, rule: Uuid) {
    exists q :: Target(rule, q) in targets
  }

  /** The loop over one candidate's targets. */
  method RecordTargets(report: Report, indexes: map<Uuid, nat>, targets: seq<Target>, item: PatternMatch, details: bool)
    returns (r: Report, ix: map<Uuid, nat>)
    requires Indexed(report, indexes)
    ensures Indexed(r, ix)
    ensures forall x :: Triggers(r, x) <==> Triggers(report, x) || TargetsRule(targets, x)
    ensures forall e: Event :: Records(r, e) <==>
      (Records(report, e)
       || (details && Target(e.ruleId, e.item.patternId) in targets && e.item == item.(patternId := e.item.patternId)))
  {
    hide Indexed, Triggers, Records;
    r, ix := report, indexes;
    for m := 0 to |targets|
      invariant Indexed(r, ix)
      invariant forall x :: Triggers(r, x) <==> Triggers(report, x) || TargetsRule(targets[..m], x)
      invariant forall e: Event :: Records(r, e) <==>
        (Records(report, e)
         || (details && Target(e.ruleId, e.item.patternId) in targets[..m] && e.item == item.(patternId := e.item.patternId)))
    {
      var target := targets[m];
      assert targets[..m + 1] == targets[..m] + [target];
      r, ix := RecordEvent(r, ix, target.ruleId, if details then [item.(patternId := target.patternId)] else []);
    }
    assert targets[..|targets|] == targets;
  }

  method MatchView(t: Tables, v: View, excluded: seq<ByteSpan>, patterns: seq<CompiledPattern>, details: bool)
    returns (report: Report)
    requires ViewOk(v)
    ensures UniqueRules(report)
    ensures forall x :: Triggers(report, x) <==> exists e: Event :: e.ruleId == x && ViewEvent(t, v, excluded, patterns, e)
    ensures forall e :: Records(report, e) <==> details && ViewEvent(t, v, excluded, patterns, e)
  {
    hide Indexed, Triggers, Records, UniqueRules, FoundEvent, SeenEvent, ViewEvent;
    var found := FindOverlapping(patterns, v.text);
    var ix: map<Uuid, nat>;
    report, ix := [], map[];
    NothingRecorded();
    NothingSeen(t, v, excluded, patterns, found[..0]);
    for n := 0 to |found|
      invariant Indexed(report, ix)
      invariant forall x :: Triggers(report, x) <==>
        exists e: Event :: e.ruleId == x && SeenEvent(t, v, excluded, patterns, found[..n], e)
      invariant forall e :: Records(report, e) <==> details && SeenEvent(t, v, excluded, patterns, found[..n], e)
    {
      report, ix := MatchCandidate(t, v, excluded, patterns, found[n], details, report, ix);
      forall e ensures SeenEvent(t, v, excluded, patterns, found[..n + 1], e)
        <==> SeenEvent(t, v, excluded, patterns, found[..n], e) || FoundEvent(t, v, excluded, patterns, found[n], e)
      {
        SeenAppend(t, v, excluded, patterns, found, n, e);
      }
    }
    IndexedUnique(report, ix);
    assert found[..|found|] == found;
    forall e ensures SeenEvent(t, v, excluded, patterns, found, e) <==> ViewEvent(t, v, excluded, patterns, e) {
      AllSeen(t, v, excluded, patterns, found, e);
    }
  }

  lemma NothingRecorded()
    ensures Indexed([], map[]) && (forall x :: !Triggers([], x)) && forall e :: !Records([], e)
  {
  }

  lemma NothingSeen(t: Tables, v: View, excluded: seq<ByteSpan>, patterns: seq<CompiledPattern>, found: seq<Found>)
    requires ViewOk(v) && found == []
    ensures forall e :: !SeenEvent(t, v, excluded, patterns, found, e)
  {
  }

  /** The body of the candidate loop: three filters, then the targets. */
  method MatchCandidate(
    t: Tables, v: View, excluded: seq<ByteSpan>, patterns: seq<CompiledPattern>, f: Found, details: bool,
    report: Report, indexes: map<Uuid, nat>)
    returns (r: Report, ix: map<Uuid, nat>)
    requires ViewOk(v) && Indexed(report, indexes)
    requires f.pattern < |patterns| && Occurs(v.text, f.start, f.end, patterns[f.pattern].text)
    ensures Indexed(r, ix)
    ensures forall x :: Triggers(r, x) <==>
      Triggers(report, x) || exists e: Event :: e.ruleId == x && FoundEvent(t, v, excluded, patterns, f, e)
    ensures forall e :: Records(r, e) <==>
      Records(report, e) || (details && FoundEvent(t, v, excluded, patterns, f, e))
  {
    hide Indexed, Triggers, Records;
    var p := patterns[f.pattern];
    r, ix := report, indexes;
    if f.start >= f.end || !MatchesBoundary(t, v, f.start, f.end, p.patternType)
       || IsExcluded(v, f.start, f.end, excluded) {
      return;
    }
    var item := PatternMatch(0, p.patternType, f.start, f.end, SourceSpan(v, f.start, f.end));
    r, ix := RecordTargets(report, indexes, p.targets, item, details);
    forall x ensures (exists e: Event :: e.ruleId == x && FoundEvent(t, v, excluded, patterns, f, e))
      <==> TargetsRule(p.targets, x)
    {
      if q :| Target(x, q) in p.targets {
        assert FoundEvent(t, v, excluded, patterns, f, Event(x, item.(patternId := q)));
      }
    }
  }
}
