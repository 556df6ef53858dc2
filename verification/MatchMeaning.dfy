/**
 * What matching means in the scalars of the views, independently of how the
 * matcher asks: when a pattern stands in a text, when it is seen on a surface,
 * which rules trigger, and what each matched rule reports.
 */
module MatchMeaning {
  import opened Wrappers
  import opened Sorting
  import opened Spans
  import opened PolicyModel
  import opened TextTables
  import opened Matcher
  import opened PatternSharing
  import opened Compiler
  import opened Evaluation
  import opened TwoPass
  import NormalizedViews

  // ---- One occurrence ---------------------------------------------------------------------------

  /** A scalar of a word; in the security view an underscore is none. */
  ghost predicate WordScalar(t: Tables, v: View, i: nat)
    requires i < |v.text|
  {
    t.isToken(v.text[i]) && (v.security ==> v.text[i] != '_')
  }

  /**
   * The text `x` stands at [i, j). An exact word and a phrase have no word
   * scalar before or after, a prefix none before, a suffix none after; and no
   * excluded range contains all the source spans.
   */
  ghost predicate Stands(t: Tables, v: View, excluded: seq<ByteSpan>, x: string, p: PatternType, i: nat, j: nat)
    requires |v.source| == |v.text|
  {
    && i < j <= |v.text| && v.text[i..j] == x
    && (p in {ExactWord, Phrase, Prefix} ==> i == 0 || !WordScalar(t, v, i - 1))
    && (p in {ExactWord, Phrase, Suffix} ==> j == |v.text| || !WordScalar(t, v, j))
    && forall k :: 0 <= k < |excluded| ==> Leaves(v, i, j, excluded[k])
  }

  /** Some source span of [i, j) is not contained in the range. */
  ghost predicate Leaves(v: View, i: nat, j: nat, range: ByteSpan)
    requires i < j <= |v.source|
  {
    exists n :: i <= n < j && (v.source[n].start < range.start || range.end < v.source[n].end)
  }

  /** `q` is the smallest span that contains the source spans of [i, j). */
  ghost predicate Encloses(v: View, i: nat, j: nat, q: ByteSpan)
    requires i < j <= |v.source|
  {
    && (forall n :: i <= n < j ==> q.start <= v.source[n].start && v.source[n].end <= q.end)
    && (exists n :: i <= n < j && v.source[n].start == q.start) && exists n :: i <= n < j && v.source[n].end == q.end
  }

  lemma NotExcluded(v: View, i: nat, j: nat, excluded: seq<ByteSpan>)
    requires i < j <= |v.source|
    ensures !IsExcluded(v, i, j, excluded) <==> forall k :: 0 <= k < |excluded| ==> Leaves(v, i, j, excluded[k])
  {
    hide WithinOriginal, Leaves;
    forall k | 0 <= k < |excluded| ensures !WithinOriginal(v, i, j, excluded[k]) <==> Leaves(v, i, j, excluded[k]) {
      WithinLeaves(v, i, j, excluded[k]);
    }
  }

  lemma WithinLeaves(v: View, i: nat, j: nat, range: ByteSpan)
    requires i < j <= |v.source|
    ensures !WithinOriginal(v, i, j, range) <==> Leaves(v, i, j, range)
  {
  }

  lemma BoundaryMeans(t: Tables, v: View, i: nat, j: nat, p: PatternType)
    requires i < j <= |v.text|
    ensures MatchesBoundary(t, v, i, j, p) <==>
      (p in {ExactWord, Phrase, Prefix} ==> i == 0 || !WordScalar(t, v, i - 1))
      && (p in {ExactWord, Phrase, Suffix} ==> j == |v.text| || !WordScalar(t, v, j))
  {
  }

  /** An occurrence counts exactly when the text stands there. */
  lemma AdmissibleMeans(t: Tables, v: View, excluded: seq<ByteSpan>, x: string, p: PatternType, i: nat, j: nat)
    requires ViewOk(v)
    ensures Admissible(t, v, excluded, x, p, i, j) <==> Stands(t, v, excluded, x, p, i, j)
  {
    hide IsExcluded, Leaves, MatchesBoundary, WordScalar;
    if i < j <= |v.text| {
      NotExcluded(v, i, j, excluded);
      BoundaryMeans(t, v, i, j, p);
    }
  }

  lemma SourceEncloses(v: View, i: nat, j: nat)
    requires i < j <= |v.source|
    ensures Encloses(v, i, j, SourceSpan(v, i, j))
  {
    hide Hull;
    var s := v.source[i..j];
    NormalizedViews.HullContains(s);
    forall n | i <= n < j ensures Hull(s).start <= v.source[n].start && v.source[n].end <= Hull(s).end {
      assert s[n - i] == v.source[n];
    }
    var a :| 0 <= a < |s| && s[a].start == Hull(s).start;
    var b :| 0 <= b < |s| && s[b].end == Hull(s).end;
    assert v.source[i + a] == s[a] && v.source[i + b] == s[b];
  }

  lemma EnclosesOne(v: View, i: nat, j: nat, q: ByteSpan, h: ByteSpan)
    requires i < j <= |v.source| && Encloses(v, i, j, q) && Encloses(v, i, j, h)
    ensures q == h
  {
  }

  lemma SourceMeans(v: View, i: nat, j: nat, q: ByteSpan)
    requires i < j <= |v.source|
    ensures q == SourceSpan(v, i, j) <==> Encloses(v, i, j, q)
  {
    hide SourceSpan, Encloses;
    SourceEncloses(v, i, j);
    if Encloses(v, i, j, q) {
      EnclosesOne(v, i, j, q, SourceSpan(v, i, j));
    }
  }

  /** What one recorded match says: a pattern's target, its type, and where its text stands. */
  lemma EventMeans(t: Tables, v: View, excluded: seq<ByteSpan>, patterns: seq<CompiledPattern>, e: Event)
    requires ViewOk(v)
    ensures ViewEvent(t, v, excluded, patterns, e) <==>
      exists k :: 0 <= k < |patterns| && Target(e.ruleId, e.item.patternId) in patterns[k].targets
        && e.item.patternType == patterns[k].patternType
        && Stands(t, v, excluded, patterns[k].text, patterns[k].patternType, e.item.start, e.item.end)
        && Encloses(v, e.item.start, e.item.end, e.item.original)
  {
    hide Admissible, SourceSpan, Encloses;
    forall k | 0 <= k < |patterns|
      ensures PatternEvent(t, v, excluded, patterns[k], e) <==>
        Target(e.ruleId, e.item.patternId) in patterns[k].targets && e.item.patternType == patterns[k].patternType
        && Stands(t, v, excluded, patterns[k].text, patterns[k].patternType, e.item.start, e.item.end)
        && Encloses(v, e.item.start, e.item.end, e.item.original)
    {
      AdmissibleMeans(t, v, excluded, patterns[k].text, patterns[k].patternType, e.item.start, e.item.end);
      StandsInside(t, v, excluded, patterns[k].text, patterns[k].patternType, e.item.start, e.item.end);
      if e.item.start < e.item.end <= |v.text| {
        SourceMeans(v, e.item.start, e.item.end, e.item.original);
      }
    }
  }

  lemma StandsInside(t: Tables, v: View, excluded: seq<ByteSpan>, x: string, p: PatternType, i: nat, j: nat)
    requires |v.source| == |v.text|
    ensures Stands(t, v, excluded, x, p, i, j) ==> i < j <= |v.text|
  {
  }

  // ---- The literal of the security view ---------------------------------------------------------

  /** The literal is the authored text without the stars that its type is written with. */
  lemma LiteralMeans(d: PatternDefinition, body: string)
    ensures d.patternType == Prefix && d.pattern == body + "*" ==> AuthoredLiteral(d) == body
    ensures d.patternType == Suffix && d.pattern == "*" + body ==> AuthoredLiteral(d) == body
    ensures d.patternType == PatternType.Contains && d.pattern == "*" + body + "*" ==> AuthoredLiteral(d) == body
    ensures d.patternType == ExactWord || d.patternType == Phrase ==> AuthoredLiteral(d) == d.pattern
    ensures '*' !in d.pattern ==> AuthoredLiteral(d) == d.pattern
  {
    assert (body + "*")[..|body + "*"| - 1] == body;
    assert ("*" + body)[1..] == body;
    assert ("*" + body + "*")[1..] == body + "*";
  }

  // ---- A pattern on a surface ---------------------------------------------------------------------

  /** The pattern's normal form stands in the canonical view, at `q` of the source. */
  ghost predicate CanonicalSeen(t: Tables, v: View, p: RulePattern, q: ByteSpan)
    requires |v.source| == |v.text|
  {
    exists i: nat, j: nat :: i < j <= |v.text| && Stands(t, v, [], t.normalize(p.pattern), p.patternType, i, j) && Encloses(v, i, j, q)
  }

  /** It is no phrase, its literal is eligible, and the literal's security form stands in the security view, outside the excluded ranges. */
  ghost predicate SecuritySeen(t: Tables, v: View, excluded: seq<ByteSpan>, p: RulePattern, q: ByteSpan)
    requires |v.source| == |v.text|
  {
    var literal := AuthoredLiteral(PatternDefinition(0, p.id, p.pattern, p.patternType));
    && p.patternType != Phrase && t.securityEligible(literal)
    && exists i: nat, j: nat :: i < j <= |v.text| && Stands(t, v, excluded, t.securityNormalize(literal), p.patternType, i, j) && Encloses(v, i, j, q)
  }

  lemma CanonicalMeans(t: Tables, v: View, rule: Uuid, p: RulePattern, q: ByteSpan)
    requires ViewOk(v) && !v.security
    ensures HitIn(t, v, [], DefinitionOf(rule, p), q) <==> CanonicalSeen(t, v, p, q)
  {
    hide Admissible, Stands, SourceSpan, Encloses;
    var d := DefinitionOf(rule, p);
    if i: nat, j: nat :| Hit(t, v, [], d, i, j) && q == SourceSpan(v, i, j) {
      AdmissibleMeans(t, v, [], t.normalize(p.pattern), p.patternType, i, j);
      StandsInside(t, v, [], t.normalize(p.pattern), p.patternType, i, j);
      SourceMeans(v, i, j, q);
    }
    if i: nat, j: nat :| i < j <= |v.text| && Stands(t, v, [], t.normalize(p.pattern), p.patternType, i, j) && Encloses(v, i, j, q) {
      AdmissibleMeans(t, v, [], t.normalize(p.pattern), p.patternType, i, j);
      SourceMeans(v, i, j, q);
      assert Hit(t, v, [], d, i, j);
    }
  }

  lemma SecurityMeans(t: Tables, v: View, excluded: seq<ByteSpan>, rule: Uuid, p: RulePattern, q: ByteSpan)
    requires ViewOk(v) && v.security
    ensures HitIn(t, v, excluded, DefinitionOf(rule, p), q) <==> SecuritySeen(t, v, excluded, p, q)
  {
    hide Admissible, Stands, SourceSpan, Encloses, AuthoredLiteral;
    var d, literal := DefinitionOf(rule, p), AuthoredLiteral(PatternDefinition(0, p.id, p.pattern, p.patternType));
    SameLiteral(rule, p);
    var x := t.securityNormalize(literal);
    if i: nat, j: nat :| Hit(t, v, excluded, d, i, j) && q == SourceSpan(v, i, j) {
      AdmissibleMeans(t, v, excluded, x, p.patternType, i, j);
      StandsInside(t, v, excluded, x, p.patternType, i, j);
      SourceMeans(v, i, j, q);
    }
    if SecuritySeen(t, v, excluded, p, q) {
      var i: nat, j: nat :| i < j <= |v.text| && Stands(t, v, excluded, x, p.patternType, i, j) && Encloses(v, i, j, q);
      AdmissibleMeans(t, v, excluded, x, p.patternType, i, j);
      SourceMeans(v, i, j, q);
      NothingStands(t, v, excluded, x, p.patternType, i, j);
      assert Hit(t, v, excluded, d, i, j);
    }
  }

  lemma SameLiteral(rule: Uuid, p: RulePattern)
    ensures AuthoredLiteral(DefinitionOf(rule, p)) == AuthoredLiteral(PatternDefinition(0, p.id, p.pattern, p.patternType))
  {
  }

  lemma NothingStands(t: Tables, v: View, excluded: seq<ByteSpan>, x: string, p: PatternType, i: nat, j: nat)
    requires |v.source| == |v.text| && Stands(t, v, excluded, x, p, i, j)
    ensures x != ""
  {
    assert |v.text[i..j]| == j - i;
  }

  /**
   * The pattern is seen on surface `s` at `q`: in the surface's canonical view,
   * or in its security view. Excluded ranges count on message content alone.
   */
  ghost predicate SeenAt(t: Tables, a: Analyzed, s: Surface, p: RulePattern, q: ByteSpan)
    requires AnalyzedOk(a)
  {
    && s in a.normalized
    && (|| CanonicalSeen(t, a.normalized[s], p, q)
        || (s in a.security && s == MessageContent && SecuritySeen(t, a.security[s], a.excluded, p, q))
        || (s in a.security && s != MessageContent && SecuritySeen(t, a.security[s], [], p, q)))
  }

  lemma SeenMeans(t: Tables, a: Analyzed, rule: PolicyRule, s: Surface, p: RulePattern, q: ByteSpan)
    requires AnalyzedOk(a) && s in a.normalized && InputOk(InputFor(a, s))
    ensures PatternHit(t, InputFor(a, s), rule, p, q) <==> p in rule.patterns && SeenAt(t, a, s, p, q)
  {
    hide HitIn, CanonicalSeen, SecuritySeen;
    CanonicalMeans(t, a.normalized[s], rule.id, p, q);
    if s in a.security {
      SecurityMeans(t, a.security[s], if s == MessageContent then a.excluded else [], rule.id, p, q);
    }
  }

  /** Some pattern of the rule is seen on surface `s`, which the rule watches. */
  ghost predicate RuleSeen(t: Tables, a: Analyzed, rule: PolicyRule, s: Surface)
    requires AnalyzedOk(a)
  {
    s in rule.surfaces && exists p, q :: p in rule.patterns && SeenAt(t, a, s, p, q)
  }

  lemma HitMeans(t: Tables, a: Analyzed, rule: PolicyRule, s: Surface)
    requires AnalyzedOk(a)
    ensures HitOn(t, a, rule, s) <==> RuleSeen(t, a, rule, s)
  {
    hide RuleSpans, PatternHit, AnalyzedOk, InputFor, CanonicalSeen, SecuritySeen;
    if s in a.normalized {
      InputForOk(a, s);
      var input := InputFor(a, s);
      if q :| q in RuleSpans(t, input, rule) {
        SpanIsHit(t, input, rule, q);
        var p :| PatternHit(t, input, rule, p, q);
        SeenMeans(t, a, rule, s, p, q);
      }
      if p, q :| p in rule.patterns && SeenAt(t, a, s, p, q) {
        SeenMeans(t, a, rule, s, p, q);
        SpanIsHit(t, input, rule, q);
      }
    }
  }

  /** A rule triggers exactly when some pattern of it is seen on some surface it watches. */
  lemma TriggeredMeans(t: Tables, a: Analyzed, rules: map<Uuid, PolicyRule>, id: Uuid)
    requires AnalyzedOk(a)
    ensures id in TriggeredRules(t, a, rules) <==> id in rules && exists s :: RuleSeen(t, a, rules[id], s)
  {
    hide HitOn, RuleSeen, AnalyzedOk;
    if id in rules {
      forall s ensures HitOn(t, a, rules[id], s) <==> RuleSeen(t, a, rules[id], s) {
        HitMeans(t, a, rules[id], s);
      }
    }
  }

  // ---- What a matched rule reports ----------------------------------------------------------------------

  /** The rule keeps details: the snapshot is diagnostic, or the rule censors or logs. */
  ghost predicate KeepsDetails(rule: PolicyRule, all: bool) {
    all || exists x :: x in rule.actions && (x.actionType == CensorMatch || x.actionType == Log)
  }

  /** One surface's entry: where and by which patterns the rule is seen there, in order, if it keeps details. */
  ghost predicate EntryFor(t: Tables, a: Analyzed, rule: PolicyRule, all: bool, m: MatchedSurface)
    requires AnalyzedOk(a)
  {
    && RuleSeen(t, a, rule, m.surface)
    && (forall i, j :: 0 <= i < j < |m.spans| ==> SpanLeq(m.spans[i], m.spans[j]) && m.spans[i] != m.spans[j])
    && (forall i, j :: 0 <= i < j < |m.patternIds| ==> m.patternIds[i] < m.patternIds[j])
    && (forall q :: q in m.spans <==> KeepsDetails(rule, all) && exists p :: p in rule.patterns && SeenAt(t, a, m.surface, p, q))
    && (forall x :: x in m.patternIds <==> KeepsDetails(rule, all) && exists p, q :: p in rule.patterns && p.id == x && SeenAt(t, a, m.surface, p, q))
  }

  lemma KeepsMeans(rule: PolicyRule, all: bool)
    ensures KeepsDetails(rule, all) <==> all || NeedsDetails(rule)
  {
    if x :| x in rule.actions && (x.actionType == CensorMatch || x.actionType == Log) {
      var i :| 0 <= i < |rule.actions| && rule.actions[i] == x;
    }
    if NeedsDetails(rule) {
      var i :| 0 <= i < |rule.actions| && (rule.actions[i].actionType == CensorMatch || rule.actions[i].actionType == Log);
      assert rule.actions[i] in rule.actions;
    }
  }

  lemma EntryMeans(t: Tables, a: Analyzed, rule: PolicyRule, s: Surface, all: bool)
    requires AnalyzedOk(a) && HitOn(t, a, rule, s) && s in a.normalized
    ensures SurfaceResult(t, a, rule, s, all).surface == s && EntryFor(t, a, rule, all, SurfaceResult(t, a, rule, s, all))
  {
    hide RuleSpans, RulePatternIds, HitOn, PatternHit, RuleSeen, SeenAt, AnalyzedOk, InputFor, KeepsDetails, NeedsDetails, OrderedSpans,
      SortedKeys, SpanLeq;
    HitMeans(t, a, rule, s);
    KeepsMeans(rule, all);
    InputForOk(a, s);
    var input := InputFor(a, s);
    forall p, q ensures PatternHit(t, input, rule, p, q) <==> p in rule.patterns && SeenAt(t, a, s, p, q) {
      SeenMeans(t, a, rule, s, p, q);
    }
    forall q ensures q in RuleSpans(t, input, rule) <==> exists p :: p in rule.patterns && SeenAt(t, a, s, p, q) {
      SpanIsHit(t, input, rule, q);
    }
    forall x ensures x in RulePatternIds(t, input, rule) <==> exists p, q :: p in rule.patterns && p.id == x && SeenAt(t, a, s, p, q) {
      IdIsHit(t, input, rule, x);
    }
  }

  /** The order in which surfaces are listed. */
  function Rank(s: Surface): nat {
    match s
    case MessageContent => 0
    case DisplayName => 1
    case Username => 2
    case ServerName => 3
    case HubName => 4
    case UrlDomain => 5
  }

  /** The surfaces a rule reports: those of rank below `n` where it is seen, in order, each with its entry. */
  ghost predicate EntriesFor(t: Tables, a: Analyzed, rule: PolicyRule, all: bool, n: nat, ms: seq<MatchedSurface>)
    requires AnalyzedOk(a)
  {
    && (forall i, j :: 0 <= i < j < |ms| ==> Rank(ms[i].surface) < Rank(ms[j].surface))
    && (forall i :: 0 <= i < |ms| ==> Rank(ms[i].surface) < n && EntryFor(t, a, rule, all, ms[i]))
    && (forall s :: Rank(s) < n && RuleSeen(t, a, rule, s) ==> exists i :: 0 <= i < |ms| && ms[i].surface == s)
  }

  lemma RankOf(n: nat)
    requires n < 6
    ensures forall s :: Rank(s) == n <==> s == ALL_SURFACES[n]
  {
  }

  lemma {:induction false} EntriesMean(t: Tables, a: Analyzed, rule: PolicyRule, all: bool, n: nat)
    requires AnalyzedOk(a) && n <= 6
    ensures EntriesFor(t, a, rule, all, n, SurfaceResults(t, a, rule, all, n))
  {
    hide HitOn, RuleSeen, AnalyzedOk, SurfaceResult, EntryFor, Rank;
    if n > 0 {
      EntriesMean(t, a, rule, all, n - 1);
      RankOf(n - 1);
      var s := ALL_SURFACES[n - 1];
      HitMeans(t, a, rule, s);
      if HitOn(t, a, rule, s) {
        HitIsNormalized(t, a, rule, s);
        EntryMeans(t, a, rule, s, all);
        EntryAdded(t, a, rule, all, n, SurfaceResults(t, a, rule, all, n - 1), SurfaceResult(t, a, rule, s, all));
      } else {
        assert SurfaceResults(t, a, rule, all, n - 1) + [] == SurfaceResults(t, a, rule, all, n - 1);
      }
    }
  }

  lemma EntryAdded(t: Tables, a: Analyzed, rule: PolicyRule, all: bool, n: nat, before: seq<MatchedSurface>, m: MatchedSurface)
    requires AnalyzedOk(a) && 0 < n <= 6 && EntriesFor(t, a, rule, all, n - 1, before) && Rank(m.surface) == n - 1
    requires EntryFor(t, a, rule, all, m)
    ensures EntriesFor(t, a, rule, all, n, before + [m])
  {
    hide AnalyzedOk, RuleSeen, EntryFor;
    var ms := before + [m];
    assert ms[|before|] == m;
    forall s | Rank(s) < n && RuleSeen(t, a, rule, s) ensures exists i :: 0 <= i < |ms| && ms[i].surface == s {
      if Rank(s) < n - 1 {
        var i :| 0 <= i < |before| && before[i].surface == s;
        assert ms[i].surface == s;
      } else {
        SameRank(s, m.surface);
      }
    }
  }

  lemma SameRank(s: Surface, x: Surface)
    requires Rank(s) == Rank(x)
    ensures s == x
  {
  }

  /** A matched rule names its policy, version, scope and rule, and lists the surfaces where it is seen. */
  ghost predicate Reported(t: Tables, a: Analyzed, snap: Snapshot, all: bool, id: Uuid, m: MatchedRule)
    requires AnalyzedOk(a)
  {
    && id in snap.rules && m.policyId == snap.policyId && m.policyVersion == snap.version && m.scope == snap.scope
    && m.ruleId == snap.rules[id].id && m.ruleName == snap.rules[id].name && m.customReason == snap.rules[id].customReason
    && m.actions == snap.rules[id].actions
    && EntriesFor(t, a, snap.rules[id], all, 6, m.surfaces)
  }

  /** Evaluation reports one entry for every rule that is seen somewhere, by rule id, and nothing else. */
  lemma EvaluatedMeans(t: Tables, a: Analyzed, snap: Snapshot, all: bool) returns (ids: seq<Uuid>)
    requires AnalyzedOk(a)
    ensures (forall i, j :: 0 <= i < j < |ids| ==> ids[i] < ids[j]) && |ids| == |Evaluated(t, a, snap, all)|
    ensures forall id :: id in ids <==> id in snap.rules && exists s :: RuleSeen(t, a, snap.rules[id], s)
    ensures forall i :: 0 <= i < |ids| ==> Reported(t, a, snap, all, ids[i], Evaluated(t, a, snap, all)[i])
  {
    hide RuleSeen, AnalyzedOk, TriggeredRules, SurfaceResults, EntriesFor;
    ids := SortedKeys(TriggeredRules(t, a, snap.rules));
    forall id ensures id in ids <==> id in snap.rules && exists s :: RuleSeen(t, a, snap.rules[id], s) {
      TriggeredMeans(t, a, snap.rules, id);
    }
    forall i | 0 <= i < |ids| ensures Reported(t, a, snap, all, ids[i], Evaluated(t, a, snap, all)[i]) {
      assert ids[i] in ids;
      EntriesMean(t, a, snap.rules[ids[i]], all, 6);
    }
  }
}
