/**
 * `remap_equivalent_matches`: re-attributing one profile's result to another
 * policy with the same fingerprint. It never fails, and gives what evaluating
 * that policy itself gives, up to the pattern ids and the order of rules.
 */
module Remapping {
  import opened Wrappers
  import opened Sorting
  import opened Spans
  import opened PolicyModel
  import opened TextTables
  import opened Fingerprint
  import opened FingerprintTheorem
  import opened Matcher
  import opened PatternSharing
  import opened Compiler
  import opened Evaluation
  import opened TwoPass
  import opened Resolver

  function RemapRule(snap: Snapshot, m: MatchedRule): Result<MatchedRule, PolicyMatchError> {
    if m.ruleName !in snap.ruleNames then Err(UnknownRule(m.ruleId))
    else
      var id := snap.ruleNames[m.ruleName];
      if id !in snap.rules then Err(UnknownRule(id))
      else
        var rule := snap.rules[id];
        Ok(MatchedRule(snap.policyId, snap.version, snap.scope, id, rule.name, rule.customReason, m.surfaces, rule.actions))
  }

  function RemapEquivalentMatches(snap: Snapshot, representative: seq<MatchedRule>): Result<seq<MatchedRule>, PolicyMatchError> {
    if representative == [] then Ok([])
    else
      match RemapRule(snap, representative[0])
      case Err(e) => Err(e)
      case Ok(first) =>
        match RemapEquivalentMatches(snap, representative[1..])
        case Err(e) => Err(e)
        case Ok(rest) => Ok([first] + rest)
  }

  lemma {:induction false} RemapsEach(snap: Snapshot, representative: seq<MatchedRule>)
    requires forall i :: 0 <= i < |representative| ==> RemapRule(snap, representative[i]).Ok?
    ensures RemapEquivalentMatches(snap, representative).Ok?
    ensures var r := RemapEquivalentMatches(snap, representative).value;
      |r| == |representative| && forall i :: 0 <= i < |r| ==> Ok(r[i]) == RemapRule(snap, representative[i])
  {
    hide RemapRule;
    if representative != [] {
      RemapsEach(snap, representative[1..]);
      var r := RemapEquivalentMatches(snap, representative).value;
      var rest := RemapEquivalentMatches(snap, representative[1..]).value;
      forall i | 0 <= i < |r| ensures Ok(r[i]) == RemapRule(snap, representative[i]) {
        if i > 0 {
          assert r[i] == rest[i - 1] && representative[1..][i - 1] == representative[i];
        }
      }
    }
  }

  // ---- Rules that match alike ------------------------------------------------------

  /** The boundary types whose every hit is one of type `p`: Contains asks for no boundary, Prefix and Suffix for one of the two. */
  function Covered(p: PatternType): set<PatternType> {
    match p
    case Contains => {ExactWord, Prefix, Suffix, Contains}
    case Prefix => {ExactWord, Prefix}
    case Suffix => {ExactWord, Suffix}
    case ExactWord => {ExactWord}
    case Phrase => {Phrase}
  }

  predicate Reaches(t: Tables, rule: PolicyRule, p: RulePattern, key: (PatternType, string)) {
    SecurityText(t, DefinitionOf(rule.id, p)) == Some(key.1) && key.0 in Covered(p.patternType)
  }

  /**
   * What a rule matches in the security view: each text with the types that its
   * patterns of that text cover.
   */
  function SecurityReach(t: Tables, rule: PolicyRule): set<(PatternType, string)> {
    set p, k | p in rule.patterns && SecurityText(t, DefinitionOf(rule.id, p)).Some? && k in Covered(p.patternType)
      :: (k, SecurityText(t, DefinitionOf(rule.id, p)).value)
  }

  lemma ReachElements(t: Tables, rule: PolicyRule, key: (PatternType, string))
    ensures key in SecurityReach(t, rule) <==> exists p :: p in rule.patterns && Reaches(t, rule, p, key)
  {
    if p :| p in rule.patterns && Reaches(t, rule, p, key) {
      assert (key.0, SecurityText(t, DefinitionOf(rule.id, p)).value) in SecurityReach(t, rule);
    }
  }

  /**
   * The fingerprint covers normal forms only, while security texts derive from
   * the authored spelling; rules grouped by it must also reach alike there.
   */
  ghost predicate AgreeOnSecurity(t: Tables, p: ContentPolicy, q: ContentPolicy) {
    forall a, b :: a in p.rules && b in q.rules && a.enabled && b.enabled && BehaviourOf(t, a) == BehaviourOf(t, b) ==>
      SecurityReach(t, a) == SecurityReach(t, b)
  }

  ghost predicate SameProfile(t: Tables, a: PolicyRule, b: PolicyRule) {
    BehaviourOf(t, a) == BehaviourOf(t, b) && SecurityReach(t, a) == SecurityReach(t, b)
  }

  ghost predicate TextHit(t: Tables, v: View, excluded: seq<ByteSpan>, text: Option<string>, p: PatternType, q: ByteSpan)
    requires ViewOk(v)
  {
    text.Some? && exists i: nat, j: nat :: Admissible(t, v, excluded, text.value, p, i, j) && q == SourceSpan(v, i, j)
  }

  lemma HitByText(t: Tables, v: View, excluded: seq<ByteSpan>, d: PatternDefinition, q: ByteSpan)
    requires ViewOk(v)
    ensures HitIn(t, v, excluded, d, q) <==> TextHit(t, v, excluded, TextIn(t, d, v.security), d.patternType, q)
  {
    hide Admissible, SourceSpan, TextIn;
    if i: nat, j: nat :| Hit(t, v, excluded, d, i, j) && q == SourceSpan(v, i, j) {
      assert Admissible(t, v, excluded, TextIn(t, d, v.security).value, d.patternType, i, j);
    }
    if TextHit(t, v, excluded, TextIn(t, d, v.security), d.patternType, q) {
      var i: nat, j: nat :| Admissible(t, v, excluded, TextIn(t, d, v.security).value, d.patternType, i, j) && q == SourceSpan(v, i, j);
      assert Hit(t, v, excluded, d, i, j);
    }
  }

  /** A pattern of `b` with the same text as `p` in the canonical view. */
  lemma SamePattern(t: Tables, a: PolicyRule, b: PolicyRule, p: RulePattern) returns (p': RulePattern)
    requires SameProfile(t, a, b) && p in a.patterns
    ensures p' in b.patterns && p'.patternType == p.patternType
    ensures TextIn(t, DefinitionOf(b.id, p'), false) == TextIn(t, DefinitionOf(a.id, p), false)
  {
    hide SecurityReach;
    assert PatternKey(t, p) in BehaviourOf(t, a).patterns;
    p' :| p' in b.patterns && PatternKey(t, p') == PatternKey(t, p);
  }

  /** A pattern of `b` with the same security text whose type covers that of `p`. */
  lemma SameSecurityPattern(t: Tables, a: PolicyRule, b: PolicyRule, p: RulePattern) returns (p': RulePattern)
    requires SecurityReach(t, a) == SecurityReach(t, b) && p in a.patterns && SecurityText(t, DefinitionOf(a.id, p)).Some?
    ensures p' in b.patterns && p.patternType in Covered(p'.patternType)
    ensures SecurityText(t, DefinitionOf(b.id, p')) == SecurityText(t, DefinitionOf(a.id, p))
  {
    hide SecurityText, SecurityReach;
    var key := (p.patternType, SecurityText(t, DefinitionOf(a.id, p)).value);
    assert Reaches(t, a, p, key);
    ReachElements(t, a, key);
    ReachElements(t, b, key);
    p' :| p' in b.patterns && Reaches(t, b, p', key);
  }

  /** A hit of a covered type is a hit of the covering one. */
  lemma CoveredHit(t: Tables, v: View, excluded: seq<ByteSpan>, text: string, p: PatternType, q: PatternType, i: nat, j: nat)
    requires ViewOk(v) && p in Covered(q) && Admissible(t, v, excluded, text, p, i, j)
    ensures Admissible(t, v, excluded, text, q, i, j)
  {
    hide IsExcluded, LeftOk, RightOk;
  }

  lemma CoveredTextHit(t: Tables, v: View, excluded: seq<ByteSpan>, text: Option<string>, p: PatternType, p': PatternType, q: ByteSpan)
    requires ViewOk(v) && p in Covered(p') && TextHit(t, v, excluded, text, p, q)
    ensures TextHit(t, v, excluded, text, p', q)
  {
    hide Admissible, SourceSpan, Covered;
    var i: nat, j: nat :| Admissible(t, v, excluded, text.value, p, i, j) && q == SourceSpan(v, i, j);
    CoveredHit(t, v, excluded, text.value, p, p', i, j);
  }

  lemma PatternHitMoves(t: Tables, input: SurfaceInput, a: PolicyRule, b: PolicyRule, p: RulePattern, q: ByteSpan)
    requires InputOk(input) && SameProfile(t, a, b) && PatternHit(t, input, a, p, q)
    ensures exists p' :: PatternHit(t, input, b, p', q)
  {
    hide TextHit, SecurityText, BehaviourOf, SecurityReach, Covered;
    var d := DefinitionOf(a.id, p);
    if HitIn(t, input.canonical, [], d, q) {
      var p' := SamePattern(t, a, b, p);
      HitByText(t, input.canonical, [], d, q);
      HitByText(t, input.canonical, [], DefinitionOf(b.id, p'), q);
      assert PatternHit(t, input, b, p', q);
    } else {
      HitByText(t, input.security.value, input.excluded, d, q);
      TextHitHasText(t, input.security.value, input.excluded, SecurityText(t, d), d.patternType, q);
      var p' := SameSecurityPattern(t, a, b, p);
      CoveredTextHit(t, input.security.value, input.excluded, SecurityText(t, d), p.patternType, p'.patternType, q);
      HitByText(t, input.security.value, input.excluded, DefinitionOf(b.id, p'), q);
      assert PatternHit(t, input, b, p', q);
    }
  }

  lemma TextHitHasText(t: Tables, v: View, excluded: seq<ByteSpan>, text: Option<string>, p: PatternType, q: ByteSpan)
    requires ViewOk(v) && TextHit(t, v, excluded, text, p, q)
    ensures text.Some?
  {
  }

  lemma SameSpansOn(t: Tables, input: SurfaceInput, a: PolicyRule, b: PolicyRule)
    requires InputOk(input) && SameProfile(t, a, b)
    ensures RuleSpans(t, input, a) == RuleSpans(t, input, b)
  {
    hide RuleSpans, PatternHit, BehaviourOf, SecurityReach;
    forall q ensures q in RuleSpans(t, input, a) <==> q in RuleSpans(t, input, b) {
      SpanIsHit(t, input, a, q);
      SpanIsHit(t, input, b, q);
      if p :| PatternHit(t, input, a, p, q) {
        PatternHitMoves(t, input, a, b, p, q);
      }
      if p :| PatternHit(t, input, b, p, q) {
        PatternHitMoves(t, input, b, a, p, q);
      }
    }
  }

  lemma ActionKind(t: Tables, rule: PolicyRule, k: ActionType)
    ensures (exists x :: x in BehaviourOf(t, rule).actions && x.0 == k) <==> exists x :: x in rule.actions && x.actionType == k
  {
    if x :| x in BehaviourOf(t, rule).actions && x.0 == k {
      var y :| y in rule.actions && ActionKey(y) == x;
      assert y.actionType == k;
    }
    if x :| x in rule.actions && x.actionType == k {
      assert ActionKey(x) in BehaviourOf(t, rule).actions && ActionKey(x).0 == k;
    }
  }

  lemma NeedsByKind(rule: PolicyRule)
    ensures NeedsDetails(rule) <==>
      (exists x :: x in rule.actions && x.actionType == CensorMatch) || (exists x :: x in rule.actions && x.actionType == Log)
  {
    if x :| x in rule.actions && (x.actionType == CensorMatch || x.actionType == Log) {
      var i :| 0 <= i < |rule.actions| && rule.actions[i] == x;
    }
  }

  lemma SameNeeds(t: Tables, a: PolicyRule, b: PolicyRule)
    requires SameProfile(t, a, b)
    ensures NeedsDetails(a) <==> NeedsDetails(b)
  {
    hide BehaviourOf, SecurityReach, NeedsDetails;
    NeedsByKind(a);
    NeedsByKind(b);
    ActionKind(t, a, CensorMatch);
    ActionKind(t, b, CensorMatch);
    ActionKind(t, a, Log);
    ActionKind(t, b, Log);
  }

  lemma SameHitOn(t: Tables, a: Analyzed, x: PolicyRule, y: PolicyRule, s: Surface)
    requires AnalyzedOk(a) && SameProfile(t, x, y)
    ensures HitOn(t, a, x, s) <==> HitOn(t, a, y, s)
  {
    hide RuleSpans, SecurityReach, AnalyzedOk, InputFor;
    assert x.surfaces == y.surfaces;
    if s in a.normalized {
      InputForOk(a, s);
      SameSpansOn(t, InputFor(a, s), x, y);
    }
  }

  // ---- Results up to pattern ids ------------------------------------------------------

  function DropIds(m: MatchedSurface): MatchedSurface { m.(patternIds := []) }

  /** A matched rule without the pattern ids, which only diagnostics read. */
  function WithoutIds(m: MatchedRule): MatchedRule { m.(surfaces := MapSeq(DropIds, m.surfaces)) }

  lemma SameSurfaceResult(t: Tables, a: Analyzed, x: PolicyRule, y: PolicyRule, s: Surface)
    requires AnalyzedOk(a) && SameProfile(t, x, y) && s in a.normalized
    ensures DropIds(SurfaceResult(t, a, x, s, false)) == DropIds(SurfaceResult(t, a, y, s, false))
  {
    hide RuleSpans, SameProfile, AnalyzedOk, InputFor, NeedsDetails, OrderedSpans, SortedKeys, RulePatternIds;
    InputForOk(a, s);
    SameSpansOn(t, InputFor(a, s), x, y);
    SameNeeds(t, x, y);
  }

  lemma {:induction false} SameResults(t: Tables, a: Analyzed, x: PolicyRule, y: PolicyRule, n: nat)
    requires AnalyzedOk(a) && SameProfile(t, x, y) && n <= 6
    ensures MapSeq(DropIds, SurfaceResults(t, a, x, false, n)) == MapSeq(DropIds, SurfaceResults(t, a, y, false, n))
  {
    hide HitOn, SameProfile, AnalyzedOk, SurfaceResult, DropIds;
    if n > 0 {
      var s := ALL_SURFACES[n - 1];
      SameResults(t, a, x, y, n - 1);
      SameHitOn(t, a, x, y, s);
      var p, q := SurfaceResults(t, a, x, false, n - 1), SurfaceResults(t, a, y, false, n - 1);
      if HitOn(t, a, x, s) {
        HitIsNormalized(t, a, x, s);
        SameSurfaceResult(t, a, x, y, s);
        var f, g := [SurfaceResult(t, a, x, s, false)], [SurfaceResult(t, a, y, s, false)];
        MapAppend(DropIds, p, f);
        MapAppend(DropIds, q, g);
        assert MapSeq(DropIds, f) == MapSeq(DropIds, g);
      } else {
        assert p + [] == p && q + [] == q;
      }
    }
  }

  // ---- Pairing by name -----------------------------------------------------------------

  ghost predicate Compiled(t: Tables, p: ContentPolicy, snap: Snapshot) {
    CompiledFrom(t, p, false, snap) && ValidPolicy(t, p)
  }

  /** The rule of `snap` with the name of `rule` exists and matches alike. */
  ghost predicate HasTwin(t: Tables, snap: Snapshot, rule: PolicyRule) {
    && rule.name in snap.ruleNames && snap.ruleNames[rule.name] in snap.rules
    && SameProfile(t, rule, snap.rules[snap.ruleNames[rule.name]])
    && snap.rules[snap.ruleNames[rule.name]].name == rule.name
    && snap.rules[snap.ruleNames[rule.name]].id == snap.ruleNames[rule.name]
  }

  lemma Twin(t: Tables, p: ContentPolicy, q: ContentPolicy, sp: Snapshot, sq: Snapshot, id: Uuid)
    requires Compiled(t, p, sp) && Compiled(t, q, sq)
    requires sp.profileFingerprint == sq.profileFingerprint && AgreeOnSecurity(t, p, q)
    requires id in sp.rules
    ensures HasTwin(t, sq, sp.rules[id])
  {
    hide ProfileFingerprint, SurfacesCompiled, ValidPolicy, BehaviourOf, SecurityReach;
    FingerprintPairsRules(t, p, q);
    OrderedElements(p);
    OrderedElements(q);
    hide Ordered;
    var rule := sp.rules[id];
    assert rule in p.rules && rule.enabled;
    var i :| 0 <= i < |Ordered(p)| && Ordered(p)[i] == rule;
    var other := Ordered(q)[i];
    assert other in Ordered(q);
    SameNames(t, rule, other);
    assert other.id in sq.rules && sq.rules[other.id] == other;
  }

  lemma SameNames(t: Tables, a: PolicyRule, b: PolicyRule)
    requires BehaviourOf(t, a) == BehaviourOf(t, b)
    ensures a.name == b.name
  {
  }

  function TwinId(snap: Snapshot, rule: PolicyRule): Uuid
    requires rule.name in snap.ruleNames
  {
    snap.ruleNames[rule.name]
  }

  /** A triggered rule's twin is triggered, and the remapped entry is the twin's own result up to ids. */
  lemma TwinResult(t: Tables, a: Analyzed, sp: Snapshot, sq: Snapshot, id: Uuid)
    requires AnalyzedOk(a) && id in TriggeredRules(t, a, sp.rules) && HasTwin(t, sq, sp.rules[id])
    ensures var twin := TwinId(sq, sp.rules[id]);
      && twin in TriggeredRules(t, a, sq.rules)
      && RemapRule(sq, MatchedRuleOf(t, a, sp, sp.rules[id], false)).Ok?
      && WithoutIds(RemapRule(sq, MatchedRuleOf(t, a, sp, sp.rules[id], false)).value)
         == WithoutIds(MatchedRuleOf(t, a, sq, sq.rules[twin], false))
  {
    hide HitOn, SameProfile, AnalyzedOk, SurfaceResults, DropIds;
    var rule, twin := sp.rules[id], sq.rules[TwinId(sq, sp.rules[id])];
    var s :| HitOn(t, a, rule, s);
    SameHitOn(t, a, rule, twin, s);
    SameResults(t, a, rule, twin, 6);
  }

  /** `x` is, up to pattern ids, the result of triggered rule `id`. */
  ghost predicate ResultOf(t: Tables, a: Analyzed, snap: Snapshot, id: Uuid, x: MatchedRule)
    requires AnalyzedOk(a)
  {
    id in TriggeredRules(t, a, snap.rules) && x == WithoutIds(MatchedRuleOf(t, a, snap, snap.rules[id], false))
  }

  lemma EvaluatedElements(t: Tables, a: Analyzed, snap: Snapshot, x: MatchedRule)
    requires AnalyzedOk(a)
    ensures x in MapSeq(WithoutIds, Evaluated(t, a, snap, false)) <==> exists id :: ResultOf(t, a, snap, id, x)
  {
    hide AnalyzedOk, TriggeredRules, MatchedRuleOf, WithoutIds;
    assert forall i :: i in TriggeredRules(t, a, snap.rules) ==> i in snap.rules by { TriggeredAreRules(t, a, snap.rules); }
    var ids := SortedKeys(TriggeredRules(t, a, snap.rules));
    var e := Evaluated(t, a, snap, false);
    var m := MapSeq(WithoutIds, e);
    if x in m {
      var i :| 0 <= i < |m| && m[i] == x;
      assert ids[i] in ids;
      assert ResultOf(t, a, snap, ids[i], x);
    }
    if id :| ResultOf(t, a, snap, id, x) {
      assert id in ids;
      var i :| 0 <= i < |ids| && ids[i] == id;
      assert m[i] == x;
    }
  }

  lemma TriggeredAreRules(t: Tables, a: Analyzed, rules: map<Uuid, PolicyRule>)
    requires AnalyzedOk(a)
    ensures forall i :: i in TriggeredRules(t, a, rules) ==> i in rules
  {
    hide HitOn;
  }

  ghost predicate Twins(t: Tables, sp: Snapshot, sq: Snapshot) {
    forall id :: id in sp.rules ==> HasTwin(t, sq, sp.rules[id])
  }

  lemma AllTwins(t: Tables, p: ContentPolicy, q: ContentPolicy, sp: Snapshot, sq: Snapshot)
    requires Compiled(t, p, sp) && Compiled(t, q, sq)
    requires sp.profileFingerprint == sq.profileFingerprint && AgreeOnSecurity(t, p, q)
    ensures Twins(t, sp, sq)
  {
    hide Compiled, HasTwin, AgreeOnSecurity;
    forall id | id in sp.rules ensures HasTwin(t, sq, sp.rules[id]) {
      Twin(t, p, q, sp, sq, id);
    }
  }

  /** The entry of one triggered rule. */
  lemma RemapEntry(t: Tables, a: Analyzed, sp: Snapshot, sq: Snapshot, i: nat)
    requires AnalyzedOk(a) && Twins(t, sp, sq) && i < |Evaluated(t, a, sp, false)|
    ensures var ids := SortedKeys(TriggeredRules(t, a, sp.rules)); var m := RemapRule(sq, Evaluated(t, a, sp, false)[i]);
      && |ids| == |Evaluated(t, a, sp, false)| && ids[i] in sp.rules && sp.rules[ids[i]].name in sq.ruleNames
      && m.Ok? && ResultOf(t, a, sq, TwinId(sq, sp.rules[ids[i]]), WithoutIds(m.value))
      && m.value.ruleId == TwinId(sq, sp.rules[ids[i]])
  {
    hide AnalyzedOk, TriggeredRules, WithoutIds, MatchedRuleOf, SameProfile;
    TriggeredAreRules(t, a, sp.rules);
    var ids := SortedKeys(TriggeredRules(t, a, sp.rules));
    assert ids[i] in ids;
    TwinResult(t, a, sp, sq, ids[i]);
    RemappedId(sq, Evaluated(t, a, sp, false)[i]);
    assert Evaluated(t, a, sp, false)[i].ruleName == sp.rules[ids[i]].name by { NameOfResult(t, a, sp, sp.rules[ids[i]]); }
  }

  lemma NameOfResult(t: Tables, a: Analyzed, snap: Snapshot, rule: PolicyRule)
    requires AnalyzedOk(a)
    ensures MatchedRuleOf(t, a, snap, rule, false).ruleName == rule.name
    ensures MatchedRuleOf(t, a, snap, rule, false).ruleId == rule.id
  {
  }

  lemma RemappedId(snap: Snapshot, m: MatchedRule)
    requires RemapRule(snap, m).Ok?
    ensures m.ruleName in snap.ruleNames && RemapRule(snap, m).value.ruleId == snap.ruleNames[m.ruleName]
  {
  }

  ghost predicate NamesMatch(snap: Snapshot) {
    && OwnIds(snap.rules)
    && (forall n :: n in snap.ruleNames ==> snap.ruleNames[n] in snap.rules && snap.rules[snap.ruleNames[n]].name == n)
    && (forall i :: i in snap.rules ==> snap.rules[i].name in snap.ruleNames && snap.ruleNames[snap.rules[i].name] == i)
  }

  /** The twin of the twin is the rule itself. */
  lemma TwinBack(t: Tables, sp: Snapshot, sq: Snapshot, id: Uuid)
    requires Twins(t, sp, sq) && Twins(t, sq, sp) && id in sq.rules && NamesMatch(sq)
    ensures sq.rules[id].name in sp.ruleNames && TwinId(sp, sq.rules[id]) in sp.rules
    ensures sp.rules[TwinId(sp, sq.rules[id])].name in sq.ruleNames && TwinId(sq, sp.rules[TwinId(sp, sq.rules[id])]) == id
  {
    hide SameProfile;
  }

  lemma NamesOf(t: Tables, q: ContentPolicy, sq: Snapshot)
    requires Compiled(t, q, sq)
    ensures NamesMatch(sq)
  {
    hide ProfileFingerprint, SurfacesCompiled, ValidPolicy;
  }

  /** Everything remapping needs to know about two snapshots of one profile. */
  ghost predicate SameGroup(t: Tables, p: ContentPolicy, q: ContentPolicy, sp: Snapshot, sq: Snapshot) {
    && Compiled(t, p, sp) && Compiled(t, q, sq) && sp.profileFingerprint == sq.profileFingerprint
    && AgreeOnSecurity(t, p, q)
  }

  lemma AgreeBack(t: Tables, p: ContentPolicy, q: ContentPolicy)
    requires AgreeOnSecurity(t, p, q)
    ensures AgreeOnSecurity(t, q, p)
  {
    hide BehaviourOf, SecurityReach;
  }

  ghost predicate RemapsTo(snap: Snapshot, e: seq<MatchedRule>, r: seq<MatchedRule>) {
    |r| == |e| && forall i :: 0 <= i < |r| ==> Ok(r[i]) == RemapRule(snap, e[i])
  }

  lemma RemapSucceeds(t: Tables, a: Analyzed, sp: Snapshot, sq: Snapshot)
    requires AnalyzedOk(a) && Twins(t, sp, sq)
    ensures RemapEquivalentMatches(sq, Evaluated(t, a, sp, false)).Ok?
    ensures RemapsTo(sq, Evaluated(t, a, sp, false), RemapEquivalentMatches(sq, Evaluated(t, a, sp, false)).value)
  {
    hide AnalyzedOk, Twins, RemapRule, Evaluated, RemapEquivalentMatches, TriggeredRules, ResultOf, TwinId;
    var e := Evaluated(t, a, sp, false);
    forall i | 0 <= i < |e| ensures RemapRule(sq, e[i]).Ok? {
      RemapEntry(t, a, sp, sq, i);
    }
    RemapsEach(sq, e);
  }

  /** The remapped list and the policy's own result have the same elements, up to pattern ids. */
  lemma RemapElements(t: Tables, a: Analyzed, sp: Snapshot, sq: Snapshot, r: seq<MatchedRule>, x: MatchedRule)
    requires AnalyzedOk(a) && Twins(t, sp, sq) && Twins(t, sq, sp) && NamesMatch(sq)
    requires RemapsTo(sq, Evaluated(t, a, sp, false), r)
    ensures x in MapSeq(WithoutIds, r) <==> x in MapSeq(WithoutIds, Evaluated(t, a, sq, false))
  {
    hide AnalyzedOk, Twins, RemapRule, Evaluated, WithoutIds, ResultOf, NamesMatch;
    EvaluatedElements(t, a, sq, x);
    var m := MapSeq(WithoutIds, r);
    if x in m {
      var i :| 0 <= i < |m| && m[i] == x;
      RemappedIsResult(t, a, sp, sq, r, i);
    }
    if id :| ResultOf(t, a, sq, id, x) {
      var i := RemappedFrom(t, a, sp, sq, id, x);
      assert m[i] == x;
    }
  }

  lemma RemappedIsResult(t: Tables, a: Analyzed, sp: Snapshot, sq: Snapshot, r: seq<MatchedRule>, i: nat)
    requires AnalyzedOk(a) && Twins(t, sp, sq) && RemapsTo(sq, Evaluated(t, a, sp, false), r) && i < |r|
    ensures exists id :: ResultOf(t, a, sq, id, WithoutIds(r[i]))
  {
    hide AnalyzedOk, Twins, RemapRule, Evaluated, WithoutIds, ResultOf;
    RemapEntry(t, a, sp, sq, i);
  }

  lemma {:induction false} RemappedFrom(t: Tables, a: Analyzed, sp: Snapshot, sq: Snapshot, id: Uuid, x: MatchedRule) returns (i: nat)
    requires AnalyzedOk(a) && Twins(t, sp, sq) && Twins(t, sq, sp) && NamesMatch(sq) && ResultOf(t, a, sq, id, x)
    ensures i < |Evaluated(t, a, sp, false)|
    ensures RemapRule(sq, Evaluated(t, a, sp, false)[i]).Ok? && WithoutIds(RemapRule(sq, Evaluated(t, a, sp, false)[i]).value) == x
  {
    hide AnalyzedOk, TriggeredRules, WithoutIds, MatchedRuleOf, RemapRule, NamesMatch, HasTwin;
    TriggeredAreRules(t, a, sq.rules);
    TwinBack(t, sp, sq, id);
    TwinResult(t, a, sq, sp, id);
    var back := TwinId(sp, sq.rules[id]);
    var ids := SortedKeys(TriggeredRules(t, a, sp.rules));
    assert back in ids;
    i :| 0 <= i < |ids| && ids[i] == back;
    RemapEntry(t, a, sp, sq, i);
  }

  // ---- Sorted by rule id ----------------------------------------------------------------

  /** Rule ids tell the entries of a list apart. */
  ghost predicate DistinctIds(s: seq<MatchedRule>) {
    forall i, j :: 0 <= i < j < |s| ==> s[i].ruleId != s[j].ruleId
  }

  lemma DistinctWithoutIds(s: seq<MatchedRule>)
    requires DistinctIds(s)
    ensures NoRepeats(MapSeq(WithoutIds, s)) && NoTies(MapSeq(WithoutIds, s), RuleLeq)
  {
    var m := MapSeq(WithoutIds, s);
    assert forall i :: 0 <= i < |m| ==> m[i].ruleId == s[i].ruleId;
    forall x, y | x in m && y in m && RuleLeq(x, y) && RuleLeq(y, x) ensures x == y {
      var i :| 0 <= i < |m| && m[i] == x;
      var j :| 0 <= j < |m| && m[j] == y;
      assert !(i < j) && !(j < i);
    }
    hide WithoutIds;
    forall x | x in multiset(m) ensures x in m {
    }
    NoTiesHere(m);
  }

  lemma NoTiesHere(m: seq<MatchedRule>)
    requires forall x, y :: x in m && y in m && RuleLeq(x, y) && RuleLeq(y, x) ==> x == y
    ensures NoTies(m, RuleLeq)
  {
  }

  lemma EvaluatedDistinct(t: Tables, a: Analyzed, snap: Snapshot)
    requires AnalyzedOk(a) && OwnIds(snap.rules)
    ensures DistinctIds(Evaluated(t, a, snap, false)) && Sorted(Evaluated(t, a, snap, false), RuleLeq)
  {
    hide AnalyzedOk, TriggeredRules, SurfaceResults;
    TriggeredAreRules(t, a, snap.rules);
    var ids := SortedKeys(TriggeredRules(t, a, snap.rules));
    var e := Evaluated(t, a, snap, false);
    forall i | 0 <= i < |e| ensures e[i].ruleId == ids[i] {
      assert ids[i] in ids;
    }
  }

  lemma RemappedDistinct(t: Tables, a: Analyzed, sp: Snapshot, sq: Snapshot, r: seq<MatchedRule>)
    requires AnalyzedOk(a) && Twins(t, sp, sq) && NamesMatch(sp) && RemapsTo(sq, Evaluated(t, a, sp, false), r)
    ensures DistinctIds(r)
  {
    hide AnalyzedOk, Twins, RemapRule, Evaluated, ResultOf, TriggeredRules;
    var ids := SortedKeys(TriggeredRules(t, a, sp.rules));
    forall i, j | 0 <= i < j < |r| ensures r[i].ruleId != r[j].ruleId {
      RemapEntry(t, a, sp, sq, i);
      RemapEntry(t, a, sp, sq, j);
      TwinNames(t, sp, sq, ids[i]);
      TwinNames(t, sp, sq, ids[j]);
    }
  }

  lemma TwinNames(t: Tables, sp: Snapshot, sq: Snapshot, id: Uuid)
    requires Twins(t, sp, sq) && NamesMatch(sp) && id in sp.rules
    ensures sp.rules[id].name in sq.ruleNames && TwinId(sq, sp.rules[id]) in sq.rules
    ensures var name := sq.rules[TwinId(sq, sp.rules[id])].name; name in sp.ruleNames && sp.ruleNames[name] == id
  {
    hide SameProfile;
  }

  /** The remapped result, in rule order, is the policy's own result up to pattern ids. */
  lemma RemapIsEvaluation(t: Tables, a: Analyzed, p: ContentPolicy, q: ContentPolicy, sp: Snapshot, sq: Snapshot)
    requires AnalyzedOk(a) && SameGroup(t, p, q, sp, sq)
    ensures RemapEquivalentMatches(sq, Evaluated(t, a, sp, false)).Ok?
    ensures MapSeq(WithoutIds, Sort(RemapEquivalentMatches(sq, Evaluated(t, a, sp, false)).value, RuleLeq))
         == MapSeq(WithoutIds, Sort(Evaluated(t, a, sq, false), RuleLeq))
  {
    AllTwins(t, p, q, sp, sq);
    AgreeBack(t, p, q);
    AllTwins(t, q, p, sq, sp);
    NamesOf(t, p, sp);
    NamesOf(t, q, sq);
    hide SameGroup;
    RemapSucceeds(t, a, sp, sq);
    var r := RemapEquivalentMatches(sq, Evaluated(t, a, sp, false)).value;
    RemappedSorts(t, a, sp, sq, r);
  }

  lemma RemappedSorts(t: Tables, a: Analyzed, sp: Snapshot, sq: Snapshot, r: seq<MatchedRule>)
    requires AnalyzedOk(a) && Twins(t, sp, sq) && Twins(t, sq, sp) && NamesMatch(sp) && NamesMatch(sq)
    requires RemapsTo(sq, Evaluated(t, a, sp, false), r)
    ensures MapSeq(WithoutIds, Sort(r, RuleLeq)) == MapSeq(WithoutIds, Sort(Evaluated(t, a, sq, false), RuleLeq))
  {
    var own := Evaluated(t, a, sq, false);
    RemappedDistinct(t, a, sp, sq, r);
    EvaluatedDistinct(t, a, sq);
    DistinctWithoutIds(r);
    DistinctWithoutIds(own);
    forall x ensures x in MapSeq(WithoutIds, r) <==> x in MapSeq(WithoutIds, own) {
      RemapElements(t, a, sp, sq, r, x);
    }
    hide AnalyzedOk, Twins, NamesMatch, Evaluated, MapSeq, Sort, NoRepeats, NoTies, RemapsTo, DistinctIds, Sorted;
    assert forall x, y :: RuleLeq(x, y) ==> RuleLeq(WithoutIds(x), WithoutIds(y));
    assert TotalPreorder(RuleLeq);
    SortedImages(r, own, RuleLeq, WithoutIds, RuleLeq);
  }
}
