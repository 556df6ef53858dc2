/**
 * validation.rs: when `collect_validation` finds no error, and why that is what
 * the fingerprint and the compiler need. Matching and hashing normalize the
 * authored text, validation the parsed literal; they agree by PatternSyntax.
 */
module Validation {
  import opened Wrappers
  import opened Sorting
  import opened PolicyModel
  import opened TextTables
  import opened ByteEncoding
  import opened Fingerprint
  import opened NormalizedViews
  import opened PatternSyntax

  datatype PolicyLimits = PolicyLimits(
    hubPatterns: nat, serverPatterns: nat, globalPatterns: nat, patternCharacters: nat, ruleNameCharacters: nat,
    ruleDescriptionCharacters: nat, customReasonCharacters: nat, replacementCharacters: nat, maximumDurationSeconds: nat)
  {
    function MaximumPatterns(a: Authority): nat {
      match a
      case Global => globalPatterns
      case Hub => hubPatterns
      case Server => serverPatterns
    }
  }

  const DEFAULT_LIMITS := PolicyLimits(1_000, 500, 10_000, 100, 100, 1_000, 500, 100, 365 * 24 * 60 * 60)

  /** The text functions validation reads. */
  datatype ValidationText = ValidationText(normalize: string -> string, whitespace: char -> bool, lowercase: string -> string)

  function Trim(v: ValidationText, s: string): string { TrimEnd(v.whitespace, TrimStart(v.whitespace, s)) }

  predicate IsDelivery(a: ActionType) { ActionTypeCode(a) < 6 }

  predicate IsLegal(a: ActionType, authority: Authority) {
    || IsDelivery(a)
    || (authority == Global && (a == LobbyWarn || a == LobbyBan || a == Blacklist))
    || (authority == Hub && (a == Log || a == HubWarn || a == HubMute || a == HubBan))
  }

  /** `validate_action` reports nothing. */
  predicate ActionAccepted(v: ValidationText, l: PolicyLimits, authority: Authority, a: PolicyAction) {
    && IsLegal(a.actionType, authority)
    && (NeedsDuration(a.actionType) <==> a.duration.Some?)
    && (a.duration.Some? ==> 0 < a.duration.value <= l.maximumDurationSeconds)
    && (a.replacement.Some? ==>
          && |a.replacement.value| <= l.replacementCharacters
          && a.actionType == ReplaceName && Trim(v, a.replacement.value) != "")
  }

  function Parsed(v: ValidationText, p: RulePattern): Result<ParsedPattern, PatternError> {
    ParsePattern(v.normalize, v.whitespace, p.pattern)
  }

  /** A pattern parses, as the type it is stored with if that is checked, and is not too long. */
  predicate PatternAccepted(v: ValidationText, l: PolicyLimits, check: bool, p: RulePattern) {
    Parsed(v, p).Ok? && (check ==> Parsed(v, p).value.patternType == p.patternType) && |p.pattern| <= l.patternCharacters
  }

  /** `validate_rule` reports nothing. */
  predicate RuleAccepted(v: ValidationText, l: PolicyLimits, check: bool, authority: Authority, r: PolicyRule) {
    && Trim(v, r.name) != "" && |r.name| <= l.ruleNameCharacters && |r.description| <= l.ruleDescriptionCharacters
    && (r.customReason.Some? ==> |r.customReason.value| <= l.customReasonCharacters)
    && r.patterns != [] && r.surfaces != {} && r.actions != []
    && (forall p :: p in r.patterns ==> PatternAccepted(v, l, check, p))
    && (forall a :: a in r.actions ==> ActionAccepted(v, l, authority, a))
    && (forall i, j :: 0 <= i < j < |r.actions| ==> r.actions[i].actionType != r.actions[j].actionType)
  }

  function AllPatterns(rules: seq<PolicyRule>): seq<RulePattern> {
    if rules == [] then [] else AllPatterns(rules[..|rules| - 1]) + rules[|rules| - 1].patterns
  }

  function AllActions(rules: seq<PolicyRule>): seq<PolicyAction> {
    if rules == [] then [] else AllActions(rules[..|rules| - 1]) + rules[|rules| - 1].actions
  }

  /** The entries of `duplicate_patterns` that two patterns share. */
  predicate SamePattern(v: ValidationText, p: RulePattern, q: RulePattern) {
    Parsed(v, p).Ok? && Parsed(v, q).Ok? && Parsed(v, p).value == Parsed(v, q).value
  }

  predicate ScopeAccepted(v: ValidationText, s: PolicyScope) {
    if s.authority == Global then s.id == "" else Trim(v, s.id) != ""
  }

  /** `collect_validation` reports nothing; `check` is its `check_classification`. */
  predicate Accepted(v: ValidationText, l: PolicyLimits, check: bool, policy: ContentPolicy) {
    var rules, patterns, actions := policy.rules, AllPatterns(policy.rules), AllActions(policy.rules);
    && ScopeAccepted(v, policy.scope) && |patterns| <= l.MaximumPatterns(policy.scope.authority)
    && (forall r :: r in rules ==> RuleAccepted(v, l, check, policy.scope.authority, r))
    && (forall i, j :: 0 <= i < j < |rules| ==> rules[i].id != rules[j].id)
    && (forall i, j :: 0 <= i < j < |rules| ==> v.lowercase(Trim(v, rules[i].name)) != v.lowercase(Trim(v, rules[j].name)))
    && (forall i, j :: 0 <= i < j < |patterns| ==> patterns[i].id != patterns[j].id && !SamePattern(v, patterns[i], patterns[j]))
    && (forall i, j :: 0 <= i < j < |actions| ==> actions[i].id != actions[j].id)
  }

  // ---- What acceptance guarantees -------------------------------------------------------------------------

  lemma {:induction false} EncodingBound(s: string)
    ensures |Utf8(s)| <= 4 * |s|
  {
    if s != [] {
      EncodingBound(s[1..]);
    }
  }

  /** Limits far below what a process can hold, as the defaults are. */
  ghost predicate LimitsSmall(l: PolicyLimits) {
    && Small(4 * l.ruleNameCharacters) && Small(4 * l.ruleDescriptionCharacters) && Small(4 * l.customReasonCharacters)
    && Small(4 * l.replacementCharacters) && Small(l.maximumDurationSeconds)
  }

  lemma DefaultLimitsSmall()
    ensures LimitsSmall(DEFAULT_LIMITS)
  {
    assert Pow256(1) == 256 && Pow256(2) == 256 * Pow256(1) && Pow256(3) == 256 * Pow256(2) && Pow256(4) == 256 * Pow256(3);
    assert Pow256(5) == 256 * Pow256(4) && Pow256(6) == 256 * Pow256(5) && Pow256(7) == 256 * Pow256(6);
  }

  /** Normal forms can be stored: no NUL, which validation does not exclude, and a length a process can hold. */
  ghost predicate Storable(t: Tables, policy: ContentPolicy) {
    forall r, p :: r in policy.rules && p in r.patterns ==> StorableText(t.normalize(p.pattern))
  }

  ghost predicate StorableText(s: string) {
    Small(|Utf8(s)|) && forall i :: 0 <= i < |Utf8(s)| ==> Utf8(s)[i] != 0
  }

  lemma SmallText(s: string, limit: nat)
    requires |s| <= limit && Small(4 * limit)
    ensures Small(|Utf8(s)|)
  {
    EncodingBound(s);
  }

  /** The tables and validation read one normalization, to which white space, quotes and stars are padding. */
  ghost predicate OneNormalization(pipeline: Pipeline, v: ValidationText, t: Tables) {
    t.normalize == v.normalize && v.whitespace == pipeline.tests.whitespace && IsNormalization(pipeline, v.normalize)
  }

  lemma PatternIsValid(pipeline: Pipeline, v: ValidationText, l: PolicyLimits, t: Tables, p: RulePattern)
    requires OneNormalization(pipeline, v, t) && PatternAccepted(v, l, true, p) && StorableText(t.normalize(p.pattern))
    ensures ValidPattern(t, p) && PatternKey(t, p) == (Parsed(v, p).value.patternType, Parsed(v, p).value.normalized)
  {
    hide IsNormalization, ParsePattern, Small, Utf8;
    MatchedTextIsParsedText(pipeline, v.normalize, p.pattern);
  }

  lemma ActionIsValid(v: ValidationText, l: PolicyLimits, authority: Authority, a: PolicyAction)
    requires ActionAccepted(v, l, authority, a) && LimitsSmall(l)
    ensures ValidAction(a)
  {
    hide Utf8;
    EmptyText();
    if a.replacement.Some? {
      SmallText(a.replacement.value, l.replacementCharacters);
    }
  }

  lemma EmptyText()
    ensures |Utf8("")| == 0
  {
  }

  /** A rule's patterns stand together in the list of all patterns. */
  lemma {:induction false} RulePatternsAt(rules: seq<PolicyRule>, r: PolicyRule) returns (at: nat)
    requires r in rules
    ensures at + |r.patterns| <= |AllPatterns(rules)| && AllPatterns(rules)[at..at + |r.patterns|] == r.patterns
  {
    var n := |rules| - 1;
    assert rules == rules[..n] + [rules[n]];
    if r in rules[..n] {
      at := RulePatternsAt(rules[..n], r);
      assert AllPatterns(rules)[at..at + |r.patterns|] == AllPatterns(rules[..n])[at..at + |r.patterns|];
    } else {
      at := |AllPatterns(rules[..n])|;
    }
  }

  lemma KeysDistinct(pipeline: Pipeline, v: ValidationText, l: PolicyLimits, t: Tables, policy: ContentPolicy, r: PolicyRule)
    requires OneNormalization(pipeline, v, t) && Accepted(v, l, true, policy) && r in policy.rules
    requires forall p :: p in r.patterns ==> PatternAccepted(v, l, true, p) && StorableText(t.normalize(p.pattern))
    ensures NoRepeats(MapSeq(KeyOf(t), r.patterns))
  {
    hide OneNormalization, ParsePattern, StorableText, RuleAccepted, ActionAccepted, AllPatterns, AllActions;
    var at := RulePatternsAt(policy.rules, r);
    var all, keys := AllPatterns(policy.rules), MapSeq(KeyOf(t), r.patterns);
    forall i, j | 0 <= i < j < |r.patterns| ensures keys[i] != keys[j] {
      var p, q := r.patterns[i], r.patterns[j];
      assert all[at..at + |r.patterns|][i] == all[at + i] && all[at..at + |r.patterns|][j] == all[at + j];
      assert !SamePattern(v, all[at + i], all[at + j]);
      assert p in r.patterns && q in r.patterns;
      PatternIsValid(pipeline, v, l, t, p);
      PatternIsValid(pipeline, v, l, t, q);
    }
  }

  lemma RuleIsValid(pipeline: Pipeline, v: ValidationText, l: PolicyLimits, t: Tables, policy: ContentPolicy, r: PolicyRule)
    requires OneNormalization(pipeline, v, t) && LimitsSmall(l) && Accepted(v, l, true, policy) && Storable(t, policy) && r in policy.rules
    ensures ValidRule(t, r)
  {
    hide OneNormalization, StorableText, ParsePattern, AllPatterns, AllActions, ValidPattern, ValidAction, ActionAccepted, PatternAccepted,
      Small, Utf8, Trim;
    var authority := policy.scope.authority;
    RuleParts(v, l, policy, r);
    RuleTexts(l, r);
    forall p | p in r.patterns ensures ValidPattern(t, p) {
      PatternIsValid(pipeline, v, l, t, p);
    }
    forall a | a in r.actions ensures ValidAction(a) {
      ActionIsValid(v, l, authority, a);
    }
    KeysDistinct(pipeline, v, l, t, policy, r);
  }

  lemma RuleParts(v: ValidationText, l: PolicyLimits, policy: ContentPolicy, r: PolicyRule)
    requires Accepted(v, l, true, policy) && r in policy.rules
    ensures RuleAccepted(v, l, true, policy.scope.authority, r)
  {
    hide RuleAccepted, SamePattern, Trim;
  }

  lemma RuleTexts(l: PolicyLimits, r: PolicyRule)
    requires LimitsSmall(l) && |r.name| <= l.ruleNameCharacters && |r.description| <= l.ruleDescriptionCharacters
    requires r.customReason.Some? ==> |r.customReason.value| <= l.customReasonCharacters
    ensures Small(|Utf8(r.name)|) && Small(|Utf8(r.description)|) && Small(|Utf8(OrEmpty(r.customReason))|)
  {
    hide Utf8;
    EmptyText();
    SmallText(r.name, l.ruleNameCharacters);
    SmallText(r.description, l.ruleDescriptionCharacters);
    if r.customReason.Some? {
      SmallText(r.customReason.value, l.customReasonCharacters);
    }
  }

  /** Every accepted policy whose normal forms can be stored is valid, as fingerprints and compilation need it. */
  lemma AcceptedIsValid(pipeline: Pipeline, v: ValidationText, l: PolicyLimits, t: Tables, policy: ContentPolicy)
    requires OneNormalization(pipeline, v, t) && LimitsSmall(l) && Accepted(v, l, true, policy) && Storable(t, policy)
    ensures ValidPolicy(t, policy)
  {
    hide OneNormalization, LimitsSmall, Storable, ValidRule, RuleAccepted, SamePattern;
    forall r | r in policy.rules && r.enabled ensures ValidRule(t, r) {
      RuleIsValid(pipeline, v, l, t, policy, r);
    }
  }

  // ---- Classification -------------------------------------------------------------------------------------

  /** The pattern with the type it parses as. */
  function ClassifyPattern(v: ValidationText, p: RulePattern): RulePattern {
    if Parsed(v, p).Ok? then p.(patternType := Parsed(v, p).value.patternType) else p
  }

  function ClassifyRule(v: ValidationText, r: PolicyRule): (c: PolicyRule)
    ensures c == r.(patterns := c.patterns) && |c.patterns| == |r.patterns|
    ensures forall i :: 0 <= i < |r.patterns| ==> c.patterns[i] == ClassifyPattern(v, r.patterns[i])
  {
    r.(patterns := seq(|r.patterns|, i requires 0 <= i < |r.patterns| => ClassifyPattern(v, r.patterns[i])))
  }

  function ClassifyRules(v: ValidationText, rules: seq<PolicyRule>): (c: seq<PolicyRule>)
    ensures |c| == |rules| && forall i :: 0 <= i < |rules| ==> c[i] == ClassifyRule(v, rules[i])
  {
    seq(|rules|, i requires 0 <= i < |rules| => ClassifyRule(v, rules[i]))
  }

  /** What `validate_and_classify_policy` leaves of an accepted policy. */
  function Classified(v: ValidationText, policy: ContentPolicy): ContentPolicy {
    policy.(rules := ClassifyRules(v, policy.rules))
  }

  lemma {:induction false} ClassifiedLists(v: ValidationText, rules: seq<PolicyRule>)
    ensures var c := ClassifyRules(v, rules);
      && |AllPatterns(c)| == |AllPatterns(rules)| && AllActions(c) == AllActions(rules)
      && forall i :: 0 <= i < |AllPatterns(rules)| ==> AllPatterns(c)[i] == ClassifyPattern(v, AllPatterns(rules)[i])
  {
    hide ClassifyPattern;
    if rules != [] {
      var n := |rules| - 1;
      ClassifiedLists(v, rules[..n]);
      assert ClassifyRules(v, rules)[..n] == ClassifyRules(v, rules[..n]);
    }
  }

  lemma PatternClassified(v: ValidationText, l: PolicyLimits, p: RulePattern)
    ensures Parsed(v, ClassifyPattern(v, p)) == Parsed(v, p) && ClassifyPattern(v, p).id == p.id
    ensures PatternAccepted(v, l, false, p) ==> PatternAccepted(v, l, true, ClassifyPattern(v, p))
  {
    hide ParsePattern;
  }

  lemma RuleClassified(v: ValidationText, l: PolicyLimits, authority: Authority, r: PolicyRule)
    requires RuleAccepted(v, l, false, authority, r)
    ensures RuleAccepted(v, l, true, authority, ClassifyRule(v, r))
  {
    hide PatternAccepted, ActionAccepted, ClassifyPattern, Trim;
    var c := ClassifyRule(v, r);
    forall p | p in c.patterns ensures PatternAccepted(v, l, true, p) {
      var i :| 0 <= i < |c.patterns| && c.patterns[i] == p;
      assert r.patterns[i] in r.patterns;
      PatternClassified(v, l, r.patterns[i]);
    }
    assert c.patterns != [];
  }

  /** A policy accepted before classification is accepted after it. */
  lemma ClassifiedAccepted(v: ValidationText, l: PolicyLimits, policy: ContentPolicy)
    requires Accepted(v, l, false, policy)
    ensures Accepted(v, l, true, Classified(v, policy))
  {
    hide RuleAccepted, ClassifyPattern, AllPatterns, AllActions, Trim, Parsed;
    var c := Classified(v, policy);
    ClassifiedLists(v, policy.rules);
    forall r | r in c.rules ensures RuleAccepted(v, l, true, policy.scope.authority, r) {
      var i :| 0 <= i < |c.rules| && c.rules[i] == r;
      assert policy.rules[i] in policy.rules;
      RuleClassified(v, l, policy.scope.authority, policy.rules[i]);
    }
    var before, after := AllPatterns(policy.rules), AllPatterns(c.rules);
    forall i, j | 0 <= i < j < |after| ensures after[i].id != after[j].id && !SamePattern(v, after[i], after[j]) {
      PatternClassified(v, l, before[i]);
      PatternClassified(v, l, before[j]);
    }
  }

  lemma ClassifiedStorable(v: ValidationText, t: Tables, policy: ContentPolicy)
    requires Storable(t, policy)
    ensures Storable(t, Classified(v, policy))
  {
    hide StorableText;
    var c := Classified(v, policy);
    forall r, p | r in c.rules && p in r.patterns ensures StorableText(t.normalize(p.pattern)) {
      var i :| 0 <= i < |c.rules| && c.rules[i] == r;
      var k :| 0 <= k < |r.patterns| && r.patterns[k] == p;
      assert policy.rules[i] in policy.rules && policy.rules[i].patterns[k] in policy.rules[i].patterns;
    }
  }

  /** An accepted policy, classified, is valid. */
  lemma ClassifiedIsValid(pipeline: Pipeline, v: ValidationText, l: PolicyLimits, t: Tables, policy: ContentPolicy)
    requires OneNormalization(pipeline, v, t) && LimitsSmall(l) && Accepted(v, l, false, policy) && Storable(t, policy)
    ensures ValidPolicy(t, Classified(v, policy))
  {
    hide OneNormalization, LimitsSmall, Accepted, Storable, ValidPolicy, Classified;
    ClassifiedAccepted(v, l, policy);
    ClassifiedStorable(v, t, policy);
    AcceptedIsValid(pipeline, v, l, t, Classified(v, policy));
  }
}
