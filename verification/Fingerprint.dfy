/**
 * compiler.rs: `profile_fingerprint`. The digest is modelled by the bytes that
 * are hashed. Two validated policies have the same bytes exactly when their
 * enabled rules behave the same: ids, authors, authored spelling with one
 * normal form, list orders, and an absent as against an empty reason are
 * outside the fingerprint, and nothing else is.
 */
module Fingerprint {
  import opened Wrappers
  import opened Sorting
  import opened PolicyModel
  import opened TextTables
  import opened ByteEncoding
  import opened RuleEncoding

  // ---- Orders ----------------------------------------------------------------

  predicate StringLeq(a: string, b: string) {
    a == [] || (b != [] && (a[0] < b[0] || (a[0] == b[0] && StringLeq(a[1..], b[1..]))))
  }

  lemma {:induction false} StringLeqTotal(a: string, b: string)
    ensures StringLeq(a, b) || StringLeq(b, a)
    ensures StringLeq(a, b) && StringLeq(b, a) ==> a == b
  {
    if a != [] && b != [] {
      StringLeqTotal(a[1..], b[1..]);
      assert a == [a[0]] + a[1..] && b == [b[0]] + b[1..];
    }
  }

  lemma {:induction false} StringLeqTransitive(a: string, b: string, c: string)
    requires StringLeq(a, b) && StringLeq(b, c)
    ensures StringLeq(a, c)
  {
    if a != [] && b != [] && c != [] && a[0] == b[0] == c[0] {
      StringLeqTransitive(a[1..], b[1..], c[1..]);
    }
  }

  predicate RuleNameLeq(a: PolicyRule, b: PolicyRule) {
    StringLeq(a.name, b.name) && (a.name == b.name ==> a.id <= b.id)
  }

  function PatternKey(t: Tables, p: RulePattern): (PatternType, string) {
    (p.patternType, t.normalize(p.pattern))
  }

  predicate PatternKeyLeq(a: (PatternType, string), b: (PatternType, string)) {
    || PatternTypeCode(a.0) < PatternTypeCode(b.0)
    || (a.0 == b.0 && StringLeq(a.1, b.1))
  }

  function ByPattern(t: Tables): (RulePattern, RulePattern) -> bool {
    (a: RulePattern, b: RulePattern) =>
      PatternKeyLeq(PatternKey(t, a), PatternKey(t, b)) && (PatternKey(t, a) == PatternKey(t, b) ==> a.id <= b.id)
  }

  function ActionKey(a: PolicyAction): (ActionType, nat, string) {
    (a.actionType, if a.duration.Some? then a.duration.value else 0,
     if a.replacement.Some? then a.replacement.value else "")
  }

  predicate ActionKeyLeq(a: (ActionType, nat, string), b: (ActionType, nat, string)) {
    ActionTypeCode(a.0) <= ActionTypeCode(b.0)
  }

  predicate ActionLeq(a: PolicyAction, b: PolicyAction) {
    || ActionTypeCode(a.actionType) < ActionTypeCode(b.actionType)
    || (a.actionType == b.actionType && a.id <= b.id)
  }

  lemma RuleNameOrder()
    ensures TotalPreorder(RuleNameLeq)
  {
    forall a, b ensures RuleNameLeq(a, b) || RuleNameLeq(b, a) {
      StringLeqTotal(a.name, b.name);
    }
    forall a, b, c | RuleNameLeq(a, b) && RuleNameLeq(b, c) ensures RuleNameLeq(a, c) {
      StringLeqTransitive(a.name, b.name, c.name);
      StringLeqTotal(a.name, b.name);
      StringLeqTotal(b.name, c.name);
    }
  }

  lemma PatternOrder(t: Tables)
    ensures TotalPreorder(ByPattern(t))
  {
    var leq := ByPattern(t);
    forall a, b ensures leq(a, b) || leq(b, a) {
      StringLeqTotal(t.normalize(a.pattern), t.normalize(b.pattern));
    }
    forall a, b, c | leq(a, b) && leq(b, c) ensures leq(a, c) {
      var x, y, z := PatternKey(t, a), PatternKey(t, b), PatternKey(t, c);
      if x.0 == y.0 == z.0 {
        StringLeqTransitive(x.1, y.1, z.1);
        StringLeqTotal(x.1, y.1);
        StringLeqTotal(y.1, z.1);
      }
    }
  }

  lemma ActionOrder()
    ensures TotalPreorder(ActionLeq)
  {
  }

  // ---- The bytes ----------------------------------------------------------------

  function OrEmpty(s: Option<string>): string { if s.Some? then s.value else "" }

  function PatternCodeOf(key: (PatternType, string)): PatternCode {
    PatternCode(PatternTypeCode(key.0), Utf8(key.1))
  }

  function ActionCodeOf(key: (ActionType, nat, string)): ActionCode {
    ActionCode(ActionTypeCode(key.0), key.1, Utf8(key.2))
  }

  /** The surface codes in the order of a BTreeSet. */
  function SurfaceCodes(from: nat, surfaces: set<Surface>): seq<Byte>
    decreases 6 - from
  {
    if from >= 6 then []
    else if ALL_SURFACES[from] in surfaces then [from] + SurfaceCodes(from + 1, surfaces)
    else SurfaceCodes(from + 1, surfaces)
  }

  function KeyOf(t: Tables): RulePattern -> (PatternType, string) { (p: RulePattern) => PatternKey(t, p) }

  function RuleCodeOf(t: Tables, rule: PolicyRule): RuleCode {
    RuleCode(Utf8(rule.name), Utf8(rule.description), Utf8(OrEmpty(rule.customReason)),
             SurfaceCodes(0, rule.surfaces),
             MapSeq(PatternCodeOf, MapSeq(KeyOf(t), Sort(rule.patterns, ByPattern(t)))),
             MapSeq(ActionCodeOf, MapSeq(ActionKey, Sort(rule.actions, ActionLeq))))
  }

  function CodeOf(t: Tables): PolicyRule -> RuleCode { (r: PolicyRule) => RuleCodeOf(t, r) }

  function Enabled(rules: seq<PolicyRule>): (r: seq<PolicyRule>)
    ensures forall x :: x in r <==> x in rules && x.enabled
  {
    if rules == [] then []
    else (if rules[0].enabled then [rules[0]] else []) + Enabled(rules[1..])
  }

  /** The bytes hashed for a policy; SHA-256 is taken to be injective on them. */
  function ProfileFingerprint(t: Tables, policy: ContentPolicy): seq<Byte> {
    Field(Utf8(SECURITY_VERSION)) + RulesBytes(MapSeq(CodeOf(t), Sort(Enabled(policy.rules), RuleNameLeq)))
  }

  method HashPolicy(t: Tables, policy: ContentPolicy) returns (bytes: seq<Byte>)
    ensures bytes == ProfileFingerprint(t, policy)
  {
    hide RuleCodeOf, RuleBytes, RulesBytes, Field, Utf8, Enabled;
    var rules := Sort(Enabled(policy.rules), RuleNameLeq);
    NoRules(MapSeq(CodeOf(t), rules[..0]));
    var head := Field(Utf8(SECURITY_VERSION));
    bytes := head;
    for i := 0 to |rules|
      invariant bytes == head + RulesBytes(MapSeq(CodeOf(t), rules[..i]))
    {
      var rule := HashRule(t, rules[i]);
      HashStep(t, rules, i);
      Regroup(head, RulesBytes(MapSeq(CodeOf(t), rules[..i])), rule);
      bytes := bytes + rule;
    }
    assert rules[..|rules|] == rules;
  }

  lemma NoRules(rules: seq<RuleCode>)
    requires rules == []
    ensures RulesBytes(rules) == []
  {
  }

  lemma HashStep(t: Tables, rules: seq<PolicyRule>, i: nat)
    requires i < |rules|
    ensures RulesBytes(MapSeq(CodeOf(t), rules[..i + 1]))
         == RulesBytes(MapSeq(CodeOf(t), rules[..i])) + RuleBytes(RuleCodeOf(t, rules[i]))
  {
    hide RuleCodeOf, RuleBytes, RulesBytes;
    RulesBytesAppend(MapSeq(CodeOf(t), rules[..i]), RuleCodeOf(t, rules[i]));
    assert MapSeq(CodeOf(t), rules[..i + 1]) == MapSeq(CodeOf(t), rules[..i]) + [RuleCodeOf(t, rules[i])];
  }

  lemma {:induction false} RulesBytesAppend(rules: seq<RuleCode>, r: RuleCode)
    ensures RulesBytes(rules + [r]) == RulesBytes(rules) + RuleBytes(r)
  {
    hide RuleBytes;
    if rules == [] {
      assert [] + [r] == [r] && [r][1..] == [];
    } else {
      assert (rules + [r])[1..] == rules[1..] + [r];
      RulesBytesAppend(rules[1..], r);
      Regroup(RuleBytes(rules[0]), RulesBytes(rules[1..]), RuleBytes(r));
    }
  }

  /** The hashing of one rule: three fields, the surface bytes, then patterns and actions in sorted order. */
  method HashRule(t: Tables, rule: PolicyRule) returns (bytes: seq<Byte>)
    ensures bytes == RuleBytes(RuleCodeOf(t, rule))
  {
    hide Field, Utf8;
    var head := Field(Utf8(rule.name)) + Field(Utf8(rule.description)) + Field(Utf8(OrEmpty(rule.customReason)))
      + SurfaceCodes(0, rule.surfaces);
    var patterns := Sort(rule.patterns, ByPattern(t));
    ghost var keys := MapSeq(PatternCodeOf, MapSeq(KeyOf(t), patterns));
    var body: seq<Byte> := [];
    for i := 0 to |patterns|
      invariant body == PatternsBytes(keys[..i])
    {
      var p := patterns[i];
      PatternsBytesAppend(keys, i);
      body := body + [PatternTypeCode(p.patternType)] + Field(Utf8(t.normalize(p.pattern)));
    }
    assert keys[..|patterns|] == keys;
    var actions := Sort(rule.actions, ActionLeq);
    ghost var codes := MapSeq(ActionCodeOf, MapSeq(ActionKey, actions));
    var tail: seq<Byte> := [];
    for i := 0 to |actions|
      invariant tail == ActionsBytes(codes[..i])
    {
      var key := ActionKey(actions[i]);
      ActionsBytesAppend(codes, i);
      tail := tail + [ActionTypeCode(key.0)] + U64(key.1) + Field(Utf8(key.2));
    }
    assert codes[..|actions|] == codes;
    bytes := head + body + tail;
    RuleBytesFlat(RuleCodeOf(t, rule));
  }

  lemma {:induction false} PatternsBytesConcat(a: seq<PatternCode>, p: PatternCode)
    ensures PatternsBytes(a + [p]) == PatternsBytes(a) + PatternBytes(p)
  {
    hide PatternBytes;
    if a == [] {
      assert [] + [p] == [p] && [p][1..] == [];
    } else {
      assert (a + [p])[1..] == a[1..] + [p];
      PatternsBytesConcat(a[1..], p);
      Regroup(PatternBytes(a[0]), PatternsBytes(a[1..]), PatternBytes(p));
    }
  }

  lemma PatternsBytesAppend(ps: seq<PatternCode>, i: nat)
    requires i < |ps|
    ensures PatternsBytes(ps[..i + 1]) == PatternsBytes(ps[..i]) + [ps[i].code] + Field(ps[i].text)
  {
    hide Field;
    assert ps[..i + 1] == ps[..i] + [ps[i]];
    PatternsBytesConcat(ps[..i], ps[i]);
    Regroup(PatternsBytes(ps[..i]), [ps[i].code], Field(ps[i].text));
  }

  lemma {:induction false} ActionsBytesConcat(a: seq<ActionCode>, x: ActionCode)
    ensures ActionsBytes(a + [x]) == ActionsBytes(a) + ActionBytes(x)
  {
    hide ActionBytes;
    if a == [] {
      assert [] + [x] == [x] && [x][1..] == [];
    } else {
      assert (a + [x])[1..] == a[1..] + [x];
      ActionsBytesConcat(a[1..], x);
      Regroup(ActionBytes(a[0]), ActionsBytes(a[1..]), ActionBytes(x));
    }
  }

  lemma ActionsBytesAppend(xs: seq<ActionCode>, i: nat)
    requires i < |xs|
    ensures ActionsBytes(xs[..i + 1])
         == ActionsBytes(xs[..i]) + [xs[i].code] + U64(xs[i].duration) + Field(xs[i].replacement)
  {
    hide Field, U64;
    assert xs[..i + 1] == xs[..i] + [xs[i]];
    ActionsBytesConcat(xs[..i], xs[i]);
    var c, d, f := [xs[i].code], U64(xs[i].duration), Field(xs[i].replacement);
    Regroup(ActionsBytes(xs[..i]), c + d, f);
    Regroup(ActionsBytes(xs[..i]), c, d);
  }

  lemma RuleBytesFlat(r: RuleCode)
    ensures RuleBytes(r) == Field(r.name) + Field(r.description) + Field(r.reason) + r.surfaces
      + PatternsBytes(r.patterns) + ActionsBytes(r.actions)
  {
    hide Field, PatternsBytes, ActionsBytes;
    var n, d, e, s, p, x :=
      Field(r.name), Field(r.description), Field(r.reason), r.surfaces, PatternsBytes(r.patterns), ActionsBytes(r.actions);
    Regroup(n + d + e + s, p, x);
    Regroup(n + d + e, s, p + x);
    Regroup(n + d, e, s + (p + x));
    Regroup(n, d, e + (s + (p + x)));
  }

  // ---- What validation guarantees --------------------------------------------------

  /**
   * The facts about one enabled rule that the decoding needs. `Small` bounds every text and duration far above
   * what validation admits; normal forms free of NUL are what a database text column can hold.
   */
  ghost predicate ValidRule(t: Tables, r: PolicyRule) {
    && Small(|Utf8(r.name)|) && Small(|Utf8(r.description)|) && Small(|Utf8(OrEmpty(r.customReason))|)
    && r.surfaces != {} && r.patterns != [] && r.actions != []
    && (forall p :: p in r.patterns ==> ValidPattern(t, p))
    && NoRepeats(MapSeq(KeyOf(t), r.patterns))
    && (forall a :: a in r.actions ==> ValidAction(a))
    && (forall i, j :: 0 <= i < j < |r.actions| ==> r.actions[i].actionType != r.actions[j].actionType)
  }

  ghost predicate ValidPattern(t: Tables, p: RulePattern) {
    var text := t.normalize(p.pattern);
    text != "" && Small(|Utf8(text)|) && forall i :: 0 <= i < |Utf8(text)| ==> Utf8(text)[i] != 0
  }

  ghost predicate ValidAction(a: PolicyAction) {
    && (!NeedsDuration(a.actionType) ==> a.duration.None?)
    && Small(ActionKey(a).1) && Small(|Utf8(ActionKey(a).2)|)
  }

  ghost predicate ValidPolicy(t: Tables, policy: ContentPolicy) {
    && (forall r :: r in policy.rules && r.enabled ==> ValidRule(t, r))
    && (forall i, j :: 0 <= i < j < |policy.rules| ==>
          policy.rules[i].id != policy.rules[j].id && policy.rules[i].name != policy.rules[j].name)
  }

  // ---- Behaviour ----------------------------------------------------------------------

  /** A rule without its ids, author, list orders, authored spelling, and absent-or-empty distinctions. */
  datatype Behaviour = Behaviour(
    name: string, description: string, reason: string, surfaces: set<Surface>,
    patterns: set<(PatternType, string)>, actions: set<(ActionType, nat, string)>)

  ghost function BehaviourOf(t: Tables, r: PolicyRule): Behaviour {
    Behaviour(r.name, r.description, OrEmpty(r.customReason), r.surfaces,
              set p | p in r.patterns :: PatternKey(t, p), set a | a in r.actions :: ActionKey(a))
  }

  ghost function PolicyBehaviour(t: Tables, policy: ContentPolicy): set<Behaviour> {
    set r | r in policy.rules && r.enabled :: BehaviourOf(t, r)
  }

  lemma {:induction false} SurfaceCodesRange(from: nat, surfaces: set<Surface>)
    ensures forall i :: 0 <= i < |SurfaceCodes(from, surfaces)| ==> from <= SurfaceCodes(from, surfaces)[i] < 6
    decreases 6 - from
  {
    if from < 6 {
      SurfaceCodesRange(from + 1, surfaces);
    }
  }

  lemma {:induction false} SurfaceCodesAscend(from: nat, surfaces: set<Surface>)
    ensures Ascending(SurfaceCodes(from, surfaces))
    decreases 6 - from
  {
    NothingAscends([]);
    hide Ascending;
    if from < 6 {
      SurfaceCodesAscend(from + 1, surfaces);
      SurfaceCodesRange(from + 1, surfaces);
      AscendingCons(from, SurfaceCodes(from + 1, surfaces));
    }
  }

  lemma NothingAscends(s: seq<Byte>)
    requires s == []
    ensures Ascending(s)
  {
  }

  lemma AscendingCons(x: Byte, rest: seq<Byte>)
    requires Ascending(rest) && forall i :: 0 <= i < |rest| ==> x < rest[i]
    ensures Ascending([x] + rest)
  {
  }

  lemma {:induction false} SurfaceCodesMember(from: nat, surfaces: set<Surface>, s: Surface)
    requires from <= SurfaceCode(s)
    ensures SurfaceCode(s) in SurfaceCodes(from, surfaces) <==> s in surfaces
    decreases 6 - from
  {
    SurfaceCodesRange(from + 1, surfaces);
    if from < SurfaceCode(s) {
      SurfaceCodesMember(from + 1, surfaces, s);
    } else {
      assert ALL_SURFACES[from] == s;
    }
  }
}
