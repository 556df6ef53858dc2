/**
 * compiler.rs: the compiled snapshot of one scope. The two-pass evaluation of
 * a message is in TwoPass, re-attribution in Remapping.
 */
module Compiler {
  import opened Wrappers
  import opened Sorting
  import opened Spans
  import opened PolicyModel
  import opened TextTables
  import opened ByteEncoding
  import opened Fingerprint
  import opened Matcher
  import opened PatternSharing

  datatype SurfaceMatcher = SurfaceMatcher(matcher: CompiledMatcher, detailed: set<Uuid>)

  datatype Snapshot = Snapshot(
    policyId: Uuid, scope: PolicyScope, version: nat, profileFingerprint: seq<Byte>,
    rules: map<Uuid, PolicyRule>, ruleNames: map<string, Uuid>, surfaces: map<Surface, SurfaceMatcher>)

  datatype PolicyMatchError = BuildFailed(error: BuildError) | UnknownRule(rule: Uuid)

  /** The analysed views shared by every profile. */
  datatype Analyzed = Analyzed(normalized: map<Surface, View>, security: map<Surface, View>, excluded: seq<ByteSpan>)

  /** Views pair every scalar with a source span, and source spans are non-empty. */
  ghost predicate AnalyzedOk(a: Analyzed) {
    && (forall s :: s in a.normalized ==>
          ViewOk(a.normalized[s]) && !a.normalized[s].security && NonEmpty(a.normalized[s].source))
    && (forall s :: s in a.security ==>
          ViewOk(a.security[s]) && a.security[s].security && NonEmpty(a.security[s].source))
  }

  /** Only message content has excluded ranges. */
  function InputFor(a: Analyzed, s: Surface): SurfaceInput
    requires s in a.normalized
  {
    SurfaceInput(a.normalized[s], if s in a.security then Some(a.security[s]) else None,
                 if s == MessageContent then a.excluded else [])
  }

  lemma InputForOk(a: Analyzed, s: Surface)
    requires AnalyzedOk(a) && s in a.normalized
    ensures InputOk(InputFor(a, s))
  {
  }

  // ---- Definitions of a surface ------------------------------------------------

  function DefinitionOf(rule: Uuid, p: RulePattern): PatternDefinition {
    PatternDefinition(rule, p.id, p.pattern, p.patternType)
  }

  function DefinitionsOf(rule: PolicyRule): (r: seq<PatternDefinition>)
    ensures |r| == |rule.patterns| && forall i :: 0 <= i < |r| ==> r[i] == DefinitionOf(rule.id, rule.patterns[i])
  {
    seq(|rule.patterns|, i requires 0 <= i < |rule.patterns| => DefinitionOf(rule.id, rule.patterns[i]))
  }

  function DefinitionsOn(rules: map<Uuid, PolicyRule>, ids: seq<Uuid>, s: Surface): seq<PatternDefinition>
    requires forall i :: i in ids ==> i in rules
  {
    if ids == [] then []
    else
      (if s in rules[ids[0]].surfaces then DefinitionsOf(rules[ids[0]]) else []) + DefinitionsOn(rules, ids[1..], s)
  }

  function SurfaceDefinitions(rules: map<Uuid, PolicyRule>, s: Surface): seq<PatternDefinition> {
    DefinitionsOn(rules, SortedKeys(rules.Keys), s)
  }

  lemma {:induction false} DefinitionsOnElements(rules: map<Uuid, PolicyRule>, ids: seq<Uuid>, s: Surface, d: PatternDefinition)
    requires forall i :: i in ids ==> i in rules && rules[i].id == i
    ensures d in DefinitionsOn(rules, ids, s) <==>
      d.ruleId in ids && s in rules[d.ruleId].surfaces && exists p :: p in rules[d.ruleId].patterns && d == DefinitionOf(d.ruleId, p)
  {
    if ids != [] {
      var rule := rules[ids[0]];
      DefinitionsOnElements(rules, ids[1..], s, d);
      var ds := DefinitionsOf(rule);
      assert d in ds <==> d.ruleId == rule.id && exists p :: p in rule.patterns && d == DefinitionOf(d.ruleId, p) by {
        if d in ds {
          var i :| 0 <= i < |ds| && ds[i] == d;
          assert rule.patterns[i] in rule.patterns;
        }
        if p :| p in rule.patterns && d == DefinitionOf(rule.id, p) {
          var i :| 0 <= i < |rule.patterns| && rule.patterns[i] == p;
          assert ds[i] == d;
        }
      }
    }
  }

  predicate NeedsDetails(rule: PolicyRule) {
    exists i :: 0 <= i < |rule.actions| && (rule.actions[i].actionType == CensorMatch || rule.actions[i].actionType == Log)
  }

  function DetailedRules(rules: map<Uuid, PolicyRule>, s: Surface, all: bool): set<Uuid> {
    set id | id in rules && s in rules[id].surfaces && (all || NeedsDetails(rules[id]))
  }

  function RulesOn(rules: map<Uuid, PolicyRule>, s: Surface): set<Uuid> {
    set id | id in rules && s in rules[id].surfaces
  }

  // ---- What a compiled snapshot is -------------------------------------------------

  ghost predicate RulesOf(policy: ContentPolicy, rules: map<Uuid, PolicyRule>, names: map<string, Uuid>) {
    && (forall r :: r in policy.rules && r.enabled ==> r.id in rules && rules[r.id] == r)
    && (forall id :: id in rules ==> rules[id].id == id && rules[id] in policy.rules && rules[id].enabled)
    && (forall id :: id in rules ==> rules[id].name in names && names[rules[id].name] == id)
    && (forall n :: n in names ==> names[n] in rules && rules[names[n]].name == n)
  }

  ghost predicate SurfaceCompiled(t: Tables, rules: map<Uuid, PolicyRule>, s: Surface, m: SurfaceMatcher, all: bool) {
    BuiltFrom(t, m.matcher, SurfaceDefinitions(rules, s)) && m.detailed == DetailedRules(rules, s, all)
  }

  /** The snapshot is `policy` compiled, with details for every rule when `all` (the diagnostic form). */
  ghost predicate CompiledFrom(t: Tables, policy: ContentPolicy, all: bool, snap: Snapshot) {
    && snap.policyId == policy.id && snap.scope == policy.scope && snap.version == policy.version
    && snap.profileFingerprint == ProfileFingerprint(t, policy)
    && RulesOf(policy, snap.rules, snap.ruleNames)
    && SurfacesCompiled(t, snap.rules, snap.surfaces, all)
  }

  method CollectRules(policy: ContentPolicy) returns (rules: map<Uuid, PolicyRule>, names: map<string, Uuid>)
    requires forall i, j :: 0 <= i < j < |policy.rules| ==>
      policy.rules[i].id != policy.rules[j].id && policy.rules[i].name != policy.rules[j].name
    ensures RulesOf(policy, rules, names)
  {
    rules, names := map[], map[];
    for n := 0 to |policy.rules|
      invariant forall k :: 0 <= k < n && policy.rules[k].enabled ==>
        policy.rules[k].id in rules && rules[policy.rules[k].id] == policy.rules[k]
      invariant forall id :: id in rules ==> rules[id].id == id && rules[id].enabled && rules[id] in policy.rules[..n]
      invariant forall id :: id in rules ==> rules[id].name in names && names[rules[id].name] == id
      invariant forall x :: x in names ==> names[x] in rules && rules[names[x]].name == x
    {
      var rule := policy.rules[n];
      assert policy.rules[..n + 1] == policy.rules[..n] + [rule];
      if rule.enabled {
        assert rule.id !in rules;
        assert rule.name !in names;
        rules := rules[rule.id := rule];
        names := names[rule.name := rule.id];
      }
    }
    assert policy.rules[..|policy.rules|] == policy.rules;
  }

  /** Some pattern on the surface normalizes to nothing. */
  ghost predicate EmptyOn(t: Tables, rules: map<Uuid, PolicyRule>, s: Surface) {
    exists id, p :: id in rules && s in rules[id].surfaces && p in rules[id].patterns && t.normalize(p.pattern) == ""
  }

  lemma EmptyDefinition(t: Tables, rules: map<Uuid, PolicyRule>, s: Surface)
    requires forall id :: id in rules ==> rules[id].id == id
    ensures (exists d :: d in SurfaceDefinitions(rules, s) && t.normalize(d.pattern) == "") <==> EmptyOn(t, rules, s)
  {
    var ids, defs := SortedKeys(rules.Keys), SurfaceDefinitions(rules, s);
    if d :| d in defs && t.normalize(d.pattern) == "" {
      DefinitionsOnElements(rules, ids, s, d);
    }
    if id, p :| id in rules && s in rules[id].surfaces && p in rules[id].patterns && t.normalize(p.pattern) == "" {
      DefinitionsOnElements(rules, ids, s, DefinitionOf(id, p));
    }
  }

  method CompileSurface(t: Tables, rules: map<Uuid, PolicyRule>, s: Surface, all: bool)
    returns (r: Result<SurfaceMatcher, PolicyMatchError>)
    requires forall id :: id in rules ==> rules[id].id == id
    ensures r.Err? <==> EmptyOn(t, rules, s)
    ensures r.Ok? ==> SurfaceCompiled(t, rules, s, r.value, all)
  {
    hide BuiltFrom, EmptyOn;
    EmptyDefinition(t, rules, s);
    var m := Compile(t, SurfaceDefinitions(rules, s));
    if m.Err? {
      return Err(BuildFailed(m.error));
    }
    r := Ok(SurfaceMatcher(m.value, DetailedRules(rules, s, all)));
  }

  ghost predicate SurfacesCompiled(t: Tables, rules: map<Uuid, PolicyRule>, surfaces: map<Surface, SurfaceMatcher>, all: bool) {
    && (forall s :: s in surfaces <==> RulesOn(rules, s) != {})
    && (forall s :: s in surfaces ==> SurfaceCompiled(t, rules, s, surfaces[s], all))
  }

  /** The loop over the six surfaces. */
  method CompileSurfaces(t: Tables, rules: map<Uuid, PolicyRule>, all: bool)
    returns (r: Result<map<Surface, SurfaceMatcher>, PolicyMatchError>)
    requires forall id :: id in rules ==> rules[id].id == id
    ensures r.Err? <==> exists s :: EmptyOn(t, rules, s)
    ensures r.Ok? ==> SurfacesCompiled(t, rules, r.value, all)
  {
    hide SurfaceCompiled, EmptyOn;
    var surfaces := map[];
    for n := 0 to |ALL_SURFACES|
      invariant forall s :: s in surfaces <==> SurfaceCode(s) < n && RulesOn(rules, s) != {}
      invariant forall s :: s in surfaces ==> SurfaceCompiled(t, rules, s, surfaces[s], all)
      invariant forall s :: SurfaceCode(s) < n ==> !EmptyOn(t, rules, s)
    {
      var s := ALL_SURFACES[n];
      CodeAt(n);
      if RulesOn(rules, s) != {} {
        var m := CompileSurface(t, rules, s, all);
        if m.Err? {
          return Err(m.error);
        }
        surfaces := surfaces[s := m.value];
      } else {
        EmptyNeedsRule(t, rules, s);
      }
    }
    assert forall s :: SurfaceCode(s) < 6;
    r := Ok(surfaces);
  }

  lemma EmptyNeedsRule(t: Tables, rules: map<Uuid, PolicyRule>, s: Surface)
    requires RulesOn(rules, s) == {}
    ensures !EmptyOn(t, rules, s)
  {
    assert forall id :: id in rules ==> id !in RulesOn(rules, s);
  }

  /** Rule ids and names tell the rules apart, as validation checks. */
  ghost predicate DistinctRules(policy: ContentPolicy) {
    forall i, j :: 0 <= i < j < |policy.rules| ==>
      policy.rules[i].id != policy.rules[j].id && policy.rules[i].name != policy.rules[j].name
  }

  /** An enabled rule has a pattern that normalizes to nothing, and a surface to match it on. */
  ghost predicate HasEmptyPattern(t: Tables, policy: ContentPolicy) {
    exists r, p, s :: r in policy.rules && r.enabled && p in r.patterns && s in r.surfaces && t.normalize(p.pattern) == ""
  }

  /** It fails exactly on an empty pattern, which validated policies do not have. */
  method CompileWithDetails(t: Tables, policy: ContentPolicy, all: bool) returns (r: Result<Snapshot, PolicyMatchError>)
    requires DistinctRules(policy)
    ensures r.Err? <==> HasEmptyPattern(t, policy)
    ensures r.Ok? ==> CompiledFrom(t, policy, all, r.value)
  {
    hide SurfacesCompiled, RulesOf, ProfileFingerprint, EmptyOn, HasEmptyPattern;
    var rules, names := CollectRules(policy);
    EmptyPatterns(t, policy, rules, names);
    OwnIdsCollected(policy, rules, names);
    var surfaces := CompileSurfaces(t, rules, all);
    if surfaces.Err? {
      return Err(surfaces.error);
    }
    var bytes := HashPolicy(t, policy);
    r := Ok(Snapshot(policy.id, policy.scope, policy.version, bytes, rules, names, surfaces.value));
  }

  lemma OwnIdsCollected(policy: ContentPolicy, rules: map<Uuid, PolicyRule>, names: map<string, Uuid>)
    requires RulesOf(policy, rules, names)
    ensures forall id :: id in rules ==> rules[id].id == id
  {
  }

  lemma EmptyPatterns(t: Tables, policy: ContentPolicy, rules: map<Uuid, PolicyRule>, names: map<string, Uuid>)
    requires RulesOf(policy, rules, names)
    ensures (exists s :: EmptyOn(t, rules, s)) <==> HasEmptyPattern(t, policy)
  {
    if s :| EmptyOn(t, rules, s) {
      var id, p :| id in rules && s in rules[id].surfaces && p in rules[id].patterns && t.normalize(p.pattern) == "";
      assert rules[id] in policy.rules && rules[id].enabled;
    }
    if r, p, s :| r in policy.rules && r.enabled && p in r.patterns && s in r.surfaces && t.normalize(p.pattern) == "" {
      assert r.id in rules && rules[r.id] == r;
      assert EmptyOn(t, rules, s);
    }
  }

  /** A validated policy compiles. */
  lemma ValidCompiles(t: Tables, policy: ContentPolicy)
    requires ValidPolicy(t, policy)
    ensures DistinctRules(policy) && !HasEmptyPattern(t, policy)
  {
    forall r, p | r in policy.rules && r.enabled && p in r.patterns ensures t.normalize(p.pattern) != "" {
      assert ValidRule(t, r);
    }
  }

  lemma CodeAt(n: nat)
    requires n < |ALL_SURFACES|
    ensures forall s :: SurfaceCode(s) == n <==> s == ALL_SURFACES[n]
  {
  }
}
