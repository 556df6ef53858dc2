/**
 * `CompiledMatcher::compile`, `merge_reports` and the whole match: a rule
 * triggers exactly when one of its definitions occurs admissibly in the
 * canonical view, or is eligible and occurs admissibly in the security view.
 */
module PatternSharing {
  import opened Wrappers
  import opened Spans
  import opened Sorting
  import opened PolicyModel
  import opened TextTables
  import opened Matcher

  // ---- Compilation ---------------------------------------------------------------

  function StripPrefix(s: string): Option<string> {
    if s != "" && s[0] == '*' then Some(s[1..]) else None
  }

  function StripSuffix(s: string): Option<string> {
    if s != "" && s[|s| - 1] == '*' then Some(s[..|s| - 1]) else None
  }

  /** The authored text without the wildcards of its type. */
  function AuthoredLiteral(d: PatternDefinition): string {
    match d.patternType
    case Prefix => (match StripSuffix(d.pattern) case Some(s) => s case None => d.pattern)
    case Suffix => (match StripPrefix(d.pattern) case Some(s) => s case None => d.pattern)
    case Contains =>
      (match StripPrefix(d.pattern)
       case None => d.pattern
       case Some(s) => (match StripSuffix(s) case Some(r) => r case None => d.pattern))
    case ExactWord => d.pattern
    case Phrase => d.pattern
  }

  /** The text a definition contributes to the security view, if any. */
  function SecurityText(t: Tables, d: PatternDefinition): Option<string> {
    if d.patternType == Phrase || !t.securityEligible(AuthoredLiteral(d)) then None
    else
      var text := t.securityNormalize(AuthoredLiteral(d));
      if text == "" then None else Some(text)
  }

  predicate DefinitionLeq(a: PatternDefinition, b: PatternDefinition) {
    || a.ruleId < b.ruleId
    || (a.ruleId == b.ruleId && (a.patternId < b.patternId
        || (a.patternId == b.patternId && PatternTypeCode(a.patternType) <= PatternTypeCode(b.patternType))))
  }

  lemma DefinitionOrder()
    ensures TotalPreorder(DefinitionLeq)
  {
  }

  ghost predicate HasTarget(patterns: seq<CompiledPattern>, text: string, p: PatternType, target: Target) {
    exists k :: 0 <= k < |patterns| && patterns[k].text == text && patterns[k].patternType == p && target in patterns[k].targets
  }

  /** `indexes` finds the one compiled pattern of every key. */
  ghost predicate Keyed(patterns: seq<CompiledPattern>, indexes: map<(string, PatternType), nat>) {
    && (forall key :: key in indexes ==> indexes[key] < |patterns|)
    && (forall key :: key in indexes ==>
          patterns[indexes[key]].text == key.0 && patterns[indexes[key]].patternType == key.1)
    && (forall k :: 0 <= k < |patterns| ==>
          (patterns[k].text, patterns[k].patternType) in indexes
          && indexes[(patterns[k].text, patterns[k].patternType)] == k)
  }

  method InsertPattern(
    patterns: seq<CompiledPattern>, indexes: map<(string, PatternType), nat>,
    text: string, patternType: PatternType, target: Target)
    returns (ps: seq<CompiledPattern>, ix: map<(string, PatternType), nat>)
    requires Keyed(patterns, indexes)
    ensures Keyed(ps, ix)
    ensures forall x, p, g :: HasTarget(ps, x, p, g) <==>
      HasTarget(patterns, x, p, g) || (x == text && p == patternType && g == target)
  {
    ps, ix := patterns, indexes;
    var key := (text, patternType);
    if key in ix {
      var k := ix[key];
      ps := ps[k := ps[k].(targets := ps[k].targets + [target])];
      TargetAdded(patterns, ps, k, target);
    } else {
      ix := ix[key := |ps|];
      ps := ps + [CompiledPattern(text, patternType, [target])];
      PatternAdded(patterns, ps[|patterns|], target);
    }
  }

  lemma TargetAdded(before: seq<CompiledPattern>, after: seq<CompiledPattern>, k: nat, target: Target)
    requires k < |before| && after == before[k := before[k].(targets := before[k].targets + [target])]
    ensures forall x, p, g :: HasTarget(after, x, p, g) <==>
      HasTarget(before, x, p, g) || (x == before[k].text && p == before[k].patternType && g == target)
  {
    forall x, p, g ensures HasTarget(after, x, p, g) <==>
      HasTarget(before, x, p, g) || (x == before[k].text && p == before[k].patternType && g == target)
    {
      if i: nat :| i < |before| && before[i].text == x && before[i].patternType == p && g in before[i].targets {
        assert g in after[i].targets;
      }
      if i: nat :| i < |after| && after[i].text == x && after[i].patternType == p && g in after[i].targets {
        assert i != k ==> after[i] == before[i];
      }
      assert target in after[k].targets;
    }
  }

  lemma PatternAdded(before: seq<CompiledPattern>, added: CompiledPattern, target: Target)
    requires added.targets == [target]
    ensures forall x, p, g :: HasTarget(before + [added], x, p, g) <==>
      HasTarget(before, x, p, g) || (x == added.text && p == added.patternType && g == target)
  {
    var after := before + [added];
    assert after[|before|] == added;
    assert forall i :: 0 <= i < |before| ==> after[i] == before[i];
  }

  ghost predicate Defines(t: Tables, defs: seq<PatternDefinition>, text: string, p: PatternType, g: Target) {
    exists d :: d in defs && t.normalize(d.pattern) == text && d.patternType == p && Target(d.ruleId, d.patternId) == g
  }

  ghost predicate DefinesSecurity(t: Tables, defs: seq<PatternDefinition>, text: string, p: PatternType, g: Target) {
    exists d :: d in defs && SecurityText(t, d) == Some(text) && d.patternType == p && Target(d.ruleId, d.patternId) == g
  }

  function SecurityPatterns(m: CompiledMatcher): seq<CompiledPattern> {
    if m.security.Some? then m.security.value else []
  }

  /** Sharing loses no target and invents none. */
  ghost predicate BuiltFrom(t: Tables, m: CompiledMatcher, defs: seq<PatternDefinition>) {
    && (forall x, p, g :: HasTarget(m.canonical, x, p, g) <==> Defines(t, defs, x, p, g))
    && (forall x, p, g :: HasTarget(SecurityPatterns(m), x, p, g) <==> DefinesSecurity(t, defs, x, p, g))
  }

  /** What one definition contributes to the canonical and to the security view. */
  ghost predicate Contributes(t: Tables, d: PatternDefinition, text: string, p: PatternType, g: Target) {
    t.normalize(d.pattern) == text && d.patternType == p && Target(d.ruleId, d.patternId) == g
  }

  ghost predicate ContributesSecurity(t: Tables, d: PatternDefinition, text: string, p: PatternType, g: Target) {
    SecurityText(t, d) == Some(text) && d.patternType == p && Target(d.ruleId, d.patternId) == g
  }

  lemma DefinesAppend(t: Tables, defs: seq<PatternDefinition>, n: nat, x: string, p: PatternType, g: Target)
    requires n < |defs|
    ensures Defines(t, defs[..n + 1], x, p, g) <==> Defines(t, defs[..n], x, p, g) || Contributes(t, defs[n], x, p, g)
    ensures DefinesSecurity(t, defs[..n + 1], x, p, g) <==>
      (DefinesSecurity(t, defs[..n], x, p, g) || ContributesSecurity(t, defs[n], x, p, g))
  {
    hide SecurityText;
    assert defs[..n + 1] == defs[..n] + [defs[n]];
    assert defs[n] in defs[..n + 1];
    assert forall d :: d in defs[..n] ==> d in defs[..n + 1];
  }

  lemma DefinesElements(t: Tables, a: seq<PatternDefinition>, b: seq<PatternDefinition>)
    requires forall d :: d in a <==> d in b
    ensures forall x, p, g :: Defines(t, a, x, p, g) <==> Defines(t, b, x, p, g)
    ensures forall x, p, g :: DefinesSecurity(t, a, x, p, g) <==> DefinesSecurity(t, b, x, p, g)
  {
  }

  lemma NothingDefined(t: Tables, defs: seq<PatternDefinition>)
    requires defs == []
    ensures forall x, p, g :: !Defines(t, defs, x, p, g) && !DefinesSecurity(t, defs, x, p, g)
    ensures forall x, p, g :: !HasTarget([], x, p, g)
  {
  }

  /** The two pattern tables under construction. */
  datatype Builder = Builder(
    canonical: seq<CompiledPattern>, canonicalIndexes: map<(string, PatternType), nat>,
    security: seq<CompiledPattern>, securityIndexes: map<(string, PatternType), nat>)

  ghost predicate BuilderOk(b: Builder) {
    Keyed(b.canonical, b.canonicalIndexes) && Keyed(b.security, b.securityIndexes)
  }

  ghost predicate Built(t: Tables, b: Builder, defs: seq<PatternDefinition>) {
    && (forall x, p, g :: HasTarget(b.canonical, x, p, g) <==> Defines(t, defs, x, p, g))
    && (forall x, p, g :: HasTarget(b.security, x, p, g) <==> DefinesSecurity(t, defs, x, p, g))
  }

  /** The body of the compile loop for a definition whose normal form is not empty. */
  method InsertDefinition(t: Tables, b: Builder, d: PatternDefinition) returns (r: Builder)
    requires BuilderOk(b)
    ensures BuilderOk(r)
    ensures forall x, p, g :: HasTarget(r.canonical, x, p, g) <==>
      HasTarget(b.canonical, x, p, g) || Contributes(t, d, x, p, g)
    ensures forall x, p, g :: HasTarget(r.security, x, p, g) <==>
      HasTarget(b.security, x, p, g) || ContributesSecurity(t, d, x, p, g)
  {
    hide HasTarget, Keyed, AuthoredLiteral;
    var target := Target(d.ruleId, d.patternId);
    var canonical, canonicalIndexes :=
      InsertPattern(b.canonical, b.canonicalIndexes, t.normalize(d.pattern), d.patternType, target);
    r := b.(canonical := canonical, canonicalIndexes := canonicalIndexes);
    if d.patternType != Phrase {
      var literal := AuthoredLiteral(d);
      if t.securityEligible(literal) {
        var securityText := t.securityNormalize(literal);
        if securityText != "" {
          var security, securityIndexes :=
            InsertPattern(b.security, b.securityIndexes, securityText, d.patternType, target);
          r := r.(security := security, securityIndexes := securityIndexes);
        }
      }
    }
  }

  lemma BuiltStep(t: Tables, b: Builder, r: Builder, defs: seq<PatternDefinition>, n: nat)
    requires n < |defs| && Built(t, b, defs[..n])
    requires forall x, p, g :: HasTarget(r.canonical, x, p, g) <==>
      HasTarget(b.canonical, x, p, g) || Contributes(t, defs[n], x, p, g)
    requires forall x, p, g :: HasTarget(r.security, x, p, g) <==>
      HasTarget(b.security, x, p, g) || ContributesSecurity(t, defs[n], x, p, g)
    ensures Built(t, r, defs[..n + 1])
  {
    hide HasTarget, Contributes, ContributesSecurity, Defines, DefinesSecurity;
    forall x, p, g ensures HasTarget(r.canonical, x, p, g) <==> Defines(t, defs[..n + 1], x, p, g) {
      DefinesAppend(t, defs, n, x, p, g);
    }
    forall x, p, g ensures HasTarget(r.security, x, p, g) <==> DefinesSecurity(t, defs[..n + 1], x, p, g) {
      DefinesAppend(t, defs, n, x, p, g);
    }
  }

  method Compile(t: Tables, definitions: seq<PatternDefinition>) returns (r: Result<CompiledMatcher, BuildError>)
    ensures r.Err? <==> exists d :: d in definitions && t.normalize(d.pattern) == ""
    ensures r.Ok? ==> BuiltFrom(t, r.value, definitions)
  {
    DefinitionOrder();
    SortCorrect(definitions, DefinitionLeq);
    hide HasTarget, Keyed, Defines, DefinesSecurity, Contributes, ContributesSecurity, TotalPreorder, Sorted;
    var defs := Sort(definitions, DefinitionLeq);
    var b := Builder([], map[], [], map[]);
    NothingDefined(t, defs[..0]);
    NothingKeyed();
    for n := 0 to |defs|
      invariant BuilderOk(b) && Built(t, b, defs[..n])
      invariant forall k :: 0 <= k < n ==> t.normalize(defs[k].pattern) != ""
    {
      var d := defs[n];
      if t.normalize(d.pattern) == "" {
        assert d in definitions;
        return Err(EmptyPattern(d.ruleId, d.patternId));
      }
      ghost var before := b;
      b := InsertDefinition(t, b, d);
      BuiltStep(t, before, b, defs, n);
    }
    assert defs[..|defs|] == defs;
    DefinesElements(t, defs, definitions);
    forall d | d in definitions ensures t.normalize(d.pattern) != "" {
      assert d in defs;
    }
    r := Ok(CompiledMatcher(b.canonical, if b.security == [] then None else Some(b.security)));
  }

  lemma NothingKeyed()
    ensures Keyed([], map[])
  {
  }

  // ---- Merging the two views -----------------------------------------------------------

  /** Two matches that a merge treats as one. */
  predicate SameMatch(a: PatternMatch, b: PatternMatch) {
    a.patternId == b.patternId && a.patternType == b.patternType && a.original == b.original
  }

  ghost predicate Shows(items: seq<PatternMatch>, id: Uuid, p: PatternType, s: ByteSpan) {
    exists m :: m in items && m.patternId == id && m.patternType == p && m.original == s
  }

  /** Rule `rule` reports pattern `id` of type `p` at source span `s`. */
  ghost predicate Evidence(report: Report, rule: Uuid, id: Uuid, p: PatternType, s: ByteSpan) {
    exists k :: 0 <= k < |report| && report[k].ruleId == rule && Shows(report[k].matches, id, p, s)
  }

  ghost predicate Covered(x: PatternMatch, items: seq<PatternMatch>) {
    exists y :: y in items && SameMatch(x, y)
  }

  /** The inner loop of `merge_reports`: push what no earlier match covers. */
  method ExtendMatches(existing: seq<PatternMatch>, items: seq<PatternMatch>) returns (r: seq<PatternMatch>)
    ensures forall x :: x in existing ==> x in r
    ensures forall x :: x in r ==> x in existing || x in items
    ensures forall x :: x in items ==> Covered(x, r)
  {
    r := existing;
    for n := 0 to |items|
      invariant forall x :: x in existing ==> x in r
      invariant forall x :: x in r ==> x in existing || x in items
      invariant forall k :: 0 <= k < n ==> Covered(items[k], r)
    {
      if !exists k :: 0 <= k < |r| && SameMatch(r[k], items[n]) {
        CoveredMore(r, items[n]);
        r := r + [items[n]];
      } else {
        var k :| 0 <= k < |r| && SameMatch(r[k], items[n]);
        assert r[k] in r && SameMatch(items[n], r[k]);
      }
    }
  }

  lemma CoveredMore(r: seq<PatternMatch>, item: PatternMatch)
    ensures forall x :: Covered(x, r) ==> Covered(x, r + [item])
    ensures Covered(item, r + [item])
  {
    var all := r + [item];
    forall x | Covered(x, r) ensures Covered(x, all) {
      var y :| y in r && SameMatch(x, y);
      assert y in all;
    }
    assert all[|r|] == item && item in all && SameMatch(item, item);
  }


  lemma ExtendShows(existing: seq<PatternMatch>, items: seq<PatternMatch>, r: seq<PatternMatch>, id: Uuid, p: PatternType, s: ByteSpan)
    requires forall x :: x in existing ==> x in r
    requires forall x :: x in r ==> x in existing || x in items
    requires forall x :: x in items ==> Covered(x, r)
    ensures Shows(r, id, p, s) <==> Shows(existing, id, p, s) || Shows(items, id, p, s)
  {
    if x :| x in items && x.patternId == id && x.patternType == p && x.original == s {
      var y :| y in r && SameMatch(x, y);
    }
  }

  method IndexReport(report: Report) returns (ix: map<Uuid, nat>)
    requires UniqueRules(report)
    ensures Indexed(report, ix)
  {
    ix := map[];
    for n := 0 to |report|
      invariant Indexed(report[..n], ix)
    {
      assert report[..n + 1] == report[..n] + [report[n]];
      assert report[n].ruleId !in ix;
      ix := ix[report[n].ruleId := n];
    }
    assert report[..|report|] == report;
  }

  /** One trigger of the secondary report. */
  method MergeTrigger(report: Report, indexes: map<Uuid, nat>, trigger: RuleTrigger, details: bool)
    returns (r: Report, ix: map<Uuid, nat>)
    requires Indexed(report, indexes) && (!details ==> trigger.matches == [])
    ensures Indexed(r, ix)
    ensures forall x :: Triggers(r, x) <==> Triggers(report, x) || x == trigger.ruleId
    ensures forall x, id, p, s :: Evidence(r, x, id, p, s) <==>
      Evidence(report, x, id, p, s) || (x == trigger.ruleId && Shows(trigger.matches, id, p, s))
  {
    r, ix := report, indexes;
    if trigger.ruleId !in ix {
      ix := ix[trigger.ruleId := |r|];
      r := r + [RuleTrigger(trigger.ruleId, [])];
      EntryAdded(report, trigger.ruleId);
    }
    assert Triggers(r, trigger.ruleId) by {
      assert r[ix[trigger.ruleId]].ruleId == trigger.ruleId;
    }
    if details {
      var k := ix[trigger.ruleId];
      var before := r;
      var matches := ExtendMatches(r[k].matches, trigger.matches);
      r := r[k := RuleTrigger(trigger.ruleId, matches)];
      EntryExtended(before, r, k, trigger.matches);
    }
  }

  lemma EntryAdded(report: Report, rule: Uuid)
    requires forall k :: 0 <= k < |report| ==> report[k].ruleId != rule
    ensures forall x :: Triggers(report + [RuleTrigger(rule, [])], x) <==> Triggers(report, x) || x == rule
    ensures forall x, id, p, s :: Evidence(report + [RuleTrigger(rule, [])], x, id, p, s) <==> Evidence(report, x, id, p, s)
  {
    var r := report + [RuleTrigger(rule, [])];
    assert r[|report|].ruleId == rule;
    assert forall k :: 0 <= k < |report| ==> r[k] == report[k];
  }

  lemma EntryExtended(before: Report, after: Report, k: nat, items: seq<PatternMatch>)
    requires k < |before| && |after| == |before| && after[k].ruleId == before[k].ruleId
    requires forall i :: 0 <= i < |before| && i != k ==> after[i] == before[i]
    requires forall x :: x in before[k].matches ==> x in after[k].matches
    requires forall x :: x in after[k].matches ==> x in before[k].matches || x in items
    requires forall x :: x in items ==> Covered(x, after[k].matches)
    ensures forall x :: Triggers(after, x) <==> Triggers(before, x)
    ensures forall x, id, p, s :: Evidence(after, x, id, p, s) <==>
      Evidence(before, x, id, p, s) || (x == before[k].ruleId && Shows(items, id, p, s))
  {
    assert forall i :: 0 <= i < |before| ==> after[i].ruleId == before[i].ruleId;
    forall x, id, p, s ensures Evidence(after, x, id, p, s) <==>
      Evidence(before, x, id, p, s) || (x == before[k].ruleId && Shows(items, id, p, s))
    {
      ExtendShows(before[k].matches, items, after[k].matches, id, p, s);
      hide Shows, Covered;
    }
  }

  /** `merge_reports`: the union of the two reports, one entry a rule. */
  method MergeReports(primary: Report, secondary: Report, details: bool) returns (r: Report)
    requires UniqueRules(primary)
    requires !details ==> forall k :: 0 <= k < |secondary| ==> secondary[k].matches == []
    ensures UniqueRules(r)
    ensures forall x :: Triggers(r, x) <==> Triggers(primary, x) || Triggers(secondary, x)
    ensures forall x, id, p, s :: Evidence(r, x, id, p, s) <==>
      Evidence(primary, x, id, p, s) || Evidence(secondary, x, id, p, s)
  {
    r := primary;
    var ix := IndexReport(primary);
    hide Triggers, UniqueRules, Evidence, Indexed, Shows;
    NoEvidence(secondary[..0]);
    for n := 0 to |secondary|
      invariant Indexed(r, ix)
      invariant forall x :: Triggers(r, x) <==> Triggers(primary, x) || Triggers(secondary[..n], x)
      invariant forall x, id, p, s :: Evidence(r, x, id, p, s) <==>
        Evidence(primary, x, id, p, s) || Evidence(secondary[..n], x, id, p, s)
    {
      r, ix := MergeTrigger(r, ix, secondary[n], details);
      EvidenceAppend(secondary, n);
    }
    assert secondary[..|secondary|] == secondary;
    IndexedUnique(r, ix);
  }

  lemma NoEvidence(report: Report)
    requires report == []
    ensures forall x :: !Triggers(report, x)
    ensures forall x, id, p, s :: !Evidence(report, x, id, p, s)
  {
  }

  lemma EvidenceAppend(report: Report, n: nat)
    requires n < |report|
    ensures forall x :: Triggers(report[..n + 1], x) <==> Triggers(report[..n], x) || x == report[n].ruleId
    ensures forall x, id, p, s :: Evidence(report[..n + 1], x, id, p, s) <==>
      Evidence(report[..n], x, id, p, s) || (x == report[n].ruleId && Shows(report[n].matches, id, p, s))
  {
    hide Shows;
    var a, b := report[..n], report[..n + 1];
    assert b == a + [report[n]];
    forall x ensures Triggers(b, x) <==> Triggers(a, x) || x == report[n].ruleId {
      assert b[n].ruleId == report[n].ruleId;
      assert Triggers(a, x) ==> exists k :: 0 <= k < n && b[k].ruleId == x by {
        if k: nat :| k < |a| && a[k].ruleId == x {
          assert b[k] == a[k];
        }
      }
    }
    forall x, id, p, s ensures Evidence(b, x, id, p, s) <==>
      Evidence(a, x, id, p, s) || (x == report[n].ruleId && Shows(report[n].matches, id, p, s))
    {
      assert b[n] == report[n];
      if k: nat :| k < |a| && a[k].ruleId == x && Shows(a[k].matches, id, p, s) {
        assert b[k] == a[k];
      }
      if k: nat :| k < |b| && b[k].ruleId == x && Shows(b[k].matches, id, p, s) {
        assert k < n ==> a[k] == b[k];
      }
    }
  }

  // ---- The whole match -------------------------------------------------------------------

  /** What one text contributes: the views of a surface and the ranges excluded from the security view. */
  datatype SurfaceInput = SurfaceInput(canonical: View, security: Option<View>, excluded: seq<ByteSpan>)

  ghost predicate InputOk(input: SurfaceInput) {
    && ViewOk(input.canonical) && !input.canonical.security
    && (input.security.Some? ==> ViewOk(input.security.value) && input.security.value.security)
  }

  /** The text of definition `d` in a view: its normal form, or its security text if it is eligible. */
  function TextIn(t: Tables, d: PatternDefinition, security: bool): Option<string> {
    if security then SecurityText(t, d) else Some(t.normalize(d.pattern))
  }

  function PatternsOf(m: CompiledMatcher, security: bool): seq<CompiledPattern> {
    if security then SecurityPatterns(m) else m.canonical
  }

  /** Definition `d` occurs admissibly at [i, j) of the view. */
  ghost predicate Hit(t: Tables, v: View, excluded: seq<ByteSpan>, d: PatternDefinition, i: nat, j: nat)
    requires ViewOk(v)
  {
    var text := TextIn(t, d, v.security);
    text.Some? && Admissible(t, v, excluded, text.value, d.patternType, i, j)
  }

  /** Definition `d` occurs in the view at source span `s`. */
  ghost predicate HitIn(t: Tables, v: View, excluded: seq<ByteSpan>, d: PatternDefinition, s: ByteSpan)
    requires ViewOk(v)
  {
    exists i: nat, j: nat :: Hit(t, v, excluded, d, i, j) && s == SourceSpan(v, i, j)
  }

  /** Definition `d` occurs at `s` in the canonical view, or is eligible and occurs in the security view outside the excluded ranges. */
  ghost predicate HitAt(t: Tables, input: SurfaceInput, d: PatternDefinition, s: ByteSpan)
    requires InputOk(input)
  {
    || HitIn(t, input.canonical, [], d, s)
    || (input.security.Some? && HitIn(t, input.security.value, input.excluded, d, s))
  }

  /** `e` reports a hit of `d`. */
  ghost predicate HitEvent(t: Tables, v: View, excluded: seq<ByteSpan>, d: PatternDefinition, e: Event)
    requires ViewOk(v)
  {
    && e.ruleId == d.ruleId && e.item.patternId == d.patternId && e.item.patternType == d.patternType
    && Hit(t, v, excluded, d, e.item.start, e.item.end)
    && e.item.original == SourceSpan(v, e.item.start, e.item.end)
  }

  /** The targets of a view's patterns are the definitions with a text in that view. */
  lemma TargetsAreDefinitions(t: Tables, m: CompiledMatcher, defs: seq<PatternDefinition>, security: bool, x: string, p: PatternType, g: Target)
    requires BuiltFrom(t, m, defs)
    ensures HasTarget(PatternsOf(m, security), x, p, g) <==>
      exists d :: d in defs && TextIn(t, d, security) == Some(x) && d.patternType == p && Target(d.ruleId, d.patternId) == g
  {
    hide SecurityText, HasTarget;
    if security {
      assert HasTarget(SecurityPatterns(m), x, p, g) <==> DefinesSecurity(t, defs, x, p, g);
    } else {
      assert HasTarget(m.canonical, x, p, g) <==> Defines(t, defs, x, p, g);
    }
  }

  /** The events of a view are the hits of the definitions. */
  lemma EventsAreHits(t: Tables, m: CompiledMatcher, defs: seq<PatternDefinition>, v: View, excluded: seq<ByteSpan>, e: Event)
    requires ViewOk(v) && BuiltFrom(t, m, defs)
    ensures ViewEvent(t, v, excluded, PatternsOf(m, v.security), e) <==>
      exists d :: d in defs && HitEvent(t, v, excluded, d, e)
  {
    hide Admissible, SourceSpan, TextIn, BuiltFrom, PatternsOf;
    var ps, g := PatternsOf(m, v.security), Target(e.ruleId, e.item.patternId);
    if k: nat :| k < |ps| && PatternEvent(t, v, excluded, ps[k], e) {
      TargetsAreDefinitions(t, m, defs, v.security, ps[k].text, ps[k].patternType, g);
      assert HasTarget(ps, ps[k].text, ps[k].patternType, g);
    }
    if d :| d in defs && HitEvent(t, v, excluded, d, e) {
      var text := TextIn(t, d, v.security).value;
      TargetsAreDefinitions(t, m, defs, v.security, text, d.patternType, g);
      var k :| 0 <= k < |ps| && ps[k].text == text && ps[k].patternType == d.patternType && g in ps[k].targets;
      assert PatternEvent(t, v, excluded, ps[k], e);
    }
  }

  /** What a complete report of one view says. */
  ghost predicate ReportsView(t: Tables, v: View, excluded: seq<ByteSpan>, patterns: seq<CompiledPattern>, details: bool, report: Report)
    requires ViewOk(v)
  {
    && (forall x :: Triggers(report, x) <==> exists e: Event :: e.ruleId == x && ViewEvent(t, v, excluded, patterns, e))
    && (forall e :: Records(report, e) <==> details && ViewEvent(t, v, excluded, patterns, e))
  }

  lemma EvidenceRecords(report: Report, rule: Uuid, id: Uuid, p: PatternType, s: ByteSpan)
    ensures Evidence(report, rule, id, p, s) <==>
      exists i: nat, j: nat :: Records(report, Event(rule, PatternMatch(id, p, i, j, s)))
  {
    if k: nat :| k < |report| && report[k].ruleId == rule && Shows(report[k].matches, id, p, s) {
      var m :| m in report[k].matches && m.patternId == id && m.patternType == p && m.original == s;
      assert m == PatternMatch(id, p, m.start, m.end, s);
      assert Records(report, Event(rule, PatternMatch(id, p, m.start, m.end, s)));
    }
    if i: nat, j: nat :| Records(report, Event(rule, PatternMatch(id, p, i, j, s))) {
      var e := Event(rule, PatternMatch(id, p, i, j, s));
      var k :| 0 <= k < |report| && report[k].ruleId == e.ruleId && e.item in report[k].matches;
      assert Shows(report[k].matches, id, p, s);
    }
  }

  ghost predicate ViewTriggers(t: Tables, v: View, excluded: seq<ByteSpan>, defs: seq<PatternDefinition>, rule: Uuid)
    requires ViewOk(v)
  {
    exists d, s :: d in defs && d.ruleId == rule && HitIn(t, v, excluded, d, s)
  }

  ghost predicate ViewShows(t: Tables, v: View, excluded: seq<ByteSpan>, defs: seq<PatternDefinition>,
                            rule: Uuid, id: Uuid, p: PatternType, s: ByteSpan)
    requires ViewOk(v)
  {
    exists d :: d in defs && d.ruleId == rule && d.patternId == id && d.patternType == p && HitIn(t, v, excluded, d, s)
  }

  lemma ViewReportTriggers(t: Tables, m: CompiledMatcher, defs: seq<PatternDefinition>, v: View, excluded: seq<ByteSpan>,
                           details: bool, report: Report, rule: Uuid)
    requires ViewOk(v) && BuiltFrom(t, m, defs)
    requires ReportsView(t, v, excluded, PatternsOf(m, v.security), details, report)
    ensures Triggers(report, rule) <==> ViewTriggers(t, v, excluded, defs, rule)
  {
    hide Triggers, Records, ViewEvent, Hit, BuiltFrom, SourceSpan, PatternsOf;
    var ps := PatternsOf(m, v.security);
    if d, q :| d in defs && d.ruleId == rule && HitIn(t, v, excluded, d, q) {
      var i: nat, j: nat :| Hit(t, v, excluded, d, i, j) && q == SourceSpan(v, i, j);
      var e := Event(rule, PatternMatch(d.patternId, d.patternType, i, j, q));
      assert HitEvent(t, v, excluded, d, e);
      EventsAreHits(t, m, defs, v, excluded, e);
    }
    if Triggers(report, rule) {
      var e: Event :| e.ruleId == rule && ViewEvent(t, v, excluded, ps, e);
      EventsAreHits(t, m, defs, v, excluded, e);
      var d :| d in defs && HitEvent(t, v, excluded, d, e);
      assert HitIn(t, v, excluded, d, e.item.original);
    }
  }

  lemma ViewReportShows(t: Tables, m: CompiledMatcher, defs: seq<PatternDefinition>, v: View, excluded: seq<ByteSpan>,
                        details: bool, report: Report, rule: Uuid, id: Uuid, p: PatternType, s: ByteSpan)
    requires ViewOk(v) && BuiltFrom(t, m, defs)
    requires ReportsView(t, v, excluded, PatternsOf(m, v.security), details, report)
    ensures Evidence(report, rule, id, p, s) <==> details && ViewShows(t, v, excluded, defs, rule, id, p, s)
  {
    hide Triggers, Records, ViewEvent, Hit, BuiltFrom, SourceSpan, PatternsOf, Evidence;
    EvidenceRecords(report, rule, id, p, s);
    if details {
      if d :| d in defs && d.ruleId == rule && d.patternId == id && d.patternType == p && HitIn(t, v, excluded, d, s) {
        var i: nat, j: nat :| Hit(t, v, excluded, d, i, j) && s == SourceSpan(v, i, j);
        var e := Event(rule, PatternMatch(id, p, i, j, s));
        assert HitEvent(t, v, excluded, d, e);
        EventsAreHits(t, m, defs, v, excluded, e);
        assert Records(report, e);
      }
      if i: nat, j: nat :| Records(report, Event(rule, PatternMatch(id, p, i, j, s))) {
        var e := Event(rule, PatternMatch(id, p, i, j, s));
        EventsAreHits(t, m, defs, v, excluded, e);
        var d :| d in defs && HitEvent(t, v, excluded, d, e);
        assert HitIn(t, v, excluded, d, s);
      }
    }
  }

  /** A complete report of one view, in terms of definitions. */
  ghost predicate ReportsHits(t: Tables, v: View, excluded: seq<ByteSpan>, defs: seq<PatternDefinition>, details: bool, report: Report)
    requires ViewOk(v)
  {
    && (forall rule :: Triggers(report, rule) <==> ViewTriggers(t, v, excluded, defs, rule))
    && (forall rule, id, p, s :: Evidence(report, rule, id, p, s) <==> details && ViewShows(t, v, excluded, defs, rule, id, p, s))
  }

  lemma ViewReport(t: Tables, m: CompiledMatcher, defs: seq<PatternDefinition>, v: View, excluded: seq<ByteSpan>,
                   details: bool, report: Report)
    requires ViewOk(v) && BuiltFrom(t, m, defs)
    requires ReportsView(t, v, excluded, PatternsOf(m, v.security), details, report)
    ensures ReportsHits(t, v, excluded, defs, details, report)
  {
    hide ReportsView, BuiltFrom, Triggers, Evidence, ViewTriggers, ViewShows;
    forall rule ensures Triggers(report, rule) <==> ViewTriggers(t, v, excluded, defs, rule) {
      ViewReportTriggers(t, m, defs, v, excluded, details, report, rule);
    }
    forall rule, id, p, s
      ensures Evidence(report, rule, id, p, s) <==> details && ViewShows(t, v, excluded, defs, rule, id, p, s)
    {
      ViewReportShows(t, m, defs, v, excluded, details, report, rule, id, p, s);
    }
  }

  /** Some definition of the rule is hit. */
  ghost predicate RuleTriggers(t: Tables, input: SurfaceInput, defs: seq<PatternDefinition>, rule: Uuid)
    requires InputOk(input)
  {
    exists d, s :: d in defs && d.ruleId == rule && HitAt(t, input, d, s)
  }

  ghost predicate RuleShows(t: Tables, input: SurfaceInput, defs: seq<PatternDefinition>,
                            rule: Uuid, id: Uuid, p: PatternType, s: ByteSpan)
    requires InputOk(input)
  {
    exists d :: d in defs && d.ruleId == rule && d.patternId == id && d.patternType == p && HitAt(t, input, d, s)
  }

  lemma SplitViews(t: Tables, input: SurfaceInput, defs: seq<PatternDefinition>, rule: Uuid, id: Uuid, p: PatternType, s: ByteSpan)
    requires InputOk(input)
    ensures RuleTriggers(t, input, defs, rule) <==>
      ViewTriggers(t, input.canonical, [], defs, rule)
      || (input.security.Some? && ViewTriggers(t, input.security.value, input.excluded, defs, rule))
    ensures RuleShows(t, input, defs, rule, id, p, s) <==>
      ViewShows(t, input.canonical, [], defs, rule, id, p, s)
      || (input.security.Some? && ViewShows(t, input.security.value, input.excluded, defs, rule, id, p, s))
  {
    hide HitIn;
    if d, q :| d in defs && d.ruleId == rule && HitIn(t, input.canonical, [], d, q) {
      assert HitAt(t, input, d, q);
    }
    if input.security.Some? {
      if d, q :| d in defs && d.ruleId == rule && HitIn(t, input.security.value, input.excluded, d, q) {
        assert HitAt(t, input, d, q);
      }
    }
  }

  /** Without security patterns the security view has nothing to report. */
  lemma NoSecurityPatterns(t: Tables, m: CompiledMatcher, v: View, excluded: seq<ByteSpan>, details: bool)
    requires ViewOk(v) && v.security && m.security.None?
    ensures ReportsView(t, v, excluded, PatternsOf(m, v.security), details, [])
  {
  }

  lemma FirstRecorded(report: Report, k: nat)
    requires k < |report| && report[k].matches != []
    ensures exists e :: Records(report, e)
  {
    assert Records(report, Event(report[k].ruleId, report[k].matches[0]));
  }

  lemma NoRecordsNoMatches(report: Report)
    requires forall e :: !Records(report, e)
    ensures forall k :: 0 <= k < |report| ==> report[k].matches == []
  {
    hide Records;
    forall k | 0 <= k < |report| ensures report[k].matches == [] {
      if report[k].matches != [] {
        FirstRecorded(report, k);
      }
    }
  }

  /** `match_security_normalized`. */
  method MatchSecurity(t: Tables, m: CompiledMatcher, ghost defs: seq<PatternDefinition>, v: View, excluded: seq<ByteSpan>, details: bool)
    returns (r: Report)
    requires ViewOk(v) && v.security && BuiltFrom(t, m, defs)
    ensures ReportsHits(t, v, excluded, defs, details, r) && (m.security.None? ==> r == [])
    ensures !details ==> forall k :: 0 <= k < |r| ==> r[k].matches == []
  {
    hide BuiltFrom, ReportsHits, Triggers, Records, ViewEvent;
    if m.security.None? {
      r := [];
      NoSecurityPatterns(t, m, v, excluded, details);
    } else {
      r := MatchView(t, v, excluded, m.security.value, details);
      if !details {
        NoRecordsNoMatches(r);
      }
    }
    ViewReport(t, m, defs, v, excluded, details, r);
  }

  /** `match_normalized_with_security`: rules trigger exactly on hits; details are exactly the hits. */
  method MatchNormalizedWithSecurity(t: Tables, m: CompiledMatcher, ghost defs: seq<PatternDefinition>,
                                     input: SurfaceInput, details: bool) returns (r: Report)
    requires InputOk(input) && BuiltFrom(t, m, defs)
    ensures UniqueRules(r)
    ensures forall rule :: Triggers(r, rule) <==> RuleTriggers(t, input, defs, rule)
    ensures forall rule, id, p, s :: Evidence(r, rule, id, p, s) <==> details && RuleShows(t, input, defs, rule, id, p, s)
  {
    hide BuiltFrom, Triggers, Records, Evidence, UniqueRules, ViewEvent, RuleTriggers, RuleShows, ViewTriggers, ViewShows;
    r := MatchView(t, input.canonical, [], m.canonical, details);
    ViewReport(t, m, defs, input.canonical, [], details, r);
    if input.security.Some? {
      var second := MatchSecurity(t, m, defs, input.security.value, input.excluded, details);
      if m.security.Some? {
        r := MergeReports(r, second, details);
      } else {
        NoEvidence(second);
      }
    }
    forall rule ensures RuleTriggers(t, input, defs, rule) <==>
      ViewTriggers(t, input.canonical, [], defs, rule)
      || (input.security.Some? && ViewTriggers(t, input.security.value, input.excluded, defs, rule))
    {
      SplitViews(t, input, defs, rule, 0, ExactWord, ByteSpan(0, 0));
    }
    forall rule, id, p, s ensures RuleShows(t, input, defs, rule, id, p, s) <==>
      ViewShows(t, input.canonical, [], defs, rule, id, p, s)
      || (input.security.Some? && ViewShows(t, input.security.value, input.excluded, defs, rule, id, p, s))
    {
      SplitViews(t, input, defs, rule, id, p, s);
    }
  }
}
