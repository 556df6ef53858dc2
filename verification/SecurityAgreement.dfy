/**
 * What the fingerprint leaves open: rules it cannot tell apart are hit at the
 * same spans on every pair of views exactly when, for each security text, the
 * types of their patterns cover the same types.
 */
module SecurityAgreement {
  import opened Wrappers
  import opened Spans
  import opened PolicyModel
  import opened TextTables
  import opened Fingerprint
  import opened FingerprintTheorem
  import opened Matcher
  import opened PatternSharing
  import opened Compiler
  import opened Evaluation
  import opened TwoPass
  import opened Remapping

  // ---- A security view around one text ----------------------------------------------------------

  /** Every scalar has its own byte. */
  function UnitView(text: string): (v: View)
    ensures ViewOk(v) && v.text == text && v.security
  {
    View(text, seq(|text|, i requires 0 <= i < |text| => ByteSpan(i, i + 1)), true)
  }

  lemma {:induction false} UnitHull(s: seq<ByteSpan>, from: nat)
    requires s != [] && forall k :: 0 <= k < |s| ==> s[k] == ByteSpan(from + k, from + k + 1)
    ensures Hull(s) == ByteSpan(from, from + |s|)
  {
    if |s| > 1 {
      UnitHull(s[..|s| - 1], from);
    }
  }

  lemma UnitSpan(text: string, i: nat, j: nat)
    requires i < j <= |text|
    ensures SourceSpan(UnitView(text), i, j) == ByteSpan(i, j)
  {
    UnitHull(UnitView(text).source[i..j], i);
  }

  function Before(k: PatternType, letter: char): string { if k == Suffix || k == Contains then [letter] else "" }

  function After(k: PatternType, letter: char): string { if k == Prefix || k == Contains then [letter] else "" }

  /** The text `x`, with a letter on the sides at which type `k` asks for no boundary. */
  function Around(k: PatternType, x: string, letter: char): string { Before(k, letter) + x + After(k, letter) }

  lemma BoundariesAround(t: Tables, k: PatternType, x: string, letter: char)
    requires x != "" && t.isToken(letter) && letter != '_'
    ensures var v := UnitView(Around(k, x, letter)); var i := |Before(k, letter)|; var j := i + |x|;
      && j <= |v.text| && v.text[i..j] == x
      && (LeftOk(t, v, i) <==> k != Suffix && k != Contains) && (RightOk(t, v, j) <==> k != Prefix && k != Contains)
  {
    var v := UnitView(Around(k, x, letter));
    var i := |Before(k, letter)|;
    assert i > 0 ==> v.text[i - 1] == letter;
    assert i + |x| < |v.text| ==> v.text[i + |x|] == letter;
  }

  function InputAround(k: PatternType, x: string, letter: char): (r: SurfaceInput)
    ensures InputOk(r)
  {
    SurfaceInput(View("", [], false), Some(UnitView(Around(k, x, letter))), [])
  }

  /** On the view around `x`, a pattern hits `x` exactly when its text is `x` and its type covers `k`. */
  lemma HitAround(t: Tables, rule: PolicyRule, p: RulePattern, k: PatternType, x: string, letter: char)
    requires k != Phrase && x != "" && t.isToken(letter) && letter != '_' && p in rule.patterns
    ensures var i := |Before(k, letter)|;
      PatternHit(t, InputAround(k, x, letter), rule, p, ByteSpan(i, i + |x|)) <==> Reaches(t, rule, p, (k, x))
  {
    hide SourceSpan, SecurityText, Around, LeftOk, RightOk, UnitView;
    var input, d := InputAround(k, x, letter), DefinitionOf(rule.id, p);
    var v, a := input.security.value, |Before(k, letter)|;
    var q := ByteSpan(a, a + |x|);
    BoundariesAround(t, k, x, letter);
    UnitSpan(Around(k, x, letter), a, a + |x|);
    NeverAPhrase(t, d);
    forall i: nat, j: nat ensures !Hit(t, input.canonical, [], d, i, j) {
    }
    if PatternHit(t, input, rule, p, q) {
      assert HitIn(t, v, [], d, q);
      var i: nat, j: nat :| Hit(t, v, [], d, i, j) && q == SourceSpan(v, i, j);
      UnitSpan(Around(k, x, letter), i, j);
    }
    if Reaches(t, rule, p, (k, x)) {
      assert Hit(t, v, [], d, a, a + |x|);
    }
  }

  lemma NeverAPhrase(t: Tables, d: PatternDefinition)
    ensures SecurityText(t, d).Some? ==> d.patternType != Phrase && SecurityText(t, d).value != ""
  {
  }

  lemma SpanAround(t: Tables, rule: PolicyRule, k: PatternType, x: string, letter: char)
    requires k != Phrase && x != "" && t.isToken(letter) && letter != '_'
    ensures var i := |Before(k, letter)|;
      ByteSpan(i, i + |x|) in RuleSpans(t, InputAround(k, x, letter), rule) <==> (k, x) in SecurityReach(t, rule)
  {
    hide PatternHit, Reaches, InputAround, RuleSpans, SecurityReach;
    var input, i := InputAround(k, x, letter), |Before(k, letter)|;
    var q := ByteSpan(i, i + |x|);
    SpanIsHit(t, input, rule, q);
    ReachElements(t, rule, (k, x));
    forall p | p in rule.patterns ensures PatternHit(t, input, rule, p, q) <==> Reaches(t, rule, p, (k, x)) {
      HitAround(t, rule, p, k, x, letter);
    }
    forall p | PatternHit(t, input, rule, p, q) ensures p in rule.patterns {
      HitsOwn(t, input, rule, p, q);
    }
  }

  lemma HitsOwn(t: Tables, input: SurfaceInput, rule: PolicyRule, p: RulePattern, q: ByteSpan)
    requires InputOk(input) && PatternHit(t, input, rule, p, q)
    ensures p in rule.patterns
  {
  }

  // ---- The exact condition --------------------------------------------------------------------------

  ghost predicate HitAlike(t: Tables, a: PolicyRule, b: PolicyRule) {
    forall input :: InputOk(input) ==> RuleSpans(t, input, a) == RuleSpans(t, input, b)
  }

  lemma ReachesText(t: Tables, rule: PolicyRule, key: (PatternType, string))
    requires key in SecurityReach(t, rule)
    ensures key.0 != Phrase && key.1 != ""
  {
    ReachElements(t, rule, key);
    var p :| p in rule.patterns && Reaches(t, rule, p, key);
    NeverAPhrase(t, DefinitionOf(rule.id, p));
  }

  lemma AlikeReach(t: Tables, a: PolicyRule, b: PolicyRule, letter: char, key: (PatternType, string))
    requires HitAlike(t, a, b) && t.isToken(letter) && letter != '_' && key in SecurityReach(t, a)
    ensures key in SecurityReach(t, b)
  {
    hide RuleSpans, SecurityReach, InputAround;
    ReachesText(t, a, key);
    SpanAround(t, a, key.0, key.1, letter);
    SpanAround(t, b, key.0, key.1, letter);
  }

  /**
   * Rules with one fingerprint behaviour are hit at the same spans on every
   * input if and only if they reach the same texts and types in the security
   * view. Some letter, which the boundaries look for, is assumed to exist.
   */
  lemma HitAlikeIff(t: Tables, a: PolicyRule, b: PolicyRule, letter: char)
    requires BehaviourOf(t, a) == BehaviourOf(t, b) && t.isToken(letter) && letter != '_'
    ensures HitAlike(t, a, b) <==> SecurityReach(t, a) == SecurityReach(t, b)
  {
    hide RuleSpans, SecurityReach, BehaviourOf;
    if SecurityReach(t, a) == SecurityReach(t, b) {
      forall input | InputOk(input) ensures RuleSpans(t, input, a) == RuleSpans(t, input, b) {
        SameSpansOn(t, input, a, b);
      }
    }
    if HitAlike(t, a, b) {
      forall key ensures key in SecurityReach(t, a) <==> key in SecurityReach(t, b) {
        if key in SecurityReach(t, a) { AlikeReach(t, a, b, letter, key); }
        if key in SecurityReach(t, b) { AlikeReach(t, b, a, letter, key); }
      }
    }
  }

  /**
   * The hypothesis of the grouped fan-out is exact: two policies agree on
   * security if and only if every two enabled rules of theirs that the
   * fingerprint identifies are hit at the same spans on every input.
   */
  lemma AgreeOnSecurityIff(t: Tables, p: ContentPolicy, q: ContentPolicy, letter: char)
    requires t.isToken(letter) && letter != '_'
    ensures AgreeOnSecurity(t, p, q) <==>
      forall a, b :: a in p.rules && b in q.rules && a.enabled && b.enabled && BehaviourOf(t, a) == BehaviourOf(t, b) ==> HitAlike(t, a, b)
  {
    hide HitAlike, SecurityReach, BehaviourOf;
    forall a, b | a in p.rules && b in q.rules && a.enabled && b.enabled && BehaviourOf(t, a) == BehaviourOf(t, b)
      ensures HitAlike(t, a, b) <==> SecurityReach(t, a) == SecurityReach(t, b)
    {
      HitAlikeIff(t, a, b, letter);
    }
  }
}
