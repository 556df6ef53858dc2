/**
 * Decisions that do not look at spans depend on which rules trigger. Rules the
 * fingerprint cannot tell apart trigger alike wherever ranges may be excluded
 * - in message content - exactly when they reach alike, and elsewhere exactly
 * when every text that one reaches contains a hit of the other.
 */
module TriggerAgreement {
  import opened Wrappers
  import opened Spans
  import opened PolicyModel
  import opened TextTables
  import opened Fingerprint
  import opened Matcher
  import opened PatternSharing
  import opened Compiler
  import opened Evaluation
  import opened TwoPass
  import opened Remapping
  import opened SecurityAgreement

  type Key = (PatternType, string)

  // ---- What triggers a rule ----------------------------------------------------------------------

  /** Some text the rule reaches occurs in the view, admissibly for its type. */
  ghost predicate Reached(t: Tables, v: View, excluded: seq<ByteSpan>, rule: PolicyRule)
    requires ViewOk(v)
  {
    exists key, i: nat, j: nat :: key in SecurityReach(t, rule) && Admissible(t, v, excluded, key.1, key.0, i, j)
  }

  ghost predicate CanonicalHit(t: Tables, input: SurfaceInput, rule: PolicyRule)
    requires InputOk(input)
  {
    exists p, q :: p in rule.patterns && HitIn(t, input.canonical, [], DefinitionOf(rule.id, p), q)
  }

  ghost predicate SecurityHit(t: Tables, input: SurfaceInput, rule: PolicyRule)
    requires InputOk(input) && input.security.Some?
  {
    exists p, q :: p in rule.patterns && HitIn(t, input.security.value, input.excluded, DefinitionOf(rule.id, p), q)
  }

  lemma TriggersBy(t: Tables, input: SurfaceInput, rule: PolicyRule)
    requires InputOk(input)
    ensures RuleSpans(t, input, rule) != {} <==>
      CanonicalHit(t, input, rule) || (input.security.Some? && SecurityHit(t, input, rule))
  {
    hide RuleSpans, HitIn;
    if RuleSpans(t, input, rule) != {} {
      var q :| q in RuleSpans(t, input, rule);
      SpanIsHit(t, input, rule, q);
      var p :| PatternHit(t, input, rule, p, q);
    }
    if p, q :| p in rule.patterns && HitIn(t, input.canonical, [], DefinitionOf(rule.id, p), q) {
      assert PatternHit(t, input, rule, p, q);
      SpanIsHit(t, input, rule, q);
    }
    if input.security.Some? && SecurityHit(t, input, rule) {
      var p, q :| p in rule.patterns && HitIn(t, input.security.value, input.excluded, DefinitionOf(rule.id, p), q);
      assert PatternHit(t, input, rule, p, q);
      SpanIsHit(t, input, rule, q);
    }
  }

  lemma SecurityHitIsReached(t: Tables, input: SurfaceInput, rule: PolicyRule)
    requires InputOk(input) && input.security.Some?
    ensures SecurityHit(t, input, rule) <==> Reached(t, input.security.value, input.excluded, rule)
  {
    hide Admissible, SecurityText, SecurityReach, SourceSpan;
    var v := input.security.value;
    if SecurityHit(t, input, rule) {
      var p, q :| p in rule.patterns && HitIn(t, v, input.excluded, DefinitionOf(rule.id, p), q);
      var i: nat, j: nat :| Hit(t, v, input.excluded, DefinitionOf(rule.id, p), i, j);
      var key := (p.patternType, SecurityText(t, DefinitionOf(rule.id, p)).value);
      assert Reaches(t, rule, p, key);
      ReachElements(t, rule, key);
    }
    if key, i: nat, j: nat :| key in SecurityReach(t, rule) && Admissible(t, v, input.excluded, key.1, key.0, i, j) {
      ReachElements(t, rule, key);
      var p :| p in rule.patterns && Reaches(t, rule, p, key);
      CoveredHit(t, v, input.excluded, key.1, key.0, p.patternType, i, j);
      assert Hit(t, v, input.excluded, DefinitionOf(rule.id, p), i, j);
      assert HitIn(t, v, input.excluded, DefinitionOf(rule.id, p), SourceSpan(v, i, j));
    }
  }

  /** The canonical view does not tell the rules apart. */
  lemma CanonicalAlike(t: Tables, input: SurfaceInput, a: PolicyRule, b: PolicyRule)
    requires InputOk(input) && BehaviourOf(t, a) == BehaviourOf(t, b) && CanonicalHit(t, input, a)
    ensures CanonicalHit(t, input, b)
  {
    hide TextHit;
    var p, q :| p in a.patterns && HitIn(t, input.canonical, [], DefinitionOf(a.id, p), q);
    assert PatternKey(t, p) in BehaviourOf(t, a).patterns;
    var p' :| p' in b.patterns && PatternKey(t, p') == PatternKey(t, p);
    HitByText(t, input.canonical, [], DefinitionOf(a.id, p), q);
    HitByText(t, input.canonical, [], DefinitionOf(b.id, p'), q);
  }

  // ---- The two conditions --------------------------------------------------------------------------

  /** The rules trigger on the same inputs; `excluding` says whether ranges may be excluded. */
  ghost predicate TriggersAlike(t: Tables, a: PolicyRule, b: PolicyRule, excluding: bool) {
    forall input :: InputOk(input) && (excluding || input.excluded == []) ==>
      (RuleSpans(t, input, a) == {} <==> RuleSpans(t, input, b) == {})
  }

  /** A token letter that no text of the rules contains. */
  ghost predicate FreshLetter(t: Tables, a: PolicyRule, b: PolicyRule, letter: char) {
    && t.isToken(letter) && letter != '_'
    && forall key :: key in SecurityReach(t, a) || key in SecurityReach(t, b) ==> letter !in key.1
  }

  /** Some text that `rule` reaches is hit wherever `key` is: it is hit where `key` stands with a letter on its open sides. */
  ghost predicate Embeds(t: Tables, rule: PolicyRule, key: Key, letter: char) {
    Reached(t, UnitView(Around(key.0, key.1, letter)), [], rule)
  }

  ghost predicate EmbedsAll(t: Tables, a: PolicyRule, b: PolicyRule, letter: char) {
    forall key :: key in SecurityReach(t, a) ==> Embeds(t, b, key, letter)
  }

  function Input(key: Key, letter: char, excluded: seq<ByteSpan>): (r: SurfaceInput)
    ensures InputOk(r)
  {
    SurfaceInput(View("", [], false), Some(UnitView(Around(key.0, key.1, letter))), excluded)
  }

  /** On an empty canonical view a rule triggers exactly when the security view reaches it. */
  lemma InputTriggers(t: Tables, rule: PolicyRule, key: Key, letter: char, excluded: seq<ByteSpan>)
    ensures RuleSpans(t, Input(key, letter, excluded), rule) != {} <==>
      Reached(t, UnitView(Around(key.0, key.1, letter)), excluded, rule)
  {
    hide RuleSpans, Reached, UnitView, Around, SecurityText, SourceSpan;
    var input := Input(key, letter, excluded);
    TriggersBy(t, input, rule);
    SecurityHitIsReached(t, input, rule);
    NoCanonicalHit(t, input, rule);
  }

  lemma NoCanonicalHit(t: Tables, input: SurfaceInput, rule: PolicyRule)
    requires InputOk(input) && input.canonical == View("", [], false)
    ensures !CanonicalHit(t, input, rule)
  {
    hide SourceSpan;
  }

  /** The text itself is admissible in the view around it, unless excluded as a whole. */
  lemma KeyInItsView(t: Tables, key: Key, letter: char, excluded: seq<ByteSpan>)
    requires key.0 != Phrase && key.1 != "" && t.isToken(letter) && letter != '_'
    requires var i := |Before(key.0, letter)|; forall k :: 0 <= k < |excluded| ==> !(excluded[k].start <= i && i + |key.1| <= excluded[k].end)
    ensures var v := UnitView(Around(key.0, key.1, letter)); var i := |Before(key.0, letter)|;
      Admissible(t, v, excluded, key.1, key.0, i, i + |key.1|)
  {
    hide LeftOk, RightOk, Around;
    BoundariesAround(t, key.0, key.1, letter);
    var v, i := UnitView(Around(key.0, key.1, letter)), |Before(key.0, letter)|;
    var j := i + |key.1|;
    forall k | 0 <= k < |excluded| ensures !WithinOriginal(v, i, j, excluded[k]) {
      assert v.source[i] == ByteSpan(i, i + 1) && v.source[j - 1] == ByteSpan(j - 1, j);
    }
  }

  lemma SubSlice(s: string, i: nat, j: nat, p: nat, q: nat)
    requires i <= j <= |s| && p <= q <= j - i
    ensures s[i + p..i + q] == s[i..j][p..q]
  {
    var l, r := s[i + p..i + q], s[i..j][p..q];
    assert forall k :: 0 <= k < |l| ==> l[k] == r[k];
  }

  lemma AroundText(k: PatternType, x: string, letter: char)
    ensures var view, a := Around(k, x, letter), |Before(k, letter)|;
      && a + |x| <= |view| && view[a..a + |x|] == x
      && forall n :: 0 <= n < |view| && !(a <= n < a + |x|) ==> view[n] == letter
  {
  }

  /** Without the letter, an occurrence in the view lies within the text. */
  lemma OccursInside(k: PatternType, x: string, letter: char, y: string, i: nat, j: nat)
    requires i < j && Occurs(Around(k, x, letter), i, j, y) && letter !in y
    ensures |Before(k, letter)| <= i && j <= |Before(k, letter)| + |x|
    ensures y == x[i - |Before(k, letter)|..j - |Before(k, letter)|]
  {
    hide Around, Before;
    AroundText(k, x, letter);
    var view, a := Around(k, x, letter), |Before(k, letter)|;
    assert y[0] == view[i] && y[j - i - 1] == view[j - 1];
    assert y[0] in y && y[j - i - 1] in y;
    SubSlice(view, a, a + |x|, i - a, j - a);
  }

  // ---- With excluded ranges ----------------------------------------------------------------------------

  /** Every proper part of the text is excluded, and the text is not. */
  function Parts(key: Key, letter: char): seq<ByteSpan>
    requires key.1 != ""
  {
    var i := |Before(key.0, letter)|;
    [ByteSpan(i, i + |key.1| - 1), ByteSpan(i + 1, i + |key.1|)]
  }

  lemma PartsExclude(key: Key, letter: char, i: nat, j: nat)
    requires key.1 != "" && var a := |Before(key.0, letter)|; a <= i < j <= a + |key.1| <= |Around(key.0, key.1, letter)|
    requires !IsExcluded(UnitView(Around(key.0, key.1, letter)), i, j, Parts(key, letter))
    ensures i == |Before(key.0, letter)| && j == |Before(key.0, letter)| + |key.1|
  {
    var v, parts, a := UnitView(Around(key.0, key.1, letter)), Parts(key, letter), |Before(key.0, letter)|;
    assert forall n :: i <= n < j ==> v.source[n] == ByteSpan(n, n + 1);
    if i > a {
      assert WithinOriginal(v, i, j, parts[1]);
    }
    if j < a + |key.1| {
      assert WithinOriginal(v, i, j, parts[0]);
    }
  }

  lemma ReachClosed(t: Tables, rule: PolicyRule, k: PatternType, key: Key)
    requires key in SecurityReach(t, rule) && k in Remapping.Covered(key.0)
    ensures (k, key.1) in SecurityReach(t, rule)
  {
    hide SecurityReach, SecurityText;
    ReachElements(t, rule, key);
    var p :| p in rule.patterns && Reaches(t, rule, p, key);
    assert Reaches(t, rule, p, (k, key.1));
    ReachElements(t, rule, (k, key.1));
  }

  lemma AdmissibleParts(t: Tables, v: View, excluded: seq<ByteSpan>, text: string, p: PatternType, i: nat, j: nat)
    requires ViewOk(v) && Admissible(t, v, excluded, text, p, i, j)
    ensures i < j && Occurs(v.text, i, j, text) && MatchesBoundary(t, v, i, j, p) && !IsExcluded(v, i, j, excluded)
  {
  }

  lemma ReachedIsReach(t: Tables, a: PolicyRule, b: PolicyRule, key: Key, letter: char)
    requires key in SecurityReach(t, a) && FreshLetter(t, a, b, letter) && key.0 != Phrase && key.1 != ""
    requires Reached(t, UnitView(Around(key.0, key.1, letter)), Parts(key, letter), b)
    ensures key in SecurityReach(t, b)
  {
    hide SecurityReach, Admissible, IsExcluded, LeftOk, RightOk, UnitView, Around, Parts, Before, Occurs;
    var v, x := UnitView(Around(key.0, key.1, letter)), key.1;
    var other, i: nat, j: nat :| other in SecurityReach(t, b) && Admissible(t, v, Parts(key, letter), other.1, other.0, i, j);
    AdmissibleParts(t, v, Parts(key, letter), other.1, other.0, i, j);
    OccursInside(key.0, x, letter, other.1, i, j);
    BoundariesAround(t, key.0, x, letter);
    PartsExclude(key, letter, i, j);
    assert other.1 == x by { assert x[0..|x|] == x; }
    ReachesText(t, b, other);
    ReachClosed(t, b, key.0, other);
  }

  lemma PartsAreProper(key: Key, letter: char)
    requires key.1 != ""
    ensures var i := |Before(key.0, letter)|; var parts := Parts(key, letter);
      forall k :: 0 <= k < |parts| ==> !(parts[k].start <= i && i + |key.1| <= parts[k].end)
  {
  }

  /** A rule is reached in the view around a text of its own. */
  lemma OwnKeyReached(t: Tables, rule: PolicyRule, key: Key, letter: char, excluded: seq<ByteSpan>)
    requires key in SecurityReach(t, rule) && t.isToken(letter) && letter != '_'
    requires var i := |Before(key.0, letter)|; forall k :: 0 <= k < |excluded| ==> !(excluded[k].start <= i && i + |key.1| <= excluded[k].end)
    ensures Reached(t, UnitView(Around(key.0, key.1, letter)), excluded, rule)
  {
    hide SecurityReach, Admissible, Around, Before;
    ReachesText(t, rule, key);
    KeyInItsView(t, key, letter, excluded);
  }

  lemma TriggerReach(t: Tables, a: PolicyRule, b: PolicyRule, key: Key, letter: char)
    requires TriggersAlike(t, a, b, true) && FreshLetter(t, a, b, letter) && key in SecurityReach(t, a)
    ensures key in SecurityReach(t, b)
  {
    hide SecurityReach, RuleSpans, Reached, Admissible, Around, Parts, Before;
    ReachesText(t, a, key);
    PartsAreProper(key, letter);
    OwnKeyReached(t, a, key, letter, Parts(key, letter));
    InputTriggers(t, a, key, letter, Parts(key, letter));
    InputTriggers(t, b, key, letter, Parts(key, letter));
    ReachedIsReach(t, a, b, key, letter);
  }

  /**
   * Where ranges may be excluded, rules with one fingerprint behaviour trigger
   * on the same inputs if and only if they reach alike.
   */
  lemma TriggersAlikeIff(t: Tables, a: PolicyRule, b: PolicyRule, letter: char)
    requires BehaviourOf(t, a) == BehaviourOf(t, b) && FreshLetter(t, a, b, letter)
    ensures TriggersAlike(t, a, b, true) <==> SecurityReach(t, a) == SecurityReach(t, b)
  {
    hide RuleSpans, SecurityReach, BehaviourOf;
    if SecurityReach(t, a) == SecurityReach(t, b) {
      forall input | InputOk(input) ensures RuleSpans(t, input, a) == RuleSpans(t, input, b) {
        SameSpansOn(t, input, a, b);
      }
    }
    if TriggersAlike(t, a, b, true) {
      AlikeBack(t, a, b, true);
      forall key ensures key in SecurityReach(t, a) <==> key in SecurityReach(t, b) {
        if key in SecurityReach(t, a) { TriggerReach(t, a, b, key, letter); }
        if key in SecurityReach(t, b) { TriggerReach(t, b, a, key, letter); }
      }
    }
  }

  lemma AlikeBack(t: Tables, a: PolicyRule, b: PolicyRule, excluding: bool)
    requires TriggersAlike(t, a, b, excluding)
    ensures TriggersAlike(t, b, a, excluding)
  {
    hide RuleSpans;
  }

  // ---- Without excluded ranges -------------------------------------------------------------------------

  /** A hit inside the view around a text is a hit wherever the text is admissible. */
  lemma EmbeddedHit(t: Tables, key: Key, other: Key, letter: char, v: View, i: nat, j: nat, m: nat, n: nat)
    requires ViewOk(v) && v.security && key.0 != Phrase && key.1 != "" && t.isToken(letter) && letter != '_' && letter !in other.1
    requires Admissible(t, UnitView(Around(key.0, key.1, letter)), [], other.1, other.0, m, n)
    requires Admissible(t, v, [], key.1, key.0, i, j)
    ensures var a := |Before(key.0, letter)|; a <= m < n <= a + |key.1| && Admissible(t, v, [], other.1, other.0, i + m - a, i + n - a)
  {
    hide UnitView, Around, Before, LeftOk, RightOk;
    var x, a, w := key.1, |Before(key.0, letter)|, UnitView(Around(key.0, key.1, letter));
    OccursInside(key.0, x, letter, other.1, m, n);
    BoundariesAround(t, key.0, x, letter);
    var from, to := i + m - a, i + n - a;
    SubSlice(v.text, i, j, m - a, n - a);
    LeftMoves(t, w, v, a, i, x, m - a);
    RightMoves(t, w, v, a, i, x, n - a);
  }

  lemma LeftMoves(t: Tables, w: View, v: View, a: nat, i: nat, x: string, p: nat)
    requires w.security && v.security && a + |x| <= |w.text| && i + |x| <= |v.text| && p <= |x|
    requires w.text[a..a + |x|] == x && v.text[i..i + |x|] == x
    ensures p > 0 ==> LeftOk(t, w, a + p) == LeftOk(t, v, i + p)
  {
    if p > 0 {
      assert w.text[a + p - 1] == x[p - 1] && v.text[i + p - 1] == x[p - 1];
    }
  }

  lemma RightMoves(t: Tables, w: View, v: View, a: nat, i: nat, x: string, p: nat)
    requires w.security && v.security && a + |x| <= |w.text| && i + |x| <= |v.text| && p <= |x|
    requires w.text[a..a + |x|] == x && v.text[i..i + |x|] == x
    ensures p < |x| ==> RightOk(t, w, a + p) == RightOk(t, v, i + p)
  {
    if p < |x| {
      assert w.text[a + p] == x[p] && v.text[i + p] == x[p];
    }
  }

  lemma EmbeddedReached(t: Tables, a: PolicyRule, b: PolicyRule, letter: char, v: View)
    requires ViewOk(v) && v.security && FreshLetter(t, a, b, letter) && EmbedsAll(t, a, b, letter) && Reached(t, v, [], a)
    ensures Reached(t, v, [], b)
  {
    hide SecurityReach, Admissible, UnitView, Around, Before;
    var key, i: nat, j: nat :| key in SecurityReach(t, a) && Admissible(t, v, [], key.1, key.0, i, j);
    ReachesText(t, a, key);
    var w := UnitView(Around(key.0, key.1, letter));
    assert Embeds(t, b, key, letter);
    var other, m: nat, n: nat :| other in SecurityReach(t, b) && Admissible(t, w, [], other.1, other.0, m, n);
    EmbeddedHit(t, key, other, letter, v, i, j, m, n);
  }

  lemma EmbeddedTriggers(t: Tables, a: PolicyRule, b: PolicyRule, letter: char, input: SurfaceInput)
    requires BehaviourOf(t, a) == BehaviourOf(t, b) && FreshLetter(t, a, b, letter) && EmbedsAll(t, a, b, letter)
    requires InputOk(input) && input.excluded == [] && RuleSpans(t, input, a) != {}
    ensures RuleSpans(t, input, b) != {}
  {
    hide RuleSpans, SecurityReach, BehaviourOf, Reached, CanonicalHit, SecurityHit, EmbedsAll, FreshLetter;
    TriggersBy(t, input, a);
    TriggersBy(t, input, b);
    if CanonicalHit(t, input, a) {
      CanonicalAlike(t, input, a, b);
    } else {
      SecurityHitIsReached(t, input, a);
      SecurityHitIsReached(t, input, b);
      EmbeddedReached(t, a, b, letter, input.security.value);
    }
  }

  lemma TriggerEmbeds(t: Tables, a: PolicyRule, b: PolicyRule, letter: char)
    requires TriggersAlike(t, a, b, false) && FreshLetter(t, a, b, letter)
    ensures EmbedsAll(t, a, b, letter)
  {
    hide SecurityReach, RuleSpans, Reached, UnitView, Around;
    forall key | key in SecurityReach(t, a) ensures Embeds(t, b, key, letter) {
      OwnKeyReached(t, a, key, letter, []);
      InputTriggers(t, a, key, letter, []);
      InputTriggers(t, b, key, letter, []);
    }
  }

  /**
   * Where nothing is excluded, they trigger on the same inputs if and only if
   * every text that one reaches contains a hit of the other.
   */
  lemma TriggersAlikePlainIff(t: Tables, a: PolicyRule, b: PolicyRule, letter: char)
    requires BehaviourOf(t, a) == BehaviourOf(t, b) && FreshLetter(t, a, b, letter)
    ensures TriggersAlike(t, a, b, false) <==> EmbedsAll(t, a, b, letter) && EmbedsAll(t, b, a, letter)
  {
    hide RuleSpans, SecurityReach, BehaviourOf, EmbedsAll, FreshLetter;
    FreshBack(t, a, b, letter);
    if TriggersAlike(t, a, b, false) {
      AlikeBack(t, a, b, false);
      TriggerEmbeds(t, a, b, letter);
      TriggerEmbeds(t, b, a, letter);
    }
    if EmbedsAll(t, a, b, letter) && EmbedsAll(t, b, a, letter) {
      forall input | InputOk(input) && input.excluded == [] ensures RuleSpans(t, input, a) == {} <==> RuleSpans(t, input, b) == {} {
        if RuleSpans(t, input, a) != {} { EmbeddedTriggers(t, a, b, letter, input); }
        if RuleSpans(t, input, b) != {} { EmbeddedTriggers(t, b, a, letter, input); }
      }
    }
  }

  lemma FreshBack(t: Tables, a: PolicyRule, b: PolicyRule, letter: char)
    requires FreshLetter(t, a, b, letter)
    ensures FreshLetter(t, b, a, letter)
  {
    hide SecurityReach;
  }
}
