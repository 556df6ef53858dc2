/**
 * Two servers' policies that the fingerprint cannot tell apart, and a message
 * that only one of them blocks: grouped, the representative decides for both.
 */
module FanOutWitness {
  import opened Wrappers
  import opened Sorting
  import opened Spans
  import Utf8Text
  import opened PolicyModel
  import opened TextTables
  import opened ByteEncoding
  import opened Fingerprint
  import opened FingerprintTheorem
  import opened Matcher
  import opened PatternSharing
  import opened Resolver
  import opened Layers
  import opened Compiler
  import opened Evaluation
  import opened TwoPass
  import opened Delivery
  import opened Remapping
  import opened Engine
  import Censoring
  import opened Fitting
  import CanonicalOrder
  import CanonicalCompose
  import opened NormalizedViews
  import opened SecurityView
  import opened MaskedLinks
  import opened AsciiText
  import PatternSyntax
  import Validation

  type Text = CanonicalOrder.Text

  function At(c: char, i: nat): CanonicalOrder.Mapped { CanonicalOrder.Mapped(c, ByteSpan(i, i + 1)) }

  // ---- The two spellings and the message ---------------------------------------------------------

  const WORD := "test"
  const SPELLED := "test!"
  const MESSAGE := "te-st"

  const WORD_CHARS: Text := [At('t', 0), At('e', 1), At('s', 2), At('t', 3)]

  lemma AsciiOffset(s: string, i: nat)
    requires i <= |s| && forall k :: 0 <= k < |s| ==> s[k] < '\U{80}'
    ensures Utf8Text.Offset(s, i) == i
  {
    if i > 0 {
      AsciiOffset(s, i - 1);
      Utf8Text.OffsetStep(s, i - 1);
    }
  }

  lemma AsciiChars(s: string)
    requires forall k :: 0 <= k < |s| ==> s[k] < '\U{80}'
    ensures |SourceChars(s)| == |s| && forall i :: 0 <= i < |s| ==> SourceChars(s)[i] == At(s[i], i)
  {
    forall i | 0 <= i < |s| ensures SourceChars(s)[i] == At(s[i], i) {
      AsciiOffset(s, i);
      AsciiOffset(s, i + 1);
    }
  }

  lemma WordNormal()
    ensures SourceChars(WORD) == WORD_CHARS && CanonicalText(WORD) == WORD_CHARS && TABLES.normalize(WORD) == WORD
  {
    hide Spaced, CanonicalCompose.Decomposed, SourceChars, SecurityScalars, Eligible;
    AsciiChars(WORD);
    assert SourceChars(WORD) == WORD_CHARS;
    FoldFixed(WORD_CHARS);
    AllKept(WORD_CHARS);
    assert CanonicalOrder.Scalars(WORD_CHARS) == WORD;
  }

  /** The authored exclamation mark is gone from the normal form. */
  lemma SpelledNormal()
    ensures TABLES.normalize(SPELLED) == WORD
  {
    hide Spaced, Pending, CanonicalCompose.Decomposed, SourceChars, SecurityScalars, Eligible;
    AsciiChars(SPELLED);
    var s := WORD_CHARS + [At('!', 4)];
    assert SourceChars(SPELLED) == s;
    FoldFixed(s);
    AllKept(WORD_CHARS);
    SeparatorWaits(WORD_CHARS, At('!', 4));
    assert CanonicalOrder.Scalars(WORD_CHARS) == WORD;
  }

  lemma WordSecurity()
    ensures TABLES.securityEligible(WORD) && TABLES.securityNormalize(WORD) == WORD
  {
    hide Visible, Filtered, Spaced, CanonicalCompose.Decomposed, SourceChars;
    WordNormal();
    NoMaskedLinks(WORD_CHARS);
    FoldFixed(WORD_CHARS);
    NothingIgnored(WORD_CHARS);
    NothingIgnorable(WORD_CHARS);
    NoSeparators(WORD_CHARS);
    assert CanonicalOrder.Scalars(WORD_CHARS) == WORD;
  }

  lemma NoSeparators(s: Text)
    requires forall i :: 0 <= i < |s| ==> AsciiLetter(s[i].scalar)
    ensures Filtered(s, Separators(SECURITY_TESTS)) == s
  {
    hide NextOf, PreviousOf;
    NothingDropped(s, Separators(SECURITY_TESTS), |s|);
    assert s[..|s|] == s;
  }

  /** But it keeps the pattern out of the security view. */
  lemma SpelledIneligible()
    ensures !TABLES.securityEligible(SPELLED)
  {
    hide CanonicalText, SecurityScalars;
    assert SPELLED[4] == '!';
  }

  const MESSAGE_CHARS: Text := [At('t', 0), At('e', 1), At('-', 2), At('s', 3), At('t', 4)]
  const CANONICAL_CHARS: Text := [At('t', 0), At('e', 1), At(' ', 2), At('s', 3), At('t', 4)]
  const SECURITY_CHARS: Text := [At('t', 0), At('e', 1), At('s', 3), At('t', 4)]

  lemma MessageChars()
    ensures SourceChars(MESSAGE) == MESSAGE_CHARS
  {
    AsciiChars(MESSAGE);
  }

  lemma MessageCanonical()
    ensures CanonicalText(MESSAGE) == CANONICAL_CHARS
  {
    MessageChars();
    FoldFixed(MESSAGE_CHARS);
    var te := [At('t', 0), At('e', 1)];
    AllKept(te);
    SeparatorWaits(te, At('-', 2));
    KeptAfter(te + [At('-', 2)], At('s', 3));
    KeptAfter(te + [At('-', 2)] + [At('s', 3)], At('t', 4));
    assert MESSAGE_CHARS == te + [At('-', 2)] + [At('s', 3)] + [At('t', 4)];
  }

  lemma MessageSecurity()
    ensures SecurityScalars(MESSAGE) == SECURITY_CHARS
  {
    MessageChars();
    NoMaskedLinks(MESSAGE_CHARS);
    FoldFixed(MESSAGE_CHARS);
    NothingIgnored(MESSAGE_CHARS);
    NothingIgnorable(MESSAGE_CHARS);
    HyphenGoes();
  }

  lemma HyphenGoes()
    ensures Filtered(MESSAGE_CHARS, Separators(SECURITY_TESTS)) == SECURITY_CHARS
  {
    var m, f := MESSAGE_CHARS, Separators(SECURITY_TESTS);
    SeparatorRunAllOrNothing(SECURITY_TESTS, m, 2, 3);
    assert Drops(m, f, 2) && !Drops(m, f, 0) && !Drops(m, f, 1) && !Drops(m, f, 3) && !Drops(m, f, 4);
    hide Drops;
    assert Remaining(m, f, 0) == [];
    assert Remaining(m, f, 1) == [At('t', 0)];
    assert Remaining(m, f, 2) == [At('t', 0), At('e', 1)];
    assert Remaining(m, f, 3) == [At('t', 0), At('e', 1)];
    assert Remaining(m, f, 4) == [At('t', 0), At('e', 1), At('s', 3)];
    assert Remaining(m, f, 5) == SECURITY_CHARS;
  }

  function Sources(s: Text): (r: seq<ByteSpan>)
    ensures |r| == |s| && forall i :: 0 <= i < |r| ==> r[i] == s[i].source
  {
    seq(|s|, i requires 0 <= i < |s| => s[i].source)
  }

  const CANONICAL_VIEW := View("te st", Sources(CANONICAL_CHARS), false)
  const SECURITY_VIEW := View("test", Sources(SECURITY_CHARS), true)

  const ANALYZED := Analyzed(map[MessageContent := CANONICAL_VIEW], map[MessageContent := SECURITY_VIEW], [])

  /** The view shows these scalars with these sources. */
  ghost predicate Shows(v: View, s: Text) { v.text == CanonicalOrder.Scalars(s) && v.source == Sources(s) }

  /** The analyzed message is what the two pipelines make of "te-st". */
  lemma MessageIsAnalyzed()
    ensures IsCanonicalView(MESSAGE, CANONICAL_CHARS) && Shows(CANONICAL_VIEW, CANONICAL_CHARS)
    ensures IsSecurityView(MESSAGE, SECURITY_CHARS) && Shows(SECURITY_VIEW, SECURITY_CHARS)
    ensures AnalyzedOk(ANALYZED)
  {
    hide CanonicalText, SecurityScalars, IsCanonicalView, IsSecurityView;
    ViewsAreComputed(MESSAGE);
    MessageCanonical();
    MessageSecurity();
  }

  /** All that the failure needs of the text functions: the two spellings, and their eligibility. */
  ghost predicate Spells(t: Tables) {
    && t.normalize(WORD) == WORD && t.normalize(SPELLED) == WORD
    && t.securityEligible(WORD) && t.securityNormalize(WORD) == WORD && !t.securityEligible(SPELLED)
  }

  lemma AsciiSpells()
    ensures Spells(TABLES)
  {
    hide CanonicalText, SecurityScalars, Eligible;
    WordNormal();
    SpelledNormal();
    WordSecurity();
    SpelledIneligible();
  }

  // ---- The two policies ---------------------------------------------------------------------------------

  function RuleOf(id: Uuid, pattern: string): PolicyRule {
    PolicyRule(id, "word", "", true, None, "owner", [RulePattern(id, pattern, ExactWord)], {MessageContent},
               [PolicyAction(id, Block, None, None)])
  }

  function PolicyOf(id: Uuid, server: string, pattern: string): ContentPolicy {
    ContentPolicy(id, PolicyScope(Server, server), true, 1, [RuleOf(id, pattern)])
  }

  const PLAIN := PolicyOf(1, "a", WORD)
  const SHOUTED := PolicyOf(2, "b", SPELLED)

  lemma SmallByte(n: nat)
    requires n < 256
    ensures Small(n)
  {
    assert Pow256(1) == 256 * Pow256(0);
    assert Pow256(7) >= 256;
  }

  lemma WordBytes()
    ensures Utf8("word") == [0x77, 0x6F, 0x72, 0x64] && Utf8("test") == [0x74, 0x65, 0x73, 0x74] && Utf8("") == []
  {
    assert "word"[1..] == "ord" && "ord"[1..] == "rd" && "rd"[1..] == "d" && "d"[1..] == "";
    assert "test"[1..] == "est" && "est"[1..] == "st" && "st"[1..] == "t" && "t"[1..] == "";
    assert Utf8("d") == [0x64] && Utf8("rd") == [0x72, 0x64] && Utf8("ord") == [0x6F, 0x72, 0x64];
    assert Utf8("t") == [0x74] && Utf8("st") == [0x73, 0x74] && Utf8("est") == [0x65, 0x73, 0x74];
  }

  lemma RuleValid(t: Tables, id: Uuid, pattern: string)
    requires t.normalize(pattern) == WORD
    ensures ValidRule(t, RuleOf(id, pattern))
  {
    hide Small, Utf8;
    WordBytes();
    SmallByte(0);
    SmallByte(4);
    var r := RuleOf(id, pattern);
    assert MapSeq(KeyOf(t), r.patterns) == [(ExactWord, WORD)];
    assert ValidAction(r.actions[0]);
    assert ValidPattern(t, r.patterns[0]);
  }

  lemma PolicyValid(t: Tables, id: Uuid, server: string, pattern: string)
    requires t.normalize(pattern) == WORD
    ensures ValidPolicy(t, PolicyOf(id, server, pattern))
  {
    hide ValidRule;
    RuleValid(t, id, pattern);
  }

  // ---- Validation accepts them ----------------------------------------------------------------------------

  function Texts(t: Tables): Validation.ValidationText {
    Validation.ValidationText(t.normalize, (c: char) => IsSpace(c), (s: string) => s)
  }

  lemma NoSyntax()
    ensures !PatternSyntax.UnsupportedSyntaxIn(WORD) && !PatternSyntax.UnsupportedSyntaxIn(SPELLED)
    ensures PatternSyntax.Count(WORD, '"') == 0 && PatternSyntax.Count(SPELLED, '"') == 0
    ensures PatternSyntax.Count(WORD, '*') == 0 && PatternSyntax.Count(SPELLED, '*') == 0
  {
    assert WORD[1..] == "est" && "est"[1..] == "st" && "st"[1..] == "t" && "t"[1..] == "";
    assert SPELLED[1..] == "est!" && "est!"[1..] == "st!" && "st!"[1..] == "t!" && "t!"[1..] == "!" && "!"[1..] == "";
    forall c | c == '"' || c == '*' ensures PatternSyntax.Count(WORD, c) == 0 && PatternSyntax.Count(SPELLED, c) == 0 {
      assert PatternSyntax.Count("", c) == 0;
      assert PatternSyntax.Count("st", c) == 0 && PatternSyntax.Count("t!", c) == 0;
      assert PatternSyntax.Count("st!", c) == 0;
    }
  }

  /** Both spellings parse as the exact word. */
  lemma SpellingsParse(t: Tables)
    requires Spells(t)
    ensures var v := Texts(t); var word := Ok(PatternSyntax.ParsedPattern(WORD, ExactWord));
      PatternSyntax.ParsePattern(v.normalize, v.whitespace, WORD) == word && PatternSyntax.ParsePattern(v.normalize, v.whitespace, SPELLED) == word
  {
    hide PatternSyntax.UnsupportedSyntaxIn, PatternSyntax.Count;
    NoSyntax();
    var w := Texts(t).whitespace;
    assert PatternSyntax.TrimStart(w, WORD) == WORD && PatternSyntax.TrimEnd(w, WORD) == WORD;
    assert PatternSyntax.TrimStart(w, SPELLED) == SPELLED && PatternSyntax.TrimEnd(w, SPELLED) == SPELLED;
    assert WORD[0..4] == WORD && SPELLED[0..5] == SPELLED;
  }

  lemma OneRule(r: PolicyRule)
    ensures Validation.AllPatterns([r]) == r.patterns && Validation.AllActions([r]) == r.actions
  {
    assert [r][..0] == [];
    assert Validation.AllPatterns([]) == [] && Validation.AllActions([]) == [];
    assert [] + r.patterns == r.patterns && [] + r.actions == r.actions;
  }

  lemma PolicyAccepted(t: Tables, id: Uuid, server: string, pattern: string)
    requires PatternSyntax.ParsePattern(t.normalize, Texts(t).whitespace, pattern) == Ok(PatternSyntax.ParsedPattern(WORD, ExactWord))
    requires |pattern| <= 100 && (server == "a" || server == "b")
    ensures Validation.Accepted(Texts(t), Validation.DEFAULT_LIMITS, true, PolicyOf(id, server, pattern))
  {
    hide PatternSyntax.ParsePattern;
    var p := PolicyOf(id, server, pattern);
    assert Validation.Trim(Texts(t), "word") == "word" && Validation.Trim(Texts(t), server) == server;
    OneRule(p.rules[0]);
    assert p.rules == [p.rules[0]];
    assert Validation.RuleAccepted(Texts(t), Validation.DEFAULT_LIMITS, true, Server, p.rules[0]);
  }

  lemma BothAccepted(t: Tables)
    requires Spells(t)
    ensures Validation.Accepted(Texts(t), Validation.DEFAULT_LIMITS, true, PLAIN) && Validation.Accepted(Texts(t), Validation.DEFAULT_LIMITS, true, SHOUTED)
  {
    hide Validation.Accepted, Spells;
    SpellingsParse(t);
    PolicyAccepted(t, 1, "a", WORD);
    PolicyAccepted(t, 2, "b", SPELLED);
  }

  // ---- One fingerprint --------------------------------------------------------------------------------------

  lemma RuleBehaviour(t: Tables, id: Uuid, pattern: string)
    requires t.normalize(pattern) == WORD
    ensures BehaviourOf(t, RuleOf(id, pattern)) == Behaviour("word", "", "", {MessageContent}, {(ExactWord, WORD)}, {(Block, 0, "")})
  {
    var r := RuleOf(id, pattern);
    var b := BehaviourOf(t, r);
    forall k ensures k in b.patterns <==> k == (ExactWord, WORD) {
      assert r.patterns[0] in r.patterns && PatternKey(t, r.patterns[0]) == (ExactWord, WORD);
    }
    forall k ensures k in b.actions <==> k == (Block, 0, "") {
      assert r.actions[0] in r.actions && ActionKey(r.actions[0]) == (Block, 0, "");
    }
  }

  lemma OneBehaviour(t: Tables, id: Uuid, server: string, pattern: string)
    ensures PolicyBehaviour(t, PolicyOf(id, server, pattern)) == {BehaviourOf(t, RuleOf(id, pattern))}
  {
    hide BehaviourOf;
    var p := PolicyOf(id, server, pattern);
    forall b ensures b in PolicyBehaviour(t, p) <==> b == BehaviourOf(t, RuleOf(id, pattern)) {
      assert p.rules[0] in p.rules;
    }
  }

  lemma SameFingerprint(t: Tables)
    requires Spells(t)
    ensures ValidPolicy(t, PLAIN) && ValidPolicy(t, SHOUTED) && ProfileFingerprint(t, PLAIN) == ProfileFingerprint(t, SHOUTED)
  {
    hide ProfileFingerprint, ValidPolicy, BehaviourOf, PolicyBehaviour;
    PolicyValid(t, 1, "a", WORD);
    PolicyValid(t, 2, "b", SPELLED);
    RuleBehaviour(t, 1, WORD);
    RuleBehaviour(t, 2, SPELLED);
    OneBehaviour(t, 1, "a", WORD);
    OneBehaviour(t, 2, "b", SPELLED);
    FingerprintIffBehaviour(t, PLAIN, SHOUTED);
  }

  // ---- Only one of them matches ----------------------------------------------------------------------------

  const INPUT := SurfaceInput(CANONICAL_VIEW, Some(SECURITY_VIEW), [])

  lemma InputIs()
    ensures AnalyzedOk(ANALYZED) && InputFor(ANALYZED, MessageContent) == INPUT && InputOk(INPUT)
  {
  }

  lemma PlainHits(t: Tables)
    requires Spells(t) && InputOk(INPUT)
    ensures RuleSpans(t, INPUT, RuleOf(1, WORD)) != {}
  {
    hide RuleSpans, SourceSpan;
    var rule := RuleOf(1, WORD);
    var p, v := rule.patterns[0], SECURITY_VIEW;
    assert SecurityText(t, DefinitionOf(1, p)) == Some(WORD);
    assert v.text[0..4] == WORD;
    assert Hit(t, v, [], DefinitionOf(1, p), 0, 4);
    assert HitIn(t, v, [], DefinitionOf(1, p), SourceSpan(v, 0, 4));
    assert PatternHit(t, INPUT, rule, p, SourceSpan(v, 0, 4));
    SpanIsHit(t, INPUT, rule, SourceSpan(v, 0, 4));
  }

  lemma NoWordInCanonical(i: nat, j: nat)
    ensures !Occurs("te st", i, j, WORD)
  {
    assert "te st"[0..4][2] == ' ' && "te st"[1..5][0] == 'e';
    assert WORD[2] == 's' && WORD[0] == 't';
  }

  lemma ShoutedMisses(t: Tables)
    requires Spells(t) && InputOk(INPUT)
    ensures RuleSpans(t, INPUT, RuleOf(2, SPELLED)) == {}
  {
    hide RuleSpans, MatchesBoundary, IsExcluded, SourceSpan;
    var rule := RuleOf(2, SPELLED);
    assert SecurityText(t, DefinitionOf(2, rule.patterns[0])) == None;
    forall q ensures q !in RuleSpans(t, INPUT, rule) {
      SpanIsHit(t, INPUT, rule, q);
      if p :| PatternHit(t, INPUT, rule, p, q) {
        var i: nat, j: nat :| Hit(t, CANONICAL_VIEW, [], DefinitionOf(2, p), i, j);
        NoWordInCanonical(i, j);
      }
    }
  }

  // ---- Alone and grouped ---------------------------------------------------------------------------------------

  ghost predicate Snapshots(t: Tables, a: Snapshot, b: Snapshot) {
    Compiled(t, PLAIN, a) && Compiled(t, SHOUTED, b)
  }

  /** Both policies compile. */
  method CompileBoth(t: Tables) returns (a: Snapshot, b: Snapshot)
    requires Spells(t)
    ensures Snapshots(t, a, b)
  {
    SameFingerprint(t);
    ValidCompiles(t, PLAIN);
    ValidCompiles(t, SHOUTED);
    hide DistinctRules, HasEmptyPattern, ValidPolicy, CompiledFrom;
    var first := CompileWithDetails(t, PLAIN, false);
    var second := CompileWithDetails(t, SHOUTED, false);
    a, b := first.value, second.value;
  }

  const PRESENTATION := Presentation(MESSAGE, "", "", "", "", [])

  function WorldOf(t: Tables, a: Snapshot, b: Snapshot): World {
    World(t, ANALYZED, PRESENTATION, NO_EFFECTS, map["a" := a, "b" := b])
  }

  lemma CharSpanValid(i: nat)
    requires i < 5
    ensures Censoring.ValidSpan(MESSAGE, ByteSpan(i, i + 1))
  {
    hide Censoring.ValidSpan;
    SourceCharsProper(MESSAGE);
    MessageChars();
    assert MESSAGE_CHARS[i].source == ByteSpan(i, i + 1);
  }

  lemma ViewsFit()
    ensures ViewFits(MESSAGE, CANONICAL_VIEW) && ViewFits(MESSAGE, SECURITY_VIEW)
  {
    hide Censoring.ValidSpan;
    CharSpanValid(0);
    CharSpanValid(1);
    CharSpanValid(2);
    CharSpanValid(3);
    CharSpanValid(4);
  }

  /** The analysis is one of this message. */
  lemma AnalyzedFromMessage()
    ensures AnalyzedFrom(ANALYZED, PRESENTATION)
  {
    hide ViewFits, AnalyzedOk, Censoring.ValidSpan;
    InputIs();
    ViewsFit();
  }

  const TO_A := Destination(0, "a")
  const TO_B := Destination(1, "b")

  lemma RulesCompiled(t: Tables, id: Uuid, server: string, pattern: string, snap: Snapshot)
    requires Compiled(t, PolicyOf(id, server, pattern), snap)
    ensures snap.rules == map[id := RuleOf(id, pattern)] && snap.ruleNames == map["word" := id]
    ensures snap.policyId == id && snap.scope == PolicyScope(Server, server)
    ensures snap.profileFingerprint == ProfileFingerprint(t, PolicyOf(id, server, pattern))
  {
    hide ProfileFingerprint, SurfacesCompiled, ValidPolicy;
    var r := PolicyOf(id, server, pattern).rules[0];
    assert r in PolicyOf(id, server, pattern).rules;
  }

  lemma Blocks(id: Uuid, pattern: string, m: MatchedRule)
    requires m.actions == RuleOf(id, pattern).actions
    ensures HasKind(m, Block) && RuleWith([m], Block)
  {
    assert m.actions[0] in m.actions;
    assert m in [m];
  }

  lemma PlainTriggered(t: Tables)
    requires Spells(t) && AnalyzedOk(ANALYZED)
    ensures TriggeredRules(t, ANALYZED, map[1 := RuleOf(1, WORD)]) == {1}
  {
    hide RuleSpans, Spells;
    InputIs();
    PlainHits(t);
    hide AnalyzedOk, InputFor;
    assert HitOn(t, ANALYZED, RuleOf(1, WORD), MessageContent);
  }

  lemma ShoutedTriggered(t: Tables)
    requires Spells(t) && AnalyzedOk(ANALYZED)
    ensures TriggeredRules(t, ANALYZED, map[2 := RuleOf(2, SPELLED)]) == {}
  {
    hide RuleSpans, Spells;
    InputIs();
    ShoutedMisses(t);
    hide AnalyzedOk, InputFor;
    forall s ensures !HitOn(t, ANALYZED, RuleOf(2, SPELLED), s) {
    }
  }

  lemma EvaluatedOne(t: Tables, x: Analyzed, snap: Snapshot, id: Uuid)
    requires AnalyzedOk(x) && id in snap.rules && TriggeredRules(t, x, snap.rules) == {id}
    ensures Evaluated(t, x, snap, false) == [MatchedRuleOf(t, x, snap, snap.rules[id], false)]
  {
    hide AnalyzedOk, TriggeredRules, MatchedRuleOf;
    OneKey(id);
  }

  lemma EvaluatedNone(t: Tables, x: Analyzed, snap: Snapshot)
    requires AnalyzedOk(x) && TriggeredRules(t, x, snap.rules) == {}
    ensures Evaluated(t, x, snap, false) == []
  {
    hide AnalyzedOk, TriggeredRules, MatchedRuleOf;
    AscendingUnique(SortedKeys({}), []);
  }

  /** The evaluation of the policy that matches: one rule, which blocks. */
  lemma PlainEvaluated(t: Tables, a: Snapshot)
    requires Spells(t) && Compiled(t, PLAIN, a) && AnalyzedOk(ANALYZED)
    ensures var e := Evaluated(t, ANALYZED, a, false);
      |e| == 1 && e[0].ruleName == "word" && e[0].ruleId == 1 && e[0].actions == RuleOf(1, WORD).actions
  {
    hide Compiled, SurfaceResults, AnalyzedOk, TriggeredRules, Spells, Evaluated;
    RulesCompiled(t, 1, "a", WORD, a);
    PlainTriggered(t);
    EvaluatedOne(t, ANALYZED, a, 1);
  }

  lemma OneKey(k: nat)
    ensures SortedKeys({k}) == [k]
  {
    AscendingUnique(SortedKeys({k}), [k]);
  }

  lemma ShoutedEvaluated(t: Tables, b: Snapshot)
    requires Spells(t) && Compiled(t, SHOUTED, b) && AnalyzedOk(ANALYZED)
    ensures Evaluated(t, ANALYZED, b, false) == []
  {
    hide Compiled, AnalyzedOk, TriggeredRules, Spells, Evaluated;
    RulesCompiled(t, 2, "b", SPELLED, b);
    ShoutedTriggered(t);
    EvaluatedNone(t, ANALYZED, b);
  }

  // ---- What each destination is told --------------------------------------------------------------------------

  lemma NothingResolved(scope: PolicyScope)
    ensures Resolved(scope, []).delivery == NO_EFFECTS
  {
    hide RuleLeq, AttributionLeq, StepsOf;
    assert Sort<MatchedRule>([], RuleLeq) == [];
    assert Steps([]) == [];
    assert Sort<Attribution>([], AttributionLeq) == [];
  }

  lemma NothingComposed()
    ensures Composed([NO_EFFECTS, NO_EFFECTS]) == NO_EFFECTS
  {
    hide LayerLeq;
    assert [NO_EFFECTS, NO_EFFECTS][..1] == [NO_EFFECTS] && [NO_EFFECTS][..0] == [];
    assert Layered([NO_EFFECTS]) == NO_EFFECTS;
    assert Layered([NO_EFFECTS, NO_EFFECTS]) == NO_EFFECTS;
    assert Sort<Attribution>([], LayerLeq) == [];
  }

  lemma NothingMatched(scope: PolicyScope)
    ensures Resolved(scope, []).delivery == NO_EFFECTS && Composed([NO_EFFECTS, NO_EFFECTS]) == NO_EFFECTS
  {
    hide *;
    NothingResolved(scope);
    NothingComposed();
  }

  ghost predicate Refused(r: Result<Outcome, EvaluationError>) {
    r.Ok? && r.value.decision.blockedBy != [] && r.value.variant == None
  }

  ghost predicate Delivered(r: Result<Outcome, EvaluationError>, message: string) {
    r.Ok? && r.value.decision.blockedBy == [] && r.value.variant.Some? && r.value.variant.value.messageContent == message
  }

  /** Nothing matched: the destination gets the message. */
  lemma Delivers(w: World, snap: Snapshot, d: Destination, e: DeliveryEffects)
    requires w.shared == NO_EFFECTS && e == Composed([w.shared, Resolved(snap.scope, []).delivery])
    ensures Delivered(OutcomeUnder(w, e, snap, d, Resolved(snap.scope, [])), w.presentation.messageContent)
  {
    hide Materialized, Resolved, Composed, VariantBytes;
    NothingMatched(snap.scope);
    NoEffectsNoChange(w.presentation);
    BlockedByNothing(snap, d);
  }

  lemma BlockedByNothing(snap: Snapshot, d: Destination)
    ensures forall local: ResolvedScope, f :: local.delivery == NO_EFFECTS ==> Decided(snap, d, local, f).blockedBy == []
  {
  }

  /** One blocking rule matched: the destination does not. */
  lemma Refuses(w: World, snap: Snapshot, d: Destination, m: MatchedRule, effects: DeliveryEffects)
    requires RuleWith([m], Block) && effects.IsBlocked()
    ensures Refused(OutcomeUnder(w, effects, snap, d, Resolved(snap.scope, [m])))
  {
    hide Materialized, Resolved, RuleWith;
    ResolvedFlags(snap.scope, [m]);
  }

  /** The layer of a blocking rule blocks the composed effects. */
  lemma LayerBlocks(scope: PolicyScope, m: MatchedRule)
    requires RuleWith([m], Block)
    ensures Composed([NO_EFFECTS, Resolved(scope, [m]).delivery]).IsBlocked()
  {
    hide Resolved, RuleWith;
    ResolvedFlags(scope, [m]);
    var e := Resolved(scope, [m]).delivery;
    assert [NO_EFFECTS, e][..1] == [NO_EFFECTS] && [NO_EFFECTS][..0] == [];
    assert Layered([NO_EFFECTS]) == NO_EFFECTS;
    SortCorrect(Layered([NO_EFFECTS, e]).blockedBy, LayerLeq);
  }

  lemma RemapOne(snap: Snapshot, m: MatchedRule) returns (n: MatchedRule)
    requires m.ruleName in snap.ruleNames && snap.ruleNames[m.ruleName] in snap.rules
    ensures RemapEquivalentMatches(snap, [m]) == Ok([n])
    ensures n.actions == snap.rules[snap.ruleNames[m.ruleName]].actions
  {
    assert [m][1..] == [];
    assert RemapEquivalentMatches(snap, []) == Ok([]);
    n := RemapRule(snap, m).value;
    assert [n] + [] == [n];
  }

  lemma RemapNone(snap: Snapshot)
    ensures RemapEquivalentMatches(snap, []) == Ok([])
  {
  }

  /** What grouping decides: the world's store has two members of one group. */
  ghost predicate OneGroup(w: World, t: Tables, a: Snapshot, b: Snapshot) {
    && w.t == t && w.analyzed == ANALYZED && w.presentation == PRESENTATION && w.shared == NO_EFFECTS
    && w.store == map["a" := a, "b" := b] && AnalyzedOk(w.analyzed)
    && a.policyId == 1 && b.policyId == 2 && a.profileFingerprint == b.profileFingerprint
  }

  /** The one match of the first policy. */
  lemma PlainMatch(t: Tables, a: Snapshot) returns (m: MatchedRule)
    requires Spells(t) && Compiled(t, PLAIN, a) && AnalyzedOk(ANALYZED)
    ensures Evaluated(t, ANALYZED, a, false) == [m] && m.ruleName == "word" && RuleWith([m], Block)
  {
    hide Compiled, AnalyzedOk, Evaluated, Spells, RuleWith, RuleOf;
    PlainEvaluated(t, a);
    m := Evaluated(t, ANALYZED, a, false)[0];
    Blocks(1, WORD, m);
  }

  /** What a match of that name becomes for a policy of one rule. */
  lemma NamedMatch(snap: Snapshot, id: Uuid, pattern: string, m: MatchedRule) returns (n: MatchedRule)
    requires snap.rules == map[id := RuleOf(id, pattern)] && snap.ruleNames == map[m.ruleName := id]
    ensures RemapEquivalentMatches(snap, [m]) == Ok([n]) && n.actions == RuleOf(id, pattern).actions
  {
    hide RemapEquivalentMatches, RuleOf;
    n := RemapOne(snap, m);
  }

  lemma ShoutedMatch(t: Tables, b: Snapshot, m: MatchedRule) returns (n: MatchedRule)
    requires Compiled(t, PolicyOf(2, "b", SPELLED), b) && m.ruleName == "word"
    ensures RemapEquivalentMatches(b, [m]) == Ok([n]) && RuleWith([n], Block)
  {
    hide *;
    RulesCompiled(t, 2, "b", SPELLED, b);
    n := NamedMatch(b, 2, SPELLED, m);
    Blocks(2, SPELLED, n);
  }

  lemma PlainDecides(w: World, t: Tables, a: Snapshot, b: Snapshot)
    requires Spells(t) && Snapshots(t, a, b) && OneGroup(w, t, a, b)
    ensures Refused(DecideAlone(w, TO_A)) && Refused(DecideThrough(w, "a", TO_B))
  {
    hide Compiled, AnalyzedOk, Evaluated, Spells, RemapEquivalentMatches, RuleWith, Resolved, Composed, OutcomeUnder, Refused, DeliveryEffects.IsBlocked;
    var m := PlainMatch(t, a);
    var n := ShoutedMatch(t, b, m);
    LayerBlocks(a.scope, m);
    var e := Composed([NO_EFFECTS, Resolved(a.scope, [m]).delivery]);
    Refuses(w, a, TO_A, m, e);
    Refuses(w, b, TO_B, n, e);
  }

  lemma ShoutedDecides(w: World, t: Tables, a: Snapshot, b: Snapshot)
    requires Spells(t) && Snapshots(t, a, b) && OneGroup(w, t, a, b)
    ensures Delivered(DecideAlone(w, TO_B), MESSAGE) && Delivered(DecideThrough(w, "b", TO_A), MESSAGE)
  {
    hide AnalyzedOk, Evaluated, Spells, Compiled, RemapEquivalentMatches, Resolved, Composed, OutcomeUnder, Delivered;
    ShoutedEvaluated(t, b);
    RemapNone(a);
    NothingMatched(a.scope);
    NothingMatched(b.scope);
    var e := Composed([w.shared, Resolved(b.scope, []).delivery]);
    Delivers(w, b, TO_B, e);
    Delivers(w, a, TO_A, e);
  }

  lemma GroupedWorld(t: Tables, a: Snapshot, b: Snapshot)
    requires Spells(t) && Snapshots(t, a, b)
    ensures AnalyzedOk(ANALYZED) && OneGroup(WorldOf(t, a, b), t, a, b) && a.profileFingerprint == b.profileFingerprint
  {
    hide AnalyzedOk, Spells, Compiled, ProfileFingerprint;
    InputIs();
    SameFingerprint(t);
    RulesCompiled(t, 1, "a", WORD, a);
    RulesCompiled(t, 2, "b", SPELLED, b);
  }

  /**
   * The message is blocked for the first server and delivered to the second.
   * Their policies share a fingerprint, so they are one group; and whichever of
   * the two represents it, the other is decided as the representative is.
   */
  lemma GroupedDecisionsDiffer(t: Tables, a: Snapshot, b: Snapshot)
    requires Spells(t) && Snapshots(t, a, b)
    ensures Validation.Accepted(Texts(t), Validation.DEFAULT_LIMITS, true, PLAIN) && Validation.Accepted(Texts(t), Validation.DEFAULT_LIMITS, true, SHOUTED)
    ensures ValidPolicy(t, PLAIN) && ValidPolicy(t, SHOUTED) && a.profileFingerprint == b.profileFingerprint
    ensures AnalyzedFrom(ANALYZED, PRESENTATION) && "a" in WorldOf(t, a, b).store && "b" in WorldOf(t, a, b).store
    ensures Refused(DecideAlone(WorldOf(t, a, b), TO_A)) && Delivered(DecideAlone(WorldOf(t, a, b), TO_B), MESSAGE)
    ensures Refused(DecideThrough(WorldOf(t, a, b), "a", TO_B)) && Delivered(DecideThrough(WorldOf(t, a, b), "b", TO_A), MESSAGE)
  {
    hide AnalyzedOk, Spells, Snapshots, ValidPolicy, Refused, Delivered, DecideAlone, DecideThrough, ProfileFingerprint, Validation.Accepted;
    BothAccepted(t);
    AnalyzedFromMessage();
    GroupedWorld(t, a, b);
    SameFingerprint(t);
    PlainDecides(WorldOf(t, a, b), t, a, b);
    ShoutedDecides(WorldOf(t, a, b), t, a, b);
  }

  // ---- The fan-out itself ----------------------------------------------------------------------------------------

  lemma ThroughItself(w: World, d: Destination)
    requires AnalyzedOk(w.analyzed) && d.serverId in w.store
    ensures DecideThrough(w, d.serverId, d) == DecideAlone(w, d)
  {
    hide AnalyzedOk, Evaluated, Resolved, Composed, OutcomeUnder, RemapEquivalentMatches;
  }

  /** Two destinations of one class are its members, in their order. */
  lemma BothInClass(store: map<string, Snapshot>, x: Destination, y: Destination)
    requires ClassOf(store, x) == ClassOf(store, y)
    ensures InClass(store, [x, y], ClassOf(store, x)) == [x, y]
  {
    assert [x, y][..1] == [x] && [x][..0] == [];
    assert InClass(store, [], ClassOf(store, x)) == [];
    assert InClass(store, [x], ClassOf(store, x)) == [x];
  }

  /** The first of two destinations of one group represents both. */
  lemma FirstRepresents(w: World, x: Destination, y: Destination)
    requires AnalyzedOk(w.analyzed) && x.serverId in w.store && y.serverId in w.store
    requires w.store[x.serverId].profileFingerprint == w.store[y.serverId].profileFingerprint
    ensures DecideGrouped(w, [x, y], x) == DecideAlone(w, x) && DecideGrouped(w, [x, y], y) == DecideThrough(w, x.serverId, y)
  {
    hide AnalyzedOk, DecideAlone, DecideThrough, InClass;
    BothInClass(w.store, x, y);
    ThroughItself(w, x);
  }

  /** A run over two destinations whose decisions are known. */
  lemma TwoReturned(g: Decider, x: Destination, y: Destination, decisions: seq<DestinationDecision>, variants: map<seq<Byte>, DeliveryVariant>)
    requires Returned(g, [x, y], decisions, variants)
    ensures g(x).Ok? && g(y).Ok?
    ensures forall i :: 0 <= i < |decisions| ==> decisions[i] == g(x).value.decision || decisions[i] == g(y).value.decision
  {
    hide VariantsOf, Sorted;
    var ds := [x, y];
    assert x == ds[0] && y == ds[1] && x in ds && y in ds;
    var all := MapSeq(Deciding(g), ds);
    forall i | 0 <= i < |decisions| ensures decisions[i] == g(x).value.decision || decisions[i] == g(y).value.decision {
      assert decisions[i] in multiset(decisions);
      assert decisions[i] in multiset(all);
      var k :| 0 <= k < |all| && all[k] == decisions[i];
    }
  }

  ghost predicate AllRefused(out: Result<(seq<DestinationDecision>, map<seq<Byte>, DeliveryVariant>, nat), EvaluationError>) {
    out.Ok? && |out.value.0| == 2 && forall i :: 0 <= i < |out.value.0| ==> out.value.0[i].blockedBy != []
  }

  ghost predicate NoneRefused(out: Result<(seq<DestinationDecision>, map<seq<Byte>, DeliveryVariant>, nat), EvaluationError>) {
    out.Ok? && |out.value.0| == 2 && forall i :: 0 <= i < |out.value.0| ==> out.value.0[i].blockedBy == []
  }

  /** What the fan-out ensured, as far as two destinations are concerned. */
  ghost predicate RanOver(w: World, ds: seq<Destination>, out: Result<(seq<DestinationDecision>, map<seq<Byte>, DeliveryVariant>, nat), EvaluationError>)
    requires AnalyzedOk(w.analyzed)
  {
    && (out.Ok? ==> Returned(Grouped(w, ds), ds, out.value.0, out.value.1))
    && (out.Err? ==> Fails(Grouped(w, ds), ds, out.error))
  }

  lemma RunDecides(w: World, x: Destination, y: Destination, out: Result<(seq<DestinationDecision>, map<seq<Byte>, DeliveryVariant>, nat), EvaluationError>)
    requires AnalyzedOk(w.analyzed) && RanOver(w, [x, y], out)
    requires DecideGrouped(w, [x, y], x).Ok? && DecideGrouped(w, [x, y], y).Ok?
    ensures out.Ok? && |out.value.0| == 2
    ensures forall i :: 0 <= i < |out.value.0| ==>
      out.value.0[i] == DecideGrouped(w, [x, y], x).value.decision || out.value.0[i] == DecideGrouped(w, [x, y], y).value.decision
  {
    hide AnalyzedOk, DecideGrouped, Returned;
    if out.Ok? {
      TwoReturned(Grouped(w, [x, y]), x, y, out.value.0, out.value.1);
      ReturnedLength(Grouped(w, [x, y]), [x, y], out.value.0, out.value.1);
    }
  }

  lemma ReturnedLength(g: Decider, ds: seq<Destination>, decisions: seq<DestinationDecision>, variants: map<seq<Byte>, DeliveryVariant>)
    requires Returned(g, ds, decisions, variants)
    ensures |decisions| == |ds|
  {
    hide VariantsOf, Sorted, AllDecided;
    var all := MapSeq(Deciding(g), ds);
    assert |multiset(decisions)| == |decisions| && |multiset(all)| == |all|;
  }

  /**
   * The fan-out run over the two servers: listed in one order both are refused,
   * in the other both are served, although alone one is refused and one served.
   */
  method OrderDecides(t: Tables, a: Snapshot, b: Snapshot)
    returns (first: Result<(seq<DestinationDecision>, map<seq<Byte>, DeliveryVariant>, nat), EvaluationError>,
             second: Result<(seq<DestinationDecision>, map<seq<Byte>, DeliveryVariant>, nat), EvaluationError>)
    requires Spells(t) && Snapshots(t, a, b)
    ensures AllRefused(first) && NoneRefused(second)
  {
    hide AnalyzedOk, Spells, Snapshots, Evaluable, Returned, Fails, Grouped, WorldOk, WorldFits, RanOver, AllRefused, NoneRefused;
    var w := WorldOf(t, a, b);
    GroupedWorld(t, a, b);
    BothEvaluable(t, a, b);
    first := EvaluateServerDestinations(w, map["a" := PLAIN, "b" := SHOUTED], [TO_A, TO_B]);
    second := EvaluateServerDestinations(w, map["a" := PLAIN, "b" := SHOUTED], [TO_B, TO_A]);
    Ran(w, [TO_A, TO_B], first);
    Ran(w, [TO_B, TO_A], second);
    BothRefused(w, t, a, b, first);
    BothServed(w, t, a, b, second);
  }

  lemma Ran(w: World, ds: seq<Destination>, out: Result<(seq<DestinationDecision>, map<seq<Byte>, DeliveryVariant>, nat), EvaluationError>)
    requires AnalyzedOk(w.analyzed)
    requires out.Ok? ==> Returned(Grouped(w, ds), ds, out.value.0, out.value.1)
    requires out.Err? ==> Fails(Grouped(w, ds), ds, out.error)
    ensures RanOver(w, ds, out)
  {
    hide AnalyzedOk, Returned, Fails, Grouped;
  }

  lemma BothEvaluable(t: Tables, a: Snapshot, b: Snapshot)
    requires Snapshots(t, a, b)
    ensures Evaluable(WorldOf(t, a, b), map["a" := PLAIN, "b" := SHOUTED])
  {
    hide CompiledFrom, ValidPolicy;
  }

  lemma BothRefused(w: World, t: Tables, a: Snapshot, b: Snapshot,
                    out: Result<(seq<DestinationDecision>, map<seq<Byte>, DeliveryVariant>, nat), EvaluationError>)
    requires Spells(t) && Snapshots(t, a, b) && OneGroup(w, t, a, b) && RanOver(w, [TO_A, TO_B], out)
    ensures AllRefused(out)
  {
    hide AnalyzedOk, Spells, Snapshots, DecideAlone, DecideThrough, DecideGrouped, RanOver;
    PlainDecides(w, t, a, b);
    FirstRepresents(w, TO_A, TO_B);
    RunDecides(w, TO_A, TO_B, out);
  }

  lemma BothServed(w: World, t: Tables, a: Snapshot, b: Snapshot,
                   out: Result<(seq<DestinationDecision>, map<seq<Byte>, DeliveryVariant>, nat), EvaluationError>)
    requires Spells(t) && Snapshots(t, a, b) && OneGroup(w, t, a, b) && RanOver(w, [TO_B, TO_A], out)
    ensures NoneRefused(out)
  {
    hide AnalyzedOk, Spells, Snapshots, DecideAlone, DecideThrough, DecideGrouped, RanOver;
    ShoutedDecides(w, t, a, b);
    FirstRepresents(w, TO_B, TO_A);
    RunDecides(w, TO_B, TO_A, out);
  }
}
