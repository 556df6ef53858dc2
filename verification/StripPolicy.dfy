/**
 * A policy that censors and strips the message of StripWitness: one rule with
 * two patterns reports exactly the two runs, so what it delivers is not the
 * censored message with its link deleted.
 */
module StripPolicy {
  import opened Wrappers
  import opened Sorting
  import opened Spans
  import Utf8Text
  import ByteEncoding
  import opened PolicyModel
  import opened TextTables
  import opened Matcher
  import opened PatternSharing
  import opened Resolver
  import opened Layers
  import opened Compiler
  import opened Evaluation
  import opened TwoPass
  import opened Censoring
  import opened Stripping
  import opened StripThenCensor
  import opened StripCorrectness
  import opened StripExactness
  import opened StripWitness
  import opened UrlScanner
  import opened Delivery
  import opened Rendering
  import CanonicalOrder
  import CanonicalCompose
  import opened NormalizedViews
  import AsciiText
  import MaskedLinks

  type Text = CanonicalOrder.Text

  function At(c: char, a: nat, b: nat): CanonicalOrder.Mapped { CanonicalOrder.Mapped(c, ByteSpan(a, b)) }

  // ---- The canonical view of the message ---------------------------------------------------------

  /** The message's own part of the Unicode tables: the stroke is a mark that composes with "<". */
  const UNICODE := CanonicalOrder.Unicode(
    (c: char) => if c == '\U{0338}' then 1 else 0,
    (a: char, b: char) => if a == '<' && b == '\U{0338}' then CanonicalOrder.Composite('\U{226E}') else CanonicalOrder.NoComposite)

  const CHARS: Text := [At('\U{1F600}', 0, 4), At('a', 4, 5), At('.', 5, 6), At('c', 6, 7), At('o', 7, 8), At('<', 8, 9),
                        At('\U{0338}', 9, 11), At('b', 11, 12)]

  const COMPOSED: Text := [At('\U{1F600}', 0, 4), At('a', 4, 5), At('.', 5, 6), At('c', 6, 7), At('o', 7, 8), At('\U{226E}', 8, 11), At('b', 11, 12)]

  const VIEW_CHARS: Text := [At('\U{1F600}', 0, 4), At('a', 4, 5), At(' ', 5, 6), At('c', 6, 7), At('o', 7, 8), At('\U{226E}', 8, 11), At('b', 11, 12)]

  const VIEW := View("\U{1F600}a co\U{226E}b",
    [ByteSpan(0, 4), ByteSpan(4, 5), ByteSpan(5, 6), ByteSpan(6, 7), ByteSpan(7, 8), ByteSpan(8, 11), ByteSpan(11, 12)], false)

  lemma MessageChars()
    ensures SourceChars(MESSAGE) == CHARS
  {
    Utf8Text.OffsetStep(MESSAGE, 0);
    Utf8Text.OffsetStep(MESSAGE, 1);
    Utf8Text.OffsetStep(MESSAGE, 2);
    Utf8Text.OffsetStep(MESSAGE, 3);
    Utf8Text.OffsetStep(MESSAGE, 4);
    Utf8Text.OffsetStep(MESSAGE, 5);
    Utf8Text.OffsetStep(MESSAGE, 6);
    Utf8Text.OffsetStep(MESSAGE, 7);
  }

  /** A scalar that composes with nothing stands for itself. */
  lemma Appends(s: string, c: char)
    requires c != '\U{0338}'
    ensures CanonicalCompose.Composed(UNICODE, s + [c]) == CanonicalCompose.Composed(UNICODE, s) + [CanonicalCompose.Group(c, [|s|])]
  {
    assert (s + [c])[..|s|] == s;
  }

  /** The stroke joins the "<" before it. */
  lemma StrikesLast(out: seq<CanonicalCompose.Group>, m: nat, n: nat)
    ensures CanonicalCompose.ComposeNext(UNICODE, out + [CanonicalCompose.Group('<', [m])], '\U{0338}', n)
         == out + [CanonicalCompose.Group('\U{226E}', [m, n])]
  {
    var all := out + [CanonicalCompose.Group('<', [m])];
    assert CanonicalCompose.LastStarter(UNICODE, all) == Some(|out|);
    assert [m] + [n] == [m, n];
  }

  lemma Strikes(s: string)
    ensures CanonicalCompose.Composed(UNICODE, s + ['<'] + ['\U{0338}'])
         == CanonicalCompose.Composed(UNICODE, s) + [CanonicalCompose.Group('\U{226E}', [|s|, |s| + 1])]
  {
    hide CanonicalCompose.ComposeNext;
    Appends(s, '<');
    var t := s + ['<'];
    assert (t + ['\U{0338}'])[..|t|] == t;
    StrikesLast(CanonicalCompose.Composed(UNICODE, s), |s|, |s| + 1);
  }

  lemma MessageGroups()
    ensures CanonicalCompose.Composed(UNICODE, MESSAGE) ==
      [CanonicalCompose.Group('\U{1F600}', [0]), CanonicalCompose.Group('a', [1]), CanonicalCompose.Group('.', [2]), CanonicalCompose.Group('c', [3]),
       CanonicalCompose.Group('o', [4]), CanonicalCompose.Group('\U{226E}', [5, 6]), CanonicalCompose.Group('b', [7])]
  {
    hide CanonicalCompose.ComposeNext;
    assert CanonicalCompose.Composed(UNICODE, "") == [];
    Appends("", '\U{1F600}');
    Appends("" + ['\U{1F600}'], 'a');
    Appends("" + ['\U{1F600}'] + ['a'], '.');
    Appends("" + ['\U{1F600}'] + ['a'] + ['.'], 'c');
    Appends("" + ['\U{1F600}'] + ['a'] + ['.'] + ['c'], 'o');
    var s := "" + ['\U{1F600}'] + ['a'] + ['.'] + ['c'] + ['o'];
    Strikes(s);
    Appends(s + ['<'] + ['\U{0338}'], 'b');
    assert MESSAGE == s + ['<'] + ['\U{0338}'] + ['b'];
  }

  lemma HullsOf()
    ensures forall i: nat :: i < 8 ==> CanonicalCompose.HullAt(CHARS, [i]) == CHARS[i].source
    ensures CanonicalCompose.HullAt(CHARS, [5, 6]) == ByteSpan(8, 11)
  {
    assert CanonicalCompose.SourcesAt(CHARS, [5, 6]) == [ByteSpan(8, 9), ByteSpan(9, 11)];
    assert [ByteSpan(8, 9), ByteSpan(9, 11)][..1] == [ByteSpan(8, 9)];
  }

  lemma MessageCarries()
    ensures CanonicalCompose.Carries(CHARS, CanonicalCompose.Composed(UNICODE, MESSAGE), COMPOSED)
  {
    hide CanonicalCompose.HullAt, CanonicalCompose.Composed;
    MessageGroups();
    HullsOf();
  }

  lemma MessageOrdered()
    ensures CanonicalOrder.Ordered(UNICODE, CHARS)
  {
  }

  lemma MessageComposed()
    ensures CanonicalCompose.IsNfkc(UNICODE, AsciiText.Unchanged, SourceChars(MESSAGE), CHARS, COMPOSED)
  {
    hide CanonicalCompose.Composed, CanonicalCompose.Carries, CanonicalCompose.Decomposed, CanonicalOrder.Ordered, CanonicalOrder.Reaches, SourceChars;
    MessageChars();
    AsciiText.NothingDecomposes(CHARS);
    CanonicalOrder.ReachesSelf(UNICODE, CHARS);
    MessageOrdered();
    MessageCarries();
    assert CanonicalOrder.Scalars(CHARS) == MESSAGE;
  }

  lemma MessageSpaced()
    ensures CanonicalCompose.Decomposed(AsciiText.Folded, COMPOSED) == COMPOSED && Spaced(AsciiText.CHAR_TESTS, COMPOSED) == VIEW_CHARS
  {
    hide Spaced, Pending;
    AsciiText.FoldFixed(COMPOSED);
    var s := [At('\U{1F600}', 0, 4), At('a', 4, 5)];
    AsciiText.AllKept(s);
    AsciiText.SeparatorWaits(s, At('.', 5, 6));
    AsciiText.KeptAfter(s + [At('.', 5, 6)], At('c', 6, 7));
    AsciiText.KeptAfter(s + [At('.', 5, 6)] + [At('c', 6, 7)], At('o', 7, 8));
    AsciiText.KeptAfter(s + [At('.', 5, 6)] + [At('c', 6, 7)] + [At('o', 7, 8)], At('\U{226E}', 8, 11));
    AsciiText.KeptAfter(s + [At('.', 5, 6)] + [At('c', 6, 7)] + [At('o', 7, 8)] + [At('\U{226E}', 8, 11)], At('b', 11, 12));
    assert COMPOSED == s + [At('.', 5, 6)] + [At('c', 6, 7)] + [At('o', 7, 8)] + [At('\U{226E}', 8, 11)] + [At('b', 11, 12)];
  }

  /** The view is the spaced and folded NFKC of the message. */
  lemma ViewIsComputed()
    ensures CanonicalCompose.IsNfkc(UNICODE, AsciiText.Unchanged, SourceChars(MESSAGE), CHARS, COMPOSED)
    ensures Spaced(AsciiText.CHAR_TESTS, CanonicalCompose.Decomposed(AsciiText.Folded, COMPOSED)) == VIEW_CHARS
    ensures VIEW.text == CanonicalOrder.Scalars(VIEW_CHARS) && |VIEW.source| == |VIEW_CHARS|
    ensures forall i :: 0 <= i < |VIEW_CHARS| ==> VIEW.source[i] == VIEW_CHARS[i].source
  {
    hide CanonicalCompose.IsNfkc, Spaced;
    MessageComposed();
    MessageSpaced();
  }

  // ---- The policy --------------------------------------------------------------------------------------

  const FACE := "*\U{1F600}*"
  const STRUCK := "*\U{226E}b*"

  const RULE := PolicyRule(1, "faces", "", true, None, "owner", [RulePattern(1, FACE, PatternType.Contains), RulePattern(2, STRUCK, PatternType.Contains)],
    {MessageContent}, [PolicyAction(1, CensorMatch, None, None), PolicyAction(2, StripLink, None, None)])

  /** What the rule needs of the text functions: the stars vanish, and neither literal is all letters. */
  ghost predicate Spells(t: Tables) {
    && t.normalize(FACE) == "\U{1F600}" && t.normalize(STRUCK) == "\U{226E}b"
    && !t.securityEligible("\U{1F600}") && !t.securityEligible("\U{226E}b")
  }

  function InputWith(security: Option<View>): SurfaceInput { SurfaceInput(VIEW, security, []) }

  lemma Ineligible(t: Tables, p: RulePattern)
    requires Spells(t) && p in RULE.patterns
    ensures SecurityText(t, DefinitionOf(1, p)) == None
  {
    assert FACE[1..] == "\U{1F600}*" && "\U{1F600}*"[..1] == "\U{1F600}";
    assert STRUCK[1..] == "\U{226E}b*" && "\U{226E}b*"[..2] == "\U{226E}b";
  }

  lemma FaceOccurs(i: nat, j: nat)
    ensures Occurs(VIEW.text, i, j, "\U{1F600}") <==> i == 0 && j == 1
  {
    assert VIEW.text[0..1] == "\U{1F600}";
    if Occurs(VIEW.text, i, j, "\U{1F600}") {
      assert VIEW.text[i..j][0] == VIEW.text[i];
    }
  }

  lemma StruckOccurs(i: nat, j: nat)
    ensures Occurs(VIEW.text, i, j, "\U{226E}b") <==> i == 5 && j == 7
  {
    assert VIEW.text[5..7] == "\U{226E}b";
    if Occurs(VIEW.text, i, j, "\U{226E}b") {
      assert VIEW.text[i..j][0] == VIEW.text[i] && VIEW.text[i..j][1] == VIEW.text[i + 1];
    }
  }

  lemma ViewSpans()
    ensures SourceSpan(VIEW, 0, 1) == ByteSpan(0, 4) && SourceSpan(VIEW, 5, 7) == ByteSpan(8, 12)
  {
    assert VIEW.source[0..1] == [ByteSpan(0, 4)] && VIEW.source[5..7] == [ByteSpan(8, 11), ByteSpan(11, 12)];
    assert [ByteSpan(8, 11), ByteSpan(11, 12)][..1] == [ByteSpan(8, 11)];
  }

  lemma HitsAt(t: Tables, p: RulePattern, q: ByteSpan)
    requires Spells(t) && p in RULE.patterns
    ensures HitIn(t, VIEW, [], DefinitionOf(1, p), q) <==> q == if p == RULE.patterns[0] then ByteSpan(0, 4) else ByteSpan(8, 12)
  {
    hide SourceSpan;
    var d := DefinitionOf(1, p);
    ViewSpans();
    if i: nat, j: nat :| Hit(t, VIEW, [], d, i, j) && q == SourceSpan(VIEW, i, j) {
      FaceOccurs(i, j);
      StruckOccurs(i, j);
    }
    FaceOccurs(0, 1);
    StruckOccurs(5, 7);
    if p == RULE.patterns[0] {
      assert Hit(t, VIEW, [], d, 0, 1);
    } else {
      assert Hit(t, VIEW, [], d, 5, 7);
    }
  }

  /** The rule reports exactly the two runs, whatever the security view. */
  lemma RuleReports(t: Tables, security: Option<View>)
    requires Spells(t) && InputOk(InputWith(security))
    ensures RuleSpans(t, InputWith(security), RULE) == {ByteSpan(0, 4), ByteSpan(8, 12)}
  {
    hide RuleSpans, HitIn, Spells, SecurityText;
    var input := InputWith(security);
    assert RULE.patterns[0] in RULE.patterns && RULE.patterns[1] in RULE.patterns;
    forall q ensures q in RuleSpans(t, input, RULE) <==> q == ByteSpan(0, 4) || q == ByteSpan(8, 12) {
      SpanIsHit(t, input, RULE, q);
      forall p | p in RULE.patterns
        ensures HitAt(t, input, DefinitionOf(1, p), q) <==> q == if p == RULE.patterns[0] then ByteSpan(0, 4) else ByteSpan(8, 12)
      {
        HitsAt(t, p, q);
        Ineligible(t, p);
        NoSecurityHit(t, input, DefinitionOf(1, p), q);
      }
      assert HitAt(t, input, DefinitionOf(1, RULE.patterns[0]), q) ==> PatternHit(t, input, RULE, RULE.patterns[0], q);
      assert HitAt(t, input, DefinitionOf(1, RULE.patterns[1]), q) ==> PatternHit(t, input, RULE, RULE.patterns[1], q);
    }
  }

  lemma NoSecurityHit(t: Tables, input: SurfaceInput, d: PatternDefinition, q: ByteSpan)
    requires InputOk(input) && SecurityText(t, d) == None
    ensures input.security.Some? ==> !HitIn(t, input.security.value, input.excluded, d, q)
  {
    hide Admissible, SourceSpan;
  }

  // ---- What it delivers ----------------------------------------------------------------------------------

  const PRESENTATION := Presentation(MESSAGE, "", "", "", "", [LINK])

  /** The message analyzed, with whatever security view. */
  function AnalysisWith(security: Option<View>): Analyzed {
    Analyzed(map[MessageContent := VIEW], if security.Some? then map[MessageContent := security.value] else map[], [])
  }

  ghost predicate SecurityOk(security: Option<View>) {
    security.Some? ==> ViewOk(security.value) && security.value.security && NonEmpty(security.value.source)
  }

  lemma AnalysisOk(security: Option<View>)
    requires SecurityOk(security)
    ensures AnalyzedOk(AnalysisWith(security)) && InputFor(AnalysisWith(security), MessageContent) == InputWith(security)
    ensures InputOk(InputWith(security))
  {
  }

  lemma TwoSpans()
    ensures OrderedSpans({ByteSpan(0, 4), ByteSpan(8, 12)}) == CENSORED_SPANS
  {
    AscendingSpansUnique(OrderedSpans({ByteSpan(0, 4), ByteSpan(8, 12)}), CENSORED_SPANS);
  }

  /** The rule's result: the message surface, with the two runs. */
  lemma RuleResult(t: Tables, security: Option<View>)
    requires Spells(t) && SecurityOk(security) && AnalyzedOk(AnalysisWith(security))
    ensures HitOn(t, AnalysisWith(security), RULE, MessageContent)
    ensures SurfaceResult(t, AnalysisWith(security), RULE, MessageContent, false).surface == MessageContent
    ensures SurfaceResult(t, AnalysisWith(security), RULE, MessageContent, false).spans == CENSORED_SPANS
  {
    hide RuleSpans, Spells, OrderedSpans, SortedKeys, RulePatternIds;
    AnalysisOk(security);
    RuleReports(t, security);
    TwoSpans();
    assert ByteSpan(0, 4) in RuleSpans(t, InputWith(security), RULE);
    assert RULE.actions[0].actionType == CensorMatch && NeedsDetails(RULE);
  }

  lemma {:induction false} OnlyMessage(t: Tables, security: Option<View>, n: nat)
    requires AnalyzedOk(AnalysisWith(security)) && 1 <= n <= 6 && HitOn(t, AnalysisWith(security), RULE, MessageContent)
    ensures SurfaceResults(t, AnalysisWith(security), RULE, false, n)
      == [SurfaceResult(t, AnalysisWith(security), RULE, MessageContent, false)]
  {
    hide SurfaceResult, RuleSpans, AnalyzedOk, InputFor;
    if n > 1 {
      OnlyMessage(t, security, n - 1);
    }
  }

  /** A snapshot of the policy: one enabled rule. */
  ghost predicate OfPolicy(snap: Snapshot) { snap.rules == map[1 := RULE] }

  /** The policy's layer on the message: strip the links, and censor the two runs. */
  lemma LayerReports(t: Tables, security: Option<View>, snap: Snapshot)
    requires Spells(t) && SecurityOk(security) && OfPolicy(snap) && AnalyzedOk(AnalysisWith(security))
    ensures var e := Resolved(snap.scope, Evaluated(t, AnalysisWith(security), snap, false)).delivery;
      e.stripLinks && !e.IsBlocked() && SpansAt(e.censorSpans, MessageContent) == CENSORED_SPANS
  {
    hide AnalyzedOk, Spells, HitOn, SurfaceResult, SecurityOk, Resolved, DeliveryEffects.IsBlocked;
    var a := AnalysisWith(security);
    RuleResult(t, security);
    OnlyMessage(t, security, 6);
    Triggered(t, a, snap);
    var m := MatchedRuleOf(t, a, snap, RULE, false);
    OneEvaluated(t, a, snap);
    ReportsTwo(snap.scope, m);
  }

  lemma Triggered(t: Tables, a: Analyzed, snap: Snapshot)
    requires AnalyzedOk(a) && OfPolicy(snap) && HitOn(t, a, RULE, MessageContent)
    ensures TriggeredRules(t, a, snap.rules) == {1}
  {
    hide HitOn, AnalyzedOk;
  }

  lemma OneEvaluated(t: Tables, a: Analyzed, snap: Snapshot)
    requires AnalyzedOk(a) && OfPolicy(snap) && TriggeredRules(t, a, snap.rules) == {1}
    ensures Evaluated(t, a, snap, false) == [MatchedRuleOf(t, a, snap, RULE, false)]
  {
    hide AnalyzedOk, TriggeredRules, MatchedRuleOf;
    AscendingUnique(SortedKeys({1}), [1]);
  }

  /** One rule that censors and strips, matched on the message with the two runs. */
  lemma ReportsTwo(scope: PolicyScope, m: MatchedRule)
    requires m.actions == RULE.actions && |m.surfaces| == 1
    requires m.surfaces[0].surface == MessageContent && m.surfaces[0].spans == CENSORED_SPANS
    ensures var e := Resolved(scope, [m]).delivery;
      e.stripLinks && !e.IsBlocked() && SpansAt(e.censorSpans, MessageContent) == CENSORED_SPANS
  {
    hide Resolved, DeliveryEffects.IsBlocked, MergedSpans, Censors, Steps, Sort;
    RuleKinds(m);
    ResolvedFlags(scope, [m]);
    CensorsOfDelivery(scope, [m], MessageContent);
    var c := Censors(Steps(Sort([m], RuleLeq)));
    forall x ensures x in SpansAt(c, MessageContent) <==> x in CENSORED_SPANS {
      ResolvedCensors(scope, [m], MessageContent, x);
      ReportedByOne(m, x);
    }
    ResolvedCensors(scope, [m], MessageContent, ByteSpan(0, 4));
    SameElements(SpansAt(c, MessageContent), CENSORED_SPANS);
    MergedByCoverage(SpansAt(c, MessageContent), CENSORED_SPANS);
    MergedFixed(CENSORED_SPANS);
  }

  lemma RuleKinds(m: MatchedRule)
    requires m.actions == RULE.actions
    ensures RuleWith([m], StripLink) && !RuleWith([m], Block) && HasKind(m, CensorMatch)
  {
    assert m.actions[0].actionType == CensorMatch && m.actions[1].actionType == StripLink;
    assert m in [m] && m.actions[0] in m.actions && m.actions[1] in m.actions;
  }

  lemma ReportedByOne(m: MatchedRule, x: ByteSpan)
    requires HasKind(m, CensorMatch) && |m.surfaces| == 1
    requires m.surfaces[0].surface == MessageContent && m.surfaces[0].spans == CENSORED_SPANS
    ensures Reports([m], CensorMatch, MessageContent, x) <==> x in CENSORED_SPANS
    ensures Touches([m], CensorMatch, MessageContent)
  {
    hide HasKind;
    assert m in [m] && m.surfaces[0] in m.surfaces;
  }

  lemma SurvivingLink()
    ensures Surviving(CENSORED_SPANS + [LINK], [LINK]) == Surviving(CENSORED_SPANS, [LINK])
  {
    SpansKept();
    var a, b := CENSORED_SPANS[0], CENSORED_SPANS[1];
    var all := CENSORED_SPANS + [LINK];
    assert !OverlapsAny(a, [LINK]) && !OverlapsAny(b, [LINK]);
    assert OverlapsAny(LINK, [LINK]) by { assert Overlaps(LINK, [LINK][0]); }
    assert all == [a, b, LINK] && all[1..] == [b, LINK] && [b, LINK][1..] == [LINK] && [LINK][1..] == [];
    assert Surviving([LINK], [LINK]) == [];
    assert Surviving([b, LINK], [LINK]) == [b];
  }

  /**
   * The policy delivers the message with the link stripped and the runs joined,
   * which is not the censored message with the link deleted.
   */
  lemma PolicyDeliversOther(t: Tables, security: Option<View>, snap: Snapshot, alphanumeric: char -> bool)
    requires Spells(t) && SecurityOk(security) && OfPolicy(snap) && !alphanumeric('\U{1F600}')
    ensures Extracted(alphanumeric, MESSAGE, CANDIDATES, |ByteEncoding.Utf8(MESSAGE)|) && Urls(CANDIDATES) == PRESENTATION.urlSpans
    ensures AnalyzedOk(AnalysisWith(security)) && AllValid(MESSAGE, CENSORED_SPANS) && AllValid(MESSAGE, [LINK])
    ensures RenderedMessage(PRESENTATION, Resolved(snap.scope, Evaluated(t, AnalysisWith(security), snap, false)).delivery)
      != Ok(Kept(CensorText(MESSAGE, Runs(MESSAGE, CENSORED_SPANS, [LINK])), Links(MESSAGE, [LINK])))
  {
    hide Extracted, Kept, CensorText, AllValid, Runs, Links, AnalyzedOk, Spells, Evaluated, Resolved, StripCensor, SecurityOk, OfPolicy;
    AnalysisOk(security);
    LayerReports(t, security, snap);
    TouchingRunsDiffer(alphanumeric);
    SurvivingLink();
    SameTransformed();
  }

  lemma SameTransformed()
    requires AllValid(MESSAGE, CENSORED_SPANS) && AllValid(MESSAGE, [LINK])
    requires Surviving(CENSORED_SPANS + [LINK], [LINK]) == Surviving(CENSORED_SPANS, [LINK])
    ensures Transformed(MESSAGE, CENSORED_SPANS + [LINK], true, [LINK]) == Transformed(MESSAGE, CENSORED_SPANS, true, [LINK])
  {
    hide AllValid, StripCensor, Surviving;
    ValidConcat(MESSAGE, CENSORED_SPANS, [LINK]);
  }
}
