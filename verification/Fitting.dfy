/**
 * Reported spans fit the text they are reported on. Views attribute every
 * scalar to a valid span of the source, so matches, layers and composed layers
 * carry valid spans, and transforming an analyzed message never fails.
 */
module Fitting {
  import opened Wrappers
  import opened Sorting
  import opened Spans
  import opened PolicyModel
  import opened TextTables
  import opened Matcher
  import opened PatternSharing
  import opened Resolver
  import opened Layers
  import opened Compiler
  import opened Evaluation
  import opened TwoPass
  import opened Censoring
  import StripCorrectness
  import StripThenCensor
  import opened Delivery
  import opened Remapping
  import opened Rendering

  ghost predicate ViewFits(text: string, v: View) { AllValid(text, v.source) }

  /**
   * The analysis of a presentation: what `NormalizedViews.NewNormalizedText`,
   * `MaskedLinks.SecurityMapped` and `UrlScanner.ExtractedLinksStrip` ensure of
   * each surface's views and of the message's links. The domains' own view,
   * whose spans are never applied, is not constrained.
   */
  ghost predicate AnalyzedFrom(a: Analyzed, p: Presentation) {
    && AnalyzedOk(a) && AllValid(p.messageContent, p.urlSpans)
    && (forall s :: s in a.normalized && s != UrlDomain ==> ViewFits(SurfaceText(p, s), a.normalized[s]))
    && (forall s :: s in a.security && s != UrlDomain ==> ViewFits(SurfaceText(p, s), a.security[s]))
  }

  // ---- What a match reports -----------------------------------------------------------------------

  ghost predicate Fits(p: Presentation, s: Surface, x: ByteSpan) { s != UrlDomain ==> ValidSpan(SurfaceText(p, s), x) }

  lemma HitSpanFits(t: Tables, text: string, v: View, excluded: seq<ByteSpan>, d: PatternDefinition, x: ByteSpan)
    requires ViewOk(v) && ViewFits(text, v) && x in HitSpans(t, v, excluded, d)
    ensures ValidSpan(text, x)
  {
    hide ValidSpan;
    var i: nat, j: nat :| i <= |v.text| && j <= |v.text| && Hit(t, v, excluded, d, i, j) && SourceSpan(v, i, j) == x;
    HullValid(text, v.source[i..j]);
  }

  lemma SurfaceResultFits(t: Tables, a: Analyzed, p: Presentation, rule: PolicyRule, s: Surface, x: ByteSpan)
    requires AnalyzedFrom(a, p) && s in a.normalized && x in SurfaceResult(t, a, rule, s, false).spans
    ensures Fits(p, s, x)
  {
    hide NeedsDetails, RulePatternIds, ValidSpan, HitSpans;
    InputForOk(a, s);
    var input := InputFor(a, s);
    assert x in RuleSpans(t, input, rule);
    var q :| q in rule.patterns && x in DefinitionSpans(t, input, DefinitionOf(rule.id, q));
    var d := DefinitionOf(rule.id, q);
    if s != UrlDomain {
      if x in HitSpans(t, input.canonical, [], d) {
        HitSpanFits(t, SurfaceText(p, s), input.canonical, [], d, x);
      } else {
        HitSpanFits(t, SurfaceText(p, s), input.security.value, input.excluded, d, x);
      }
    }
  }

  lemma {:induction false} ResultsFit(t: Tables, a: Analyzed, p: Presentation, rule: PolicyRule, n: nat, k: MatchedSurface, x: ByteSpan)
    requires AnalyzedOk(a) && AnalyzedFrom(a, p) && n <= 6 && k in SurfaceResults(t, a, rule, false, n) && x in k.spans
    ensures Fits(p, k.surface, x)
  {
    hide HitOn, AnalyzedOk, AnalyzedFrom, SurfaceResult, Fits;
    if n > 0 {
      var s := ALL_SURFACES[n - 1];
      if k in SurfaceResults(t, a, rule, false, n - 1) {
        ResultsFit(t, a, p, rule, n - 1, k, x);
      } else {
        HitIsNormalized(t, a, rule, s);
        SurfaceResultFits(t, a, p, rule, s, x);
        SurfaceOfResult(t, a, rule, s);
      }
    }
  }

  lemma SurfaceOfResult(t: Tables, a: Analyzed, rule: PolicyRule, s: Surface)
    requires AnalyzedOk(a) && s in a.normalized
    ensures SurfaceResult(t, a, rule, s, false).surface == s
  {
  }

  /** Every span of every matched rule is a valid span of its surface's text. */
  ghost predicate FittingMatches(p: Presentation, matched: seq<MatchedRule>) {
    forall m, s, x :: m in matched && SpanOn(m, s, x) ==> Fits(p, s, x)
  }

  lemma EvaluatedFits(t: Tables, a: Analyzed, p: Presentation, snap: Snapshot)
    requires AnalyzedOk(a) && AnalyzedFrom(a, p)
    ensures FittingMatches(p, Evaluated(t, a, snap, false))
  {
    hide AnalyzedOk, AnalyzedFrom, TriggeredRules, SurfaceResults, SortedKeys, Fits;
    TriggeredAreRules(t, a, snap.rules);
    var e := Evaluated(t, a, snap, false);
    forall m, s, x | m in e && SpanOn(m, s, x) ensures Fits(p, s, x) {
      var k :| k in m.surfaces && k.surface == s && x in k.spans;
      var i :| 0 <= i < |e| && e[i] == m;
      var ids := SortedKeys(TriggeredRules(t, a, snap.rules));
      assert ids[i] in ids;
      ResultsFit(t, a, p, snap.rules[ids[i]], 6, k, x);
    }
  }

  // ---- Layers -------------------------------------------------------------------------------------------

  /** The censor spans of every surface that is shown are valid spans of its text. */
  ghost predicate FittingEffects(p: Presentation, e: DeliveryEffects) {
    forall s :: s != UrlDomain ==> AllValid(SurfaceText(p, s), SpansAt(e.censorSpans, s))
  }

  lemma ReportsFit(p: Presentation, matched: seq<MatchedRule>, t: ActionType, s: Surface, x: ByteSpan)
    requires FittingMatches(p, matched) && Reports(matched, t, s, x)
    ensures Fits(p, s, x)
  {
    hide Fits;
  }

  lemma ResolvedFits(p: Presentation, scope: PolicyScope, matched: seq<MatchedRule>)
    requires FittingMatches(p, matched)
    ensures FittingEffects(p, Resolved(scope, matched).delivery)
  {
    hide FittingMatches, Resolved, MergedSpans, Canonical, Reports, Censors, Steps, Sort, ValidSpan;
    var e := Resolved(scope, matched).delivery;
    var c := Censors(Steps(Sort(matched, RuleLeq)));
    forall s | s != UrlDomain ensures AllValid(SurfaceText(p, s), SpansAt(e.censorSpans, s)) {
      CensorsOfDelivery(scope, matched, s);
      if s in e.censorSpans {
        forall i | 0 <= i < |SpansAt(c, s)| ensures ValidSpan(SurfaceText(p, s), SpansAt(c, s)[i]) {
          ResolvedCensors(scope, matched, s, SpansAt(c, s)[i]);
          ReportsFit(p, matched, CensorMatch, s, SpansAt(c, s)[i]);
        }
        StripCorrectness.MergedValid(SurfaceText(p, s), SpansAt(c, s));
      }
    }
  }

  lemma {:induction false} LayeredFits(p: Presentation, layers: seq<DeliveryEffects>)
    requires forall i :: 0 <= i < |layers| ==> FittingEffects(p, layers[i])
    ensures FittingEffects(p, Layered(layers))
  {
    hide JoinSpans, SpansAt, ValidSpan;
    if layers == [] {
      NothingToFit(p);
    } else {
      var n := |layers| - 1;
      LayeredFits(p, layers[..n]);
      forall s | s != UrlDomain ensures AllValid(SurfaceText(p, s), SpansAt(Layered(layers).censorSpans, s)) {
        JoinSpansAt(Layered(layers[..n]).censorSpans, layers[n].censorSpans, s);
      }
    }
  }

  lemma NothingToFit(p: Presentation)
    ensures FittingEffects(p, NO_EFFECTS)
  {
  }

  lemma ComposedFits(p: Presentation, layers: seq<DeliveryEffects>)
    requires forall i :: 0 <= i < |layers| ==> FittingEffects(p, layers[i])
    ensures FittingEffects(p, Composed(layers))
  {
    hide Layered, MergedSpans, ValidSpan, Finish, Sort, SpansAt;
    LayeredFits(p, layers);
    var raw, e := Layered(layers), Composed(layers);
    forall s | s != UrlDomain ensures AllValid(SurfaceText(p, s), SpansAt(e.censorSpans, s)) {
      if e.blockedBy == [] {
        FinishAt(e.blockedBy, raw.censorSpans, s);
        StripCorrectness.MergedValid(SurfaceText(p, s), SpansAt(raw.censorSpans, s));
      } else {
        FinishBlocked(e.blockedBy, raw.censorSpans);
        NothingAt(s);
      }
    }
  }

  lemma NothingAt(s: Surface)
    ensures SpansAt(map[], s) == []
  {
  }

  // ---- Transforming never fails ---------------------------------------------------------------------------

  lemma NameFits(p: Presentation, e: DeliveryEffects, s: Surface)
    requires FittingEffects(p, e) && IsName(s)
    ensures RenderedName(p, e, s).Ok?
  {
    hide ValidSpan, Censored;
    StripCorrectness.CensoredValid(SurfaceText(p, s), SpansAt(e.censorSpans, s));
  }

  lemma MessageFits(p: Presentation, e: DeliveryEffects)
    requires FittingEffects(p, e) && AllValid(p.messageContent, p.urlSpans)
    ensures RenderedMessage(p, e).Ok?
  {
    hide ValidSpan, Censored, StripThenCensor.StripCensor;
    var spans := SpansAt(e.censorSpans, MessageContent);
    assert AllValid(SurfaceText(p, MessageContent), spans);
    if e.stripLinks {
      ValidConcat(p.messageContent, spans, p.urlSpans);
      StripCorrectness.StripSucceedsIff(p.messageContent, spans + p.urlSpans, p.urlSpans);
    } else {
      assert spans + [] == spans;
      StripCorrectness.CensoredValid(p.messageContent, spans);
    }
  }

  /** Effects that fit always have a variant. */
  lemma FittingMaterializes(p: Presentation, e: DeliveryEffects)
    requires FittingEffects(p, e) && AllValid(p.messageContent, p.urlSpans)
    ensures Materialized(p, e).Ok?
  {
    hide FittingEffects, AllValid, RenderedName, RenderedMessage, VariantBytes;
    MessageFits(p, e);
    NameFits(p, e, DisplayName);
    NameFits(p, e, Username);
    NameFits(p, e, ServerName);
    NameFits(p, e, HubName);
  }

  /** The layer of a snapshot, evaluated on an analyzed message, fits it. */
  lemma LayerFits(t: Tables, a: Analyzed, p: Presentation, snap: Snapshot)
    requires AnalyzedOk(a) && AnalyzedFrom(a, p)
    ensures FittingEffects(p, Resolved(snap.scope, Evaluated(t, a, snap, false)).delivery)
  {
    hide AnalyzedOk, AnalyzedFrom, Evaluated, FittingMatches, FittingEffects, Resolved;
    EvaluatedFits(t, a, p, snap);
    ResolvedFits(p, snap.scope, Evaluated(t, a, snap, false));
  }
}
