/**
 * What a delivery variant shows, field by field: names replaced or masked, the
 * message masked, and stripped of its links if the effects ask for it.
 */
module DeliveryMeaning {
  import opened Wrappers
  import opened Spans
  import opened Utf8Text
  import opened PolicyModel
  import opened Resolver
  import opened Layers
  import opened Censoring
  import opened Stripping
  import opened StripThenCensor
  import opened StripCorrectness
  import opened StripExactness
  import opened Delivery
  import opened Fitting

  // ---- Masking ---------------------------------------------------------------------------------------

  /** Scalar `i` is hidden: it is covered, and not an end of a covered stretch of three or more. */
  predicate Hidden(covered: set<nat>, i: nat) {
    && i in covered
    && !((i == 0 || i - 1 !in covered) && i + 1 in covered && i + 2 in covered)
    && !(i + 1 !in covered && i >= 2 && i - 1 in covered && i - 2 in covered)
  }

  /** The scalars of a text whose first byte some span covers. */
  ghost function CoveredScalars(text: string, spans: seq<ByteSpan>): set<nat> {
    set i: nat | i < |text| && Covers(spans, Offset(text, i))
  }

  /** The text with its covered scalars hidden. */
  ghost predicate MaskedText(text: string, covered: set<nat>, shown: string) {
    |shown| == |text| && forall i :: 0 <= i < |text| ==> shown[i] == if Hidden(covered, i) then '#' else text[i]
  }

  lemma HiddenMeans(s: seq<ByteSpan>, covered: set<nat>, i: nat)
    requires Canonical(s) && forall k: nat :: k in covered <==> Covers(s, k)
    ensures Masked(s, i) <==> Hidden(covered, i)
  {
    MaskByCoverage(s, i);
    hide Covers, Canonical, Masked;
  }

  lemma MaskMeans(text: string, s: seq<ByteSpan>, covered: set<nat>)
    requires Canonical(s) && forall k: nat :: k in covered <==> Covers(s, k)
    ensures MaskedText(text, covered, CensorText(text, s))
  {
    hide Covers, Canonical, Masked, Hidden, CensorText;
    forall i | 0 <= i < |text| ensures CensorText(text, s)[i] == if Hidden(covered, i) then '#' else text[i] {
      HiddenMeans(s, covered, i);
      CensoredAt(text, s, i);
    }
    CensoredLength(text, s);
  }

  lemma CensoredLength(text: string, s: seq<ByteSpan>)
    ensures |CensorText(text, s)| == |text|
  {
  }

  /** Censoring valid spans hides the scalars they cover. */
  lemma CensoredMeans(text: string, spans: seq<ByteSpan>)
    requires AllValid(text, spans)
    ensures Censored(text, spans).Ok? && MaskedText(text, CoveredScalars(text, spans), Censored(text, spans).value)
  {
    hide Covers, Canonical, Masked, CensorText, MaskedText, ValidSpan, Offset;
    CensoredValid(text, spans);
    MergedValid(text, spans);
    MergedCanonical(spans);
    var m := MergedSpans(spans);
    ScalarSpansCanonical(text, m);
    forall k: nat ensures k in CoveredScalars(text, spans) <==> Covers(ScalarSpans(text, m), k) {
      ScalarCovered(text, m, k);
    }
    MaskMeans(text, ScalarSpans(text, m), CoveredScalars(text, spans));
  }

  // ---- Names --------------------------------------------------------------------------------------------

  /** A name is shown as its replacement, else masked by its spans; without either as it is. */
  ghost predicate NameShown(e: DeliveryEffects, s: Surface, text: string, shown: string) {
    && (s in e.nameReplacements ==> shown == e.nameReplacements[s].replacement)
    && (s !in e.nameReplacements ==> MaskedText(text, CoveredScalars(text, SpansAt(e.censorSpans, s)), shown))
    && (s !in e.nameReplacements && SpansAt(e.censorSpans, s) == [] ==> shown == text)
  }

  lemma NameMeans(p: Presentation, e: DeliveryEffects, s: Surface)
    requires FittingEffects(p, e) && IsName(s)
    ensures RenderedName(p, e, s).Ok? && NameShown(e, s, SurfaceText(p, s), RenderedName(p, e, s).value)
  {
    hide ValidSpan, Censored, MaskedText, CoveredScalars;
    var text := SurfaceText(p, s);
    CensoredMeans(text, SpansAt(e.censorSpans, s));
    NothingMasked(text);
  }

  lemma NothingMasked(text: string)
    ensures MaskedText(text, CoveredScalars(text, []), text)
  {
  }

  // ---- The stripped message ---------------------------------------------------------------------------

  /** The positions of the scalars that no link covers, in order. */
  ghost predicate KeptPositions(text: string, urls: seq<ByteSpan>, at: seq<nat>) {
    && (forall k, l :: 0 <= k < l < |at| ==> at[k] < at[l])
    && (forall k :: 0 <= k < |at| ==> at[k] < |text| && !Covers(urls, Offset(text, at[k])))
    && (forall i: nat :: i < |text| && !Covers(urls, Offset(text, i)) ==> i in at)
  }

  /** The censor span shares no byte with a link, and contains byte `b`. */
  ghost predicate CensorsByte(c: ByteSpan, urls: seq<ByteSpan>, b: nat) {
    c.start <= b < c.end && forall u :: u in urls ==> c.end <= u.start || u.end <= c.start
  }

  ghost predicate ByteCensored(censors: seq<ByteSpan>, urls: seq<ByteSpan>, b: nat) {
    exists c :: c in censors && CensorsByte(c, urls, b)
  }

  /** The kept scalars, among the kept ones, that some such censor span covers. */
  ghost function CoveredKept(text: string, censors: seq<ByteSpan>, urls: seq<ByteSpan>, at: seq<nat>): set<nat>
    requires forall k :: 0 <= k < |at| ==> at[k] < |text|
  {
    set k: nat | k < |at| && ByteCensored(censors, urls, Offset(text, at[k]))
  }

  /** The scalars outside the links, hidden as they stand once the links are gone. */
  ghost predicate StrippedShown(text: string, censors: seq<ByteSpan>, urls: seq<ByteSpan>, shown: string) {
    exists at :: KeptPositions(text, urls, at) && ShownAt(text, censors, urls, at, shown)
  }

  ghost predicate ShownAt(text: string, censors: seq<ByteSpan>, urls: seq<ByteSpan>, at: seq<nat>, shown: string)
    requires forall k :: 0 <= k < |at| ==> at[k] < |text|
  {
    && |shown| == |at|
    && forall k :: 0 <= k < |at| ==> shown[k] == if Hidden(CoveredKept(text, censors, urls, at), k) then '#' else text[at[k]]
  }

  /** Where the kept scalar `k` stood. */
  ghost predicate StoodAt(s: string, rc: seq<ByteSpan>, k: nat, i: nat) {
    i < |s| && Outside(rc, i) && !Covers(rc, i) && k == i - RemovedBefore(rc, i)
  }

  lemma StoodOnce(s: string, rc: seq<ByteSpan>, k: nat, i: nat, l: nat, m: nat)
    requires Canonical(rc) && StoodAt(s, rc, k, i) && StoodAt(s, rc, l, m)
    ensures k < l <==> i < m
    ensures k == l <==> i == m
  {
    hide Canonical, Covers, Outside, RemovedBefore;
    if i < m {
      RemovedBeforeMonotone(rc, i, m);
    } else if m < i {
      RemovedBeforeMonotone(rc, m, i);
    }
  }

  lemma Uncovered(rc: seq<ByteSpan>, i: nat)
    requires !Covers(rc, i)
    ensures Outside(rc, i)
  {
    forall k | 0 <= k < |rc| ensures i <= rc[k].start || rc[k].end <= i {
      assert !In(rc[k], i);
    }
  }

  /** Every scalar that is not removed stands at one place of what is kept. */
  lemma Positions(s: string, rc: seq<ByteSpan>) returns (at: seq<nat>)
    requires Canonical(rc) && (rc != [] ==> rc[|rc| - 1].end <= |s|)
    ensures |at| == |Kept(s, rc)| && forall k :: 0 <= k < |at| ==> StoodAt(s, rc, k, at[k]) && Kept(s, rc)[k] == s[at[k]]
    ensures forall k, l :: 0 <= k < l < |at| ==> at[k] < at[l]
    ensures forall i: nat :: i < |s| && !Covers(rc, i) ==> i in at
  {
    hide Canonical, Covers, Outside, RemovedBefore, Kept;
    at := [];
    while |at| < |Kept(s, rc)|
      invariant |at| <= |Kept(s, rc)|
      invariant forall k :: 0 <= k < |at| ==> StoodAt(s, rc, k, at[k]) && Kept(s, rc)[k] == s[at[k]]
    {
      var i := KeptFrom(s, rc, |at|);
      KeptAt(s, rc, i);
      at := at + [i];
    }
    forall k, l | 0 <= k < l < |at| ensures at[k] < at[l] {
      StoodOnce(s, rc, k, at[k], l, at[l]);
    }
    forall i: nat | i < |s| && !Covers(rc, i) ensures i in at {
      Uncovered(rc, i);
      KeptAt(s, rc, i);
      var k := i - RemovedBefore(rc, i);
      StoodOnce(s, rc, k, i, k, at[k]);
      assert at[k] in at;
    }
  }

  /** Byte `Offset(text, i)` is covered by the merged spans exactly when the scalar is. */
  lemma ScalarByte(text: string, spans: seq<ByteSpan>, i: nat)
    requires AllValid(text, spans) && AllValid(text, MergedSpans(spans)) && i < |text|
    ensures Covers(ScalarSpans(text, MergedSpans(spans)), i) <==> Covers(spans, Offset(text, i))
  {
    hide Covers, Canonical, ValidSpan, Offset;
    MergedValid(text, spans);
    MergedCanonical(spans);
    ScalarCovered(text, MergedSpans(spans), i);
  }

  lemma SurvivingCovers(censors: seq<ByteSpan>, urls: seq<ByteSpan>, b: nat)
    ensures Covers(Surviving(censors, urls), b) <==> ByteCensored(censors, urls, b)
  {
    hide Surviving;
    var kept := Surviving(censors, urls);
    SurvivingElements(censors, urls);
    forall c | c in censors ensures !OverlapsAny(c, urls) <==> forall u :: u in urls ==> c.end <= u.start || u.end <= c.start {
      OverlapMeans(c, urls);
    }
    if k: nat :| k < |kept| && In(kept[k], b) {
      assert kept[k] in kept && CensorsByte(kept[k], urls, b);
    }
    if c :| c in censors && CensorsByte(c, urls, b) {
      var k :| 0 <= k < |kept| && kept[k] == c;
      assert In(kept[k], b);
    }
  }

  lemma OverlapMeans(c: ByteSpan, urls: seq<ByteSpan>)
    ensures !OverlapsAny(c, urls) <==> forall u :: u in urls ==> c.end <= u.start || u.end <= c.start
  {
    if OverlapsAny(c, urls) {
      var k :| 0 <= k < |urls| && Overlaps(c, urls[k]);
      assert urls[k] in urls;
    }
  }

  /** Scalar `k` of what is kept is in a run exactly when a censor span covered it where it stood. */
  lemma RunOfKept(rc: seq<ByteSpan>, mc: seq<ByteSpan>, s: string, k: nat, i: nat)
    requires Canonical(rc) && NonEmpty(mc) && Disjoint(mc, rc) && StoodAt(s, rc, k, i)
    requires forall m :: 0 <= m < |mc| ==> mc[m].end <= |s|
    ensures Covers(Remap(rc, mc), k) <==> Covers(mc, i)
  {
    hide Canonical, Outside, RemovedBefore, Remap, NonEmpty, Disjoint;
    if Covers(mc, i) {
      RemapCovers(rc, mc, i);
    }
    if Covers(Remap(rc, mc), k) {
      var x := RemapCovered(rc, mc, k);
      RemapCovers(rc, mc, x);
      assert x < |s|;
      StoodOnce(s, rc, k, i, k, x);
    }
  }

  lemma RunsInside(rc: seq<ByteSpan>, mc: seq<ByteSpan>, s: string, k: nat)
    requires Canonical(rc) && (rc != [] ==> rc[|rc| - 1].end <= |s|) && NonEmpty(mc) && Disjoint(mc, rc)
    requires forall m :: 0 <= m < |mc| ==> mc[m].end <= |s|
    requires Covers(Remap(rc, mc), k)
    ensures k < |Kept(s, rc)|
  {
    hide Canonical, Outside, RemovedBefore, Remap, NonEmpty, Disjoint, Kept;
    var x := RemapCovered(rc, mc, k);
    RemapCovers(rc, mc, x);
    assert x < |s|;
    KeptAt(s, rc, x);
  }

  /** Stripping links and censoring shows exactly the scalars outside the links, hidden as they then stand. */
  lemma StrippedMeans(text: string, censors: seq<ByteSpan>, urls: seq<ByteSpan>)
    requires AllValid(text, urls) && AllValid(text, censors)
    ensures Transformed(text, censors, true, urls).Ok? && StrippedShown(text, censors, urls, Transformed(text, censors, true, urls).value)
  {
    hide Canonical, NonEmpty, Disjoint, Remap, Covers, CensorText, Transformed, Kept, StoodAt, ValidSpan, Offset, MaskedText, Hidden, ByteCensored;
    var mc, rc := Runs(text, censors, urls), Links(text, urls);
    var j := StrippedText(text, censors, urls);
    var cut := Kept(text, rc);
    var at := Positions(text, rc);
    PositionsKept(text, urls, rc, at);
    var covered := CoveredKept(text, censors, urls, at);
    forall k: nat ensures k in covered <==> Covers(j, k) {
      if k < |at| {
        RunOfKept(rc, mc, text, k, at[k]);
        CensoredRun(text, censors, urls, at[k]);
      } else if Covers(Remap(rc, mc), k) {
        RunsInside(rc, mc, text, k);
      }
    }
    MaskMeans(cut, j, covered);
    MaskedAt(cut, covered, CensorText(cut, j), text, censors, urls, at);
  }

  lemma PositionsKept(text: string, urls: seq<ByteSpan>, rc: seq<ByteSpan>, at: seq<nat>)
    requires AllValid(text, urls) && rc == Links(text, urls)
    requires forall k :: 0 <= k < |at| ==> StoodAt(text, rc, k, at[k])
    requires forall k, l :: 0 <= k < l < |at| ==> at[k] < at[l]
    requires forall i: nat :: i < |text| && !Covers(rc, i) ==> i in at
    ensures KeptPositions(text, urls, at)
  {
    hide Canonical, Covers, ValidSpan, Offset, Outside, RemovedBefore;
    MergedValid(text, urls);
    forall i: nat | i < |text| ensures Covers(rc, i) <==> Covers(urls, Offset(text, i)) {
      ScalarByte(text, urls, i);
    }
  }

  lemma CensoredRun(text: string, censors: seq<ByteSpan>, urls: seq<ByteSpan>, i: nat)
    requires AllValid(text, urls) && AllValid(text, censors) && i < |text|
    ensures Covers(Runs(text, censors, urls), i) <==> ByteCensored(censors, urls, Offset(text, i))
  {
    hide Canonical, Covers, ValidSpan, Offset, ByteCensored, Surviving;
    SurvivingDisjoint(text, censors, urls);
    MergedValid(text, Surviving(censors, urls));
    ScalarByte(text, Surviving(censors, urls), i);
    SurvivingCovers(censors, urls, Offset(text, i));
  }

  lemma MaskedAt(cut: string, covered: set<nat>, shown: string, text: string, censors: seq<ByteSpan>, urls: seq<ByteSpan>, at: seq<nat>)
    requires KeptPositions(text, urls, at) && covered == CoveredKept(text, censors, urls, at) && MaskedText(cut, covered, shown)
    requires |at| == |cut| && forall k :: 0 <= k < |at| ==> cut[k] == text[at[k]]
    ensures StrippedShown(text, censors, urls, shown)
  {
    hide Hidden, ByteCensored, Covers, Offset;
    assert ShownAt(text, censors, urls, at, shown);
  }

  // ---- The variant ---------------------------------------------------------------------------------------

  /** The message is masked by its spans; or, if links are stripped, what is left of it is. */
  ghost predicate MessageShown(p: Presentation, e: DeliveryEffects, shown: string) {
    var spans := SpansAt(e.censorSpans, MessageContent);
    && (!e.stripLinks ==> MaskedText(p.messageContent, CoveredScalars(p.messageContent, spans), shown))
    && (e.stripLinks ==> StrippedShown(p.messageContent, spans, p.urlSpans, shown))
  }

  lemma LinkSpansIgnored(text: string, spans: seq<ByteSpan>, urls: seq<ByteSpan>, shown: string)
    requires NonEmpty(urls) && StrippedShown(text, spans + urls, urls, shown)
    ensures StrippedShown(text, spans, urls, shown)
  {
    hide Hidden, Covers, Offset;
    forall b: nat ensures ByteCensored(spans + urls, urls, b) <==> ByteCensored(spans, urls, b) {
      if c :| c in spans + urls && CensorsByte(c, urls, b) {
        if c in urls {
          assert false;
        }
        assert c in spans;
      }
      if c :| c in spans && CensorsByte(c, urls, b) {
        assert c in spans + urls;
      }
    }
    hide ByteCensored;
    var at :| KeptPositions(text, urls, at) && ShownAt(text, spans + urls, urls, at, shown);
    assert CoveredKept(text, spans + urls, urls, at) == CoveredKept(text, spans, urls, at);
    assert ShownAt(text, spans, urls, at, shown);
  }

  lemma MessageMeans(p: Presentation, e: DeliveryEffects)
    requires FittingEffects(p, e) && AllValid(p.messageContent, p.urlSpans)
    ensures RenderedMessage(p, e).Ok? && MessageShown(p, e, RenderedMessage(p, e).value)
  {
    hide ValidSpan, Censored, StripCensor, MaskedText, StrippedShown, CoveredScalars, ValidateSpans, Surviving;
    var spans := SpansAt(e.censorSpans, MessageContent);
    assert AllValid(SurfaceText(p, MessageContent), spans);
    if e.stripLinks {
      ValidConcat(p.messageContent, spans, p.urlSpans);
      StrippedMeans(p.messageContent, spans + p.urlSpans, p.urlSpans);
      MergedValid(p.messageContent, p.urlSpans);
      LinkSpansIgnored(p.messageContent, spans, p.urlSpans, RenderedMessage(p, e).value);
    } else {
      assert spans + [] == spans;
      CensoredMeans(p.messageContent, spans);
      NothingMasked(p.messageContent);
    }
  }

  /** What every field of a variant shows, for effects that fit the presentation. */
  lemma VariantMeans(p: Presentation, e: DeliveryEffects)
    requires FittingEffects(p, e) && AllValid(p.messageContent, p.urlSpans)
    ensures Materialized(p, e).Ok?
    ensures var v := Materialized(p, e).value;
      && MessageShown(p, e, v.messageContent) && v.suppressLinks == e.suppressLinks
      && NameShown(e, DisplayName, p.displayName, v.displayName) && NameShown(e, Username, p.username, v.username)
      && NameShown(e, ServerName, p.serverName, v.serverName) && NameShown(e, HubName, p.hubName, v.hubName)
  {
    hide FittingEffects, AllValid, RenderedName, RenderedMessage, VariantBytes, NameShown, MessageShown;
    MessageMeans(p, e);
    NameMeans(p, e, DisplayName);
    NameMeans(p, e, Username);
    NameMeans(p, e, ServerName);
    NameMeans(p, e, HubName);
  }
}
