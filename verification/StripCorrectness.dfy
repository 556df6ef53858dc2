/**
 * Stripping links and then censoring is coordinate-correct: valid spans never
 * cause an error, every surviving span selects the same text before and after
 * the links are cut, and the result is the censored original with the links
 * deleted whenever cutting a link makes no two censored runs touch.
 */
module StripCorrectness {
  import opened Wrappers
  import opened Spans
  import opened Utf8Text
  import opened Censoring
  import opened Stripping
  import opened StripThenCensor

  // ---- Valid spans stay valid under merging --------------------------------

  lemma AbsorbValid(s: string, m: seq<ByteSpan>, x: ByteSpan)
    requires AllValid(s, m) && ValidSpan(s, x)
    requires m != [] ==> m[|m| - 1].start <= x.start
    ensures AllValid(s, Absorb(m, x))
  {
    hide ScalarAt, ByteLen;
  }

  lemma {:induction false} CoalesceValid(s: string, sorted: seq<ByteSpan>)
    requires Sorting.Sorted(sorted, SpanLeq) && NonEmpty(sorted) && AllValid(s, sorted)
    ensures AllValid(s, Coalesce(sorted))
  {
    hide ScalarAt, ByteLen, Absorb;
    if sorted != [] {
      var n := |sorted| - 1;
      SortedFront(sorted);
      CoalesceValid(s, sorted[..n]);
      CoalesceCorrect(sorted[..n]);
      AbsorbValid(s, Coalesce(sorted[..n]), sorted[n]);
    }
  }

  lemma MergedValid(s: string, spans: seq<ByteSpan>)
    requires AllValid(s, spans)
    ensures NonEmpty(spans) && AllValid(s, MergedSpans(spans)) && Canonical(MergedSpans(spans))
  {
    Sorting.SortCorrect(spans, SpanLeq);
    var sorted := Sorting.Sort(spans, SpanLeq);
    assert forall k :: 0 <= k < |sorted| ==> sorted[k] in spans;
    MergedCanonical(spans);
    CoalesceValid(s, sorted);
  }

  /** Censoring valid spans succeeds and masks exactly their merged runs. */
  lemma CensoredValid(s: string, spans: seq<ByteSpan>)
    requires AllValid(s, spans)
    ensures AllValid(s, MergedSpans(spans)) && Canonical(MergedSpans(spans))
    ensures Censored(s, spans) == Ok(CensorText(s, ScalarSpans(s, MergedSpans(spans))))
  {
    MergedValid(s, spans);
  }

  // ---- Surviving spans ------------------------------------------------------

  lemma {:induction false} SurvivingElements(censors: seq<ByteSpan>, urls: seq<ByteSpan>)
    ensures forall x :: x in Surviving(censors, urls) <==> x in censors && !OverlapsAny(x, urls)
  {
    if censors != [] {
      SurvivingElements(censors[1..], urls);
      assert censors == [censors[0]] + censors[1..];
    }
  }

  lemma OverlapsMerged(x: ByteSpan, urls: seq<ByteSpan>)
    requires NonEmpty(urls) && x.start < x.end
    ensures OverlapsAny(x, MergedSpans(urls)) <==> OverlapsAny(x, urls)
  {
    MergedCanonical(urls);
    CanonicalNonEmpty(MergedSpans(urls));
    SharesByte(x, urls);
    SharesByte(x, MergedSpans(urls));
  }

  lemma SharesByte(x: ByteSpan, urls: seq<ByteSpan>)
    requires NonEmpty(urls) && x.start < x.end
    ensures OverlapsAny(x, urls) <==> exists b :: In(x, b) && Covers(urls, b)
  {
    if k: nat :| k < |urls| && Overlaps(x, urls[k]) {
      var b := Max(x.start, urls[k].start);
      CoversAt(urls, k, b);
      assert In(x, b);
    }
    if b: nat :| In(x, b) && Covers(urls, b) {
      var k :| 0 <= k < |urls| && In(urls[k], b);
      assert Overlaps(x, urls[k]);
    }
  }

  lemma SurvivingDisjoint(s: string, censors: seq<ByteSpan>, urls: seq<ByteSpan>)
    requires AllValid(s, censors) && AllValid(s, urls)
    ensures var kept := Surviving(censors, urls);
      AllValid(s, kept) && NonEmpty(kept) && Disjoint(kept, MergedSpans(urls))
  {
    var kept := Surviving(censors, urls);
    SurvivingElements(censors, urls);
    forall k | 0 <= k < |kept|
      ensures ValidSpan(s, kept[k]) && !OverlapsAny(kept[k], MergedSpans(urls))
    {
      assert kept[k] in kept;
      var c :| 0 <= c < |censors| && censors[c] == kept[k];
      OverlapsMerged(kept[k], urls);
    }
  }

  // ---- The same text before and after ---------------------------------------

  lemma ScalarSpansAligned(s: string, r: seq<ByteSpan>)
    requires AllValid(s, r) && Canonical(r)
    ensures Aligned(s, ScalarSpans(s, r), r) && Canonical(ScalarSpans(s, r))
  {
    ScalarSpansCanonical(s, r);
    var rc := ScalarSpans(s, r);
    assert forall k :: 0 <= k < |r| ==> rc[k].start < rc[k].end;
  }

  /** Overlap is the same question in bytes and in scalars. */
  lemma ScalarsDisjoint(s: string, r: seq<ByteSpan>, x: ByteSpan)
    requires AllValid(s, r) && ValidSpan(s, x) && !OverlapsAny(x, r)
    ensures !OverlapsAny(Scalars(s, x), ScalarSpans(s, r)) && Scalars(s, x).start < Scalars(s, x).end
  {
    hide ScalarAt, ByteLen;
    ScalarOrder(s, x.start, x.end);
    forall k | 0 <= k < |r| ensures !Overlaps(Scalars(s, x), ScalarSpans(s, r)[k]) {
      assert ValidSpan(s, r[k]) && !Overlaps(x, r[k]);
      ScalarOrder(s, x.start, r[k].end);
      ScalarOrder(s, r[k].start, x.end);
    }
  }

  /** One end of a span: subtracting bytes finds the subtracted scalar. */
  lemma ShiftedScalar(s: string, rc: seq<ByteSpan>, r: seq<ByteSpan>, i: nat)
    requires Canonical(rc) && Canonical(r) && Aligned(s, rc, r) && i <= |s| && Outside(rc, i)
    ensures i - RemovedBefore(rc, i) >= 0 && Offset(s, i) - RemovedBefore(r, Offset(s, i)) >= 0
    ensures IsBoundary(Kept(s, rc), Offset(s, i) - RemovedBefore(r, Offset(s, i)))
    ensures Scalar(Kept(s, rc), Offset(s, i) - RemovedBefore(r, Offset(s, i))) == i - RemovedBefore(rc, i)
    ensures Offset(s, i) - RemovedBefore(r, Offset(s, i)) <= ByteLen(Kept(s, rc))
  {
    hide Canonical, Aligned, Outside, ScalarAt, ByteLen, Kept, RemovedBefore;
    OffsetKept(s, rc, r, i);
    ScalarOfOffset(Kept(s, rc), i - RemovedBefore(rc, i));
    OffsetBound(Kept(s, rc), i - RemovedBefore(rc, i));
  }

  /** Shifting commutes with the change from bytes to scalars. */
  lemma ShiftedScalars(s: string, r: seq<ByteSpan>, x: ByteSpan)
    requires AllValid(s, r) && Canonical(r) && ValidSpan(s, x) && !OverlapsAny(x, r)
    ensures Canonical(ScalarSpans(s, r))
    ensures ValidSpan(CutText(s, r), Shift(r, x))
    ensures Scalars(CutText(s, r), Shift(r, x)) == Shift(ScalarSpans(s, r), Scalars(s, x))
  {
    hide Canonical, AllValid, ScalarAt, ByteLen, Kept, RemovedBefore, OverlapsAny, Outside, Aligned, ScalarSpans;
    ScalarSpansAligned(s, r);
    ScalarsDisjoint(s, r, x);
    var rc, c := ScalarSpans(s, r), Scalars(s, x);
    ConstantShift(rc, c, c.start);
    ConstantShift(rc, c, c.end);
    ShiftedScalar(s, rc, r, c.start);
    ShiftedScalar(s, rc, r, c.end);
    ShiftLength(r, x);
  }

  lemma ShiftedText(s: string, rc: seq<ByteSpan>, c: ByteSpan)
    requires Canonical(rc) && (rc != [] ==> rc[|rc| - 1].end <= |s|)
    requires !OverlapsAny(c, rc) && c.start < c.end <= |s|
    ensures Shift(rc, c).start < Shift(rc, c).end <= |Kept(s, rc)|
    ensures Kept(s, rc)[Shift(rc, c).start..Shift(rc, c).end] == s[c.start..c.end]
  {
    hide Canonical, Kept, RemovedBefore, OverlapsAny, Outside, Covers;
    ShiftLength(rc, c);
    forall i | c.start <= i < c.end
      ensures 0 <= i - RemovedBefore(rc, c.start) < |Kept(s, rc)|
      ensures Kept(s, rc)[i - RemovedBefore(rc, c.start)] == s[i]
    {
      ConstantShift(rc, c, i);
      KeptAt(s, rc, i);
    }
    ConstantShift(rc, c, c.end - 1);
    KeptAt(s, rc, c.end - 1);
  }

  /** A censor span that survives selects the same text, on character boundaries, after the cut. */
  lemma RemappedSpanSelectsSameText(original: string, urls: seq<ByteSpan>, x: ByteSpan)
    requires AllValid(original, urls) && ValidSpan(original, x) && !OverlapsAny(x, urls)
    ensures var r := MergedSpans(urls);
      AllValid(original, r) && Canonical(r) && !OverlapsAny(x, r)
      && ValidSpan(CutText(original, r), Shift(r, x))
      && Slice(CutText(original, r), Shift(r, x).start, Shift(r, x).end) == Slice(original, x.start, x.end)
  {
    var r := MergedSpans(urls);
    MergedValid(original, urls);
    OverlapsMerged(x, urls);
    ShiftedScalars(original, r, x);
    ScalarsDisjoint(original, r, x);
    ScalarSpansCanonical(original, r);
    ShiftedText(original, ScalarSpans(original, r), Scalars(original, x));
  }

  // ---- The censored original with the links deleted ---------------------------

  /** A surviving scalar is masked after the cut iff it was masked before. */
  lemma MaskShift(rc: seq<ByteSpan>, k: ByteSpan, i: nat)
    requires Canonical(rc) && !OverlapsAny(k, rc) && k.start < k.end
    requires Outside(rc, i) && !Covers(rc, i)
    ensures i - RemovedBefore(rc, i) >= 0
    ensures InMask(Shift(rc, k), i - RemovedBefore(rc, i)) <==> InMask(k, i)
  {
    hide Canonical, OverlapsAny, RemovedBefore;
    ShiftLength(rc, k);
    RemovedBeforeBound(rc, i);
    ConstantShift(rc, k, k.start);
    ConstantShift(rc, k, k.end);
    if i < k.start {
      RemovedBeforeMonotone(rc, i, k.start);
    } else if i < k.end {
      ConstantShift(rc, k, i);
    } else if k.end < i {
      RemovedBeforeMonotone(rc, k.end, i);
    }
  }

  lemma MaskedShift(rc: seq<ByteSpan>, kc: seq<ByteSpan>, i: nat)
    requires Canonical(rc) && NonEmpty(kc) && Disjoint(kc, rc)
    requires Outside(rc, i) && !Covers(rc, i)
    ensures i - RemovedBefore(rc, i) >= 0
    ensures Masked(Remap(rc, kc), i - RemovedBefore(rc, i)) <==> Masked(kc, i)
  {
    RemapAll(rc, kc);
    RemovedBeforeBound(rc, i);
    var q := Remap(rc, kc);
    forall k | 0 <= k < |kc| ensures InMask(q[k], i - RemovedBefore(rc, i)) <==> InMask(kc[k], i) {
      MaskShift(rc, kc[k], i);
    }
  }

  /** Cutting and censoring commute on scalars. */
  lemma CensorCutCommute(s: string, rc: seq<ByteSpan>, kc: seq<ByteSpan>)
    requires Canonical(rc) && (rc != [] ==> rc[|rc| - 1].end <= |s|)
    requires NonEmpty(kc) && Disjoint(kc, rc)
    ensures CensorText(Kept(s, rc), Remap(rc, kc)) == Kept(CensorText(s, kc), rc)
  {
    hide Canonical, Kept, RemovedBefore, Disjoint, Outside, Covers, Masked, Remap, NonEmpty;
    var left, right := CensorText(Kept(s, rc), Remap(rc, kc)), Kept(CensorText(s, kc), rc);
    SameLength(s, CensorText(s, kc), rc);
    forall j | 0 <= j < |left| ensures left[j] == right[j] {
      var i := KeptFrom(s, rc, j);
      KeptAt(s, rc, i);
      KeptAt(CensorText(s, kc), rc, i);
      MaskedShift(rc, kc, i);
    }
  }

  lemma {:induction false} SameLength(s: string, t: string, rc: seq<ByteSpan>)
    requires |s| == |t|
    ensures |Kept(s, rc)| == |Kept(t, rc)|
    decreases |rc|
  {
    if rc != [] && rc[|rc| - 1].start <= rc[|rc| - 1].end <= |s| {
      SameLength(s[..rc[|rc| - 1].start], t[..rc[|rc| - 1].start], rc[..|rc| - 1]);
    }
  }

  /** Remapped runs, in scalars of the cut text, are the remapped scalar runs. */
  lemma RemappedRuns(s: string, r: seq<ByteSpan>, m: seq<ByteSpan>)
    requires AllValid(s, r) && Canonical(r) && AllValid(s, m) && NonEmpty(m) && Disjoint(m, r)
    ensures AllValid(CutText(s, r), Remap(r, m))
    ensures Canonical(ScalarSpans(s, r)) && Disjoint(ScalarSpans(s, m), ScalarSpans(s, r))
    ensures NonEmpty(ScalarSpans(s, m))
    ensures ScalarSpans(CutText(s, r), Remap(r, m)) == Remap(ScalarSpans(s, r), ScalarSpans(s, m))
  {
    hide ScalarAt, ByteLen, Kept, RemovedBefore, OverlapsAny, Remap;
    RemapAll(r, m);
    ScalarSpansCanonical(s, r);
    var rc, mc := ScalarSpans(s, r), ScalarSpans(s, m);
    forall k | 0 <= k < |m|
      ensures ValidSpan(CutText(s, r), Remap(r, m)[k])
      ensures !OverlapsAny(mc[k], rc) && mc[k].start < mc[k].end
      ensures Scalars(CutText(s, r), Remap(r, m)[k]) == Shift(rc, mc[k])
    {
      hide Canonical;
      ShiftedScalars(s, r, m[k]);
      ScalarsDisjoint(s, r, m[k]);
    }
    RemapAll(rc, mc);
  }

  /** Valid spans never make the strip branch fail; an invalid one always does. */
  lemma StripSucceedsIff(original: string, censor: seq<ByteSpan>, urls: seq<ByteSpan>)
    ensures Transformed(original, censor, true, urls).Ok? <==> AllValid(original, urls) && AllValid(original, censor)
  {
    if AllValid(original, urls) && AllValid(original, censor) {
      var kept, r := Surviving(censor, urls), MergedSpans(urls);
      SurvivingDisjoint(original, censor, urls);
      CensoredValid(original, kept);
      MergedValid(original, urls);
      RemappedRuns(original, r, kept);
      CensoredValid(CutText(original, r), Remap(r, kept));
    }
  }

  /**
   * Stripping links and censoring the rest gives the censored original with the
   * links deleted, when no link is the whole gap between two censored runs.
   */
  lemma StripThenCensorCorrect(original: string, censor: seq<ByteSpan>, urls: seq<ByteSpan>)
    requires AllValid(original, urls) && AllValid(original, censor)
    requires !NewlyTouching(MergedSpans(Surviving(censor, urls)), MergedSpans(urls))
    ensures var runs := MergedSpans(Surviving(censor, urls)); var links := MergedSpans(urls);
      AllValid(original, runs) && AllValid(original, links)
      && Transformed(original, censor, true, urls)
         == Ok(Kept(CensorText(original, ScalarSpans(original, runs)), ScalarSpans(original, links)))
  {
    var kept, r := Surviving(censor, urls), MergedSpans(urls);
    SurvivingDisjoint(original, censor, urls);
    CensoredValid(original, kept);
    MergedValid(original, urls);
    var m := MergedSpans(kept);
    MergedDisjoint(r, kept);
    CanonicalNonEmpty(m);
    hide Canonical, NonEmpty, AllValid, Disjoint, Remap, ScalarAt, ByteLen;
    RemappedRuns(original, r, kept);
    RemappedRuns(original, r, m);
    CensoredValid(CutText(original, r), Remap(r, kept));
    MergeRemapCommute(r, kept);
    LinksInRange(original, r);
    CensorCutCommute(original, ScalarSpans(original, r), ScalarSpans(original, m));
    NoLinks(urls, CensorText(original, ScalarSpans(original, m)), ScalarSpans(original, r));
  }

  lemma LinksInRange(s: string, r: seq<ByteSpan>)
    requires AllValid(s, r) && Canonical(r)
    ensures var rc := ScalarSpans(s, r); rc != [] ==> rc[|rc| - 1].end <= |s|
  {
    ScalarSpansCanonical(s, r);
  }

  lemma NoLinks(urls: seq<ByteSpan>, text: string, rc: seq<ByteSpan>)
    requires |rc| == |MergedSpans(urls)|
    ensures urls == [] ==> Kept(text, rc) == text
  {
  }
}
