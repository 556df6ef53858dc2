/**
 * Exactly when stripping links and then censoring gives the censored original
 * with the links deleted. Cutting a link can join censored runs; the joined run
 * is masked as one, which changes only scalars at the ends of the runs it joins.
 * The two results are equal if and only if each of those scalars is '#' already.
 */
module StripExactness {
  import opened Wrappers
  import opened Spans
  import opened Utf8Text
  import opened Censoring
  import opened Stripping
  import opened StripThenCensor
  import opened StripCorrectness

  // ---- Where joining runs changes the mask ----------------------------------------------------

  /** Ascending runs that may touch. */
  ghost predicate InOrder(q: seq<ByteSpan>) {
    NonEmpty(q) && forall i, j :: 0 <= i < j < |q| ==> q[i].end <= q[j].start
  }

  /** The runs that begin where the one before ends. */
  ghost function Touching(q: seq<ByteSpan>): set<nat> {
    set k: nat | 0 < k < |q| && q[k - 1].end == q[k].start
  }

  /** The runs that a cut joins to the one before: a link is the whole gap between the two. */
  ghost function Joined(runs: seq<ByteSpan>, links: seq<ByteSpan>): set<nat> {
    set k: nat | 0 < k < |runs| && ByteSpan(runs[k - 1].end, runs[k].start) in links
  }

  ghost predicate Size(q: seq<ByteSpan>, k: nat, n: nat) { k < |q| && q[k].end - q[k].start >= n }

  /**
   * Joining changes whether the first scalar of run `k` is masked. A long run
   * shows it and hides it when joined on the left. A run of one or two hides it,
   * and shows it when it comes to begin a joined run of at least three.
   */
  ghost predicate FirstChanges(q: seq<ByteSpan>, joined: set<nat>, k: nat) {
    if Size(q, k, 3) then k in joined
    else k !in joined && k + 1 in joined && (Size(q, k, 2) || Size(q, k + 1, 2) || k + 2 in joined)
  }

  ghost predicate LastChanges(q: seq<ByteSpan>, joined: set<nat>, k: nat) {
    if Size(q, k, 3) then k + 1 in joined
    else k in joined && k + 1 !in joined && (Size(q, k, 2) || (k > 0 && (Size(q, k - 1, 2) || k - 1 in joined)))
  }

  /** Every scalar whose masking changes is '#' already. */
  ghost predicate Harmless(text: string, q: seq<ByteSpan>, joined: set<nat>) {
    forall k :: 0 <= k < |q| && q[k].start < q[k].end <= |text| ==>
      (FirstChanges(q, joined, k) ==> text[q[k].start] == '#') && (LastChanges(q, joined, k) ==> text[q[k].end - 1] == '#')
  }

  /** A joined run of two scalars changes nothing: each join is of two single scalars, and of no more. */
  lemma ShortJoinsHarmless(text: string, q: seq<ByteSpan>, joined: set<nat>)
    requires forall k :: k in joined ==> 0 < k < |q| && !Size(q, k, 2) && !Size(q, k - 1, 2) && k - 1 !in joined
    ensures Harmless(text, q, joined)
  {
    forall k | 0 <= k < |q| ensures !FirstChanges(q, joined, k) && !LastChanges(q, joined, k) {
      assert k + 1 in joined ==> !Size(q, k + 1, 2) && !Size(q, k, 2);
      assert k + 2 in joined ==> k + 1 !in joined;
    }
  }

  // ---- Masking by coverage ----------------------------------------------------------------------

  /** A covered scalar is masked unless it is an end of a stretch of three or more. */
  ghost predicate MaskedIn(s: seq<ByteSpan>, i: nat) {
    && Covers(s, i)
    && !((i == 0 || !Covers(s, i - 1)) && Covers(s, i + 1) && Covers(s, i + 2))
    && !(!Covers(s, i + 1) && i >= 2 && Covers(s, i - 1) && Covers(s, i - 2))
  }

  lemma RunCovers(s: seq<ByteSpan>, k: nat, x: nat)
    requires Canonical(s) && k < |s| && s[k].start <= x + 1 && x <= s[k].end
    ensures Covers(s, x) <==> In(s[k], x)
  {
    forall j | 0 <= j < |s| && j != k ensures !In(s[j], x) {
      assert j < k ==> s[j].end < s[k].start;
      assert k < j ==> s[k].end < s[j].start;
    }
  }

  lemma MaskByCoverage(s: seq<ByteSpan>, i: nat)
    requires Canonical(s)
    ensures Masked(s, i) <==> MaskedIn(s, i)
  {
    if k: nat :| k < |s| && In(s[k], i) {
      MaskAt(s, k, i);
      hide Covers, Canonical, Masked;
      RunCovers(s, k, i);
      RunCovers(s, k, i + 1);
      if i + 1 < s[k].end {
        RunCovers(s, k, i + 2);
      }
      if i > 0 {
        RunCovers(s, k, i - 1);
      }
      if i > s[k].start + 1 || (i > 1 && i > s[k].start) {
        RunCovers(s, k, i - 2);
      }
    }
  }

  /** A coverage decides masking. */
  lemma MaskedSame(a: seq<ByteSpan>, b: seq<ByteSpan>, i: nat)
    requires forall x :: Covers(a, x) <==> Covers(b, x)
    ensures MaskedIn(a, i) <==> MaskedIn(b, i)
  {
  }

  // ---- Around one run -----------------------------------------------------------------------------

  lemma CoveredIn(q: seq<ByteSpan>, k: nat, x: nat)
    requires k < |q| && q[k].start <= x < q[k].end
    ensures Covers(q, x)
  {
    assert In(q[k], x);
  }

  lemma Apart(q: seq<ByteSpan>, i: nat, j: nat)
    requires InOrder(q) && i < j < |q|
    ensures q[i].start < q[i].end <= q[j].start < q[j].end
  {
  }

  lemma CoversAfter(q: seq<ByteSpan>, k: nat)
    requires InOrder(q) && k < |q|
    ensures Covers(q, q[k].end) <==> k + 1 in Touching(q)
  {
    if j: nat :| j < |q| && In(q[j], q[k].end) {
      if j < k { Apart(q, j, k); }
    }
    if k + 1 in Touching(q) {
      CoveredIn(q, k + 1, q[k].end);
    }
  }

  lemma CoversBefore(q: seq<ByteSpan>, k: nat)
    requires InOrder(q) && k < |q| && q[k].start > 0
    ensures Covers(q, q[k].start - 1) <==> k in Touching(q)
  {
    if j: nat :| j < |q| && In(q[j], q[k].start - 1) {
      if k < j { Apart(q, k, j); }
      if j + 1 < k { Apart(q, j, k - 1); }
    }
    if k in Touching(q) {
      CoveredIn(q, k - 1, q[k].start - 1);
    }
  }

  lemma MaskInRun(q: seq<ByteSpan>, k: nat, i: nat)
    requires InOrder(q) && k < |q| && In(q[k], i)
    ensures Masked(q, i) <==> InMask(q[k], i)
  {
    forall j | 0 <= j < |q| && j != k ensures !In(q[j], i) {
    }
  }

  /** The two neighbours on the right of a run's last scalar. */
  lemma RightOf(q: seq<ByteSpan>, k: nat)
    requires InOrder(q) && k < |q|
    ensures Covers(q, q[k].end) <==> k + 1 in Touching(q)
    ensures Covers(q, q[k].end) ==> (Covers(q, q[k].end + 1) <==> Size(q, k + 1, 2) || k + 2 in Touching(q))
  {
    CoversAfter(q, k);
    if k + 1 in Touching(q) {
      CoversAfter(q, k + 1);
      if Size(q, k + 1, 2) {
        CoveredIn(q, k + 1, q[k].end + 1);
      } else {
        assert q[k + 1].end == q[k].end + 1;
      }
      if k + 2 in Touching(q) && Size(q, k + 1, 2) {
        CoveredIn(q, k + 1, q[k].end + 1);
      }
    }
  }

  lemma LeftOf(q: seq<ByteSpan>, k: nat)
    requires InOrder(q) && k < |q|
    ensures q[k].start > 0 ==> (Covers(q, q[k].start - 1) <==> k in Touching(q))
    ensures q[k].start == 0 || k == 0 ==> k !in Touching(q)
    ensures k in Touching(q) ==>
      ((q[k].start >= 2 && Covers(q, q[k].start - 2)) <==> (Size(q, k - 1, 2) || k - 1 in Touching(q)))
  {
    if q[k].start > 0 {
      CoversBefore(q, k);
    }
    if k in Touching(q) {
      var p := k - 1;
      if Size(q, p, 2) {
        CoveredIn(q, p, q[k].start - 2);
      } else {
        assert q[p].start == q[k].start - 1;
        if q[p].start > 0 {
          CoversBefore(q, p);
        }
      }
    }
  }

  /** Scalar `i` of run `k` is masked after joining. */
  lemma MaskOfInner(q: seq<ByteSpan>, k: nat, i: nat)
    requires InOrder(q) && k < |q| && q[k].start < i < q[k].end - 1
    ensures MaskedIn(q, i) && InMask(q[k], i)
  {
    hide Covers, InOrder;
    CoveredIn(q, k, i);
    CoveredIn(q, k, i - 1);
    CoveredIn(q, k, i + 1);
  }

  lemma MaskOfFirst(q: seq<ByteSpan>, k: nat)
    requires InOrder(q) && k < |q| && q[k].start < q[k].end
    ensures Size(q, k, 2) ==> (MaskedIn(q, q[k].start) != InMask(q[k], q[k].start) <==> FirstChanges(q, Touching(q), k))
  {
    hide Covers, InOrder, Touching;
    var i := q[k].start;
    RightOf(q, k);
    LeftOf(q, k);
    CoveredIn(q, k, i);
    if Size(q, k, 2) {
      CoveredIn(q, k, i + 1);
    }
    if Size(q, k, 3) {
      CoveredIn(q, k, i + 2);
    }
  }

  lemma MaskOfLast(q: seq<ByteSpan>, k: nat)
    requires InOrder(q) && k < |q| && q[k].start < q[k].end
    ensures Size(q, k, 2) ==> (MaskedIn(q, q[k].end - 1) != InMask(q[k], q[k].end - 1) <==> LastChanges(q, Touching(q), k))
  {
    hide Covers, InOrder, Touching;
    var i := q[k].end - 1;
    RightOf(q, k);
    LeftOf(q, k);
    CoveredIn(q, k, i);
    if Size(q, k, 2) {
      CoveredIn(q, k, i - 1);
    }
    if Size(q, k, 3) {
      CoveredIn(q, k, i - 2);
    }
  }

  lemma MaskOfOne(q: seq<ByteSpan>, k: nat)
    requires InOrder(q) && k < |q| && q[k].start + 1 == q[k].end
    ensures MaskedIn(q, q[k].start) != InMask(q[k], q[k].start) <==>
      FirstChanges(q, Touching(q), k) || LastChanges(q, Touching(q), k)
  {
    hide Covers, InOrder, Touching;
    RightOf(q, k);
    LeftOf(q, k);
    CoveredIn(q, k, q[k].start);
  }

  /** The mask of the joined runs, at a scalar of run `k`. */
  lemma MaskChanges(q: seq<ByteSpan>, k: nat, i: nat)
    requires InOrder(q) && k < |q| && In(q[k], i)
    ensures (MaskedIn(q, i) != Masked(q, i)) <==>
      ((i == q[k].start && FirstChanges(q, Touching(q), k)) || (i == q[k].end - 1 && LastChanges(q, Touching(q), k)))
  {
    hide InOrder, Touching, MaskedIn, Masked, FirstChanges, LastChanges, InMask;
    MaskInRun(q, k, i);
    if q[k].start + 1 == q[k].end {
      MaskOfOne(q, k);
    } else if i == q[k].start {
      MaskOfFirst(q, k);
    } else if i == q[k].end - 1 {
      MaskOfLast(q, k);
    } else {
      MaskOfInner(q, k, i);
    }
  }

  /** Masking the joined runs gives what masking the separate ones gives exactly when every change is harmless. */
  lemma JoiningHarmlessIff(text: string, q: seq<ByteSpan>, j: seq<ByteSpan>)
    requires InOrder(q) && Canonical(j) && (forall x :: Covers(j, x) <==> Covers(q, x))
    requires forall k :: 0 <= k < |q| ==> q[k].end <= |text|
    ensures CensorText(text, j) == CensorText(text, q) <==> Harmless(text, q, Touching(q))
  {
    var joint, apart := CensorText(text, j), CensorText(text, q);
    hide Canonical, Masked, FirstChanges, LastChanges, Touching, MaskedIn, CensorText;
    forall i | 0 <= i < |text| ensures joint[i] == (if MaskedIn(q, i) then '#' else text[i]) && apart[i] == (if Masked(q, i) then '#' else text[i]) {
      MaskByCoverage(j, i);
      MaskedSame(j, q, i);
      CensoredAt(text, j, i);
      CensoredAt(text, q, i);
    }
    if Harmless(text, q, Touching(q)) {
      forall i | 0 <= i < |text| ensures joint[i] == apart[i] {
        HarmlessAt(text, q, i);
      }
    } else {
      var k :| 0 <= k < |q| && q[k].start < q[k].end <= |text| &&
        !((FirstChanges(q, Touching(q), k) ==> text[q[k].start] == '#') && (LastChanges(q, Touching(q), k) ==> text[q[k].end - 1] == '#'));
      MaskChanges(q, k, q[k].start);
      MaskChanges(q, k, q[k].end - 1);
    }
  }

  lemma CensoredAt(text: string, q: seq<ByteSpan>, i: nat)
    requires i < |text|
    ensures |CensorText(text, q)| == |text| && CensorText(text, q)[i] == if Masked(q, i) then '#' else text[i]
  {
  }

  lemma HarmlessAt(text: string, q: seq<ByteSpan>, i: nat)
    requires InOrder(q) && Harmless(text, q, Touching(q)) && i < |text| && forall k :: 0 <= k < |q| ==> q[k].end <= |text|
    ensures MaskedIn(q, i) == Masked(q, i) || text[i] == '#'
  {
    hide FirstChanges, LastChanges, Touching;
    if k: nat :| k < |q| && In(q[k], i) {
      MaskChanges(q, k, i);
    } else {
      assert !Covers(q, i) && !Masked(q, i);
    }
  }

  // ---- Through the cut -----------------------------------------------------------------------------

  /** Cutting the links moves the runs, joins those with a link for a gap, and keeps the scalars of each. */
  lemma RunsMoved(s: string, rc: seq<ByteSpan>, mc: seq<ByteSpan>)
    requires Canonical(rc) && (rc != [] ==> rc[|rc| - 1].end <= |s|)
    requires Canonical(mc) && (forall k :: 0 <= k < |mc| ==> mc[k].end <= |s|) && Disjoint(mc, rc)
    ensures var q := Remap(rc, mc);
      && InOrder(q) && |q| == |mc| && (forall k :: 0 <= k < |q| ==> q[k].end <= |Kept(s, rc)|)
      && Touching(q) == Joined(mc, rc)
      && (Harmless(Kept(s, rc), q, Touching(q)) <==> Harmless(s, mc, Joined(mc, rc)))
  {
    hide Kept, RemovedBefore, OverlapsAny, Remap, MovedRun, Harmless, Joined, Touching, InOrder, Shift;
    CanonicalNonEmpty(mc);
    RemapAll(rc, mc);
    var q := Remap(rc, mc);
    forall k | 0 <= k < |q| ensures MovedRun(s, rc, mc[k], q[k]) && q[k].end <= |Kept(s, rc)| {
      ShiftedRun(s, rc, mc[k]);
    }
    RunsOrdered(rc, mc);
    HarmlessMoves(s, rc, mc, q, Joined(mc, rc));
  }

  lemma RunsOrdered(rc: seq<ByteSpan>, mc: seq<ByteSpan>)
    requires Canonical(rc) && Canonical(mc) && Disjoint(mc, rc)
    ensures InOrder(Remap(rc, mc)) && Touching(Remap(rc, mc)) == Joined(mc, rc)
  {
    hide RemovedBefore, OverlapsAny, Remap, Shift;
    CanonicalNonEmpty(mc);
    RemapAll(rc, mc);
    var q := Remap(rc, mc);
    forall i, j | 0 <= i < j < |q|
      ensures q[i].end <= q[j].start && (q[i].end == q[j].start <==> ByteSpan(mc[i].end, mc[j].start) in rc)
    {
      ShiftedPair(rc, mc[i], mc[j]);
    }
    hide Canonical, Disjoint;
    forall k: nat | 0 < k < |q| ensures q[k - 1].end == q[k].start <==> ByteSpan(mc[k - 1].end, mc[k].start) in rc {
    }
  }

  /** A run before and after the cut: as long, inside the text, with the same scalars at its ends. */
  ghost predicate MovedRun(s: string, rc: seq<ByteSpan>, a: ByteSpan, b: ByteSpan) {
    && a.start < a.end <= |s| && b.start < b.end <= |Kept(s, rc)| && b.end - b.start == a.end - a.start
    && Kept(s, rc)[b.start] == s[a.start] && Kept(s, rc)[b.end - 1] == s[a.end - 1]
  }

  lemma ShiftedRun(s: string, rc: seq<ByteSpan>, a: ByteSpan)
    requires Canonical(rc) && (rc != [] ==> rc[|rc| - 1].end <= |s|)
    requires !OverlapsAny(a, rc) && a.start < a.end <= |s|
    ensures MovedRun(s, rc, a, Shift(rc, a)) && Shift(rc, a).end <= |Kept(s, rc)|
  {
    hide Kept, RemovedBefore, OverlapsAny;
    ShiftLength(rc, a);
    ShiftedText(s, rc, a);
    hide Canonical;
    var b := Shift(rc, a);
    assert Kept(s, rc)[b.start..b.end][0] == s[a.start..a.end][0];
    assert Kept(s, rc)[b.start..b.end][b.end - b.start - 1] == s[a.start..a.end][a.end - a.start - 1];
  }

  lemma HarmlessMoves(s: string, rc: seq<ByteSpan>, mc: seq<ByteSpan>, q: seq<ByteSpan>, joined: set<nat>)
    requires |q| == |mc| && forall k :: 0 <= k < |q| ==> MovedRun(s, rc, mc[k], q[k])
    ensures Harmless(Kept(s, rc), q, joined) <==> Harmless(s, mc, joined)
  {
    hide Kept;
    forall k | 0 <= k < |q|
      ensures FirstChanges(q, joined, k) == FirstChanges(mc, joined, k) && LastChanges(q, joined, k) == LastChanges(mc, joined, k)
    {
      assert k + 1 < |q| ==> MovedRun(s, rc, mc[k + 1], q[k + 1]);
      assert k > 0 ==> MovedRun(s, rc, mc[k - 1], q[k - 1]);
    }
    hide FirstChanges, LastChanges;
  }

  // ---- In bytes --------------------------------------------------------------------------------------

  /** A scalar is covered by spans exactly when its first byte is. */
  lemma ScalarCovered(s: string, a: seq<ByteSpan>, i: nat)
    requires AllValid(s, a)
    ensures Covers(ScalarSpans(s, a), i) <==> i < |s| && Covers(a, Offset(s, i))
  {
    hide ScalarAt, ByteLen;
    var c := ScalarSpans(s, a);
    if i <= |s| {
      ScalarOfOffset(s, i);
    }
    forall k | 0 <= k < |a| ensures In(c[k], i) <==> i < |s| && In(a[k], Offset(s, i)) {
      assert ValidSpan(s, a[k]);
      if i <= |s| {
        ScalarOrder(s, Offset(s, i), a[k].start);
        ScalarOrder(s, Offset(s, i), a[k].end);
      }
    }
  }

  lemma SameScalarCoverage(s: string, a: seq<ByteSpan>, b: seq<ByteSpan>)
    requires AllValid(s, a) && AllValid(s, b) && forall x :: Covers(a, x) <==> Covers(b, x)
    ensures forall i :: Covers(ScalarSpans(s, a), i) <==> Covers(ScalarSpans(s, b), i)
  {
    forall i ensures Covers(ScalarSpans(s, a), i) <==> Covers(ScalarSpans(s, b), i) {
      ScalarCovered(s, a, i);
      ScalarCovered(s, b, i);
    }
  }

  /** The censored runs of a message, and its links, in scalars. */
  ghost function Runs(original: string, censor: seq<ByteSpan>, urls: seq<ByteSpan>): seq<ByteSpan>
    requires AllValid(original, urls) && AllValid(original, censor)
  {
    SurvivingDisjoint(original, censor, urls);
    MergedValid(original, Surviving(censor, urls));
    ScalarSpans(original, MergedSpans(Surviving(censor, urls)))
  }

  ghost function Links(original: string, urls: seq<ByteSpan>): seq<ByteSpan>
    requires AllValid(original, urls)
  {
    MergedValid(original, urls);
    ScalarSpans(original, MergedSpans(urls))
  }

  /** Merged before the cut or after it, the runs cover the same bytes of what is left. */
  lemma MergedRuns(original: string, kept: seq<ByteSpan>, r: seq<ByteSpan>)
    requires AllValid(original, kept) && NonEmpty(kept) && AllValid(original, r) && Canonical(r) && Disjoint(kept, r)
    ensures var m := MergedSpans(kept); var joined := MergedSpans(Remap(r, kept)); var cut := CutText(original, r);
      && AllValid(original, m) && Canonical(m) && NonEmpty(m) && Disjoint(m, r)
      && AllValid(cut, Remap(r, m)) && AllValid(cut, joined) && Canonical(joined)
      && Censored(cut, Remap(r, kept)) == Ok(CensorText(cut, ScalarSpans(cut, joined)))
      && forall x :: Covers(joined, x) <==> Covers(Remap(r, m), x)
  {
    hide Canonical, NonEmpty, AllValid, Disjoint, Remap, Covers, CutText, MergedSpans, Censored, CensorText;
    var m := MergedSpans(kept);
    CensoredValid(original, kept);
    MergedDisjoint(r, kept);
    CanonicalNonEmpty(m);
    MergedCanonical(kept);
    RemappedRuns(original, r, kept);
    RemappedRuns(original, r, m);
    CensoredValid(CutText(original, r), Remap(r, kept));
    RemapSameCoverage(r, kept, m);
    RemappedNonEmpty(r, kept);
    MergedCanonical(Remap(r, kept));
  }

  lemma TransformedWhenValid(original: string, censor: seq<ByteSpan>, urls: seq<ByteSpan>)
    requires AllValid(original, urls) && AllValid(original, censor)
    requires var kept := Surviving(censor, urls); AllValid(original, kept) && AllValid(original, MergedSpans(kept))
    requires AllValid(original, MergedSpans(urls)) && Canonical(MergedSpans(urls))
    ensures urls != [] ==>
      Transformed(original, censor, true, urls)
        == Censored(CutText(original, MergedSpans(urls)), Remap(MergedSpans(urls), Surviving(censor, urls)))
    ensures urls == [] ==> Transformed(original, censor, true, urls) == Censored(original, Surviving(censor, urls))
  {
    hide Canonical, Remap, CutText, MergedSpans, CensorText;
  }

  /** What stripping leaves: the links cut, and the runs masked as they are joined. */
  lemma StrippedText(original: string, censor: seq<ByteSpan>, urls: seq<ByteSpan>) returns (j: seq<ByteSpan>)
    requires AllValid(original, urls) && AllValid(original, censor)
    ensures var mc, rc := Runs(original, censor, urls), Links(original, urls);
      && Canonical(rc) && (rc != [] ==> rc[|rc| - 1].end <= |original|)
      && Canonical(mc) && (forall k :: 0 <= k < |mc| ==> mc[k].end <= |original|) && NonEmpty(mc) && Disjoint(mc, rc)
      && Canonical(j) && (forall x :: Covers(j, x) <==> Covers(Remap(rc, mc), x))
      && Transformed(original, censor, true, urls) == Ok(CensorText(Kept(original, rc), j))
  {
    hide Canonical, NonEmpty, AllValid, Disjoint, Remap, Covers, MergedSpans, Censored, CensorText, Transformed, Surviving, Kept;
    var kept, r := Surviving(censor, urls), MergedSpans(urls);
    SurvivingDisjoint(original, censor, urls);
    MergedValid(original, urls);
    MergedRuns(original, kept, r);
    TransformedWhenValid(original, censor, urls);
    var m, cut := MergedSpans(kept), CutText(original, r);
    ScalarSpansCanonical(original, m);
    LinksInRange(original, r);
    RemappedRuns(original, r, m);
    var joined := MergedSpans(Remap(r, kept));
    SameScalarCoverage(cut, joined, Remap(r, m));
    ScalarSpansCanonical(cut, joined);
    j := ScalarSpans(cut, joined);
    if urls == [] {
      WithoutUrls(original, kept);
    }
  }

  lemma NothingShifted(x: ByteSpan)
    ensures Canonical([]) && Shift([], x) == x && !OverlapsAny(x, [])
  {
  }

  lemma {:induction false} NothingRemapped(kept: seq<ByteSpan>)
    requires NonEmpty(kept)
    ensures Canonical([]) && Remap([], kept) == kept
  {
    hide Canonical, Shift, OverlapsAny;
    NothingShifted(ByteSpan(0, 0));
    if kept != [] {
      NothingShifted(kept[0]);
      assert kept == [kept[0]] + kept[1..];
      NothingRemapped(kept[1..]);
    }
  }

  lemma WithoutUrls(original: string, kept: seq<ByteSpan>)
    requires NonEmpty(kept)
    ensures MergedSpans([]) == [] && Canonical([]) && Remap([], kept) == kept && CutText(original, []) == original
  {
    NothingRemapped(kept);
    assert MergedSpans([]) == [] by { MergedFixed([]); }
  }

  lemma RemappedNonEmpty(r: seq<ByteSpan>, kept: seq<ByteSpan>)
    requires Canonical(r) && NonEmpty(kept) && Disjoint(kept, r)
    ensures NonEmpty(Remap(r, kept))
  {
    RemapAll(r, kept);
  }

  /**
   * Stripping links and censoring the rest gives the censored original with the
   * links deleted if and only if every scalar whose masking changes, where a
   * link was the whole gap between two runs, is '#' already.
   */
  lemma StripThenCensorIff(original: string, censor: seq<ByteSpan>, urls: seq<ByteSpan>)
    requires AllValid(original, urls) && AllValid(original, censor)
    ensures var runs, links := Runs(original, censor, urls), Links(original, urls);
      Transformed(original, censor, true, urls) == Ok(Kept(CensorText(original, runs), links))
      <==> Harmless(original, runs, Joined(runs, links))
  {
    hide Runs, Links, Transformed, Canonical, NonEmpty, Disjoint, Remap, Kept, Harmless, InOrder, Touching, Joined, Covers, CensorText;
    var mc, rc := Runs(original, censor, urls), Links(original, urls);
    var j := StrippedText(original, censor, urls);
    RunsMoved(original, rc, mc);
    JoiningHarmlessIff(Kept(original, rc), Remap(rc, mc), j);
    CensorCutCommute(original, rc, mc);
  }
}
