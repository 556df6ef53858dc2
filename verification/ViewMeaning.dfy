/**
 * What the views of a text keep, and where their scalars come from: where a
 * space stands for separators, which scalars the security passes drop, and
 * which source bytes a range of a view stands for.
 */
module ViewMeaning {
  import opened Wrappers
  import opened Spans
  import opened Utf8Text
  import opened CanonicalOrder
  import opened NormalizedViews
  import opened SecurityView

  // ---- Separators become spaces --------------------------------------------------------------------

  /** Zero-width joiners are kept; white space, punctuation and ignored scalars are not. */
  ghost predicate Kept(t: CharTests, c: char) {
    !t.ignored(c) && (c in {'\U{200C}', '\U{200D}'} || !(t.whitespace(c) || t.punctuation(c)))
  }

  /** White space and punctuation that is not ignored separates. */
  ghost predicate Separates(t: CharTests, c: char) {
    !t.ignored(c) && c !in {'\U{200C}', '\U{200D}'} && (t.whitespace(c) || t.punctuation(c))
  }

  ghost predicate SeparatorIn(t: CharTests, mapped: Text, lo: nat, hi: nat, n: nat) {
    lo <= n < hi <= |mapped| && Separates(t, mapped[n].scalar)
  }

  ghost predicate NoneKeptIn(t: CharTests, mapped: Text, lo: nat, hi: nat) {
    forall n :: lo <= n < hi && n < |mapped| ==> !Kept(t, mapped[n].scalar)
  }

  /** `q` is the smallest span that contains the separators of [lo, hi). */
  ghost predicate HoldsSeparators(t: CharTests, mapped: Text, lo: nat, hi: nat, q: ByteSpan) {
    && (forall n: nat :: SeparatorIn(t, mapped, lo, hi, n) ==> q.start <= mapped[n].source.start && mapped[n].source.end <= q.end)
    && (exists n: nat :: SeparatorIn(t, mapped, lo, hi, n) && mapped[n].source.start == q.start)
    && (exists n: nat :: SeparatorIn(t, mapped, lo, hi, n) && mapped[n].source.end == q.end)
  }

  /** What stands for the stretch between two kept scalars: one space for its separators, or nothing if it has none. */
  ghost predicate Between(t: CharTests, mapped: Text, lo: nat, hi: nat, gap: Text) {
    && ((exists n: nat :: SeparatorIn(t, mapped, lo, hi, n)) ==>
          |gap| == 1 && gap[0].scalar == ' ' && HoldsSeparators(t, mapped, lo, hi, gap[0].source))
    && ((forall n: nat :: !SeparatorIn(t, mapped, lo, hi, n)) ==> gap == [])
  }

  lemma TestsMean(t: CharTests, c: char)
    ensures IsKept(t, c) <==> Kept(t, c)
    ensures IsSeparator(t, c) <==> Separates(t, c)
  {
  }

  /** With nothing kept since `lo`, the pending spans are those of the separators. */
  lemma {:induction false} PendingMeans(t: CharTests, mapped: Text, lo: nat, hi: nat)
    requires lo <= hi <= |mapped| && NoneKeptIn(t, mapped, lo, hi) && (lo > 0 ==> Kept(t, mapped[lo - 1].scalar))
    ensures forall q :: q in Pending(t, mapped[..hi]) <==> exists n: nat :: SeparatorIn(t, mapped, lo, hi, n) && mapped[n].source == q
    decreases hi
  {
    if hi > lo {
      PendingMeans(t, mapped, lo, hi - 1);
      assert mapped[..hi][..hi - 1] == mapped[..hi - 1];
      TestsMean(t, mapped[hi - 1].scalar);
      hide Separates, Kept;
      assert forall n: nat :: SeparatorIn(t, mapped, lo, hi, n) <==>
        SeparatorIn(t, mapped, lo, hi - 1, n) || (n == hi - 1 && Separates(t, mapped[n].scalar));
    } else if hi > 0 {
      TestsMean(t, mapped[hi - 1].scalar);
    }
  }

  /** The hull of the pending spans is the smallest span that contains the separators. */
  lemma HullHolds(t: CharTests, mapped: Text, lo: nat, hi: nat, spans: seq<ByteSpan>)
    requires spans != [] && hi <= |mapped|
    requires forall q :: q in spans <==> exists n: nat :: SeparatorIn(t, mapped, lo, hi, n) && mapped[n].source == q
    ensures HoldsSeparators(t, mapped, lo, hi, Hull(spans))
  {
    hide Hull, Separates;
    HullContains(spans);
    var h := Hull(spans);
    forall n: nat | SeparatorIn(t, mapped, lo, hi, n) ensures h.start <= mapped[n].source.start && mapped[n].source.end <= h.end {
      assert mapped[n].source in spans;
      var k :| 0 <= k < |spans| && spans[k] == mapped[n].source;
    }
    var a :| 0 <= a < |spans| && spans[a].start == h.start;
    assert spans[a] in spans;
    var b :| 0 <= b < |spans| && spans[b].end == h.end;
    assert spans[b] in spans;
  }

  lemma {:induction false} NothingSpaced(t: CharTests, mapped: Text, lo: nat, hi: nat)
    requires lo <= hi <= |mapped| && NoneKeptIn(t, mapped, lo, hi)
    ensures Spaced(t, mapped[..hi]) == Spaced(t, mapped[..lo])
    decreases hi
  {
    if hi > lo {
      TestsMean(t, mapped[hi - 1].scalar);
      assert mapped[..hi][..hi - 1] == mapped[..hi - 1];
      NothingSpaced(t, mapped, lo, hi - 1);
    }
  }

  /** Between two kept scalars in a row stands one space for the separators between them, if there are any. */
  lemma SpacedMeans(t: CharTests, mapped: Text, i: nat, j: nat) returns (gap: Text)
    requires i < j < |mapped| && Kept(t, mapped[i].scalar) && Kept(t, mapped[j].scalar) && NoneKeptIn(t, mapped, i + 1, j)
    ensures Between(t, mapped, i + 1, j, gap)
    ensures Spaced(t, mapped[..j + 1]) == Spaced(t, mapped[..i + 1]) + gap + [mapped[j]]
  {
    var pending := Pending(t, mapped[..j]);
    PendingMeans(t, mapped, i + 1, j);
    NothingSpaced(t, mapped, i + 1, j);
    TestsMean(t, mapped[i].scalar);
    TestsMean(t, mapped[j].scalar);
    assert mapped[..i + 1][..i] == mapped[..i] && mapped[..j + 1][..j] == mapped[..j];
    hide Kept, Separates, Hull, Pending, IsKept;
    gap := if pending != [] then [Mapped(' ', Hull(pending))] else [];
    if pending != [] {
      assert pending[0] in pending;
      HullHolds(t, mapped, i + 1, j, pending);
    }
    var lo := i + 1;
    if n: nat :| SeparatorIn(t, mapped, lo, j, n) {
      assert mapped[n].source in pending;
    }
  }

  /** Separators before the first kept scalar leave nothing, and neither do those after the last. */
  lemma SpacedEnds(t: CharTests, mapped: Text, j: nat)
    requires j < |mapped| && Kept(t, mapped[j].scalar)
    ensures NoneKeptIn(t, mapped, 0, j) ==> Spaced(t, mapped[..j + 1]) == [mapped[j]]
    ensures NoneKeptIn(t, mapped, j + 1, |mapped|) ==> Spaced(t, mapped) == Spaced(t, mapped[..j + 1])
  {
    TestsMean(t, mapped[j].scalar);
    assert mapped[..j + 1][..j] == mapped[..j] && mapped[..|mapped|] == mapped && mapped[..0] == [];
    if NoneKeptIn(t, mapped, 0, j) {
      NothingSpaced(t, mapped, 0, j);
    }
    if NoneKeptIn(t, mapped, j + 1, |mapped|) {
      NothingSpaced(t, mapped, j + 1, |mapped|);
    }
  }

  // ---- Back to the source -----------------------------------------------------------------------------

  /** The entry shares a byte with [start, end). */
  ghost predicate SharesByte(e: CharSpan, start: nat, end: nat) {
    exists b: nat :: In(e.normalized, b) && start <= b < end
  }

  ghost predicate Shares(spans: seq<CharSpan>, k: nat, start: nat, end: nat) { k < |spans| && SharesByte(spans[k], start, end) }

  /** `q` is the smallest span that contains the sources of the entries sharing a byte with [start, end). */
  ghost predicate SourceOf(spans: seq<CharSpan>, start: nat, end: nat, q: ByteSpan) {
    && (forall k: nat :: Shares(spans, k, start, end) ==> q.start <= spans[k].original.start && spans[k].original.end <= q.end)
    && (exists k: nat :: Shares(spans, k, start, end) && spans[k].original.start == q.start)
    && (exists k: nat :: Shares(spans, k, start, end) && spans[k].original.end == q.end)
  }

  lemma IntersectsMeans(e: CharSpan, start: nat, end: nat)
    requires start < end && e.normalized.start < e.normalized.end
    ensures Intersects(e, start, end) <==> SharesByte(e, start, end)
  {
    if Intersects(e, start, end) {
      var b := if start < e.normalized.start then e.normalized.start else start;
      assert In(e.normalized, b) && start <= b < end;
    }
  }

  lemma {:induction false} TouchedMeans(spans: seq<CharSpan>, start: nat, end: nat, q: ByteSpan)
    requires start < end && forall k :: 0 <= k < |spans| ==> spans[k].normalized.start < spans[k].normalized.end
    ensures q in Touched(spans, start, end) <==> exists k: nat :: Shares(spans, k, start, end) && spans[k].original == q
  {
    if spans != [] {
      var n := |spans| - 1;
      TouchedMeans(spans[..n], start, end, q);
      IntersectsMeans(spans[n], start, end);
      hide SharesByte, Intersects;
      assert forall k: nat :: Shares(spans, k, start, end) <==> Shares(spans[..n], k, start, end) || (k == n && SharesByte(spans[n], start, end));
    }
  }

  /** A range stands for the smallest source span around what it touches; one that touches nothing for none. */
  lemma OriginalMeans(n: NormalizedText, start: nat, end: nat)
    requires Tiles(n) && start < end
    ensures HullOf(Touched(n.spans, start, end)).Some? <==> exists k: nat :: Shares(n.spans, k, start, end)
    ensures HullOf(Touched(n.spans, start, end)).Some? ==> SourceOf(n.spans, start, end, HullOf(Touched(n.spans, start, end)).value)
  {
    hide Hull, Touched, SharesByte;
    var touched := Touched(n.spans, start, end);
    EntriesProper(n);
    forall q ensures q in touched <==> exists k: nat :: Shares(n.spans, k, start, end) && n.spans[k].original == q {
      TouchedMeans(n.spans, start, end, q);
    }
    if k: nat :| Shares(n.spans, k, start, end) {
      assert n.spans[k].original in touched;
    }
    if touched != [] {
      assert touched[0] in touched;
      HullContains(touched);
      var h := Hull(touched);
      forall k: nat | Shares(n.spans, k, start, end) ensures h.start <= n.spans[k].original.start && n.spans[k].original.end <= h.end {
        assert n.spans[k].original in touched;
        var m :| 0 <= m < |touched| && touched[m] == n.spans[k].original;
      }
      var a :| 0 <= a < |touched| && touched[a].start == h.start;
      assert touched[a] in touched;
      var b :| 0 <= b < |touched| && touched[b].end == h.end;
      assert touched[b] in touched;
    }
  }

  lemma EntriesProper(n: NormalizedText)
    requires Tiles(n)
    ensures forall k :: 0 <= k < |n.spans| ==> n.spans[k].normalized.start < n.spans[k].normalized.end
  {
    forall k | 0 <= k < |n.spans| ensures n.spans[k].normalized.start < n.spans[k].normalized.end {
      OffsetMonotone(n.text, k, k + 1);
    }
  }

  // ---- The security passes --------------------------------------------------------------------------------

  /** The nearest scalar after `i` that is not looked past is at `b`. */
  ghost predicate NearestAfter(text: Text, skip: char -> bool, i: nat, b: nat) {
    i < b < |text| && !skip(text[b].scalar) && forall m :: i < m < b ==> skip(text[m].scalar)
  }

  ghost predicate NearestBefore(text: Text, skip: char -> bool, i: nat, a: nat) {
    a < i < |text| && !skip(text[a].scalar) && forall m :: a < m < i ==> skip(text[m].scalar)
  }

  /** Scalar `i` may go, and the nearest scalars on both sides that are not looked past ask for it. */
  ghost predicate Goes(text: Text, f: Filter, i: nat) {
    && i < |text| && f.drop(text[i].scalar)
    && (exists a: nat :: NearestBefore(text, f.skip, i, a) && f.side(text[a].scalar))
    && (exists b: nat :: NearestAfter(text, f.skip, i, b) && f.side(text[b].scalar))
  }

  lemma {:induction false} NextMeans(text: Text, skip: char -> bool, i: nat, k: nat)
    requires i < k <= |text| && forall m :: i < m < k ==> skip(text[m].scalar)
    ensures var r := NextOf(text, k, skip);
      && (r.Some? ==> exists b: nat :: NearestAfter(text, skip, i, b) && text[b].scalar == r.value)
      && (r.None? ==> forall b: nat :: !NearestAfter(text, skip, i, b))
    decreases |text| - k
  {
    if k < |text| {
      if skip(text[k].scalar) {
        NextMeans(text, skip, i, k + 1);
      } else {
        assert NearestAfter(text, skip, i, k);
      }
    }
  }

  lemma {:induction false} PreviousMeans(text: Text, skip: char -> bool, i: nat, k: nat)
    requires k <= i < |text| && forall m :: k <= m < i ==> skip(text[m].scalar)
    ensures var r := PreviousOf(text, k, skip);
      && (r.Some? ==> exists a: nat :: NearestBefore(text, skip, i, a) && text[a].scalar == r.value)
      && (r.None? ==> forall a: nat :: !NearestBefore(text, skip, i, a))
  {
    if k > 0 {
      if skip(text[k - 1].scalar) {
        PreviousMeans(text, skip, i, k - 1);
      } else {
        assert NearestBefore(text, skip, i, k - 1);
      }
    }
  }

  lemma OneNearest(text: Text, skip: char -> bool, i: nat, a: nat, b: nat)
    ensures NearestAfter(text, skip, i, a) && NearestAfter(text, skip, i, b) ==> a == b
    ensures NearestBefore(text, skip, i, a) && NearestBefore(text, skip, i, b) ==> a == b
  {
  }

  lemma DropsMeans(text: Text, f: Filter, i: nat)
    requires i < |text|
    ensures Drops(text, f, i) <==> Goes(text, f, i)
  {
    NextMeans(text, f.skip, i, i + 1);
    PreviousMeans(text, f.skip, i, i);
    hide NearestAfter, NearestBefore, NextOf, PreviousOf;
    forall a: nat, b: nat ensures NearestAfter(text, f.skip, i, a) && NearestAfter(text, f.skip, i, b) ==> a == b {
      OneNearest(text, f.skip, i, a, b);
    }
    forall a: nat, b: nat ensures NearestBefore(text, f.skip, i, a) && NearestBefore(text, f.skip, i, b) ==> a == b {
      OneNearest(text, f.skip, i, a, b);
    }
  }

  /** A pass leaves exactly the scalars that do not go, in order. */
  lemma FilteredMeans(text: Text, f: Filter) returns (at: seq<nat>)
    ensures Selects(text, Filtered(text, f), at)
    ensures forall k: nat :: k in at <==> k < |text| && !Goes(text, f, k)
  {
    hide Drops, Goes, Selects, Filtered;
    at := FilterKeepsOrder(text, f, |text|);
    forall k: nat | k < |text| ensures Drops(text, f, k) <==> Goes(text, f, k) {
      DropsMeans(text, f, k);
    }
  }

  ghost predicate Punctuates(c: char) { c in {'.', '-', '_', '*', '~', '|', '`'} }

  ghost predicate Invisible(t: SecurityTests, c: char) { t.defaultIgnorable(c) || c == '\U{2800}' }

  /** What the two passes drop, look past, and ask for on both sides. */
  lemma PassesMean(t: SecurityTests, c: char)
    ensures Separators(t).drop(c) <==> Punctuates(c)
    ensures Separators(t).skip(c) <==> Punctuates(c)
    ensures Separators(t).side(c) <==> t.alphabetic(c) || t.mark(c)
    ensures Ignorables(t).drop(c) <==> Invisible(t, c)
    ensures Ignorables(t).skip(c) <==> t.mark(c) || Invisible(t, c) || Punctuates(c)
    ensures Ignorables(t).side(c) <==>
      'a' <= c <= 'z' || 'A' <= c <= 'Z' || '0' <= c <= '9' || (t.alphabetic(c) && t.latin(c))
  {
  }
}
