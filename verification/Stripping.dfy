/**
 * `remove_spans_and_remap_censors` and `transform_or_reuse` of delivery.rs:
 * URL spans are cut out of the original text, the surviving censor spans are
 * shifted left by the bytes removed before them, and the result is censored.
 */
module Stripping {
  import opened Wrappers
  import opened Spans
  import opened Utf8Text
  import opened Censoring

  /** The text left after deleting the runs `r` (scalar indices, ascending, disjoint). */
  ghost function Kept(s: string, r: seq<ByteSpan>): string
    decreases |r|
  {
    if r == [] then s
    else
      var n := |r| - 1;
      if r[n].start <= r[n].end <= |s| then Kept(s[..r[n].start], r[..n]) + s[r[n].end..] else s
  }

  function Length(span: ByteSpan): nat {
    if span.start <= span.end then span.end - span.start else 0
  }

  /** Total length of the removals that end at or before `x`. */
  function RemovedBefore(r: seq<ByteSpan>, x: nat): nat {
    if r == [] then 0
    else
      var n := |r| - 1;
      RemovedBefore(r[..n], x) + (if r[n].end <= x then Length(r[n]) else 0)
  }

  /** `x` is not strictly inside any removal. */
  ghost predicate Outside(r: seq<ByteSpan>, x: nat) {
    forall k :: 0 <= k < |r| ==> x <= r[k].start || r[k].end <= x
  }

  /** Removals before `x` never exceed `x`: remapping cannot underflow. */
  lemma {:induction false} RemovedBeforeBound(r: seq<ByteSpan>, x: nat)
    requires Canonical(r)
    ensures RemovedBefore(r, x) <= x
    ensures r != [] ==> RemovedBefore(r, x) <= r[|r| - 1].end
    decreases |r|
  {
    if r != [] {
      CanonicalFront(r);
      RemovedBeforeBound(r[..|r| - 1], x);
    }
  }

  lemma {:induction false} RemovedBeforeUnchanged(r: seq<ByteSpan>, x: nat, y: nat)
    requires Canonical(r) && x <= y
    requires forall k :: 0 <= k < |r| ==> (r[k].end <= x <==> r[k].end <= y)
    ensures RemovedBefore(r, x) == RemovedBefore(r, y)
    decreases |r|
  {
    if r != [] {
      CanonicalFront(r);
      RemovedBeforeUnchanged(r[..|r| - 1], x, y);
    }
  }

  /** Kept scalars keep their order. */
  lemma {:induction false} RemovedBeforeMonotone(r: seq<ByteSpan>, x: nat, y: nat)
    requires Canonical(r) && x < y && Outside(r, x) && Outside(r, y)
    ensures x - RemovedBefore(r, x) <= y - RemovedBefore(r, y)
    ensures !Covers(r, x) ==> x - RemovedBefore(r, x) < y - RemovedBefore(r, y)
    decreases |r|
  {
    if r != [] {
      var n := |r| - 1;
      CanonicalFront(r);
      OutsideFront(r, x);
      OutsideFront(r, y);
      hide Canonical, Covers, Outside;
      if x < r[n].end <= y {
        RemovedBeforeUnchanged(r[..n], r[n].start, y);
        if x < r[n].start {
          RemovedBeforeMonotone(r[..n], x, r[n].start);
        }
      } else {
        RemovedBeforeMonotone(r[..n], x, y);
      }
    }
  }

  lemma OutsideFront(r: seq<ByteSpan>, x: nat)
    requires Canonical(r) && r != [] && Outside(r, x)
    ensures var n := |r| - 1;
      Outside(r[..n], x) && Outside(r[..n], r[n].start) && (x <= r[n].start || r[n].end <= x)
    ensures x == r[|r| - 1].start ==> Covers(r, x)
    ensures Covers(r[..|r| - 1], x) ==> Covers(r, x)
    ensures forall k :: 0 <= k < |r| - 1 ==> r[k].end < r[|r| - 1].start
  {
    assert r[|r| - 1].start < r[|r| - 1].end;
    if Covers(r[..|r| - 1], x) {
      CoversFront(r, x);
    }
    if x == r[|r| - 1].start {
      assert In(r[|r| - 1], x);
    }
  }

  lemma CoversFront(r: seq<ByteSpan>, x: nat)
    requires r != [] && Covers(r[..|r| - 1], x)
    ensures Covers(r, x)
  {
    var k :| 0 <= k < |r| - 1 && In(r[..|r| - 1][k], x);
    assert In(r[k], x);
  }

  lemma {:induction false} KeptLength(s: string, r: seq<ByteSpan>, x: nat)
    requires Canonical(r) && (r != [] ==> r[|r| - 1].end <= |s| && r[|r| - 1].end <= x)
    ensures |Kept(s, r)| == |s| - RemovedBefore(r, x)
    decreases |r|
  {
    if r != [] {
      var n := |r| - 1;
      CanonicalFront(r);
      KeptLength(s[..r[n].start], r[..n], x);
    }
  }

  /** A scalar outside the removals survives, shifted by what was removed before it. */
  lemma {:induction false} KeptAt(s: string, r: seq<ByteSpan>, i: nat)
    requires Canonical(r) && (r != [] ==> r[|r| - 1].end <= |s|)
    requires i < |s| && Outside(r, i) && !Covers(r, i)
    ensures 0 <= i - RemovedBefore(r, i) < |Kept(s, r)|
    ensures Kept(s, r)[i - RemovedBefore(r, i)] == s[i]
    decreases |r|
  {
    RemovedBeforeBound(r, i);
    if r != [] {
      var n := |r| - 1;
      CanonicalFront(r);
      var head := s[..r[n].start];
      if r[n].end <= i {
        KeptLength(head, r[..n], i);
      } else {
        assert !In(r[n], i);
        assert !Covers(r[..n], i) by {
          if Covers(r[..n], i) {
            CoversFront(r, i);
          }
        }
        KeptAt(head, r[..n], i);
      }
    }
  }

  lemma SurvivesBeforeLast(r: seq<ByteSpan>, i: nat)
    requires Canonical(r) && r != [] && i < r[|r| - 1].start
    requires Outside(r[..|r| - 1], i) && !Covers(r[..|r| - 1], i)
    ensures Outside(r, i) && !Covers(r, i) && RemovedBefore(r, i) == RemovedBefore(r[..|r| - 1], i)
  {
    var n := |r| - 1;
    assert r == r[..n] + [r[n]];
    CoversConcat(r[..n], [r[n]], i);
    CoversOne(r[n], i);
    forall k | 0 <= k < |r| ensures i <= r[k].start || r[k].end <= i {
      assert k < n ==> r[..n][k] == r[k];
    }
  }

  lemma SurvivesAfterLast(r: seq<ByteSpan>, i: nat)
    requires Canonical(r) && r != [] && r[|r| - 1].end <= i
    ensures Outside(r, i) && !Covers(r, i)
  {
    forall k | 0 <= k < |r| ensures r[k].end <= i {
    }
  }

  /** Every scalar of the stripped text comes from a surviving one. */
  lemma {:induction false} KeptFrom(s: string, r: seq<ByteSpan>, j: nat) returns (i: nat)
    requires Canonical(r) && (r != [] ==> r[|r| - 1].end <= |s|)
    requires j < |Kept(s, r)|
    ensures i < |s| && Outside(r, i) && !Covers(r, i) && j == i - RemovedBefore(r, i)
    decreases |r|
  {
    if r == [] {
      i := j;
    } else {
      var n := |r| - 1;
      CanonicalFront(r);
      var head := s[..r[n].start];
      if j < |Kept(head, r[..n])| {
        i := KeptFrom(head, r[..n], j);
        SurvivesBeforeLast(r, i);
      } else {
        i := r[n].end + (j - |Kept(head, r[..n])|);
        KeptLength(head, r[..n], i);
        SurvivesAfterLast(r, i);
      }
    }
  }

  // ---- Byte coordinates of the stripped text ----------------------------

  /** `rb` is `rc` in byte offsets of `s`. */
  ghost predicate Aligned(s: string, rc: seq<ByteSpan>, rb: seq<ByteSpan>) {
    && |rc| == |rb|
    && forall k :: 0 <= k < |rc| ==>
         rc[k].start <= rc[k].end <= |s|
         && Offset(s, rc[k].start) == rb[k].start && Offset(s, rc[k].end) == rb[k].end
  }

  lemma OffsetPrefix(s: string, n: nat, i: nat)
    requires i <= n <= |s|
    ensures Offset(s[..n], i) == Offset(s, i)
  {
    assert s[..n][..i] == s[..i];
  }

  lemma AlignedFront(s: string, rc: seq<ByteSpan>, rb: seq<ByteSpan>)
    requires Canonical(rc) && Aligned(s, rc, rb) && rc != []
    ensures Aligned(s[..rc[|rc| - 1].start], rc[..|rc| - 1], rb[..|rb| - 1])
  {
    var n := |rc| - 1;
    forall k | 0 <= k < n
      ensures rc[k].end <= rc[n].start && Offset(s[..rc[n].start], rc[k].start) == rb[k].start
        && Offset(s[..rc[n].start], rc[k].end) == rb[k].end
    {
      OffsetPrefix(s, rc[n].start, rc[k].start);
      OffsetPrefix(s, rc[n].start, rc[k].end);
    }
  }

  /** Appending the text after a removal keeps the two offsets in step. */
  lemma OffsetAcross(s: string, a: nat, b: nat, i: nat, kept: string)
    requires a < b <= i <= |s|
    ensures |kept| + (i - b) <= |kept + s[b..]|
    ensures Offset(kept + s[b..], |kept| + (i - b)) == ByteLen(kept) + Offset(s, i) - Offset(s, b)
  {
    assert (kept + s[b..])[..|kept| + (i - b)] == kept + s[b..i];
    ByteLenConcat(kept, s[b..i]);
    assert s[..i] == s[..b] + s[b..i];
    ByteLenConcat(s[..b], s[b..i]);
  }

  lemma OffsetOrder(s: string, i: nat, j: nat)
    requires i <= |s| && j <= |s|
    ensures i < j <==> Offset(s, i) < Offset(s, j)
  {
    if i < j {
      OffsetMonotone(s, i, j);
    } else if j < i {
      OffsetMonotone(s, j, i);
    }
  }

  lemma OffsetBeforeLast(s: string, rc: seq<ByteSpan>, rb: seq<ByteSpan>, i: nat)
    requires Canonical(rc) && Canonical(rb) && Aligned(s, rc, rb) && rc != []
    requires i <= rc[|rc| - 1].start
    ensures RemovedBefore(rc, i) == RemovedBefore(rc[..|rc| - 1], i)
    ensures RemovedBefore(rb, Offset(s, i)) == RemovedBefore(rb[..|rb| - 1], Offset(s, i))
  {
    OffsetOrder(s, i, rc[|rc| - 1].end);
  }

  lemma OffsetAfterLast(s: string, rc: seq<ByteSpan>, rb: seq<ByteSpan>, i: nat)
    requires Canonical(rc) && Canonical(rb) && Aligned(s, rc, rb) && rc != []
    requires rc[|rc| - 1].end <= i <= |s|
    ensures var n := |rc| - 1; var a := rc[n].start;
            RemovedBefore(rc, i) == RemovedBefore(rc[..n], a) + (rc[n].end - a)
    ensures var n := |rc| - 1; var a := Offset(s, rc[n].start);
            RemovedBefore(rb, Offset(s, i)) == RemovedBefore(rb[..n], a) + (Offset(s, rc[n].end) - a)
  {
    var n := |rc| - 1;
    CanonicalFront(rc);
    CanonicalFront(rb);
    OffsetOrder(s, i, rc[n].end);
    OffsetOrder(s, rc[n].start, i);
    RemovedBeforeUnchanged(rc[..n], rc[n].start, i);
    RemovedBeforeUnchanged(rb[..n], rb[n].start, Offset(s, i));
  }

  /** Byte subtraction gives the byte offset of the same scalar in the stripped text. */
  lemma {:induction false} OffsetKept(s: string, rc: seq<ByteSpan>, rb: seq<ByteSpan>, i: nat)
    requires Canonical(rc) && Canonical(rb) && Aligned(s, rc, rb)
    requires i <= |s| && Outside(rc, i)
    ensures 0 <= i - RemovedBefore(rc, i) <= |Kept(s, rc)|
    ensures Offset(Kept(s, rc), i - RemovedBefore(rc, i)) == Offset(s, i) - RemovedBefore(rb, Offset(s, i))
    decreases |rc|, 1
  {
    if rc != [] {
      if i <= rc[|rc| - 1].start {
        OffsetKeptBefore(s, rc, rb, i);
      } else {
        OffsetKeptAfter(s, rc, rb, i);
      }
    }
  }

  lemma {:induction false} OffsetKeptBefore(s: string, rc: seq<ByteSpan>, rb: seq<ByteSpan>, i: nat)
    requires Canonical(rc) && Canonical(rb) && Aligned(s, rc, rb) && rc != []
    requires i <= rc[|rc| - 1].start && Outside(rc, i)
    ensures 0 <= i - RemovedBefore(rc, i) <= |Kept(s, rc)|
    ensures Offset(Kept(s, rc), i - RemovedBefore(rc, i)) == Offset(s, i) - RemovedBefore(rb, Offset(s, i))
    decreases |rc|, 0
  {
    OutsideFront(rc, i);
    CanonicalFront(rc);
    CanonicalFront(rb);
    hide Canonical, Outside, ByteLen, Kept, RemovedBefore, Aligned;
    var n, a := |rc| - 1, rc[|rc| - 1].start;
    AlignedFront(s, rc, rb);
    OffsetKept(s[..a], rc[..n], rb[..n], i);
    OffsetPrefix(s, a, i);
    OffsetBeforeLast(s, rc, rb, i);
    KeptPrefix(s, rc, i - RemovedBefore(rc, i));
  }

  lemma KeptPrefix(s: string, rc: seq<ByteSpan>, j: nat)
    requires Canonical(rc) && rc != [] && rc[|rc| - 1].end <= |s|
    requires Canonical(rc[..|rc| - 1]) && (|rc| > 1 ==> rc[|rc| - 2].end <= rc[|rc| - 1].start)
    requires j <= |Kept(s[..rc[|rc| - 1].start], rc[..|rc| - 1])|
    ensures j <= |Kept(s, rc)|
    ensures Offset(Kept(s, rc), j) == Offset(Kept(s[..rc[|rc| - 1].start], rc[..|rc| - 1]), j)
  {
    assert Kept(s, rc)[..j] == Kept(s[..rc[|rc| - 1].start], rc[..|rc| - 1])[..j];
  }

  lemma {:induction false} OffsetKeptAfter(s: string, rc: seq<ByteSpan>, rb: seq<ByteSpan>, i: nat)
    requires Canonical(rc) && Canonical(rb) && Aligned(s, rc, rb) && rc != []
    requires rc[|rc| - 1].end <= i <= |s|
    ensures 0 <= i - RemovedBefore(rc, i) <= |Kept(s, rc)|
    ensures Offset(Kept(s, rc), i - RemovedBefore(rc, i)) == Offset(s, i) - RemovedBefore(rb, Offset(s, i))
    decreases |rc|, 0
  {
    hide Canonical, Outside, ByteLen;
    CanonicalFront(rc);
    var n := |rc| - 1;
    var a, b := rc[n].start, rc[n].end;
    var kept := Kept(s[..a], rc[..n]);
    CanonicalFront(rb);
    AlignedFront(s, rc, rb);
    OffsetKept(s[..a], rc[..n], rb[..n], a);
    OffsetPrefix(s, a, a);
    KeptLength(s[..a], rc[..n], a);
    assert kept[..|kept|] == kept;
    OffsetAcross(s, a, b, i, kept);
    OffsetAfterLast(s, rc, rb, i);
  }

  // ---- Remapping ---------------------------------------------------------

  predicate OverlapsAny(span: ByteSpan, others: seq<ByteSpan>) {
    exists k :: 0 <= k < |others| && Overlaps(span, others[k])
  }

  /** `censor.retain(..)`: drop the spans that overlap some URL. */
  function Surviving(censors: seq<ByteSpan>, urls: seq<ByteSpan>): seq<ByteSpan> {
    if censors == [] then []
    else (if OverlapsAny(censors[0], urls) then [] else [censors[0]]) + Surviving(censors[1..], urls)
  }

  function Shift(r: seq<ByteSpan>, span: ByteSpan): ByteSpan
    requires Canonical(r)
  {
    RemovedBeforeBound(r, span.start);
    RemovedBeforeBound(r, span.end);
    ByteSpan(span.start - RemovedBefore(r, span.start), span.end - RemovedBefore(r, span.end))
  }

  /** The `filter_map` over the censor spans. */
  function Remap(r: seq<ByteSpan>, censors: seq<ByteSpan>): seq<ByteSpan>
    requires Canonical(r)
  {
    if censors == [] then []
    else
      var s := Shift(r, censors[0]);
      (if OverlapsAny(censors[0], r) || s.start >= s.end then [] else [s]) + Remap(r, censors[1..])
  }

  /** No span of `a` overlaps a removal. */
  ghost predicate Disjoint(a: seq<ByteSpan>, r: seq<ByteSpan>) {
    forall k :: 0 <= k < |a| ==> !OverlapsAny(a[k], r)
  }

  /** Inside a span that no removal touches, the shift is constant. */
  lemma {:induction false} ConstantShift(r: seq<ByteSpan>, s: ByteSpan, x: nat)
    requires Canonical(r) && !OverlapsAny(s, r) && s.start <= x <= s.end && s.start < s.end
    ensures Outside(r, x) && RemovedBefore(r, x) == RemovedBefore(r, s.start)
    ensures x < s.end ==> !Covers(r, x)
  {
    forall k | 0 <= k < |r| ensures s.end <= r[k].start || r[k].end <= s.start {
      assert !Overlaps(s, r[k]);
    }
    RemovedBeforeUnchanged(r, s.start, x);
  }

  /** A disjoint span keeps its length and shifts left. */
  lemma ShiftLength(r: seq<ByteSpan>, s: ByteSpan)
    requires Canonical(r) && !OverlapsAny(s, r) && s.start < s.end
    ensures Shift(r, s).start == s.start - RemovedBefore(r, s.start)
    ensures Shift(r, s).end - Shift(r, s).start == s.end - s.start
  {
    ConstantShift(r, s, s.end);
  }

  /** On disjoint spans nothing is dropped: remapping shifts each span. */
  lemma {:induction false} RemapAll(r: seq<ByteSpan>, a: seq<ByteSpan>)
    requires Canonical(r) && NonEmpty(a) && Disjoint(a, r)
    ensures |Remap(r, a)| == |a|
    ensures forall k :: 0 <= k < |a| ==> Remap(r, a)[k] == Shift(r, a[k])
    ensures NonEmpty(Remap(r, a))
  {
    if a != [] {
      ShiftLength(r, a[0]);
      assert forall k :: 0 <= k < |a[1..]| ==> a[1..][k] == a[k + 1];
      RemapAll(r, a[1..]);
    }
  }

  /** A byte of the stripped text is covered iff the byte it came from was. */
  lemma RemapCovers(r: seq<ByteSpan>, a: seq<ByteSpan>, x: nat)
    requires Canonical(r) && NonEmpty(a) && Disjoint(a, r)
    requires Covers(a, x)
    ensures !Covers(r, x) && Outside(r, x)
    ensures x - RemovedBefore(r, x) >= 0 && Covers(Remap(r, a), x - RemovedBefore(r, x))
  {
    var k :| 0 <= k < |a| && In(a[k], x);
    ConstantShift(r, a[k], x);
    ShiftLength(r, a[k]);
    RemapAll(r, a);
    assert In(Remap(r, a)[k], x - RemovedBefore(r, x));
  }

  lemma RemapCovered(r: seq<ByteSpan>, a: seq<ByteSpan>, z: nat) returns (x: nat)
    requires Canonical(r) && NonEmpty(a) && Disjoint(a, r)
    requires Covers(Remap(r, a), z)
    ensures Covers(a, x) && z == x - RemovedBefore(r, x)
  {
    RemapAll(r, a);
    var k :| 0 <= k < |a| && In(Remap(r, a)[k], z);
    ShiftLength(r, a[k]);
    x := z + RemovedBefore(r, a[k].start);
    ConstantShift(r, a[k], x);
    assert In(a[k], x);
  }

  lemma RemapSameCoverage(r: seq<ByteSpan>, a: seq<ByteSpan>, b: seq<ByteSpan>)
    requires Canonical(r) && NonEmpty(a) && NonEmpty(b) && Disjoint(a, r) && Disjoint(b, r)
    requires forall x :: Covers(a, x) <==> Covers(b, x)
    ensures forall z :: Covers(Remap(r, a), z) <==> Covers(Remap(r, b), z)
  {
    forall z ensures Covers(Remap(r, a), z) <==> Covers(Remap(r, b), z) {
      if Covers(Remap(r, a), z) {
        var x := RemapCovered(r, a, z);
        RemapCovers(r, b, x);
      }
      if Covers(Remap(r, b), z) {
        var x := RemapCovered(r, b, z);
        RemapCovers(r, a, x);
      }
    }
  }

  lemma CoversAt(spans: seq<ByteSpan>, k: nat, x: nat)
    requires k < |spans| && spans[k].start <= x < spans[k].end
    ensures Covers(spans, x)
  {
    assert In(spans[k], x);
  }

  /** Merging disjoint spans leaves them disjoint from the removals. */
  lemma MergedDisjoint(r: seq<ByteSpan>, a: seq<ByteSpan>)
    requires Canonical(r) && NonEmpty(a) && Disjoint(a, r)
    ensures Disjoint(MergedSpans(a), r)
  {
    MergedCanonical(a);
    var m := MergedSpans(a);
    forall k | 0 <= k < |m| ensures !OverlapsAny(m[k], r) {
      if j: nat :| j < |r| && Overlaps(m[k], r[j]) {
        var x := Max(m[k].start, r[j].start);
        CoversAt(m, k, x);
        CoversAt(r, j, x);
        RemapCovers(r, a, x);
      }
    }
  }

  /** Some removal is exactly the gap between two merged spans, so cutting it makes them touch. */
  ghost predicate NewlyTouching(m: seq<ByteSpan>, r: seq<ByteSpan>) {
    exists i, j :: 0 <= i < j < |m| && ByteSpan(m[i].end, m[j].start) in r
  }

  /** A stretch is removed entirely only when it is one removal. */
  lemma {:induction false} GapRemoved(r: seq<ByteSpan>, x: nat, y: nat) returns (k: nat)
    requires Canonical(r) && x < y && Outside(r, x) && Outside(r, y)
    requires x - RemovedBefore(r, x) == y - RemovedBefore(r, y)
    ensures k < |r| && r[k] == ByteSpan(x, y)
    decreases |r|
  {
    assert r != [];
    var n := |r| - 1;
    CanonicalFront(r);
    OutsideFront(r, x);
    OutsideFront(r, y);
    hide Canonical, Covers, Outside;
    if x < r[n].end <= y {
      RemovedBeforeUnchanged(r[..n], r[n].start, y);
      if x < r[n].start {
        RemovedBeforeMonotone(r[..n], x, r[n].start);
        k := GapRemoved(r[..n], x, r[n].start);
        assert false;
      } else {
        k := n;
      }
    } else {
      k := GapRemoved(r[..n], x, y);
    }
  }

  lemma {:induction false} WholeGap(r: seq<ByteSpan>, k: nat)
    requires Canonical(r) && k < |r|
    ensures r[k].start - RemovedBefore(r, r[k].start) == r[k].end - RemovedBefore(r, r[k].end)
    decreases |r|
  {
    var n := |r| - 1;
    CanonicalFront(r);
    if k < n {
      assert r[..n][k] == r[k];
      WholeGap(r[..n], k);
    } else {
      RemovedBeforeUnchanged(r[..n], r[n].start, r[n].end);
    }
  }

  /** Two merged spans stay apart unless the gap between them was removed. */
  lemma ShiftedPair(r: seq<ByteSpan>, a: ByteSpan, b: ByteSpan)
    requires Canonical(r) && !OverlapsAny(a, r) && !OverlapsAny(b, r)
    requires a.start < a.end < b.start < b.end
    ensures Shift(r, a).end <= Shift(r, b).start
    ensures Shift(r, a).end == Shift(r, b).start <==> ByteSpan(a.end, b.start) in r
  {
    ConstantShift(r, a, a.end);
    ConstantShift(r, b, b.start);
    RemovedBeforeMonotone(r, a.end, b.start);
    if Shift(r, a).end == Shift(r, b).start {
      var k := GapRemoved(r, a.end, b.start);
    }
    if ByteSpan(a.end, b.start) in r {
      var k :| 0 <= k < |r| && r[k] == ByteSpan(a.end, b.start);
      WholeGap(r, k);
    }
  }

  /** Remapped merged spans stay separated exactly when no removal was a whole gap. */
  lemma RemapCanonical(r: seq<ByteSpan>, m: seq<ByteSpan>)
    requires Canonical(r) && Canonical(m) && Disjoint(m, r)
    ensures Canonical(Remap(r, m)) <==> !NewlyTouching(m, r)
  {
    RemapAll(r, m);
    var q := Remap(r, m);
    forall i, j | 0 <= i < j < |m|
      ensures q[i].end < q[j].start <==> ByteSpan(m[i].end, m[j].start) !in r
    {
      ShiftedPair(r, m[i], m[j]);
    }
    if NewlyTouching(m, r) {
      var i, j :| 0 <= i < j < |m| && ByteSpan(m[i].end, m[j].start) in r;
      assert !(q[i].end < q[j].start);
    }
  }

  /** Merging before remapping equals merging after it, exactly when no two spans newly touch. */
  lemma MergeRemapCommute(r: seq<ByteSpan>, a: seq<ByteSpan>)
    requires Canonical(r) && NonEmpty(a) && Disjoint(a, r)
    ensures MergedSpans(Remap(r, a)) == Remap(r, MergedSpans(a)) <==> !NewlyTouching(MergedSpans(a), r)
  {
    var m := MergedSpans(a);
    MergedCanonical(a);
    CanonicalNonEmpty(m);
    MergedDisjoint(r, a);
    RemapCanonical(r, m);
    RemapAll(r, a);
    MergedCanonical(Remap(r, a));
    if !NewlyTouching(m, r) {
      RemapSameCoverage(r, a, m);
      CanonicalUnique(MergedSpans(Remap(r, a)), Remap(r, m));
    }
  }
}
