/**
 * Byte spans and `merge_spans` (resolver.rs and delivery.rs hold the same
 * algorithm): sort, then absorb every span that overlaps or touches the last
 * merged one.
 */
module Spans {
  import opened Sorting

  datatype ByteSpan = ByteSpan(start: nat, end: nat)

  function SpanLeq(a: ByteSpan, b: ByteSpan): bool {
    a.start < b.start || (a.start == b.start && a.end <= b.end)
  }

  function Max(a: nat, b: nat): nat { if a < b then b else a }

  function Min(a: nat, b: nat): nat { if a < b then a else b }

  predicate Overlaps(left: ByteSpan, right: ByteSpan) {
    left.start < right.end && right.start < left.end
  }

  ghost predicate In(s: ByteSpan, b: nat) { s.start <= b < s.end }

  /** Some span of the list contains byte `b`. */
  ghost predicate Covers(spans: seq<ByteSpan>, b: nat) {
    exists k :: 0 <= k < |spans| && In(spans[k], b)
  }

  ghost predicate NonEmpty(spans: seq<ByteSpan>) {
    forall k :: 0 <= k < |spans| ==> spans[k].start < spans[k].end
  }

  lemma CoversConcat(a: seq<ByteSpan>, c: seq<ByteSpan>, b: nat)
    ensures Covers(a + c, b) <==> Covers(a, b) || Covers(c, b)
  {
    if Covers(a, b) {
      var k :| 0 <= k < |a| && In(a[k], b);
      assert (a + c)[k] == a[k];
    }
    if Covers(c, b) {
      var k :| 0 <= k < |c| && In(c[k], b);
      assert (a + c)[|a| + k] == c[k];
    }
  }

  /** Ascending, non-empty, and with at least one uncovered byte between neighbours. */
  ghost predicate Canonical(spans: seq<ByteSpan>) {
    && (forall i :: 0 <= i < |spans| ==> spans[i].start < spans[i].end)
    && (forall i, j :: 0 <= i < j < |spans| ==> spans[i].end < spans[j].start)
  }

  lemma CanonicalFront(r: seq<ByteSpan>)
    requires Canonical(r) && r != []
    ensures Canonical(r[..|r| - 1]) && r[|r| - 1].start < r[|r| - 1].end
    ensures |r| > 1 ==> r[|r| - 2].end < r[|r| - 1].start
  {
  }

  /** One iteration of the merging loop. */
  function Absorb(merged: seq<ByteSpan>, span: ByteSpan): seq<ByteSpan> {
    if merged != [] && span.start <= merged[|merged| - 1].end then
      var last := merged[|merged| - 1];
      merged[..|merged| - 1] + [ByteSpan(last.start, Max(last.end, span.end))]
    else
      merged + [span]
  }

  function Coalesce(sorted: seq<ByteSpan>): seq<ByteSpan> {
    if sorted == [] then []
    else Absorb(Coalesce(sorted[..|sorted| - 1]), sorted[|sorted| - 1])
  }

  function MergedSpans(spans: seq<ByteSpan>): seq<ByteSpan> {
    Coalesce(Sort(spans, SpanLeq))
  }

  lemma CoalesceStep(sorted: seq<ByteSpan>, n: nat)
    requires n < |sorted|
    ensures Coalesce(sorted[..n + 1]) == Absorb(Coalesce(sorted[..n]), sorted[n])
  {
    assert sorted[..n + 1][..n] == sorted[..n];
  }

  method MergeSpans(spans: seq<ByteSpan>) returns (merged: seq<ByteSpan>)
    ensures merged == MergedSpans(spans)
    ensures NonEmpty(spans) ==> Canonical(merged)
    ensures NonEmpty(spans) ==> forall b :: Covers(merged, b) <==> Covers(spans, b)
  {
    hide Canonical, Covers, Coalesce;
    var sorted := Sort(spans, SpanLeq);
    merged := [];
    assert Coalesce(sorted[..0]) == [] by {
      CoalesceNothing(sorted[..0]);
    }
    for n := 0 to |sorted|
      invariant merged == Coalesce(sorted[..n])
    {
      var span := sorted[n];
      CoalesceStep(sorted, n);
      if merged != [] && span.start <= merged[|merged| - 1].end {
        var last := merged[|merged| - 1];
        merged := merged[|merged| - 1 := ByteSpan(last.start, Max(last.end, span.end))];
      } else {
        merged := merged + [span];
      }
    }
    assert sorted[..|sorted|] == sorted;
    if NonEmpty(spans) {
      MergedCanonical(spans);
    }
  }

  lemma CoalesceNothing(s: seq<ByteSpan>)
    requires s == []
    ensures Coalesce(s) == []
  {
  }

  /** One iteration keeps the list canonical and adds exactly the bytes of `x`. */
  lemma AbsorbCorrect(m: seq<ByteSpan>, x: ByteSpan)
    requires Canonical(m) && x.start < x.end
    requires m != [] ==> m[|m| - 1].start <= x.start
    ensures Canonical(Absorb(m, x))
    ensures Absorb(m, x) != [] && Absorb(m, x)[|Absorb(m, x)| - 1].start <= x.start
    ensures forall b :: Covers(Absorb(m, x), b) <==> Covers(m, b) || In(x, b)
  {
    AbsorbCanonical(m, x);
    hide Canonical;
    forall b ensures Covers(Absorb(m, x), b) <==> Covers(m, b) || In(x, b) {
      AbsorbCovers(m, x, b);
    }
  }

  lemma AbsorbCanonical(m: seq<ByteSpan>, x: ByteSpan)
    requires Canonical(m) && x.start < x.end
    requires m != [] ==> m[|m| - 1].start <= x.start
    ensures Canonical(Absorb(m, x))
    ensures Absorb(m, x) != [] && Absorb(m, x)[|Absorb(m, x)| - 1].start <= x.start
  {
  }

  lemma AbsorbCovers(m: seq<ByteSpan>, x: ByteSpan, b: nat)
    requires m != [] ==> m[|m| - 1].start <= x.start
    ensures Covers(Absorb(m, x), b) <==> Covers(m, b) || In(x, b)
  {
    hide Covers;
    if m != [] && x.start <= m[|m| - 1].end {
      var k := |m| - 1;
      AbsorbLast(m[..k], m[k], x, b);
      assert m == m[..k] + [m[k]];
    } else {
      CoversConcat(m, [x], b);
      CoversOne(x, b);
    }
  }

  lemma AbsorbLast(front: seq<ByteSpan>, last: ByteSpan, x: ByteSpan, b: nat)
    requires last.start <= x.start <= last.end
    ensures Covers(front + [ByteSpan(last.start, Max(last.end, x.end))], b)
        <==> Covers(front + [last], b) || In(x, b)
  {
    var grown := ByteSpan(last.start, Max(last.end, x.end));
    CoversConcat(front, [last], b);
    CoversConcat(front, [grown], b);
    CoversOne(last, b);
    CoversOne(grown, b);
  }

  lemma SortedFront(s: seq<ByteSpan>)
    requires Sorted(s, SpanLeq) && NonEmpty(s) && s != []
    ensures var n := |s| - 1; Sorted(s[..n], SpanLeq) && NonEmpty(s[..n]) && s[n].start < s[n].end
    ensures |s| > 1 ==> s[|s| - 2].start <= s[|s| - 1].start
  {
    assert |s| > 1 ==> SpanLeq(s[|s| - 2], s[|s| - 1]);
  }

  lemma {:induction false} CoalesceCorrect(s: seq<ByteSpan>)
    requires Sorted(s, SpanLeq) && NonEmpty(s)
    ensures Canonical(Coalesce(s))
    ensures s != [] ==> Coalesce(s) != [] && Coalesce(s)[|Coalesce(s)| - 1].start <= s[|s| - 1].start
    ensures forall b :: Covers(Coalesce(s), b) <==> Covers(s, b)
  {
    hide Canonical, Covers, Sorted, NonEmpty, Absorb;
    if s == [] {
      NothingCanonical();
    } else {
      var n := |s| - 1;
      SortedFront(s);
      CoalesceCorrect(s[..n]);
      AbsorbCorrect(Coalesce(s[..n]), s[n]);
      forall b ensures Covers(Coalesce(s), b) <==> Covers(s, b) {
        assert s == s[..n] + [s[n]];
        CoversConcat(s[..n], [s[n]], b);
        CoversOne(s[n], b);
      }
    }
  }

  lemma NothingCanonical()
    ensures Canonical([]) && forall b :: !Covers([], b)
  {
  }

  lemma CoversOne(x: ByteSpan, b: nat)
    ensures Covers([x], b) <==> In(x, b)
  {
    assert [x][0] == x;
  }

  /** The same spans, in any order and multiplicity, cover the same bytes. */
  lemma SameElements(a: seq<ByteSpan>, b: seq<ByteSpan>)
    requires forall x :: x in a <==> x in b
    ensures NonEmpty(a) <==> NonEmpty(b)
    ensures forall x :: Covers(a, x) <==> Covers(b, x)
  {
    assert forall k :: 0 <= k < |a| ==> a[k] in b;
    assert forall k :: 0 <= k < |b| ==> b[k] in a;
  }

  lemma MergedCanonical(spans: seq<ByteSpan>)
    requires NonEmpty(spans)
    ensures Canonical(MergedSpans(spans))
    ensures forall b :: Covers(MergedSpans(spans), b) <==> Covers(spans, b)
  {
    SortCorrect(spans, SpanLeq);
    SameElements(Sort(spans, SpanLeq), spans);
    CoalesceCorrect(Sort(spans, SpanLeq));
  }

  lemma CanonicalNonEmpty(spans: seq<ByteSpan>)
    requires Canonical(spans)
    ensures NonEmpty(spans)
  {
  }

  lemma CoversHead(s: seq<ByteSpan>, b: nat)
    requires Canonical(s) && s != []
    ensures Canonical(s[1..])
    ensures Covers(s, b) <==> In(s[0], b) || Covers(s[1..], b)
    ensures Covers(s[1..], b) ==> s[0].end < b
    ensures Covers(s, b) ==> s[0].start <= b
  {
    assert s == [s[0]] + s[1..];
    CoversConcat([s[0]], s[1..], b);
    if Covers(s[1..], b) {
      var k :| 0 <= k < |s[1..]| && In(s[1..][k], b);
      assert s[k + 1] == s[1..][k];
    }
  }

  /** A canonical list is determined by the bytes it covers. */
  lemma {:induction false} CanonicalUnique(a: seq<ByteSpan>, b: seq<ByteSpan>)
    requires Canonical(a) && Canonical(b)
    requires forall x :: Covers(a, x) <==> Covers(b, x)
    ensures a == b
  {
    CanonicalNonEmpty(a);
    CanonicalNonEmpty(b);
    assert b != [] ==> Covers(b, b[0].start) by {
      assert b != [] ==> In(b[0], b[0].start);
    }
    if a == [] {
    } else {
      assert In(a[0], a[0].start) && Covers(a, a[0].start);
      FirstAgrees(a, b);
      forall x ensures Covers(a[1..], x) <==> Covers(b[1..], x) {
        CoversHead(a, x);
        CoversHead(b, x);
      }
      CoversHead(a, 0);
      CoversHead(b, 0);
      CanonicalUnique(a[1..], b[1..]);
    }
  }

  lemma FirstAgrees(a: seq<ByteSpan>, b: seq<ByteSpan>)
    requires Canonical(a) && Canonical(b) && a != [] && b != []
    requires forall x :: Covers(a, x) <==> Covers(b, x)
    ensures a[0] == b[0]
  {
    CanonicalNonEmpty(a);
    CanonicalNonEmpty(b);
    assert In(a[0], a[0].start) && In(b[0], b[0].start);
    CoversHead(a, b[0].start);
    CoversHead(b, a[0].start);
    CoversHead(a, a[0].end);
    CoversHead(b, a[0].end);
    CoversHead(a, b[0].end);
    CoversHead(b, b[0].end);
  }

  /** Merging is idempotent on its own output. */
  lemma MergedFixed(a: seq<ByteSpan>)
    requires Canonical(a)
    ensures MergedSpans(a) == a
  {
    CanonicalNonEmpty(a);
    MergedCanonical(a);
    CanonicalUnique(MergedSpans(a), a);
  }

  /** Lists that cover the same bytes merge to the same list. */
  lemma MergedByCoverage(a: seq<ByteSpan>, b: seq<ByteSpan>)
    requires NonEmpty(a) && NonEmpty(b)
    requires forall x :: Covers(a, x) <==> Covers(b, x)
    ensures MergedSpans(a) == MergedSpans(b)
  {
    MergedCanonical(a);
    MergedCanonical(b);
    CanonicalUnique(MergedSpans(a), MergedSpans(b));
  }

  /** Merging part of a list first makes no difference. */
  lemma MergeInStages(a: seq<ByteSpan>, b: seq<ByteSpan>)
    requires NonEmpty(a) && NonEmpty(b)
    ensures MergedSpans(MergedSpans(a) + b) == MergedSpans(a + b)
  {
    MergedCanonical(a);
    CanonicalNonEmpty(MergedSpans(a));
    forall x ensures Covers(MergedSpans(a) + b, x) <==> Covers(a + b, x) {
      CoversConcat(MergedSpans(a), b, x);
      CoversConcat(a, b, x);
    }
    MergedByCoverage(MergedSpans(a) + b, a + b);
  }

  /** The smallest span containing every source span of `s`, which is non-empty. */
  function Hull(s: seq<ByteSpan>): ByteSpan
    requires s != []
  {
    if |s| == 1 then s[0]
    else
      var rest := Hull(s[..|s| - 1]);
      var last := s[|s| - 1];
      ByteSpan(Min(rest.start, last.start), Max(rest.end, last.end))
  }

  lemma {:induction false} HullProper(s: seq<ByteSpan>)
    requires s != [] && NonEmpty(s)
    ensures Hull(s).start < Hull(s).end
  {
    if |s| > 1 {
      HullProper(s[..|s| - 1]);
    }
  }
}
