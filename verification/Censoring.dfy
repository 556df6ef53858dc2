/**
 * The text transformations of delivery.rs: character-preserving censorship,
 * removal of URL spans, and remapping of censor spans through the removals.
 */
module Censoring {
  import opened Wrappers
  import opened Spans
  import opened Utf8Text

  datatype TransformationError =
    | SpanOutOfBounds(start: nat, end: nat)
    | InvalidCharacterBoundary(start: nat, end: nat)

  predicate ValidSpan(s: string, span: ByteSpan) {
    span.start < span.end <= ByteLen(s) && IsBoundary(s, span.start) && IsBoundary(s, span.end)
  }

  ghost predicate AllValid(s: string, spans: seq<ByteSpan>) {
    forall k :: 0 <= k < |spans| ==> ValidSpan(s, spans[k])
  }

  /** The hull of valid spans is valid. */
  lemma {:induction false} HullValid(s: string, spans: seq<ByteSpan>)
    requires AllValid(s, spans) && spans != []
    ensures ValidSpan(s, Hull(spans))
  {
    if |spans| > 1 {
      HullValid(s, spans[..|spans| - 1]);
      hide IsBoundary, ByteLen;
    }
  }

  /** `validate_spans`: the error of the first invalid span. */
  function ValidateSpans(s: string, spans: seq<ByteSpan>): (r: Option<TransformationError>)
    ensures r == None <==> AllValid(s, spans)
  {
    if spans == [] then None
    else if spans[0].start >= spans[0].end || spans[0].end > ByteLen(s) then
      Some(SpanOutOfBounds(spans[0].start, spans[0].end))
    else if !IsBoundary(s, spans[0].start) || !IsBoundary(s, spans[0].end) then
      Some(InvalidCharacterBoundary(spans[0].start, spans[0].end))
    else
      assert AllValid(s, spans) <==> AllValid(s, spans[1..]) by {
        assert spans == [spans[0]] + spans[1..];
      }
      ValidateSpans(s, spans[1..])
  }

  /** `&s[a..b]` on byte offsets. */
  function Slice(s: string, a: nat, b: nat): string
    requires IsBoundary(s, a) && IsBoundary(s, b) && a <= b
  {
    ScalarOrder(s, a, b);
    s[Scalar(s, a)..Scalar(s, b)]
  }

  ghost function ScalarSpans(s: string, spans: seq<ByteSpan>): (r: seq<ByteSpan>)
    requires AllValid(s, spans)
    ensures |r| == |spans|
  {
    seq(|spans|, k requires 0 <= k < |spans| => Scalars(s, spans[k]))
  }

  // ---- Censorship -------------------------------------------------------

  /** Scalar `i` is replaced when `k` is censored: all but the two end scalars of a run of three or more. */
  ghost predicate InMask(k: ByteSpan, i: nat) {
    In(k, i) && !(k.end - k.start >= 3 && (i == k.start || i == k.end - 1))
  }

  ghost predicate Masked(spans: seq<ByteSpan>, i: nat) {
    exists k :: 0 <= k < |spans| && InMask(spans[k], i)
  }

  /** What censoring means: `spans` are disjoint runs in scalar indices. */
  ghost function CensorText(s: string, spans: seq<ByteSpan>): (r: string)
    ensures |r| == |s|
  {
    seq(|s|, i requires 0 <= i < |s| => if Masked(spans, i) then '#' else s[i])
  }

  function CensorFragment(fragment: string): string {
    if |fragment| == 0 then ""
    else if |fragment| == 1 then "#"
    else if |fragment| == 2 then "##"
    else [fragment[0]] + seq(|fragment| - 2, _ => '#') + [fragment[|fragment| - 1]]
  }

  /** The result of `censor_spans` for any span list whatever. */
  ghost function Censored(original: string, spans: seq<ByteSpan>): Result<string, TransformationError> {
    match ValidateSpans(original, MergedSpans(spans))
    case Some(error) => Err(error)
    case None => Ok(CensorText(original, ScalarSpans(original, MergedSpans(spans))))
  }

  lemma ScalarSpansCanonical(s: string, spans: seq<ByteSpan>)
    requires AllValid(s, spans) && Canonical(spans)
    ensures Canonical(ScalarSpans(s, spans))
    ensures forall k :: 0 <= k < |spans| ==> ScalarSpans(s, spans)[k].end <= |s|
  {
    var r := ScalarSpans(s, spans);
    forall i | 0 <= i < |r| ensures r[i].start < r[i].end {
      ScalarOrder(s, spans[i].start, spans[i].end);
    }
    forall i, j | 0 <= i < j < |r| ensures r[i].end < r[j].start {
      ScalarOrder(s, spans[i].end, spans[j].start);
    }
  }

  ghost predicate Separated(spans: seq<ByteSpan>) {
    forall i, j :: 0 <= i < j < |spans| ==> spans[i].end < spans[j].start
  }

  lemma AbsorbSeparated(m: seq<ByteSpan>, x: ByteSpan)
    requires Separated(m) && (m != [] ==> m[|m| - 1].start <= x.start)
    ensures Separated(Absorb(m, x))
    ensures Absorb(m, x) != [] && Absorb(m, x)[|Absorb(m, x)| - 1].start <= x.start
  {
    var r := Absorb(m, x);
    forall i, j | 0 <= i < j < |r| ensures r[i].end < r[j].start {
      assert i < |m| - 1 ==> m[i].end < m[|m| - 1].start;
    }
  }

  /** Merging separates the spans of any list, inverted spans included. */
  lemma {:induction false} CoalesceSeparated(sorted: seq<ByteSpan>)
    requires Sorting.Sorted(sorted, SpanLeq)
    ensures Separated(Coalesce(sorted))
    ensures sorted != [] ==> Coalesce(sorted) != []
    ensures sorted != [] ==> Coalesce(sorted)[|Coalesce(sorted)| - 1].start <= sorted[|sorted| - 1].start
  {
    if sorted != [] {
      var n := |sorted| - 1;
      CoalesceSeparated(sorted[..n]);
      assert n > 0 ==> SpanLeq(sorted[n - 1], sorted[n]);
      AbsorbSeparated(Coalesce(sorted[..n]), sorted[n]);
    }
  }

  lemma MergedValidCanonical(s: string, spans: seq<ByteSpan>)
    requires AllValid(s, MergedSpans(spans))
    ensures Canonical(MergedSpans(spans))
  {
    Sorting.SortCorrect(spans, SpanLeq);
    CoalesceSeparated(Sorting.Sort(spans, SpanLeq));
  }

  lemma MaskAt(spans: seq<ByteSpan>, n: nat, i: nat)
    requires Canonical(spans) && n < |spans| && In(spans[n], i)
    ensures Masked(spans, i) <==> InMask(spans[n], i)
  {
    forall k | 0 <= k < |spans| && k != n ensures !In(spans[k], i) {
    }
  }

  lemma NoMaskBetween(spans: seq<ByteSpan>, n: nat, i: nat)
    requires Canonical(spans) && n <= |spans|
    requires n > 0 ==> spans[n - 1].end <= i
    requires n < |spans| ==> i < spans[n].start
    ensures !Masked(spans, i)
  {
    forall k | 0 <= k < |spans| ensures !In(spans[k], i) {
      assert k < n - 1 ==> spans[k].end < spans[n - 1].start;
      assert k > n ==> spans[n].end < spans[k].start;
    }
  }

  /** One censored run, as the loop writes it. */
  lemma CensorRun(s: string, spans: seq<ByteSpan>, n: nat)
    requires Canonical(spans) && n < |spans| && spans[n].end <= |s|
    ensures CensorText(s, spans)[spans[n].start..spans[n].end] == CensorFragment(s[spans[n].start..spans[n].end])
  {
    var a, b := spans[n].start, spans[n].end;
    forall i | a <= i < b ensures CensorText(s, spans)[i] == CensorFragment(s[a..b])[i - a] {
      MaskAt(spans, n, i);
    }
  }

  /** The text between two censored runs is copied. */
  lemma CensorGap(s: string, spans: seq<ByteSpan>, n: nat, a: nat, b: nat)
    requires Canonical(spans) && n <= |spans| && a <= b <= |s|
    requires n > 0 ==> spans[n - 1].end <= a
    requires n < |spans| ==> b <= spans[n].start
    ensures CensorText(s, spans)[a..b] == s[a..b]
  {
    forall i | a <= i < b ensures CensorText(s, spans)[i] == s[i] {
      NoMaskBetween(spans, n, i);
    }
  }

  /** Where the cursor stands before run `n`: the end of the run before it. */
  ghost function CursorScalar(runs: seq<ByteSpan>, n: nat): nat
    requires n <= |runs|
  {
    if n == 0 then 0 else runs[n - 1].end
  }

  function CursorByte(merged: seq<ByteSpan>, n: nat): nat
    requires n <= |merged|
  {
    if n == 0 then 0 else merged[n - 1].end
  }

  lemma CursorAgrees(s: string, merged: seq<ByteSpan>, n: nat)
    requires AllValid(s, merged) && Canonical(merged) && n <= |merged|
    ensures IsBoundary(s, CursorByte(merged, n))
    ensures Scalar(s, CursorByte(merged, n)) == CursorScalar(ScalarSpans(s, merged), n)
    ensures n < |merged| ==> CursorByte(merged, n) <= merged[n].start
  {
    if n == 0 {
      ScalarOfOffset(s, 0);
    } else {
      assert n < |merged| ==> merged[n - 1].end < merged[n].start;
    }
  }

  /** One iteration of the censoring loop extends the output by one gap and one run. */
  lemma CensorStep(s: string, merged: seq<ByteSpan>, n: nat)
    requires AllValid(s, merged) && Canonical(merged) && n < |merged|
    requires IsBoundary(s, CursorByte(merged, n)) && CursorByte(merged, n) <= merged[n].start
    ensures var runs := ScalarSpans(s, merged); var want := CensorText(s, runs);
            CursorScalar(runs, n) <= runs[n].start <= runs[n].end <= |s|
            && want[..runs[n].end] == want[..CursorScalar(runs, n)]
                 + Slice(s, CursorByte(merged, n), merged[n].start)
                 + CensorFragment(Slice(s, merged[n].start, merged[n].end))
  {
    ScalarSpansCanonical(s, merged);
    CursorAgrees(s, merged, n);
    var runs := ScalarSpans(s, merged);
    var want := CensorText(s, runs);
    var at, a, b := CursorScalar(runs, n), runs[n].start, runs[n].end;
    ScalarOrder(s, CursorByte(merged, n), merged[n].start);
    CensorGap(s, runs, n, at, a);
    CensorRun(s, runs, n);
    hide Canonical, AllValid, CensorText, CensorFragment;
    CutThree(want, at, a, b);
  }

  lemma CutThree(text: string, i: nat, j: nat, k: nat)
    requires i <= j <= k <= |text|
    ensures text[..k] == text[..i] + text[i..j] + text[j..k]
  {
  }

  lemma CursorInBounds(s: string, merged: seq<ByteSpan>)
    requires AllValid(s, merged) && Canonical(merged)
    ensures CursorByte(merged, |merged|) <= ByteLen(s)
  {
    assert |merged| > 0 ==> ValidSpan(s, merged[|merged| - 1]);
  }

  lemma CensorTail(s: string, merged: seq<ByteSpan>, len: nat)
    requires AllValid(s, merged) && Canonical(merged)
    requires IsBoundary(s, len) && Scalar(s, len) == |s| && CursorByte(merged, |merged|) <= len
    ensures IsBoundary(s, CursorByte(merged, |merged|))
    ensures CursorScalar(ScalarSpans(s, merged), |merged|) <= |s|
    ensures CensorText(s, ScalarSpans(s, merged))
         == CensorText(s, ScalarSpans(s, merged))[..CursorScalar(ScalarSpans(s, merged), |merged|)]
            + Slice(s, CursorByte(merged, |merged|), len)
  {
    var n, runs := |merged|, ScalarSpans(s, merged);
    var want := CensorText(s, runs);
    CursorAgrees(s, merged, n);
    var at := CursorScalar(runs, n);
    assert at <= |s| && want[at..|s|] == s[at..|s|] by {
      ScalarSpansCanonical(s, merged);
      CensorGap(s, runs, n, at, |s|);
    }
    assert Slice(s, CursorByte(merged, n), len) == s[at..|s|];
    assert want == want[..at] + want[at..|s|];
  }

  method CensorSpans(original: string, spans: seq<ByteSpan>) returns (r: Result<string, TransformationError>)
    ensures r == Censored(original, spans)
  {
    var merged := MergeSpans(spans);
    var invalid := ValidateSpans(original, merged);
    if invalid.Some? {
      return Err(invalid.value);
    }
    MergedValidCanonical(original, spans);
    ghost var runs := ScalarSpans(original, merged);
    var output := "";
    var cursor := 0;
    for n := 0 to |merged|
      invariant cursor == CursorByte(merged, n)
      invariant CursorScalar(runs, n) <= |original|
      invariant output == CensorText(original, runs)[..CursorScalar(runs, n)]
    {
      var span := merged[n];
      CursorAgrees(original, merged, n);
      CensorStep(original, merged, n);
      output := output + Slice(original, cursor, span.start);
      output := output + CensorFragment(Slice(original, span.start, span.end));
      cursor := span.end;
    }
    EndBoundary(original);
    CursorInBounds(original, merged);
    CensorTail(original, merged, ByteLen(original));
    output := output + Slice(original, cursor, ByteLen(original));
    return Ok(output);
  }
}
