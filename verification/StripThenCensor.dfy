/**
 * The loops of `remove_spans_and_remap_censors` and `transform_or_reuse`,
 * proved against what cutting and censoring mean on scalars.
 */
module StripThenCensor {
  import opened Wrappers
  import opened Spans
  import opened Utf8Text
  import opened Censoring
  import opened Stripping

  /** The text left after cutting `removals` (byte spans), for removals that validate. */
  ghost function CutText(original: string, removals: seq<ByteSpan>): string
    requires AllValid(original, removals) && Canonical(removals)
  {
    ScalarSpansCanonical(original, removals);
    Kept(original, ScalarSpans(original, removals))
  }

  ghost function Removed(original: string, removals: seq<ByteSpan>, censors: seq<ByteSpan>):
    Result<(string, seq<ByteSpan>), TransformationError>
  {
    var merged := MergedSpans(removals);
    match ValidateSpans(original, merged)
    case Some(error) => Err(error)
    case None =>
      MergedValidCanonical(original, removals);
      Ok((CutText(original, merged), Remap(merged, censors)))
  }

  lemma KeptLast(s: string, r: seq<ByteSpan>, e: nat)
    requires r != [] && r[|r| - 1].start <= r[|r| - 1].end <= e <= |s|
    ensures Kept(s[..e], r) == Kept(s[..r[|r| - 1].start], r[..|r| - 1]) + s[r[|r| - 1].end..e]
  {
    var last := r[|r| - 1];
    assert s[..e][..last.start] == s[..last.start];
    assert s[..e][last.end..] == s[last.end..e];
  }

  lemma KeptExtend(s: string, r: seq<ByteSpan>, e: nat)
    requires r != [] ==> r[|r| - 1].start <= r[|r| - 1].end
    requires CursorScalar(r, |r|) <= e <= |s|
    ensures Kept(s[..CursorScalar(r, |r|)], r) + s[CursorScalar(r, |r|)..e] == Kept(s[..e], r)
  {
    hide Kept;
    var c := CursorScalar(r, |r|);
    if r == [] {
      KeptNothing(s[..c]);
      KeptNothing(s[..e]);
      assert s[..c] + s[c..e] == s[..e];
    } else {
      KeptLast(s, r, c);
      KeptLast(s, r, e);
      assert s[c..c] == "";
    }
  }

  lemma KeptNothing(s: string)
    ensures Kept(s, []) == s
  {
  }

  /** One iteration of the removal loop. */
  lemma CutStep(s: string, removals: seq<ByteSpan>, n: nat)
    requires AllValid(s, removals) && Canonical(removals) && n < |removals|
    ensures var runs := ScalarSpans(s, removals);
            Canonical(runs) && Canonical(runs[..n]) && Canonical(runs[..n + 1])
            && CursorScalar(runs, n) <= runs[n].end <= |s|
            && IsBoundary(s, CursorByte(removals, n)) && CursorByte(removals, n) <= removals[n].start
            && Kept(s[..CursorScalar(runs, n + 1)], runs[..n + 1])
               == Kept(s[..CursorScalar(runs, n)], runs[..n]) + Slice(s, CursorByte(removals, n), removals[n].start)
  {
    ScalarSpansCanonical(s, removals);
    CursorAgrees(s, removals, n);
    ScalarOrder(s, CursorByte(removals, n), removals[n].start);
    CanonicalParts(ScalarSpans(s, removals), n);
    hide Canonical, AllValid, ScalarAt;
    var runs := ScalarSpans(s, removals);
    KeptExtend(s, runs[..n], runs[n].start);
    KeptRun(s, runs, n);
  }

  lemma CanonicalParts(runs: seq<ByteSpan>, n: nat)
    requires Canonical(runs) && n < |runs|
    ensures Canonical(runs[..n]) && Canonical(runs[..n + 1])
    ensures CursorScalar(runs, n) <= runs[n].start < runs[n].end
    ensures CursorScalar(runs[..n], n) == CursorScalar(runs, n)
  {
    assert n > 0 ==> runs[n - 1].end < runs[n].start;
  }

  lemma KeptRun(s: string, runs: seq<ByteSpan>, n: nat)
    requires n < |runs| && runs[n].start < runs[n].end <= |s|
    ensures Kept(s[..runs[n].end], runs[..n + 1]) == Kept(s[..runs[n].start], runs[..n])
  {
    var a, e := runs[n].start, runs[n].end;
    assert runs[..n + 1][..n] == runs[..n];
    assert s[..e][..a] == s[..a] && s[..e][e..] == [];
  }

  method RemoveSpansAndRemapCensors(original: string, removals: seq<ByteSpan>, censors: seq<ByteSpan>)
    returns (r: Result<(string, seq<ByteSpan>), TransformationError>)
    ensures r == Removed(original, removals, censors)
  {
    var merged := MergeSpans(removals);
    var invalid := ValidateSpans(original, merged);
    if invalid.Some? {
      return Err(invalid.value);
    }
    MergedValidCanonical(original, removals);
    ScalarSpansCanonical(original, merged);
    ghost var runs := ScalarSpans(original, merged);
    var output := "";
    var cursor := 0;
    CutStart(original, runs);
    for n := 0 to |merged|
      invariant cursor == CursorByte(merged, n)
      invariant CursorScalar(runs, n) <= |original| && Canonical(runs[..n])
      invariant n > 0 ==> runs[..n][n - 1].end <= CursorScalar(runs, n)
      invariant output == Kept(original[..CursorScalar(runs, n)], runs[..n])
    {
      CutStep(original, merged, n);
      output := output + Slice(original, cursor, merged[n].start);
      cursor := merged[n].end;
    }
    EndBoundary(original);
    CursorInBounds(original, merged);
    CutTail(original, merged, ByteLen(original));
    output := output + Slice(original, cursor, ByteLen(original));
    return Ok((output, Remap(merged, censors)));
  }

  lemma CutStart(s: string, runs: seq<ByteSpan>)
    ensures Canonical(runs[..0]) && Kept(s[..0], runs[..0]) == ""
  {
  }

  lemma CutTail(s: string, merged: seq<ByteSpan>, len: nat)
    requires AllValid(s, merged) && Canonical(merged)
    requires IsBoundary(s, len) && Scalar(s, len) == |s| && CursorByte(merged, |merged|) <= len
    ensures IsBoundary(s, CursorByte(merged, |merged|))
    ensures CursorScalar(ScalarSpans(s, merged), |merged|) <= |s|
    ensures Kept(s, ScalarSpans(s, merged))
         == Kept(s[..CursorScalar(ScalarSpans(s, merged), |merged|)], ScalarSpans(s, merged)[..|merged|])
            + Slice(s, CursorByte(merged, |merged|), len)
  {
    hide ByteLen, ScalarAt, Kept;
    CursorAgrees(s, merged, |merged|);
    var runs := ScalarSpans(s, merged);
    assert CursorScalar(runs, |runs|) <= |s| && (runs != [] ==> runs[|runs| - 1].start < runs[|runs| - 1].end) by {
      ScalarSpansCanonical(s, merged);
    }
    hide Canonical, AllValid, CursorScalar;
    KeptExtend(s, runs, |s|);
    assert s[..|s|] == s && runs[..|merged|] == runs;
  }

  /** `transform_or_reuse`: what the message becomes, for any spans whatever. */
  ghost function Transformed(original: string, censor: seq<ByteSpan>, strip: bool, urls: seq<ByteSpan>):
    Result<string, TransformationError>
  {
    if !strip && censor == [] then Ok(original)
    else if !strip then Censored(original, censor)
    else match ValidateSpans(original, urls)
      case Some(error) => Err(error)
      case None => match ValidateSpans(original, censor)
        case Some(error) => Err(error)
        case None => StripCensor(original, Surviving(censor, urls), urls)
  }

  /** The strip branch once every span is valid; `kept` overlaps no URL. */
  ghost function StripCensor(original: string, kept: seq<ByteSpan>, urls: seq<ByteSpan>):
    Result<string, TransformationError>
  {
    match Censored(original, kept)
    case Err(error) => Err(error)
    case Ok(censored) =>
      if urls == [] then Ok(censored)
      else match Removed(original, urls, kept)
        case Err(error) => Err(error)
        case Ok((stripped, remapped)) => Censored(stripped, remapped)
  }

  method TransformOrReuse(original: string, censor: seq<ByteSpan>, strip: bool, urls: seq<ByteSpan>)
    returns (r: Result<string, TransformationError>)
    ensures r == Transformed(original, censor, strip, urls)
  {
    if !strip && censor == [] {
      return Ok(original);
    }
    if !strip {
      r := CensorSpans(original, censor);
      return;
    }
    var invalid := ValidateSpans(original, urls);
    if invalid.Some? {
      return Err(invalid.value);
    }
    invalid := ValidateSpans(original, censor);
    if invalid.Some? {
      return Err(invalid.value);
    }
    var kept := Surviving(censor, urls);
    r := CensorSpans(original, kept);
    if r.Ok? && urls != [] {
      SortReversed(original, urls, kept);
      var stripped := RemoveSpansAndRemapCensors(original, Sorting.Sort(urls, StartDescending), kept);
      if stripped.Err? {
        return Err(stripped.error);
      }
      r := CensorSpans(stripped.value.0, stripped.value.1);
    }
  }

  /** `sort_unstable_by_key(|span| Reverse(span.start))`. */
  predicate StartDescending(a: ByteSpan, b: ByteSpan) { a.start >= b.start }

  /** The descending presort is undone by the merge. */
  lemma SortReversed(original: string, urls: seq<ByteSpan>, kept: seq<ByteSpan>)
    ensures Removed(original, Sorting.Sort(urls, StartDescending), kept) == Removed(original, urls, kept)
  {
    var s := Sorting.Sort(urls, StartDescending);
    Sorting.SortCorrect(urls, StartDescending);
    Sorting.SortPermutation(s, urls, SpanLeq);
  }
}
