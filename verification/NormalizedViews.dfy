/**
 * normalization.rs: `NormalizedText`. Separator runs become single spaces,
 * byte spans tile the text, and a byte range maps back to the hull of the
 * source spans it touches - which is what the matcher's scalar positions mean.
 */
module NormalizedViews {
  import opened Wrappers
  import opened Sorting
  import opened Spans
  import opened Utf8Text
  import opened CanonicalOrder
  import opened CanonicalCompose
  import Matcher
  import Censoring

  datatype CharSpan = CharSpan(normalized: ByteSpan, original: ByteSpan)

  datatype NormalizedText = NormalizedText(text: string, spans: seq<CharSpan>)

  /** The character properties that separator handling reads. */
  datatype CharTests = CharTests(ignored: char -> bool, whitespace: char -> bool, punctuation: char -> bool)

  predicate IsJoiner(c: char) { c == '\U{200C}' || c == '\U{200D}' }

  predicate IsSeparator(t: CharTests, c: char) { !t.ignored(c) && !IsJoiner(c) && (t.whitespace(c) || t.punctuation(c)) }

  predicate IsKept(t: CharTests, c: char) { !t.ignored(c) && (IsJoiner(c) || !(t.whitespace(c) || t.punctuation(c))) }

  // ---- What separator canonicalization means ------------------------------------------------

  /** The separators since the last kept scalar. */
  function Pending(t: CharTests, mapped: Text): seq<ByteSpan> {
    if mapped == [] then []
    else
      var last := mapped[|mapped| - 1];
      if IsKept(t, last.scalar) then []
      else Pending(t, mapped[..|mapped| - 1]) + (if IsSeparator(t, last.scalar) then [last.source] else [])
  }

  /** Kept scalars, with one space for each run of separators between two of them. */
  function Spaced(t: CharTests, mapped: Text): Text {
    if mapped == [] then []
    else
      var front, last := mapped[..|mapped| - 1], mapped[|mapped| - 1];
      var before := Spaced(t, front);
      if !IsKept(t, last.scalar) then before
      else before + (if before != [] && Pending(t, front) != [] then [Mapped(' ', Hull(Pending(t, front)))] else []) + [last]
  }

  function KeptScalars(t: CharTests, mapped: Text): Text {
    if mapped == [] then []
    else
      var last := mapped[|mapped| - 1];
      KeptScalars(t, mapped[..|mapped| - 1]) + (if IsKept(t, last.scalar) then [last] else [])
  }

  function WithoutSpaces(mapped: Text): Text {
    if mapped == [] then []
    else
      var last := mapped[|mapped| - 1];
      WithoutSpaces(mapped[..|mapped| - 1]) + (if last.scalar == ' ' then [] else [last])
  }

  ghost predicate SingleSpaced(s: Text) {
    && (s != [] ==> s[0].scalar != ' ' && s[|s| - 1].scalar != ' ')
    && forall i :: 0 <= i < |s| - 1 ==> !(s[i].scalar == ' ' && s[i + 1].scalar == ' ')
  }

  lemma WithoutSpacesAppend(a: Text, m: Mapped)
    ensures WithoutSpaces(a + [m]) == WithoutSpaces(a) + (if m.scalar == ' ' then [] else [m])
  {
    assert (a + [m])[..|a|] == a;
  }

  /** No leading, trailing or doubled space; and without its spaces the text is exactly the kept scalars with their spans. */
  lemma {:induction false} SpacedText(t: CharTests, mapped: Text)
    requires t.whitespace(' ')
    ensures SingleSpaced(Spaced(t, mapped)) && WithoutSpaces(Spaced(t, mapped)) == KeptScalars(t, mapped)
  {
    if mapped != [] {
      var front, last := mapped[..|mapped| - 1], mapped[|mapped| - 1];
      SpacedText(t, front);
      if IsKept(t, last.scalar) {
        assert last.scalar != ' ';
        var before := Spaced(t, front);
        hide Spaced, KeptScalars, Pending, Hull;
        if before != [] && Pending(t, front) != [] {
          var space := Mapped(' ', Hull(Pending(t, front)));
          WithoutSpacesAppend(before, space);
          WithoutSpacesAppend(before + [space], last);
          SpacedAppend(before, space, last);
        } else {
          assert before + [] == before;
          WithoutSpacesAppend(before, last);
          PlainAppend(before, last);
        }
        SpacedLast(t, mapped);
      }
    }
  }

  lemma SpacedLast(t: CharTests, mapped: Text)
    requires mapped != [] && IsKept(t, mapped[|mapped| - 1].scalar)
    ensures var front, last := mapped[..|mapped| - 1], mapped[|mapped| - 1]; var before := Spaced(t, front);
      && Spaced(t, mapped) == before + (if before != [] && Pending(t, front) != [] then [Mapped(' ', Hull(Pending(t, front)))] else []) + [last]
      && KeptScalars(t, mapped) == KeptScalars(t, front) + [last]
  {
  }

  lemma SpacedAppend(before: Text, space: Mapped, last: Mapped)
    requires SingleSpaced(before) && before != [] && space.scalar == ' ' && last.scalar != ' '
    ensures SingleSpaced(before + [space] + [last])
  {
    var all := before + [space] + [last];
    forall i | 0 <= i < |all| - 1 ensures !(all[i].scalar == ' ' && all[i + 1].scalar == ' ') {
      if i < |before| - 1 {
        assert !(before[i].scalar == ' ' && before[i + 1].scalar == ' ');
      }
    }
  }

  lemma PlainAppend(before: Text, last: Mapped)
    requires SingleSpaced(before) && last.scalar != ' '
    ensures SingleSpaced(before + [last])
  {
    var all := before + [last];
    forall i | 0 <= i < |all| - 1 ensures !(all[i].scalar == ' ' && all[i + 1].scalar == ' ') {
      if i < |before| - 1 {
        assert !(before[i].scalar == ' ' && before[i + 1].scalar == ' ');
      }
    }
  }

  // ---- Tiling byte spans ---------------------------------------------------------------------

  /** Entry i is scalar i: its byte range in the text, and its source. */
  ghost predicate Tiles(n: NormalizedText) {
    && |n.spans| == |n.text|
    && forall i :: 0 <= i < |n.text| ==> n.spans[i].normalized == ByteSpan(Offset(n.text, i), Offset(n.text, i + 1))
  }

  /** The scalars of a tiled text with their sources. */
  function Entries(n: NormalizedText): Text
    requires |n.spans| == |n.text|
  {
    seq(|n.text|, i requires 0 <= i < |n.text| => Mapped(n.text[i], n.spans[i].original))
  }

  function Push(n: NormalizedText, m: Mapped): NormalizedText {
    var start := ByteLen(n.text);
    NormalizedText(n.text + [m.scalar], n.spans + [CharSpan(ByteSpan(start, ByteLen(n.text + [m.scalar])), m.source)])
  }

  lemma PushTiles(n: NormalizedText, m: Mapped)
    requires Tiles(n)
    ensures Tiles(Push(n, m)) && |Push(n, m).spans| == |Push(n, m).text| == |n.text| + 1
    ensures Entries(Push(n, m)) == Entries(n) + [m]
  {
    hide ByteLen;
    var p := Push(n, m);
    assert p.text[..|n.text|] == n.text && p.text[..|n.text| + 1] == p.text;
    forall i | 0 <= i < |p.text| ensures p.spans[i].normalized == ByteSpan(Offset(p.text, i), Offset(p.text, i + 1)) {
      if i < |n.text| {
        assert p.text[..i] == n.text[..i] && p.text[..i + 1] == n.text[..i + 1];
        assert p.spans[i] == n.spans[i];
        assert Offset(p.text, i) == Offset(n.text, i) && Offset(p.text, i + 1) == Offset(n.text, i + 1);
      } else {
        assert Offset(p.text, i) == ByteLen(n.text) && Offset(p.text, i + 1) == ByteLen(p.text);
        assert p.spans[i] == CharSpan(ByteSpan(ByteLen(n.text), ByteLen(p.text)), m.source);
      }
    }
  }

  /** `from_mapped`. */
  method FromMapped(t: CharTests, mapped: Text) returns (r: NormalizedText)
    ensures Tiles(r) && Entries(r) == Spaced(t, mapped)
  {
    hide Spaced, Pending, Tiles, Hull, Push;
    r := NormalizedText("", []);
    NothingTiled(t, r, mapped[..0]);
    var pending: Option<ByteSpan> := None;
    for n := 0 to |mapped|
      invariant Tiles(r) && |r.spans| == |r.text| && Entries(r) == Spaced(t, mapped[..n])
      invariant pending == HullOf(Pending(t, mapped[..n]))
    {
      var m := mapped[n];
      SpacedNext(t, mapped, n);
      TiledLength(r);
      if !t.ignored(m.scalar) {
        if !IsJoiner(m.scalar) && (t.whitespace(m.scalar) || t.punctuation(m.scalar)) {
          HullGrows(Pending(t, mapped[..n]), m.source);
          pending := Some(if pending.None? then m.source
                          else ByteSpan(Min(pending.value.start, m.source.start), Max(pending.value.end, m.source.end)));
        } else {
          if pending.Some? && r.text != "" {
            PushTiles(r, Mapped(' ', pending.value));
            r := Push(r, Mapped(' ', pending.value));
          }
          pending := None;
          PushTiles(r, m);
          r := Push(r, m);
        }
      }
    }
    assert mapped[..|mapped|] == mapped;
  }

  function HullOf(spans: seq<ByteSpan>): Option<ByteSpan> { if spans == [] then None else Some(Hull(spans)) }

  lemma HullGrows(spans: seq<ByteSpan>, x: ByteSpan)
    ensures HullOf(spans + [x]) ==
      Some(if spans == [] then x else ByteSpan(Min(Hull(spans).start, x.start), Max(Hull(spans).end, x.end)))
  {
    assert (spans + [x])[..|spans|] == spans;
  }

  lemma TiledLength(n: NormalizedText)
    requires Tiles(n)
    ensures |n.spans| == |n.text| && (Entries(n) == [] <==> n.text == "")
  {
    assert |Entries(n)| == |n.text|;
  }

  lemma NothingTiled(t: CharTests, n: NormalizedText, mapped: Text)
    requires n == NormalizedText("", []) && mapped == []
    ensures Tiles(n) && |n.spans| == |n.text| && Entries(n) == Spaced(t, mapped) && Pending(t, mapped) == []
  {
  }

  lemma SpacedNext(t: CharTests, mapped: Text, n: nat)
    requires n < |mapped|
    ensures var front, m := mapped[..n], mapped[n]; var before := Spaced(t, front);
      && Spaced(t, mapped[..n + 1]) == (
           if !IsKept(t, m.scalar) then before
           else before + (if before != [] && Pending(t, front) != [] then [Mapped(' ', Hull(Pending(t, front)))] else []) + [m])
      && Pending(t, mapped[..n + 1]) == (
           if IsKept(t, m.scalar) then []
           else if IsSeparator(t, m.scalar) then Pending(t, front) + [m.source] else Pending(t, front))
  {
    assert mapped[..n + 1][..n] == mapped[..n];
    assert Pending(t, mapped[..n]) + [] == Pending(t, mapped[..n]);
  }

  // ---- Back to the source -----------------------------------------------------------------------

  predicate Intersects(e: CharSpan, start: nat, end: nat) { e.normalized.end > start && e.normalized.start < end }

  /** The sources of the entries that a byte range touches, in order. */
  function Touched(spans: seq<CharSpan>, start: nat, end: nat): seq<ByteSpan> {
    if spans == [] then []
    else
      var n := |spans| - 1;
      Touched(spans[..n], start, end) + (if Intersects(spans[n], start, end) then [spans[n].original] else [])
  }

  lemma TiledOrder(n: NormalizedText, i: nat, j: nat)
    requires Tiles(n) && i < j < |n.spans|
    ensures n.spans[i].normalized.start < n.spans[i].normalized.end <= n.spans[j].normalized.start < n.spans[j].normalized.end
  {
    OffsetMonotone(n.text, i, i + 1);
    OffsetMonotone(n.text, j, j + 1);
    if i + 1 < j {
      OffsetMonotone(n.text, i + 1, j);
    }
  }

  lemma {:induction false} NothingTouched(spans: seq<CharSpan>, k: nat, start: nat, end: nat)
    requires k <= |spans| && forall i :: k <= i < |spans| ==> !Intersects(spans[i], start, end)
    ensures Touched(spans, start, end) == Touched(spans[..k], start, end)
  {
    hide Intersects;
    if k == |spans| {
      assert spans[..k] == spans;
    } else {
      var front := spans[..|spans| - 1];
      NothingTouched(front, k, start, end);
      assert front[..k] == spans[..k];
    }
  }

  /** `original_span`: invalid ranges have none; otherwise the early exit misses nothing. */
  method OriginalSpan(n: NormalizedText, start: nat, end: nat) returns (r: Option<ByteSpan>)
    requires Tiles(n)
    ensures start >= end || end > ByteLen(n.text) || !IsBoundary(n.text, start) || !IsBoundary(n.text, end) ==> r == None
    ensures start < end <= ByteLen(n.text) && IsBoundary(n.text, start) && IsBoundary(n.text, end) ==>
      r == HullOf(Touched(n.spans, start, end))
  {
    if start >= end || end > ByteLen(n.text) || !IsBoundary(n.text, start) || !IsBoundary(n.text, end) {
      return None;
    }
    hide Touched, Hull;
    r := None;
    TouchedNone(n.spans[..0], start, end);
    for k := 0 to |n.spans|
      invariant r == HullOf(Touched(n.spans[..k], start, end))
    {
      var e := n.spans[k];
      TouchedNext(n.spans, k, start, end);
      if e.normalized.end <= start {
        continue;
      }
      if e.normalized.start >= end {
        forall i | k <= i < |n.spans| ensures !Intersects(n.spans[i], start, end) {
          if k < i {
            TiledOrder(n, k, i);
          }
        }
        NothingTouched(n.spans, k, start, end);
        return;
      }
      HullGrows(Touched(n.spans[..k], start, end), e.original);
      r := Some(if r.None? then e.original
                else ByteSpan(Min(r.value.start, e.original.start), Max(r.value.end, e.original.end)));
    }
    assert n.spans[..|n.spans|] == n.spans;
  }

  lemma TouchedNone(spans: seq<CharSpan>, start: nat, end: nat)
    requires spans == []
    ensures Touched(spans, start, end) == []
  {
  }

  lemma TouchedNext(spans: seq<CharSpan>, k: nat, start: nat, end: nat)
    requires k < |spans|
    ensures Touched(spans[..k + 1], start, end) ==
      if Intersects(spans[k], start, end) then Touched(spans[..k], start, end) + [spans[k].original] else Touched(spans[..k], start, end)
  {
    assert spans[..k + 1][..k] == spans[..k];
    assert Touched(spans[..k], start, end) + [] == Touched(spans[..k], start, end);
  }

  /** `span_is_within_original`. */
  method SpanIsWithinOriginal(n: NormalizedText, start: nat, end: nat, outer: ByteSpan) returns (r: bool)
    requires Tiles(n)
    ensures var touched := Touched(n.spans, start, end);
      r <==> touched != [] && forall i :: 0 <= i < |touched| ==> Inside(touched[i], outer)
  {
    hide Touched, Inside;
    var found := false;
    TouchedNone(n.spans[..0], start, end);
    ghost var all := Touched(n.spans, start, end);
    for k := 0 to |n.spans|
      invariant found <==> Touched(n.spans[..k], start, end) != []
      invariant forall i :: 0 <= i < |Touched(n.spans[..k], start, end)| ==> Inside(Touched(n.spans[..k], start, end)[i], outer)
    {
      var e := n.spans[k];
      TouchedNext(n.spans, k, start, end);
      if e.normalized.end <= start {
        continue;
      }
      if e.normalized.start >= end {
        forall i | k <= i < |n.spans| ensures !Intersects(n.spans[i], start, end) {
          if k < i {
            TiledOrder(n, k, i);
          }
        }
        NothingTouched(n.spans, k, start, end);
        return found;
      }
      found := true;
      if !Inside(e.original, outer) {
        TouchedPrefix(n.spans, k + 1, start, end);
        var m := |Touched(n.spans[..k], start, end)|;
        assert all[m] == e.original;
        return false;
      }
    }
    assert n.spans[..|n.spans|] == n.spans;
    return found;
  }

  predicate Inside(x: ByteSpan, outer: ByteSpan) { outer.start <= x.start && x.end <= outer.end }

  lemma {:induction false} TouchedPrefix(spans: seq<CharSpan>, k: nat, start: nat, end: nat)
    requires k <= |spans|
    ensures Touched(spans[..k], start, end) <= Touched(spans, start, end)
    decreases |spans|
  {
    if k == |spans| {
      assert spans[..k] == spans;
    } else {
      var front := spans[..|spans| - 1];
      TouchedPrefix(front, k, start, end);
      assert front[..k] == spans[..k];
    }
  }

  // ---- Scalar positions and byte positions ---------------------------------------------------------

  function Originals(n: NormalizedText): (r: seq<ByteSpan>)
    ensures |r| == |n.spans| && forall i :: 0 <= i < |r| ==> r[i] == n.spans[i].original
  {
    seq(|n.spans|, i requires 0 <= i < |n.spans| => n.spans[i].original)
  }

  /** The view the matcher sees, in which positions are scalar indices. */
  function ViewOf(n: NormalizedText, security: bool): Matcher.View { Matcher.View(n.text, Originals(n), security) }

  lemma {:induction false} TouchedPart(n: NormalizedText, i: nat, j: nat, k: nat)
    requires Tiles(n) && i <= j <= |n.text| && k <= |n.text|
    ensures Touched(n.spans[..k], Offset(n.text, i), Offset(n.text, j)) == Originals(n)[Min(i, k)..Min(j, k)]
  {
    hide Offset, Intersects, Touched;
    if k == 0 {
      TouchedNone(n.spans[..0], Offset(n.text, i), Offset(n.text, j));
    } else {
      TouchedPart(n, i, j, k - 1);
      TouchedNext(n.spans, k - 1, Offset(n.text, i), Offset(n.text, j));
      EntryIntersects(n, k - 1, i, j);
      hide Tiles;
      PartNext(Originals(n), i, j, k);
    }
  }

  /** The part of [i, j) below `k` grows by the entry at k - 1 if that lies in it. */
  lemma PartNext(o: seq<ByteSpan>, i: nat, j: nat, k: nat)
    requires i <= j <= |o| && 0 < k <= |o|
    ensures o[Min(i, k)..Min(j, k)] == o[Min(i, k - 1)..Min(j, k - 1)] + (if i < k <= j then [o[k - 1]] else [])
  {
  }

  lemma EntryIntersects(n: NormalizedText, m: nat, i: nat, j: nat)
    requires Tiles(n) && m < |n.text| && i <= j <= |n.text|
    ensures Intersects(n.spans[m], Offset(n.text, i), Offset(n.text, j)) <==> i <= m < j
  {
    if m < i {
      if m + 1 < i { OffsetMonotone(n.text, m + 1, i); }
    } else {
      if i < m + 1 { OffsetMonotone(n.text, i, m + 1); }
      if m < j { OffsetMonotone(n.text, m, j); } else if j < m { OffsetMonotone(n.text, j, m); }
    }
  }

  /** A byte range on scalar boundaries touches exactly the scalars inside it. */
  lemma TouchedIsSlice(n: NormalizedText, i: nat, j: nat)
    requires Tiles(n) && i <= j <= |n.text|
    ensures Touched(n.spans, Offset(n.text, i), Offset(n.text, j)) == Originals(n)[i..j]
  {
    hide Touched, Offset;
    TouchedPart(n, i, j, |n.text|);
    assert n.spans[..|n.text|] == n.spans;
  }

  /** The matcher's source span of scalars [i, j) is the byte-level `span_for`, and likewise for exclusion. */
  lemma MatcherPositionsAreBytes(n: NormalizedText, security: bool, i: nat, j: nat, outer: ByteSpan)
    requires Tiles(n) && i < j <= |n.text|
    ensures var touched := Touched(n.spans, Offset(n.text, i), Offset(n.text, j));
      && IsBoundary(n.text, Offset(n.text, i)) && IsBoundary(n.text, Offset(n.text, j)) && Offset(n.text, i) < Offset(n.text, j)
      && HullOf(touched) == Some(Matcher.SourceSpan(ViewOf(n, security), i, j))
      && ((touched != [] && forall k :: 0 <= k < |touched| ==> Inside(touched[k], outer))
          <==> Matcher.WithinOriginal(ViewOf(n, security), i, j, outer))
  {
    hide Hull;
    TouchedIsSlice(n, i, j);
    ScalarOfOffset(n.text, i);
    ScalarOfOffset(n.text, j);
    OffsetMonotone(n.text, i, j);
    var touched, v := Originals(n)[i..j], ViewOf(n, security);
    assert v.source[i..j] == touched && touched != [];
    assert forall k :: 0 <= k < |touched| ==> touched[k] == v.source[i + k];
    assert forall m :: i <= m < j ==> touched[m - i] == v.source[m];
  }

  lemma {:induction false} HullContains(s: seq<ByteSpan>)
    requires s != []
    ensures forall k :: 0 <= k < |s| ==> Inside(s[k], Hull(s))
    ensures exists k :: 0 <= k < |s| && s[k].start == Hull(s).start
    ensures exists k :: 0 <= k < |s| && s[k].end == Hull(s).end
  {
    if |s| > 1 {
      var front := s[..|s| - 1];
      HullContains(front);
      assert forall k :: 0 <= k < |front| ==> front[k] == s[k];
      var a :| 0 <= a < |front| && front[a].start == Hull(front).start;
      var b :| 0 <= b < |front| && front[b].end == Hull(front).end;
      assert s[a] == front[a] && s[b] == front[b];
      var n := |s| - 1;
      var p := if front[a].start <= s[n].start then a else n;
      var q := if front[b].end >= s[n].end then b else n;
      assert s[p].start == Hull(s).start && s[q].end == Hull(s).end;
    } else {
      assert s[0] == Hull(s);
    }
  }

  /** A larger range of the text maps to a larger source span. */
  lemma SourceSpanMonotone(v: Matcher.View, i: nat, j: nat, k: nat, l: nat)
    requires i <= k < l <= j <= |v.source|
    ensures Inside(Matcher.SourceSpan(v, k, l), Matcher.SourceSpan(v, i, j))
  {
    var inner, outer := v.source[k..l], v.source[i..j];
    hide Hull;
    HullContains(inner);
    HullContains(outer);
    var a :| 0 <= a < |inner| && inner[a].start == Hull(inner).start;
    var b :| 0 <= b < |inner| && inner[b].end == Hull(inner).end;
    assert inner[a] == outer[a + (k - i)] && inner[b] == outer[b + (k - i)];
  }

  // ---- `NormalizedText::new` -------------------------------------------------------------------------

  /** The scalars of a text with their own byte spans. */
  function SourceChars(input: string): (r: Text)
    ensures |r| == |input| && forall i :: 0 <= i < |r| ==> r[i] == Mapped(input[i], ByteSpan(Offset(input, i), Offset(input, i + 1)))
  {
    seq(|input|, i requires 0 <= i < |input| => Mapped(input[i], ByteSpan(Offset(input, i), Offset(input, i + 1))))
  }

  lemma SourceCharsProper(input: string)
    ensures ProperSources(input, SourceChars(input)) && CanonicalOrder.Scalars(SourceChars(input)) == input
  {
    hide ScalarAt, ByteLen;
    forall i | 0 <= i < |input| ensures Censoring.ValidSpan(input, SourceChars(input)[i].source) {
      OffsetMonotone(input, i, i + 1);
      ScalarOfOffset(input, i);
      ScalarOfOffset(input, i + 1);
    }
  }

  /** `fold_mapped`: every folded scalar keeps the span of the scalar it folds. */
  method FoldMapped(fold: char -> string, mapped: Text) returns (r: Text)
    ensures r == Decomposed(fold, mapped)
  {
    r := [];
    for n := 0 to |mapped|
      invariant r == Decomposed(fold, mapped[..n])
    {
      assert mapped[..n + 1][..n] == mapped[..n];
      r := r + Spread(fold(mapped[n].scalar), mapped[n].source);
    }
    assert mapped[..|mapped|] == mapped;
  }

  lemma {:induction false} PendingProper(input: string, t: CharTests, mapped: Text)
    requires ProperSources(input, mapped)
    ensures Censoring.AllValid(input, Pending(t, mapped))
  {
    hide Censoring.ValidSpan;
    if mapped != [] {
      PendingProper(input, t, mapped[..|mapped| - 1]);
    }
  }

  lemma {:induction false} SpacedProper(input: string, t: CharTests, mapped: Text)
    requires ProperSources(input, mapped)
    ensures ProperSources(input, Spaced(t, mapped))
  {
    hide Censoring.ValidSpan;
    if mapped != [] {
      var front := mapped[..|mapped| - 1];
      SpacedProper(input, t, front);
      PendingProper(input, t, front);
      if Pending(t, front) != [] {
        Censoring.HullValid(input, Pending(t, front));
      }
      hide Pending, Hull;
    }
  }

  /**
   * The canonical view of a text: tiled, single-spaced, and every scalar of it
   * attributed to a non-empty stretch of the input on character boundaries, as
   * matching and delivery rely on.
   */
  method NewNormalizedText(u: Unicode, decompose: char -> string, fold: char -> string, t: CharTests, input: string)
    returns (r: NormalizedText, ghost d: Text, ghost composed: Text)
    requires StartersStay(u) && t.whitespace(' ')
    ensures IsNfkc(u, decompose, SourceChars(input), d, composed)
    ensures Tiles(r) && Entries(r) == Spaced(t, Decomposed(fold, composed))
    ensures SingleSpaced(Entries(r)) && WithoutSpaces(Entries(r)) == KeptScalars(t, Decomposed(fold, composed))
    ensures Matcher.ViewOk(ViewOf(r, false)) && Censoring.AllValid(input, ViewOf(r, false).source)
  {
    hide IsNfkc, StartersStay, Spaced, Decomposed, Tiles, SingleSpaced, WithoutSpaces, KeptScalars, ProperSources, Censoring.ValidSpan;
    var nfkc := MappedNfkc(u, decompose, SourceChars(input));
    d :| IsNfkc(u, decompose, SourceChars(input), d, nfkc);
    composed := nfkc;
    var folded := FoldMapped(fold, nfkc);
    r := FromMapped(t, folded);
    SpacedText(t, folded);
    SourceCharsProper(input);
    NfkcSourcesProper(input, u, decompose, SourceChars(input), d, nfkc);
    DecomposedProper(input, fold, nfkc);
    SpacedProper(input, t, folded);
    TiledLength(r);
    EntriesProper(input, r);
  }

  lemma EntriesProper(input: string, n: NormalizedText)
    requires Tiles(n) && |n.spans| == |n.text| && ProperSources(input, Entries(n))
    ensures Matcher.ViewOk(ViewOf(n, false)) && Censoring.AllValid(input, ViewOf(n, false).source)
  {
    hide Censoring.ValidSpan;
    forall i | 0 <= i < |n.spans| ensures Censoring.ValidSpan(input, Originals(n)[i]) {
      assert Entries(n)[i].source == n.spans[i].original;
    }
  }
}
