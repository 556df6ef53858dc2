/**
 * normalization.rs: masked links. A rendered link shows only its label, so
 * the security view reads the label and skips the brackets and destination.
 */
module MaskedLinks {
  import opened Wrappers
  import opened Spans
  import opened CanonicalOrder
  import opened CanonicalCompose
  import opened NormalizedViews
  import opened SecurityView
  import Matcher
  import Censoring

  /** The backslashes just before `i`. */
  function Backslashes(s: Text, i: nat): nat
    requires i <= |s|
  {
    if i == 0 || s[i - 1].scalar != '\\' then 0 else 1 + Backslashes(s, i - 1)
  }

  predicate Escaped(s: Text, i: nat)
    requires i <= |s|
  {
    Backslashes(s, i) % 2 == 1
  }

  /** `is_markdown_escaped`. */
  method IsMarkdownEscaped(s: Text, index: nat) returns (r: bool)
    requires index <= |s|
    ensures r == Escaped(s, index)
  {
    var backslashes: nat, cursor: nat := 0, index;
    while cursor > 0 && s[cursor - 1].scalar == '\\'
      invariant cursor <= index && backslashes + Backslashes(s, cursor) == Backslashes(s, index)
    {
      backslashes := backslashes + 1;
      cursor := cursor - 1;
    }
    r := backslashes % 2 == 1;
  }

  predicate Plain(s: Text, i: nat, c: char) {
    i < |s| && s[i].scalar == c && !Escaped(s, i)
  }

  /** The parentheses open before `i` in a destination that starts at `from`, its own among them. */
  function Depth(s: Text, from: nat, i: nat): int
    requires from <= i <= |s|
    decreases i
  {
    if i == from then 1
    else Depth(s, from, i - 1) + (if Plain(s, i - 1, '(') then 1 else if Plain(s, i - 1, ')') then -1 else 0)
  }

  predicate BreaksLine(s: Text, i: nat) { Plain(s, i, '\n') || Plain(s, i, '\r') }

  /** The label ends at the first unescaped bracket, is not empty, and an opening parenthesis follows. */
  predicate LabelEndsAt(s: Text, start: nat, labelEnd: nat) {
    && start + 1 < labelEnd < |s| && Plain(s, labelEnd, ']')
    && (forall i :: start < i < labelEnd ==> !Plain(s, i, ']'))
    && labelEnd + 1 < |s| && s[labelEnd + 1].scalar == '('
  }

  /** The destination ends at the parenthesis that closes its own, before any line break. */
  predicate DestinationEndsAt(s: Text, from: nat, end: nat) {
    && from <= end < |s| && Plain(s, end, ')') && Depth(s, from, end) == 1
    && (forall i :: from <= i < end ==> !BreaksLine(s, i))
    && (forall i :: from <= i < end && Plain(s, i, ')') ==> Depth(s, from, i) > 1)
  }

  function TrimAngles(d: string): string
    decreases |d|
  {
    if d == "" then d
    else if d[0] == '<' || d[0] == '>' then TrimAngles(d[1..])
    else if d[|d| - 1] == '<' || d[|d| - 1] == '>' then TrimAngles(d[..|d| - 1])
    else d
  }

  function AsciiLower(c: char): char { if 'A' <= c <= 'Z' then (c as int + 32) as char else c }

  predicate StartsWithIgnoringCase(d: string, prefix: string) {
    |d| >= |prefix| && forall i :: 0 <= i < |prefix| ==> AsciiLower(d[i]) == prefix[i]
  }

  predicate IsHttp(d: string) { StartsWithIgnoringCase(d, "https://") || StartsWithIgnoringCase(d, "http://") }

  /** A masked link at `start`: its label's end and its destination's end. */
  predicate IsMaskedLink(s: Text, start: nat, labelEnd: nat, end: nat) {
    && Plain(s, start, '[') && LabelEndsAt(s, start, labelEnd) && DestinationEndsAt(s, labelEnd + 2, end)
    && IsHttp(TrimAngles(Scalars(s[labelEnd + 2..end])))
  }

  /** A text position starts at most one masked link. */
  lemma LinkUnique(s: Text, start: nat, labelEnd: nat, end: nat, labelEnd': nat, end': nat)
    requires IsMaskedLink(s, start, labelEnd, end) && IsMaskedLink(s, start, labelEnd', end')
    ensures labelEnd == labelEnd' && end == end'
  {
    hide Plain, IsHttp, BreaksLine;
    assert !(labelEnd < labelEnd') && !(labelEnd' < labelEnd);
    assert !(end < end') && !(end' < end);
  }

  /** The scan for the label's end. */
  method FindLabelEnd(s: Text, start: nat) returns (labelEnd: Option<nat>)
    requires start < |s|
    ensures labelEnd.Some? ==> start < labelEnd.value < |s| && Plain(s, labelEnd.value, ']')
    ensures labelEnd.Some? ==> forall i :: start < i < labelEnd.value ==> !Plain(s, i, ']')
    ensures labelEnd.None? ==> forall i :: start < i < |s| ==> !Plain(s, i, ']')
  {
    for index := start + 1 to |s|
      invariant forall i :: start < i < index ==> !Plain(s, i, ']')
    {
      if s[index].scalar == ']' {
        var escaped := IsMarkdownEscaped(s, index);
        if !escaped {
          return Some(index);
        }
      }
    }
    return None;
  }

  /** The scan for the destination's end. */
  method FindDestinationEnd(s: Text, from: nat) returns (end: Option<nat>)
    requires from <= |s|
    ensures end.Some? ==> DestinationEndsAt(s, from, end.value)
    ensures end.None? ==> forall e: nat :: !DestinationEndsAt(s, from, e)
  {
    hide DestinationEndsAt;
    var depth := 1;
    for index := from to |s|
      invariant depth == Depth(s, from, index) && depth >= 1
      invariant NoneBefore(s, from, index)
    {
      var escaped := IsMarkdownEscaped(s, index);
      NextDepth(s, from, index);
      if escaped {
        StepNone(s, from, index);
        continue;
      }
      if s[index].scalar == '(' {
        depth := depth + 1;
      } else if s[index].scalar == ')' {
        depth := depth - 1;
        if depth == 0 {
          Found(s, from, index);
          return Some(index);
        }
      } else if s[index].scalar == '\n' || s[index].scalar == '\r' {
        LineBroken(s, from, index);
        return None;
      }
      StepNone(s, from, index);
    }
    NoneAtAll(s, from);
    return None;
  }

  /** No scalar in [from, k) ends the destination or breaks the line. */
  ghost predicate NoneBefore(s: Text, from: nat, k: nat)
    requires from <= k <= |s|
  {
    && (forall i :: from <= i < k ==> !BreaksLine(s, i))
    && (forall i :: from <= i < k && Plain(s, i, ')') ==> Depth(s, from, i) > 1)
  }

  lemma NextDepth(s: Text, from: nat, k: nat)
    requires from <= k < |s|
    ensures Depth(s, from, k + 1)
      == Depth(s, from, k) + (if Plain(s, k, '(') then 1 else if Plain(s, k, ')') then -1 else 0)
  {
  }

  lemma StepNone(s: Text, from: nat, k: nat)
    requires from <= k < |s| && NoneBefore(s, from, k) && !BreaksLine(s, k) && (Plain(s, k, ')') ==> Depth(s, from, k) > 1)
    ensures NoneBefore(s, from, k + 1)
  {
  }

  lemma Found(s: Text, from: nat, k: nat)
    requires from <= k < |s| && NoneBefore(s, from, k) && Plain(s, k, ')') && Depth(s, from, k) == 1
    ensures DestinationEndsAt(s, from, k)
  {
  }

  lemma LineBroken(s: Text, from: nat, k: nat)
    requires from <= k < |s| && NoneBefore(s, from, k) && BreaksLine(s, k)
    ensures forall e: nat :: !DestinationEndsAt(s, from, e)
  {
    forall e: nat ensures !DestinationEndsAt(s, from, e) {
      if from <= e < k {
        assert Plain(s, e, ')') ==> Depth(s, from, e) > 1;
      } else if e == k {
        assert Plain(s, k, '\n') || Plain(s, k, '\r');
      }
    }
  }

  lemma NoneAtAll(s: Text, from: nat)
    requires from <= |s| && NoneBefore(s, from, |s|)
    ensures forall e: nat :: !DestinationEndsAt(s, from, e)
  {
    forall e: nat ensures !DestinationEndsAt(s, from, e) {
      if from <= e < |s| {
        assert Plain(s, e, ')') ==> Depth(s, from, e) > 1;
      }
    }
  }

  /** `masked_link_at`: it finds the masked link that starts here, if there is one. */
  method MaskedLinkAt(s: Text, start: nat) returns (r: Option<(nat, nat)>)
    requires start < |s|
    ensures r.Some? ==> IsMaskedLink(s, start, r.value.0, r.value.1)
    ensures r.None? ==> forall labelEnd, end :: !IsMaskedLink(s, start, labelEnd, end)
  {
    hide Escaped, DestinationEndsAt, IsHttp;
    var escaped := IsMarkdownEscaped(s, start);
    if s[start].scalar != '[' || escaped {
      return None;
    }
    var labelEnd := FindLabelEnd(s, start);
    if labelEnd.None? {
      return None;
    }
    OnlyLabel(s, start, labelEnd.value);
    if labelEnd.value == start + 1 || labelEnd.value + 1 >= |s| || s[labelEnd.value + 1].scalar != '(' {
      return None;
    }
    var end := FindDestinationEnd(s, labelEnd.value + 2);
    if end.None? {
      return None;
    }
    OnlyDestination(s, labelEnd.value + 2, end.value);
    if !IsHttp(TrimAngles(Scalars(s[labelEnd.value + 2..end.value]))) {
      return None;
    }
    return Some((labelEnd.value, end.value));
  }

  lemma OnlyLabel(s: Text, start: nat, labelEnd: nat)
    requires start < labelEnd < |s| && Plain(s, labelEnd, ']') && forall i :: start < i < labelEnd ==> !Plain(s, i, ']')
    ensures forall other :: LabelEndsAt(s, start, other) ==> other == labelEnd
  {
    hide Plain;
  }

  lemma OnlyDestination(s: Text, from: nat, end: nat)
    requires DestinationEndsAt(s, from, end)
    ensures from <= end < |s| && forall other :: DestinationEndsAt(s, from, other) ==> other == end
  {
    hide Plain, BreaksLine;
  }

  // ---- The visible text ---------------------------------------------------------------------------

  ghost predicate LinkAt(s: Text, start: nat) {
    exists labelEnd: nat, end: nat :: IsMaskedLink(s, start, labelEnd, end)
  }

  /** From `cursor` on: labels instead of masked links, everything else as it is. */
  ghost function Visible(s: Text, cursor: nat): Text
    decreases |s| - cursor
  {
    if cursor >= |s| then []
    else if LinkAt(s, cursor) then
      var labelEnd: nat, end: nat :| IsMaskedLink(s, cursor, labelEnd, end);
      s[cursor + 1..labelEnd] + Visible(s, end + 1)
    else [s[cursor]] + Visible(s, cursor + 1)
  }

  lemma LinkBounds(s: Text, cursor: nat, labelEnd: nat, end: nat)
    requires IsMaskedLink(s, cursor, labelEnd, end)
    ensures cursor < labelEnd < end < |s|
  {
  }

  lemma VisibleLink(s: Text, cursor: nat, labelEnd: nat, end: nat)
    requires cursor < |s| && IsMaskedLink(s, cursor, labelEnd, end)
    ensures cursor < labelEnd < end < |s| && Visible(s, cursor) == s[cursor + 1..labelEnd] + Visible(s, end + 1)
  {
    hide IsMaskedLink;
    LinkBounds(s, cursor, labelEnd, end);
    assert LinkAt(s, cursor);
    forall l: nat, e: nat | IsMaskedLink(s, cursor, l, e) ensures l == labelEnd && e == end {
      LinkUnique(s, cursor, labelEnd, end, l, e);
    }
  }

  /** `discord_markdown_visible_source`. */
  method VisibleSource(s: Text) returns (visible: Text)
    ensures visible == Visible(s, 0)
  {
    hide IsMaskedLink, Visible;
    visible := [];
    var cursor := 0;
    while cursor < |s|
      invariant cursor <= |s| && visible + Visible(s, cursor) == Visible(s, 0)
    {
      var link := MaskedLinkAt(s, cursor);
      if link.None? {
        VisiblePlain(s, cursor);
        assert visible + ([s[cursor]] + Visible(s, cursor + 1)) == (visible + [s[cursor]]) + Visible(s, cursor + 1);
        visible := visible + [s[cursor]];
        cursor := cursor + 1;
      } else {
        var (labelEnd, end) := link.value;
        VisibleLink(s, cursor, labelEnd, end);
        assert visible + (s[cursor + 1..labelEnd] + Visible(s, end + 1)) == (visible + s[cursor + 1..labelEnd]) + Visible(s, end + 1);
        visible := visible + s[cursor + 1..labelEnd];
        cursor := end + 1;
      }
    }
    VisibleEnd(s, cursor);
    assert visible + [] == visible;
  }

  lemma VisiblePlain(s: Text, cursor: nat)
    requires cursor < |s| && forall labelEnd, end :: !IsMaskedLink(s, cursor, labelEnd, end)
    ensures Visible(s, cursor) == [s[cursor]] + Visible(s, cursor + 1)
  {
  }

  lemma VisibleEnd(s: Text, cursor: nat)
    requires cursor >= |s|
    ensures Visible(s, cursor) == []
  {
  }

  lemma SelectsAfter(s: Text, lead: Text, from: nat, rest: Text, at: seq<nat>) returns (all: seq<nat>)
    requires from + |lead| <= |s| && lead == s[from..from + |lead|] && Selects(s, rest, at)
    requires forall i :: 0 <= i < |at| ==> from + |lead| <= at[i]
    ensures Selects(s, lead + rest, all) && forall i :: 0 <= i < |all| ==> from <= all[i]
    ensures forall p: nat :: p in all <==> p in at || from <= p < from + |lead|
  {
    var own := seq(|lead|, i requires 0 <= i < |lead| => from + i);
    all := own + at;
    forall p: nat | from <= p < from + |lead| ensures p in own {
      assert own[p - from] == p;
    }
  }

  /** The visible text keeps scalars with their spans, in order. */
  lemma {:induction false} VisibleKeepsOrder(s: Text, cursor: nat) returns (at: seq<nat>)
    requires cursor <= |s|
    ensures Selects(s, Visible(s, cursor), at) && forall i :: 0 <= i < |at| ==> cursor <= at[i]
    decreases |s| - cursor
  {
    hide IsMaskedLink, Selects, Visible;
    if cursor == |s| {
      VisibleEnd(s, cursor);
      at := SelectsNothing(s);
    } else if labelEnd: nat, end: nat :| IsMaskedLink(s, cursor, labelEnd, end) {
      VisibleLink(s, cursor, labelEnd, end);
      var rest := VisibleKeepsOrder(s, end + 1);
      at := SelectsAfter(s, s[cursor + 1..labelEnd], cursor + 1, Visible(s, end + 1), rest);
    } else {
      VisiblePlain(s, cursor);
      var rest := VisibleKeepsOrder(s, cursor + 1);
      at := SelectsAfter(s, [s[cursor]], cursor, Visible(s, cursor + 1), rest);
    }
  }

  lemma SelectsNothing(s: Text) returns (at: seq<nat>)
    ensures at == [] && Selects(s, [], at)
  {
    at := [];
  }

  /** Without masked links the whole text is visible. */
  lemma {:induction false} NoLinksAllVisible(s: Text, cursor: nat)
    requires cursor <= |s| && forall i :: cursor <= i < |s| ==> !LinkAt(s, i)
    ensures Visible(s, cursor) == s[cursor..]
    decreases |s| - cursor
  {
    hide LinkAt;
    if cursor < |s| {
      NoLinksAllVisible(s, cursor + 1);
      assert s[cursor..] == [s[cursor]] + s[cursor + 1..];
    }
  }

  // ---- The security view ------------------------------------------------------------------------

  /** `is_ignored_format` applied before the contextual passes. */
  function NotIgnored(ignored: char -> bool, s: Text): Text {
    if s == [] then []
    else NotIgnored(ignored, s[..|s| - 1]) + (if ignored(s[|s| - 1].scalar) then [] else [s[|s| - 1]])
  }

  lemma {:induction false} NotIgnoredProper(input: string, ignored: char -> bool, s: Text)
    requires ProperSources(input, s)
    ensures ProperSources(input, NotIgnored(ignored, s))
  {
    if s != [] {
      NotIgnoredProper(input, ignored, s[..|s| - 1]);
    }
  }

  lemma FilteredProper(input: string, s: Text, f: Filter)
    requires ProperSources(input, s)
    ensures ProperSources(input, Filtered(s, f))
  {
    hide Drops;
    var r := Filtered(s, f);
    forall p | 0 <= p < |r| ensures Censoring.ValidSpan(input, r[p].source) {
      var k := Source(s, f, |s|, p);
    }
  }

  lemma MappedProper(input: string, t: SecurityTests, s: Text, r: Text)
    requires ProperSources(input, s) && IsMixedMapping(t, s, r)
    ensures ProperSources(input, r)
  {
    hide Mixed;
  }

  lemma VisibleProper(input: string)
    ensures ProperSources(input, Visible(SourceChars(input), 0))
  {
    hide Visible;
    SourceCharsProper(input);
    var at := VisibleKeepsOrder(SourceChars(input), 0);
  }

  /**
   * `security_mapped`: visible source, NFKC and folding, then the three
   * settling passes. The result is ready for matching as a security view.
   */
  method SecurityMapped(u: Unicode, decompose: char -> string, fold: char -> string, ignored: char -> bool, t: SecurityTests, input: string)
    returns (r: Text, ghost d: Text, ghost nfkc: Text)
    requires StartersStay(u)
    ensures IsNfkc(u, decompose, Visible(SourceChars(input), 0), d, nfkc)
    ensures IsMixedMapping(t, Filtered(Filtered(NotIgnored(ignored, Decomposed(fold, nfkc)), Ignorables(t)), Separators(t)), r)
    ensures ProperSources(input, r)
  {
    hide IsNfkc, StartersStay, IsMixedMapping, Filtered, NotIgnored, Decomposed, ProperSources, Visible;
    VisibleProper(input);
    var source := VisibleSource(SourceChars(input));
    var composed := MappedNfkc(u, decompose, source);
    d :| IsNfkc(u, decompose, source, d, composed);
    nfkc := composed;
    NfkcSourcesProper(input, u, decompose, source, d, composed);
    var folded := FoldMapped(fold, composed);
    DecomposedProper(input, fold, composed);
    var kept := NotIgnored(ignored, folded);
    NotIgnoredProper(input, ignored, folded);
    var shown := ApplyFilter(kept, Ignorables(t));
    FilteredProper(input, kept, Ignorables(t));
    var compacted := ApplyFilter(shown, Separators(t));
    FilteredProper(input, shown, Separators(t));
    r := MapMixedScriptTokens(t, compacted);
    MappedProper(input, t, compacted, r);
  }
}
