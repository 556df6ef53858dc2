/**
 * What a masked link is, and what of a text it leaves visible; and which
 * letters of a mixed token stand for which Latin ones.
 */
module MarkupMeaning {
  import opened Wrappers
  import opened Spans
  import opened CanonicalOrder
  import opened CanonicalCompose
  import opened NormalizedViews
  import opened SecurityView
  import opened MaskedLinks

  // ---- Escapes and parentheses -----------------------------------------------------------------------

  /** Exactly `n` backslashes stand before `i`. */
  ghost predicate BackslashRun(s: Text, i: nat, n: nat) {
    && n <= i <= |s| && (forall k :: i - n <= k < i ==> s[k].scalar == '\\')
    && (n < i ==> s[i - n - 1].scalar != '\\')
  }

  lemma {:induction false} BackslashesMean(s: Text, i: nat)
    requires i <= |s|
    ensures BackslashRun(s, i, Backslashes(s, i))
  {
    if i > 0 && s[i - 1].scalar == '\\' {
      BackslashesMean(s, i - 1);
    }
  }

  lemma OneRun(s: Text, i: nat, n: nat, m: nat)
    requires BackslashRun(s, i, n) && BackslashRun(s, i, m)
    ensures n == m
  {
    assert !(n < m) && !(m < n);
  }

  /** A scalar is escaped exactly when an odd number of backslashes stands before it. */
  lemma EscapedMeans(s: Text, i: nat)
    requires i <= |s|
    ensures Escaped(s, i) <==> exists n: nat :: BackslashRun(s, i, n) && n % 2 == 1
  {
    hide BackslashRun;
    BackslashesMean(s, i);
    if n: nat :| BackslashRun(s, i, n) && n % 2 == 1 {
      OneRun(s, i, n, Backslashes(s, i));
    }
  }

  ghost function PlainIn(s: Text, from: nat, end: nat, c: char): set<nat> { set k: nat | from <= k < end && Plain(s, k, c) }

  /** The depth is the number of unescaped opening parentheses, the link's own among them, less that of closing ones. */
  lemma {:induction false} DepthMeans(s: Text, from: nat, i: nat)
    requires from <= i <= |s|
    ensures Depth(s, from, i) == 1 + |PlainIn(s, from, i, '(')| - |PlainIn(s, from, i, ')')|
    decreases i
  {
    hide Plain, PlainIn;
    if i > from {
      DepthMeans(s, from, i - 1);
      OneMorePlain(s, from, i, '(');
      OneMorePlain(s, from, i, ')');
      NotBoth(s, i - 1);
    } else {
      NonePlain(s, from, '(');
      NonePlain(s, from, ')');
    }
  }

  lemma OneMorePlain(s: Text, from: nat, i: nat, c: char)
    requires from < i
    ensures |PlainIn(s, from, i, c)| == |PlainIn(s, from, i - 1, c)| + if Plain(s, i - 1, c) then 1 else 0
  {
    hide Plain;
    var before := PlainIn(s, from, i - 1, c);
    assert PlainIn(s, from, i, c) == before + if Plain(s, i - 1, c) then {i - 1} else {};
  }

  lemma NonePlain(s: Text, from: nat, c: char)
    ensures PlainIn(s, from, from, c) == {}
  {
  }

  lemma NotBoth(s: Text, i: nat)
    ensures !(Plain(s, i, '(') && Plain(s, i, ')'))
  {
  }

  // ---- Destinations --------------------------------------------------------------------------------------

  ghost predicate Angles(s: string) { forall i :: 0 <= i < |s| ==> s[i] in {'<', '>'} }

  /** The prefix stands first, in either case. */
  ghost predicate Leads(d: string, prefix: string) {
    |prefix| <= |d| && forall i :: 0 <= i < |prefix| ==> d[i] == prefix[i] || ('A' <= d[i] <= 'Z' && d[i] as int + 32 == prefix[i] as int)
  }

  lemma LeadsMeans(d: string, prefix: string)
    requires forall i :: 0 <= i < |prefix| ==> !('A' <= prefix[i] <= 'Z')
    ensures StartsWithIgnoringCase(d, prefix) <==> Leads(d, prefix)
  {
  }

  /** The text is `r` between angle brackets. */
  ghost predicate Bracketed(d: string, a: string, r: string, z: string) { d == a + r + z && Angles(a) && Angles(z) }

  lemma OneMoreBefore(d: string, a: string, r: string, z: string)
    requires d != "" && d[0] in {'<', '>'} && Bracketed(d[1..], a, r, z)
    ensures Bracketed(d, [d[0]] + a, r, z)
  {
    assert d == [d[0]] + d[1..];
    assert [d[0]] + (a + r + z) == ([d[0]] + a) + r + z;
  }

  lemma OneMoreAfter(d: string, a: string, r: string, z: string)
    requires d != "" && d[|d| - 1] in {'<', '>'} && Bracketed(d[..|d| - 1], a, r, z)
    ensures Bracketed(d, a, r, z + [d[|d| - 1]])
  {
    assert d == d[..|d| - 1] + [d[|d| - 1]];
    assert (a + r + z) + [d[|d| - 1]] == a + r + (z + [d[|d| - 1]]);
  }

  lemma TrimCases(d: string)
    ensures TrimAngles("") == ""
    ensures d != "" && d[0] in {'<', '>'} ==> TrimAngles(d) == TrimAngles(d[1..])
    ensures d != "" && d[0] !in {'<', '>'} && d[|d| - 1] in {'<', '>'} ==> TrimAngles(d) == TrimAngles(d[..|d| - 1])
    ensures d != "" && d[0] !in {'<', '>'} && d[|d| - 1] !in {'<', '>'} ==> TrimAngles(d) == d
  {
  }

  lemma {:induction false} TrimSplits(d: string) returns (a: string, z: string)
    ensures Bracketed(d, a, TrimAngles(d), z)
    ensures var r := TrimAngles(d); r != "" ==> r[0] !in {'<', '>'} && r[|r| - 1] !in {'<', '>'}
    decreases |d|
  {
    hide TrimAngles, Bracketed;
    TrimCases(d);
    a, z := "", "";
    if d != "" && d[0] in {'<', '>'} {
      a, z := TrimSplits(d[1..]);
      OneMoreBefore(d, a, TrimAngles(d), z);
      a := [d[0]] + a;
    } else if d != "" && d[|d| - 1] in {'<', '>'} {
      a, z := TrimSplits(d[..|d| - 1]);
      OneMoreAfter(d, a, TrimAngles(d), z);
      z := z + [d[|d| - 1]];
    } else {
      NoBrackets(d);
    }
  }

  lemma NoBrackets(d: string)
    ensures Bracketed(d, "", d, "")
  {
    assert "" + d + "" == d;
  }

  ghost predicate SchemeAfterAngles(d: string, k: nat) {
    k <= |d| && Angles(d[..k]) && (Leads(d[k..], "http://") || Leads(d[k..], "https://"))
  }

  /** A destination counts exactly when http:// or https:// leads it, after any angle brackets. */
  lemma DestinationMeans(d: string)
    ensures IsHttp(TrimAngles(d)) <==> exists k: nat :: SchemeAfterAngles(d, k)
  {
    hide TrimAngles, StartsWithIgnoringCase, Leads;
    var a, z := TrimSplits(d);
    var r := TrimAngles(d);
    LeadsMeans(r, "http://");
    LeadsMeans(r, "https://");
    if IsHttp(r) {
      assert d[..|a|] == a && d[|a|..] == r + z;
      LeadsMore(r, z, "http://");
      LeadsMore(r, z, "https://");
      assert SchemeAfterAngles(d, |a|);
    }
    if k: nat :| SchemeAfterAngles(d, k) {
      if Leads(d[k..], "http://") {
        SchemeKept(d, a, r, z, k, "http://");
      } else {
        SchemeKept(d, a, r, z, k, "https://");
      }
    }
  }

  lemma LeadsMore(r: string, z: string, prefix: string)
    ensures Leads(r, prefix) ==> Leads(r + z, prefix)
  {
  }

  lemma SchemeKept(d: string, a: string, r: string, z: string, k: nat, prefix: string)
    requires d == a + r + z && Angles(a) && Angles(z) && (r != "" ==> r[0] !in {'<', '>'}) && k <= |d| && Angles(d[..k])
    requires prefix in {"http://", "https://"} && Leads(d[k..], prefix)
    ensures Leads(r, prefix)
  {
    assert (forall i :: 0 <= i < |a| ==> d[i] == a[i]) && (r != "" ==> d[|a|] == r[0]);
    assert forall i :: |a| + |r| <= i < |d| ==> d[i] == z[i - |a| - |r|];
    forall i | 0 <= i < k ensures d[i] in {'<', '>'} {
      assert d[i] == d[..k][i];
    }
    forall i | k <= i < k + |prefix| ensures i < |d| && d[i] !in {'<', '>'} {
      assert d[k..][i - k] == d[i];
      SchemeChars(prefix, i - k);
    }
    assert d[k] !in {'<', '>'};
    assert k == |a|;
    var last := k + |prefix| - 1;
    assert d[last] !in {'<', '>'};
    assert forall i :: 0 <= i < |prefix| ==> r[i] == d[k..][i];
  }

  lemma SchemeChars(prefix: string, i: nat)
    requires prefix in {"http://", "https://"} && i < |prefix|
    ensures prefix[i] !in {'<', '>'} && prefix[i] as int - 32 != '<' as int && prefix[i] as int - 32 != '>' as int
  {
    assert prefix[i] in {'h', 't', 'p', 's', ':', '/'};
  }

  // ---- The visible text -----------------------------------------------------------------------------------

  datatype Link = Link(start: nat, labelEnd: nat, end: nat)

  ghost predicate Encloses(l: Link, p: nat) { l.start <= p <= l.end }

  ghost predicate InLabel(l: Link, p: nat) { l.start < p < l.labelEnd }

  /** The masked links from `cursor` on, apart and in order; whatever else starts as one starts inside one of them. */
  ghost predicate LinksFrom(s: Text, cursor: nat, links: seq<Link>) {
    && (forall i :: 0 <= i < |links| ==> cursor <= links[i].start && IsMaskedLink(s, links[i].start, links[i].labelEnd, links[i].end))
    && (forall i, j :: 0 <= i < j < |links| ==> links[i].end < links[j].start)
    && (forall p: nat :: cursor <= p && LinkAt(s, p) ==> exists l :: l in links && Encloses(l, p))
  }

  /** The position is in no link but in its label. */
  ghost predicate Seen(links: seq<Link>, p: nat) { forall l :: l in links && Encloses(l, p) ==> InLabel(l, p) }

  /** What is visible: the scalars of the labels, and those of no link. */
  lemma {:induction false} VisibleMeans(s: Text, cursor: nat) returns (links: seq<Link>, at: seq<nat>)
    requires cursor <= |s|
    ensures LinksFrom(s, cursor, links) && Selects(s, Visible(s, cursor), at)
    ensures forall p: nat :: p in at <==> cursor <= p < |s| && Seen(links, p)
    decreases |s| - cursor
  {
    hide IsMaskedLink, Selects, Visible, Encloses, InLabel, LinksFrom, Seen;
    if cursor == |s| {
      VisibleEnd(s, cursor);
      at := SelectsNothing(s);
      links := [];
      NoLinks(s);
    } else if labelEnd: nat, end: nat :| IsMaskedLink(s, cursor, labelEnd, end) {
      VisibleLink(s, cursor, labelEnd, end);
      var later, rest := VisibleMeans(s, end + 1);
      FromLater(s, end + 1, rest, later);
      at := SelectsAfter(s, s[cursor + 1..labelEnd], cursor + 1, Visible(s, end + 1), rest);
      links := [Link(cursor, labelEnd, end)] + later;
      LinkAdded(s, cursor, labelEnd, end, later);
    } else {
      VisiblePlain(s, cursor);
      var later, rest := VisibleMeans(s, cursor + 1);
      FromLater(s, cursor + 1, rest, later);
      at := SelectsAfter(s, [s[cursor]], cursor, Visible(s, cursor + 1), rest);
      links := later;
      PlainAdded(s, cursor, later);
    }
  }

  lemma FromLater(s: Text, cursor: nat, rest: seq<nat>, links: seq<Link>)
    requires forall p: nat :: p in rest <==> cursor <= p < |s| && Seen(links, p)
    ensures forall i :: 0 <= i < |rest| ==> cursor <= rest[i]
  {
    hide Seen;
    assert forall i :: 0 <= i < |rest| ==> rest[i] in rest;
  }

  lemma NoLinks(s: Text)
    ensures LinksFrom(s, |s|, []) && forall p: nat :: Seen([], p)
  {
  }

  lemma LinkAdded(s: Text, cursor: nat, labelEnd: nat, end: nat, later: seq<Link>)
    requires IsMaskedLink(s, cursor, labelEnd, end) && cursor < labelEnd < end < |s| && LinksFrom(s, end + 1, later)
    ensures LinksFrom(s, cursor, [Link(cursor, labelEnd, end)] + later)
    ensures forall p: nat :: cursor <= p ==>
      (Seen([Link(cursor, labelEnd, end)] + later, p) <==> cursor < p < labelEnd || (end < p && Seen(later, p)))
  {
    hide IsMaskedLink;
    var first := Link(cursor, labelEnd, end);
    var links := [first] + later;
    assert links[0] == first && forall i :: 0 < i < |links| ==> links[i] == later[i - 1];
    forall p: nat | cursor <= p && LinkAt(s, p) ensures exists l :: l in links && Encloses(l, p) {
      if p <= end {
        assert first in links && Encloses(first, p);
      }
    }
    forall p: nat | cursor <= p ensures Seen(links, p) <==> cursor < p < labelEnd || (end < p && Seen(later, p)) {
      assert forall l :: l in links <==> l == first || l in later;
      if p <= end {
        forall l | l in later ensures !Encloses(l, p) {
          var i :| 0 <= i < |later| && later[i] == l;
        }
        assert Encloses(first, p);
      }
    }
  }

  lemma PlainAdded(s: Text, cursor: nat, later: seq<Link>)
    requires !LinkAt(s, cursor) && LinksFrom(s, cursor + 1, later)
    ensures LinksFrom(s, cursor, later) && Seen(later, cursor)
  {
    hide IsMaskedLink;
    forall l | l in later ensures !Encloses(l, cursor) {
      var i :| 0 <= i < |later| && later[i] == l;
    }
  }

  /** Exactly the scalars that are not ignored go on to the security passes. */
  lemma {:induction false} NotIgnoredMeans(ignored: char -> bool, s: Text) returns (at: seq<nat>)
    ensures Selects(s, NotIgnored(ignored, s), at)
    ensures forall k: nat :: k in at <==> k < |s| && !ignored(s[k].scalar)
  {
    if s == [] {
      at := [];
    } else {
      var n := |s| - 1;
      at := NotIgnoredMeans(ignored, s[..n]);
      if !ignored(s[n].scalar) {
        at := at + [n];
      }
    }
  }

  // ---- Confusable letters -------------------------------------------------------------------------------------

  /** The Greek and Cyrillic letters that look like a Latin one. */
  ghost predicate Resembles(c: char, latin: char) {
    match latin
    case 'a' => c in {'\U{03B1}', '\U{0430}'}
    case 'b' => c in {'\U{03B2}', '\U{0432}'}
    case 'c' => c in {'\U{03F2}', '\U{0441}'}
    case 'e' => c in {'\U{03B5}', '\U{0435}'}
    case 'h' => c == '\U{043D}'
    case 'i' => c in {'\U{03B9}', '\U{0456}'}
    case 'j' => c == '\U{0458}'
    case 'k' => c in {'\U{03BA}', '\U{043A}'}
    case 'm' => c == '\U{043C}'
    case 'o' => c in {'\U{03BF}', '\U{043E}'}
    case 'p' => c in {'\U{03C1}', '\U{0440}'}
    case 's' => c == '\U{0455}'
    case 't' => c in {'\U{03C4}', '\U{0442}'}
    case 'x' => c in {'\U{03C7}', '\U{0445}'}
    case 'y' => c == '\U{0443}'
    case _ => false
  }

  lemma ShapesMean(c: char, latin: char)
    ensures ConfusableShape(c) == Some(latin) <==> Resembles(c, latin)
  {
  }

  /** In a mixed token every Greek or Cyrillic letter that looks like a Latin one becomes it; nothing else changes, and no span does. */
  lemma MappingMeans(t: SecurityTests, text: Text, r: Text, i: nat)
    requires IsMixedMapping(t, text, r) && i < |text|
    ensures i < |r| && r[i].source == text[i].source
    ensures forall latin :: Mixed(t, text, i) && t.greekOrCyrillic(text[i].scalar) && Resembles(text[i].scalar, latin) ==> r[i].scalar == latin
    ensures !Mixed(t, text, i) || !t.greekOrCyrillic(text[i].scalar) || (forall latin :: !Resembles(text[i].scalar, latin)) ==> r[i] == text[i]
  {
    hide Mixed, ConfusableShape, Resembles;
    forall latin ensures ConfusableShape(text[i].scalar) == Some(latin) <==> Resembles(text[i].scalar, latin) {
      ShapesMean(text[i].scalar, latin);
    }
  }
}
