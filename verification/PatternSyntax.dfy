/**
 * validation.rs: `parse_pattern`. The matcher and the fingerprint normalize
 * the authored text whole, wildcards, quotes and padding included; for every
 * accepted pattern that is the normal form of the parsed literal.
 */
module PatternSyntax {
  import opened Wrappers
  import opened Spans
  import opened PolicyModel
  import opened CanonicalOrder
  import opened CanonicalCompose
  import opened NormalizedViews

  /** Everything normalization reads. */
  datatype Pipeline = Pipeline(u: Unicode, decompose: char -> string, fold: char -> string, tests: CharTests)

  /** `r` is the normal form of a text with any spans: NFKC, folding, separators. */
  ghost predicate Normalizes(p: Pipeline, source: Text, r: string) {
    exists d, composed :: IsNfkc(p.u, p.decompose, source, d, composed) && r == Scalars(Spaced(p.tests, Decomposed(p.fold, composed)))
  }

  // ---- Inert scalars ---------------------------------------------------------------------------

  /** A starter that composes with nothing on either side. */
  ghost predicate Inert(u: Unicode, c: char) {
    u.ccc(c) == 0 && forall a :: u.compose(a, c) == NoComposite && u.compose(c, a) == NoComposite
  }

  /** Normalization turns the scalar into separators only, and nothing composes with it. */
  ghost predicate Padding(p: Pipeline, c: char) {
    && (forall i :: 0 <= i < |p.decompose(c)| ==> Inert(p.u, p.decompose(c)[i]))
    && (forall i, j :: 0 <= i < |p.decompose(c)| && 0 <= j < |p.fold(p.decompose(c)[i])| ==>
          !IsKept(p.tests, p.fold(p.decompose(c)[i])[j]))
  }

  ghost predicate AllInert(u: Unicode, s: Text) { forall i :: 0 <= i < |s| ==> Inert(u, s[i].scalar) }

  ghost predicate NoneKept(t: CharTests, s: Text) { forall i :: 0 <= i < |s| ==> !IsKept(t, s[i].scalar) }

  ghost predicate AllPadding(p: Pipeline, s: Text) { forall i :: 0 <= i < |s| ==> Padding(p, s[i].scalar) }

  // ---- Decomposition, order -------------------------------------------------------------------------

  lemma {:induction false} DecomposedConcat(decompose: char -> string, a: Text, b: Text)
    ensures Decomposed(decompose, a + b) == Decomposed(decompose, a) + Decomposed(decompose, b)
    decreases |b|
  {
    hide Spread;
    if b == [] {
      assert a + b == a;
      assert Decomposed(decompose, a) + [] == Decomposed(decompose, a);
    } else {
      var front, last := b[..|b| - 1], b[|b| - 1];
      assert (a + b)[..|a + b| - 1] == a + front && (a + b)[|a + b| - 1] == last;
      DecomposedConcat(decompose, a, front);
      var tail := Spread(decompose(last.scalar), last.source);
      assert (Decomposed(decompose, a) + Decomposed(decompose, front)) + tail == Decomposed(decompose, a) + (Decomposed(decompose, front) + tail);
    }
  }

  lemma {:induction false} PaddingDecomposes(p: Pipeline, s: Text)
    requires AllPadding(p, s)
    ensures AllInert(p.u, Decomposed(p.decompose, s)) && NoneKept(p.tests, Decomposed(p.fold, Decomposed(p.decompose, s)))
    decreases |s|
  {
    if s != [] {
      var front, last := s[..|s| - 1], s[|s| - 1];
      PaddingDecomposes(p, front);
      var tail := Spread(p.decompose(last.scalar), last.source);
      assert Padding(p, last.scalar);
      SpreadKeepsNothing(p, last, tail);
      DecomposedConcat(p.fold, Decomposed(p.decompose, front), tail);
    }
  }

  lemma SpreadKeepsNothing(p: Pipeline, m: Mapped, tail: Text)
    requires Padding(p, m.scalar) && tail == Spread(p.decompose(m.scalar), m.source)
    ensures NoneKept(p.tests, Decomposed(p.fold, tail))
  {
    FoldedNotKept(p, m.scalar, tail, |tail|);
    assert tail[..|tail|] == tail;
  }

  lemma {:induction false} FoldedNotKept(p: Pipeline, c: char, tail: Text, n: nat)
    requires Padding(p, c) && n <= |tail| == |p.decompose(c)| && forall i :: 0 <= i < |tail| ==> tail[i].scalar == p.decompose(c)[i]
    ensures NoneKept(p.tests, Decomposed(p.fold, tail[..n]))
  {
    if n > 0 {
      FoldedNotKept(p, c, tail, n - 1);
      assert tail[..n][..n - 1] == tail[..n - 1];
    }
  }

  /** Ordered text between starters stays ordered. */
  lemma OrderedBetween(u: Unicode, a: Text, s: Text, b: Text)
    requires AllInert(u, a) && AllInert(u, b) && Ordered(u, s)
    ensures Ordered(u, a + s + b)
  {
    var all := a + s + b;
    forall i | 0 <= i < |all| - 1 ensures !Reorderable(u, all[i], all[i + 1]) {
      if i < |a| {
        assert Inert(u, a[i].scalar);
      } else if i + 1 < |a| + |s| {
        assert !Reorderable(u, s[i - |a|], s[i - |a| + 1]);
      } else {
        assert Inert(u, b[i + 1 - |a| - |s|].scalar);
      }
    }
  }

  // ---- Composition ------------------------------------------------------------------------------------

  function Chars(out: seq<Group>): (r: string)
    ensures |r| == |out| && forall i :: 0 <= i < |r| ==> r[i] == out[i].scalar
  {
    seq(|out|, i requires 0 <= i < |out| => out[i].scalar)
  }

  /** `b` is `a` with the inert scalar `c` in front. */
  ghost predicate Behind(u: Unicode, a: seq<Group>, b: seq<Group>, c: char) {
    |b| == |a| + 1 && b[0].scalar == c && forall i :: 0 <= i < |a| ==> b[i + 1].scalar == a[i].scalar
  }

  lemma StarterBehind(u: Unicode, a: seq<Group>, b: seq<Group>, c: char)
    requires Behind(u, a, b, c) && Inert(u, c)
    ensures LastStarter(u, b) == if LastStarter(u, a).Some? then Some(LastStarter(u, a).value + 1) else Some(0)
  {
    var s := LastStarter(u, a);
    forall m | 1 <= m < |b| ensures b[m].scalar == a[m - 1].scalar {
      assert b[m - 1 + 1].scalar == a[m - 1].scalar;
    }
    if s.Some? {
      LastStarterIs(u, b, s.value + 1);
    } else {
      LastStarterIs(u, b, 0);
    }
  }

  lemma NextBehind(u: Unicode, a: seq<Group>, b: seq<Group>, c: char, x: char, n: nat, m: nat)
    requires Behind(u, a, b, c) && Inert(u, c)
    ensures Behind(u, ComposeNext(u, a, x, n), ComposeNext(u, b, x, m), c)
  {
    StarterBehind(u, a, b, c);
    hide LastStarter;
    var s := LastStarter(u, a);
    if s.Some? {
      var k := s.value;
      assert Blocked(u, a, k, x) == Blocked(u, b, k + 1, x) by {
        if i :| k < i < |a| && (u.ccc(a[i].scalar) == 0 || u.ccc(a[i].scalar) >= u.ccc(x)) {
          assert b[i + 1].scalar == a[i].scalar;
        }
        if i :| k + 1 < i < |b| && (u.ccc(b[i].scalar) == 0 || u.ccc(b[i].scalar) >= u.ccc(x)) {
          assert a[i - 1].scalar == b[i].scalar;
        }
      }
      hide Blocked;
      assert b[k + 1].scalar == a[k].scalar;
    }
  }

  lemma {:induction false} ComposedBehind(u: Unicode, c: char, s: string)
    requires Inert(u, c)
    ensures Behind(u, Composed(u, s), Composed(u, [c] + s), c)
    decreases |s|
  {
    hide Inert;
    if s == [] {
      assert [c] + s == [c];
      FirstComposed(u, c);
    } else {
      var n := |s| - 1;
      ComposedBehind(u, c, s[..n]);
      assert ([c] + s)[..|[c] + s| - 1] == [c] + s[..n] && ([c] + s)[|[c] + s| - 1] == s[n];
      NextBehind(u, Composed(u, s[..n]), Composed(u, [c] + s[..n]), c, s[n], n, n + 1);
    }
  }

  lemma FirstComposed(u: Unicode, c: char)
    ensures Composed(u, [c]) == [Group(c, [0])] && Composed(u, []) == []
  {
    assert [c][..0] == [] && Composed(u, []) == [];
  }

  lemma InertInFront(u: Unicode, c: char, s: string)
    requires Inert(u, c)
    ensures Chars(Composed(u, [c] + s)) == [c] + Chars(Composed(u, s))
  {
    hide Composed, Inert;
    ComposedBehind(u, c, s);
    var a, b := Composed(u, s), Composed(u, [c] + s);
    forall i | 0 <= i < |b| ensures Chars(b)[i] == ([c] + Chars(a))[i] {
      assert i > 0 ==> b[i - 1 + 1].scalar == a[i - 1].scalar;
    }
  }

  lemma InertAtEnd(u: Unicode, s: string, c: char)
    requires Inert(u, c)
    ensures Chars(Composed(u, s + [c])) == Chars(Composed(u, s)) + [c]
  {
    assert (s + [c])[..|s + [c]| - 1] == s;
  }

  lemma {:induction false} ComposedAround(u: Unicode, a: string, s: string, b: string)
    requires (forall i :: 0 <= i < |a| ==> Inert(u, a[i])) && forall i :: 0 <= i < |b| ==> Inert(u, b[i])
    ensures Chars(Composed(u, a + s + b)) == a + Chars(Composed(u, s)) + b
    decreases |a| + |b|
  {
    hide Inert, Composed;
    if b != [] {
      var n := |b| - 1;
      ComposedAround(u, a, s, b[..n]);
      assert a + s + b == (a + s + b[..n]) + [b[n]];
      InertAtEnd(u, a + s + b[..n], b[n]);
    } else if a != [] {
      ComposedAround(u, a[1..], s, b);
      assert a + s + b == [a[0]] + (a[1..] + s + b);
      InertInFront(u, a[0], a[1..] + s + b);
    } else {
      assert a + s + b == s;
    }
  }

  // ---- Separators at the ends -----------------------------------------------------------------------------

  lemma {:induction false} SpacedBefore(t: CharTests, m: Text, b: Text)
    requires NoneKept(t, b)
    ensures Spaced(t, m + b) == Spaced(t, m)
    decreases |b|
  {
    if b == [] {
      assert m + b == m;
    } else {
      assert (m + b)[..|m + b| - 1] == m + b[..|b| - 1];
      SpacedBefore(t, m, b[..|b| - 1]);
    }
  }

  lemma {:induction false} SpacedAfter(t: CharTests, a: Text, m: Text)
    requires NoneKept(t, a)
    ensures Spaced(t, a + m) == Spaced(t, m)
    ensures Spaced(t, m) != [] ==> Pending(t, a + m) == Pending(t, m)
    decreases |m|
  {
    if m == [] {
      SpacedBefore(t, [], a);
      assert a + m == a && [] + a == a;
    } else {
      var front, last := m[..|m| - 1], m[|m| - 1];
      assert (a + m)[..|a + m| - 1] == a + front && (a + m)[|a + m| - 1] == last;
      SpacedAfter(t, a, front);
    }
  }

  // ---- The normal form ignores padding ------------------------------------------------------------------

  lemma {:induction false} SpacedScalars(t: CharTests, x: Text, y: Text)
    requires Scalars(x) == Scalars(y)
    ensures Scalars(Spaced(t, x)) == Scalars(Spaced(t, y)) && (Pending(t, x) == [] <==> Pending(t, y) == [])
    decreases |x|
  {
    assert |x| == |Scalars(x)| == |y|;
    hide Hull;
    if x != [] {
      var n := |x| - 1;
      assert Scalars(x)[n] == Scalars(y)[n];
      assert Scalars(x[..n]) == Scalars(x)[..n] && Scalars(y[..n]) == Scalars(y)[..n];
      SpacedScalars(t, x[..n], y[..n]);
      assert |Spaced(t, x[..n])| == |Scalars(Spaced(t, x[..n]))| == |Spaced(t, y[..n])|;
      if IsKept(t, x[n].scalar) {
        LastKept(t, x);
        LastKept(t, y);
      }
    }
  }

  lemma LastKept(t: CharTests, x: Text)
    requires x != [] && IsKept(t, x[|x| - 1].scalar)
    ensures var front := x[..|x| - 1]; var before := Spaced(t, front);
      Scalars(Spaced(t, x)) == Scalars(before) + (if before != [] && Pending(t, front) != [] then " " else "") + [x[|x| - 1].scalar]
  {
  }

  /** The normal form depends on the scalars alone. */
  lemma NormalFormUnique(p: Pipeline, s: Text, s': Text, r: string, r': string)
    requires Normalizes(p, s, r) && Normalizes(p, s', r') && Scalars(s) == Scalars(s')
    ensures r == r'
  {
    hide IsNfkc, Spaced;
    var d, c :| IsNfkc(p.u, p.decompose, s, d, c) && r == Scalars(Spaced(p.tests, Decomposed(p.fold, c)));
    var d', c' :| IsNfkc(p.u, p.decompose, s', d', c') && r' == Scalars(Spaced(p.tests, Decomposed(p.fold, c')));
    ErasingCommutesWithNfkc(p.u, p.decompose, s, d, c, s', d', c');
    DecomposedScalars(p.fold, c, c');
    SpacedScalars(p.tests, Decomposed(p.fold, c), Decomposed(p.fold, c'));
  }

  /** Inert scalars around a text compose with nothing. */
  lemma NfkcAround(u: Unicode, decompose: char -> string, a: Text, s: Text, b: Text, d: Text, c: Text, d': Text, c': Text)
    requires IsNfkc(u, decompose, s, d, c) && IsNfkc(u, decompose, a + s + b, d', c')
    requires AllInert(u, Decomposed(decompose, a)) && AllInert(u, Decomposed(decompose, b))
    ensures Scalars(c') == Scalars(Decomposed(decompose, a)) + Scalars(c) + Scalars(Decomposed(decompose, b))
  {
    hide Reaches, Ordered, Composed, HullAt, Inert, Decomposed;
    var x, y := Decomposed(decompose, a), Decomposed(decompose, b);
    DecomposedConcat(decompose, a + s, b);
    DecomposedConcat(decompose, a, s);
    ReachesInside(u, x, Decomposed(decompose, s), d, y);
    OrderedBetween(u, x, d, y);
    CanonicalOrderUnique(u, Decomposed(decompose, a + s + b), d', x + d + y);
    ScalarsConcat(x + d, y);
    ScalarsConcat(x, d);
    InertScalars(u, x);
    InertScalars(u, y);
    ComposedAround(u, Scalars(x), Scalars(d), Scalars(y));
    CarriedChars(d, Composed(u, Scalars(d)), c);
    CarriedChars(d', Composed(u, Scalars(d')), c');
  }

  lemma InertScalars(u: Unicode, s: Text)
    requires AllInert(u, s)
    ensures forall i :: 0 <= i < |Scalars(s)| ==> Inert(u, Scalars(s)[i])
  {
    hide Inert;
  }

  lemma CarriedChars(mapped: Text, out: seq<Group>, r: Text)
    requires Carries(mapped, out, r)
    ensures Scalars(r) == Chars(out)
  {
    hide HullAt;
  }

  /** Text between padding has the normal form of the text alone. */
  lemma PaddingVanishes(p: Pipeline, a: Text, s: Text, b: Text, r: string, r': string)
    requires AllPadding(p, a) && AllPadding(p, b) && Normalizes(p, s, r) && Normalizes(p, a + s + b, r')
    ensures r == r'
  {
    hide IsNfkc, Spaced, AllPadding, AllInert, NoneKept, Decomposed;
    var d, c :| IsNfkc(p.u, p.decompose, s, d, c) && r == Scalars(Spaced(p.tests, Decomposed(p.fold, c)));
    var d', c' :| IsNfkc(p.u, p.decompose, a + s + b, d', c') && r' == Scalars(Spaced(p.tests, Decomposed(p.fold, c')));
    PaddingDecomposes(p, a);
    PaddingDecomposes(p, b);
    NfkcAround(p.u, p.decompose, a, s, b, d, c, d', c');
    var x, y := Decomposed(p.decompose, a), Decomposed(p.decompose, b);
    ScalarsConcat(x + c, y);
    ScalarsConcat(x, c);
    DecomposedScalars(p.fold, c', x + c + y);
    SpacedScalars(p.tests, Decomposed(p.fold, c'), Decomposed(p.fold, x + c + y));
    DecomposedConcat(p.fold, x + c, y);
    DecomposedConcat(p.fold, x, c);
    SpacedBefore(p.tests, Decomposed(p.fold, x) + Decomposed(p.fold, c), Decomposed(p.fold, y));
    SpacedAfter(p.tests, Decomposed(p.fold, x), Decomposed(p.fold, c));
  }

  // ---- parse_pattern --------------------------------------------------------------------------------------

  /** `SlicePanic` stands for the reversed slice bounds of a lone star, which the code does not catch. */
  datatype PatternError =
    | Empty | MalformedQuotes | UnquotedWhitespace | InternalWildcard | UnsupportedSyntax | PhraseNeedsWords | SlicePanic

  datatype ParsedPattern = ParsedPattern(normalized: string, patternType: PatternType)

  function TrimStart(whitespace: char -> bool, s: string): string {
    if s != "" && whitespace(s[0]) then TrimStart(whitespace, s[1..]) else s
  }

  function TrimEnd(whitespace: char -> bool, s: string): string {
    if s != "" && whitespace(s[|s| - 1]) then TrimEnd(whitespace, s[..|s| - 1]) else s
  }

  function Count(s: string, c: char): nat {
    if s == "" then 0 else Count(s[1..], c) + (if s[0] == c then 1 else 0)
  }

  predicate HasPair(s: string, a: char, b: char) { exists i :: 0 <= i < |s| - 1 && s[i] == a && s[i + 1] == b }

  predicate UnsupportedSyntaxIn(s: string) {
    HasPair(s, '.', '*') || HasPair(s, '*', '.') || exists i :: 0 <= i < |s| && s[i] in "?[](){}|+^$\\"
  }

  /** `split(' ').count() >= 2`. */
  predicate HasSpace(s: string) { exists i :: 0 <= i < |s| && s[i] == ' ' }

  function ParsePhrase(normalize: string -> string, input: string): Result<ParsedPattern, PatternError> {
    if Count(input, '"') != 2 || |input| < 2 || input[0] != '"' || input[|input| - 1] != '"' then Err(MalformedQuotes)
    else
      var phrase := input[1..|input| - 1];
      if '"' in phrase then Err(MalformedQuotes)
      else
        var normalized := normalize(phrase);
        if normalized == "" then Err(Empty)
        else if !HasSpace(normalized) then Err(PhraseNeedsWords)
        else if '*' in normalized || UnsupportedSyntaxIn(normalized) then Err(UnsupportedSyntax)
        else Ok(ParsedPattern(normalized, Phrase))
  }

  function WildcardType(leading: bool, trailing: bool): PatternType {
    if leading then (if trailing then PatternType.Contains else Suffix) else (if trailing then Prefix else ExactWord)
  }

  function ParseWord(normalize: string -> string, whitespace: char -> bool, input: string): Result<ParsedPattern, PatternError>
    requires input != ""
  {
    if exists i :: 0 <= i < |input| && whitespace(input[i]) then Err(UnquotedWhitespace)
    else if UnsupportedSyntaxIn(input) then Err(UnsupportedSyntax)
    else
      var leading, trailing := input[0] == '*', input[|input| - 1] == '*';
      var start, end := if leading then 1 else 0, if trailing then |input| - 1 else |input|;
      if start > end then Err(SlicePanic)
      else
        var word := input[start..end];
        if word == "" then Err(Empty)
        else if '*' in word || Count(input, '*') > 2 then Err(InternalWildcard)
        else
          var normalized := normalize(word);
          if normalized == "" then Err(Empty) else Ok(ParsedPattern(normalized, WildcardType(leading, trailing)))
  }

  /** `parse_pattern`. */
  function ParsePattern(normalize: string -> string, whitespace: char -> bool, pattern: string): Result<ParsedPattern, PatternError> {
    var input := TrimEnd(whitespace, TrimStart(whitespace, pattern));
    if input == "" then Err(Empty)
    else if Count(input, '"') > 0 then ParsePhrase(normalize, input)
    else ParseWord(normalize, whitespace, input)
  }

  /** `normalize` is the pipeline, and whitespace, quotes and stars are padding to it. */
  ghost predicate IsNormalization(p: Pipeline, normalize: string -> string) {
    && (forall s :: Normalizes(p, SourceChars(s), normalize(s)))
    && Padding(p, '*') && Padding(p, '"') && forall c :: p.tests.whitespace(c) ==> Padding(p, c)
  }

  ghost predicate PaddingText(p: Pipeline, s: string) { forall i :: 0 <= i < |s| ==> Padding(p, s[i]) }

  /** Around any padding the normal form is that of the text inside. */
  lemma NormalizeInside(p: Pipeline, normalize: string -> string, a: string, s: string, b: string)
    requires IsNormalization(p, normalize) && PaddingText(p, a) && PaddingText(p, b)
    ensures normalize(a + s + b) == normalize(s)
  {
    hide Normalizes, Padding;
    var x, m, y := SourceChars(a), SourceChars(s), SourceChars(b);
    var whole := SourceChars(a + s + b);
    assert Scalars(whole) == Scalars(x + m + y) by {
      forall i | 0 <= i < |whole| ensures Scalars(whole)[i] == Scalars(x + m + y)[i] {
      }
    }
    Normalizable(p, x + m + y, whole, normalize(a + s + b));
    PaddingVanishes(p, x, m, y, normalize(s), normalize(a + s + b));
  }

  /** A text with the same scalars has the same normal form. */
  lemma Normalizable(p: Pipeline, s: Text, s': Text, r: string)
    requires Normalizes(p, s', r) && Scalars(s) == Scalars(s')
    ensures Normalizes(p, s, r)
  {
    hide IsNfkc, Spaced;
    var d', c' :| IsNfkc(p.u, p.decompose, s', d', c') && r == Scalars(Spaced(p.tests, Decomposed(p.fold, c')));
    var d, c := Respanned(p.u, p.decompose, s, s', d', c');
    DecomposedScalars(p.fold, c, c');
    SpacedScalars(p.tests, Decomposed(p.fold, c), Decomposed(p.fold, c'));
  }

  lemma Respanned(u: Unicode, decompose: char -> string, s: Text, s': Text, d': Text, c': Text) returns (d: Text, c: Text)
    requires IsNfkc(u, decompose, s', d', c') && Scalars(s) == Scalars(s')
    ensures IsNfkc(u, decompose, s, d, c) && Scalars(c) == Scalars(c')
  {
    hide ReachesIn, Ordered, Composed, HullAt, Decomposed;
    DecomposedScalars(decompose, s', s);
    var n: nat :| ReachesIn(u, Decomposed(decompose, s'), d', n);
    d := ReachesInRespanned(u, Decomposed(decompose, s'), d', n, Decomposed(decompose, s));
    OrderedRespanned(u, d', d);
    assert Reaches(u, Decomposed(decompose, s), d);
    var out := Composed(u, Scalars(d));
    assert |Scalars(d)| == |d| && |Scalars(d')| == |d'|;
    c := seq(|out|, k requires 0 <= k < |out| => Mapped(out[k].scalar, HullAt(d, MembersOf(d', out, c', k))));
    forall k | 0 <= k < |out| ensures out[k].members != [] && InBounds(out[k].members, |d|) {
    }
    CarriedChars(d', out, c');
    CarriedChars(d, out, c);
  }

  function MembersOf(mapped: Text, out: seq<Group>, r: Text, k: nat): (m: seq<nat>)
    requires Carries(mapped, out, r) && k < |out|
    ensures m == out[k].members && m != [] && InBounds(m, |mapped|)
  {
    out[k].members
  }

  lemma {:induction false} TrimStartSplits(whitespace: char -> bool, s: string) returns (lead: string)
    ensures s == lead + TrimStart(whitespace, s) && forall i :: 0 <= i < |lead| ==> whitespace(lead[i])
  {
    if s != "" && whitespace(s[0]) {
      var rest := TrimStartSplits(whitespace, s[1..]);
      lead := [s[0]] + rest;
      assert s == [s[0]] + s[1..];
    } else {
      lead := "";
    }
  }

  lemma {:induction false} TrimEndSplits(whitespace: char -> bool, s: string) returns (tail: string)
    ensures s == TrimEnd(whitespace, s) + tail && forall i :: 0 <= i < |tail| ==> whitespace(tail[i])
  {
    if s != "" && whitespace(s[|s| - 1]) {
      var rest := TrimEndSplits(whitespace, s[..|s| - 1]);
      tail := rest + [s[|s| - 1]];
      assert s == s[..|s| - 1] + [s[|s| - 1]];
    } else {
      tail := "";
    }
  }

  /** The accepted input, cut where its literal begins and ends. */
  lemma InputLiteral(normalize: string -> string, whitespace: char -> bool, input: string) returns (start: nat, end: nat)
    requires input != ""
    requires (if Count(input, '"') > 0 then ParsePhrase(normalize, input) else ParseWord(normalize, whitespace, input)).Ok?
    ensures start <= end <= |input|
    ensures (if Count(input, '"') > 0 then ParsePhrase(normalize, input) else ParseWord(normalize, whitespace, input)).value.normalized
         == normalize(input[start..end])
    ensures forall i :: 0 <= i < start || end <= i < |input| ==> input[i] == '*' || input[i] == '"'
  {
    hide UnsupportedSyntaxIn, Count, HasSpace;
    if Count(input, '"') > 0 {
      start, end := 1, |input| - 1;
    } else {
      start := if input[0] == '*' then 1 else 0;
      end := if input[|input| - 1] == '*' then |input| - 1 else |input|;
    }
  }

  lemma PaddedEnds(p: Pipeline, lead: string, input: string, start: nat, end: nat, tail: string)
    requires Padding(p, '*') && Padding(p, '"') && PaddingText(p, lead) && PaddingText(p, tail) && start <= end <= |input|
    requires forall i :: 0 <= i < start || end <= i < |input| ==> input[i] == '*' || input[i] == '"'
    ensures PaddingText(p, lead + input[..start]) && PaddingText(p, input[end..] + tail)
    ensures lead + (input + tail) == (lead + input[..start]) + input[start..end] + (input[end..] + tail)
  {
    hide Padding;
    assert input == input[..start] + (input[start..end] + input[end..]);
  }

  lemma WhitespacePads(p: Pipeline, normalize: string -> string, s: string)
    requires IsNormalization(p, normalize) && forall i :: 0 <= i < |s| ==> p.tests.whitespace(s[i])
    ensures PaddingText(p, s) && Padding(p, '*') && Padding(p, '"')
  {
    hide Normalizes, Padding;
  }

  /** An accepted pattern is padding, then the literal that was normalized, then padding. */
  lemma AcceptedLiteral(p: Pipeline, normalize: string -> string, pattern: string) returns (a: string, s: string, b: string)
    requires IsNormalization(p, normalize) && ParsePattern(normalize, p.tests.whitespace, pattern).Ok?
    ensures pattern == a + s + b && PaddingText(p, a) && PaddingText(p, b)
    ensures ParsePattern(normalize, p.tests.whitespace, pattern).value.normalized == normalize(s)
  {
    hide IsNormalization, Padding, PaddingText, Count, TrimStart, TrimEnd, ParsePhrase, ParseWord;
    var w := p.tests.whitespace;
    var lead := TrimStartSplits(w, pattern);
    var tail := TrimEndSplits(w, TrimStart(w, pattern));
    var input := TrimEnd(w, TrimStart(w, pattern));
    var start, end := InputLiteral(normalize, w, input);
    WhitespacePads(p, normalize, lead);
    WhitespacePads(p, normalize, tail);
    PaddedEnds(p, lead, input, start, end, tail);
    a, s, b := lead + input[..start], input[start..end], input[end..] + tail;
  }

  /** For every accepted pattern, what the matcher and the fingerprint normalize is what parsing normalized. */
  lemma MatchedTextIsParsedText(p: Pipeline, normalize: string -> string, pattern: string)
    requires IsNormalization(p, normalize) && ParsePattern(normalize, p.tests.whitespace, pattern).Ok?
    ensures normalize(pattern) == ParsePattern(normalize, p.tests.whitespace, pattern).value.normalized
    ensures normalize(pattern) != ""
  {
    hide IsNormalization, PaddingText, TrimStart, TrimEnd, UnsupportedSyntaxIn, Count, HasSpace;
    var a, s, b := AcceptedLiteral(p, normalize, pattern);
    NormalizeInside(p, normalize, a, s, b);
  }

  /** Parsing breaks down exactly on a lone star. */
  lemma LoneStarPanics(normalize: string -> string, whitespace: char -> bool, pattern: string)
    ensures ParsePattern(normalize, whitespace, pattern) == Err(SlicePanic) <==>
      TrimEnd(whitespace, TrimStart(whitespace, pattern)) == "*" && !whitespace('*')
  {
    var input := TrimEnd(whitespace, TrimStart(whitespace, pattern));
    hide TrimStart, TrimEnd;
    assert Count("", '"') == 0 && Count("*", '"') == 0;
    assert "*"[0] == '*' && !UnsupportedSyntaxIn("*");
  }
}
