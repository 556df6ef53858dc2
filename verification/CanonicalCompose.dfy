/**
 * normalization.rs: `canonical_compose_mapped`. One pass with a cursor and the
 * last combining class computes the Canonical Composition Algorithm of section
 * 3.11 of The Unicode Standard (definitions D115 and D117), and each output
 * scalar carries the hull of the spans of exactly the scalars it consumed.
 */
module CanonicalCompose {
  import opened Wrappers
  import opened Sorting
  import opened Spans
  import opened CanonicalOrder
  import Censoring

  /** One output scalar with the positions of the decomposed scalars it consumed. */
  datatype Group = Group(scalar: char, members: seq<nat>)

  // ---- The standard's algorithm -----------------------------------------------------------

  function LastStarter(u: Unicode, out: seq<Group>): (r: Option<nat>)
    ensures r.Some? ==> r.value < |out| && u.ccc(out[r.value].scalar) == 0
    ensures r.Some? ==> forall m :: r.value < m < |out| ==> u.ccc(out[m].scalar) > 0
    ensures r.None? ==> forall m :: 0 <= m < |out| ==> u.ccc(out[m].scalar) > 0
  {
    if out == [] then None
    else if u.ccc(out[|out| - 1].scalar) == 0 then Some(|out| - 1)
    else LastStarter(u, out[..|out| - 1])
  }

  /** Something between the starter at `k` and the next scalar is a starter, or has at least its class. */
  predicate Blocked(u: Unicode, out: seq<Group>, k: nat, c: char) {
    exists m :: k < m < |out| && (u.ccc(out[m].scalar) == 0 || u.ccc(out[m].scalar) >= u.ccc(c))
  }

  /** What the scalar `c`, at position `n`, does to the sequence so far. */
  function ComposeNext(u: Unicode, out: seq<Group>, c: char, n: nat): seq<Group> {
    var s := LastStarter(u, out);
    if s.Some? && !Blocked(u, out, s.value, c) && u.compose(out[s.value].scalar, c).Composite? then
      out[s.value := Group(u.compose(out[s.value].scalar, c).value, out[s.value].members + [n])]
    else out + [Group(c, [n])]
  }

  function Composed(u: Unicode, s: string): seq<Group> {
    if s == [] then [] else ComposeNext(u, Composed(u, s[..|s| - 1]), s[|s| - 1], |s| - 1)
  }

  // ---- What composition keeps ---------------------------------------------------------------

  /** The composition of a list of scalars, first with second, the result with the third, and so on. */
  function Fold(u: Unicode, s: string): Option<char> {
    if s == [] then None
    else if |s| == 1 then Some(s[0])
    else
      match Fold(u, s[..|s| - 1])
      case None => None
      case Some(p) => match u.compose(p, s[|s| - 1]) case NoComposite => None case Composite(q) => Some(q)
  }

  predicate InBounds(members: seq<nat>, n: nat) { forall i :: 0 <= i < |members| ==> members[i] < n }

  predicate Ascending(members: seq<nat>) { forall i, j :: 0 <= i < j < |members| ==> members[i] < members[j] }

  function At(s: string, members: seq<nat>): (r: string)
    requires InBounds(members, |s|)
    ensures |r| == |members| && forall i :: 0 <= i < |r| ==> r[i] == s[members[i]]
  {
    seq(|members|, i requires 0 <= i < |members| => s[members[i]])
  }

  /** A group consumes ascending positions and is the composition of the scalars there. */
  ghost predicate GroupOk(u: Unicode, s: string, g: Group) {
    g.members != [] && Ascending(g.members) && InBounds(g.members, |s|) && Fold(u, At(s, g.members)) == Some(g.scalar)
  }

  ghost predicate GroupsOk(u: Unicode, s: string, out: seq<Group>) {
    forall k :: 0 <= k < |out| ==> GroupOk(u, s, out[k])
  }

  /** Every position belongs to one group. */
  ghost predicate Covered(out: seq<Group>, n: nat) {
    forall p: nat :: p < n ==> Owned(out, p)
  }

  ghost predicate Owned(out: seq<Group>, p: nat) {
    exists k :: 0 <= k < |out| && p in out[k].members
  }

  predicate Disjoint(a: seq<nat>, b: seq<nat>) { forall p :: p in a ==> p !in b }

  ghost predicate Separate(out: seq<Group>) {
    forall k, l :: 0 <= k < l < |out| ==> Disjoint(out[k].members, out[l].members)
  }

  lemma GroupGrows(u: Unicode, s: string, g: Group, c: char)
    requires GroupOk(u, s, g)
    ensures GroupOk(u, s + [c], g)
  {
    assert At(s + [c], g.members) == At(s, g.members);
  }

  lemma GroupExtends(u: Unicode, s: string, g: Group, c: char, p: char)
    requires GroupOk(u, s, g) && u.compose(g.scalar, c) == Composite(p)
    ensures GroupOk(u, s + [c], Group(p, g.members + [|s|]))
  {
    var before, after := At(s, g.members), At(s + [c], g.members + [|s|]);
    assert after == before + [c];
    assert after[..|after| - 1] == before;
  }

  lemma NewGroup(u: Unicode, s: string, c: char)
    ensures GroupOk(u, s + [c], Group(c, [|s|]))
  {
    assert At(s + [c], [|s|]) == [c];
  }

  /** The step as one of two shapes, without the algorithm's reasons. */
  ghost predicate Step(u: Unicode, out: seq<Group>, c: char, n: nat, next: seq<Group>) {
    || next == out + [Group(c, [n])]
    || exists k: nat, p :: k < |out| && u.compose(out[k].scalar, c) == Composite(p)
         && next == out[k := Group(p, out[k].members + [n])]
  }

  lemma NextIsStep(u: Unicode, out: seq<Group>, c: char, n: nat)
    ensures Step(u, out, c, n, ComposeNext(u, out, c, n))
  {
    var s := LastStarter(u, out);
    if s.Some? && u.compose(out[s.value].scalar, c).Composite? {
      assert u.compose(out[s.value].scalar, c) == Composite(u.compose(out[s.value].scalar, c).value);
    }
  }

  lemma StepKeepsGroups(u: Unicode, s: string, out: seq<Group>, c: char, next: seq<Group>)
    requires GroupsOk(u, s, out) && Step(u, out, c, |s|, next)
    ensures GroupsOk(u, s + [c], next)
  {
    hide GroupOk;
    forall k | 0 <= k < |out| ensures GroupOk(u, s + [c], out[k]) {
      GroupGrows(u, s, out[k], c);
    }
    if next == out + [Group(c, [|s|])] {
      NewGroup(u, s, c);
    } else {
      var k: nat, p :| k < |out| && u.compose(out[k].scalar, c) == Composite(p) && next == out[k := Group(p, out[k].members + [|s|])];
      GroupExtends(u, s, out[k], c, p);
    }
  }

  lemma StepCovers(u: Unicode, out: seq<Group>, c: char, n: nat, next: seq<Group>)
    requires Covered(out, n) && Step(u, out, c, n, next)
    ensures Covered(next, n + 1)
  {
    forall p: nat | p < n + 1 ensures Owned(next, p) {
      if p < n {
        assert Owned(out, p);
        var k :| 0 <= k < |out| && p in out[k].members;
        assert p in next[k].members;
      } else if next == out + [Group(c, [n])] {
        assert n in next[|out|].members;
      } else {
        var k: nat, q :| k < |out| && u.compose(out[k].scalar, c) == Composite(q) && next == out[k := Group(q, out[k].members + [n])];
        assert n in next[k].members;
      }
    }
  }

  lemma StepSeparates(u: Unicode, out: seq<Group>, c: char, n: nat, next: seq<Group>)
    requires Separate(out) && Step(u, out, c, n, next) && forall k :: 0 <= k < |out| ==> InBounds(out[k].members, n)
    ensures Separate(next)
  {
    hide Disjoint;
    forall k, l | 0 <= k < l < |next| ensures Disjoint(next[k].members, next[l].members) {
      if l < |out| {
        GrownDisjoint(out[k].members, out[l].members, n);
      } else {
        LastDisjoint(out[k].members, n);
      }
    }
  }

  lemma GrownDisjoint(a: seq<nat>, b: seq<nat>, n: nat)
    requires Disjoint(a, b) && InBounds(a, n) && InBounds(b, n)
    ensures Disjoint(a + [n], b) && Disjoint(a, b + [n])
  {
    assert n !in a && n !in b;
  }

  lemma LastDisjoint(a: seq<nat>, n: nat)
    requires InBounds(a, n)
    ensures Disjoint(a, [n])
  {
  }

  /**
   * Composition partitions the decomposed text: every scalar is consumed by
   * exactly one output scalar, which is the composition of what it consumed.
   */
  lemma {:induction false} CompositionPartitions(u: Unicode, s: string)
    ensures GroupsOk(u, s, Composed(u, s)) && Covered(Composed(u, s), |s|) && Separate(Composed(u, s))
  {
    hide ComposeNext, GroupOk, Covered, Separate, Step;
    if s == [] {
      NothingComposed();
    } else {
      var n := |s| - 1;
      var front, out := s[..n], Composed(u, s[..n]);
      CompositionPartitions(u, front);
      NextIsStep(u, out, s[n], n);
      assert s == front + [s[n]];
      StepKeepsGroups(u, front, out, s[n], Composed(u, s));
      StepCovers(u, out, s[n], n, Composed(u, s));
      forall k | 0 <= k < |out| ensures InBounds(out[k].members, n) {
        MembersInBounds(u, front, out[k]);
      }
      StepSeparates(u, out, s[n], n, Composed(u, s));
    }
  }

  lemma MembersInBounds(u: Unicode, s: string, g: Group)
    requires GroupOk(u, s, g)
    ensures InBounds(g.members, |s|) && g.members != []
  {
  }

  lemma NothingComposed()
    ensures Covered([], 0) && Separate([])
  {
  }

  // ---- The pass ----------------------------------------------------------------------------

  /** Composites of starters are starters, as in the Unicode Character Database. */
  ghost predicate StartersStay(u: Unicode) {
    forall a, b :: u.ccc(a) == 0 && u.compose(a, b).Composite? ==> u.ccc(u.compose(a, b).value) == 0
  }

  /** The pass's two variables summarize the sequence so far; `previous` is the class of the last scalar read. */
  ghost predicate Summarizes(u: Unicode, out: seq<Group>, starter: Option<nat>, last: nat, previous: nat) {
    && starter == LastStarter(u, out)
    && (starter.Some? ==>
          && (starter.value == |out| - 1 <==> last == 0) && last <= previous
          && (last > 0 ==> u.ccc(out[|out| - 1].scalar) == last)
          && forall m :: starter.value < m < |out| ==> u.ccc(out[m].scalar) <= last)
  }

  lemma BlockedBySummary(u: Unicode, out: seq<Group>, starter: Option<nat>, last: nat, previous: nat, c: char)
    requires Summarizes(u, out, starter, last, previous) && starter.Some?
    ensures Blocked(u, out, starter.value, c) <==> !(last == 0 || last < u.ccc(c))
  {
    if last > 0 && last >= u.ccc(c) {
      assert u.ccc(out[|out| - 1].scalar) >= u.ccc(c);
    }
  }

  lemma LastStarterIs(u: Unicode, out: seq<Group>, k: nat)
    requires k < |out| && u.ccc(out[k].scalar) == 0 && forall m :: k < m < |out| ==> u.ccc(out[m].scalar) > 0
    ensures LastStarter(u, out) == Some(k)
  {
  }

  lemma NoStarter(u: Unicode, out: seq<Group>)
    requires forall m :: 0 <= m < |out| ==> u.ccc(out[m].scalar) > 0
    ensures LastStarter(u, out) == None
  {
  }

  /** Consuming a scalar into the starter keeps the summary. */
  lemma ComposeKeepsSummary(u: Unicode, out: seq<Group>, k: nat, last: nat, previous: nat, c: char, g: Group)
    requires Summarizes(u, out, Some(k), last, previous) && (last == 0 || last < u.ccc(c)) && u.ccc(g.scalar) == 0
    ensures Summarizes(u, out[k := g], Some(k), last, u.ccc(c))
  {
    LastStarterIs(u, out[k := g], k);
  }

  /** Appending a scalar, in canonical order, keeps the summary. */
  lemma AppendKeepsSummary(u: Unicode, out: seq<Group>, starter: Option<nat>, last: nat, previous: nat, g: Group)
    requires Summarizes(u, out, starter, last, previous)
    requires u.ccc(g.scalar) > 0 && previous > 0 ==> previous <= u.ccc(g.scalar)
    ensures var c := u.ccc(g.scalar);
      Summarizes(u, out + [g], if c == 0 then Some(|out|) else starter, c, c)
  {
    var c, next := u.ccc(g.scalar), out + [g];
    if c == 0 {
      LastStarterIs(u, next, |out|);
    } else if starter.Some? {
      LastStarterIs(u, next, starter.value);
    } else {
      NoStarter(u, next);
    }
  }

  /** The hull of the sources of some positions. */
  function HullAt(mapped: Text, members: seq<nat>): ByteSpan
    requires members != [] && InBounds(members, |mapped|)
  {
    Hull(SourcesAt(mapped, members))
  }

  function SourcesAt(mapped: Text, members: seq<nat>): (r: seq<ByteSpan>)
    requires InBounds(members, |mapped|)
    ensures |r| == |members| && forall i :: 0 <= i < |r| ==> r[i] == mapped[members[i]].source
  {
    seq(|members|, i requires 0 <= i < |members| => mapped[members[i]].source)
  }

  /** The output scalars are the groups', each with the hull of what it consumed. */
  ghost predicate Carries(mapped: Text, out: seq<Group>, composed: Text) {
    && |composed| == |out|
    && (forall k :: 0 <= k < |out| ==> out[k].members != [] && InBounds(out[k].members, |mapped|))
    && (forall k :: 0 <= k < |out| ==> composed[k] == Mapped(out[k].scalar, HullAt(mapped, out[k].members)))
  }

  lemma HullExtends(mapped: Text, members: seq<nat>, n: nat)
    requires members != [] && InBounds(members, |mapped|) && n < |mapped|
    ensures var h := HullAt(mapped, members); var s := mapped[n].source;
      HullAt(mapped, members + [n]) == ByteSpan(Min(h.start, s.start), Max(h.end, s.end))
  {
    var before, after := SourcesAt(mapped, members), SourcesAt(mapped, members + [n]);
    assert after[..|after| - 1] == before;
  }

  lemma HullOne(mapped: Text, n: nat)
    requires n < |mapped|
    ensures HullAt(mapped, [n]) == mapped[n].source
  {
  }

  lemma OrderedPair(u: Unicode, mapped: Text, n: nat)
    requires Ordered(u, mapped) && 0 < n < |mapped| && Class(u, mapped[n]) > 0
    ensures Class(u, mapped[n - 1]) <= Class(u, mapped[n])
  {
    assert !Reorderable(u, mapped[n - 1], mapped[n]);
  }

  /** `canonical_compose_mapped`. */
  method CanonicalComposeMapped(u: Unicode, mapped: Text) returns (composed: Text)
    requires Ordered(u, mapped) && StartersStay(u)
    ensures Carries(mapped, Composed(u, Scalars(mapped)), composed)
  {
    hide Summarizes, Carries, Blocked, Ordered, LastStarter, HullAt, Composed;
    var starter: Option<nat> := None;
    var last: nat := 0;
    composed := [];
    ghost var out: seq<Group> := [];
    ghost var text := Scalars(mapped);
    ghost var previous: nat := 0;
    StartPass(u, mapped);
    for n := 0 to |mapped|
      invariant out == Composed(u, text[..n]) && Carries(mapped, out, composed)
      invariant Summarizes(u, out, starter, last, previous)
      invariant n > 0 ==> previous == Class(u, mapped[n - 1])
      invariant n == 0 ==> previous == 0
    {
      var c, source := mapped[n].scalar, mapped[n].source;
      var combining := u.ccc(c);
      ComposedNext(u, text, n);
      SummaryStarter(u, out, starter, last, previous);
      CarriesLength(mapped, out, composed);
      var p := NoComposite;
      if starter.Some? && (last == 0 || last < combining) {
        p := u.compose(composed[starter.value].scalar, c);
      }
      if starter.Some? {
        BlockedBySummary(u, out, starter, last, previous, c);
      }
      if p.Composite? {
        var k := starter.value;
        var h := composed[k].source;
        CarriesCompose(mapped, out, composed, k, p.value, n);
        ComposeKeepsSummary(u, out, k, last, previous, c, Group(p.value, out[k].members + [n]));
        composed := composed[k := Mapped(p.value, ByteSpan(Min(h.start, source.start), Max(h.end, source.end)))];
        out := out[k := Group(p.value, out[k].members + [n])];
      } else {
        if n > 0 && combining > 0 {
          OrderedPair(u, mapped, n);
        }
        AppendKeepsSummary(u, out, starter, last, previous, Group(c, [n]));
        CarriesAppend(mapped, out, composed, n);
        if combining == 0 {
          starter := Some(|composed|);
          last := 0;
        } else {
          last := combining;
        }
        composed := composed + [mapped[n]];
        out := out + [Group(c, [n])];
      }
      previous := combining;
    }
    assert text[..|mapped|] == text;
  }

  lemma StartPass(u: Unicode, mapped: Text)
    ensures Composed(u, []) == [] && Carries(mapped, [], []) && Summarizes(u, [], None, 0, 0)
  {
  }

  lemma ComposedNext(u: Unicode, text: string, n: nat)
    requires n < |text|
    ensures Composed(u, text[..n + 1]) == ComposeNext(u, Composed(u, text[..n]), text[n], n)
  {
    assert text[..n + 1][..n] == text[..n];
  }

  lemma SummaryStarter(u: Unicode, out: seq<Group>, starter: Option<nat>, last: nat, previous: nat)
    requires Summarizes(u, out, starter, last, previous)
    ensures starter == LastStarter(u, out) && (starter.Some? ==> starter.value < |out| && u.ccc(out[starter.value].scalar) == 0)
  {
  }

  lemma CarriesLength(mapped: Text, out: seq<Group>, composed: Text)
    requires Carries(mapped, out, composed)
    ensures |composed| == |out| && forall k :: 0 <= k < |out| ==> composed[k].scalar == out[k].scalar
  {
  }

  lemma CarriesCompose(mapped: Text, out: seq<Group>, composed: Text, k: nat, p: char, n: nat)
    requires Carries(mapped, out, composed) && k < |out| && n < |mapped|
    ensures var h := composed[k].source; var s := mapped[n].source;
      Carries(mapped, out[k := Group(p, out[k].members + [n])],
              composed[k := Mapped(p, ByteSpan(Min(h.start, s.start), Max(h.end, s.end)))])
  {
    HullExtends(mapped, out[k].members, n);
    hide HullAt;
  }

  lemma CarriesAppend(mapped: Text, out: seq<Group>, composed: Text, n: nat)
    requires Carries(mapped, out, composed) && n < |mapped|
    ensures Carries(mapped, out + [Group(mapped[n].scalar, [n])], composed + [mapped[n]])
  {
    HullOne(mapped, n);
    hide HullAt;
  }

  // ---- NFKC with provenance --------------------------------------------------------------------

  /** Compatibility decomposition: every decomposed scalar keeps the span of its source scalar. */
  function Decomposed(decompose: char -> string, source: Text): Text {
    if source == [] then []
    else
      var last := source[|source| - 1];
      Decomposed(decompose, source[..|source| - 1]) + Spread(decompose(last.scalar), last.source)
  }

  function Spread(scalars: string, source: ByteSpan): (r: Text)
    ensures |r| == |scalars| && forall i :: 0 <= i < |r| ==> r[i] == Mapped(scalars[i], source)
  {
    seq(|scalars|, i requires 0 <= i < |scalars| => Mapped(scalars[i], source))
  }

  /** `r` is the composed canonical ordering of the decomposition, with provenance. */
  ghost predicate IsNfkc(u: Unicode, decompose: char -> string, source: Text, d: Text, r: Text) {
    && Reaches(u, Decomposed(decompose, source), d) && Ordered(u, d)
    && Carries(d, Composed(u, Scalars(d)), r)
  }

  /** `mapped_nfkc_from_source`. */
  method MappedNfkc(u: Unicode, decompose: char -> string, source: Text) returns (r: Text)
    requires StartersStay(u)
    ensures exists d :: IsNfkc(u, decompose, source, d, r)
  {
    hide Reaches, Ordered, StartersStay, Carries, Composed;
    var decomposed: Text := [];
    for n := 0 to |source|
      invariant decomposed == Decomposed(decompose, source[..n])
    {
      assert source[..n + 1][..n] == source[..n];
      decomposed := decomposed + Spread(decompose(source[n].scalar), source[n].source);
    }
    assert source[..|source|] == source;
    var a := new Mapped[|decomposed|](i requires 0 <= i < |decomposed| => decomposed[i]);
    assert a[..] == decomposed;
    CanonicalOrderMapped(u, a);
    r := CanonicalComposeMapped(u, a[..]);
    assert IsNfkc(u, decompose, source, a[..], r);
  }

  lemma {:induction false} DecomposedScalars(decompose: char -> string, s: Text, s': Text)
    requires Scalars(s) == Scalars(s')
    ensures Scalars(Decomposed(decompose, s)) == Scalars(Decomposed(decompose, s'))
    decreases |s|
  {
    assert |s| == |Scalars(s)| == |s'|;
    if s != [] {
      var n := |s| - 1;
      assert Scalars(s)[n] == Scalars(s')[n];
      assert Scalars(s[..n]) == Scalars(s)[..n] && Scalars(s'[..n]) == Scalars(s')[..n];
      DecomposedScalars(decompose, s[..n], s'[..n]);
      ScalarsConcat(Decomposed(decompose, s[..n]), Spread(decompose(s[n].scalar), s[n].source));
      ScalarsConcat(Decomposed(decompose, s'[..n]), Spread(decompose(s'[n].scalar), s'[n].source));
      assert Scalars(Spread(decompose(s[n].scalar), s[n].source)) == Scalars(Spread(decompose(s'[n].scalar), s'[n].source));
    }
  }

  lemma ScalarsConcat(a: Text, b: Text)
    ensures Scalars(a + b) == Scalars(a) + Scalars(b)
  {
  }

  lemma CarriedScalars(mapped: Text, out: seq<Group>, r: Text, mapped': Text, r': Text)
    requires Carries(mapped, out, r) && Carries(mapped', out, r')
    ensures Scalars(r) == Scalars(r')
  {
    hide HullAt;
    forall k | 0 <= k < |out| ensures Scalars(r)[k] == Scalars(r')[k] {
    }
  }

  /** Erasing spans commutes with the whole pass: the text depends on the scalars alone. */
  lemma ErasingCommutesWithNfkc(u: Unicode, decompose: char -> string, s: Text, d: Text, r: Text, s': Text, d': Text, r': Text)
    requires IsNfkc(u, decompose, s, d, r) && IsNfkc(u, decompose, s', d', r') && Scalars(s) == Scalars(s')
    ensures Scalars(r) == Scalars(r')
  {
    hide Reaches, Ordered, Carries, Composed;
    DecomposedScalars(decompose, s, s');
    ErasingCommutesWithOrdering(u, Decomposed(decompose, s), d, Decomposed(decompose, s'), d');
    CarriedScalars(d, Composed(u, Scalars(d)), r, d', r');
  }

  /** Every scalar of the result comes from a stretch of the input on character boundaries. */
  lemma NfkcSourcesProper(input: string, u: Unicode, decompose: char -> string, s: Text, d: Text, r: Text)
    requires IsNfkc(u, decompose, s, d, r) && ProperSources(input, s)
    ensures ProperSources(input, r)
  {
    hide Composed, Ordered, ReachesIn, Censoring.ValidSpan;
    DecomposedProper(input, decompose, s);
    var n: nat :| ReachesIn(u, Decomposed(decompose, s), d, n);
    ReachesInKeepsElements(u, Decomposed(decompose, s), d, n);
    forall i | 0 <= i < |d| ensures Censoring.ValidSpan(input, d[i].source) {
      assert d[i] in multiset(d);
      assert d[i] in Decomposed(decompose, s);
    }
    var out := Composed(u, Scalars(d));
    forall k | 0 <= k < |r| ensures Censoring.ValidSpan(input, r[k].source) {
      Censoring.HullValid(input, SourcesAt(d, out[k].members));
    }
  }

  /** Every source span is non-empty, inside the input and on its character boundaries. */
  ghost predicate ProperSources(input: string, s: Text) {
    forall i :: 0 <= i < |s| ==> Censoring.ValidSpan(input, s[i].source)
  }

  lemma {:induction false} DecomposedProper(input: string, decompose: char -> string, s: Text)
    requires ProperSources(input, s)
    ensures ProperSources(input, Decomposed(decompose, s))
    decreases |s|
  {
    hide Censoring.ValidSpan;
    if s != [] {
      DecomposedProper(input, decompose, s[..|s| - 1]);
    }
  }
}
