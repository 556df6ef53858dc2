/**
 * normalization.rs: `canonical_order_mapped`. Sorting each run of marks stably
 * is the Canonical Ordering Algorithm of section 3.11 of The Unicode Standard:
 * the one sequence reached by exchanging reorderable pairs (definitions D108
 * and D109) that has no such pair left. Source spans travel with the scalars.
 */
module CanonicalOrder {
  import opened Sorting
  import opened Spans

  /** The Unicode properties that canonical ordering and composition read. */
  datatype Unicode = Unicode(ccc: char -> nat, compose: (char, char) -> Composition)

  datatype Composition = NoComposite | Composite(value: char)

  /** A scalar with the source span it came from. */
  datatype Mapped = Mapped(scalar: char, source: ByteSpan)

  type Text = seq<Mapped>

  function Class(u: Unicode, m: Mapped): nat { u.ccc(m.scalar) }

  function ByClass(u: Unicode): (Mapped, Mapped) -> bool { (a: Mapped, b: Mapped) => Class(u, a) <= Class(u, b) }

  // ---- The declarative ordering ---------------------------------------------------------

  /** A reorderable pair: both are marks and the first has the greater class. */
  predicate Reorderable(u: Unicode, a: Mapped, b: Mapped) { Class(u, a) > Class(u, b) > 0 }

  /** `t` is `s` with the reorderable pair at `i` exchanged. */
  predicate Exchanges(u: Unicode, s: Text, t: Text, i: nat) {
    i + 1 < |s| && Reorderable(u, s[i], s[i + 1]) && t == s[i := s[i + 1]][i + 1 := s[i]]
  }

  ghost predicate OneExchange(u: Unicode, s: Text, t: Text) {
    exists i: nat :: Exchanges(u, s, t, i)
  }

  ghost predicate ReachesIn(u: Unicode, s: Text, t: Text, n: nat)
    decreases n
  {
    if n == 0 then s == t else exists m :: OneExchange(u, s, m) && ReachesIn(u, m, t, n - 1)
  }

  /** `t` is reached from `s` by exchanges. */
  ghost predicate Reaches(u: Unicode, s: Text, t: Text) {
    exists n: nat :: ReachesIn(u, s, t, n)
  }

  predicate Ordered(u: Unicode, s: Text) {
    forall i :: 0 <= i < |s| - 1 ==> !Reorderable(u, s[i], s[i + 1])
  }

  /** Only marks stand in [from, end). */
  ghost predicate OnlyMarks(u: Unicode, s: Text, from: nat, end: nat) {
    forall k :: from <= k < end && k < |s| ==> u.ccc(s[k].scalar) > 0
  }

  /** The pair is in order if only marks stand between the first and the second, the latter a mark too. */
  ghost predicate PairOrdered(u: Unicode, s: Text, i: nat, j: nat) {
    i < j < |s| && OnlyMarks(u, s, i + 1, j + 1) ==> u.ccc(s[i].scalar) <= u.ccc(s[j].scalar)
  }

  lemma {:induction false} MarksRise(u: Unicode, s: Text, i: nat, j: nat)
    requires Ordered(u, s)
    ensures PairOrdered(u, s, i, j)
    decreases j
  {
    if i < j < |s| && OnlyMarks(u, s, i + 1, j + 1) {
      assert !Reorderable(u, s[j - 1], s[j]);
      if i < j - 1 {
        MarksRise(u, s, i, j - 1);
      }
    }
  }

  /** A text is ordered exactly when between starters the marks' combining classes never fall. */
  lemma OrderedMeans(u: Unicode, s: Text)
    ensures Ordered(u, s) <==> forall i: nat, j: nat :: PairOrdered(u, s, i, j)
  {
    if Ordered(u, s) {
      forall i: nat, j: nat ensures PairOrdered(u, s, i, j) {
        MarksRise(u, s, i, j);
      }
    }
    if forall i: nat, j: nat :: PairOrdered(u, s, i, j) {
      forall i | 0 <= i < |s| - 1 ensures !Reorderable(u, s[i], s[i + 1]) {
        assert PairOrdered(u, s, i, i + 1);
      }
    }
  }

  lemma ReachesSelf(u: Unicode, s: Text)
    ensures Reaches(u, s, s)
  {
    assert ReachesIn(u, s, s, 0);
  }

  lemma ReachesOne(u: Unicode, s: Text, t: Text, i: nat)
    requires Exchanges(u, s, t, i)
    ensures Reaches(u, s, t)
  {
    hide Exchanges;
    assert ReachesIn(u, t, t, 0);
    assert OneExchange(u, s, t);
    assert ReachesIn(u, s, t, 1);
  }

  lemma {:induction false} ReachesInThen(u: Unicode, s: Text, t: Text, r: Text, n: nat, m: nat)
    requires ReachesIn(u, s, t, n) && ReachesIn(u, t, r, m)
    ensures ReachesIn(u, s, r, n + m)
    decreases n
  {
    hide OneExchange;
    if n > 0 {
      var x :| OneExchange(u, s, x) && ReachesIn(u, x, t, n - 1);
      ReachesInThen(u, x, t, r, n - 1, m);
    }
  }

  lemma ReachesThen(u: Unicode, s: Text, t: Text, r: Text)
    requires Reaches(u, s, t) && Reaches(u, t, r)
    ensures Reaches(u, s, r)
  {
    hide ReachesIn;
    var n: nat :| ReachesIn(u, s, t, n);
    var m: nat :| ReachesIn(u, t, r, m);
    ReachesInThen(u, s, t, r, n, m);
  }

  lemma ExchangesInside(u: Unicode, a: Text, s: Text, t: Text, b: Text, i: nat)
    requires Exchanges(u, s, t, i)
    ensures Exchanges(u, a + s + b, a + t + b, |a| + i)
  {
    var x, y := a + s + b, a + t + b;
    assert x[|a| + i] == s[i] && x[|a| + i + 1] == s[i + 1];
    assert y == x[|a| + i := x[|a| + i + 1]][|a| + i + 1 := x[|a| + i]];
  }

  lemma {:induction false} ReachesInInside(u: Unicode, a: Text, s: Text, t: Text, b: Text, n: nat)
    requires ReachesIn(u, s, t, n)
    ensures ReachesIn(u, a + s + b, a + t + b, n)
    decreases n
  {
    hide Exchanges;
    if n > 0 {
      var x :| OneExchange(u, s, x) && ReachesIn(u, x, t, n - 1);
      var i: nat :| Exchanges(u, s, x, i);
      ExchangesInside(u, a, s, x, b, i);
      assert OneExchange(u, a + s + b, a + x + b);
      ReachesInInside(u, a, x, t, b, n - 1);
    }
  }

  /** Exchanges inside a part are exchanges of the whole. */
  lemma ReachesInside(u: Unicode, a: Text, s: Text, t: Text, b: Text)
    requires Reaches(u, s, t)
    ensures Reaches(u, a + s + b, a + t + b)
  {
    hide ReachesIn;
    var n: nat :| ReachesIn(u, s, t, n);
    ReachesInInside(u, a, s, t, b, n);
  }

  // ---- Uniqueness: what exchanges preserve ------------------------------------------------

  /** The scalars of one class together with the starters, in order. */
  function Projection(u: Unicode, s: Text, c: nat): Text {
    if s == [] then []
    else (if Class(u, s[0]) == c || Class(u, s[0]) == 0 then [s[0]] else []) + Projection(u, s[1..], c)
  }

  lemma {:induction false} ProjectionConcat(u: Unicode, s: Text, t: Text, c: nat)
    ensures Projection(u, s + t, c) == Projection(u, s, c) + Projection(u, t, c)
    decreases |s|
  {
    if s == [] {
      assert s + t == t;
    } else {
      assert (s + t)[1..] == s[1..] + t;
      ProjectionConcat(u, s[1..], t, c);
    }
  }

  lemma PairProjection(u: Unicode, x: Mapped, y: Mapped, c: nat)
    ensures Projection(u, [x, y], c) ==
      (if Class(u, x) == c || Class(u, x) == 0 then [x] else []) + (if Class(u, y) == c || Class(u, y) == 0 then [y] else [])
  {
    hide Class;
    assert [x, y][1..] == [y] && [y][1..] == [] && Projection(u, [], c) == [];
    var last := if Class(u, y) == c || Class(u, y) == 0 then [y] else [];
    assert Projection(u, [y], c) == last + [] == last;
  }

  lemma ExchangeKeepsProjection(u: Unicode, s: Text, t: Text, i: nat, c: nat)
    requires Exchanges(u, s, t, i)
    ensures Projection(u, s, c) == Projection(u, t, c)
  {
    var a, x, y, b := s[..i], s[i], s[i + 1], s[i + 2..];
    PairProjection(u, x, y, c);
    PairProjection(u, y, x, c);
    assert Projection(u, [x, y], c) == Projection(u, [y, x], c);
    hide Projection;
    assert s == a + ([x, y] + b) && t == a + ([y, x] + b);
    ProjectionConcat(u, a, [x, y] + b, c);
    ProjectionConcat(u, [x, y], b, c);
    ProjectionConcat(u, a, [y, x] + b, c);
    ProjectionConcat(u, [y, x], b, c);
  }

  lemma {:induction false} ReachesInKeepsProjection(u: Unicode, s: Text, t: Text, n: nat, c: nat)
    requires ReachesIn(u, s, t, n)
    ensures Projection(u, s, c) == Projection(u, t, c)
    decreases n
  {
    hide Exchanges, Projection;
    if n > 0 {
      var x :| OneExchange(u, s, x) && ReachesIn(u, x, t, n - 1);
      var i: nat :| Exchanges(u, s, x, i);
      ExchangeKeepsProjection(u, s, x, i, c);
      ReachesInKeepsProjection(u, x, t, n - 1, c);
    }
  }

  lemma ReachesKeepsProjection(u: Unicode, s: Text, t: Text, c: nat)
    requires Reaches(u, s, t)
    ensures Projection(u, s, c) == Projection(u, t, c)
  {
    hide ReachesIn, Projection;
    var n: nat :| ReachesIn(u, s, t, n);
    ReachesInKeepsProjection(u, s, t, n, c);
  }

  lemma OrderedTail(u: Unicode, s: Text)
    requires Ordered(u, s) && s != []
    ensures Ordered(u, s[1..])
  {
    forall i | 0 <= i < |s| - 2 ensures !Reorderable(u, s[1..][i], s[1..][i + 1]) {
      assert !Reorderable(u, s[i + 1], s[i + 2]);
    }
  }

  /** In ordered text the first scalar of class c before any starter has no greater class before it. */
  lemma {:induction false} FirstOfClass(u: Unicode, s: Text, c: nat, x: Mapped)
    requires Ordered(u, s) && s != [] && Class(u, s[0]) > 0 && c > 0
    requires Projection(u, s, c) != [] && Projection(u, s, c)[0] == x && Class(u, x) == c
    ensures Class(u, s[0]) <= c
  {
    if Class(u, s[0]) != c {
      OrderedTail(u, s);
      assert Projection(u, s, c) == Projection(u, s[1..], c);
      assert !Reorderable(u, s[0], s[1]);
      assert s[1..][0] == s[1];
      if Class(u, s[1]) > 0 {
        FirstOfClass(u, s[1..], c, x);
      }
    }
  }

  lemma ProjectionHead(u: Unicode, s: Text, c: nat)
    requires s != [] && (Class(u, s[0]) == c || Class(u, s[0]) == 0)
    ensures Projection(u, s, c) != [] && Projection(u, s, c)[0] == s[0]
  {
  }

  lemma SameFirst(u: Unicode, s: Text, t: Text)
    requires Ordered(u, s) && Ordered(u, t) && s != [] && t != []
    requires forall c :: Projection(u, s, c) == Projection(u, t, c)
    ensures s[0] == t[0]
  {
    hide Projection, Ordered;
    var x, c := s[0], Class(u, s[0]);
    var y, d := t[0], Class(u, t[0]);
    ProjectionHead(u, s, c);
    ProjectionHead(u, t, d);
    assert Projection(u, t, c)[0] == x && Projection(u, s, d)[0] == y;
    if c == 0 {
      ProjectionHead(u, s, d);
    } else if d == 0 {
      ProjectionHead(u, t, c);
    } else {
      FirstOfClass(u, t, c, x);
      FirstOfClass(u, s, d, y);
    }
  }

  /** Ordered texts with the same projections are the same text. */
  lemma {:induction false} OrderedUnique(u: Unicode, s: Text, t: Text)
    requires Ordered(u, s) && Ordered(u, t)
    requires forall c :: Projection(u, s, c) == Projection(u, t, c)
    ensures s == t
    decreases |s|
  {
    hide Ordered;
    if t != [] {
      ProjectionHead(u, t, Class(u, t[0]));
    }
    if s != [] {
      ProjectionHead(u, s, Class(u, s[0]));
    }
    assert s == [] <==> t == [];
    hide Projection;
    if s != [] {
      SameFirst(u, s, t);
      OrderedTail(u, s);
      OrderedTail(u, t);
      forall c ensures Projection(u, s[1..], c) == Projection(u, t[1..], c) {
        TailProjection(u, s, t, c);
      }
      OrderedUnique(u, s[1..], t[1..]);
      assert s == [s[0]] + s[1..] && t == [t[0]] + t[1..];
    }
  }

  lemma TailProjection(u: Unicode, s: Text, t: Text, c: nat)
    requires s != [] && t != [] && s[0] == t[0] && Projection(u, s, c) == Projection(u, t, c)
    ensures Projection(u, s[1..], c) == Projection(u, t[1..], c)
  {
    var x, a, b := s[0], Projection(u, s[1..], c), Projection(u, t[1..], c);
    if Class(u, x) == c || Class(u, x) == 0 {
      assert Projection(u, s, c) == [x] + a && Projection(u, t, c) == [x] + b;
      assert ([x] + a)[1..] == a && ([x] + b)[1..] == b;
    } else {
      assert Projection(u, s, c) == [] + a && Projection(u, t, c) == [] + b;
      assert [] + a == a && [] + b == b;
    }
  }

  /** Ordered texts that both come from one text by exchanges are the same. */
  lemma CanonicalOrderUnique(u: Unicode, s: Text, a: Text, b: Text)
    requires Reaches(u, s, a) && Ordered(u, a) && Reaches(u, s, b) && Ordered(u, b)
    ensures a == b
  {
    hide Reaches, Projection, Ordered;
    forall c ensures Projection(u, a, c) == Projection(u, b, c) {
      ReachesKeepsProjection(u, s, a, c);
      ReachesKeepsProjection(u, s, b, c);
    }
    OrderedUnique(u, a, b);
  }

  // ---- A stable sort of marks is made of exchanges ------------------------------------------

  ghost predicate AllMarks(u: Unicode, s: Text) { forall i :: 0 <= i < |s| ==> Class(u, s[i]) > 0 }

  lemma {:induction false} InsertReaches(u: Unicode, s: Text, x: Mapped)
    requires AllMarks(u, s) && Class(u, x) > 0
    ensures Reaches(u, s + [x], Insert(s, x, ByClass(u)))
  {
    if s == [] || ByClass(u)(s[|s| - 1], x) {
      ReachesSelf(u, s + [x]);
    } else {
      var n := |s| - 1;
      var front, y := s[..n], s[n];
      var one := front + [x] + [y];
      assert s + [x] == front + [y] + [x];
      assert Exchanges(u, s + [x], one, n);
      ReachesOne(u, s + [x], one, n);
      InsertReaches(u, front, x);
      ReachesInside(u, [], front + [x], Insert(front, x, ByClass(u)), [y]);
      assert [] + (front + [x]) + [y] == one;
      assert [] + Insert(front, x, ByClass(u)) + [y] == Insert(s, x, ByClass(u));
      ReachesThen(u, s + [x], one, Insert(s, x, ByClass(u)));
    }
  }

  lemma {:induction false} InsertMarks(u: Unicode, s: Text, x: Mapped)
    requires AllMarks(u, s) && Class(u, x) > 0
    ensures AllMarks(u, Insert(s, x, ByClass(u)))
  {
    if s != [] && !ByClass(u)(s[|s| - 1], x) {
      InsertMarks(u, s[..|s| - 1], x);
    }
  }

  lemma {:induction false} InsertAllReaches(u: Unicode, s: Text, xs: Text)
    requires AllMarks(u, s) && AllMarks(u, xs)
    ensures Reaches(u, s + xs, InsertAll(s, xs, ByClass(u)))
    decreases |xs|
  {
    hide Reaches, Insert;
    if xs == [] {
      assert s + xs == s;
      ReachesSelf(u, s);
    } else {
      var x, rest := xs[0], xs[1..];
      InsertReaches(u, s, x);
      InsertMarks(u, s, x);
      var s1 := Insert(s, x, ByClass(u));
      ReachesInside(u, [], s + [x], s1, rest);
      assert [] + (s + [x]) + rest == s + xs && [] + s1 + rest == s1 + rest;
      InsertAllReaches(u, s1, rest);
      ReachesThen(u, s + xs, s1 + rest, InsertAll(s1, rest, ByClass(u)));
    }
  }

  lemma SortReaches(u: Unicode, s: Text)
    requires AllMarks(u, s)
    ensures Reaches(u, s, Sort(s, ByClass(u))) && Sorted(Sort(s, ByClass(u)), ByClass(u)) && AllMarks(u, Sort(s, ByClass(u)))
    ensures |Sort(s, ByClass(u))| == |s|
  {
    InsertAllReaches(u, [], s);
    assert [] + s == s;
    SortCorrect(s, ByClass(u));
    forall i | 0 <= i < |Sort(s, ByClass(u))| ensures Class(u, Sort(s, ByClass(u))[i]) > 0 {
      assert Sort(s, ByClass(u))[i] in s;
    }
  }

  // ---- The pass -------------------------------------------------------------------------------

  /** The text before `k` is ordered, and `k` is at its start or just after a starter. */
  ghost predicate OrderedBefore(u: Unicode, s: Text, k: nat) {
    k <= |s| && Ordered(u, s[..k]) && (k > 0 ==> Class(u, s[k - 1]) == 0)
  }

  /** Replacing a run of marks by its stable sort keeps what is reached, and orders it. */
  lemma RunSorted(u: Unicode, s: Text, i: nat, j: nat)
    requires i <= j <= |s| && OrderedBefore(u, s, i) && AllMarks(u, s[i..j])
    ensures var t := s[..i] + Sort(s[i..j], ByClass(u)) + s[j..];
      |t| == |s| && Reaches(u, s, t) && Ordered(u, t[..j]) && t[..i] == s[..i] && t[j..] == s[j..]
  {
    hide Reaches, Sort, Sorted, OrderedBefore, AllMarks, Ordered, ByClass;
    var run := Sort(s[i..j], ByClass(u));
    SortReaches(u, s[i..j]);
    Spliced(s, run, i, j);
    ReachesInside(u, s[..i], s[i..j], run, s[j..]);
    OrderedJoin(u, s, i, run);
  }

  lemma Spliced<T>(s: seq<T>, run: seq<T>, i: nat, j: nat)
    requires i <= j <= |s| && |run| == j - i
    ensures var t := s[..i] + run + s[j..];
      |t| == |s| && t[..i] == s[..i] && t[j..] == s[j..] && t[..j] == s[..i] + run
    ensures s[..i] + s[i..j] + s[j..] == s
  {
  }

  lemma OrderedJoin(u: Unicode, s: Text, i: nat, run: Text)
    requires OrderedBefore(u, s, i) && Sorted(run, ByClass(u))
    ensures Ordered(u, s[..i] + run)
  {
    var t := s[..i] + run;
    forall k | 0 <= k < |t| - 1 ensures !Reorderable(u, t[k], t[k + 1]) {
      if k + 1 < i {
        assert !Reorderable(u, s[..i][k], s[..i][k + 1]);
      } else if k >= i {
        assert ByClass(u)(run[k - i], run[k - i + 1]);
      } else {
        assert t[k] == s[i - 1];
      }
    }
  }

  /** A starter closes the ordered part. */
  lemma StarterCloses(u: Unicode, s: Text, j: nat)
    requires j < |s| && Ordered(u, s[..j]) && Class(u, s[j]) == 0
    ensures OrderedBefore(u, s, j + 1)
  {
    var t := s[..j + 1];
    forall k | 0 <= k < |t| - 1 ensures !Reorderable(u, t[k], t[k + 1]) {
      if k + 1 < j {
        assert !Reorderable(u, s[..j][k], s[..j][k + 1]);
      }
    }
  }

  /** `sort_by_key` on a slice. */
  method SortRange(u: Unicode, a: array<Mapped>, lo: nat, hi: nat)
    requires lo <= hi <= a.Length
    modifies a
    ensures a[..] == old(a[..lo]) + Sort(old(a[lo..hi]), ByClass(u)) + old(a[hi..])
  {
    ghost var before := a[..];
    var sorted := Sort(a[lo..hi], ByClass(u));
    SortLength(a[lo..hi], ByClass(u));
    for k := 0 to |sorted|
      invariant a[..lo] == before[..lo] && a[hi..] == before[hi..]
      invariant forall m :: 0 <= m < k ==> a[lo + m] == sorted[m]
    {
      a[lo + k] := sorted[k];
    }
    assert a[lo..hi] == sorted;
    assert a[..] == a[..lo] + a[lo..hi] + a[hi..];
  }

  lemma SortLength(s: Text, leq: (Mapped, Mapped) -> bool)
    ensures |Sort(s, leq)| == |s|
  {
    InsertAllLength([], s, leq);
  }

  lemma {:induction false} InsertAllLength(s: Text, xs: Text, leq: (Mapped, Mapped) -> bool)
    ensures |InsertAll(s, xs, leq)| == |s| + |xs|
    decreases |xs|
  {
    if xs != [] {
      InsertKeeps(s, xs[0], leq);
      InsertAllLength(Insert(s, xs[0], leq), xs[1..], leq);
    }
  }

  /** `canonical_order_mapped`: the result is the canonical ordering of the input, with its spans. */
  method CanonicalOrderMapped(u: Unicode, mapped: array<Mapped>)
    modifies mapped
    ensures Reaches(u, old(mapped[..]), mapped[..]) && Ordered(u, mapped[..])
  {
    hide Reaches, Ordered, OrderedBefore;
    ghost var start := mapped[..];
    var pending := 0;
    ReachesSelf(u, start);
    NothingBefore(u, start);
    for index := 0 to mapped.Length + 1
      invariant pending <= mapped.Length + 1 && (index <= mapped.Length ==> pending <= index) && mapped.Length == |start|
      invariant Reaches(u, start, mapped[..])
      invariant index <= mapped.Length ==> OrderedBefore(u, mapped[..], pending) && AllMarks(u, mapped[pending..index])
      invariant index == mapped.Length + 1 ==> Ordered(u, mapped[..])
    {
      if index == mapped.Length || Class(u, mapped[index]) == 0 {
        ghost var before := mapped[..];
        SortRange(u, mapped, pending, index);
        assert mapped[..] == before[..pending] + Sort(before[pending..index], ByClass(u)) + before[index..];
        RunSorted(u, before, pending, index);
        ReachesThen(u, start, before, mapped[..]);
        if index < mapped.Length {
          assert mapped[index..][0] == before[index..][0];
          StarterCloses(u, mapped[..], index);
        } else {
          assert mapped[..][..index] == mapped[..];
        }
        pending := index + 1;
      } else {
        assert mapped[pending..index + 1] == mapped[pending..index] + [mapped[index]];
      }
    }
  }

  lemma NothingBefore(u: Unicode, s: Text)
    ensures OrderedBefore(u, s, 0)
  {
  }

  // ---- Spans only ride along -------------------------------------------------------------------

  function Scalars(s: Text): (r: string)
    ensures |r| == |s| && forall i :: 0 <= i < |s| ==> r[i] == s[i].scalar
  {
    seq(|s|, i requires 0 <= i < |s| => s[i].scalar)
  }

  lemma ExchangeKeepsElements(u: Unicode, s: Text, t: Text, i: nat)
    requires Exchanges(u, s, t, i)
    ensures multiset(s) == multiset(t)
  {
    assert s == s[..i] + ([s[i]] + [s[i + 1]]) + s[i + 2..];
    assert t == s[..i] + ([s[i + 1]] + [s[i]]) + s[i + 2..];
  }

  /** An exchange only moves: every scalar keeps its own span. */
  lemma {:induction false} ReachesInKeepsElements(u: Unicode, s: Text, t: Text, n: nat)
    requires ReachesIn(u, s, t, n)
    ensures multiset(s) == multiset(t)
    decreases n
  {
    hide Exchanges;
    if n > 0 {
      var x :| OneExchange(u, s, x) && ReachesIn(u, x, t, n - 1);
      var i: nat :| Exchanges(u, s, x, i);
      ExchangeKeepsElements(u, s, x, i);
      ReachesInKeepsElements(u, x, t, n - 1);
    }
  }

  /** The same exchanges apply to any text with the same scalars. */
  lemma {:induction false} ReachesInRespanned(u: Unicode, s: Text, t: Text, n: nat, s': Text) returns (t': Text)
    requires ReachesIn(u, s, t, n) && Scalars(s) == Scalars(s')
    ensures ReachesIn(u, s', t', n) && Scalars(t') == Scalars(t)
    decreases n
  {
    if n == 0 {
      t' := s';
    } else {
      hide Exchanges, Scalars;
      var x :| OneExchange(u, s, x) && ReachesIn(u, x, t, n - 1);
      var i: nat :| Exchanges(u, s, x, i);
      var x' := ExchangeRespanned(u, s, x, i, s');
      assert OneExchange(u, s', x');
      t' := ReachesInRespanned(u, x, t, n - 1, x');
    }
  }

  lemma ExchangeRespanned(u: Unicode, s: Text, x: Text, i: nat, s': Text) returns (x': Text)
    requires Exchanges(u, s, x, i) && Scalars(s) == Scalars(s')
    ensures Exchanges(u, s', x', i) && Scalars(x) == Scalars(x')
  {
    assert |s| == |Scalars(s)| == |s'|;
    x' := s'[i := s'[i + 1]][i + 1 := s'[i]];
    forall k | 0 <= k < |s| ensures s[k].scalar == s'[k].scalar {
      assert Scalars(s)[k] == Scalars(s')[k];
    }
    forall k | 0 <= k < |s| ensures Scalars(x)[k] == Scalars(x')[k] {
    }
  }

  lemma OrderedRespanned(u: Unicode, t: Text, t': Text)
    requires Ordered(u, t) && Scalars(t) == Scalars(t')
    ensures Ordered(u, t')
  {
    assert |t| == |Scalars(t)| == |t'|;
    forall i | 0 <= i < |t'| - 1 ensures !Reorderable(u, t'[i], t'[i + 1]) {
      assert !Reorderable(u, t[i], t[i + 1]);
      assert Scalars(t)[i] == Scalars(t')[i] && Scalars(t)[i + 1] == Scalars(t')[i + 1];
    }
  }

  /** Erasing spans commutes with ordering, and ordering loses or invents no scalar or span. */
  lemma ErasingCommutesWithOrdering(u: Unicode, s: Text, t: Text, s': Text, t': Text)
    requires Reaches(u, s, t) && Ordered(u, t) && Reaches(u, s', t') && Ordered(u, t') && Scalars(s) == Scalars(s')
    ensures Scalars(t) == Scalars(t') && multiset(t) == multiset(s)
  {
    hide ReachesIn, Ordered;
    var n: nat :| ReachesIn(u, s, t, n);
    ReachesInKeepsElements(u, s, t, n);
    var t2 := ReachesInRespanned(u, s, t, n, s');
    assert Reaches(u, s', t2);
    OrderedRespanned(u, t, t2);
    CanonicalOrderUnique(u, s', t2, t');
  }
}
