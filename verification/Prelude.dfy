/** Result types shared by the modules that model fallible operations. */
module Wrappers {
  datatype Option<+T> = None | Some(value: T)

  datatype Result<+T, +E> = Ok(value: T) | Err(error: E)
}

/**
 * Stable sorting and ordered enumeration: `Sort` stands for the standard
 * library's `sort_by_key`, `SortedKeys` for the iteration order of a BTreeMap.
 */
module Sorting {
  ghost predicate TotalPreorder<T(!new)>(leq: (T, T) -> bool) {
    && (forall a, b :: leq(a, b) || leq(b, a))
    && (forall a, b, c :: leq(a, b) && leq(b, c) ==> leq(a, c))
  }

  ghost predicate Sorted<T>(s: seq<T>, leq: (T, T) -> bool) {
    forall i, j :: 0 <= i < j < |s| ==> leq(s[i], s[j])
  }

  /** Elements of `s` that compare equal both ways are the same element. */
  ghost predicate NoTies<T>(s: seq<T>, leq: (T, T) -> bool) {
    forall x, y :: x in s && y in s && leq(x, y) && leq(y, x) ==> x == y
  }

  /** Put `x` after every element that is not greater than it. */
  function Insert<T>(s: seq<T>, x: T, leq: (T, T) -> bool): seq<T> {
    if s == [] || leq(s[|s| - 1], x) then s + [x]
    else Insert(s[..|s| - 1], x, leq) + [s[|s| - 1]]
  }

  /** Insert the elements of `xs`, first one first. */
  function InsertAll<T>(s: seq<T>, xs: seq<T>, leq: (T, T) -> bool): seq<T>
    decreases |xs|
  {
    if xs == [] then s else InsertAll(Insert(s, xs[0], leq), xs[1..], leq)
  }

  function Sort<T>(s: seq<T>, leq: (T, T) -> bool): seq<T> {
    InsertAll([], s, leq)
  }

  lemma {:induction false} InsertKeeps<T>(s: seq<T>, x: T, leq: (T, T) -> bool)
    ensures multiset(Insert(s, x, leq)) == multiset(s) + multiset{x}
    ensures |Insert(s, x, leq)| == |s| + 1
  {
    if s == [] || leq(s[|s| - 1], x) {
    } else {
      var front, last := s[..|s| - 1], s[|s| - 1];
      InsertKeeps(front, x, leq);
      assert s == front + [last];
    }
  }

  lemma {:induction false} InsertSorted<T(!new)>(s: seq<T>, x: T, leq: (T, T) -> bool)
    requires TotalPreorder(leq) && Sorted(s, leq)
    ensures Sorted(Insert(s, x, leq), leq)
  {
    if s == [] || leq(s[|s| - 1], x) {
      forall i | 0 <= i < |s| ensures leq(s[i], x) {
        assert leq(s[i], s[|s| - 1]);
      }
    } else {
      var front, last := s[..|s| - 1], s[|s| - 1];
      InsertSorted(front, x, leq);
      InsertKeeps(front, x, leq);
      var r := Insert(front, x, leq);
      forall i | 0 <= i < |r| ensures leq(r[i], last) {
        assert r[i] in multiset(front) + multiset{x};
        if r[i] in front {
        } else {
          assert r[i] == x;
        }
      }
    }
  }

  lemma {:induction false} InsertAllCorrect<T(!new)>(s: seq<T>, xs: seq<T>, leq: (T, T) -> bool)
    requires TotalPreorder(leq) && Sorted(s, leq)
    ensures Sorted(InsertAll(s, xs, leq), leq)
    ensures multiset(InsertAll(s, xs, leq)) == multiset(s) + multiset(xs)
    decreases |xs|
  {
    if xs == [] {
    } else {
      InsertSorted(s, xs[0], leq);
      InsertKeeps(s, xs[0], leq);
      InsertAllCorrect(Insert(s, xs[0], leq), xs[1..], leq);
      assert xs == [xs[0]] + xs[1..];
    }
  }

  lemma SortCorrect<T(!new)>(s: seq<T>, leq: (T, T) -> bool)
    requires TotalPreorder(leq)
    ensures Sorted(Sort(s, leq), leq)
    ensures multiset(Sort(s, leq)) == multiset(s) && |Sort(s, leq)| == |s|
    ensures forall x :: x in Sort(s, leq) <==> x in s
  {
    InsertAllCorrect([], s, leq);
    var r := Sort(s, leq);
    assert |multiset(r)| == |r| && |multiset(s)| == |s|;
    forall x ensures x in r <==> x in s {
      assert x in r <==> x in multiset(r);
      assert x in s <==> x in multiset(s);
    }
  }

  lemma {:induction false} InsertAllConcat<T>(s: seq<T>, xs: seq<T>, ys: seq<T>, leq: (T, T) -> bool)
    ensures InsertAll(s, xs + ys, leq) == InsertAll(InsertAll(s, xs, leq), ys, leq)
    decreases |xs|
  {
    if xs == [] {
      assert xs + ys == ys;
    } else {
      assert (xs + ys)[1..] == xs[1..] + ys;
      InsertAllConcat(Insert(s, xs[0], leq), xs[1..], ys, leq);
    }
  }

  lemma {:induction false} InsertAllSorted<T(!new)>(s: seq<T>, xs: seq<T>, leq: (T, T) -> bool)
    requires Sorted(s + xs, leq)
    ensures InsertAll(s, xs, leq) == s + xs
    decreases |xs|
  {
    if xs == [] {
      assert s + xs == s;
    } else {
      if s != [] {
        assert (s + xs)[|s| - 1] == s[|s| - 1] && (s + xs)[|s|] == xs[0];
      }
      assert Insert(s, xs[0], leq) == s + [xs[0]];
      assert (s + [xs[0]]) + xs[1..] == s + xs;
      InsertAllSorted(s + [xs[0]], xs[1..], leq);
    }
  }

  /** Sorting a sorted sequence changes nothing. */
  lemma SortSorted<T(!new)>(s: seq<T>, leq: (T, T) -> bool)
    requires Sorted(s, leq)
    ensures Sort(s, leq) == s
  {
    assert [] + s == s;
    InsertAllSorted([], s, leq);
  }

  /** Sorting a prefix early does not change the sorted whole. */
  lemma SortPrefixFirst<T(!new)>(xs: seq<T>, ys: seq<T>, leq: (T, T) -> bool)
    requires TotalPreorder(leq)
    ensures Sort(Sort(xs, leq) + ys, leq) == Sort(xs + ys, leq)
  {
    InsertAllConcat([], Sort(xs, leq), ys, leq);
    InsertAllConcat([], xs, ys, leq);
    SortCorrect(xs, leq);
    SortSorted(Sort(xs, leq), leq);
  }

  /** The last elements of two sorted arrangements of one multiset are equivalent. */
  lemma LastAgrees<T>(a: seq<T>, b: seq<T>, leq: (T, T) -> bool)
    requires Sorted(b, leq) && a != []
    requires multiset(a) == multiset(b)
    ensures b != [] && (a[|a| - 1] == b[|b| - 1] || leq(a[|a| - 1], b[|b| - 1]))
  {
    var x := a[|a| - 1];
    assert x in multiset(b);
    var k :| 0 <= k < |b| && b[k] == x;
    assert k < |b| - 1 ==> leq(b[k], b[|b| - 1]);
  }

  lemma FrontSorted<T>(a: seq<T>, leq: (T, T) -> bool)
    requires a != [] && Sorted(a, leq) && NoTies(a, leq)
    ensures Sorted(a[..|a| - 1], leq) && NoTies(a[..|a| - 1], leq)
  {
    assert forall z :: z in a[..|a| - 1] ==> z in a;
  }

  lemma TiesAreEqual<T>(a: seq<T>, x: T, y: T, leq: (T, T) -> bool)
    requires NoTies(a, leq) && x in multiset(a) && y in multiset(a) && leq(x, y) && leq(y, x)
    ensures x == y
  {
  }

  /** A multiset without ties has one sorted arrangement. */
  lemma {:induction false} SortedUnique<T>(a: seq<T>, b: seq<T>, leq: (T, T) -> bool)
    requires Sorted(a, leq) && Sorted(b, leq) && multiset(a) == multiset(b)
    requires NoTies(a, leq)
    ensures a == b
  {
    if a == [] {
      assert multiset(b) == multiset{};
      assert |multiset(b)| == |b|;
    } else {
      LastAgrees(a, b, leq);
      LastAgrees(b, a, leq);
      SortedUniqueStep(a, b, leq);
      SortedUnique(a[..|a| - 1], b[..|b| - 1], leq);
      assert a == a[..|a| - 1] + [a[|a| - 1]] && b == b[..|b| - 1] + [b[|b| - 1]];
    }
  }

  lemma SortedUniqueStep<T>(a: seq<T>, b: seq<T>, leq: (T, T) -> bool)
    requires Sorted(a, leq) && Sorted(b, leq) && multiset(a) == multiset(b)
    requires NoTies(a, leq) && a != [] && b != []
    requires a[|a| - 1] == b[|b| - 1] || (leq(a[|a| - 1], b[|b| - 1]) && leq(b[|b| - 1], a[|a| - 1]))
    ensures a[|a| - 1] == b[|b| - 1]
    ensures Sorted(a[..|a| - 1], leq) && NoTies(a[..|a| - 1], leq) && Sorted(b[..|b| - 1], leq)
    ensures multiset(a[..|a| - 1]) == multiset(b[..|b| - 1])
  {
    var x, y := a[|a| - 1], b[|b| - 1];
    if x != y {
      assert x in multiset(a) && y in multiset(b);
      TiesAreEqual(a, x, y, leq);
    }
    FrontSorted(a, leq);
    FrontMultiset(a);
    FrontMultiset(b);
  }

  lemma FrontMultiset<T>(a: seq<T>)
    requires a != []
    ensures multiset(a[..|a| - 1]) == multiset(a) - multiset{a[|a| - 1]}
  {
    assert a == a[..|a| - 1] + [a[|a| - 1]];
  }

  lemma SortPermutation<T(!new)>(a: seq<T>, b: seq<T>, leq: (T, T) -> bool)
    requires TotalPreorder(leq) && multiset(a) == multiset(b)
    requires NoTies(a, leq)
    ensures Sort(a, leq) == Sort(b, leq)
  {
    SortCorrect(a, leq);
    SortCorrect(b, leq);
    SortedUnique(Sort(a, leq), Sort(b, leq), leq);
  }

  // ---- Sorting by a key and reading only that key -----------------------------

  function MapSeq<A, B>(f: A -> B, s: seq<A>): (r: seq<B>)
    ensures |r| == |s| && forall i :: 0 <= i < |s| ==> r[i] == f(s[i])
  {
    seq(|s|, i requires 0 <= i < |s| => f(s[i]))
  }

  ghost predicate NoRepeats<T>(s: seq<T>) {
    forall i, j :: 0 <= i < j < |s| ==> s[i] != s[j]
  }

  lemma {:induction false} CountOnce<T>(s: seq<T>, x: T)
    requires NoRepeats(s)
    ensures multiset(s)[x] == if x in s then 1 else 0
  {
    if s != [] {
      var front := s[..|s| - 1];
      CountOnce(front, x);
      assert s == front + [s[|s| - 1]];
    }
  }

  lemma SameElementsSameMultiset<T>(a: seq<T>, b: seq<T>)
    requires NoRepeats(a) && NoRepeats(b) && forall x :: x in a <==> x in b
    ensures multiset(a) == multiset(b)
  {
    forall x ensures multiset(a)[x] == multiset(b)[x] {
      CountOnce(a, x);
      CountOnce(b, x);
    }
  }

  lemma MapAppend<A, B>(f: A -> B, s: seq<A>, t: seq<A>)
    ensures MapSeq(f, s + t) == MapSeq(f, s) + MapSeq(f, t)
  {
  }

  lemma {:induction false} MapMultiset<A, B>(f: A -> B, a: seq<A>, b: seq<A>)
    requires multiset(a) == multiset(b)
    ensures multiset(MapSeq(f, a)) == multiset(MapSeq(f, b))
    decreases |a|
  {
    assert |multiset(a)| == |a| && |multiset(b)| == |b|;
    if a != [] {
      var front, x := a[..|a| - 1], a[|a| - 1];
      assert x in multiset(b);
      var k :| 0 <= k < |b| && b[k] == x;
      FrontMultiset(a);
      TakeOut(b, k);
      MapMultiset(f, front, b[..k] + b[k + 1..]);
      MapTakeOut(f, b, k);
      TakeOut(MapSeq(f, b), k);
      assert a == front + [x];
      MapAppend(f, front, [x]);
      FrontMultiset(MapSeq(f, a));
      assert MapSeq(f, a)[..|a| - 1] == MapSeq(f, front);
      PutBack(multiset(MapSeq(f, a)), multiset(MapSeq(f, b)), f(x));
    }
  }

  lemma PutBack<T>(a: multiset<T>, b: multiset<T>, x: T)
    requires x in a && x in b && a - multiset{x} == b - multiset{x}
    ensures a == b
  {
    assert a == (a - multiset{x}) + multiset{x} && b == (b - multiset{x}) + multiset{x};
  }

  lemma TakeOut<T>(b: seq<T>, k: nat)
    requires k < |b|
    ensures b[k] in multiset(b) && multiset(b[..k] + b[k + 1..]) == multiset(b) - multiset{b[k]}
  {
    assert b == b[..k] + ([b[k]] + b[k + 1..]);
  }

  lemma MapTakeOut<A, B>(f: A -> B, b: seq<A>, k: nat)
    requires k < |b|
    ensures MapSeq(f, b[..k] + b[k + 1..]) == MapSeq(f, b)[..k] + MapSeq(f, b)[k + 1..]
  {
  }

  lemma SortedImage<A(!new), B>(s: seq<A>, leq: (A, A) -> bool, f: A -> B, leqB: (B, B) -> bool)
    requires TotalPreorder(leq)
    requires forall a, b :: leq(a, b) ==> leqB(f(a), f(b))
    ensures Sorted(MapSeq(f, Sort(s, leq)), leqB)
    ensures multiset(MapSeq(f, Sort(s, leq))) == multiset(MapSeq(f, s))
  {
    SortCorrect(s, leq);
    MapMultiset(f, Sort(s, leq), s);
  }

  /** Lists whose keys are the same set, without repeats, have the same sorted list of keys. */
  lemma SortedImages<A(!new), B>(s: seq<A>, t: seq<A>, leq: (A, A) -> bool, f: A -> B, leqB: (B, B) -> bool)
    requires TotalPreorder(leq)
    requires forall a, b :: leq(a, b) ==> leqB(f(a), f(b))
    requires NoRepeats(MapSeq(f, s)) && NoRepeats(MapSeq(f, t)) && NoTies(MapSeq(f, s), leqB)
    requires forall x :: x in MapSeq(f, s) <==> x in MapSeq(f, t)
    ensures MapSeq(f, Sort(s, leq)) == MapSeq(f, Sort(t, leq))
  {
    SortedImage(s, leq, f, leqB);
    SortedImage(t, leq, f, leqB);
    hide TotalPreorder, NoTies, NoRepeats, Sorted, MapSeq, Sort;
    SameElementsSameMultiset(MapSeq(f, s), MapSeq(f, t));
    SameTies(MapSeq(f, s), MapSeq(f, Sort(s, leq)), leqB);
    SortedUnique(MapSeq(f, Sort(s, leq)), MapSeq(f, Sort(t, leq)), leqB);
  }

  lemma SameTies<T>(a: seq<T>, b: seq<T>, leq: (T, T) -> bool)
    requires NoTies(a, leq) && multiset(a) == multiset(b)
    ensures NoTies(b, leq)
  {
    assert forall x :: x in b ==> x in multiset(a);
  }

  predicate IsLeast(keys: set<nat>, k: nat) {
    k in keys && forall x :: x in keys ==> k <= x
  }

  /** The elements of a finite set of naturals in ascending order. */
  function SortedKeys(keys: set<nat>): (r: seq<nat>)
    ensures forall k :: k in r <==> k in keys
    ensures forall i, j :: 0 <= i < j < |r| ==> r[i] < r[j]
  {
    if keys == {} then []
    else
      LeastExists(keys);
      var k: nat :| IsLeast(keys, k);
      var rest := SortedKeys(keys - {k});
      [k] + rest
  }

  lemma {:induction false} LeastExists(keys: set<nat>)
    requires keys != {}
    ensures exists k: nat :: IsLeast(keys, k)
  {
    var k :| k in keys;
    if keys == {k} {
      assert IsLeast(keys, k);
    } else {
      LeastExists(keys - {k});
      var m: nat :| IsLeast(keys - {k}, m);
      var least := if k < m then k else m;
      forall x | x in keys ensures least <= x {
        assert x != k ==> x in keys - {k};
      }
      assert IsLeast(keys, least);
    }
  }

  /** Strictly ascending enumerations of the same set are the same sequence. */
  lemma {:induction false} AscendingUnique(a: seq<nat>, b: seq<nat>)
    requires forall i, j :: 0 <= i < j < |a| ==> a[i] < a[j]
    requires forall i, j :: 0 <= i < j < |b| ==> b[i] < b[j]
    requires forall k :: k in a <==> k in b
    ensures a == b
  {
    assert (a != [] ==> a[0] in b) && (b != [] ==> b[0] in a);
    if a == [] {
    } else {
      assert a[0] == b[0];
      forall k ensures k in a[1..] <==> k in b[1..] {
        if k in a[1..] {
          assert k in b && k != b[0];
        }
        if k in b[1..] {
          assert k in a && k != a[0];
        }
      }
      AscendingUnique(a[1..], b[1..]);
    }
  }
}
