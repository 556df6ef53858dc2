/**
 * Rust `str` coordinates: a text is a sequence of Unicode scalars, and a byte
 * offset is the total UTF-8 width of the scalars before it.
 */
module Utf8Text {
  import opened Wrappers
  import opened Spans

  function Width(c: char): (w: nat)
    ensures 1 <= w <= 4
  {
    if c as int < 0x80 then 1
    else if c as int < 0x800 then 2
    else if c as int < 0x10000 then 3
    else 4
  }

  function ByteLen(s: string): nat {
    if s == [] then 0 else ByteLen(s[..|s| - 1]) + Width(s[|s| - 1])
  }

  /** Byte offset of scalar index `i`. */
  function Offset(s: string, i: nat): nat
    requires i <= |s|
  {
    ByteLen(s[..i])
  }

  /** The scalar index that starts at byte `b`, if `b` is a character boundary. */
  function ScalarAt(s: string, b: nat): (r: Option<nat>)
    ensures r.Some? ==> r.value <= |s| && Offset(s, r.value) == b
  {
    if b == ByteLen(s) then
      assert s[..|s|] == s;
      Some(|s|)
    else if s == [] then None
    else
      var front := s[..|s| - 1];
      assert forall i :: 0 <= i <= |front| ==> front[..i] == s[..i];
      ScalarAt(front, b)
  }

  predicate IsBoundary(s: string, b: nat) { ScalarAt(s, b).Some? }

  /** `b` as a scalar index. */
  function Scalar(s: string, b: nat): (i: nat)
    requires IsBoundary(s, b)
    ensures i <= |s| && Offset(s, i) == b
  {
    ScalarAt(s, b).value
  }

  /** A byte span whose ends are boundaries, in scalar indices. */
  function Scalars(s: string, span: ByteSpan): ByteSpan
    requires IsBoundary(s, span.start) && IsBoundary(s, span.end)
  {
    ByteSpan(Scalar(s, span.start), Scalar(s, span.end))
  }

  lemma EndBoundary(s: string)
    ensures IsBoundary(s, ByteLen(s)) && Scalar(s, ByteLen(s)) == |s|
  {
  }

  lemma OffsetStep(s: string, i: nat)
    requires i < |s|
    ensures Offset(s, i + 1) == Offset(s, i) + Width(s[i])
  {
    assert s[..i + 1][..i] == s[..i];
  }

  lemma {:induction false} OffsetMonotone(s: string, i: nat, j: nat)
    requires i < j <= |s|
    ensures Offset(s, i) < Offset(s, j)
    ensures Offset(s, j) <= ByteLen(s)
    decreases j
  {
    OffsetStep(s, j - 1);
    if i < j - 1 {
      OffsetMonotone(s, i, j - 1);
    }
    OffsetBound(s, j);
  }

  lemma {:induction false} OffsetBound(s: string, j: nat)
    requires j <= |s|
    ensures Offset(s, j) <= ByteLen(s)
    decreases |s| - j
  {
    if j == |s| {
      assert s[..j] == s;
    } else {
      OffsetStep(s, j);
      OffsetBound(s, j + 1);
    }
  }

  /** Every scalar index is found again from its byte offset. */
  lemma {:induction false} ScalarOfOffset(s: string, i: nat)
    requires i <= |s|
    ensures IsBoundary(s, Offset(s, i)) && Scalar(s, Offset(s, i)) == i
  {
    if i == |s| {
      assert s[..i] == s;
    } else {
      OffsetMonotone(s, i, |s|);
      assert s[..|s|] == s;
      assert s[..|s| - 1][..i] == s[..i];
      ScalarOfOffset(s[..|s| - 1], i);
    }
  }

  lemma {:induction false} ByteLenConcat(a: string, b: string)
    ensures ByteLen(a + b) == ByteLen(a) + ByteLen(b)
  {
    if b == [] {
      assert a + b == a;
    } else {
      assert (a + b)[..|a + b| - 1] == a + b[..|b| - 1];
      ByteLenConcat(a, b[..|b| - 1]);
    }
  }

  /** Boundaries are ordered as their scalar indices are. */
  lemma ScalarOrder(s: string, a: nat, b: nat)
    requires IsBoundary(s, a) && IsBoundary(s, b)
    ensures a < b <==> Scalar(s, a) < Scalar(s, b)
    ensures a == b <==> Scalar(s, a) == Scalar(s, b)
  {
    var i, j := Scalar(s, a), Scalar(s, b);
    if i < j {
      OffsetMonotone(s, i, j);
    } else if j < i {
      OffsetMonotone(s, j, i);
    }
  }
}
