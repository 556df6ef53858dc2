/**
 * policy/merge.rs: merging emitted effects. Every effect is accepted or
 * rejected once; the decision is looked up by effect id, so it is the greatest
 * one exactly when the first effect with the winner's id decides as the winner.
 */
module EffectMerge {
  import opened Wrappers

  /** Decisions in their order; `precedence` and `priority` break ties, lower first. */
  datatype Emitted = Emitted(id: string, decision: Option<nat>, precedence: nat, priority: int, reasonCodes: seq<string>)

  datatype RejectReason = DuplicateId | Superseded

  datatype Rejected = Rejected(effect: Emitted, reason: RejectReason, supersededBy: Option<string>)

  /** The reason codes are a set; the source lists it in order. */
  datatype Merged = Merged(decision: nat, accepted: seq<Emitted>, rejected: seq<Rejected>, reasonCodes: set<string>)

  /** The comparison of two decision effects. */
  predicate AtLeast(a: Emitted, b: Emitted)
    requires a.decision.Some? && b.decision.Some?
  {
    || a.decision.value > b.decision.value
    || (a.decision.value == b.decision.value
        && (a.precedence < b.precedence || (a.precedence == b.precedence && a.priority <= b.priority)))
  }

  predicate IsWinner(effects: seq<Emitted>, w: Option<Emitted>) {
    && (w.None? <==> forall i :: 0 <= i < |effects| ==> effects[i].decision.None?)
    && (w.Some? ==> w.value in effects && w.value.decision.Some?)
    && (w.Some? ==> forall i :: 0 <= i < |effects| && effects[i].decision.Some? ==> AtLeast(w.value, effects[i]))
    && (w.Some? ==> LastAmongEquals(effects, w.value))
  }

  /** Every decision effect after the winner comes strictly after it in the order. */
  predicate LastAmongEquals(effects: seq<Emitted>, w: Emitted)
    requires w.decision.Some?
  {
    exists k :: 0 <= k < |effects| && effects[k] == w
      && forall j :: k < j < |effects| && effects[j].decision.Some? ==> !AtLeast(effects[j], w)
  }

  ghost predicate Decides(effects: seq<Emitted>, i: nat) { i < |effects| && effects[i].decision.Some? }

  /** `x` beats `y`: by a greater decision, then by a smaller precedence, then by a smaller priority. */
  ghost predicate Beats(x: Emitted, y: Emitted)
    requires x.decision.Some? && y.decision.Some?
  {
    || y.decision.value < x.decision.value
    || (y.decision == x.decision && x.precedence < y.precedence)
    || (y.decision == x.decision && x.precedence == y.precedence && x.priority < y.priority)
  }

  /** No decision effect beats the one at `k`, which beats all after it. */
  ghost predicate WinsAt(effects: seq<Emitted>, k: nat) {
    && Decides(effects, k)
    && (forall i: nat :: Decides(effects, i) ==> !Beats(effects[i], effects[k]))
    && (forall i: nat :: k < i && Decides(effects, i) ==> Beats(effects[k], effects[i]))
  }

  /** The winner is the last of the decision effects that none beats. */
  lemma WinnerMeans(effects: seq<Emitted>, w: Option<Emitted>)
    requires IsWinner(effects, w)
    ensures w == None ==> forall i: nat :: !Decides(effects, i)
    ensures w != None ==> exists k: nat :: WinsAt(effects, k) && effects[k] == w.value
  {
    if w != None {
      var k :| 0 <= k < |effects| && effects[k] == w.value
        && forall j :: k < j < |effects| && effects[j].decision.Some? ==> !AtLeast(effects[j], w.value);
      assert WinsAt(effects, k);
    }
  }

  /** The winner once one more effect is seen. */
  function Leader(w: Option<Emitted>, e: Emitted): Option<Emitted>
    requires w.Some? ==> w.value.decision.Some?
  {
    if e.decision.Some? && (w.None? || AtLeast(e, w.value)) then Some(e) else w
  }

  lemma LeaderWins(effects: seq<Emitted>, w: Option<Emitted>, e: Emitted)
    requires IsWinner(effects, w)
    ensures IsWinner(effects + [e], Leader(w, e))
  {
    var all, next := effects + [e], Leader(w, e);
    assert all[|effects|] == e && forall i :: 0 <= i < |effects| ==> all[i] == effects[i];
    hide AtLeast;
    if next.Some? {
      LeaderAtLeast(effects, w, e);
      LeaderIsLast(effects, w, e);
    }
  }

  lemma LeaderAtLeast(effects: seq<Emitted>, w: Option<Emitted>, e: Emitted)
    requires IsWinner(effects, w) && Leader(w, e).Some?
    ensures forall i :: 0 <= i < |effects| && effects[i].decision.Some? ==> AtLeast(Leader(w, e).value, effects[i])
    ensures e.decision.Some? ==> AtLeast(Leader(w, e).value, e)
  {
    hide LastAmongEquals;
  }

  lemma LeaderIsLast(effects: seq<Emitted>, w: Option<Emitted>, e: Emitted)
    requires IsWinner(effects, w) && Leader(w, e).Some?
    ensures LastAmongEquals(effects + [e], Leader(w, e).value)
  {
    hide AtLeast;
    var all, next := effects + [e], Leader(w, e).value;
    if w.Some? && next == w.value && !(e.decision.Some? && AtLeast(e, w.value)) {
      var k :| 0 <= k < |effects| && effects[k] == next
        && forall j :: k < j < |effects| && effects[j].decision.Some? ==> !AtLeast(effects[j], next);
      assert all[k] == next && forall j :: k < j < |effects| ==> all[j] == effects[j];
    } else {
      assert all[|effects|] == next;
    }
  }

  /** `max_by` over the decision effects; among equals the last. */
  method Winner(effects: seq<Emitted>) returns (w: Option<Emitted>)
    ensures IsWinner(effects, w)
  {
    w := None;
    for n := 0 to |effects|
      invariant IsWinner(effects[..n], w)
    {
      assert effects[..n + 1] == effects[..n] + [effects[n]];
      LeaderWins(effects[..n], w, effects[n]);
      hide IsWinner;
      if effects[n].decision.Some? && (w.None? || AtLeast(effects[n], w.value)) {
        w := Some(effects[n]);
      }
    }
    assert effects[..|effects|] == effects;
  }

  /** The first effect with an id. */
  function FirstWith(effects: seq<Emitted>, id: string): (r: Option<Emitted>)
    ensures r.Some? ==> r.value in effects && r.value.id == id
    ensures r.None? <==> forall i :: 0 <= i < |effects| ==> effects[i].id != id
  {
    if effects == [] then None else if effects[0].id == id then Some(effects[0]) else FirstWith(effects[1..], id)
  }

  // ---- Which effects are accepted -----------------------------------------------------------

  ghost predicate FirstOf(effects: seq<Emitted>, i: nat)
    requires i < |effects|
  {
    forall j :: 0 <= j < i ==> effects[j].id != effects[i].id
  }

  function WinnerId(w: Option<Emitted>): Option<string> { if w.Some? then Some(w.value.id) else None }

  /** The first effect with its id, and if it decides then under the winner's id. */
  ghost predicate Accepts(effects: seq<Emitted>, w: Option<Emitted>, i: nat)
    requires i < |effects|
  {
    FirstOf(effects, i) && (effects[i].decision.Some? ==> WinnerId(w) == Some(effects[i].id))
  }

  ghost function Accepted(effects: seq<Emitted>, w: Option<Emitted>, n: nat): seq<Emitted>
    requires n <= |effects|
  {
    if n == 0 then [] else Accepted(effects, w, n - 1) + (if Accepts(effects, w, n - 1) then [effects[n - 1]] else [])
  }

  ghost function RejectedAs(effects: seq<Emitted>, w: Option<Emitted>, i: nat): Rejected
    requires i < |effects|
  {
    if FirstOf(effects, i) then Rejected(effects[i], Superseded, WinnerId(w))
    else Rejected(effects[i], DuplicateId, Some(effects[i].id))
  }

  ghost function RejectedOf(effects: seq<Emitted>, w: Option<Emitted>, n: nat): seq<Rejected>
    requires n <= |effects|
  {
    if n == 0 then []
    else RejectedOf(effects, w, n - 1) + (if Accepts(effects, w, n - 1) then [] else [RejectedAs(effects, w, n - 1)])
  }

  function EffectsOf(rejected: seq<Rejected>): seq<Emitted> {
    if rejected == [] then [] else EffectsOf(rejected[..|rejected| - 1]) + [rejected[|rejected| - 1].effect]
  }

  lemma EffectsAppend(r: seq<Rejected>, x: Rejected)
    ensures EffectsOf(r + [x]) == EffectsOf(r) + [x.effect]
  {
    assert (r + [x])[..|r|] == r;
  }

  lemma RejectedEffect(effects: seq<Emitted>, w: Option<Emitted>, i: nat)
    requires i < |effects|
    ensures RejectedAs(effects, w, i).effect == effects[i]
  {
  }

  /** Every effect is accepted or rejected, once. */
  lemma {:induction false} AcceptedOrRejected(effects: seq<Emitted>, w: Option<Emitted>, n: nat)
    requires n <= |effects|
    ensures multiset(Accepted(effects, w, n)) + multiset(EffectsOf(RejectedOf(effects, w, n))) == multiset(effects[..n])
  {
    hide Accepts, EffectsOf, RejectedAs, Accepted, RejectedOf;
    if n == 0 {
      NothingYet(effects, w);
    } else {
      var e, accepted, rejected := effects[n - 1], Accepted(effects, w, n - 1), RejectedOf(effects, w, n - 1);
      AcceptedOrRejected(effects, w, n - 1);
      RejectedEffect(effects, w, n - 1);
      EffectsAppend(rejected, RejectedAs(effects, w, n - 1));
      OneMore(accepted, EffectsOf(rejected), effects, n - 1);
      OneStep(effects, w, n);
    }
  }

  lemma NothingYet(effects: seq<Emitted>, w: Option<Emitted>)
    ensures multiset(Accepted(effects, w, 0)) + multiset(EffectsOf(RejectedOf(effects, w, 0))) == multiset(effects[..0])
  {
  }

  lemma OneStep(effects: seq<Emitted>, w: Option<Emitted>, n: nat)
    requires 0 < n <= |effects|
    ensures Accepts(effects, w, n - 1) ==>
      Accepted(effects, w, n) == Accepted(effects, w, n - 1) + [effects[n - 1]] && RejectedOf(effects, w, n) == RejectedOf(effects, w, n - 1)
    ensures !Accepts(effects, w, n - 1) ==>
      Accepted(effects, w, n) == Accepted(effects, w, n - 1)
      && RejectedOf(effects, w, n) == RejectedOf(effects, w, n - 1) + [RejectedAs(effects, w, n - 1)]
  {
    hide Accepts;
  }

  lemma OneMore(a: seq<Emitted>, b: seq<Emitted>, effects: seq<Emitted>, n: nat)
    requires n < |effects| && multiset(a) + multiset(b) == multiset(effects[..n])
    ensures multiset(a + [effects[n]]) + multiset(b) == multiset(effects[..n + 1])
    ensures multiset(a) + multiset(b + [effects[n]]) == multiset(effects[..n + 1])
  {
    assert effects[..n + 1] == effects[..n] + [effects[n]];
  }

  /** An accepted effect is the first with its id, and decides only if it has the winner's id. */
  lemma {:induction false} AcceptedFrom(effects: seq<Emitted>, w: Option<Emitted>, n: nat, k: nat) returns (i: nat)
    requires n <= |effects| && k < |Accepted(effects, w, n)|
    ensures i < n && effects[i] == Accepted(effects, w, n)[k] && Accepts(effects, w, i)
  {
    hide Accepts;
    if k < |Accepted(effects, w, n - 1)| {
      i := AcceptedFrom(effects, w, n - 1, k);
    } else {
      i := n - 1;
    }
  }

  /** Accepted ids are distinct. */
  lemma {:induction false} AcceptedDistinct(effects: seq<Emitted>, w: Option<Emitted>, n: nat, j: nat, k: nat)
    requires n <= |effects| && j < k < |Accepted(effects, w, n)|
    ensures Accepted(effects, w, n)[j].id != Accepted(effects, w, n)[k].id
  {
    if k < |Accepted(effects, w, n - 1)| {
      AcceptedDistinct(effects, w, n - 1, j, k);
    } else {
      var i := AcceptedFrom(effects, w, n - 1, j);
      assert FirstOf(effects, n - 1);
    }
  }

  /** `merge_effects`; `allow` is the decision when nothing decides. */
  method MergeEffects(effects: seq<Emitted>, allow: nat) returns (m: Merged, ghost w: Option<Emitted>)
    ensures IsWinner(effects, w) && m.decision == DecisionFor(effects, w, allow)
    ensures m.accepted == Accepted(effects, w, |effects|) && m.rejected == RejectedOf(effects, w, |effects|)
    ensures forall c :: c in m.reasonCodes <==> exists e :: e in m.accepted && c in e.reasonCodes
  {
    hide IsWinner, DecisionFor;
    var winner := Winner(effects);
    w := winner;
    var decision := DecisionFor(effects, winner, allow);
    var accepted, rejected, seen: set<string>, reasons: set<string> := [], [], {}, {};
    for n := 0 to |effects|
      invariant accepted == Accepted(effects, w, n) && rejected == RejectedOf(effects, w, n)
      invariant forall id :: id in seen <==> exists j :: 0 <= j < n && effects[j].id == id
      invariant forall c :: c in reasons <==> exists e :: e in accepted && c in e.reasonCodes
    {
      var e := effects[n];
      if e.id in seen {
        assert !FirstOf(effects, n);
        rejected := rejected + [Rejected(e, DuplicateId, Some(e.id))];
      } else {
        assert FirstOf(effects, n);
        seen := seen + {e.id};
        if e.decision.Some? && WinnerId(winner) != Some(e.id) {
          rejected := rejected + [Rejected(e, Superseded, WinnerId(winner))];
        } else {
          reasons := reasons + (set c | c in e.reasonCodes);
          accepted := accepted + [e];
        }
      }
    }
    m := Merged(decision, accepted, rejected, reasons);
  }

  /** The decision of the first effect that has the winner's id. */
  function DecisionFor(effects: seq<Emitted>, w: Option<Emitted>, allow: nat): nat {
    if w.None? then allow
    else
      var first := FirstWith(effects, w.value.id);
      if first.Some? && first.value.decision.Some? then first.value.decision.value else allow
  }

  ghost predicate DistinctIds(effects: seq<Emitted>) {
    forall i, j :: 0 <= i < j < |effects| ==> effects[i].id != effects[j].id
  }

  ghost predicate Greatest(effects: seq<Emitted>, d: nat) {
    && (forall i :: 0 <= i < |effects| && effects[i].decision.Some? ==> effects[i].decision.value <= d)
    && exists i :: 0 <= i < |effects| && effects[i].decision == Some(d)
  }

  /**
   * No effect with the winner's id stands before one that has it and decides
   * as the winner does; an effect without a decision counts as ALLOW.
   */
  ghost predicate FirstDecides(effects: seq<Emitted>, w: Emitted, allow: nat) {
    exists i :: 0 <= i < |effects| && FirstOf(effects, i) && effects[i].id == w.id
      && (effects[i].decision == w.decision || (effects[i].decision.None? && w.decision == Some(allow)))
  }

  lemma {:induction false} FirstWithIsFirst(effects: seq<Emitted>, id: string) returns (i: nat)
    requires FirstWith(effects, id).Some?
    ensures i < |effects| && FirstOf(effects, i) && effects[i] == FirstWith(effects, id).value
  {
    if effects[0].id == id {
      i := 0;
    } else {
      var k := FirstWithIsFirst(effects[1..], id);
      i := k + 1;
      forall j | 0 <= j < i ensures effects[j].id != id {
        assert j > 0 ==> effects[1..][j - 1] == effects[j];
      }
    }
  }

  lemma FirstUnique(effects: seq<Emitted>, i: nat, j: nat)
    requires i < |effects| && j < |effects| && FirstOf(effects, i) && FirstOf(effects, j) && effects[i].id == effects[j].id
    ensures i == j
  {
  }

  /** The reported decision is the greatest one exactly when the first effect with the winner's id decides as the winner. */
  lemma GreatestIff(effects: seq<Emitted>, w: Emitted, allow: nat)
    requires IsWinner(effects, Some(w))
    ensures Greatest(effects, DecisionFor(effects, Some(w), allow)) <==> FirstDecides(effects, w, allow)
  {
    var k :| 0 <= k < |effects| && effects[k] == w;
    var i := FirstWithIsFirst(effects, w.id);
    if FirstDecides(effects, w, allow) {
      var j :| 0 <= j < |effects| && FirstOf(effects, j) && effects[j].id == w.id
        && (effects[j].decision == w.decision || (effects[j].decision.None? && w.decision == Some(allow)));
      FirstUnique(effects, i, j);
      assert effects[k].decision == Some(DecisionFor(effects, Some(w), allow));
    }
    if Greatest(effects, DecisionFor(effects, Some(w), allow)) {
      assert effects[k].decision.value <= DecisionFor(effects, Some(w), allow);
      assert FirstOf(effects, i) && effects[i].id == w.id;
    }
  }

  /** Distinct ids are enough: then the decision is the greatest one, or ALLOW if nothing decides. */
  lemma DistinctIdsGreatest(effects: seq<Emitted>, w: Option<Emitted>, allow: nat)
    requires DistinctIds(effects) && IsWinner(effects, w)
    ensures w.Some? ==> Greatest(effects, DecisionFor(effects, w, allow))
    ensures w.None? ==> DecisionFor(effects, w, allow) == allow
  {
    if w.Some? {
      var i :| 0 <= i < |effects| && effects[i] == w.value;
      assert FirstOf(effects, i);
      GreatestIff(effects, w.value, allow);
    }
  }

  /** A repeated id can hide the greatest decision behind an earlier, weaker effect. */
  lemma RepeatedIdHidesDecision()
    ensures var effects := [Emitted("x", Some(1), 0, 0, []), Emitted("x", Some(3), 0, 0, [])];
      forall w :: IsWinner(effects, w) ==> DecisionFor(effects, w, 0) == 1 && !Greatest(effects, 1)
  {
    var effects := [Emitted("x", Some(1), 0, 0, []), Emitted("x", Some(3), 0, 0, [])];
    forall w | IsWinner(effects, w) ensures DecisionFor(effects, w, 0) == 1 && !Greatest(effects, 1) {
      assert effects[1].decision == Some(3) && effects[0].id == "x";
    }
  }
}
