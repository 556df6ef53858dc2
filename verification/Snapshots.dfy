/**
 * snapshot.rs: the versioned store of compiled policies. Updates may arrive
 * late, reordered and repeated; a retained version is the tombstone that keeps
 * a stale one from coming back.
 */
module Snapshots {
  import opened Wrappers
  import opened PolicyModel
  import opened Compiler

  datatype Slot = Slot(current: Option<Snapshot>, lastVersion: nat)

  const EMPTY_SLOT := Slot(None, 0)

  datatype SnapshotUpdate = Replaced | Removed | Unchanged | Stale

  datatype Update = Replace(snapshot: Snapshot) | Remove(scope: PolicyScope, removed: nat)
  {
    function Version(): nat { if Replace? then snapshot.version else removed }
    function Scope(): PolicyScope { if Replace? then snapshot.scope else scope }
  }

  // ---- One update ----------------------------------------------------------------

  /** The slot after one update, and what the update reports. */
  function Applied(slot: Slot, u: Update): (Slot, SnapshotUpdate) {
    match u
    case Replace(s) =>
      if s.version < slot.lastVersion then (slot, Stale)
      else if s.version == slot.lastVersion then
        (slot, if slot.current.Some? && slot.current.value.profileFingerprint == s.profileFingerprint
                  && slot.current.value.policyId == s.policyId
               then Unchanged else Stale)
      else (Slot(Some(s), s.version), Replaced)
    case Remove(_, v) =>
      if v < slot.lastVersion then (slot, Stale)
      else if v == slot.lastVersion && slot.current.None? then (slot, Unchanged)
      else (Slot(None, v), Removed)
  }

  /** A loaded snapshot carries the retained version, which is positive. */
  predicate SlotOk(slot: Slot) {
    slot.current.Some? ==> slot.current.value.version == slot.lastVersion && slot.lastVersion > 0
  }

  lemma AppliedKeeps(slot: Slot, u: Update)
    requires SlotOk(slot)
    ensures SlotOk(Applied(slot, u).0)
    ensures slot.lastVersion <= Applied(slot, u).0.lastVersion
    ensures Applied(slot, u).1 in {Replaced, Removed} <==> Applied(slot, u).0 != slot
    ensures u.Version() <= Applied(slot, u).0.lastVersion
  {
  }

  ghost predicate SameDefinition(x: Snapshot, y: Snapshot) {
    x.policyId == y.policyId && x.profileFingerprint == y.profileFingerprint
  }

  /** Older than what is retained, or a different definition of the same version. */
  ghost predicate ComesTooLate(slot: Slot, u: Update) {
    || u.Version() < slot.lastVersion
    || (u.Replace? && u.Version() == slot.lastVersion && !(slot.current.Some? && SameDefinition(slot.current.value, u.snapshot)))
  }

  /** It says what already holds: the loaded definition again, or the removal of nothing. */
  ghost predicate SaysNothingNew(slot: Slot, u: Update) {
    && u.Version() == slot.lastVersion
    && (u.Replace? ==> slot.current.Some? && SameDefinition(slot.current.value, u.snapshot))
    && (u.Remove? ==> slot.current == None)
  }

  /** What an update reports, and that it takes effect exactly when it is neither late nor old news. */
  lemma ReportMeans(slot: Slot, u: Update)
    ensures Applied(slot, u).1 == Stale <==> ComesTooLate(slot, u)
    ensures Applied(slot, u).1 == Unchanged <==> SaysNothingNew(slot, u)
    ensures Applied(slot, u).0 == if ComesTooLate(slot, u) || SaysNothingNew(slot, u) then slot
      else if u.Replace? then Slot(Some(u.snapshot), u.snapshot.version) else Slot(None, u.removed)
    ensures Applied(slot, u).1 == Replaced ==> u.Replace?
    ensures Applied(slot, u).1 == Removed ==> u.Remove?
  {
  }

  // ---- A run of updates of one scope -----------------------------------------------

  function Run(slot: Slot, us: seq<Update>): Slot {
    if us == [] then slot else Applied(Run(slot, us[..|us| - 1]), us[|us| - 1]).0
  }

  function MaxVersion(us: seq<Update>): (v: nat)
    ensures forall i :: 0 <= i < |us| ==> us[i].Version() <= v
    ensures v > 0 ==> exists i :: 0 <= i < |us| && us[i].Version() == v
  {
    if us == [] then 0
    else
      var n := |us| - 1;
      var rest := MaxVersion(us[..n]);
      assert forall i :: 0 <= i < n ==> us[..n][i] == us[i];
      if us[n].Version() > rest then us[n].Version() else rest
  }

  ghost predicate RemovedAt(us: seq<Update>, v: nat) {
    exists i :: 0 <= i < |us| && us[i].Remove? && us[i].Version() == v
  }

  /** `u` is the first replacement of version `v`. */
  ghost predicate FirstAt(us: seq<Update>, v: nat, s: Snapshot) {
    exists i :: 0 <= i < |us| && us[i] == Replace(s) && s.version == v
      && forall j :: 0 <= j < i ==> us[j].Version() != v
  }

  /** What a run from an empty slot ends with: the maximum version, removed if any removal has it, else its first replacement. */
  ghost predicate EndsAt(us: seq<Update>, slot: Slot) {
    var v := MaxVersion(us);
    && slot.lastVersion == v
    && (v == 0 || RemovedAt(us, v) ==> slot.current == None)
    && (v > 0 && !RemovedAt(us, v) ==> slot.current.Some? && FirstAt(us, v, slot.current.value))
  }

  lemma {:induction false} RunEndsAt(us: seq<Update>)
    ensures EndsAt(us, Run(EMPTY_SLOT, us))
    ensures SlotOk(Run(EMPTY_SLOT, us))
  {
    if us != [] {
      var n := |us| - 1;
      RunEndsAt(us[..n]);
      StepEndsAt(us, Run(EMPTY_SLOT, us[..n]));
      AppliedKeeps(Run(EMPTY_SLOT, us[..n]), us[n]);
    }
  }

  lemma StepEndsAt(us: seq<Update>, slot: Slot)
    requires us != [] && EndsAt(us[..|us| - 1], slot) && SlotOk(slot)
    ensures EndsAt(us, Applied(slot, us[|us| - 1]).0)
  {
    var n := |us| - 1;
    var front, u, v, w := us[..n], us[n], MaxVersion(us[..n]), MaxVersion(us);
    assert forall i :: 0 <= i < n ==> front[i] == us[i];
    assert w == if u.Version() > v then u.Version() else v;
    assert RemovedAt(us, w) <==> (w == v && RemovedAt(front, v)) || (u.Remove? && u.Version() == w);
    if w > v {
      assert u.Replace? ==> FirstAt(us, w, u.snapshot);
    } else if v > 0 && !RemovedAt(front, v) {
      var s := slot.current.value;
      var i :| 0 <= i < |front| && front[i] == Replace(s) && s.version == v && forall j :: 0 <= j < i ==> front[j].Version() != v;
      assert us[i] == Replace(s);
      assert FirstAt(us, v, s);
    }
  }

  // ---- Order and repetition ---------------------------------------------------------

  ghost predicate SameUpdates(us: seq<Update>, vs: seq<Update>) {
    forall u :: u in us <==> u in vs
  }

  /** The maximum version is nothing, or some removal has it, or it denotes one replacement. */
  ghost predicate Decisive(us: seq<Update>) {
    var v := MaxVersion(us);
    v == 0 || RemovedAt(us, v)
    || forall u, w :: u in us && w in us && u.Version() == v && w.Version() == v ==> u == w
  }

  lemma SameMaximum(us: seq<Update>, vs: seq<Update>)
    requires SameUpdates(us, vs)
    ensures MaxVersion(us) == MaxVersion(vs)
    ensures forall v :: RemovedAt(us, v) <==> RemovedAt(vs, v)
  {
    MaximumWithin(us, vs);
    MaximumWithin(vs, us);
    forall v ensures RemovedAt(us, v) <==> RemovedAt(vs, v) {
      if i :| 0 <= i < |us| && us[i].Remove? && us[i].Version() == v {
        assert us[i] in vs;
      }
      if i :| 0 <= i < |vs| && vs[i].Remove? && vs[i].Version() == v {
        assert vs[i] in us;
      }
    }
  }

  lemma MaximumWithin(us: seq<Update>, vs: seq<Update>)
    requires forall u :: u in us ==> u in vs
    ensures MaxVersion(us) <= MaxVersion(vs)
  {
    if MaxVersion(us) > 0 {
      var i :| 0 <= i < |us| && us[i].Version() == MaxVersion(us);
      assert us[i] in vs;
      var j :| 0 <= j < |vs| && vs[j] == us[i];
    }
  }

  /** Any two runs over the same set of updates end alike, in whatever order and however often each arrives. */
  lemma SameUpdatesSameSlot(us: seq<Update>, vs: seq<Update>)
    requires SameUpdates(us, vs) && Decisive(us)
    ensures Run(EMPTY_SLOT, us) == Run(EMPTY_SLOT, vs)
  {
    RunEndsAt(us);
    RunEndsAt(vs);
    SameMaximum(us, vs);
    var v := MaxVersion(us);
    if v > 0 && !RemovedAt(us, v) {
      var x, y := Run(EMPTY_SLOT, us).current.value, Run(EMPTY_SLOT, vs).current.value;
      assert Replace(x) in us && Replace(y) in vs;
      assert Replace(y) in us;
    }
  }

  /** Delivering an update of the maximum version first makes it win, unless a removal has that version. */
  lemma FirstWins(us: seq<Update>, s: Snapshot)
    requires Replace(s) in us && s.version == MaxVersion(us) > 0 && !RemovedAt(us, s.version)
    ensures SameUpdates(us, [Replace(s)] + us)
    ensures Run(EMPTY_SLOT, [Replace(s)] + us) == Slot(Some(s), s.version)
  {
    var ws := [Replace(s)] + us;
    assert SameUpdates(us, ws);
    SameMaximum(us, ws);
    RunEndsAt(ws);
    var x := Run(EMPTY_SLOT, ws).current.value;
    var i :| 0 <= i < |ws| && ws[i] == Replace(x) && x.version == s.version && forall j :: 0 <= j < i ==> ws[j].Version() != s.version;
    assert ws[0].Version() == s.version;
  }

  /** Exactly the decisive sets of updates leave one state whatever the order and repetition. */
  lemma OrderInsensitiveIff(us: seq<Update>)
    ensures Decisive(us) <==>
      forall vs, ws :: SameUpdates(us, vs) && SameUpdates(us, ws) ==> Run(EMPTY_SLOT, vs) == Run(EMPTY_SLOT, ws)
  {
    if Decisive(us) {
      forall vs, ws | SameUpdates(us, vs) && SameUpdates(us, ws) ensures Run(EMPTY_SLOT, vs) == Run(EMPTY_SLOT, ws) {
        SameUpdatesSameSlot(us, vs);
        SameUpdatesSameSlot(us, ws);
      }
    } else {
      var v := MaxVersion(us);
      var u, w :| u in us && w in us && u.Version() == v && w.Version() == v && u != w;
      AtMaximum(us, u);
      AtMaximum(us, w);
      FirstWins(us, u.snapshot);
      FirstWins(us, w.snapshot);
      assert SameUpdates(us, [u] + us) && SameUpdates(us, [w] + us);
      assert Run(EMPTY_SLOT, [u] + us) != Run(EMPTY_SLOT, [w] + us);
    }
  }

  lemma AtMaximum(us: seq<Update>, u: Update)
    requires u in us && u.Version() == MaxVersion(us) && !RemovedAt(us, MaxVersion(us))
    ensures u.Replace?
  {
    var i :| 0 <= i < |us| && us[i] == u;
  }

  /** One operation per version, as the publisher intends, is decisive. */
  lemma OneOperationPerVersion(us: seq<Update>)
    requires forall u, w :: u in us && w in us && u.Version() == w.Version() ==> u == w
    ensures Decisive(us)
  {
  }

  /** An update older than the retained version changes nothing: a delayed invalidation restores no stale policy. */
  lemma {:induction false} StaleNeverReturns(slot: Slot, us: seq<Update>, u: Update)
    requires SlotOk(slot) && u.Version() < slot.lastVersion
    ensures Applied(Run(slot, us), u) == (Run(slot, us), Stale)
    ensures SlotOk(Run(slot, us)) && slot.lastVersion <= Run(slot, us).lastVersion
  {
    if us != [] {
      StaleNeverReturns(slot, us[..|us| - 1], u);
      AppliedKeeps(Run(slot, us[..|us| - 1]), us[|us| - 1]);
    }
  }

  /** A policy published as version 0 is never stored. */
  lemma VersionZeroNeverLoads(us: seq<Update>)
    requires forall i :: 0 <= i < |us| ==> us[i].Replace? ==> us[i].snapshot.version == 0
    ensures Run(EMPTY_SLOT, us).current == None
  {
    RunEndsAt(us);
  }

  // ---- The store ------------------------------------------------------------------

  /** The GLOBAL slot has no id; the other scopes are told apart by authority and id. */
  function KeyOf(scope: PolicyScope): PolicyScope {
    if scope.authority == Global then PolicyScope(Global, "") else scope
  }

  /** The slot of scope `s` after an update of some scope. */
  function Filed(slot: Slot, s: PolicyScope, u: Update): Slot {
    if KeyOf(s) == KeyOf(u.Scope()) then Applied(slot, u).0 else slot
  }

  class PolicySnapshotStore {
    var global: Slot
    var scoped: map<PolicyScope, Slot>

    /** Every loaded slot is filed under its own scope and carries the retained version. */
    ghost predicate Valid()
      reads this
    {
      && SlotOk(global) && (global.current.Some? ==> global.current.value.scope.authority == Global)
      && (forall k :: k in scoped ==> k.authority != Global && SlotOk(scoped[k]))
      && (forall k :: k in scoped && scoped[k].current.Some? ==> scoped[k].current.value.scope == k)
    }

    function SlotAt(scope: PolicyScope): Slot
      reads this
    {
      if scope.authority == Global then global else if scope in scoped then scoped[scope] else EMPTY_SLOT
    }

    constructor ()
      ensures Valid() && forall s :: SlotAt(s) == EMPTY_SLOT
    {
      global := EMPTY_SLOT;
      scoped := map[];
    }

    method Load(scope: PolicyScope) returns (r: Option<Snapshot>)
      requires Valid()
      ensures r == SlotAt(scope).current
      ensures r.Some? ==> KeyOf(r.value.scope) == KeyOf(scope) && r.value.version == SlotAt(scope).lastVersion
    {
      match scope.authority
      case Global => r := global.current;
      case _ =>
        if scope in scoped {
          r := scoped[scope].current;
        } else {
          r := None;
        }
    }

    /** Put a slot back where `slot()` found or made it. */
    method Store(scope: PolicyScope, slot: Slot)
      requires Valid() && SlotOk(slot) && (slot.current.Some? ==> KeyOf(slot.current.value.scope) == KeyOf(scope))
      modifies this
      ensures Valid()
      ensures forall s :: SlotAt(s) == if KeyOf(s) == KeyOf(scope) then slot else old(SlotAt(s))
    {
      if scope.authority == Global {
        global := slot;
      } else {
        scoped := scoped[scope := slot];
      }
    }

    method Replace(snapshot: Snapshot) returns (r: SnapshotUpdate)
      requires Valid()
      modifies this
      ensures Valid()
      ensures r == Applied(old(SlotAt(snapshot.scope)), Update.Replace(snapshot)).1
      ensures forall s :: SlotAt(s) == Filed(old(SlotAt(s)), s, Update.Replace(snapshot))
    {
      var slot := SlotAt(snapshot.scope);
      if snapshot.version < slot.lastVersion {
        Store(snapshot.scope, slot);
        return Stale;
      }
      if snapshot.version == slot.lastVersion {
        Store(snapshot.scope, slot);
        if slot.current.Some? && slot.current.value.profileFingerprint == snapshot.profileFingerprint
           && slot.current.value.policyId == snapshot.policyId {
          return Unchanged;
        }
        return Stale;
      }
      Store(snapshot.scope, Slot(Some(snapshot), snapshot.version));
      r := Replaced;
    }

    method Remove(scope: PolicyScope, version: nat) returns (r: SnapshotUpdate)
      requires Valid()
      modifies this
      ensures Valid()
      ensures r == Applied(old(SlotAt(scope)), Update.Remove(scope, version)).1
      ensures forall s :: SlotAt(s) == Filed(old(SlotAt(s)), s, Update.Remove(scope, version))
    {
      var slot := SlotAt(scope);
      if version < slot.lastVersion {
        Store(scope, slot);
        return Stale;
      }
      if version == slot.lastVersion && slot.current.None? {
        Store(scope, slot);
        return Unchanged;
      }
      Store(scope, Slot(None, version));
      r := Removed;
    }

    method Apply(u: Update) returns (r: SnapshotUpdate)
      requires Valid()
      modifies this
      ensures Valid()
      ensures r == Applied(old(SlotAt(u.Scope())), u).1
      ensures forall s :: SlotAt(s) == Filed(old(SlotAt(s)), s, u)
    {
      match u {
        case Replace(snapshot) => r := Replace(snapshot);
        case Remove(scope, version) => r := Remove(scope, version);
      }
    }

    /** The scopes with a loaded snapshot. The source also sorts them, which no caller depends on. */
    method LoadedScopes() returns (r: set<PolicyScope>)
      requires Valid()
      ensures forall s :: s in r <==> s == KeyOf(s) && SlotAt(s).current.Some?
    {
      r := (if global.current.Some? then {PolicyScope(Global, "")} else {})
        + set k | k in scoped && scoped[k].current.Some?;
    }
  }

  /** The updates of a run that concern one scope. */
  function UpdatesOf(us: seq<Update>, key: PolicyScope): seq<Update> {
    if us == [] then []
    else
      var n := |us| - 1;
      UpdatesOf(us[..n], key) + (if KeyOf(us[n].Scope()) == key then [us[n]] else [])
  }

  /** Updates of different scopes do not interfere: after any run each slot holds the run of its own updates. */
  method ApplyAll(store: PolicySnapshotStore, us: seq<Update>)
    requires store.Valid()
    modifies store
    ensures store.Valid()
    ensures forall s :: store.SlotAt(s) == Run(old(store.SlotAt(s)), UpdatesOf(us, KeyOf(s)))
  {
    for n := 0 to |us|
      invariant store.Valid()
      invariant forall s :: store.SlotAt(s) == Run(old(store.SlotAt(s)), UpdatesOf(us[..n], KeyOf(s)))
    {
      var _ := store.Apply(us[n]);
      forall s ensures store.SlotAt(s) == Run(old(store.SlotAt(s)), UpdatesOf(us[..n + 1], KeyOf(s))) {
        RunNext(old(store.SlotAt(s)), us, n, KeyOf(s));
      }
    }
    assert us[..|us|] == us;
  }

  lemma RunNext(slot: Slot, us: seq<Update>, n: nat, key: PolicyScope)
    requires n < |us|
    ensures var before := Run(slot, UpdatesOf(us[..n], key));
      Run(slot, UpdatesOf(us[..n + 1], key)) == if KeyOf(us[n].Scope()) == key then Applied(before, us[n]).0 else before
  {
    hide Applied;
    assert us[..n + 1][..n] == us[..n];
    var mine := UpdatesOf(us[..n], key);
    assert (mine + [us[n]])[..|mine|] == mine && mine + [] == mine;
  }
}
