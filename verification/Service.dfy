/**
 * service.rs: bootstrap, reload and reconciliation drive the snapshot store
 * from the definitions a source returns. Loading and compiling are given as
 * results; nothing is published unless everything compiles.
 */
module Service {
  import opened Wrappers
  import opened PolicyModel
  import opened Compiler
  import opened Snapshots

  datatype ReloadError =
    | Load | Validation | Compile | VersionNotVisible(scope: PolicyScope, expected: nat, loaded: nat)

  const MAX_VERSION: nat := 0xFFFF_FFFF_FFFF_FFFF

  /** Validation, classification and compilation of one definition. */
  type Compilation = ContentPolicy -> Result<Snapshot, ReloadError>

  /** A compiled snapshot keeps the identity of its definition. */
  ghost predicate KeepsIdentity(compile: Compilation) {
    forall p :: compile(p).Ok? ==> compile(p).value.scope == p.scope && compile(p).value.version == p.version
  }

  function Enabled(defs: seq<ContentPolicy>): (r: seq<ContentPolicy>)
    ensures forall p :: p in r <==> p in defs && p.enabled
  {
    if defs == [] then [] else Enabled(defs[..|defs| - 1]) + (if defs[|defs| - 1].enabled then [defs[|defs| - 1]] else [])
  }

  function Disabled(defs: seq<ContentPolicy>): (r: seq<ContentPolicy>)
    ensures forall p :: p in r <==> p in defs && !p.enabled
  {
    if defs == [] then [] else Disabled(defs[..|defs| - 1]) + (if defs[|defs| - 1].enabled then [] else [defs[|defs| - 1]])
  }

  /** `compile_all`: every snapshot, or an error of some definition. */
  function CompileEach(compile: Compilation, defs: seq<ContentPolicy>): (r: Result<seq<Snapshot>, ReloadError>)
    ensures r.Ok? ==> |r.value| == |defs| && forall i :: 0 <= i < |defs| ==> compile(defs[i]) == Ok(r.value[i])
    ensures r.Err? ==> exists i :: 0 <= i < |defs| && compile(defs[i]) == Err(r.error)
  {
    if defs == [] then Ok([])
    else
      var n := |defs| - 1;
      match CompileEach(compile, defs[..n])
      case Err(e) => assert forall i :: 0 <= i < n ==> defs[..n][i] == defs[i]; Err(e)
      case Ok(rest) =>
        match compile(defs[n])
        case Err(e) => Err(e)
        case Ok(last) => Ok(rest + [last])
  }

  function Replaces(snapshots: seq<Snapshot>): (r: seq<Update>)
    ensures |r| == |snapshots| && forall i :: 0 <= i < |r| ==> r[i] == Replace(snapshots[i])
  {
    seq(|snapshots|, i requires 0 <= i < |snapshots| => Replace(snapshots[i]))
  }

  function Removes(defs: seq<ContentPolicy>): (r: seq<Update>)
    ensures |r| == |defs| && forall i :: 0 <= i < |r| ==> r[i] == Remove(defs[i].scope, defs[i].version)
  {
    seq(|defs|, i requires 0 <= i < |defs| => Remove(defs[i].scope, defs[i].version))
  }

  /** The updates published for a list of definitions, once the enabled ones are compiled. */
  function Published(snapshots: seq<Snapshot>, defs: seq<ContentPolicy>): seq<Update> {
    Replaces(snapshots) + Removes(Disabled(defs))
  }

  /** `saturating_add(1)`. */
  function NextVersion(v: nat): nat { if v < MAX_VERSION then v + 1 else MAX_VERSION }

  /** What reconciliation leaves in a slot after publishing: a loaded scope that no definition has is removed. */
  function Swept(slot: Slot, s: PolicyScope, present: bool): Slot {
    if present || slot.current.None? then slot else Applied(slot, Remove(s, NextVersion(slot.current.value.version))).0
  }

  /** Versions being 64-bit, the removal always takes effect. */
  lemma SweptUnloads(slot: Slot, s: PolicyScope)
    requires SlotOk(slot) && slot.lastVersion <= MAX_VERSION
    ensures Swept(slot, s, false).current == None && slot.lastVersion <= Swept(slot, s, false).lastVersion
  {
  }

  predicate Present(defs: seq<ContentPolicy>, scope: PolicyScope) {
    exists i :: 0 <= i < |defs| && defs[i].scope == scope
  }

  /** The update an invalidation leads to, given what the source returned. */
  function ReloadUpdate(scope: PolicyScope, expected: nat, loaded: Result<Option<ContentPolicy>, ReloadError>, compile: Compilation):
    Result<Update, ReloadError>
  {
    match loaded
    case Err(e) => Err(e)
    case Ok(None) => Ok(Remove(scope, expected))
    case Ok(Some(p)) =>
      if p.version < expected then Err(VersionNotVisible(scope, expected, p.version))
      else if !p.enabled then Ok(Remove(p.scope, p.version))
      else match compile(p) case Err(e) => Err(e) case Ok(s) => Ok(Replace(s))
  }

  /** The update concerns the scope, is at least as new as announced, and installs a policy only if one is enabled. */
  lemma ReloadMeans(scope: PolicyScope, expected: nat, loaded: Result<Option<ContentPolicy>, ReloadError>, compile: Compilation)
    requires KeepsIdentity(compile)
    requires loaded.Ok? && loaded.value.Some? ==> loaded.value.value.scope == scope
    requires ReloadUpdate(scope, expected, loaded, compile).Ok?
    ensures var u := ReloadUpdate(scope, expected, loaded, compile).value;
      && u.Scope() == scope && u.Version() >= expected && (u.Replace? <==> loaded.value.Some? && loaded.value.value.enabled)
      && u.Version() == (if loaded.value.Some? then loaded.value.value.version else expected)
      && (u.Replace? ==> compile(loaded.value.value) == Ok(u.snapshot))
  {
  }

  /** A reload fails as loading does, on a definition older than announced, or as the compilation of an enabled one does. */
  lemma ReloadFails(scope: PolicyScope, expected: nat, loaded: Result<Option<ContentPolicy>, ReloadError>, compile: Compilation, e: ReloadError)
    ensures ReloadUpdate(scope, expected, loaded, compile) == Err(e) <==>
      || loaded == Err(e)
      || (loaded.Ok? && loaded.value.Some? && loaded.value.value.version < expected
          && e == VersionNotVisible(scope, expected, loaded.value.value.version))
      || (loaded.Ok? && loaded.value.Some? && loaded.value.value.version >= expected && loaded.value.value.enabled
          && compile(loaded.value.value) == Err(e))
  {
  }

  /** One operation of the runtime, with what its source returned. */
  datatype RuntimeStep =
    | BootstrapStep(definitions: Result<seq<ContentPolicy>, ReloadError>)
    | ReloadStep(scope: PolicyScope, expected: nat, definition: Result<Option<ContentPolicy>, ReloadError>)
    | ReconcileStep(definitions: Result<seq<ContentPolicy>, ReloadError>)

  /** The slot of scope `s` after one operation. */
  function SlotAfter(slot: Slot, s: PolicyScope, step: RuntimeStep, compile: Compilation): Slot {
    match step
    case BootstrapStep(loaded) =>
      if loaded.Ok? && CompileEach(compile, Enabled(loaded.value)).Ok?
      then Run(slot, UpdatesOf(Published(CompileEach(compile, Enabled(loaded.value)).value, loaded.value), KeyOf(s))) else slot
    case ReloadStep(scope, expected, loaded) =>
      var u := ReloadUpdate(scope, expected, loaded, compile);
      if u.Ok? then Filed(slot, s, u.value) else slot
    case ReconcileStep(loaded) =>
      if loaded.Ok? && CompileEach(compile, Enabled(loaded.value)).Ok?
      then Swept(Run(slot, UpdatesOf(Published(CompileEach(compile, Enabled(loaded.value)).value, loaded.value), KeyOf(s))),
                 KeyOf(s), Present(loaded.value, KeyOf(s)))
      else slot
  }

  class ContentPolicyRuntime {
    const snapshots: PolicySnapshotStore

    ghost predicate Valid()
      reads this, snapshots
    {
      snapshots.Valid()
    }

    constructor (store: PolicySnapshotStore)
      requires store.Valid()
      ensures snapshots == store && Valid()
    {
      snapshots := store;
    }

    /** Startup is all or nothing. */
    method Bootstrap(loaded: Result<seq<ContentPolicy>, ReloadError>, compile: Compilation) returns (r: Result<nat, ReloadError>)
      requires Valid()
      modifies snapshots
      ensures Valid()
      ensures r.Ok? <==> loaded.Ok? && CompileEach(compile, Enabled(loaded.value)).Ok?
      ensures forall s :: snapshots.SlotAt(s) == SlotAfter(old(snapshots.SlotAt(s)), s, BootstrapStep(loaded), compile)
    {
      if loaded.Err? {
        return Err(loaded.error);
      }
      var compiled := CompileEach(compile, Enabled(loaded.value));
      if compiled.Err? {
        return Err(compiled.error);
      }
      ApplyAll(snapshots, Published(compiled.value, loaded.value));
      var scopes := snapshots.LoadedScopes();
      r := Ok(|scopes|);
    }

    /** One invalidation: the definition read may be newer than announced, never older. */
    method ReloadScope(scope: PolicyScope, expected: nat, loaded: Result<Option<ContentPolicy>, ReloadError>, compile: Compilation)
      returns (r: Result<SnapshotUpdate, ReloadError>)
      requires Valid()
      modifies snapshots
      ensures Valid()
      ensures var u := ReloadUpdate(scope, expected, loaded, compile);
        r == (if u.Err? then Err(u.error) else Ok(Applied(old(snapshots.SlotAt(u.value.Scope())), u.value).1))
      ensures forall s :: snapshots.SlotAt(s) == SlotAfter(old(snapshots.SlotAt(s)), s, ReloadStep(scope, expected, loaded), compile)
    {
      if loaded.Err? {
        return Err(loaded.error);
      }
      var update;
      if loaded.value.None? {
        update := snapshots.Remove(scope, expected);
        return Ok(update);
      }
      var definition := loaded.value.value;
      if definition.version < expected {
        return Err(VersionNotVisible(scope, expected, definition.version));
      }
      if !definition.enabled {
        update := snapshots.Remove(definition.scope, definition.version);
        return Ok(update);
      }
      var snapshot := compile(definition);
      if snapshot.Err? {
        return Err(snapshot.error);
      }
      update := snapshots.Replace(snapshot.value);
      r := Ok(update);
    }

    /** Publish everything, then unload every scope that no definition has. */
    method Reconcile(loaded: Result<seq<ContentPolicy>, ReloadError>, compile: Compilation) returns (r: Result<nat, ReloadError>)
      requires Valid()
      modifies snapshots
      ensures Valid()
      ensures r.Ok? <==> loaded.Ok? && CompileEach(compile, Enabled(loaded.value)).Ok?
      ensures forall s :: snapshots.SlotAt(s) == SlotAfter(old(snapshots.SlotAt(s)), s, ReconcileStep(loaded), compile)
    {
      if loaded.Err? {
        return Err(loaded.error);
      }
      var compiled := CompileEach(compile, Enabled(loaded.value));
      if compiled.Err? {
        return Err(compiled.error);
      }
      ApplyAll(snapshots, Published(compiled.value, loaded.value));
      var scopes := snapshots.LoadedScopes();
      Sweep(loaded.value, scopes);
      var after := snapshots.LoadedScopes();
      r := Ok(|after|);
    }

    /** The final loop of reconciliation, over the scopes loaded after publishing. */
    method Sweep(defs: seq<ContentPolicy>, scopes: set<PolicyScope>)
      requires Valid() && forall s :: s in scopes <==> s == KeyOf(s) && snapshots.SlotAt(s).current.Some?
      modifies snapshots
      ensures Valid()
      ensures forall s :: snapshots.SlotAt(s) == Swept(old(snapshots.SlotAt(s)), KeyOf(s), Present(defs, KeyOf(s)))
    {
      hide Swept;
      var todo := scopes;
      while todo != {}
        invariant Valid() && todo <= scopes
        invariant forall s :: KeyOf(s) in todo ==> snapshots.SlotAt(s) == old(snapshots.SlotAt(s))
        invariant forall s :: KeyOf(s) in scopes - todo ==>
          snapshots.SlotAt(s) == Swept(old(snapshots.SlotAt(s)), KeyOf(s), Present(defs, KeyOf(s)))
        invariant forall s :: KeyOf(s) !in scopes ==> snapshots.SlotAt(s) == old(snapshots.SlotAt(s))
        decreases |todo|
      {
        var scope :| scope in todo;
        SweepScope(defs, scope);
        todo := todo - {scope};
      }
      forall s | KeyOf(s) !in scopes
        ensures Swept(old(snapshots.SlotAt(s)), KeyOf(s), Present(defs, KeyOf(s))) == old(snapshots.SlotAt(s))
      {
        assert KeyOf(KeyOf(s)) == KeyOf(s) && old(snapshots.SlotAt(s)) == old(snapshots.SlotAt(KeyOf(s)));
        NothingSwept(old(snapshots.SlotAt(s)), KeyOf(s), Present(defs, KeyOf(s)));
      }
    }

    method SweepScope(defs: seq<ContentPolicy>, scope: PolicyScope)
      requires Valid() && scope == KeyOf(scope) && snapshots.SlotAt(scope).current.Some?
      modifies snapshots
      ensures Valid()
      ensures forall s :: KeyOf(s) == scope ==>
        snapshots.SlotAt(s) == Swept(old(snapshots.SlotAt(s)), KeyOf(s), Present(defs, KeyOf(s)))
      ensures forall s :: KeyOf(s) != scope ==> snapshots.SlotAt(s) == old(snapshots.SlotAt(s))
    {
      if !Present(defs, scope) {
        var current := snapshots.Load(scope);
        var next := if current.None? then 1 else NextVersion(current.value.version);
        var _ := snapshots.Remove(scope, next);
      }
    }
  }

  lemma NothingSwept(slot: Slot, s: PolicyScope, present: bool)
    requires slot.current.None?
    ensures Swept(slot, s, present) == slot
  {
  }

  // ---- What reconciliation achieves ---------------------------------------------------

  ghost predicate DistinctScopes(defs: seq<ContentPolicy>) {
    && (forall i :: 0 <= i < |defs| ==> defs[i].scope == KeyOf(defs[i].scope))
    && (forall i, j :: 0 <= i < j < |defs| ==> defs[i].scope != defs[j].scope)
  }

  lemma {:induction false} UpdatesConcat(us: seq<Update>, vs: seq<Update>, key: PolicyScope)
    ensures UpdatesOf(us + vs, key) == UpdatesOf(us, key) + UpdatesOf(vs, key)
    decreases |vs|
  {
    if vs == [] {
      assert us + vs == us && UpdatesOf(us, key) + [] == UpdatesOf(us, key);
    } else {
      var n := |vs| - 1;
      UpdatesConcat(us, vs[..n], key);
      assert (us + vs)[..|us + vs| - 1] == us + vs[..n] && (us + vs)[|us + vs| - 1] == vs[n];
    }
  }

  lemma {:induction false} UpdatesOfNone(us: seq<Update>, key: PolicyScope)
    requires forall i :: 0 <= i < |us| ==> KeyOf(us[i].Scope()) != key
    ensures UpdatesOf(us, key) == []
  {
    if us != [] {
      UpdatesOfNone(us[..|us| - 1], key);
    }
  }

  /** One update among many concerns the scope. */
  lemma UpdatesOfOne(us: seq<Update>, key: PolicyScope, k: nat)
    requires k < |us| && KeyOf(us[k].Scope()) == key
    requires forall i :: 0 <= i < |us| && i != k ==> KeyOf(us[i].Scope()) != key
    ensures UpdatesOf(us, key) == [us[k]]
  {
    hide UpdatesOf, KeyOf;
    assert us == us[..k] + ([us[k]] + us[k + 1..]);
    UpdatesConcat(us[..k], [us[k]] + us[k + 1..], key);
    UpdatesConcat([us[k]], us[k + 1..], key);
    UpdatesOfNone(us[..k], key);
    UpdatesOfNone(us[k + 1..], key);
    UpdatesOfSingle(us[k], key);
  }

  lemma UpdatesOfSingle(u: Update, key: PolicyScope)
    requires KeyOf(u.Scope()) == key
    ensures UpdatesOf([u], key) == [u]
  {
    assert [u][..0] == [];
  }

  /** The update a definition is published as. */
  ghost predicate PublishesAs(compile: Compilation, p: ContentPolicy, u: Update) {
    if p.enabled then compile(p).Ok? && u == Replace(compile(p).value) else u == Remove(p.scope, p.version)
  }

  /** Where a list picked from distinct definitions has `p`, it has no other definition of that scope. */
  ghost predicate Picked(ps: seq<ContentPolicy>, defs: seq<ContentPolicy>) {
    && (forall i :: 0 <= i < |ps| ==> ps[i] in defs)
    && (forall i, j :: 0 <= i < j < |ps| ==> ps[i].scope != ps[j].scope)
  }

  lemma {:induction false} PickedEnabled(defs: seq<ContentPolicy>)
    requires DistinctScopes(defs)
    ensures Picked(Enabled(defs), defs) && Picked(Disabled(defs), defs)
  {
    if defs != [] {
      var n := |defs| - 1;
      PickedEnabled(defs[..n]);
      FrontScopes(defs, Enabled(defs[..n]));
      FrontScopes(defs, Disabled(defs[..n]));
    }
  }

  lemma FrontScopes(defs: seq<ContentPolicy>, ps: seq<ContentPolicy>)
    requires defs != [] && DistinctScopes(defs) && forall p :: p in ps ==> p in defs[..|defs| - 1]
    ensures forall i :: 0 <= i < |ps| ==> ps[i] in defs && ps[i].scope != defs[|defs| - 1].scope
  {
    var n := |defs| - 1;
    forall i | 0 <= i < |ps| ensures ps[i] in defs && ps[i].scope != defs[n].scope {
      assert ps[i] in ps;
      assert ps[i] in defs[..n];
      var j :| 0 <= j < n && defs[..n][j] == ps[i];
      assert defs[j] == ps[i];
    }
  }

  lemma SameDefinition(defs: seq<ContentPolicy>, p: ContentPolicy, q: ContentPolicy)
    requires DistinctScopes(defs) && p in defs && q in defs && KeyOf(p.scope) == KeyOf(q.scope)
    ensures p == q
  {
    var i :| 0 <= i < |defs| && defs[i] == p;
    var j :| 0 <= j < |defs| && defs[j] == q;
  }

  lemma PublishedScopes(compile: Compilation, defs: seq<ContentPolicy>, snaps: seq<Snapshot>, i: nat) returns (q: ContentPolicy)
    requires KeepsIdentity(compile) && CompileEach(compile, Enabled(defs)) == Ok(snaps)
    requires i < |Published(snaps, defs)|
    ensures q in defs && PublishesAs(compile, q, Published(snaps, defs)[i]) && Published(snaps, defs)[i].Scope() == q.scope
    ensures q == if i < |snaps| then Enabled(defs)[i] else Disabled(defs)[i - |snaps|]
  {
    hide Enabled, Disabled, CompileEach, KeyOf;
    q := if i < |snaps| then Enabled(defs)[i] else Disabled(defs)[i - |snaps|];
    assert q in (if i < |snaps| then Enabled(defs) else Disabled(defs));
  }

  /** A definition's scope gets exactly the one update the definition is published as. */
  lemma PublishedOnce(compile: Compilation, defs: seq<ContentPolicy>, snaps: seq<Snapshot>, p: ContentPolicy) returns (u: Update)
    requires KeepsIdentity(compile) && DistinctScopes(defs) && CompileEach(compile, Enabled(defs)) == Ok(snaps) && p in defs
    ensures UpdatesOf(Published(snaps, defs), p.scope) == [u] && PublishesAs(compile, p, u)
  {
    hide KeepsIdentity, CompileEach, PublishesAs, KeyOf;
    PickedEnabled(defs);
    var us := Published(snaps, defs);
    var k := PublishedAt(compile, defs, snaps, p);
    u := us[k];
    forall i | 0 <= i < |us| && i != k ensures KeyOf(us[i].Scope()) != p.scope {
      var q := PublishedScopes(compile, defs, snaps, i);
      if KeyOf(us[i].Scope()) == p.scope {
        assert KeyOf(p.scope) == p.scope by { OwnScope(defs, p); }
        SameDefinition(defs, p, q);
        PublishedTwice(compile, defs, snaps, p, i, k);
      }
    }
    assert KeyOf(u.Scope()) == p.scope by { OwnScope(defs, p); }
    UpdatesOfOne(us, p.scope, k);
  }

  lemma OwnScope(defs: seq<ContentPolicy>, p: ContentPolicy)
    requires DistinctScopes(defs) && p in defs
    ensures KeyOf(p.scope) == p.scope
  {
  }

  lemma PublishedAt(compile: Compilation, defs: seq<ContentPolicy>, snaps: seq<Snapshot>, p: ContentPolicy) returns (k: nat)
    requires KeepsIdentity(compile) && CompileEach(compile, Enabled(defs)) == Ok(snaps) && p in defs
    ensures k < |Published(snaps, defs)| && PublishesAs(compile, p, Published(snaps, defs)[k])
    ensures Published(snaps, defs)[k].Scope() == p.scope
    ensures p == if k < |snaps| then Enabled(defs)[k] else Disabled(defs)[k - |snaps|]
  {
    hide Enabled, Disabled, CompileEach, KeyOf;
    if p.enabled {
      assert p in Enabled(defs);
      k :| 0 <= k < |snaps| && Enabled(defs)[k] == p;
    } else {
      assert p in Disabled(defs);
      var m :| 0 <= m < |Disabled(defs)| && Disabled(defs)[m] == p;
      k := |snaps| + m;
    }
  }

  lemma PublishedTwice(compile: Compilation, defs: seq<ContentPolicy>, snaps: seq<Snapshot>, p: ContentPolicy, i: nat, k: nat)
    requires Picked(Enabled(defs), defs) && Picked(Disabled(defs), defs) && CompileEach(compile, Enabled(defs)) == Ok(snaps)
    requires i < |Published(snaps, defs)| && k < |Published(snaps, defs)|
    requires p == (if i < |snaps| then Enabled(defs)[i] else Disabled(defs)[i - |snaps|])
    requires p == (if k < |snaps| then Enabled(defs)[k] else Disabled(defs)[k - |snaps|])
    ensures i == k
  {
    assert i < |snaps| ==> p in Enabled(defs);
    assert i >= |snaps| ==> p in Disabled(defs);
    assert k < |snaps| ==> p in Enabled(defs);
    assert k >= |snaps| ==> p in Disabled(defs);
  }

  /**
   * Reconciliation converges: a scope with a newer definition ends with exactly
   * that definition, loaded if it is enabled; a scope without one ends unloaded.
   */
  lemma ReconcileConverges(compile: Compilation, defs: seq<ContentPolicy>, snaps: seq<Snapshot>, s: PolicyScope, slot: Slot)
    requires KeepsIdentity(compile) && DistinctScopes(defs) && CompileEach(compile, Enabled(defs)) == Ok(snaps)
    requires s == KeyOf(s) && SlotOk(slot) && slot.lastVersion <= MAX_VERSION
    ensures var final := Swept(Run(slot, UpdatesOf(Published(snaps, defs), s)), s, Present(defs, s));
      && (!Present(defs, s) ==> final.current == None)
      && (forall p :: p in defs && p.scope == s && slot.lastVersion < p.version ==>
            final == Slot(if p.enabled then Some(compile(p).value) else None, p.version))
  {
    var us := Published(snaps, defs);
    if !Present(defs, s) {
      forall i | 0 <= i < |us| ensures KeyOf(us[i].Scope()) != s {
        var q := PublishedScopes(compile, defs, snaps, i);
        var j :| 0 <= j < |defs| && defs[j] == q;
      }
      UpdatesOfNone(us, s);
      SweptUnloads(slot, s);
    }
    forall p | p in defs && p.scope == s && slot.lastVersion < p.version
      ensures Swept(Run(slot, UpdatesOf(us, s)), s, Present(defs, s)) == Slot(if p.enabled then Some(compile(p).value) else None, p.version)
    {
      var u := PublishedOnce(compile, defs, snaps, p);
      var j :| 0 <= j < |defs| && defs[j] == p;
      assert [u][..0] == [];
      assert Run(slot, [u]) == Applied(slot, u).0;
    }
  }

  /**
   * The synthetic version of a removal outlives it: a policy created again in
   * that scope stays unloaded until its version passes the removed one's by two.
   */
  lemma RecreatedTooEarly(slot: Slot, s: PolicyScope, again: Snapshot)
    requires SlotOk(slot) && slot.current.Some? && slot.lastVersion < MAX_VERSION
    ensures var after := Swept(slot, s, false);
      Applied(after, Replace(again)).0 == after <==> again.version <= slot.lastVersion + 1
  {
  }
}
