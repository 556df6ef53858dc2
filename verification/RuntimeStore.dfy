/**
 * What the runtime guarantees the engine: whatever sequence of bootstraps,
 * reloads and reconciliations ran, every loaded snapshot is the compilation of
 * an accepted and classified definition of its own scope, and a policy id
 * identifies it.
 */
module RuntimeStore {
  import opened Wrappers
  import opened PolicyModel
  import opened TextTables
  import opened Fingerprint
  import opened Compiler
  import opened Snapshots
  import Service
  import Validation
  import PatternSyntax
  import opened Remapping
  import opened Engine

  /** What `compile_one` reads besides the definition. */
  datatype Compiling = Compiling(t: Tables, text: Validation.ValidationText, limits: Validation.PolicyLimits)

  predicate AcceptedBy(c: Compiling, p: ContentPolicy) { Validation.Accepted(c.text, c.limits, false, p) }

  function Classified(c: Compiling, p: ContentPolicy): ContentPolicy { Validation.Classified(c.text, p) }

  /** Names that differ trimmed and lowered differ. */
  lemma AcceptedDistinct(c: Compiling, p: ContentPolicy)
    requires AcceptedBy(c, p)
    ensures DistinctRules(Classified(c, p))
  {
    hide Validation.RuleAccepted, Validation.SamePattern, Validation.Trim, Validation.AllPatterns, Validation.AllActions;
    var rules := p.rules;
    forall i, j | 0 <= i < j < |rules| ensures rules[i].name != rules[j].name {
      assert c.text.lowercase(Validation.Trim(c.text, rules[i].name)) != c.text.lowercase(Validation.Trim(c.text, rules[j].name));
    }
  }

  /** `compile_one`: the definition is validated, classified by what its patterns parse as, and compiled. */
  method CompileOne(c: Compiling, definition: ContentPolicy) returns (r: Result<Snapshot, Service.ReloadError>)
    ensures r.Ok? <==> AcceptedBy(c, definition) && !HasEmptyPattern(c.t, Classified(c, definition))
    ensures r.Ok? ==> CompiledFrom(c.t, Classified(c, definition), false, r.value)
  {
    hide AcceptedBy, Classified, CompiledFrom, HasEmptyPattern, DistinctRules;
    if !AcceptedBy(c, definition) {
      return Err(Service.Validation);
    }
    AcceptedDistinct(c, definition);
    var snapshot := CompileWithDetails(c.t, Classified(c, definition), false);
    if snapshot.Err? {
      return Err(Service.Compile);
    }
    r := Ok(snapshot.value);
  }

  /** The compilation the runtime is given answers as `CompileOne` does. */
  ghost predicate IsCompileOne(c: Compiling, compile: Service.Compilation) {
    forall p :: compile(p).Ok? ==> AcceptedBy(c, p) && CompiledFrom(c.t, Classified(c, p), false, compile(p).value)
  }

  /** `snap` was compiled from a definition of scope `s` among those seen so far. */
  ghost predicate From(c: Compiling, seen: set<ContentPolicy>, s: PolicyScope, snap: Snapshot) {
    exists p :: p in seen && Origin(c, p, s, snap)
  }

  ghost predicate Origin(c: Compiling, p: ContentPolicy, s: PolicyScope, snap: Snapshot) {
    AcceptedBy(c, p) && CompiledFrom(c.t, Classified(c, p), false, snap) && Snapshots.KeyOf(p.scope) == Snapshots.KeyOf(s)
  }

  ghost predicate Loads(c: Compiling, seen: set<ContentPolicy>, s: PolicyScope, slot: Slot) {
    slot.current.Some? ==> From(c, seen, s, slot.current.value)
  }

  lemma FromMore(c: Compiling, seen: set<ContentPolicy>, more: set<ContentPolicy>, s: PolicyScope, snap: Snapshot)
    requires From(c, seen, s, snap) || From(c, more, s, snap)
    ensures From(c, seen + more, s, snap)
  {
    hide Origin;
  }

  lemma LoadsMore(c: Compiling, seen: set<ContentPolicy>, more: set<ContentPolicy>, s: PolicyScope, slot: Slot)
    requires Loads(c, seen, s, slot)
    ensures Loads(c, seen + more, s, slot)
  {
    hide Origin;
  }

  lemma AppliedLoads(c: Compiling, seen: set<ContentPolicy>, s: PolicyScope, slot: Slot, u: Update)
    requires Loads(c, seen, s, slot) && (u.Replace? ==> From(c, seen, s, u.snapshot))
    ensures Loads(c, seen, s, Applied(slot, u).0)
  {
    hide From;
  }

  lemma {:induction false} RunLoads(c: Compiling, seen: set<ContentPolicy>, s: PolicyScope, slot: Slot, us: seq<Update>)
    requires Loads(c, seen, s, slot) && forall i :: 0 <= i < |us| && us[i].Replace? ==> From(c, seen, s, us[i].snapshot)
    ensures Loads(c, seen, s, Run(slot, us))
  {
    hide From, Loads, Applied;
    if us != [] {
      RunLoads(c, seen, s, slot, us[..|us| - 1]);
      AppliedLoads(c, seen, s, Run(slot, us[..|us| - 1]), us[|us| - 1]);
    }
  }

  lemma {:induction false} UpdatesOfElements(us: seq<Update>, key: PolicyScope, u: Update)
    requires u in UpdatesOf(us, key)
    ensures u in us && Snapshots.KeyOf(u.Scope()) == key
  {
    hide Snapshots.KeyOf;
    var n := |us| - 1;
    if u in UpdatesOf(us[..n], key) {
      UpdatesOfElements(us[..n], key, u);
    }
  }

  lemma CompiledOrigin(c: Compiling, compile: Service.Compilation, p: ContentPolicy)
    requires IsCompileOne(c, compile) && compile(p).Ok?
    ensures compile(p).value.scope == p.scope && Origin(c, p, p.scope, compile(p).value)
  {
    hide AcceptedBy, SurfacesCompiled, RulesOf, ProfileFingerprint;
  }

  lemma OriginOf(c: Compiling, p: ContentPolicy, s: PolicyScope, snap: Snapshot)
    requires Origin(c, p, p.scope, snap) && Snapshots.KeyOf(p.scope) == Snapshots.KeyOf(s)
    ensures Origin(c, p, s, snap)
  {
    hide AcceptedBy, CompiledFrom, Snapshots.KeyOf;
  }

  function Definitions(defs: seq<ContentPolicy>): set<ContentPolicy> { set p | p in defs }

  /** What is published for a scope replaces its slot by compilations of its own definitions only. */
  lemma PublishedFrom(c: Compiling, compile: Service.Compilation, defs: seq<ContentPolicy>, snaps: seq<Snapshot>, s: PolicyScope, u: Update)
    requires IsCompileOne(c, compile) && Service.CompileEach(compile, Service.Enabled(defs)) == Ok(snaps)
    requires u in UpdatesOf(Service.Published(snaps, defs), Snapshots.KeyOf(s)) && u.Replace?
    ensures From(c, Definitions(defs), s, u.snapshot)
  {
    hide Snapshots.KeyOf, Origin, IsCompileOne, Service.CompileEach, Service.Enabled;
    var us := Service.Published(snaps, defs);
    UpdatesOfElements(us, Snapshots.KeyOf(s), u);
    var i :| 0 <= i < |us| && us[i] == u;
    assert i < |snaps| && u.snapshot == snaps[i];
    var p := Service.Enabled(defs)[i];
    assert p in Service.Enabled(defs);
    CompiledOrigin(c, compile, p);
    OriginOf(c, p, s, snaps[i]);
  }

  /** Bootstrap, and the publishing half of reconciliation. */
  lemma PublishingLoads(c: Compiling, seen: set<ContentPolicy>, compile: Service.Compilation, defs: seq<ContentPolicy>, snaps: seq<Snapshot>,
                        s: PolicyScope, slot: Slot)
    requires IsCompileOne(c, compile) && Service.CompileEach(compile, Service.Enabled(defs)) == Ok(snaps)
    requires Loads(c, seen, s, slot)
    ensures Loads(c, seen + Definitions(defs), s, Run(slot, UpdatesOf(Service.Published(snaps, defs), Snapshots.KeyOf(s))))
  {
    hide IsCompileOne, From, Snapshots.KeyOf, Loads, Service.CompileEach, Service.Enabled, Service.Published;
    var us := UpdatesOf(Service.Published(snaps, defs), Snapshots.KeyOf(s));
    LoadsMore(c, seen, Definitions(defs), s, slot);
    forall i | 0 <= i < |us| && us[i].Replace? ensures From(c, seen + Definitions(defs), s, us[i].snapshot) {
      assert us[i] in us;
      PublishedFrom(c, compile, defs, snaps, s, us[i]);
      FromMore(c, seen, Definitions(defs), s, us[i].snapshot);
    }
    RunLoads(c, seen + Definitions(defs), s, slot, us);
  }

  /** The removal of scopes that no definition has. */
  lemma SweepingLoads(c: Compiling, seen: set<ContentPolicy>, s: PolicyScope, slot: Slot, present: bool)
    requires Loads(c, seen, s, slot)
    ensures Loads(c, seen, s, Service.Swept(slot, Snapshots.KeyOf(s), present))
  {
    hide From, Snapshots.KeyOf;
  }

  /** One reload, whatever the source returned. */
  lemma ReloadingLoads(c: Compiling, seen: set<ContentPolicy>, compile: Service.Compilation, scope: PolicyScope, expected: nat,
                       loaded: Result<Option<ContentPolicy>, Service.ReloadError>, s: PolicyScope, slot: Slot)
    requires IsCompileOne(c, compile) && Loads(c, seen, s, slot)
    requires Service.ReloadUpdate(scope, expected, loaded, compile).Ok?
    ensures Loads(c, seen + Seen(Service.ReloadStep(scope, expected, loaded)), s,
                  Filed(slot, s, Service.ReloadUpdate(scope, expected, loaded, compile).value))
  {
    hide Snapshots.KeyOf, IsCompileOne, Loads, Origin;
    var more := Seen(Service.ReloadStep(scope, expected, loaded));
    var u := Service.ReloadUpdate(scope, expected, loaded, compile).value;
    LoadsMore(c, seen, more, s, slot);
    if Snapshots.KeyOf(s) == Snapshots.KeyOf(u.Scope()) {
      if u.Replace? {
        var p := loaded.value.value;
        CompiledOrigin(c, compile, p);
        OriginOf(c, p, s, u.snapshot);
        assert p in seen + more;
      }
      AppliedLoads(c, seen + more, s, slot, u);
    }
  }

  // ---- Whole runs ---------------------------------------------------------------------------------------

  /** The definitions an operation reads. */
  function Seen(step: Service.RuntimeStep): set<ContentPolicy> {
    match step
    case BootstrapStep(loaded) => if loaded.Ok? then Definitions(loaded.value) else {}
    case ReloadStep(_, _, loaded) => if loaded.Ok? && loaded.value.Some? then {loaded.value.value} else {}
    case ReconcileStep(loaded) => if loaded.Ok? then Definitions(loaded.value) else {}
  }

  function AllSeen(steps: seq<Service.RuntimeStep>): set<ContentPolicy> {
    if steps == [] then {} else AllSeen(steps[..|steps| - 1]) + Seen(steps[|steps| - 1])
  }

  /** The slot of a scope after a run that starts from an empty store. */
  function SlotIn(steps: seq<Service.RuntimeStep>, compile: Service.Compilation, s: PolicyScope): Slot {
    if steps == [] then EMPTY_SLOT
    else Service.SlotAfter(SlotIn(steps[..|steps| - 1], compile, s), s, steps[|steps| - 1], compile)
  }

  /** Every operation keeps the origin of what is loaded. */
  lemma StepLoads(c: Compiling, seen: set<ContentPolicy>, compile: Service.Compilation, step: Service.RuntimeStep, s: PolicyScope, slot: Slot)
    requires IsCompileOne(c, compile) && Loads(c, seen, s, slot)
    ensures Loads(c, seen + Seen(step), s, Service.SlotAfter(slot, s, step, compile))
  {
    hide IsCompileOne, Loads, Snapshots.KeyOf, Service.CompileEach, Service.Enabled, Service.Published, Service.Swept, Service.ReloadUpdate,
      Filed, Run, UpdatesOf, Service.Present;
    LoadsMore(c, seen, Seen(step), s, slot);
    match step
    case BootstrapStep(loaded) =>
      if loaded.Ok? && Service.CompileEach(compile, Service.Enabled(loaded.value)).Ok? {
        PublishingLoads(c, seen, compile, loaded.value, Service.CompileEach(compile, Service.Enabled(loaded.value)).value, s, slot);
      }
    case ReloadStep(scope, expected, loaded) =>
      if Service.ReloadUpdate(scope, expected, loaded, compile).Ok? {
        ReloadingLoads(c, seen, compile, scope, expected, loaded, s, slot);
      }
    case ReconcileStep(loaded) =>
      if loaded.Ok? && Service.CompileEach(compile, Service.Enabled(loaded.value)).Ok? {
        var snaps := Service.CompileEach(compile, Service.Enabled(loaded.value)).value;
        PublishingLoads(c, seen, compile, loaded.value, snaps, s, slot);
        SweepingLoads(c, seen + Seen(step), s, Run(slot, UpdatesOf(Service.Published(snaps, loaded.value), Snapshots.KeyOf(s))),
                      Service.Present(loaded.value, Snapshots.KeyOf(s)));
      }
  }

  /** After any run every loaded snapshot is the compilation of a definition read for its own scope. */
  lemma {:induction false} EveryRunLoads(c: Compiling, compile: Service.Compilation, steps: seq<Service.RuntimeStep>, s: PolicyScope)
    requires IsCompileOne(c, compile)
    ensures Loads(c, AllSeen(steps), s, SlotIn(steps, compile, s))
  {
    hide IsCompileOne, From, Service.SlotAfter, Seen;
    if steps != [] {
      var n := |steps| - 1;
      EveryRunLoads(c, compile, steps[..n], s);
      StepLoads(c, AllSeen(steps[..n]), compile, steps[n], s, SlotIn(steps[..n], compile, s));
    }
  }

  // ---- What the engine reads ---------------------------------------------------------------------------

  /** A policy id belongs to one scope, as a database key. */
  ghost predicate IdsAreKeys(seen: set<ContentPolicy>) {
    forall p, q :: p in seen && q in seen && p.id == q.id ==> Snapshots.KeyOf(p.scope) == Snapshots.KeyOf(q.scope)
  }

  /** The servers' slots after a run, as the map the engine looks destinations up in. */
  ghost predicate ServersOf(steps: seq<Service.RuntimeStep>, compile: Service.Compilation, store: map<string, Snapshot>) {
    && (forall id :: id in store <==> SlotIn(steps, compile, PolicyScope(Server, id)).current.Some?)
    && (forall id :: id in store ==> Some(store[id]) == SlotIn(steps, compile, PolicyScope(Server, id)).current)
  }

  /** What validity needs beyond acceptance: one normalization, sane limits, and normal forms that can be stored. */
  ghost predicate TextsOk(c: Compiling, pipeline: PatternSyntax.Pipeline, seen: set<ContentPolicy>) {
    && Validation.OneNormalization(pipeline, c.text, c.t) && Validation.LimitsSmall(c.limits)
    && forall p :: p in seen ==> Validation.Storable(c.t, p)
  }

  ghost predicate ServerOrigin(c: Compiling, seen: set<ContentPolicy>, id: string, snap: Snapshot, p: ContentPolicy) {
    && p in seen && p.scope == PolicyScope(Server, id) && snap.policyId == p.id && snap.scope == p.scope
    && Compiled(c.t, Classified(c, p), snap)
  }

  lemma ServerFrom(c: Compiling, pipeline: PatternSyntax.Pipeline, seen: set<ContentPolicy>, id: string, snap: Snapshot) returns (p: ContentPolicy)
    requires From(c, seen, PolicyScope(Server, id), snap) && TextsOk(c, pipeline, seen)
    ensures ServerOrigin(c, seen, id, snap, p)
  {
    hide ValidPolicy, SurfacesCompiled, RulesOf, ProfileFingerprint, Validation.OneNormalization, Validation.LimitsSmall, Validation.Storable,
      Validation.Accepted;
    p :| p in seen && Origin(c, p, PolicyScope(Server, id), snap);
    Validation.ClassifiedIsValid(pipeline, c.text, c.limits, c.t, p);
  }

  /** The engine's hypotheses on its store hold of every store that a run of the runtime reaches. */
  lemma RuntimeStoreHolds(c: Compiling, pipeline: PatternSyntax.Pipeline, compile: Service.Compilation, steps: seq<Service.RuntimeStep>,
                          store: map<string, Snapshot>)
    returns (policies: map<string, ContentPolicy>)
    requires IsCompileOne(c, compile) && TextsOk(c, pipeline, AllSeen(steps)) && IdsAreKeys(AllSeen(steps)) && ServersOf(steps, compile, store)
    ensures StoreCompiled(c.t, store, policies) && IdsIdentify(store) && policies.Keys == store.Keys
    ensures forall id :: id in policies ==> exists p :: p in AllSeen(steps) && policies[id] == Classified(c, p)
  {
    hide IsCompileOne, TextsOk, Compiled, SlotIn, AllSeen, Classified, From;
    ghost var origins: map<string, ContentPolicy> := map[];
    var todo := store.Keys;
    while todo != {}
      invariant todo <= store.Keys && origins.Keys == store.Keys - todo
      invariant forall id :: id in origins ==> ServerOrigin(c, AllSeen(steps), id, store[id], origins[id])
      decreases todo
    {
      var id :| id in todo;
      EveryRunLoads(c, compile, steps, PolicyScope(Server, id));
      var p := ServerFrom(c, pipeline, AllSeen(steps), id, store[id]);
      origins := origins[id := p];
      todo := todo - {id};
    }
    policies := map id | id in origins :: Classified(c, origins[id]);
    OriginsIdentify(c, AllSeen(steps), store, origins);
  }

  lemma OriginsIdentify(c: Compiling, seen: set<ContentPolicy>, store: map<string, Snapshot>, origins: map<string, ContentPolicy>)
    requires IdsAreKeys(seen) && origins.Keys == store.Keys
    requires forall id :: id in origins ==> ServerOrigin(c, seen, id, store[id], origins[id])
    ensures IdsIdentify(store) && StoreCompiled(c.t, store, map id | id in origins :: Classified(c, origins[id]))
  {
    hide Compiled, Classified;
    forall x, y | x in store && y in store && store[x].policyId == store[y].policyId ensures store[x] == store[y] {
      assert ServerOrigin(c, seen, x, store[x], origins[x]) && ServerOrigin(c, seen, y, store[y], origins[y]);
    }
  }
}
