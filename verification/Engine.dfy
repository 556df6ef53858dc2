/**
 * engine.rs: `evaluate_server_destinations` groups destinations by profile
 * fingerprint, evaluates one representative per group, and re-attributes its
 * result to the other members. Where policies with one fingerprint agree on
 * security texts it refines deciding every destination alone.
 */
module Engine {
  import opened Wrappers
  import opened Sorting
  import opened PolicyModel
  import opened TextTables
  import opened ByteEncoding
  import opened Fingerprint
  import opened Resolver
  import opened Layers
  import opened Compiler
  import opened Evaluation
  import opened TwoPass
  import opened Censoring
  import opened Delivery
  import opened Remapping
  import opened Rendering
  import opened Fitting

  datatype Destination = Destination(targetIndex: nat, serverId: string)

  datatype DestinationDecision = DestinationDecision(
    targetIndex: nat, serverId: string, policyId: Option<Uuid>, policyVersion: Option<nat>,
    matchedRuleIds: seq<Uuid>, blockedBy: seq<Attribution>, variantFingerprint: Option<seq<Byte>>)

  datatype EvaluationError = Match(match_: PolicyMatchError) | Transform(transform: TransformationError)

  /** What one call sees; the store does not change during it. */
  datatype World = World(
    t: Tables, analyzed: Analyzed, presentation: Presentation, shared: DeliveryEffects, store: map<string, Snapshot>)

  /**
   * Snapshots are compiled from validated SERVER policies, a policy id
   * identifies its snapshot, and policies with one fingerprint reach the same
   * texts in the security view.
   */
  ghost predicate WorldOk(w: World, policies: map<string, ContentPolicy>) {
    && AnalyzedOk(w.analyzed) && !w.shared.IsBlocked()
    && StoreCompiled(w.t, w.store, policies) && IdsIdentify(w.store) && ProfilesAgree(w.t, w.store, policies)
  }

  ghost predicate StoreCompiled(t: Tables, store: map<string, Snapshot>, policies: map<string, ContentPolicy>) {
    forall s :: s in store ==> s in policies && Compiled(t, policies[s], store[s]) && store[s].scope.authority == Server
  }

  ghost predicate IdsIdentify(store: map<string, Snapshot>) {
    forall s, s' :: s in store && s' in store && store[s].policyId == store[s'].policyId ==> store[s] == store[s']
  }

  ghost predicate ProfilesAgree(t: Tables, store: map<string, Snapshot>, policies: map<string, ContentPolicy>) {
    forall s, s' :: (s in store && s' in store && s in policies && s' in policies
                     && store[s].profileFingerprint == store[s'].profileFingerprint)
      ==> AgreeOnSecurity(t, policies[s], policies[s'])
  }

  // ---- Deciding one destination alone ----------------------------------------------

  datatype Outcome = Outcome(decision: DestinationDecision, variant: Option<DeliveryVariant>)

  /** The decision for a destination with a policy, from its resolved layer and the variant it would get. */
  function Decided(snap: Snapshot, d: Destination, local: ResolvedScope, variant: Option<seq<Byte>>): DestinationDecision {
    DestinationDecision(d.targetIndex, d.serverId, Some(snap.policyId), Some(snap.version), RuleIds(local.matchedRules),
                        if local.delivery.IsBlocked() then local.delivery.blockedBy else [],
                        if local.delivery.IsBlocked() then None else variant)
  }

  function Undecided(d: Destination, variant: seq<Byte>): DestinationDecision {
    DestinationDecision(d.targetIndex, d.serverId, None, None, [], [], Some(variant))
  }

  /** The outcome given the composed effects that the variant is made from. */
  ghost function OutcomeUnder(w: World, composed: DeliveryEffects, snap: Snapshot, d: Destination, local: ResolvedScope):
    Result<Outcome, EvaluationError>
  {
    if composed.IsBlocked() then Ok(Outcome(Decided(snap, d, local, None), None))
    else
      match Materialized(w.presentation, composed)
      case Err(e) => Err(Transform(e))
      case Ok(v) => Ok(Outcome(Decided(snap, d, local, Some(v.fingerprint)), Some(v)))
  }

  ghost function LocalScope(w: World, snap: Snapshot): ResolvedScope
    requires AnalyzedOk(w.analyzed)
  {
    Resolved(snap.scope, Evaluated(w.t, w.analyzed, snap, false))
  }

  /** The naive evaluation of one destination: its own policy matched, resolved, composed and materialized. */
  ghost function DecideAlone(w: World, d: Destination): Result<Outcome, EvaluationError>
    requires AnalyzedOk(w.analyzed)
  {
    if d.serverId in w.store then
      var snap := w.store[d.serverId];
      var local := LocalScope(w, snap);
      OutcomeUnder(w, Composed([w.shared, local.delivery]), snap, d, local)
    else
      match Materialized(w.presentation, w.shared)
      case Err(e) => Err(Transform(e))
      case Ok(v) => Ok(Outcome(Undecided(d, v.fingerprint), Some(v)))
  }

  /** On an analyzed message, with shared effects that fit it, no destination meets an error. */
  ghost predicate WorldFits(w: World) {
    AnalyzedFrom(w.analyzed, w.presentation) && FittingEffects(w.presentation, w.shared)
  }

  lemma OutcomeFits(w: World, e: DeliveryEffects, snap: Snapshot, d: Destination, local: ResolvedScope)
    requires FittingEffects(w.presentation, e) && AllValid(w.presentation.messageContent, w.presentation.urlSpans)
    ensures OutcomeUnder(w, e, snap, d, local).Ok?
  {
    hide Materialized, FittingEffects, AllValid;
    FittingMaterializes(w.presentation, e);
  }

  /** An analyzed message is delivered or blocked: no destination decided alone meets a transformation error. */
  lemma AnalyzedNeverFails(w: World, d: Destination)
    requires AnalyzedOk(w.analyzed) && WorldFits(w)
    ensures DecideAlone(w, d).Ok?
  {
    hide AnalyzedOk, FittingEffects, Evaluated, Resolved, Composed, Materialized, OutcomeUnder, AllValid;
    if d.serverId in w.store {
      var snap := w.store[d.serverId];
      LayerFits(w.t, w.analyzed, w.presentation, snap);
      var layers := [w.shared, LocalScope(w, snap).delivery];
      ComposedFits(w.presentation, layers);
      OutcomeFits(w, Composed(layers), snap, d, LocalScope(w, snap));
    } else {
      FittingMaterializes(w.presentation, w.shared);
    }
  }

  lemma NoneFails(w: World)
    requires AnalyzedOk(w.analyzed) && WorldFits(w)
    ensures forall d :: DecideAlone(w, d).Ok?
  {
    hide AnalyzedOk, WorldFits, DecideAlone;
    forall d ensures DecideAlone(w, d).Ok? {
      AnalyzedNeverFails(w, d);
    }
  }

  // ---- One group -----------------------------------------------------------------------

  /** The matches a member of the representative's group is given. */
  function LocalMatches(representative: Snapshot, matches: seq<MatchedRule>, snap: Snapshot): Result<seq<MatchedRule>, PolicyMatchError> {
    if snap.policyId == representative.policyId then Ok(matches) else RemapEquivalentMatches(snap, matches)
  }

  /** Deciding a destination from the matches and the effects of a representative `r` of its profile group. */
  ghost function DecideThrough(w: World, r: string, d: Destination): Result<Outcome, EvaluationError>
    requires AnalyzedOk(w.analyzed) && r in w.store && d.serverId in w.store
  {
    var snap := w.store[d.serverId];
    match LocalMatches(w.store[r], Evaluated(w.t, w.analyzed, w.store[r], false), snap)
    case Err(e) => Err(Match(e))
    case Ok(matches) =>
      OutcomeUnder(w, Composed([w.shared, LocalScope(w, w.store[r]).delivery]), snap, d, Resolved(snap.scope, matches))
  }

  ghost predicate SameClass(w: World, policies: map<string, ContentPolicy>, r: string, s: string) {
    && WorldOk(w, policies) && r in w.store && s in w.store
    && w.store[r].profileFingerprint == w.store[s].profileFingerprint
  }

  lemma ClassIsGroup(w: World, policies: map<string, ContentPolicy>, r: string, s: string)
    requires SameClass(w, policies, r, s)
    ensures AnalyzedOk(w.analyzed) && r in w.store && s in w.store
    ensures w.store[r].policyId == w.store[s].policyId ==> w.store[r] == w.store[s]
    ensures r in policies && s in policies && SameGroup(w.t, policies[r], policies[s], w.store[r], w.store[s])
    ensures w.store[r].scope.authority != Global && w.store[s].scope.authority != Global
  {
    hide Compiled, AgreeOnSecurity, AnalyzedOk;
  }

  /** The member's layer, as resolved from the representative's matches, is the member's own. */
  lemma MemberResolves(w: World, policies: map<string, ContentPolicy>, r: string, s: string)
    requires SameClass(w, policies, r, s)
    ensures var m := LocalMatches(w.store[r], Evaluated(w.t, w.analyzed, w.store[r], false), w.store[s]);
      && m.Ok?
      && Resolved(w.store[s].scope, m.value).delivery == LocalScope(w, w.store[s]).delivery
      && RuleIds(Resolved(w.store[s].scope, m.value).matchedRules) == RuleIds(LocalScope(w, w.store[s]).matchedRules)
  {
    hide SameClass, SameGroup, Compiled, AgreeOnSecurity, AnalyzedOk, Evaluated, RemapEquivalentMatches, Resolved, Sort, WithoutIds;
    ClassIsGroup(w, policies, r, s);
    var sp, sq := w.store[r], w.store[s];
    if sq.policyId != sp.policyId {
      RemapIsEvaluation(w.t, w.analyzed, policies[r], policies[s], sp, sq);
      ResolvingIgnoresIds(sq.scope, RemapEquivalentMatches(sq, Evaluated(w.t, w.analyzed, sp, false)).value,
                          Evaluated(w.t, w.analyzed, sq, false));
    }
  }

  /** A member decided through its representative is decided as it would be alone. */
  lemma MemberDecides(w: World, policies: map<string, ContentPolicy>, r: string, d: Destination)
    requires SameClass(w, policies, r, d.serverId)
    ensures AnalyzedOk(w.analyzed) && r in w.store && d.serverId in w.store && DecideThrough(w, r, d) == DecideAlone(w, d)
  {
    hide SameClass, SameGroup, AnalyzedOk, Evaluated, RemapEquivalentMatches, Resolved, Composed, SameRendering,
      Materialized, RuleIds, LocalMatches, OutcomeUnder, DeliveryEffects.IsBlocked;
    var s := d.serverId;
    ClassIsGroup(w, policies, r, s);
    MemberResolves(w, policies, r, s);
    GroupRendersAlike(w.t, w.analyzed, policies[r], policies[s], w.store[r], w.store[s], w.shared);
    var e := Composed([w.shared, LocalScope(w, w.store[r]).delivery]);
    var f := Composed([w.shared, LocalScope(w, w.store[s]).delivery]);
    SameVariant(w, e, f);
    OutcomesAgree(w, e, f, w.store[s], d,
      Resolved(w.store[s].scope, LocalMatches(w.store[r], Evaluated(w.t, w.analyzed, w.store[r], false), w.store[s]).value),
      LocalScope(w, w.store[s]));
  }

  lemma OutcomesAgree(w: World, e: DeliveryEffects, f: DeliveryEffects, snap: Snapshot, d: Destination, x: ResolvedScope, y: ResolvedScope)
    requires e.IsBlocked() == f.IsBlocked() && Materialized(w.presentation, e) == Materialized(w.presentation, f)
    requires x.delivery == y.delivery && RuleIds(x.matchedRules) == RuleIds(y.matchedRules)
    ensures OutcomeUnder(w, e, snap, d, x) == OutcomeUnder(w, f, snap, d, y)
  {
    hide Materialized, RuleIds, DeliveryEffects.IsBlocked;
  }

  lemma SameVariant(w: World, e: DeliveryEffects, f: DeliveryEffects)
    requires SameRendering(e, f)
    ensures Materialized(w.presentation, e) == Materialized(w.presentation, f)
  {
    SameRenderingSameVariant(w.presentation, e, f);
  }

  // ---- Grouping by profile -----------------------------------------------------------

  /** The profile fingerprint of a destination, if its server has a policy. */
  function ClassOf(store: map<string, Snapshot>, d: Destination): Option<seq<Byte>> {
    if d.serverId in store then Some(store[d.serverId].profileFingerprint) else None
  }

  /** The destinations of one class, in order. */
  function InClass(store: map<string, Snapshot>, ds: seq<Destination>, c: Option<seq<Byte>>): seq<Destination> {
    if ds == [] then []
    else
      var n := |ds| - 1;
      InClass(store, ds[..n], c) + (if ClassOf(store, ds[n]) == c then [ds[n]] else [])
  }

  lemma {:induction false} ClassCount(store: map<string, Snapshot>, ds: seq<Destination>, c: Option<seq<Byte>>, d: Destination)
    ensures multiset(InClass(store, ds, c))[d] == if ClassOf(store, d) == c then multiset(ds)[d] else 0
  {
    hide ClassOf;
    if ds != [] {
      ClassCount(store, ds[..|ds| - 1], c, d);
      ClassCountLast(store, ds, c, d);
    }
  }

  lemma ClassCountLast(store: map<string, Snapshot>, ds: seq<Destination>, c: Option<seq<Byte>>, d: Destination)
    requires ds != []
    ensures var front, last := ds[..|ds| - 1], ds[|ds| - 1];
      && multiset(ds)[d] == multiset(front)[d] + (if last == d then 1 else 0)
      && multiset(InClass(store, ds, c))[d]
         == multiset(InClass(store, front, c))[d] + (if last == d && ClassOf(store, last) == c then 1 else 0)
  {
    hide ClassOf;
    var front, last := ds[..|ds| - 1], ds[|ds| - 1];
    CountAppend(front, last, d);
    assert ds == front + [last];
    if ClassOf(store, last) == c {
      CountAppend(InClass(store, front, c), last, d);
    } else {
      assert InClass(store, front, c) + [] == InClass(store, front, c);
    }
  }

  lemma CountAppend<T>(s: seq<T>, x: T, d: T)
    ensures multiset(s + [x])[d] == multiset(s)[d] + if x == d then 1 else 0
  {
  }

  lemma ClassMembers(store: map<string, Snapshot>, ds: seq<Destination>, c: Option<seq<Byte>>)
    ensures forall d :: d in InClass(store, ds, c) <==> d in ds && ClassOf(store, d) == c
  {
    forall d ensures d in InClass(store, ds, c) <==> d in ds && ClassOf(store, d) == c {
      ClassCount(store, ds, c, d);
      assert d in InClass(store, ds, c) <==> multiset(InClass(store, ds, c))[d] > 0;
      assert d in ds <==> multiset(ds)[d] > 0;
    }
  }

  ghost predicate Partitioned(store: map<string, Snapshot>, ds: seq<Destination>, profiles: map<seq<Byte>, seq<Destination>>, without: seq<Destination>) {
    && without == InClass(store, ds, None)
    && (forall f :: f in profiles <==> InClass(store, ds, Some(f)) != [])
    && (forall f :: f in profiles ==> profiles[f] == InClass(store, ds, Some(f)))
  }

  method Partition(store: map<string, Snapshot>, ds: seq<Destination>)
    returns (profiles: map<seq<Byte>, seq<Destination>>, without: seq<Destination>)
    ensures Partitioned(store, ds, profiles, without)
  {
    profiles, without := map[], [];
    for n := 0 to |ds|
      invariant Partitioned(store, ds[..n], profiles, without)
    {
      var d := ds[n];
      assert ds[..n + 1][..n] == ds[..n];
      ghost var before := profiles;
      if d.serverId in store {
        var f := store[d.serverId].profileFingerprint;
        profiles := profiles[f := (if f in profiles then profiles[f] else []) + [d]];
      } else {
        without := without + [d];
      }
      forall c ensures InClass(store, ds[..n + 1], c)
        == InClass(store, ds[..n], c) + (if ClassOf(store, d) == c then [d] else [])
      {
      }
    }
    assert ds[..|ds|] == ds;
  }

  // ---- Decisions, however they are made ------------------------------------------------------

  /** A way to decide destinations. */
  type Decider = Destination -> Result<Outcome, EvaluationError>

  /** Every destination by itself. */
  ghost function Alone(w: World): Decider
    requires AnalyzedOk(w.analyzed)
  {
    (d: Destination) => DecideAlone(w, d)
  }

  /** The server that represents a destination's profile group: that of the group's first destination. */
  ghost function Representative(w: World, ds: seq<Destination>, d: Destination): (r: Option<string>)
    ensures r.Some? ==> r.value in w.store && d.serverId in w.store
  {
    if d.serverId !in w.store then None
    else
      var members := InClass(w.store, ds, ClassOf(w.store, d));
      if members != [] && members[0].serverId in w.store then Some(members[0].serverId) else None
  }

  /** Every destination through the representative of its group among `ds`. */
  ghost function DecideGrouped(w: World, ds: seq<Destination>, d: Destination): Result<Outcome, EvaluationError>
    requires AnalyzedOk(w.analyzed)
  {
    var r := Representative(w, ds, d);
    if r.Some? then DecideThrough(w, r.value, d) else DecideAlone(w, d)
  }

  ghost function Grouped(w: World, ds: seq<Destination>): Decider
    requires AnalyzedOk(w.analyzed)
  {
    (d: Destination) => DecideGrouped(w, ds, d)
  }

  ghost function DecisionOf(g: Decider, d: Destination): DestinationDecision {
    if g(d).Ok? then g(d).value.decision else Undecided(d, [])
  }

  ghost function Deciding(g: Decider): Destination -> DestinationDecision { (d: Destination) => DecisionOf(g, d) }

  ghost predicate AllDecided(g: Decider, ds: seq<Destination>) { forall d :: d in ds ==> g(d).Ok? }

  ghost predicate GetsVariant(g: Decider, d: Destination, v: DeliveryVariant) { g(d).Ok? && g(d).value.variant == Some(v) }

  /** The collected variants: keyed by fingerprint, exactly those the decided destinations need. */
  ghost predicate VariantsOf(g: Decider, ds: seq<Destination>, variants: map<seq<Byte>, DeliveryVariant>) {
    && (forall d, v :: d in ds && GetsVariant(g, d, v) ==> v.fingerprint in variants)
    && (forall f :: f in variants ==> variants[f].fingerprint == f && exists d :: d in ds && GetsVariant(g, d, variants[f]))
  }

  predicate ByTarget(a: DestinationDecision, b: DestinationDecision) { a.targetIndex <= b.targetIndex }

  /** What fan-out returns: every decision once, by target index, with exactly the variants they need. */
  ghost predicate Returned(g: Decider, ds: seq<Destination>, decisions: seq<DestinationDecision>, variants: map<seq<Byte>, DeliveryVariant>) {
    && AllDecided(g, ds) && Sorted(decisions, ByTarget) && multiset(decisions) == multiset(MapSeq(Deciding(g), ds))
    && VariantsOf(g, ds, variants)
  }

  /** Some destination meets the error. */
  ghost predicate Fails(g: Decider, ds: seq<Destination>, e: EvaluationError) {
    exists d :: d in ds && g(d) == Err(e)
  }

  /** The state of the method after the destinations `done`. */
  ghost predicate Progress(g: Decider, done: seq<Destination>, decisions: seq<DestinationDecision>, variants: map<seq<Byte>, DeliveryVariant>) {
    AllDecided(g, done) && decisions == MapSeq(Deciding(g), done) && VariantsOf(g, done, variants)
  }

  lemma ProgressExtends(g: Decider, done: seq<Destination>, decisions: seq<DestinationDecision>, variants: map<seq<Byte>, DeliveryVariant>,
                        more: seq<Destination>, added: seq<DestinationDecision>, variants': map<seq<Byte>, DeliveryVariant>)
    requires Progress(g, done, decisions, variants)
    requires AllDecided(g, more) && added == MapSeq(Deciding(g), more)
    requires forall d, v :: d in more && GetsVariant(g, d, v) ==> v.fingerprint in variants'
    requires forall f :: f in variants ==> f in variants' && variants'[f] == variants[f]
    requires forall f :: f in variants' ==>
      f in variants || (variants'[f].fingerprint == f && exists d :: d in more && GetsVariant(g, d, variants'[f]))
    ensures Progress(g, done + more, decisions + added, variants')
  {
    hide GetsVariant, DecisionOf;
    MapAppend(Deciding(g), done, more);
    forall f | f in variants' ensures variants'[f].fingerprint == f && exists d :: d in done + more && GetsVariant(g, d, variants'[f]) {
      if f in variants {
        var d :| d in done && GetsVariant(g, d, variants[f]);
        assert d in done + more;
      } else {
        var d :| d in more && GetsVariant(g, d, variants'[f]);
        assert d in done + more;
      }
    }
  }

  // ---- The method -----------------------------------------------------------------------

  /** The variant made for a group, if its composed effects are not blocked. */
  ghost predicate GroupVariant(w: World, composed: DeliveryEffects, variant: Option<DeliveryVariant>) {
    if composed.IsBlocked() then variant == None
    else Materialized(w.presentation, composed).Ok? && variant == Some(Materialized(w.presentation, composed).value)
  }

  ghost function GroupEffects(w: World, r: string): DeliveryEffects
    requires AnalyzedOk(w.analyzed) && r in w.store
  {
    Composed([w.shared, LocalScope(w, w.store[r]).delivery])
  }

  function FingerprintIn(v: Option<DeliveryVariant>): Option<seq<Byte>> {
    if v.Some? then Some(v.value.fingerprint) else None
  }

  lemma OutcomeWithVariant(w: World, composed: DeliveryEffects, variant: Option<DeliveryVariant>, snap: Snapshot, d: Destination, local: ResolvedScope)
    requires GroupVariant(w, composed, variant)
    ensures OutcomeUnder(w, composed, snap, d, local) == Ok(Outcome(Decided(snap, d, local, FingerprintIn(variant)), variant))
  {
    hide Materialized, RuleIds, DeliveryEffects.IsBlocked;
  }

  /** The loop body over a group's members. */
  method DecideMember(w: World, r: string, matches: seq<MatchedRule>,
                      ghost variant: Option<DeliveryVariant>, fingerprint: Option<seq<Byte>>, d: Destination)
    returns (decision: Result<DestinationDecision, EvaluationError>)
    requires AnalyzedOk(w.analyzed) && r in w.store && d.serverId in w.store
    requires matches == Evaluated(w.t, w.analyzed, w.store[r], false)
    requires GroupVariant(w, GroupEffects(w, r), variant) && fingerprint == FingerprintIn(variant)
    ensures decision.Ok? ==> DecideThrough(w, r, d) == Ok(Outcome(decision.value, variant))
    ensures decision.Err? ==> DecideThrough(w, r, d) == Err(decision.error)
  {
    hide AnalyzedOk, Evaluated, RemapEquivalentMatches, Resolved, Composed, Materialized, RuleIds, OutcomeUnder, GroupVariant, LocalScope;
    var snap := w.store[d.serverId];
    var local := LocalMatches(w.store[r], matches, snap);
    if local.Err? {
      return Err(Match(local.error));
    }
    var scope := ResolveScope(snap.scope, local.value);
    OutcomeWithVariant(w, GroupEffects(w, r), variant, snap, d, scope);
    decision := Ok(Decided(snap, d, scope, fingerprint));
  }

  /** All of `members` are decided by `decisions`, and get `variant`. */
  ghost predicate DecidedWith(g: Decider, members: seq<Destination>, variant: Option<DeliveryVariant>, decisions: seq<DestinationDecision>) {
    && |decisions| == |members|
    && forall i :: 0 <= i < |members| ==> g(members[i]) == Ok(Outcome(decisions[i], variant))
  }

  /** The decider sends every member of the group through `r`. */
  ghost predicate Through(w: World, g: Decider, r: string, members: seq<Destination>)
    requires AnalyzedOk(w.analyzed) && r in w.store
  {
    forall d :: d in members ==> d.serverId in w.store && g(d) == DecideThrough(w, r, d)
  }

  /** The decider sends every member through the first one's server. */
  ghost predicate ThroughFirst(w: World, g: Decider, members: seq<Destination>)
    requires AnalyzedOk(w.analyzed)
  {
    members != [] && members[0].serverId in w.store && Through(w, g, members[0].serverId, members)
  }

  method DecideMembers(w: World, ghost g: Decider, r: string, matches: seq<MatchedRule>,
                       ghost variant: Option<DeliveryVariant>, fingerprint: Option<seq<Byte>>, members: seq<Destination>)
    returns (decisions: Result<seq<DestinationDecision>, EvaluationError>)
    requires AnalyzedOk(w.analyzed) && r in w.store && Through(w, g, r, members)
    requires matches == Evaluated(w.t, w.analyzed, w.store[r], false)
    requires GroupVariant(w, GroupEffects(w, r), variant) && fingerprint == FingerprintIn(variant)
    ensures decisions.Ok? ==> DecidedWith(g, members, variant, decisions.value)
    ensures decisions.Err? ==> Fails(g, members, decisions.error)
  {
    hide AnalyzedOk, Evaluated, GroupEffects, GroupVariant, DecideThrough;
    var out := [];
    for n := 0 to |members|
      invariant |out| == n
      invariant forall i :: 0 <= i < n ==> g(members[i]) == Ok(Outcome(out[i], variant))
    {
      assert members[n] in members;
      var decision := DecideMember(w, r, matches, variant, fingerprint, members[n]);
      if decision.Err? {
        return Err(decision.error);
      }
      out := out + [decision.value];
    }
    decisions := Ok(out);
  }

  /** What deciding some destinations adds: their decisions, and at most their variant. */
  ghost predicate Adds(g: Decider, members: seq<Destination>, variants: map<seq<Byte>, DeliveryVariant>,
                       added: seq<DestinationDecision>, variants': map<seq<Byte>, DeliveryVariant>)
  {
    exists variant :: DecidedWith(g, members, variant, added) && variants' == InsertVariant(variants, variant)
  }

  /** `entry(fingerprint).or_insert(variant)`. */
  function InsertVariant(variants: map<seq<Byte>, DeliveryVariant>, variant: Option<DeliveryVariant>): map<seq<Byte>, DeliveryVariant> {
    if variant.None? || variant.value.fingerprint in variants then variants
    else variants[variant.value.fingerprint := variant.value]
  }

  /** Every snapshot in the store was compiled from the policy of its server. */
  ghost predicate Evaluable(w: World, policies: map<string, ContentPolicy>) {
    forall s :: s in w.store ==> s in policies && CompiledFrom(w.t, policies[s], false, w.store[s])
  }

  lemma WorldEvaluable(w: World, policies: map<string, ContentPolicy>)
    requires WorldOk(w, policies)
    ensures Evaluable(w, policies)
  {
    hide CompiledFrom, AnalyzedOk, ProfilesAgree, IdsIdentify;
  }

  /** The representative's matches, and the variant of its composed effects. */
  method EvaluateRepresentative(w: World, ghost policy: ContentPolicy, r: string)
    returns (matches: seq<MatchedRule>, variant: Result<Option<DeliveryVariant>, TransformationError>)
    requires AnalyzedOk(w.analyzed) && r in w.store && CompiledFrom(w.t, policy, false, w.store[r])
    ensures matches == Evaluated(w.t, w.analyzed, w.store[r], false)
    ensures variant.Ok? ==> GroupVariant(w, GroupEffects(w, r), variant.value)
    ensures variant.Err? ==>
      !GroupEffects(w, r).IsBlocked() && Materialized(w.presentation, GroupEffects(w, r)) == Err(variant.error)
  {
    hide AnalyzedOk, CompiledFrom, Evaluated, Resolved, Composed, Materialized, DeliveryEffects.IsBlocked;
    var representative := w.store[r];
    var evaluated := EvaluateNormalized(w.t, w.analyzed, representative, policy, false);
    matches := evaluated.value;
    var scope := ResolveScope(representative.scope, matches);
    var composed := ComposeDelivery([w.shared, scope.delivery]);
    if composed.IsBlocked() {
      variant := Ok(None);
    } else {
      var v := MaterializeVariant(w.presentation, composed);
      variant := if v.Err? then Err(v.error) else Ok(Some(v.value));
    }
  }

  /** One iteration of the loop over profiles. */
  method DecideGroup(w: World, ghost policies: map<string, ContentPolicy>, ghost g: Decider, members: seq<Destination>,
                     variants: map<seq<Byte>, DeliveryVariant>)
    returns (out: Result<(seq<DestinationDecision>, map<seq<Byte>, DeliveryVariant>), EvaluationError>)
    requires AnalyzedOk(w.analyzed) && Evaluable(w, policies) && ThroughFirst(w, g, members)
    ensures out.Ok? ==> Adds(g, members, variants, out.value.0, out.value.1)
    ensures out.Err? ==> Fails(g, members, out.error)
  {
    hide Evaluated, CompiledFrom, GroupEffects, AnalyzedOk, DecidedWith, InsertVariant, FingerprintIn, DecideThrough, GroupVariant,
      Materialized, DeliveryEffects.IsBlocked;
    var r := members[0].serverId;
    assert members[0] in members;
    var matches, made := EvaluateRepresentative(w, policies[r], r);
    if made.Err? {
      RepresentativeFails(w, members[0], made.error);
      return Err(Transform(made.error));
    }
    var decisions := DecideMembers(w, g, r, matches, made.value, FingerprintIn(made.value), members);
    if decisions.Err? {
      return Err(decisions.error);
    }
    assert DecidedWith(g, members, made.value, decisions.value);
    out := Ok((decisions.value, InsertVariant(variants, made.value)));
  }

  lemma RepresentativeFails(w: World, d: Destination, e: TransformationError)
    requires AnalyzedOk(w.analyzed) && d.serverId in w.store
    requires !GroupEffects(w, d.serverId).IsBlocked() && Materialized(w.presentation, GroupEffects(w, d.serverId)) == Err(e)
    ensures DecideThrough(w, d.serverId, d) == Err(Transform(e))
  {
    hide Materialized, Composed, DeliveryEffects.IsBlocked, Resolved, RemapEquivalentMatches;
  }

  /** The destinations without a policy share the shared effects' variant. */
  method DecideWithout(w: World, ghost g: Decider, without: seq<Destination>)
    returns (out: Result<(seq<DestinationDecision>, map<seq<Byte>, DeliveryVariant>), EvaluationError>)
    requires AnalyzedOk(w.analyzed) && without != []
    requires forall d :: d in without ==> d.serverId !in w.store && g(d) == DecideAlone(w, d)
    ensures out.Ok? ==> Adds(g, without, map[], out.value.0, out.value.1)
    ensures out.Err? ==> Fails(g, without, out.error)
  {
    hide Materialized, AnalyzedOk, OutcomeUnder, LocalScope;
    assert without[0] in without;
    var v := MaterializeVariant(w.presentation, w.shared);
    if v.Err? {
      return Err(Transform(v.error));
    }
    var decisions := MapSeq((d: Destination) => Undecided(d, v.value.fingerprint), without);
    forall i | 0 <= i < |without| ensures g(without[i]) == Ok(Outcome(decisions[i], Some(v.value))) {
      assert without[i] in without;
    }
    assert DecidedWith(g, without, Some(v.value), decisions);
    out := Ok((decisions, InsertVariant(map[], Some(v.value))));
  }

  lemma AddsProgress(g: Decider, done: seq<Destination>, decisions: seq<DestinationDecision>, variants: map<seq<Byte>, DeliveryVariant>,
                     members: seq<Destination>, added: seq<DestinationDecision>, variants': map<seq<Byte>, DeliveryVariant>)
    requires Progress(g, done, decisions, variants) && members != []
    requires Adds(g, members, variants, added, variants')
    ensures Progress(g, done + members, decisions + added, variants')
  {
    hide DecisionOf, DecidedWith, Progress;
    var variant :| DecidedWith(g, members, variant, added) && variants' == InsertVariant(variants, variant);
    MembersShare(g, members, variant, added);
    MembersDecide(g, members, variant, added);
    if variant.Some? {
      assert members[0] in members && GetsVariant(g, members[0], variant.value);
    }
    ProgressExtends(g, done, decisions, variants, members, added, variants');
  }

  lemma MembersShare(g: Decider, members: seq<Destination>, variant: Option<DeliveryVariant>, added: seq<DestinationDecision>)
    requires DecidedWith(g, members, variant, added)
    ensures forall d :: d in members ==> g(d).Ok? && g(d).value.variant == variant
  {
    forall d | d in members ensures g(d).Ok? && g(d).value.variant == variant {
      var i :| 0 <= i < |members| && members[i] == d;
    }
  }

  lemma MembersDecide(g: Decider, members: seq<Destination>, variant: Option<DeliveryVariant>, added: seq<DestinationDecision>)
    requires DecidedWith(g, members, variant, added)
    ensures added == MapSeq(Deciding(g), members)
  {
  }

  lemma FingerprintOfAlone(w: World, d: Destination, v: DeliveryVariant)
    requires AnalyzedOk(w.analyzed) && GetsVariant(Alone(w), d, v)
    ensures v.fingerprint == FingerprintOf(v)
  {
    hide LocalScope, Composed, DeliveryEffects.IsBlocked, Materialized, AnalyzedOk;
    if d.serverId in w.store {
      var e := Composed([w.shared, LocalScope(w, w.store[d.serverId]).delivery]);
      MaterializedFingerprint(w.presentation, e);
    } else {
      MaterializedFingerprint(w.presentation, w.shared);
    }
  }

  /** Which destinations have been decided once the classes outside `remaining` are. */
  ghost predicate ClassesDone(store: map<string, Snapshot>, ds: seq<Destination>, remaining: set<seq<Byte>>, done: seq<Destination>) {
    forall d :: multiset(done)[d] == (if ClassOf(store, d).Some? && ClassOf(store, d).value in remaining then 0 else multiset(ds)[d])
  }

  lemma ClassDone(store: map<string, Snapshot>, ds: seq<Destination>, remaining: set<seq<Byte>>, done: seq<Destination>, f: seq<Byte>)
    requires ClassesDone(store, ds, remaining, done) && f in remaining
    ensures ClassesDone(store, ds, remaining - {f}, done + InClass(store, ds, Some(f)))
  {
    hide ClassOf;
    forall d {
      ClassCount(store, ds, Some(f), d);
    }
  }

  lemma NoClassDone(store: map<string, Snapshot>, ds: seq<Destination>, profiles: map<seq<Byte>, seq<Destination>>, without: seq<Destination>)
    requires Partitioned(store, ds, profiles, without)
    ensures ClassesDone(store, ds, profiles.Keys, without)
  {
    forall d ensures multiset(without)[d] == if ClassOf(store, d).Some? && ClassOf(store, d).value in profiles.Keys then 0 else multiset(ds)[d] {
      ClassCount(store, ds, None, d);
      if ClassOf(store, d).Some? && ClassOf(store, d).value !in profiles {
        ClassCount(store, ds, ClassOf(store, d), d);
      }
    }
  }

  lemma AllClassesDone(store: map<string, Snapshot>, ds: seq<Destination>, done: seq<Destination>)
    requires ClassesDone(store, ds, {}, done)
    ensures multiset(done) == multiset(ds)
  {
    hide ClassOf;
  }

  /** A group's members are those the grouped decider sends through its first member's server. */
  lemma GroupMembers(w: World, ds: seq<Destination>, f: seq<Byte>)
    requires AnalyzedOk(w.analyzed) && InClass(w.store, ds, Some(f)) != []
    ensures ThroughFirst(w, Grouped(w, ds), InClass(w.store, ds, Some(f)))
    ensures forall d :: d in InClass(w.store, ds, Some(f)) ==> d in ds
  {
    hide InClass, AnalyzedOk, DecideThrough;
    ClassMembers(w.store, ds, Some(f));
    var members := InClass(w.store, ds, Some(f));
    assert members[0] in members;
  }

  lemma ProgressMoves(g: Decider, done: seq<Destination>, ds: seq<Destination>, decisions: seq<DestinationDecision>, variants: map<seq<Byte>, DeliveryVariant>)
    requires multiset(done) == multiset(ds) && Progress(g, done, decisions, variants)
    ensures Returned(g, ds, Sort(decisions, ByTarget), variants)
  {
    hide DecisionOf, GetsVariant, Sort;
    forall d ensures d in ds <==> d in done {
      assert d in ds <==> d in multiset(ds);
      assert d in done <==> d in multiset(done);
    }
    MapMultiset(Deciding(g), done, ds);
    SortCorrect(decisions, ByTarget);
  }

  /** The distinct profiles among the destinations. */
  ghost function Profiles(store: map<string, Snapshot>, ds: seq<Destination>): set<seq<Byte>> {
    set d | d in ds && d.serverId in store :: store[d.serverId].profileFingerprint
  }

  lemma ProfileKeys(store: map<string, Snapshot>, ds: seq<Destination>, profiles: map<seq<Byte>, seq<Destination>>, without: seq<Destination>)
    requires Partitioned(store, ds, profiles, without)
    ensures |profiles| == |Profiles(store, ds)|
  {
    hide InClass;
    forall f ensures f in profiles.Keys <==> f in Profiles(store, ds) {
      ClassMembers(store, ds, Some(f));
      if f in profiles {
        var d := InClass(store, ds, Some(f))[0];
        assert d in InClass(store, ds, Some(f));
      }
      if f in Profiles(store, ds) {
        var d :| d in ds && d.serverId in store && store[d.serverId].profileFingerprint == f;
        assert d in InClass(store, ds, Some(f));
      }
    }
    assert profiles.Keys == Profiles(store, ds);
  }

  /**
   * `evaluate_server_destinations`. It returns what deciding every destination
   * through its group's representative gives. When policies with one fingerprint
   * agree, that is what deciding each alone gives, and on an analyzed message it
   * always succeeds.
   */
  method EvaluateServerDestinations(w: World, ghost policies: map<string, ContentPolicy>, destinations: seq<Destination>)
    returns (out: Result<(seq<DestinationDecision>, map<seq<Byte>, DeliveryVariant>, nat), EvaluationError>)
    requires AnalyzedOk(w.analyzed) && Evaluable(w, policies)
    ensures out.Ok? ==> Returned(Grouped(w, destinations), destinations, out.value.0, out.value.1)
    ensures out.Ok? ==> out.value.2 == |Profiles(w.store, destinations)|
    ensures out.Err? ==> Fails(Grouped(w, destinations), destinations, out.error)
    ensures WorldOk(w, policies) && out.Ok? ==> Returned(Alone(w), destinations, out.value.0, out.value.1)
    ensures WorldOk(w, policies) && out.Err? ==> Fails(Alone(w), destinations, out.error)
    ensures WorldOk(w, policies) && WorldFits(w) ==> out.Ok?
  {
    hide WorldOk, AnalyzedOk, Grouped, Alone, Fails, Returned, WorldFits;
    out := DecideProfiles(w, policies, destinations);
    if WorldOk(w, policies) {
      if out.Ok? {
        ReturnedAlone(w, policies, destinations, out.value.0, out.value.1);
      } else {
        FailsAlone(w, policies, destinations, out.error);
        if WorldFits(w) {
          NoneFails(w);
          NoFailure(w, destinations, out.error);
        }
      }
    }
  }

  lemma NoFailure(w: World, ds: seq<Destination>, e: EvaluationError)
    requires AnalyzedOk(w.analyzed) && forall d :: DecideAlone(w, d).Ok?
    ensures !Fails(Alone(w), ds, e)
  {
    hide AnalyzedOk, DecideAlone;
  }

  /** The body of `evaluate_server_destinations`. */
  method DecideProfiles(w: World, ghost policies: map<string, ContentPolicy>, destinations: seq<Destination>)
    returns (out: Result<(seq<DestinationDecision>, map<seq<Byte>, DeliveryVariant>, nat), EvaluationError>)
    requires AnalyzedOk(w.analyzed) && Evaluable(w, policies)
    ensures out.Ok? ==> Returned(Grouped(w, destinations), destinations, out.value.0, out.value.1)
    ensures out.Ok? ==> out.value.2 == |Profiles(w.store, destinations)|
    ensures out.Err? ==> Fails(Grouped(w, destinations), destinations, out.error)
  {
    hide Profiles, Evaluable, AnalyzedOk, Grouped, Progress, Adds, ClassesDone, InClass, ThroughFirst, Fails, Returned;
    ghost var g := Grouped(w, destinations);
    var profiles, without := Partition(w.store, destinations);
    NoClassDone(w.store, destinations, profiles, without);
    ProfileKeys(w.store, destinations, profiles, without);
    ghost var done := without;
    var decisions, variants := [], map[];
    NoProgress(g);
    if without != [] {
      WithoutMembers(w, destinations);
      var shared := DecideWithout(w, g, without);
      if shared.Err? {
        FailsWithin(g, without, destinations, shared.error);
        return Err(shared.error);
      }
      AddsProgress(g, [], decisions, variants, without, shared.value.0, shared.value.1);
      assert [] + without == without && [] + shared.value.0 == shared.value.0;
      decisions, variants := shared.value.0, shared.value.1;
    }
    var evaluated := |profiles|;
    var remaining := profiles.Keys;
    while remaining != {}
      invariant remaining <= profiles.Keys
      invariant Progress(g, done, decisions, variants)
      invariant ClassesDone(w.store, destinations, remaining, done)
      decreases |remaining|
    {
      var f :| f in remaining;
      var members := profiles[f];
      GroupMembers(w, destinations, f);
      var group := DecideGroup(w, policies, g, members, variants);
      if group.Err? {
        FailsWithin(g, members, destinations, group.error);
        return Err(group.error);
      }
      AddsProgress(g, done, decisions, variants, members, group.value.0, group.value.1);
      ClassDone(w.store, destinations, remaining, done, f);
      decisions, variants := decisions + group.value.0, group.value.1;
      done := done + members;
      remaining := remaining - {f};
    }
    AllClassesDone(w.store, destinations, done);
    ProgressMoves(g, done, destinations, decisions, variants);
    out := Ok((Sort(decisions, ByTarget), variants, evaluated));
  }

  lemma FailsWithin(g: Decider, members: seq<Destination>, ds: seq<Destination>, e: EvaluationError)
    requires Fails(g, members, e) && forall d :: d in members ==> d in ds
    ensures Fails(g, ds, e)
  {
  }

  lemma NoProgress(g: Decider)
    ensures Progress(g, [], [], map[])
  {
  }

  lemma WithoutMembers(w: World, ds: seq<Destination>)
    requires AnalyzedOk(w.analyzed)
    ensures forall d :: d in InClass(w.store, ds, None) ==>
      d.serverId !in w.store && d in ds && Grouped(w, ds)(d) == DecideAlone(w, d)
  {
    hide InClass, DecideAlone, AnalyzedOk, DecideThrough;
    ClassMembers(w.store, ds, None);
  }

  // ---- Refinement ------------------------------------------------------------------------

  /** Where policies with one fingerprint agree, the group's decision is a destination's own. */
  lemma GroupedIsAlone(w: World, policies: map<string, ContentPolicy>, ds: seq<Destination>, d: Destination)
    requires AnalyzedOk(w.analyzed) && WorldOk(w, policies)
    ensures DecideGrouped(w, ds, d) == DecideAlone(w, d)
  {
    hide AnalyzedOk, WorldOk, DecideAlone, DecideThrough, InClass;
    var r := Representative(w, ds, d);
    if r.Some? {
      var members := InClass(w.store, ds, ClassOf(w.store, d));
      ClassMembers(w.store, ds, ClassOf(w.store, d));
      assert members[0] in members;
      MemberDecides(w, policies, r.value, d);
    }
  }

  lemma DecidersAgree(g: Decider, h: Decider, ds: seq<Destination>)
    requires forall d :: d in ds ==> g(d) == h(d)
    ensures MapSeq(Deciding(g), ds) == MapSeq(Deciding(h), ds)
    ensures AllDecided(g, ds) == AllDecided(h, ds)
    ensures forall d, v :: d in ds ==> (GetsVariant(g, d, v) <==> GetsVariant(h, d, v))
  {
    forall i | 0 <= i < |ds| ensures DecisionOf(g, ds[i]) == DecisionOf(h, ds[i]) {
      assert ds[i] in ds;
    }
  }

  lemma AllGroupedAlone(w: World, policies: map<string, ContentPolicy>, ds: seq<Destination>)
    requires AnalyzedOk(w.analyzed) && WorldOk(w, policies)
    ensures forall d :: Grouped(w, ds)(d) == Alone(w)(d)
  {
    hide AnalyzedOk, WorldOk, DecideAlone, DecideGrouped;
    forall d ensures Grouped(w, ds)(d) == Alone(w)(d) {
      GroupedIsAlone(w, policies, ds, d);
    }
  }

  /** Grouped fan-out refines deciding alone. */
  lemma ReturnedAlone(w: World, policies: map<string, ContentPolicy>, ds: seq<Destination>, decisions: seq<DestinationDecision>,
                      variants: map<seq<Byte>, DeliveryVariant>)
    requires AnalyzedOk(w.analyzed) && WorldOk(w, policies) && Returned(Grouped(w, ds), ds, decisions, variants)
    ensures Returned(Alone(w), ds, decisions, variants)
  {
    hide AnalyzedOk, WorldOk, Grouped, Alone, GetsVariant, MapSeq, Deciding, AllDecided;
    AllGroupedAlone(w, policies, ds);
    DecidersAgree(Grouped(w, ds), Alone(w), ds);
    VariantsAgree(Grouped(w, ds), Alone(w), ds, variants);
  }

  lemma VariantsAgree(g: Decider, h: Decider, ds: seq<Destination>, variants: map<seq<Byte>, DeliveryVariant>)
    requires VariantsOf(g, ds, variants) && forall d, v :: d in ds ==> (GetsVariant(g, d, v) <==> GetsVariant(h, d, v))
    ensures VariantsOf(h, ds, variants)
  {
    hide GetsVariant;
  }

  lemma FailsAlone(w: World, policies: map<string, ContentPolicy>, ds: seq<Destination>, e: EvaluationError)
    requires AnalyzedOk(w.analyzed) && WorldOk(w, policies) && Fails(Grouped(w, ds), ds, e)
    ensures Fails(Alone(w), ds, e)
  {
    hide AnalyzedOk, WorldOk, Grouped, Alone;
    AllGroupedAlone(w, policies, ds);
  }

  // ---- Consequences --------------------------------------------------------------------

  ghost predicate DistinctTargets(ds: seq<Destination>) {
    forall i, j :: 0 <= i < j < |ds| ==> ds[i].targetIndex != ds[j].targetIndex
  }

  lemma DecisionTarget(w: World, d: Destination)
    requires AnalyzedOk(w.analyzed)
    ensures DecisionOf(Alone(w), d).targetIndex == d.targetIndex && DecisionOf(Alone(w), d).serverId == d.serverId
  {
    hide LocalScope, Composed, DeliveryEffects.IsBlocked, Materialized, AnalyzedOk, RuleIds;
  }

  /** With distinct target indices the returned list is the sorted list of the alone decisions. */
  lemma DistinctTargetsExact(w: World, ds: seq<Destination>, decisions: seq<DestinationDecision>)
    requires AnalyzedOk(w.analyzed) && DistinctTargets(ds) && Sorted(decisions, ByTarget)
    requires multiset(decisions) == multiset(MapSeq(Deciding(Alone(w)), ds))
    ensures decisions == Sort(MapSeq(Deciding(Alone(w)), ds), ByTarget)
  {
    hide DecisionOf, AnalyzedOk, Alone;
    var alone := MapSeq(Deciding(Alone(w)), ds);
    SortCorrect(alone, ByTarget);
    forall x, y | x in multiset(alone) && y in multiset(alone) && ByTarget(x, y) && ByTarget(y, x) ensures x == y {
      assert x in alone && y in alone;
      var i :| 0 <= i < |alone| && alone[i] == x;
      var j :| 0 <= j < |alone| && alone[j] == y;
      DecisionTarget(w, ds[i]);
      DecisionTarget(w, ds[j]);
      assert !(i < j) && !(j < i);
    }
    hide Sort, MapSeq;
    NoTiesByTarget(alone, Sort(alone, ByTarget));
    SortedUnique(Sort(alone, ByTarget), decisions, ByTarget);
  }

  lemma NoTiesByTarget(alone: seq<DestinationDecision>, sorted: seq<DestinationDecision>)
    requires forall x, y :: x in multiset(alone) && y in multiset(alone) && ByTarget(x, y) && ByTarget(y, x) ==> x == y
    requires multiset(alone) == multiset(sorted)
    ensures NoTies(sorted, ByTarget)
  {
    assert forall x :: x in sorted ==> x in multiset(alone);
  }

  /** A decision refers to a variant exactly when it is not blocked, and then to its own. */
  lemma AloneRefersToItsVariant(w: World, d: Destination)
    requires AnalyzedOk(w.analyzed) && !w.shared.IsBlocked() && DecideAlone(w, d).Ok?
    ensures var o := DecideAlone(w, d).value;
      o.decision.variantFingerprint == FingerprintIn(o.variant) && (o.variant == None <==> o.decision.blockedBy != [])
  {
    hide Composed, Materialized, AnalyzedOk, RuleIds, Resolved;
    if d.serverId in w.store {
      var e := LocalScope(w, w.store[d.serverId]).delivery;
      ComposedRenderAlike(w.shared, e, e);
    }
  }

  /** The variants' keys are exactly the fingerprints that unblocked decisions refer to. */
  lemma VariantKeysExact(w: World, ds: seq<Destination>, variants: map<seq<Byte>, DeliveryVariant>, f: seq<Byte>)
    requires AnalyzedOk(w.analyzed) && !w.shared.IsBlocked() && AllDecided(Alone(w), ds) && VariantsOf(Alone(w), ds, variants)
    ensures f in variants <==> exists d :: d in ds && DecisionOf(Alone(w), d).blockedBy == [] && DecisionOf(Alone(w), d).variantFingerprint == Some(f)
  {
    hide DecideAlone, AnalyzedOk, DeliveryEffects.IsBlocked;
    if f in variants {
      var d :| d in ds && GetsVariant(Alone(w), d, variants[f]);
      AloneRefersToItsVariant(w, d);
    }
    if d :| d in ds && DecisionOf(Alone(w), d).blockedBy == [] && DecisionOf(Alone(w), d).variantFingerprint == Some(f) {
      AloneRefersToItsVariant(w, d);
      assert GetsVariant(Alone(w), d, DecideAlone(w, d).value.variant.value);
    }
  }

  /** Looking up a destination's fingerprint finds the very variant it would get alone. */
  lemma LookedUpVariantIsOwn(w: World, ds: seq<Destination>, variants: map<seq<Byte>, DeliveryVariant>, d: Destination, v: DeliveryVariant)
    requires AnalyzedOk(w.analyzed) && VariantsOf(Alone(w), ds, variants) && d in ds && GetsVariant(Alone(w), d, v)
    requires forall d', v' :: d' in ds && GetsVariant(Alone(w), d', v') ==> SmallVariant(v')
    ensures v.fingerprint in variants && variants[v.fingerprint] == v
  {
    hide DecideAlone, AnalyzedOk, SmallVariant;
    var found := variants[v.fingerprint];
    var d' :| d' in ds && GetsVariant(Alone(w), d', found);
    hide GetsVariant;
    FingerprintOfAlone(w, d, v);
    FingerprintOfAlone(w, d', found);
    FingerprintIdentifiesVariant(v, found);
  }
}
