/**
 * command.rs: the claim and complete transactions on a processed-command row,
 * as atomic steps under one clock, and what every run of them keeps.
 */
module Commands {
  import opened Wrappers

  type Token = nat
  type Time = int

  const MIN_LEASE_SECONDS: int := 5
  const MAX_LEASE_SECONDS: int := 300

  /** The status column; any text the code does not know is `Unknown`. */
  datatype Status = Pending | Claimed | Completed | RecoveryRequired | Unknown(text: string)

  datatype Outcome = Outcome(success: bool, resultCode: string, occurredAt: Time)

  datatype Row = Row(
    status: Status, retrySafe: bool, claimant: Option<string>, token: Option<Token>, expiry: Option<Time>,
    attempts: nat, version: nat, outcome: Option<Outcome>)

  datatype ClaimDecision =
    | Acquire | ReturnExistingClaim | ReturnBusy | ReturnCompleted | ReturnRecoveryRequired | MarkRecoveryRequired

  datatype ClaimState = Acquired | Busy | IsCompleted | NeedsRecovery

  datatype CommandClaim = CommandClaim(
    state: ClaimState, token: Option<Token>, expiry: Option<Time>, attempts: nat, version: nat, outcome: Option<Outcome>)

  datatype CommandError =
    | NotFound | LeaseMismatch | RecoveryNeeded | ConflictingCompletion | VersionMismatch | CorruptCommand | Database

  datatype Completion = Completion(outcome: Outcome, version: nat)

  /** A completed row without a stored outcome cannot be read back. */
  predicate Unreadable(row: Row) { row.status == Completed && row.outcome.None? }

  /** A lease is live strictly before its expiry; a missing expiry is never live. */
  predicate Live(expiry: Option<Time>, now: Time) { expiry.Some? && expiry.value > now }

  /** `decide_claim`. */
  function DecideClaim(row: Row, claimant: string, now: Time): ClaimDecision {
    match row.status
    case Completed => ReturnCompleted
    case RecoveryRequired => ReturnRecoveryRequired
    case Pending => Acquire
    case Claimed =>
      if row.claimant == Some(claimant) && Live(row.expiry, now) then ReturnExistingClaim
      else if Live(row.expiry, now) then ReturnBusy
      else if row.retrySafe then Acquire
      else MarkRecoveryRequired
    case Unknown(_) => ReturnRecoveryRequired
  }

  function LeaseSeconds(requested: int): (r: int)
    ensures MIN_LEASE_SECONDS <= r <= MAX_LEASE_SECONDS
    ensures MIN_LEASE_SECONDS <= requested <= MAX_LEASE_SECONDS ==> r == requested
  {
    if requested < MIN_LEASE_SECONDS then MIN_LEASE_SECONDS
    else if requested > MAX_LEASE_SECONDS then MAX_LEASE_SECONDS else requested
  }

  // ---- The repository -----------------------------------------------------------------

  datatype ClaimRequest = ClaimRequest(claimant: string, leaseSeconds: int, now: Time, token: Token)

  datatype CompleteRequest = CompleteRequest(token: Token, expectedVersion: nat, outcome: Outcome)

  /** What the claim transaction writes to the row. */
  function ClaimedRow(row: Row, q: ClaimRequest): Row {
    match DecideClaim(row, q.claimant, q.now)
    case Acquire =>
      row.(status := Claimed, claimant := Some(q.claimant), token := Some(q.token), expiry := Some(q.now + LeaseSeconds(q.leaseSeconds)),
           attempts := row.attempts + 1, version := row.version + 1)
    case MarkRecoveryRequired =>
      row.(status := RecoveryRequired, claimant := None, token := None, expiry := None, version := row.version + 1)
    case _ => row
  }

  /** Whether the completion transaction is the one that completes the row. */
  predicate Completes(row: Row, q: CompleteRequest) {
    row.status == Claimed && row.token == Some(q.token) && row.version == q.expectedVersion
  }

  function CompletedRow(row: Row, q: CompleteRequest): Row {
    if Completes(row, q) then
      row.(status := Completed, claimant := None, token := None, expiry := None, version := row.version + 1, outcome := Some(q.outcome))
    else row
  }

  class CommandRepository {
    var rows: map<nat, Row>
    var outbox: seq<(nat, Outcome)>    // the result events, in insertion order

    /** The claim transaction; `corrupt` says the stored payload does not decode. */
    method Claim(id: nat, q: ClaimRequest, corrupt: bool) returns (r: Result<CommandClaim, CommandError>)
      modifies this
      ensures id !in old(rows) ==> r == Err(NotFound)
      ensures id in old(rows) && corrupt ==> r == Err(CorruptCommand)
      ensures r.Err? ==> rows == old(rows)
      ensures outbox == old(outbox)
      ensures id in old(rows) && !corrupt && Unreadable(old(rows)[id]) ==> r == Err(Database)
      ensures id in old(rows) && !corrupt && !Unreadable(old(rows)[id]) ==>
        var before, after := old(rows)[id], ClaimedRow(old(rows)[id], q);
        && rows == old(rows)[id := after]
        && r.Ok? && r.value.attempts == after.attempts && r.value.version == after.version
        && (r.value.state == IsCompleted <==> before.status == Completed)
        && (r.value.state == Acquired ==> r.value.token == after.token && r.value.expiry == after.expiry)
        && (r.value.state != Acquired ==> r.value.token == None)
        && AnswersClaim(before, q, r.value)
        && (r.value.outcome == if before.status == Completed then before.outcome else None)
    {
      if id !in rows {
        return Err(NotFound);
      }
      var row := rows[id];
      if corrupt {
        return Err(CorruptCommand);
      }
      match DecideClaim(row, q.claimant, q.now) {
        case ReturnCompleted =>
          if row.outcome.None? {
            return Err(Database);
          }
          r := Ok(CommandClaim(IsCompleted, None, None, row.attempts, row.version, row.outcome));
        case ReturnRecoveryRequired =>
          r := Ok(CommandClaim(NeedsRecovery, None, None, row.attempts, row.version, None));
        case ReturnBusy =>
          r := Ok(CommandClaim(Busy, None, row.expiry, row.attempts, row.version, None));
        case ReturnExistingClaim =>
          r := Ok(CommandClaim(Acquired, row.token, row.expiry, row.attempts, row.version, None));
        case MarkRecoveryRequired =>
          row := row.(status := RecoveryRequired, claimant := None, token := None, expiry := None, version := row.version + 1);
          rows := rows[id := row];
          r := Ok(CommandClaim(NeedsRecovery, None, None, row.attempts, row.version, None));
        case Acquire =>
          var expiry := q.now + LeaseSeconds(q.leaseSeconds);
          row := row.(status := Claimed, claimant := Some(q.claimant), token := Some(q.token), expiry := Some(expiry),
                      attempts := row.attempts + 1, version := row.version + 1);
          rows := rows[id := row];
          r := Ok(CommandClaim(Acquired, row.token, row.expiry, row.attempts, row.version, None));
      }
      assert rows == old(rows)[id := rows[id]];
    }

    /** The completion transaction, with the result event it inserts. */
    method Complete(id: nat, q: CompleteRequest) returns (r: Result<Completion, CommandError>)
      modifies this
      ensures id !in old(rows) ==> r == Err(NotFound) && rows == old(rows) && outbox == old(outbox)
      ensures id in old(rows) ==>
        var before := old(rows)[id];
        && rows == old(rows)[id := CompletedRow(before, q)]
        && outbox == old(outbox) + (if Completes(before, q) then [(id, q.outcome)] else [])
        && r == CompletionReply(before, q)
    {
      if id !in rows {
        return Err(NotFound);
      }
      var row := rows[id];
      assert rows == rows[id := row] && outbox + [] == outbox;
      if row.status == Completed {
        if row.outcome.None? {
          return Err(Database);
        }
        var stored := row.outcome.value;
        if stored.success != q.outcome.success || stored.resultCode != q.outcome.resultCode {
          return Err(ConflictingCompletion);
        }
        return Ok(Completion(stored, row.version));
      }
      if row.status == RecoveryRequired {
        return Err(RecoveryNeeded);
      }
      if row.status != Claimed || row.token != Some(q.token) {
        return Err(LeaseMismatch);
      }
      if row.version != q.expectedVersion {
        return Err(VersionMismatch);
      }
      row := row.(status := Completed, claimant := None, token := None, expiry := None, version := row.version + 1, outcome := Some(q.outcome));
      rows := rows[id := row];
      outbox := outbox + [(id, q.outcome)];
      r := Ok(Completion(q.outcome, row.version));
    }
  }

  /** The row is claimed, and its lease ends after `now`. */
  ghost predicate LeasedAt(row: Row, now: Time) { row.status == Claimed && row.expiry.Some? && now < row.expiry.value }

  /**
   * A claim is granted on a pending row, to the lease's own claimant, and after
   * the lease if a retry is safe. Another's live lease is busy until it ends.
   */
  ghost predicate AnswersClaim(row: Row, q: ClaimRequest, reply: CommandClaim) {
    && (reply.state == Acquired <==>
          || row.status == Pending
          || (LeasedAt(row, q.now) && row.claimant == Some(q.claimant))
          || (row.status == Claimed && !LeasedAt(row, q.now) && row.retrySafe))
    && (reply.state == Busy <==> LeasedAt(row, q.now) && row.claimant != Some(q.claimant))
    && (reply.state == IsCompleted <==> row.status == Completed)
    && (reply.state == NeedsRecovery <==>
          || row.status == RecoveryRequired || row.status.Unknown?
          || (row.status == Claimed && !LeasedAt(row, q.now) && !row.retrySafe))
    && (reply.state == Busy ==> reply.expiry == row.expiry)
    && (reply.state in {IsCompleted, NeedsRecovery} ==> reply.expiry == None)
  }

  /** What a claim writes: a lease of 5 to 300 seconds where it newly grants, the end of one that must not be retried, else nothing. */
  lemma ClaimWrites(row: Row, q: ClaimRequest)
    ensures var after := ClaimedRow(row, q);
      if row.status == Pending || (row.status == Claimed && !LeasedAt(row, q.now) && row.retrySafe) then
        && after.expiry.Some?
        && after == Row(Claimed, row.retrySafe, Some(q.claimant), Some(q.token), after.expiry, row.attempts + 1, row.version + 1, row.outcome)
        && (q.leaseSeconds <= 5 ==> after.expiry.value == q.now + 5)
        && (5 <= q.leaseSeconds <= 300 ==> after.expiry.value == q.now + q.leaseSeconds)
        && (300 <= q.leaseSeconds ==> after.expiry.value == q.now + 300)
      else if row.status == Claimed && !LeasedAt(row, q.now) then
        after == Row(RecoveryRequired, row.retrySafe, None, None, None, row.attempts, row.version + 1, row.outcome)
      else after == row
  {
  }

  /** The claimant holds the claimed row's lease. */
  ghost predicate HeldUnder(row: Row, token: Token) { row.status == Claimed && row.token == Some(token) }

  ghost predicate SameResult(x: Outcome, y: Outcome) { x.success == y.success && x.resultCode == y.resultCode }

  /** The answer to a completion and what it writes, told apart by status, then token, then version. */
  lemma CompletionMeans(row: Row, q: CompleteRequest)
    ensures var reply := CompletionReply(row, q);
      && (reply == Err(Database) <==> row.status == Completed && row.outcome == None)
      && (reply == Err(ConflictingCompletion) <==> row.status == Completed && row.outcome.Some? && !SameResult(row.outcome.value, q.outcome))
      && (reply == Err(RecoveryNeeded) <==> row.status == RecoveryRequired)
      && (reply == Err(LeaseMismatch) <==> row.status != Completed && row.status != RecoveryRequired && !HeldUnder(row, q.token))
      && (reply == Err(VersionMismatch) <==> HeldUnder(row, q.token) && row.version != q.expectedVersion)
      && (reply.Ok? && row.status == Completed ==> row.outcome == Some(reply.value.outcome) && reply.value.version == row.version)
      && (reply.Ok? && row.status != Completed ==> reply == Ok(Completion(q.outcome, row.version + 1)))
    ensures CompletedRow(row, q) == if !HeldUnder(row, q.token) || row.version != q.expectedVersion then row
      else Row(Completed, row.retrySafe, None, None, None, row.attempts, row.version + 1, Some(q.outcome))
  {
  }

  /** The reply to a completion request, given the row it finds. */
  function CompletionReply(row: Row, q: CompleteRequest): Result<Completion, CommandError> {
    match row.status
    case Completed =>
      if row.outcome.None? then Err(Database)
      else if row.outcome.value.success == q.outcome.success && row.outcome.value.resultCode == q.outcome.resultCode
      then Ok(Completion(row.outcome.value, row.version)) else Err(ConflictingCompletion)
    case RecoveryRequired => Err(RecoveryNeeded)
    case Claimed =>
      if row.token != Some(q.token) then Err(LeaseMismatch)
      else if row.version != q.expectedVersion then Err(VersionMismatch)
      else Ok(Completion(q.outcome, row.version + 1))
    case _ => Err(LeaseMismatch)
  }

  // ---- Runs ------------------------------------------------------------------------------

  datatype Step = ClaimStep(claim: ClaimRequest) | CompleteStep(complete: CompleteRequest)

  /** One acquisition of the lease, as the claimant was told of it. */
  datatype Lease = Lease(token: Token, start: Time, expiry: Time, version: nat)

  /** One command: its row, its result events, and the leases granted so far with the last claim's time. */
  datatype Command = Command(row: Row, events: seq<Outcome>, leases: seq<Lease>, clock: Option<Time>)

  predicate Fresh(c: Command, t: Token) { forall i :: 0 <= i < |c.leases| ==> c.leases[i].token != t }

  /** Lease tokens are never reused, and the clock does not run backwards. */
  predicate Admits(c: Command, s: Step) {
    s.ClaimStep? ==> Fresh(c, s.claim.token) && (c.clock.Some? ==> c.clock.value <= s.claim.now)
  }

  function Next(c: Command, s: Step): Command {
    match s
    case ClaimStep(q) =>
      var row := ClaimedRow(c.row, q);
      var grant := if DecideClaim(c.row, q.claimant, q.now) == Acquire
        then [Lease(q.token, q.now, q.now + LeaseSeconds(q.leaseSeconds), row.version)] else [];
      Command(row, c.events, c.leases + grant, Some(q.now))
    case CompleteStep(q) =>
      Command(CompletedRow(c.row, q), c.events + (if Completes(c.row, q) then [q.outcome] else []), c.leases, c.clock)
  }

  predicate Starts(c: Command) {
    && c.row.status == Pending && c.row.token == None && c.row.expiry == None && c.row.claimant == None && c.row.outcome == None
    && c.row.attempts == 0 && c.events == [] && c.leases == [] && c.clock == None
  }

  /** The commands after each prefix of a run. */
  predicate IsRun(states: seq<Command>, steps: seq<Step>) {
    && |states| == |steps| + 1 && Starts(states[0])
    && forall i :: 0 <= i < |steps| ==> Admits(states[i], steps[i]) && states[i + 1] == Next(states[i], steps[i])
  }

  /** What every run keeps. */
  ghost predicate Sound(c: Command) {
    && !c.row.status.Unknown?
    // exactly one result event, with the stored outcome, iff the row is completed
    && (c.row.status == Completed <==> c.row.outcome.Some?)
    && c.events == (if c.row.outcome.Some? then [c.row.outcome.value] else [])
    // a claimed row is held under the latest lease, and at the version its claimant was told
    && c.row.attempts == |c.leases|
    && (c.row.status == Claimed ==> c.leases != [] && Holds(c.row, c.leases[|c.leases| - 1]))
    && (c.row.status == Pending <==> c.leases == [])
    && (c.row.status != Claimed ==> c.row.token == None)
    // leases are distinct and their intervals do not overlap
    && (forall i, j :: 0 <= i < j < |c.leases| ==> c.leases[i].token != c.leases[j].token && c.leases[i].expiry <= c.leases[j].start)
    && (forall i :: 0 <= i < |c.leases| ==> 5 <= c.leases[i].expiry - c.leases[i].start <= 300)
    // a command that must not be retried is acquired at most once
    && (!c.row.retrySafe ==> |c.leases| <= 1)
    && (c.leases != [] ==> c.leases[|c.leases| - 1].version <= c.row.version)
  }

  predicate Holds(row: Row, lease: Lease) {
    row.token == Some(lease.token) && row.expiry == Some(lease.expiry) && row.version == lease.version && row.claimant.Some?
  }

  lemma StartsSound(c: Command)
    requires Starts(c)
    ensures Sound(c)
  {
  }

  lemma StepKeepsSound(c: Command, s: Step)
    requires Sound(c) && Admits(c, s)
    ensures Sound(Next(c, s))
  {
    var d := Next(c, s);
    if s.ClaimStep? && DecideClaim(c.row, s.claim.claimant, s.claim.now) == Acquire {
      var n := |c.leases|;
      assert d.leases[n] == Lease(s.claim.token, s.claim.now, s.claim.now + LeaseSeconds(s.claim.leaseSeconds), d.row.version);
      assert forall i :: 0 <= i < n ==> d.leases[i] == c.leases[i];
      if n > 0 {
        assert c.leases[n - 1].expiry <= s.claim.now;
        forall i | 0 <= i < n ensures c.leases[i].expiry <= s.claim.now {
          assert i < n - 1 ==> c.leases[i].expiry <= c.leases[n - 1].start;
        }
      }
    } else {
      assert d.leases == c.leases;
    }
  }

  /** Every state of every run is sound. */
  lemma {:induction false} RunSound(states: seq<Command>, steps: seq<Step>, n: nat)
    requires IsRun(states, steps) && n < |states|
    ensures Sound(states[n])
  {
    if n == 0 {
      StartsSound(states[0]);
    } else {
      RunSound(states, steps, n - 1);
      StepKeepsSound(states[n - 1], steps[n - 1]);
    }
  }

  predicate Final(s: Status) { s == Completed || s == RecoveryRequired }

  /** A step that changes the row raises its version by one; a final row and an outcome never change. */
  lemma StepMonotone(c: Command, s: Step)
    requires Sound(c)
    ensures var d := Next(c, s);
      && (d.row == c.row || d.row.version == c.row.version + 1)
      && (Final(c.row.status) ==> d.row == c.row && d.events == c.events && d.leases == c.leases)
      && d.row.retrySafe == c.row.retrySafe && c.leases <= d.leases && c.events <= d.events
  {
  }

  /** What a later state of a run keeps of an earlier one. */
  ghost predicate Follows(c: Command, d: Command) {
    && c.row.version <= d.row.version
    && (c.row.version == d.row.version ==> c.row == d.row)
    && (Final(c.row.status) ==> d.row == c.row && d.events == c.events)
    && (c.row.outcome.Some? ==> d.row.outcome == c.row.outcome)
    && c.leases <= d.leases && c.events <= d.events
  }

  lemma StepFollows(c: Command, s: Step)
    requires Sound(c)
    ensures Follows(c, Next(c, s))
  {
    StepMonotone(c, s);
  }

  lemma FollowsTransitive(b: Command, c: Command, d: Command)
    requires Follows(b, c) && Follows(c, d)
    ensures Follows(b, d)
  {
  }

  lemma {:induction false} LaterFollows(states: seq<Command>, steps: seq<Step>, i: nat, j: nat)
    requires IsRun(states, steps) && i <= j < |states|
    ensures Follows(states[i], states[j])
    decreases j - i
  {
    hide Sound, Next, Admits, Starts;
    if i < j {
      LaterFollows(states, steps, i, j - 1);
      RunSound(states, steps, j - 1);
      StepFollows(states[j - 1], steps[j - 1]);
      hide Follows;
      FollowsTransitive(states[i], states[j - 1], states[j]);
    }
  }

  /** Over any stretch of a run: versions only rise, and with them any change; final rows and outcomes stay; events only append. */
  lemma RunMonotone(states: seq<Command>, steps: seq<Step>, i: nat, j: nat)
    requires IsRun(states, steps) && i <= j < |states|
    ensures states[i].row.version <= states[j].row.version
    ensures states[i].row.version == states[j].row.version ==> states[i].row == states[j].row
    ensures Final(states[i].row.status) ==> states[j].row == states[i].row && states[j].events == states[i].events
    ensures states[i].row.outcome.Some? ==> states[j].row.outcome == states[i].row.outcome
    ensures states[i].leases <= states[j].leases && states[i].events <= states[j].events
  {
    hide IsRun;
    LaterFollows(states, steps, i, j);
  }

  /** A row is completed, with its one event, only by the holder of the latest lease, at the version that lease was granted with. */
  lemma OnlyLatestLeaseCompletes(states: seq<Command>, steps: seq<Step>, n: nat)
    requires IsRun(states, steps) && n < |steps|
    ensures var c := states[n];
      states[n + 1].row.status == Completed && c.row.status != Completed <==>
        steps[n].CompleteStep? && c.row.status == Claimed && c.leases != []
        && steps[n].complete.token == c.leases[|c.leases| - 1].token
        && steps[n].complete.expectedVersion == c.leases[|c.leases| - 1].version
  {
    RunSound(states, steps, n);
  }

  /** A lease superseded by a later one can never complete the row. */
  lemma SupersededLeaseFails(states: seq<Command>, steps: seq<Step>, n: nat, k: nat)
    requires IsRun(states, steps) && n < |steps| && steps[n].CompleteStep?
    requires k + 1 < |states[n].leases| && steps[n].complete.token == states[n].leases[k].token
    ensures states[n + 1] == states[n]
  {
    RunSound(states, steps, n);
    var c := states[n];
    assert c.leases[k].token != c.leases[|c.leases| - 1].token;
    assert !Completes(c.row, steps[n].complete);
    assert c.events + [] == c.events;
  }

  /**
   * While its lease is the current one, a claimant can complete with the token
   * and version it was told, even after the lease expired; the reply is its own outcome.
   */
  lemma CurrentLeaseCompletes(c: Command, outcome: Outcome)
    requires Sound(c) && c.row.status == Claimed
    ensures var lease := c.leases[|c.leases| - 1]; var q := CompleteRequest(lease.token, lease.version, outcome);
      && CompletionReply(c.row, q) == Ok(Completion(outcome, lease.version + 1))
      && Next(c, CompleteStep(q)).row.outcome == Some(outcome) && Next(c, CompleteStep(q)).events == [outcome]
  {
  }

  /**
   * After completion every later request leaves everything as it is, and is
   * answered with the stored outcome exactly when it reports the same result.
   */
  lemma RepeatedCompletion(states: seq<Command>, steps: seq<Step>, i: nat, n: nat)
    requires IsRun(states, steps) && i <= n < |steps| && states[i].row.status == Completed && steps[n].CompleteStep?
    ensures states[n + 1].row == states[i].row && states[n + 1].events == states[i].events && |states[i].events| == 1
    ensures states[n].row.outcome.Some? && states[n].row.outcome == states[i].row.outcome
    ensures var stored := states[i].row.outcome.value; var mine := steps[n].complete.outcome;
      CompletionReply(states[n].row, steps[n].complete) ==
        if stored.success == mine.success && stored.resultCode == mine.resultCode
        then Ok(Completion(stored, states[i].row.version)) else Err(ConflictingCompletion)
  {
    RunSound(states, steps, i);
    RunMonotone(states, steps, i, n);
    RunMonotone(states, steps, i, n + 1);
  }

  /** Under live leases no two claimants hold the command: between grants, the lease of the first has run out. */
  lemma LeasesDisjoint(states: seq<Command>, steps: seq<Step>, n: nat, i: nat, j: nat, now: Time)
    requires IsRun(states, steps) && n < |states| && i < |states[n].leases| && j < |states[n].leases|
    requires states[n].leases[i].start <= now < states[n].leases[i].expiry
    requires states[n].leases[j].start <= now < states[n].leases[j].expiry
    ensures i == j
  {
    RunSound(states, steps, n);
  }

  /** A command that is not safe to retry is granted once; an expired lease sends it to recovery, for good. */
  lemma NotRetriedTwice(states: seq<Command>, steps: seq<Step>, n: nat)
    requires IsRun(states, steps) && n < |steps| && !states[0].row.retrySafe
    ensures |states[n].leases| <= 1
    ensures steps[n].ClaimStep? && states[n].row.status == Claimed && !Live(states[n].row.expiry, steps[n].claim.now) ==>
      states[n + 1].row.status == RecoveryRequired
  {
    RunSound(states, steps, n);
    KeepsRetrySafety(states, steps, n);
  }

  lemma {:induction false} KeepsRetrySafety(states: seq<Command>, steps: seq<Step>, n: nat)
    requires IsRun(states, steps) && n < |states|
    ensures states[n].row.retrySafe == states[0].row.retrySafe
  {
    if n > 0 {
      KeepsRetrySafety(states, steps, n - 1);
      RunSound(states, steps, n - 1);
      StepMonotone(states[n - 1], steps[n - 1]);
    }
  }

  /** Asking again while one's lease is live returns the same lease and writes nothing. */
  lemma ClaimIsIdempotent(c: Command, q: ClaimRequest, again: ClaimRequest)
    requires Sound(c) && Admits(c, ClaimStep(q)) && DecideClaim(c.row, q.claimant, q.now) == Acquire
    requires again.claimant == q.claimant && again.now < q.now + LeaseSeconds(q.leaseSeconds)
    ensures var d := Next(c, ClaimStep(q));
      && DecideClaim(d.row, again.claimant, again.now) == ReturnExistingClaim
      && Next(d, ClaimStep(again)).row == d.row && Next(d, ClaimStep(again)).leases == d.leases
  {
    var d := Next(c, ClaimStep(q));
    assert d.leases + [] == d.leases;
  }
}
