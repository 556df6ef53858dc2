/**
 * eventbus.rs: the outbox relay. Any number of relays claim batches of rows
 * under a lease, send them, and mark each row; every statement is atomic.
 */
module Outbox {
  import opened Wrappers

  type Token = nat
  type Time = int
  type RowId = nat

  const BATCH_LIMIT: nat := 25
  const LEASE_SECONDS: int := 300

  datatype Status = Pending | Failed | Claimed | Published

  datatype Row = Row(
    status: Status, createdAt: Time, availableAt: Time, token: Option<Token>, expiry: Option<Time>, attempts: nat)

  type Rows = map<RowId, Row>

  /** The candidates of the claiming statement. */
  predicate Eligible(r: Row, now: Time) {
    || ((r.status == Pending || r.status == Failed) && r.availableAt <= now)
    || (r.status == Claimed && r.expiry.Some? && r.expiry.value <= now)
  }

  function Power2(n: nat): (p: nat)
    ensures p > 0
  {
    if n == 0 then 1 else 2 * Power2(n - 1)
  }

  /** `LEAST(60, power(2, LEAST(attempts, 6)))`, on the attempts before this one. */
  function Backoff(attempts: nat): (s: int)
    ensures 1 <= s <= 60
  {
    var p := Power2(if attempts < 6 then attempts else 6);
    if p < 60 then p else 60
  }

  lemma BackoffDoublesThenCaps(attempts: nat)
    ensures Backoff(0) == 1 && (attempts < 5 ==> Backoff(attempts + 1) == 2 * Backoff(attempts))
    ensures attempts >= 6 ==> Backoff(attempts) == 60
  {
    if attempts < 5 {
      PowerSmall(attempts + 1);
    }
    assert Power2(6) == 2 * Power2(5) && Power2(5) == 2 * Power2(4) && Power2(4) == 2 * Power2(3) && Power2(3) == 2 * Power2(2);
  }

  lemma {:induction false} PowerSmall(n: nat)
    requires n <= 5
    ensures Power2(n) <= 32
    decreases 5 - n
  {
    if n == 5 {
      assert Power2(5) == 2 * Power2(4) && Power2(4) == 2 * Power2(3) && Power2(3) == 2 * Power2(2) && Power2(2) == 2 * Power2(1);
    } else {
      PowerSmall(n + 1);
      assert Power2(n + 1) == 2 * Power2(n);
    }
  }

  // ---- The three statements -----------------------------------------------------------

  function ClaimRow(r: Row, t: Token, now: Time): Row {
    r.(status := Claimed, token := Some(t), expiry := Some(now + LEASE_SECONDS))
  }

  function ClaimRows(rows: Rows, chosen: set<RowId>, t: Token, now: Time): Rows {
    map id | id in rows :: if id in chosen then ClaimRow(rows[id], t, now) else rows[id]
  }

  /** The marking statements touch a row only while it is claimed under the given lease. */
  predicate HeldBy(rows: Rows, id: RowId, t: Token) {
    id in rows && rows[id].status == Claimed && rows[id].token == Some(t)
  }

  function PublishRow(r: Row): Row { r.(status := Published, attempts := r.attempts + 1, token := None, expiry := None) }

  function FailRow(r: Row, now: Time): Row {
    r.(status := Failed, attempts := r.attempts + 1, availableAt := now + Backoff(r.attempts), token := None, expiry := None)
  }

  function MarkPublished(rows: Rows, id: RowId, t: Token): Rows {
    if HeldBy(rows, id, t) then rows[id := PublishRow(rows[id])] else rows
  }

  function MarkFailed(rows: Rows, id: RowId, t: Token, now: Time): Rows {
    if HeldBy(rows, id, t) then rows[id := FailRow(rows[id], now)] else rows
  }

  function EligibleIds(rows: Rows, locked: set<RowId>, now: Time): set<RowId> {
    set id | id in rows && id !in locked && Eligible(rows[id], now)
  }

  /** `ORDER BY created_at LIMIT 25` over the eligible rows that no other statement has locked. */
  predicate IsBatch(rows: Rows, locked: set<RowId>, now: Time, chosen: set<RowId>) {
    var eligible := EligibleIds(rows, locked, now);
    && chosen <= eligible && |chosen| <= BATCH_LIMIT
    && (chosen != eligible ==> |chosen| == BATCH_LIMIT)
    && NoneOlder(rows, chosen, eligible - chosen)
  }

  /** No row of `left` is older than one of `taken`. */
  predicate NoneOlder(rows: Rows, taken: set<RowId>, left: set<RowId>) {
    forall c, id :: c in taken && id in left && c in rows && id in rows ==> rows[c].createdAt <= rows[id].createdAt
  }

  lemma NothingChosen(rows: Rows, left: set<RowId>)
    ensures NoneOlder(rows, IdSet([]), left) && Distinct([]) && IdSet([]) == {}
  {
  }

  lemma ChooseNext(rows: Rows, chosen: seq<RowId>, left: set<RowId>, id: RowId)
    requires NoneOlder(rows, IdSet(chosen), left) && Distinct(chosen) && id in left && left !! IdSet(chosen) && left <= rows.Keys
    requires forall x :: x in left ==> rows[id].createdAt <= rows[x].createdAt
    ensures IdSet(chosen + [id]) == IdSet(chosen) + {id} && Distinct(chosen + [id])
    ensures NoneOlder(rows, IdSet(chosen + [id]), left - {id})
  {
    assert id !in IdSet(chosen);
    forall i | 0 <= i < |chosen| ensures chosen[i] != id {
      assert chosen[i] in chosen;
    }
  }

  function IdSet(ids: seq<RowId>): set<RowId> { set id | id in ids }

  predicate Distinct(ids: seq<RowId>) { forall i, j :: 0 <= i < j < |ids| ==> ids[i] != ids[j] }

  function Marked(r: Row, sent: bool, now: Time): Row { if sent then PublishRow(r) else FailRow(r, now) }

  /** The table after a relay that ran alone. */
  function Relayed(rows: Rows, chosen: set<RowId>, t: Token, now: Time, sent: RowId -> bool): Rows {
    map id | id in rows :: if id in chosen then Marked(ClaimRow(rows[id], t, now), sent(id), now) else rows[id]
  }

  /** The claimed table once the rows `done` are marked. */
  function MarkedRows(rows: Rows, done: set<RowId>, now: Time, sent: RowId -> bool): Rows {
    map id | id in rows :: if id in done then Marked(rows[id], sent(id), now) else rows[id]
  }

  lemma MarkNext(claimed: Rows, done: set<RowId>, id: RowId, t: Token, now: Time, sent: RowId -> bool)
    requires HeldBy(claimed, id, t) && id !in done
    ensures var rows := MarkedRows(claimed, done, now, sent);
      (if sent(id) then MarkPublished(rows, id, t) else MarkFailed(rows, id, t, now)) == MarkedRows(claimed, done + {id}, now, sent)
  {
  }

  lemma AllMarked(rows: Rows, chosen: set<RowId>, t: Token, now: Time, sent: RowId -> bool)
    ensures MarkedRows(ClaimRows(rows, chosen, t, now), chosen, now, sent) == Relayed(rows, chosen, t, now, sent)
  {
  }

  lemma NoneMarked(rows: Rows, now: Time, sent: RowId -> bool)
    ensures MarkedRows(rows, {}, now, sent) == rows
  {
  }

  lemma NextId(ids: seq<RowId>, n: nat)
    requires Distinct(ids) && n < |ids|
    ensures IdSet(ids[..n + 1]) == IdSet(ids[..n]) + {ids[n]} && ids[n] !in IdSet(ids[..n]) && ids[n] in IdSet(ids)
  {
    assert ids[..n + 1] == ids[..n] + [ids[n]];
  }

  lemma ClaimedHeld(rows: Rows, chosen: set<RowId>, t: Token, now: Time, id: RowId)
    requires id in chosen && id in rows
    ensures HeldBy(ClaimRows(rows, chosen, t, now), id, t)
  {
  }

  lemma BatchOfRows(rows: Rows, locked: set<RowId>, now: Time, chosen: set<RowId>)
    requires IsBatch(rows, locked, now, chosen)
    ensures chosen <= rows.Keys && |chosen| <= BATCH_LIMIT
  {
    hide Eligible;
  }

  // ---- The relay ------------------------------------------------------------------------

  class OutboxTable {
    var rows: Rows

    method ClaimBatch(t: Token, now: Time, locked: set<RowId>) returns (chosen: seq<RowId>)
      modifies this
      ensures Distinct(chosen) && IsBatch(old(rows), locked, now, IdSet(chosen))
      ensures rows == ClaimRows(old(rows), IdSet(chosen), t, now)
    {
      hide Eligible;
      var eligible := EligibleIds(rows, locked, now);
      chosen := OldestFirst(eligible);
      rows := ClaimRows(rows, IdSet(chosen), t, now);
    }

    /** The sort and the limit. */
    method OldestFirst(eligible: set<RowId>) returns (chosen: seq<RowId>)
      requires eligible <= rows.Keys
      ensures Distinct(chosen) && IdSet(chosen) <= eligible && |IdSet(chosen)| == |chosen| <= BATCH_LIMIT
      ensures IdSet(chosen) != eligible ==> |chosen| == BATCH_LIMIT
      ensures NoneOlder(rows, IdSet(chosen), eligible - IdSet(chosen))
    {
      hide NoneOlder, Distinct;
      var left := eligible;
      chosen := [];
      NothingChosen(rows, left);
      while left != {} && |chosen| < BATCH_LIMIT
        invariant Distinct(chosen) && |chosen| <= BATCH_LIMIT
        invariant left == eligible - IdSet(chosen) && IdSet(chosen) <= eligible
        invariant NoneOlder(rows, IdSet(chosen), left)
        decreases |left|
      {
        var id := Oldest(left);
        ChooseNext(rows, chosen, left, id);
        chosen := chosen + [id];
        left := left - {id};
      }
      DistinctCount(chosen);
    }

    method Oldest(ids: set<RowId>) returns (oldest: RowId)
      requires ids != {} && forall id :: id in ids ==> id in rows
      ensures oldest in ids && forall id :: id in ids ==> rows[oldest].createdAt <= rows[id].createdAt
    {
      oldest :| oldest in ids;
      var left := ids - {oldest};
      while left != {}
        invariant left <= ids && oldest in ids
        invariant forall id :: id in ids - left ==> rows[oldest].createdAt <= rows[id].createdAt
        decreases |left|
      {
        var id :| id in left;
        if rows[id].createdAt < rows[oldest].createdAt {
          oldest := id;
        }
        left := left - {id};
      }
    }

    /**
     * One relay running alone: it claims a batch, and leaves every claimed row
     * published or, if its send failed, due again after its backoff.
     */
    method RelayBatch(t: Token, now: Time, locked: set<RowId>, sent: RowId -> bool) returns (count: nat)
      modifies this
      ensures count <= BATCH_LIMIT
      ensures exists chosen :: |chosen| == count && IsBatch(old(rows), locked, now, chosen) && rows == Relayed(old(rows), chosen, t, now, sent)
    {
      hide IsBatch, ClaimRows, MarkedRows, Relayed, HeldBy, MarkPublished, MarkFailed, IdSet, Distinct;
      var ids := ClaimBatch(t, now, locked);
      ghost var chosen := IdSet(ids);
      ghost var claimed := rows;
      BatchOfRows(old(rows), locked, now, chosen);
      DistinctCount(ids);
      NoneMarked(rows, now, sent);
      assert IdSet(ids[..0]) == {} by { NoIds(ids[..0]); }
      for n := 0 to |ids|
        invariant rows == MarkedRows(claimed, IdSet(ids[..n]), now, sent)
      {
        var id := ids[n];
        NextId(ids, n);
        ClaimedHeld(old(rows), chosen, t, now, id);
        MarkNext(claimed, IdSet(ids[..n]), id, t, now, sent);
        if sent(id) {
          rows := MarkPublished(rows, id, t);
        } else {
          rows := MarkFailed(rows, id, t, now);
        }
      }
      assert ids[..|ids|] == ids;
      count := |ids|;
      AllMarked(old(rows), chosen, t, now, sent);
    }
  }

  lemma NoIds(ids: seq<RowId>)
    requires ids == []
    ensures IdSet(ids) == {}
  {
  }

  lemma {:induction false} DistinctCount(ids: seq<RowId>)
    requires Distinct(ids)
    ensures |IdSet(ids)| == |ids|
  {
    if ids != [] {
      var n := |ids| - 1;
      DistinctCount(ids[..n]);
      assert IdSet(ids) == IdSet(ids[..n]) + {ids[n]};
      assert ids[n] !in ids[..n];
    }
  }

  // ---- Any number of relays, interleaved ----------------------------------------------

  /** One row a relay took: it may send it and must then mark it once. */
  datatype Errand = Taken(expiry: Time) | SentOk(expiry: Time) | SentFailed(expiry: Time) | Done

  /** The table, the errands of every relay by its batch's token, the clock, and every successful send. */
  datatype World = World(rows: Rows, errands: map<(Token, RowId), Errand>, clock: Time, delivered: set<(Token, RowId)>)

  datatype Step =
    | Claim(token: Token, chosen: set<RowId>, locked: set<RowId>)
    | Send(token: Token, id: RowId, ok: bool)
    | Mark(token: Token, id: RowId)
    | Tick(now: Time)

  predicate Admits(w: World, s: Step) {
    match s
    case Claim(t, chosen, locked) => IsBatch(w.rows, locked, w.clock, chosen) && forall e :: e in w.errands ==> e.0 != t
    case Send(t, id, _) => (t, id) in w.errands && w.errands[(t, id)].Taken?
    case Mark(t, id) => (t, id) in w.errands && (w.errands[(t, id)].SentOk? || w.errands[(t, id)].SentFailed?)
    case Tick(now) => w.clock <= now
  }

  function Next(w: World, s: Step): World
    requires Admits(w, s)
  {
    match s
    case Claim(t, chosen, _) =>
      w.(rows := ClaimRows(w.rows, chosen, t, w.clock),
         errands := w.errands + map id | id in chosen :: (t, id) := Taken(w.clock + LEASE_SECONDS))
    case Send(t, id, ok) =>
      var expiry := w.errands[(t, id)].expiry;
      w.(errands := w.errands[(t, id) := if ok then SentOk(expiry) else SentFailed(expiry)],
         delivered := if ok then w.delivered + {(t, id)} else w.delivered)
    case Mark(t, id) =>
      w.(rows := if w.errands[(t, id)].SentOk? then MarkPublished(w.rows, id, t) else MarkFailed(w.rows, id, t, w.clock),
         errands := w.errands[(t, id) := Done])
    case Tick(now) => w.(clock := now)
  }

  predicate IsRun(states: seq<World>, steps: seq<Step>) {
    && |states| == |steps| + 1 && Starts(states[0])
    && forall i :: 0 <= i < |steps| ==> Admits(states[i], steps[i]) && states[i + 1] == Next(states[i], steps[i])
  }

  /** Rows as the transactions that enqueue them leave them. */
  predicate Starts(w: World) {
    && w.errands == map[] && w.delivered == {}
    && forall id :: id in w.rows ==> w.rows[id].status == Pending && w.rows[id].token == None && w.rows[id].expiry == None
  }

  /** How long an unpublished row can still be out of reach. */
  function Due(r: Row): Time {
    if r.status == Claimed && r.expiry.Some? then r.expiry.value else r.availableAt
  }

  predicate OpenErrand(errands: map<(Token, RowId), Errand>, e: (Token, RowId), expiry: Time) {
    e in errands && errands[e] != Done && errands[e].expiry == expiry
  }

  ghost predicate RowOk(w: World, id: RowId)
    requires id in w.rows
  {
    var r := w.rows[id];
    && (r.status == Claimed <==> r.token.Some?) && (r.status == Claimed <==> r.expiry.Some?)
    && (r.status == Claimed ==> r.expiry.value <= w.clock + LEASE_SECONDS)
    && (r.status == Failed ==> r.availableAt <= w.clock + 60)
    && (r.status == Claimed ==> OpenErrand(w.errands, (r.token.value, id), r.expiry.value))
    && (r.status == Published ==> exists t :: (t, id) in w.delivered)
  }

  ghost predicate ErrandOk(w: World, e: (Token, RowId))
    requires e in w.errands
  {
    && e.1 in w.rows
    && (w.errands[e].SentOk? ==> e in w.delivered)
    // a relay whose lease has not run out still holds its row
    && (w.errands[e] != Done && w.clock < w.errands[e].expiry ==> HeldBy(w.rows, e.1, e.0))
  }

  ghost predicate Sound(w: World) {
    (forall id :: id in w.rows ==> RowOk(w, id)) && forall e :: e in w.errands ==> ErrandOk(w, e)
  }

  lemma ClaimKeepsSound(w: World, s: Step)
    requires Sound(w) && Admits(w, s) && s.Claim?
    ensures Sound(Next(w, s))
  {
    hide RowOk, ErrandOk, Admits, Next;
    ClaimKeepsIds(w, s);
    forall id | id in Next(w, s).rows ensures RowOk(Next(w, s), id) {
      ClaimKeepsRow(w, s, id);
    }
    forall e | e in Next(w, s).errands ensures ErrandOk(Next(w, s), e) {
      ClaimKeepsErrand(w, s, e);
    }
  }

  lemma ClaimKeepsIds(w: World, s: Step)
    requires Admits(w, s) && s.Claim?
    ensures Next(w, s).rows.Keys == w.rows.Keys
  {
    hide IsBatch;
  }

  lemma ClaimKeepsRow(w: World, s: Step, id: RowId)
    requires Admits(w, s) && s.Claim? && id in w.rows && id in Next(w, s).rows && RowOk(w, id)
    ensures RowOk(Next(w, s), id)
  {
    hide IsBatch;
    assert id !in s.chosen ==> Next(w, s).rows[id] == w.rows[id];
  }

  lemma ClaimKeepsErrand(w: World, s: Step, e: (Token, RowId))
    requires Sound(w) && Admits(w, s) && s.Claim? && e in Next(w, s).errands
    ensures ErrandOk(Next(w, s), e)
  {
    ClaimedWereDue(w, s);
    hide IsBatch;
    if e in w.errands {
      assert ErrandOk(w, e) && RowOk(w, e.1);
    }
  }

  lemma ClaimedWereDue(w: World, s: Step)
    requires Admits(w, s) && s.Claim?
    ensures forall id :: id in s.chosen ==> id in w.rows && Eligible(w.rows[id], w.clock)
  {
  }

  lemma SendKeepsSound(w: World, s: Step)
    requires Sound(w) && Admits(w, s) && s.Send?
    ensures Sound(Next(w, s))
  {
    var d := Next(w, s);
    forall id | id in d.rows ensures RowOk(d, id) {
      assert RowOk(w, id);
      if w.rows[id].status == Published {
        var t :| (t, id) in w.delivered;
        assert (t, id) in d.delivered;
      }
    }
    forall e | e in d.errands ensures ErrandOk(d, e) {
      assert ErrandOk(w, e);
    }
  }

  lemma MarkKeepsSound(w: World, s: Step)
    requires Sound(w) && Admits(w, s) && s.Mark?
    ensures Sound(Next(w, s))
  {
    var d := Next(w, s);
    assert ErrandOk(w, (s.token, s.id)) && RowOk(w, s.id);
    forall id | id in d.rows ensures RowOk(d, id) {
      assert RowOk(w, id);
    }
    forall e | e in d.errands ensures ErrandOk(d, e) {
      assert ErrandOk(w, e);
    }
  }

  lemma TickKeepsSound(w: World, s: Step)
    requires Sound(w) && Admits(w, s) && s.Tick?
    ensures Sound(Next(w, s))
  {
    var d := Next(w, s);
    forall id | id in d.rows ensures RowOk(d, id) {
      assert RowOk(w, id);
    }
    forall e | e in d.errands ensures ErrandOk(d, e) {
      assert ErrandOk(w, e);
    }
  }

  /** Every state of every run is sound. */
  lemma {:induction false} RunSound(states: seq<World>, steps: seq<Step>, n: nat)
    requires IsRun(states, steps) && n < |states|
    ensures Sound(states[n])
  {
    hide Sound, Next, Admits;
    if n == 0 {
      StartsSound(states[0]);
    } else {
      RunSound(states, steps, n - 1);
      match steps[n - 1] {
        case Claim(_, _, _) => ClaimKeepsSound(states[n - 1], steps[n - 1]);
        case Send(_, _, _) => SendKeepsSound(states[n - 1], steps[n - 1]);
        case Mark(_, _) => MarkKeepsSound(states[n - 1], steps[n - 1]);
        case Tick(_) => TickKeepsSound(states[n - 1], steps[n - 1]);
      }
    }
  }

  lemma StartsSound(w: World)
    requires Starts(w)
    ensures Sound(w)
  {
  }

  /** A row that is published stays exactly as it is; no row disappears. */
  lemma {:induction false} PublishedForGood(states: seq<World>, steps: seq<Step>, i: nat, j: nat, id: RowId)
    requires IsRun(states, steps) && i <= j < |states| && id in states[i].rows && states[i].rows[id].status == Published
    ensures id in states[j].rows && states[j].rows[id] == states[i].rows[id]
    decreases j - i
  {
    if i < j {
      PublishedForGood(states, steps, i, j - 1, id);
      PublishedStep(states[j - 1], steps[j - 1], id);
    }
  }

  lemma PublishedStep(w: World, s: Step, id: RowId)
    requires Admits(w, s) && id in w.rows && w.rows[id].status == Published
    ensures id in Next(w, s).rows && Next(w, s).rows[id] == w.rows[id]
  {
    if s.Claim? {
      ClaimedWereDue(w, s);
    }
  }

  /** A row becomes published only when the relay holding its current lease marks it after a successful send. */
  lemma PublishedOnlyByHolder(states: seq<World>, steps: seq<Step>, n: nat, id: RowId)
    requires IsRun(states, steps) && n < |steps| && id in states[n].rows
    requires states[n].rows[id].status != Published
    ensures id in states[n + 1].rows
    ensures states[n + 1].rows[id].status == Published <==>
      steps[n].Mark? && steps[n].id == id && HeldBy(states[n].rows, id, steps[n].token)
      && states[n].errands[(steps[n].token, id)].SentOk?
    ensures states[n + 1].rows[id].status == Published ==> (steps[n].token, id) in states[n].delivered
  {
    RunSound(states, steps, n);
    if steps[n].Mark? {
      assert ErrandOk(states[n], (steps[n].token, steps[n].id));
    }
  }

  /** A relay whose lease was superseded changes no row by marking. */
  lemma SupersededMarksNothing(w: World, t: Token, id: RowId)
    requires Admits(w, Mark(t, id)) && !HeldBy(w.rows, id, t)
    ensures Next(w, Mark(t, id)).rows == w.rows
  {
  }

  /** A relay that marks before its lease runs out marks its row: it cannot have been superseded. */
  lemma MarkInTimeTakesEffect(states: seq<World>, steps: seq<Step>, n: nat)
    requires IsRun(states, steps) && n < |steps| && steps[n].Mark?
    requires states[n].clock < states[n].errands[(steps[n].token, steps[n].id)].expiry
    ensures var id := steps[n].id; var r := states[n].rows;
      && HeldBy(r, id, steps[n].token)
      && states[n + 1].rows == r[id := Marked(r[id], states[n].errands[(steps[n].token, id)].SentOk?, states[n].clock)]
  {
    RunSound(states, steps, n);
    assert ErrandOk(states[n], (steps[n].token, steps[n].id));
  }

  /**
   * No row is lost: an unpublished row is claimable once its lease or backoff
   * has run out, at most five minutes away unless it was never yet available.
   */
  lemma UnpublishedBecomesClaimable(states: seq<World>, steps: seq<Step>, n: nat, id: RowId, now: Time)
    requires IsRun(states, steps) && n < |states| && id in states[n].rows && states[n].rows[id].status != Published
    ensures Eligible(states[n].rows[id], now) <==> Due(states[n].rows[id]) <= now
    ensures states[n].rows[id].status != Pending ==> Due(states[n].rows[id]) <= states[n].clock + LEASE_SECONDS
  {
    RunSound(states, steps, n);
    assert RowOk(states[n], id);
  }

  /** Fewer than a batch of the other rows on offer are no younger than `id`. */
  ghost predicate AmongTheOldest(rows: Rows, offer: set<RowId>, id: RowId) {
    forall older :: OlderRows(rows, offer, id, older) ==> |older| < BATCH_LIMIT
  }

  ghost predicate OlderRows(rows: Rows, offer: set<RowId>, id: RowId, older: set<RowId>) {
    older <= offer - {id} && id in rows && forall x :: x in older ==> x in rows && rows[x].createdAt <= rows[id].createdAt
  }

  /** An eligible row among the oldest is taken by the next claim that finds it unlocked. */
  lemma OldEnoughIsTaken(w: World, s: Step, id: RowId)
    requires Admits(w, s) && s.Claim? && id in EligibleIds(w.rows, s.locked, w.clock)
    requires AmongTheOldest(w.rows, EligibleIds(w.rows, s.locked, w.clock), id)
    ensures id in s.chosen && HeldBy(Next(w, s).rows, id, s.token)
  {
    var offer := EligibleIds(w.rows, s.locked, w.clock);
    assert id !in s.chosen ==> OlderRows(w.rows, offer, id, s.chosen);
  }

  /** What marking leaves of a claimed row: published for good, or due again after 1, 2, 4, 8, 16, 32 and then 60 seconds; either way one attempt more and no lease. */
  lemma MarkedMeans(r: Row, now: Time)
    ensures Marked(r, true, now) == Row(Published, r.createdAt, r.availableAt, None, None, r.attempts + 1)
    ensures var n := r.attempts; var wait := Marked(r, false, now).availableAt - now;
      && Marked(r, false, now) == Row(Failed, r.createdAt, now + wait, None, None, n + 1)
      && (n < 6 ==> wait == [1, 2, 4, 8, 16, 32][n]) && (n >= 6 ==> wait == 60)
  {
    BackoffDoublesThenCaps(0);
    BackoffDoublesThenCaps(1);
    BackoffDoublesThenCaps(2);
    BackoffDoublesThenCaps(3);
    BackoffDoublesThenCaps(4);
    BackoffDoublesThenCaps(r.attempts);
    hide Backoff;
  }

  ghost predicate Takes(s: Step, id: RowId) { s.Claim? && id in s.chosen }

  /** A row that is not claimed stays as it is until a relay takes it. */
  lemma {:induction false} UntakenStays(states: seq<World>, steps: seq<Step>, i: nat, j: nat, id: RowId)
    requires IsRun(states, steps) && i <= j < |states| && id in states[i].rows && states[i].rows[id].status != Claimed
    requires forall k :: i <= k < j ==> !Takes(steps[k], id)
    ensures id in states[j].rows && states[j].rows[id] == states[i].rows[id]
    decreases j - i
  {
    if i < j {
      UntakenStays(states, steps, i, j - 1, id);
      UntakenStep(states[j - 1], steps[j - 1], id);
    }
  }

  lemma UntakenStep(w: World, s: Step, id: RowId)
    requires Admits(w, s) && id in w.rows && w.rows[id].status != Claimed && !Takes(s, id)
    ensures id in Next(w, s).rows && Next(w, s).rows[id] == w.rows[id]
  {
    hide IsBatch;
  }

  /** A row that waits for its time, failed ones for their backoff, is never taken before it, and a published one never. */
  lemma NotTakenEarly(states: seq<World>, steps: seq<Step>, i: nat, j: nat, id: RowId)
    requires IsRun(states, steps) && i <= j < |steps| && id in states[i].rows && states[i].rows[id].status != Claimed
    requires Takes(steps[j], id) && forall k :: i <= k < j ==> !Takes(steps[k], id)
    ensures states[i].rows[id].status != Published && states[i].rows[id].availableAt <= states[j].clock
  {
    UntakenStays(states, steps, i, j, id);
    ClaimedWereDue(states[j], steps[j]);
  }

  ghost predicate Marks(s: Step, t: Token, id: RowId) { s.Mark? && s.token == t && s.id == id }

  /** A claimed row stays under its lease until its holder marks it or a relay takes it. */
  lemma {:induction false} UnmarkedStays(states: seq<World>, steps: seq<Step>, i: nat, j: nat, id: RowId, t: Token)
    requires IsRun(states, steps) && i <= j < |states| && HeldBy(states[i].rows, id, t)
    requires forall k :: i <= k < j ==> !Takes(steps[k], id) && !Marks(steps[k], t, id)
    ensures id in states[j].rows && states[j].rows[id] == states[i].rows[id]
    decreases j - i
  {
    if i < j {
      UnmarkedStays(states, steps, i, j - 1, id, t);
      UnmarkedStep(states[j - 1], steps[j - 1], id, t);
    }
  }

  lemma UnmarkedStep(w: World, s: Step, id: RowId, t: Token)
    requires Admits(w, s) && HeldBy(w.rows, id, t) && !Takes(s, id) && !Marks(s, t, id)
    ensures id in Next(w, s).rows && Next(w, s).rows[id] == w.rows[id]
  {
    hide IsBatch;
  }

  /** A lease excludes: no other relay takes a row before its lease runs out, unless its holder has marked it. */
  lemma LeaseExcludes(states: seq<World>, steps: seq<Step>, i: nat, j: nat, id: RowId, t: Token)
    requires IsRun(states, steps) && i <= j < |steps| && HeldBy(states[i].rows, id, t)
    requires Takes(steps[j], id) && forall k :: i <= k < j ==> !Takes(steps[k], id) && !Marks(steps[k], t, id)
    ensures states[i].rows[id].expiry.Some? && states[i].rows[id].expiry.value <= states[j].clock
  {
    UnmarkedStays(states, steps, i, j, id, t);
    ClaimedWereDue(states[j], steps[j]);
  }

  /** Taking a row leases it for 300 seconds under the batch's token and changes nothing else of it. */
  lemma TakingLeases(w: World, s: Step, id: RowId)
    requires Admits(w, s) && Takes(s, id) && id in w.rows
    ensures id in Next(w, s).rows
    ensures var r := w.rows[id];
      Next(w, s).rows[id] == Row(Claimed, r.createdAt, r.availableAt, Some(s.token), Some(w.clock + 300), r.attempts)
  {
    hide IsBatch;
  }
}
