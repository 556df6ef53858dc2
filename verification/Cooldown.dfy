/**
 * cooldown.rs: the bounded registry that mutes repeated side effects. Full
 * registries forget the entry that expires first, so how soon an effect can
 * fire again depends on how many other effects fired meanwhile.
 */
module Cooldown {
  import opened Wrappers
  import opened PolicyModel

  datatype ActionFamily = LogFamily | Punishment

  function FamilyOf(t: ActionType): Option<ActionFamily> {
    match t
    case Log => Some(LogFamily)
    case LobbyWarn => Some(Punishment)
    case LobbyBan => Some(Punishment)
    case Blacklist => Some(Punishment)
    case HubWarn => Some(Punishment)
    case HubMute => Some(Punishment)
    case HubBan => Some(Punishment)
    case _ => None
  }

  /** Logging is one family, every punishment the other; nothing else is recorded. */
  lemma FamiliesMean(t: ActionType, u: ActionType)
    ensures FamilyOf(t) != None <==> t in {Log, LobbyWarn, LobbyBan, Blacklist, HubWarn, HubMute, HubBan}
    ensures FamilyOf(t) != None && FamilyOf(u) != None ==> (FamilyOf(t) == FamilyOf(u) <==> (t == Log <==> u == Log))
  {
  }

  datatype Key = Key(subject: string, scope: PolicyScope, ruleId: Uuid, family: ActionFamily)

  type Instant = nat
  type Entries = map<Key, Instant>

  /** `limit` is the last representable instant. */
  datatype Config = Config(duration: nat, maxEntries: nat, limit: Instant)

  /** `now.checked_add(duration).unwrap_or(now)`. */
  function ExpiresAt(c: Config, now: Instant): Instant {
    if now + c.duration <= c.limit then now + c.duration else now
  }

  function Unexpired(entries: Entries, now: Instant): Entries {
    map k | k in entries && entries[k] > now :: entries[k]
  }

  /** `k` is an entry that expires no later than any other. */
  predicate Earliest(entries: Entries, k: Key) {
    k in entries && forall x :: x in entries ==> entries[k] <= entries[x]
  }

  /** The registry once room is made: as it was, or without one earliest entry if it was full. */
  ghost predicate RoomMade(c: Config, before: Entries, after: Entries) {
    if |before| < c.maxEntries then after == before
    else exists k :: Earliest(before, k) && after == before - {k}
  }

  /** What one recorded call does. */
  ghost predicate Call(c: Config, before: Entries, key: Key, now: Instant, allowed: bool, after: Entries) {
    var live := Unexpired(before, now);
    && allowed == (key !in live)
    && (!allowed ==> after == live)
    && (allowed ==> exists kept :: RoomMade(c, live, kept) && after == kept[key := ExpiresAt(c, now)])
  }

  class SideEffectCooldown {
    const config: Config
    var entries: Entries

    predicate Valid()
      reads this
    {
      config.maxEntries >= 1 && |entries| <= config.maxEntries
    }

    /** A registry of size zero is normalized to size one. */
    constructor (c: Config)
      ensures Valid() && entries == map[]
      ensures config == c.(maxEntries := if c.maxEntries < 1 then 1 else c.maxEntries)
    {
      config := c.(maxEntries := if c.maxEntries < 1 then 1 else c.maxEntries);
      entries := map[];
    }

    method AllowAt(subject: string, scope: PolicyScope, ruleId: Uuid, action: ActionType, now: Instant) returns (allowed: bool)
      requires Valid()
      modifies this
      ensures Valid()
      ensures FamilyOf(action).None? ==> allowed && entries == old(entries)
      ensures FamilyOf(action).Some? ==>
        Call(config, old(entries), Key(subject, scope, ruleId, FamilyOf(action).value), now, allowed, entries)
    {
      var family := FamilyOf(action);
      if family.None? {
        return true;
      }
      var _ := PruneExpired(now);
      var key := Key(subject, scope, ruleId, family.value);
      if key in entries && entries[key] > now {
        return false;
      }
      ghost var live := entries;
      if |entries| >= config.maxEntries {
        EvictEarliest();
      }
      assert RoomMade(config, live, entries);
      entries := entries[key := ExpiresAt(config, now)];
      allowed := true;
    }

    method PruneExpired(now: Instant) returns (removed: nat)
      requires Valid()
      modifies this
      ensures Valid() && entries == Unexpired(old(entries), now)
      ensures removed == |old(entries)| - |entries|
    {
      var expired := set k | k in entries && entries[k] <= now;
      removed := 0;
      ghost var start, dead := entries, expired;
      while expired != {}
        invariant expired <= dead && entries == start - (dead - expired) && removed + |expired| == |dead|
        decreases |expired|
      {
        var k :| k in expired;
        RemoveNext(start, dead, expired, k);
        entries := entries - {k};
        removed := removed + 1;
        expired := expired - {k};
      }
      AllRemoved(start, dead, now);
    }

    method EvictEarliest()
      requires entries != map[]
      modifies this
      ensures exists k :: Earliest(old(entries), k) && entries == old(entries) - {k}
      ensures |entries| == |old(entries)| - 1
    {
      var earliest :| earliest in entries.Keys by { assert entries.Keys != {}; }
      var left := entries.Keys - {earliest};
      while left != {}
        invariant earliest in entries && left <= entries.Keys
        invariant forall x :: x in entries && x !in left ==> entries[earliest] <= entries[x]
        decreases |left|
      {
        var k :| k in left;
        if entries[k] < entries[earliest] {
          earliest := k;
        }
        left := left - {k};
      }
      assert Earliest(entries, earliest);
      RemoveOne(entries, earliest);
      entries := entries - {earliest};
    }
  }

  lemma RemoveNext(start: Entries, dead: set<Key>, expired: set<Key>, k: Key)
    requires k in expired && expired <= dead
    ensures start - (dead - (expired - {k})) == (start - (dead - expired)) - {k}
  {
    var a, b := start - (dead - (expired - {k})), (start - (dead - expired)) - {k};
    assert a.Keys == b.Keys;
  }

  lemma AllRemoved(start: Entries, dead: set<Key>, now: Instant)
    requires dead == set k | k in start && start[k] <= now
    ensures start - (dead - {}) == Unexpired(start, now)
    ensures |Unexpired(start, now)| + |dead| == |start|
  {
    assert dead - {} == dead;
    var live := Unexpired(start, now);
    assert start.Keys == live.Keys + dead && live.Keys !! dead;
    assert |live.Keys + dead| == |live.Keys| + |dead|;
  }

  lemma RemoveOne(m: Entries, k: Key)
    requires k in m
    ensures |m - {k}| == |m| - 1
  {
    assert (m - {k}).Keys == m.Keys - {k};
  }

  // ---- Runs -----------------------------------------------------------------------------

  datatype Recorded = Recorded(key: Key, now: Instant, allowed: bool)

  /** The registry before and after each recorded call, at strictly increasing times. */
  ghost predicate IsRun(c: Config, states: seq<Entries>, calls: seq<Recorded>) {
    && c.maxEntries >= 1 && |states| == |calls| + 1 && states[0] == map[]
    && (forall i :: 0 <= i < |calls| ==> Call(c, states[i], calls[i].key, calls[i].now, calls[i].allowed, states[i + 1]))
    && (forall i, j :: 0 <= i < j < |calls| ==> calls[i].now < calls[j].now)
  }

  /** The distinct other keys recorded by calls i < m < j. */
  ghost function Others(calls: seq<Recorded>, i: nat, j: nat): set<Key>
    requires j <= |calls|
  {
    set m | i < m < j && calls[m].allowed && calls[m].key != calls[i].key :: calls[m].key
  }

  /** No entry outlives the last call by more than the duration. */
  ghost predicate Bounded(c: Config, entries: Entries, last: Instant) {
    forall k :: k in entries ==> entries[k] <= last + c.duration
  }

  lemma CallBounded(c: Config, before: Entries, key: Key, now: Instant, allowed: bool, after: Entries, last: Instant)
    requires Call(c, before, key, now, allowed, after) && Bounded(c, before, last) && last <= now
    ensures Bounded(c, after, now)
  {
    if allowed {
      var live := Unexpired(before, now);
      var kept :| RoomMade(c, live, kept) && after == kept[key := ExpiresAt(c, now)];
      if |live| >= c.maxEntries {
        var v :| Earliest(live, v) && kept == live - {v};
      }
    }
  }

  lemma {:induction false} RunBounded(c: Config, states: seq<Entries>, calls: seq<Recorded>, n: nat)
    requires IsRun(c, states, calls) && n < |calls|
    ensures Bounded(c, states[n], if n == 0 then 0 else calls[n - 1].now)
  {
    hide Call;
    if n > 0 {
      RunBounded(c, states, calls, n - 1);
      CallBounded(c, states[n - 1], calls[n - 1].key, calls[n - 1].now, calls[n - 1].allowed, states[n],
                  if n == 1 then 0 else calls[n - 2].now);
    }
  }

  /** `k` is recorded with expiry `expiry`, and whatever expires no earlier is in `since`. */
  ghost predicate Guarded(entries: Entries, k: Key, expiry: Instant, since: set<Key>) {
    k in entries && entries[k] == expiry && forall x :: x in entries && x != k && entries[x] >= expiry ==> x in since
  }

  /** Recording a key leaves it guarded by nothing: everything else was recorded earlier and expires earlier. */
  lemma RecordedGuards(c: Config, before: Entries, k: Key, now: Instant, after: Entries, last: Instant)
    requires Call(c, before, k, now, true, after) && Bounded(c, before, last) && last < now && now + c.duration <= c.limit
    ensures Guarded(after, k, now + c.duration, {})
  {
    var live := Unexpired(before, now);
    var kept :| RoomMade(c, live, kept) && after == kept[k := ExpiresAt(c, now)];
    if |live| >= c.maxEntries {
      var v :| Earliest(live, v) && kept == live - {v};
    }
  }

  /**
   * One later call, of another key or refused: the guarded key stays unless the
   * registry is full of keys recorded since.
   */
  lemma CallKeepsGuarded(c: Config, before: Entries, key: Key, now: Instant, allowed: bool, after: Entries, k: Key, expiry: Instant, since: set<Key>)
    requires Call(c, before, key, now, allowed, after) && Guarded(before, k, expiry, since) && now < expiry
    requires c.maxEntries >= 1 && k !in since
    ensures key == k ==> !allowed
    ensures var more := if allowed then since + {key} else since;
      |more| < c.maxEntries ==> Guarded(after, k, expiry, more)
  {
    var live := Unexpired(before, now);
    assert k in live;
    var more := if allowed then since + {key} else since;
    if allowed && |more| < c.maxEntries {
      var kept :| RoomMade(c, live, kept) && after == kept[key := ExpiresAt(c, now)];
      if |live| >= c.maxEntries {
        var v :| Earliest(live, v) && kept == live - {v};
        if v == k {
          FullOfLater(live, k, since, key);
        }
      }
    }
  }

  /** If the guarded key is the earliest, every entry but it was recorded since, and so is the incoming key. */
  lemma FullOfLater(live: Entries, k: Key, since: set<Key>, key: Key)
    requires Earliest(live, k) && key !in live && k !in since
    requires forall x :: x in live && x != k && live[x] >= live[k] ==> x in since
    ensures |live| <= |since + {key}|
  {
    assert live.Keys - {k} <= since;
    assert (live.Keys - {k}) + {key} <= since + {key};
    SubsetSize((live.Keys - {k}) + {key}, since + {key});
    assert |(live.Keys - {k}) + {key}| == |live.Keys - {k}| + 1;
    assert |live.Keys - {k}| == |live.Keys| - 1;
  }

  lemma {:induction false} SubsetSize<T>(a: set<T>, b: set<T>)
    requires a <= b
    ensures |a| <= |b|
  {
    if a != {} {
      var x :| x in a;
      SubsetSize(a - {x}, b - {x});
    }
  }

  /** While fewer than a registry of other keys have been recorded and the cooldown has not passed, the key stays recorded. */
  lemma {:induction false} StaysRecorded(c: Config, states: seq<Entries>, calls: seq<Recorded>, i: nat, j: nat)
    requires IsRun(c, states, calls) && i < j <= |calls| && calls[i].allowed
    requires calls[i].now + c.duration <= c.limit
    requires i + 1 < j ==> calls[j - 1].now < calls[i].now + c.duration
    requires |Others(calls, i, j)| < c.maxEntries
    ensures Guarded(states[j], calls[i].key, calls[i].now + c.duration, Others(calls, i, j))
    decreases j
  {
    hide Call, Guarded, Bounded;
    if j == i + 1 {
      RunBounded(c, states, calls, i);
      FirstRecord(c, states, calls, i);
      assert Others(calls, i, j) == {};
    } else {
      OthersNext(calls, i, j);
      hide Others;
      SubsetSize(Others(calls, i, j - 1), Others(calls, i, j));
      StaysRecorded(c, states, calls, i, j - 1);
      var m := calls[j - 1];
      CallKeepsGuarded(c, states[j - 1], m.key, m.now, m.allowed, states[j], calls[i].key, calls[i].now + c.duration, Others(calls, i, j - 1));
    }
  }

  lemma OthersNext(calls: seq<Recorded>, i: nat, j: nat)
    requires i + 1 < j <= |calls|
    ensures var m := calls[j - 1]; var before := Others(calls, i, j - 1);
      Others(calls, i, j) == if m.allowed && m.key != calls[i].key then before + {m.key} else before
    ensures calls[i].key !in Others(calls, i, j - 1)
  {
  }

  lemma FirstRecord(c: Config, states: seq<Entries>, calls: seq<Recorded>, i: nat)
    requires IsRun(c, states, calls) && i < |calls| && calls[i].allowed && calls[i].now + c.duration <= c.limit
    requires Bounded(c, states[i], if i == 0 then 0 else calls[i - 1].now)
    ensures Guarded(states[i + 1], calls[i].key, calls[i].now + c.duration, {})
  {
    hide Call, Guarded;
    if i == 0 {
      FirstEver(c, calls[0].key, calls[0].now, states[1]);
    } else {
      RecordedGuards(c, states[i], calls[i].key, calls[i].now, states[i + 1], calls[i - 1].now);
    }
  }

  lemma FirstEver(c: Config, k: Key, now: Instant, after: Entries)
    requires c.maxEntries >= 1 && Call(c, map[], k, now, true, after) && now + c.duration <= c.limit
    ensures Guarded(after, k, now + c.duration, {})
  {
    var live := Unexpired(map[], now);
    assert live == map[];
    var kept :| RoomMade(c, live, kept) && after == kept[k := ExpiresAt(c, now)];
  }

  /**
   * A key allowed at t is allowed again before t + duration only after at least
   * `max_entries` distinct other keys were recorded in between.
   */
  lemma EarlyRepeatNeedsManyOthers(c: Config, states: seq<Entries>, calls: seq<Recorded>, i: nat, j: nat)
    requires IsRun(c, states, calls) && i < j < |calls| && calls[i].allowed && calls[j].allowed && calls[j].key == calls[i].key
    requires calls[i].now + c.duration <= c.limit && calls[j].now < calls[i].now + c.duration
    ensures |Others(calls, i, j)| >= c.maxEntries
  {
    hide Guarded, Call, Others;
    var k, expiry, since := calls[i].key, calls[i].now + c.duration, Others(calls, i, j);
    var before, now, after := states[j], calls[j].now, states[j + 1];
    if |since| < c.maxEntries {
      StaysRecorded(c, states, calls, i, j);
      GuardedRefuses(c, before, now, after, k, expiry, since);
    }
  }

  lemma GuardedRefuses(c: Config, before: Entries, now: Instant, after: Entries, k: Key, expiry: Instant, since: set<Key>)
    requires Guarded(before, k, expiry, since) && now < expiry
    ensures !Call(c, before, k, now, true, after)
  {
  }

  /** Once the duration has passed the key is always allowed again. */
  lemma AllowedAfterDuration(c: Config, states: seq<Entries>, calls: seq<Recorded>, i: nat, j: nat)
    requires IsRun(c, states, calls) && i < j < |calls| && calls[j].key == calls[i].key
    requires calls[i].now + c.duration <= calls[j].now
    requires forall m :: i < m < j && calls[m].key == calls[i].key ==> !calls[m].allowed
    ensures calls[j].allowed
  {
    hide Call;
    Expires(c, states, calls, i, j);
    hide Bounded;
    ExpiredAllows(c, states[j], calls[j].key, calls[j].now, calls[j].allowed, states[j + 1], calls[i].now + c.duration);
  }

  lemma ExpiredAllows(c: Config, before: Entries, k: Key, now: Instant, allowed: bool, after: Entries, expiry: Instant)
    requires Call(c, before, k, now, allowed, after) && (k in before ==> before[k] <= expiry) && expiry <= now
    ensures allowed
  {
  }

  lemma {:induction false} Expires(c: Config, states: seq<Entries>, calls: seq<Recorded>, i: nat, j: nat)
    requires IsRun(c, states, calls) && i < j <= |calls|
    requires forall m :: i < m < j && calls[m].key == calls[i].key ==> !calls[m].allowed
    ensures calls[i].key in states[j] ==> states[j][calls[i].key] <= calls[i].now + c.duration
    decreases j
  {
    hide Call;
    if j == i + 1 {
      RunBounded(c, states, calls, i);
      CallBounded(c, states[i], calls[i].key, calls[i].now, calls[i].allowed, states[j], if i == 0 then 0 else calls[i - 1].now);
    } else {
      Expires(c, states, calls, i, j - 1);
      OtherCallKeeps(c, states[j - 1], calls[j - 1].key, calls[j - 1].now, calls[j - 1].allowed, states[j], calls[i].key);
    }
  }

  lemma OtherCallKeeps(c: Config, before: Entries, key: Key, now: Instant, allowed: bool, after: Entries, k: Key)
    requires Call(c, before, key, now, allowed, after) && (key == k ==> !allowed)
    ensures k in after ==> k in before && after[k] == before[k]
  {
    if allowed {
      var live := Unexpired(before, now);
      var kept :| RoomMade(c, live, kept) && after == kept[key := ExpiresAt(c, now)];
      if |live| >= c.maxEntries {
        var v :| Earliest(live, v) && kept == live - {v};
      }
    }
  }
}
