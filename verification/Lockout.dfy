/** Sliding-window lockout over a Redis sorted set per e-mail address, refined against the history of
    recorded failures since the last success. */
module Lockout {
  import opened Basics

  const FAILS_THRESHOLD := 5
  const WINDOW_MS := 15 * 60 * 1000
  const EVICTION_SECONDS := 30 * 60

  // ---- The part of Redis the service uses ----------------------------------------------------------

  datatype SortedSet = SortedSet(members: map<string, int>, expireAt: Option<int>)

  type Keys = map<string, SortedSet>

  predicate Alive(z: SortedSet, clock: int) { z.expireAt == None || clock < z.expireAt.value }

  function Members(keys: Keys, k: string, clock: int): map<string, int> {
    if k in keys && Alive(keys[k], clock) then keys[k].members else map[]
  }

  class RedisService {
    var keys: Keys

    constructor ()
      ensures keys == map[]
    {
      keys := map[];
    }

    /** An expired key is gone the moment its time comes. */
    method Evict(k: string, clock: int)
      modifies this
      ensures keys - {k} == old(keys) - {k}
      ensures k in keys <==> k in old(keys) && Alive(old(keys)[k], clock)
      ensures k in keys ==> keys[k] == old(keys)[k]
    {
      if k in keys && !Alive(keys[k], clock) {
        keys := keys - {k};
      }
    }

    /** `ZREMRANGEBYSCORE k -inf (olderThanMs`: the bound itself is excluded and stays. A set left empty
        is deleted with its expiry. */
    method TrimWindow(k: string, olderThanMs: int, clock: int)
      modifies this
      ensures keys - {k} == old(keys) - {k}
      ensures var before := Members(old(keys), k, clock);
              var kept := Trimmed(before, olderThanMs);
              if kept == map[] then k !in keys
              else k in keys && keys[k] == SortedSet(kept, old(keys)[k].expireAt)
      ensures forall m :: m in Members(keys, k, clock)
                     <==> (m in Members(old(keys), k, clock) && Members(old(keys), k, clock)[m] >= olderThanMs)
    {
      Evict(k, clock);
      if k in keys {
        var kept := map m | m in keys[k].members && keys[k].members[m] >= olderThanMs :: keys[k].members[m];
        assert forall m :: m in kept <==> m in keys[k].members && keys[k].members[m] >= olderThanMs;
        if kept == map[] {
          keys := keys - {k};
        } else {
          keys := keys[k := SortedSet(kept, keys[k].expireAt)];
        }
      }
    }

    method Zcard(k: string, clock: int) returns (n: nat)
      modifies this
      ensures keys - {k} == old(keys) - {k} && (k in keys ==> k in old(keys) && keys[k] == old(keys)[k])
      ensures Members(keys, k, clock) == Members(old(keys), k, clock)
      ensures n == |Members(keys, k, clock)|
    {
      Evict(k, clock);
      n := if k in keys then |keys[k].members| else 0;
    }

    method ZaddNow(k: string, member: string, scoreMs: int, clock: int)
      modifies this
      ensures keys - {k} == old(keys) - {k}
      ensures k in keys && keys[k].members == Members(old(keys), k, clock)[member := scoreMs]
      ensures Alive(keys[k], clock)
    {
      Evict(k, clock);
      var z := if k in keys then keys[k] else SortedSet(map[], None);
      keys := keys[k := z.(members := z.members[member := scoreMs])];
    }

    method Expire(k: string, seconds: nat, clock: int)
      modifies this
      ensures keys - {k} == old(keys) - {k}
      ensures k in keys <==> k in old(keys) && Alive(old(keys)[k], clock)
      ensures k in keys ==> keys[k] == old(keys)[k].(expireAt := Some(clock + seconds * 1000))
    {
      Evict(k, clock);
      if k in keys {
        keys := keys[k := keys[k].(expireAt := Some(clock + seconds * 1000))];
      }
    }

    method Del(k: string)
      modifies this
      ensures k !in keys
      ensures forall other | other != k :: other in keys <==> other in old(keys)
      ensures forall other | other in keys :: keys[other] == old(keys)[other]
    {
      keys := keys - {k};
    }
  }

  // ---- The history it stands for -----------------------------------------------------------------------

  datatype Failure = Failure(nonce: string, time: int)

  predicate Ordered(history: seq<Failure>) {
    forall i, j :: 0 <= i < j < |history| ==> history[i].time <= history[j].time && history[i].nonce != history[j].nonce
  }

  /** Where the failures no older than `cutoff` begin. */
  function FirstSince(history: seq<Failure>, cutoff: int): (n: nat)
    ensures n <= |history| && (n < |history| ==> history[n].time >= cutoff)
    ensures forall i :: 0 <= i < n ==> history[i].time < cutoff
  {
    if history == [] || history[0].time >= cutoff then 0
    else 1 + FirstSince(history[1..], cutoff)
  }

  /** Failures inside the window that ends at `now`, both ends included. */
  function Recent(history: seq<Failure>, now: int): nat { |history| - FirstSince(history, now - WINDOW_MS) }

  predicate Locked(history: seq<Failure>, now: int) { Recent(history, now) >= FAILS_THRESHOLD }

  /** Five recorded failures no older than fifteen minutes. */
  ghost predicate FiveRecent(history: seq<Failure>, now: int) {
    |set i | 0 <= i < |history| && history[i].time >= now - 15 * 60 * 1000| >= 5
  }

  ghost function Range(first: int, n: nat): (r: set<int>)
    ensures |r| == n && forall i :: i in r <==> first <= i < first + n
  {
    if n == 0 then {} else Range(first, n - 1) + {first + n - 1}
  }

  lemma LockedExactly(history: seq<Failure>, now: int)
    requires Ordered(history)
    ensures Locked(history, now) <==> FiveRecent(history, now)
  {
    var cutoff := now - WINDOW_MS;
    hide Ordered, FirstSince;
    SinceIsRange(history, cutoff);
    assert cutoff == now - 15 * 60 * 1000;
    assert (set i | 0 <= i < |history| && history[i].time >= now - 15 * 60 * 1000) == Range(FirstSince(history, cutoff), Recent(history, now));
  }

  lemma SinceIsRange(history: seq<Failure>, cutoff: int)
    requires Ordered(history)
    ensures var from := FirstSince(history, cutoff);
      (set i | 0 <= i < |history| && history[i].time >= cutoff) == Range(from, |history| - from)
  {
    var from := FirstSince(history, cutoff);
    forall i | 0 <= i < |history| ensures history[i].time >= cutoff <==> from <= i {
      SinceIsSuffix(history, cutoff, i);
    }
    hide Ordered, FirstSince;
  }

  /** What a failed sign-in adds to the history: nothing while locked. */
  function Recorded(history: seq<Failure>, nonce: string, now: int): seq<Failure> {
    if Locked(history, now) then history else history + [Failure(nonce, now)]
  }

  lemma OrderedAppend(history: seq<Failure>, f: Failure)
    requires Ordered(history) && forall i :: 0 <= i < |history| ==> history[i].time <= f.time && history[i].nonce != f.nonce
    ensures Ordered(history + [f])
  {}

  lemma SinceIsSuffix(history: seq<Failure>, cutoff: int, i: nat)
    requires Ordered(history) && i < |history|
    ensures history[i].time >= cutoff <==> FirstSince(history, cutoff) <= i
  {}

  /** A member set that is exactly the failures from `lo` on. */
  ghost predicate Holds(members: map<string, int>, history: seq<Failure>, lo: nat) {
    && lo <= |history|
    && (forall i :: lo <= i < |history| ==> history[i].nonce in members && members[history[i].nonce] == history[i].time)
    && (forall m | m in members :: exists i :: lo <= i < |history| && history[i].nonce == m)
  }

  lemma {:induction false} HeldCount(members: map<string, int>, history: seq<Failure>, lo: nat)
    requires Ordered(history) && Holds(members, history, lo)
    ensures |members| == |history| - lo
    decreases |history| - lo
  {
    if lo < |history| {
      var rest := members - {history[lo].nonce};
      assert members.Keys == rest.Keys + {history[lo].nonce};
      HeldCount(rest, history, lo + 1);
      assert |members| == |members.Keys| && |rest| == |rest.Keys|;
    } else {
      assert members == map[];
    }
  }

  lemma HeldAfterTrim(members: map<string, int>, history: seq<Failure>, lo: nat, cutoff: int)
    requires Ordered(history) && Holds(members, history, lo) && lo <= FirstSince(history, cutoff)
    ensures Holds(map m | m in members && members[m] >= cutoff :: members[m], history, FirstSince(history, cutoff))
  {
    var from := FirstSince(history, cutoff);
    forall i | lo <= i < |history| ensures history[i].time >= cutoff <==> from <= i {
      SinceIsSuffix(history, cutoff, i);
    }
  }

  /** The stored set is the history from some point on; everything before that point has left the window,
      and the key outlives every entry's window. */
  ghost predicate Represents(keys: Keys, k: string, history: seq<Failure>, lo: nat, clock: int) {
    && Ordered(history)
    && lo <= |history|
    && (forall i :: 0 <= i < lo ==> history[i].time < clock - WINDOW_MS)
    && (forall i :: 0 <= i < |history| ==> history[i].time <= clock)
    && (k in keys <==> lo < |history|)
    && (k in keys ==>
          && Holds(keys[k].members, history, lo)
          && keys[k].expireAt == Some(history[|history| - 1].time + EVICTION_SECONDS * 1000))
  }

  /** Expiry never takes an entry still inside the window: either the key is there with everything from
      `lo` on, or nothing is left in the window. */
  lemma WindowSurvives(keys: Keys, k: string, history: seq<Failure>, lo: nat, clock: int, now: int)
    requires Represents(keys, k, history, lo, clock) && clock <= now
    ensures var from := FirstSince(history, now - WINDOW_MS);
            && lo <= from
            && (if k in keys && Alive(keys[k], now) then Holds(keys[k].members, history, lo) else from == |history|)
  {
    hide Holds;
    var from := FirstSince(history, now - WINDOW_MS);
    if from < |history| {
      assert history[from].time <= history[|history| - 1].time;
    }
  }

  lemma NothingHeld(history: seq<Failure>)
    ensures Holds(map[], history, |history|)
  {}

  lemma HeldAppend(members: map<string, int>, history: seq<Failure>, lo: nat, f: Failure)
    requires Holds(members, history, lo) && Ordered(history + [f])
    ensures Holds(members[f.nonce := f.time], history + [f], lo)
  {
    var longer := history + [f];
    assert longer[|history|] == f;
    var grown := members[f.nonce := f.time];
    forall m | m in grown ensures exists i :: lo <= i < |longer| && longer[i].nonce == m {
      if m != f.nonce {
        var i :| lo <= i < |history| && history[i].nonce == m;
        assert longer[i] == history[i];
      }
    }
  }

  /** Members left by a trim at the window's edge. */
  ghost function Trimmed(members: map<string, int>, cutoff: int): map<string, int> {
    map m | m in members && members[m] >= cutoff :: members[m]
  }

  lemma TrimKeepsWindow(keys: Keys, k: string, history: seq<Failure>, lo: nat, clock: int, now: int)
    requires Represents(keys, k, history, lo, clock) && clock <= now
    ensures var kept := Trimmed(Members(keys, k, now), now - WINDOW_MS);
            && Holds(kept, history, FirstSince(history, now - WINDOW_MS))
            && |kept| == Recent(history, now)
            && (kept != map[] ==> k in keys && Alive(keys[k], now))
  {
    var cutoff := now - WINDOW_MS;
    var from := FirstSince(history, cutoff);
    WindowSurvives(keys, k, history, lo, clock, now);
    hide Holds, Ordered;
    if k in keys && Alive(keys[k], now) {
      HeldAfterTrim(keys[k].members, history, lo, cutoff);
    } else {
      NothingHeld(history);
      assert Trimmed(map[], cutoff) == map[];
    }
    HeldCount(Trimmed(Members(keys, k, now), cutoff), history, from);
  }

  lemma TrimKeepsRepresentation(keys: Keys, after: Keys, k: string, history: seq<Failure>, lo: nat, clock: int,
                                now: int)
    requires Represents(keys, k, history, lo, clock) && clock <= now
    requires var kept := Trimmed(Members(keys, k, now), now - WINDOW_MS);
             if kept == map[] then k !in after
             else k in after && k in keys && after[k] == SortedSet(kept, keys[k].expireAt)
    ensures Represents(after, k, history, FirstSince(history, now - WINDOW_MS), now)
    ensures |Members(after, k, now)| == Recent(history, now)
    ensures k in after ==> Alive(after[k], now)
  {
    TrimKeepsWindow(keys, k, history, lo, clock, now);
    hide Holds, Ordered, Trimmed;
  }

  lemma RecordKeepsRepresentation(keys: Keys, after: Keys, k: string, history: seq<Failure>, lo: nat, nonce: string,
                                  now: int)
    requires Represents(keys, k, history, lo, now) && lo == FirstSince(history, now - WINDOW_MS)
    requires forall i :: 0 <= i < |history| ==> history[i].nonce != nonce
    requires k in after
    requires after[k] == SortedSet(Members(keys, k, now)[nonce := now], Some(now + EVICTION_SECONDS * 1000))
    ensures Represents(after, k, history + [Failure(nonce, now)], lo, now)
  {
    WindowSurvives(keys, k, history, lo, now, now);
    OrderedAppend(history, Failure(nonce, now));
    NothingHeld(history);
    HeldAppend(Members(keys, k, now), history, lo, Failure(nonce, now));
    hide Holds, Ordered;
  }

  class LockoutService {
    const redis: RedisService
    const email: string
    ghost var history: seq<Failure>
    ghost var lo: nat
    ghost var clock: int

    ghost predicate Valid() reads this, redis { Represents(redis.keys, email, history, lo, clock) }

    constructor (redis: RedisService, email: string, now: int)
      requires email !in redis.keys
      ensures Valid() && this.redis == redis && this.email == email && history == [] && clock == now
    {
      this.redis := redis;
      this.email := email;
      history := [];
      lo := 0;
      clock := now;
    }

    /** The two reads both methods begin with: afterwards the key holds exactly the window. */
    method CountRecent(now: int) returns (count: nat)
      requires Valid() && clock <= now
      modifies redis, this`lo, this`clock
      ensures Valid() && clock == now
      ensures redis.keys - {email} == old(redis.keys) - {email}
      ensures count == Recent(history, now) && lo == FirstSince(history, now - WINDOW_MS)
    {
      ghost var before := redis.keys;
      TrimKeepsWindow(before, email, history, lo, clock, now);
      redis.TrimWindow(email, now - WINDOW_MS, now);
      TrimKeepsRepresentation(before, redis.keys, email, history, lo, clock, now);
      hide Holds, Ordered, Trimmed;
      lo, clock := FirstSince(history, now - WINDOW_MS), now;
      count := redis.Zcard(email, now);
    }

    method IsLockedOut(now: int) returns (locked: bool)
      requires Valid() && clock <= now
      modifies redis, this`lo, this`clock
      ensures Valid() && clock == now
      ensures redis.keys - {email} == old(redis.keys) - {email}
      ensures locked <==> FiveRecent(history, now)
    {
      LockedExactly(history, now);
      hide Represents, FiveRecent;
      var count := CountRecent(now);
      return count >= FAILS_THRESHOLD;
    }

    method RecordFailure(nonce: string, now: int)
      requires Valid() && clock <= now
      requires forall i :: 0 <= i < |history| ==> history[i].nonce != nonce
      modifies redis, this`history, this`lo, this`clock
      ensures Valid() && clock == now
      ensures redis.keys - {email} == old(redis.keys) - {email}
      ensures history == if FiveRecent(old(history), now) then old(history) else old(history) + [Failure(nonce, now)]
      ensures history != old(history) ==>
        && email in redis.keys && nonce in redis.keys[email].members && redis.keys[email].members[nonce] == now
        && redis.keys[email].expireAt == Some(now + 30 * 60 * 1000)
    {
      LockedExactly(history, now);
      var count := CountRecent(now);
      if count >= FAILS_THRESHOLD {
        return;
      }
      ghost var before := redis.keys;
      redis.ZaddNow(email, nonce, now, now);
      redis.Expire(email, EVICTION_SECONDS, now);
      RecordKeepsRepresentation(before, redis.keys, email, history, lo, nonce, now);
      hide Represents;
      history := history + [Failure(nonce, now)];
    }

    method ClearOnSuccess(now: int)
      requires Valid() && clock <= now
      modifies redis, this`history, this`lo, this`clock
      ensures Valid() && clock == now && history == []
      ensures redis.keys == old(redis.keys) - {email}
    {
      redis.Del(email);
      history, lo, clock := [], 0, now;
    }
  }
}
