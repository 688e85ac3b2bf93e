/** The in-memory single-use guard for owner signatures. Times are milliseconds, lifetimes seconds. */
module ReplayGuard {
  type Key = string

  type Seen = map<Key, int>

  const SWEEP_ABOVE := 2000
  const SWEEP_EVERY_MS := 60_000

  // ---------------------------------------------------------------- specification

  /** The key was used and has not expired. */
  predicate Used(seen: Seen, key: Key, now: int) {
    key in seen && seen[key] > now
  }

  datatype Attempt = Attempt(key: Key, ttlSec: int, now: int) {
    function ExpiresAt(): int {
      now + ttlSec * 1000
    }
  }

  /** One attempt on a map that is never swept: the new map, and whether the key was fresh. */
  function Plain(seen: Seen, a: Attempt): (Seen, bool) {
    if Used(seen, a.key, a.now) then (seen, false) else (seen[a.key := a.ExpiresAt()], true)
  }

  datatype State = State(seen: Seen, lastSweep: int)

  function Swept(seen: Seen, now: int): Seen {
    map k | k in seen && seen[k] > now :: seen[k]
  }

  /** One attempt as the guard handles it, with the sweep at most once a minute. */
  function Step(s: State, a: Attempt): (State, bool) {
    var due := |s.seen| > SWEEP_ABOVE && a.now - s.lastSweep > SWEEP_EVERY_MS;
    var t := if due then State(Swept(s.seen, a.now), a.now) else s;
    var (seen, isNew) := Plain(t.seen, a);
    (State(seen, t.lastSweep), isNew)
  }

  // ---------------------------------------------------------------- the guard's code

  class MemoryReplayGuard {
    var seen: Seen
    var lastSweep: int

    function Value(): State
      reads this
    {
      State(seen, lastSweep)
    }

    constructor ()
      ensures Value() == State(map[], 0)
    {
      seen, lastSweep := map[], 0;
    }

    method Consume(key: Key, ttlSec: int, now: int) returns (isNew: bool)
      modifies this
      ensures (Value(), isNew) == Step(old(Value()), Attempt(key, ttlSec, now))
      ensures isNew <==> key !in old(seen) || old(seen)[key] <= now
      ensures isNew ==> key in seen && seen[key] == now + ttlSec * 1000
      ensures forall k | k != key && k in old(seen) && old(seen)[k] > now :: k in seen && seen[k] == old(seen)[k]
      ensures forall k | k != key && k in seen :: k in old(seen) && seen[k] == old(seen)[k]
      ensures |old(seen)| <= 2000 || now - old(lastSweep) <= 60_000 ==>
                lastSweep == old(lastSweep) && forall k | k != key && k in old(seen) :: k in seen
      ensures |old(seen)| > 2000 && now - old(lastSweep) > 60_000 ==>
                lastSweep == now && forall k | k in seen :: seen[k] > now || (k == key && isNew)
    {
      if |seen| > SWEEP_ABOVE && now - lastSweep > SWEEP_EVERY_MS {
        lastSweep := now;
        Sweep(now);
      }
      if key in seen && seen[key] > now {
        return false;
      }
      seen := seen[key := now + ttlSec * 1000];
      return true;
    }

    method Sweep(now: int)
      modifies this`seen
      ensures seen == Swept(old(seen), now)
      ensures forall k :: k in seen <==> k in old(seen) && old(seen)[k] > now
      ensures forall k | k in seen :: seen[k] == old(seen)[k]
    {
      ghost var before := seen;
      var toVisit := seen.Keys;
      while toVisit != {}
        invariant toVisit <= before.Keys
        invariant seen == map k | k in before && (k in toVisit || before[k] > now) :: before[k]
        decreases toVisit
      {
        var k :| k in toVisit;
        if seen[k] <= now {
          seen := seen - {k};
        }
        toVisit := toVisit - {k};
      }
    }

    method Reset()
      modifies this
      ensures Value() == State(map[], 0)
    {
      seen := map[];
      lastSweep := 0;
    }
  }

  // ---------------------------------------------------------------- runs

  predicate NonDecreasing(trace: seq<Attempt>) {
    forall i, j | 0 <= i < j < |trace| :: trace[i].now <= trace[j].now
  }

  /** The guard after a run from its initial state, and its answers. */
  function Run(trace: seq<Attempt>): (r: (State, seq<bool>))
    ensures |r.1| == |trace|
  {
    if |trace| == 0 then (State(map[], 0), [])
    else
      var n := |trace| - 1;
      var (s, answers) := Run(trace[..n]);
      var (t, isNew) := Step(s, trace[n]);
      (t, answers + [isNew])
  }

  /** The same without sweeping. */
  function PlainRun(trace: seq<Attempt>): (r: (Seen, seq<bool>))
    ensures |r.1| == |trace|
  {
    if |trace| == 0 then (map[], [])
    else
      var n := |trace| - 1;
      var (s, answers) := PlainRun(trace[..n]);
      var (t, isNew) := Plain(s, trace[n]);
      (t, answers + [isNew])
  }

  // ---------------------------------------------------------------- the sweep is invisible

  ghost predicate SameUsed(s: Seen, t: Seen, now: int) {
    forall k, later | now <= later :: Used(s, k, later) == Used(t, k, later)
  }

  lemma StepLikePlain(s: State, seen: Seen, a: Attempt)
    requires SameUsed(s.seen, seen, a.now)
    ensures Step(s, a).1 == Plain(seen, a).1
    ensures SameUsed(Step(s, a).0.seen, Plain(seen, a).0, a.now)
  {
    var due := |s.seen| > SWEEP_ABOVE && a.now - s.lastSweep > SWEEP_EVERY_MS;
    var t := if due then Swept(s.seen, a.now) else s.seen;
    forall k, later | a.now <= later ensures Used(t, k, later) == Used(seen, k, later) {
      assert Used(s.seen, k, later) == Used(seen, k, later);
    }
    forall k, later | a.now <= later
      ensures Used(Plain(t, a).0, k, later) == Used(Plain(seen, a).0, k, later)
    {
      assert Used(t, a.key, a.now) == Used(seen, a.key, a.now);
      assert Used(t, k, later) == Used(seen, k, later);
    }
  }

  lemma {:induction false} SweepInvisibleAt(trace: seq<Attempt>, now: int)
    requires NonDecreasing(trace)
    requires trace != [] ==> trace[|trace| - 1].now <= now
    ensures Run(trace).1 == PlainRun(trace).1
    ensures SameUsed(Run(trace).0.seen, PlainRun(trace).0, now)
  {
    if trace != [] {
      var n := |trace| - 1;
      SweepInvisibleAt(trace[..n], trace[n].now);
      StepLikePlain(Run(trace[..n]).0, PlainRun(trace[..n]).0, trace[n]);
    }
  }

  /** Over every run with a clock that does not go back, the sweep changes no answer. */
  lemma SweepInvisible(trace: seq<Attempt>)
    requires NonDecreasing(trace)
    ensures Run(trace).1 == PlainRun(trace).1
  {
    SweepInvisibleAt(trace, if trace == [] then 0 else trace[|trace| - 1].now);
  }

  // ---------------------------------------------------------------- exactly when a key is fresh

  /** Attempt `i` succeeded with `key`, and its lifetime reaches beyond `now`. */
  predicate Blocks(trace: seq<Attempt>, answers: seq<bool>, i: nat, key: Key, now: int) {
    && i < |trace| && i < |answers|
    && answers[i] && trace[i].key == key
    && trace[i].ExpiresAt() > now
  }

  /** From the end of a run on, a key is used exactly while some success with it still lives. */
  lemma {:induction false} UsedIffBlocked(trace: seq<Attempt>, key: Key, now: int)
    requires NonDecreasing(trace)
    requires trace != [] ==> trace[|trace| - 1].now <= now
    ensures Used(PlainRun(trace).0, key, now) <==> exists i :: Blocks(trace, PlainRun(trace).1, i, key, now)
  {
    if trace != [] {
      var n := |trace| - 1;
      var front, a := trace[..n], trace[n];
      var before, after := PlainRun(front).1, PlainRun(trace).1;
      UsedIffBlocked(front, key, now);
      UsedIffBlocked(front, a.key, a.now);
      forall i: nat | i < n ensures Blocks(front, before, i, key, now) == Blocks(trace, after, i, key, now) {
      }
      if a.key == key && after[n] {
        forall i: nat | i < n ensures !Blocks(front, before, i, key, now) {
          assert !Blocks(front, before, i, a.key, a.now);
        }
        assert Blocks(trace, after, n, key, now) <==> a.ExpiresAt() > now;
      } else {
        assert !Blocks(trace, after, n, key, now);
      }
      if Used(PlainRun(front).0, key, now) {
        var i: nat :| Blocks(front, before, i, key, now);
        assert Blocks(trace, after, i, key, now);
      }
    }
  }

  lemma {:induction false} PlainRunOfPrefix(trace: seq<Attempt>, j: nat)
    requires j <= |trace|
    ensures PlainRun(trace[..j]).1 == PlainRun(trace).1[..j]
    decreases |trace| - j
  {
    if j == |trace| {
      assert trace[..j] == trace;
    } else {
      PlainRunOfPrefix(trace, j + 1);
      assert trace[..j + 1][..j] == trace[..j];
      assert PlainRun(trace).1[..j] == PlainRun(trace).1[..j + 1][..j];
    }
  }

  /** In every run of the guard, an attempt succeeds exactly when every earlier success with its
      key has expired. */
  lemma FreshIffAllExpired(trace: seq<Attempt>, j: nat)
    requires NonDecreasing(trace) && j < |trace|
    ensures Run(trace).1[j] <==>
            forall i | 0 <= i < j && Run(trace).1[i] && trace[i].key == trace[j].key ::
              trace[i].now + trace[i].ttlSec * 1000 <= trace[j].now
  {
    SweepInvisible(trace);
    PlainRunOfPrefix(trace, j);
    PlainRunOfPrefix(trace, j + 1);
    var front, answers := trace[..j], PlainRun(trace).1;
    assert trace[..j + 1][..j] == front;
    UsedIffBlocked(front, trace[j].key, trace[j].now);
    assert answers[j] == PlainRun(trace[..j + 1]).1[j];
    forall i: nat | i < j
      ensures Blocks(front, PlainRun(front).1, i, trace[j].key, trace[j].now)
          <==> answers[i] && trace[i].key == trace[j].key && trace[i].ExpiresAt() > trace[j].now
    {
    }
  }

  /** So two successes with one key are at least the first one's lifetime apart, and within
      that lifetime every further attempt fails. */
  lemma SuccessesApart(trace: seq<Attempt>, i: nat, j: nat)
    requires NonDecreasing(trace) && i < j < |trace|
    requires trace[i].key == trace[j].key && Run(trace).1[i]
    ensures Run(trace).1[j] ==> trace[j].now - trace[i].now >= trace[i].ttlSec * 1000
    ensures trace[j].now - trace[i].now < trace[i].ttlSec * 1000 ==> !Run(trace).1[j]
  {
    FreshIffAllExpired(trace, j);
  }

  /** So with no later success in between and every earlier one expired, the key is free again from
      exactly the moment on that lies one lifetime after its last success. */
  lemma FreeAfterLifetime(trace: seq<Attempt>, answers: seq<bool>, i: nat, j: nat)
    requires NonDecreasing(trace) && i < j < |trace| && answers == Run(trace).1
    requires trace[i].key == trace[j].key && answers[i]
    requires forall k | 0 <= k < j && k != i && answers[k] && trace[k].key == trace[j].key ::
               trace[k].now + trace[k].ttlSec * 1000 <= trace[j].now
    ensures answers[j] <==> trace[i].now + trace[i].ttlSec * 1000 <= trace[j].now
  {
    FreshIffAllExpired(trace, j);
  }
}
