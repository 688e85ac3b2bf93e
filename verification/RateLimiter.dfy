/** The per-client limit of the chat endpoint: fixed windows opened by the first request,
    with a sweep of expired windows when the map grows. Times are milliseconds. */
module RateLimiter {
  import opened Outcomes

  const WINDOW_MS := 60_000
  const RATE_MAX := 15
  const SWEEP_ABOVE := 5000

  type Client = string

  datatype Window = Window(count: nat, resetAt: int)

  type Hits = map<Client, Window>

  // ---------------------------------------------------------------- specification

  /** The client's open window. An expired one counts as absent. */
  function Open(hits: Hits, client: Client, now: int): Option<Window> {
    if client in hits && now <= hits[client].resetAt then Some(hits[client]) else None
  }

  /** One request against a map that is never swept: the new map, and whether it is refused. */
  function Plain(hits: Hits, client: Client, now: int): (Hits, bool) {
    match Open(hits, client, now)
    case None => (hits[client := Window(1, now + WINDOW_MS)], false)
    case Some(w) => (hits[client := Window(w.count + 1, w.resetAt)], w.count + 1 > RATE_MAX)
  }

  function Swept(hits: Hits, now: int): Hits {
    map c | c in hits && now <= hits[c].resetAt :: hits[c]
  }

  /** One request as the endpoint handles it: a new window may trigger the sweep. */
  function Request(hits: Hits, client: Client, now: int): (Hits, bool) {
    var (after, limited) := Plain(hits, client, now);
    if Open(hits, client, now).None? && |after| > SWEEP_ABOVE then (Swept(after, now), limited) else (after, limited)
  }

  // ---------------------------------------------------------------- the endpoint's code

  class Limiter {
    var hits: Hits

    constructor ()
      ensures hits == map[]
    {
      hits := map[];
    }

    method RateLimited(ip: Client, now: int) returns (limited: bool)
      modifies this
      ensures (hits, limited) == Request(old(hits), ip, now)
      ensures limited <==> ip in old(hits) && now <= old(hits)[ip].resetAt && old(hits)[ip].count >= 15
      ensures ip in old(hits) && now <= old(hits)[ip].resetAt ==>
                hits == old(hits)[ip := Window(old(hits)[ip].count + 1, old(hits)[ip].resetAt)]
      ensures ip !in old(hits) || now > old(hits)[ip].resetAt ==>
                && ip in hits && hits[ip] == Window(1, now + 60_000)
                && (forall c | c != ip && c in old(hits) && now <= old(hits)[c].resetAt :: c in hits)
                && (forall c | c != ip && c in hits :: c in old(hits) && hits[c] == old(hits)[c])
                && (|old(hits)[ip := Window(1, now + 60_000)]| <= 5000 ==> forall c | c in old(hits) :: c in hits)
                && (|old(hits)[ip := Window(1, now + 60_000)]| > 5000 ==> forall c | c in hits :: now <= hits[c].resetAt)
    {
      if ip !in hits || now > hits[ip].resetAt {
        hits := hits[ip := Window(1, now + WINDOW_MS)];
        if |hits| > SWEEP_ABOVE {
          Sweep(now);
        }
        return false;
      }
      hits := hits[ip := Window(hits[ip].count + 1, hits[ip].resetAt)];
      return hits[ip].count > RATE_MAX;
    }

    method Sweep(now: int)
      modifies this
      ensures hits == Swept(old(hits), now)
      ensures forall c :: c in hits <==> c in old(hits) && now <= old(hits)[c].resetAt
      ensures forall c | c in hits :: hits[c] == old(hits)[c]
    {
      ghost var before := hits;
      var toVisit := hits.Keys;
      while toVisit != {}
        invariant toVisit <= before.Keys
        invariant hits == map c | c in before && (c in toVisit || now <= before[c].resetAt) :: before[c]
        decreases toVisit
      {
        var k :| k in toVisit;
        if now > hits[k].resetAt {
          hits := hits - {k};
        }
        toVisit := toVisit - {k};
      }
    }
  }

  // ---------------------------------------------------------------- runs

  datatype Event = Event(client: Client, now: int)

  predicate NonDecreasing(trace: seq<Event>) {
    forall i, j | 0 <= i < j < |trace| :: trace[i].now <= trace[j].now
  }

  /** Refusals along a run of the endpoint. */
  function Answers(hits: Hits, trace: seq<Event>): (r: seq<bool>)
    ensures |r| == |trace|
    decreases |trace|
  {
    if |trace| == 0 then []
    else
      var (after, limited) := Request(hits, trace[0].client, trace[0].now);
      [limited] + Answers(after, trace[1..])
  }

  /** The same against a map that is never swept. */
  function PlainAnswers(hits: Hits, trace: seq<Event>): (r: seq<bool>)
    ensures |r| == |trace|
    decreases |trace|
  {
    if |trace| == 0 then []
    else
      var (after, limited) := Plain(hits, trace[0].client, trace[0].now);
      [limited] + PlainAnswers(after, trace[1..])
  }

  // ---------------------------------------------------------------- the sweep is invisible

  ghost predicate SameOpen(h: Hits, g: Hits, now: int) {
    forall c :: Open(h, c, now) == Open(g, c, now)
  }

  lemma SameOpenLater(h: Hits, g: Hits, now: int, later: int)
    requires SameOpen(h, g, now) && now <= later
    ensures SameOpen(h, g, later)
  {
    forall c ensures Open(h, c, later) == Open(g, c, later) {
      assert Open(h, c, now) == Open(g, c, now);
    }
  }

  lemma SweptSameOpen(h: Hits, now: int)
    ensures SameOpen(Swept(h, now), h, now)
  {
  }

  lemma RequestLikePlain(h: Hits, g: Hits, client: Client, now: int)
    requires SameOpen(h, g, now)
    ensures Request(h, client, now).1 == Plain(g, client, now).1
    ensures SameOpen(Request(h, client, now).0, Plain(g, client, now).0, now)
  {
    assert Open(h, client, now) == Open(g, client, now);
    var after := Plain(h, client, now).0;
    SweptSameOpen(after, now);
    forall c ensures Open(after, c, now) == Open(Plain(g, client, now).0, c, now) {
      assert Open(h, c, now) == Open(g, c, now);
    }
  }

  lemma {:induction false} SweepInvisibleFrom(h: Hits, g: Hits, trace: seq<Event>, now: int)
    requires SameOpen(h, g, now) && NonDecreasing(trace)
    requires trace != [] ==> now <= trace[0].now
    ensures Answers(h, trace) == PlainAnswers(g, trace)
    decreases |trace|
  {
    if trace != [] {
      var e := trace[0];
      SameOpenLater(h, g, now, e.now);
      RequestLikePlain(h, g, e.client, e.now);
      SweepInvisibleFrom(Request(h, e.client, e.now).0, Plain(g, e.client, e.now).0, trace[1..], e.now);
    }
  }

  /** Over every run with a clock that does not go back, the sweep changes no answer. */
  lemma SweepInvisible(trace: seq<Event>)
    requires NonDecreasing(trace)
    ensures Answers(map[], trace) == PlainAnswers(map[], trace)
  {
    if trace != [] {
      SweepInvisibleFrom(map[], map[], trace, trace[0].now);
    }
  }

  // ---------------------------------------------------------------- the bound

  /** Requests of `client` let through in the closed interval of one window length from `start`. */
  function Allowed(trace: seq<Event>, refused: seq<bool>, client: Client, start: int): nat
    requires |trace| == |refused|
  {
    if |trace| == 0 then 0
    else
      (if Counts(trace[0], refused[0], client, start) then 1 else 0)
      + Allowed(trace[1..], refused[1..], client, start)
  }

  predicate Counts(e: Event, refused: bool, client: Client, start: int) {
    e.client == client && !refused && start <= e.now <= start + WINDOW_MS
  }

  /** How many requests in the interval can still be let through, given the client's window. */
  function Budget(hits: Hits, client: Client, start: int): nat {
    if client !in hits || hits[client].resetAt < start then 2 * RATE_MAX - 1
    else
      var w := hits[client];
      var left := if w.count > RATE_MAX then 0 else RATE_MAX - w.count;
      var since := w.resetAt - WINDOW_MS;
      if since < start then left + RATE_MAX
      else if since <= start + WINDOW_MS then left
      else 0
  }

  /** The client's window was opened at or before `now`, by a request. */
  predicate OpenedBy(hits: Hits, client: Client, now: int) {
    client in hits ==> hits[client].count >= 1 && hits[client].resetAt - WINDOW_MS <= now
  }

  /** One request spends from the budget what it lets through. */
  lemma RequestSpends(hits: Hits, e: Event, client: Client, start: int)
    requires OpenedBy(hits, client, e.now)
    ensures var (after, refused) := Plain(hits, e.client, e.now);
            && OpenedBy(after, client, e.now)
            && (if Counts(e, refused, client, start) then 1 else 0) + Budget(after, client, start)
               <= Budget(hits, client, start)
  {
  }

  lemma {:induction false} RunWithinBudget(hits: Hits, trace: seq<Event>, client: Client, start: int)
    requires NonDecreasing(trace)
    requires trace != [] ==> OpenedBy(hits, client, trace[0].now)
    ensures Allowed(trace, PlainAnswers(hits, trace), client, start) <= Budget(hits, client, start)
    decreases |trace|
  {
    if trace != [] {
      RequestSpends(hits, trace[0], client, start);
      RunWithinBudget(Plain(hits, trace[0].client, trace[0].now).0, trace[1..], client, start);
    }
  }

  /** In no run can a client get more than 29 requests through in 60 seconds: an interval that
      touches two windows misses the request that opened the first. */
  lemma AtMostTwentyNine(trace: seq<Event>, client: Client, start: int)
    requires NonDecreasing(trace)
    ensures Allowed(trace, Answers(map[], trace), client, start) <= 29
  {
    SweepInvisible(trace);
    RunWithinBudget(map[], trace, client, start);
  }

  // ---------------------------------------------------------------- who is never refused

  /** Requests of `client`, let through or not, in the closed interval of one window length. */
  function Sent(trace: seq<Event>, client: Client, start: int): nat {
    if |trace| == 0 then 0
    else (if trace[0].client == client && start <= trace[0].now <= start + 60_000 then 1 else 0)
         + Sent(trace[1..], client, start)
  }

  /** Request `j` is the client's and was refused. */
  predicate RefusedAt(trace: seq<Event>, answers: seq<bool>, client: Client, j: nat)
    requires |answers| == |trace|
  {
    j < |trace| && trace[j].client == client && answers[j]
  }

  lemma {:induction false} NeverRefusedFrom(hits: Hits, trace: seq<Event>, client: Client, j: nat)
    requires NonDecreasing(trace)
    requires trace != [] ==> OpenedBy(hits, client, trace[0].now)
    requires forall start :: Sent(trace, client, start) <= 15
    requires client in hits ==> hits[client].count + Sent(trace, client, hits[client].resetAt - 60_000) <= 15
    ensures !RefusedAt(trace, PlainAnswers(hits, trace), client, j)
    decreases |trace|
  {
    if trace != [] {
      var e, rest := trace[0], trace[1..];
      var after := Plain(hits, e.client, e.now).0;
      forall start ensures Sent(rest, client, start) <= Sent(trace, client, start) {
      }
      if e.client == client {
        assert Sent(trace, client, e.now) == 1 + Sent(rest, client, e.now);
      }
      if j > 0 {
        NeverRefusedFrom(after, rest, client, j - 1);
        assert PlainAnswers(hits, trace)[1..] == PlainAnswers(after, rest);
      }
    }
  }

  /** A client that never sends more than 15 requests in any closed 60 seconds is never refused. */
  lemma NeverRefusedWithinLimit(trace: seq<Event>, client: Client, j: nat)
    requires NonDecreasing(trace) && j < |trace| && trace[j].client == client
    requires forall start :: Sent(trace, client, start) <= 15
    ensures !Answers(map[], trace)[j]
  {
    SweepInvisible(trace);
    NeverRefusedFrom(map[], trace, client, j);
    assert !RefusedAt(trace, PlainAnswers(map[], trace), client, j);
  }

  // ---------------------------------------------------------------- the bound is reached

  function Burst(client: Client, now: int, n: nat): (r: seq<Event>)
    ensures |r| == n
    ensures forall i | 0 <= i < n :: r[i] == Event(client, now)
  {
    if n == 0 then [] else [Event(client, now)] + Burst(client, now, n - 1)
  }

  /** Requests let through in a run from `hits`. */
  function AllowedFrom(hits: Hits, trace: seq<Event>, client: Client, start: int): nat {
    Allowed(trace, PlainAnswers(hits, trace), client, start)
  }

  /** One request that counts, and the rest of the run. */
  lemma AllowedStep(hits: Hits, after: Hits, client: Client, now: int, rest: seq<Event>, start: int)
    requires Plain(hits, client, now) == (after, false)
    requires start <= now <= start + WINDOW_MS
    ensures AllowedFrom(hits, [Event(client, now)] + rest, client, start) == 1 + AllowedFrom(after, rest, client, start)
  {
    var trace := [Event(client, now)] + rest;
    assert trace[1..] == rest;
    assert PlainAnswers(hits, trace)[1..] == PlainAnswers(after, rest);
  }

  function Bumped(hits: Hits, client: Client, n: nat): Hits
    requires client in hits
  {
    hits[client := Window(hits[client].count + n, hits[client].resetAt)]
  }

  /** A burst inside an open window with room for it gets through completely. */
  lemma {:induction false} BurstAllowed(hits: Hits, client: Client, now: int, n: nat, rest: seq<Event>, start: int)
    requires client in hits && now <= hits[client].resetAt && hits[client].count + n <= RATE_MAX
    requires start <= now <= start + WINDOW_MS
    ensures AllowedFrom(hits, Burst(client, now, n) + rest, client, start)
         == n + AllowedFrom(Bumped(hits, client, n), rest, client, start)
    decreases n
  {
    if n == 0 {
      assert Burst(client, now, n) + rest == rest;
      assert Bumped(hits, client, 0) == hits;
    } else {
      var after := Bumped(hits, client, 1);
      BurstAllowed(after, client, now, n - 1, rest, start);
      AllowedStep(hits, after, client, now, Burst(client, now, n - 1) + rest, start);
      BurstStep(client, now, n, rest);
      BumpTwice(hits, client, n);
    }
  }

  lemma BurstStep(client: Client, now: int, n: nat, rest: seq<Event>)
    requires n > 0
    ensures Burst(client, now, n) + rest == [Event(client, now)] + (Burst(client, now, n - 1) + rest)
  {
  }

  lemma BumpTwice(hits: Hits, client: Client, n: nat)
    requires client in hits && n > 0
    ensures Bumped(Bumped(hits, client, 1), client, n - 1) == Bumped(hits, client, n)
  {
  }

  /** One request opens a window, `n` use its last moment, one more than that the next one. */
  function BusyRun(client: Client, n: nat): seq<Event> {
    [Event(client, 0)] + (Burst(client, 60_000, n) + ([Event(client, 60_001)] + (Burst(client, 60_001, n) + [])))
  }

  /** With a full window, the first request after it and a burst get through. */
  lemma NextWindow(client: Client, full: Hits, n: nat, last: seq<Event>)
    requires full == map[client := Window(1 + n, 60_000)] && n == 14 && last == Burst(client, 60_001, n) + []
    ensures AllowedFrom(full, [Event(client, 60_001)] + last, client, 1) == 1 + n
  {
    var second: Hits := map[client := Window(1, 120_001)];
    assert full[client := Window(1, 120_001)] == second;
    assert Plain(full, client, 60_001) == (second, false);
    AllowedStep(full, second, client, 60_001, last, 1);
    BurstAllowed(second, client, 60_001, n, [], 1);
    assert AllowedFrom(Bumped(second, client, n), [], client, 1) == 0;
  }

  /** The first request comes before the 60 seconds that are counted. */
  lemma FirstNotCounted(client: Client, first: Hits, rest: seq<Event>)
    requires first == map[client := Window(1, 60_000)]
    requires NonDecreasing([Event(client, 0)] + rest)
    ensures Allowed([Event(client, 0)] + rest, Answers(map[], [Event(client, 0)] + rest), client, 1)
         == AllowedFrom(first, rest, client, 1)
  {
    var trace := [Event(client, 0)] + rest;
    SweepInvisible(trace);
    assert Plain(map[], client, 0) == (first, false);
    assert trace[1..] == rest;
    assert PlainAnswers(map[], trace)[1..] == PlainAnswers(first, rest);
  }

  lemma BusyRunOrdered(client: Client, n: nat)
    ensures NonDecreasing(BusyRun(client, n))
  {
  }

  /** Of the 60 seconds that start after that first request, two bursts and a request get through. */
  lemma BusyRunAllowed(client: Client, n: nat)
    requires n == 14
    ensures Allowed(BusyRun(client, n), Answers(map[], BusyRun(client, n)), client, 1) == n + (1 + n)
  {
    var first: Hits := map[client := Window(1, 60_000)];
    var last := Burst(client, 60_001, n) + [];
    BusyRunOrdered(client, n);
    FirstNotCounted(client, first, Burst(client, 60_000, n) + ([Event(client, 60_001)] + last));
    BurstAllowed(first, client, 60_000, n, [Event(client, 60_001)] + last, 1);
    NextWindow(client, Bumped(first, client, n), n, last);
  }

  /** With fourteen, 29 requests get through. */
  lemma TwentyNineIsReached(client: Client)
    ensures NonDecreasing(BusyRun(client, 14))
    ensures Allowed(BusyRun(client, 14), Answers(map[], BusyRun(client, 14)), client, 1) == 29
  {
    BusyRunOrdered(client, 14);
    BusyRunAllowed(client, 14);
  }
}
