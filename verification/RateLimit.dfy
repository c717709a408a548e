/**
 The per-client fixed-window rate limiter with lazy cleanup. Times are milliseconds of a clock
 that never goes back; the cleanup reads the clock first, the handler reads it again.
 */
module RateLimit {
  import opened Wrappers

  const CLEANUP_INTERVAL := 60_000

  datatype ClientRecord = ClientRecord(count: int, resetAt: int)

  datatype Options = Options(windowMs: nat, max: int)

  datatype Request = Request(ip: string, cleanupAt: int, at: int)

  datatype Decision = Admit | Reject(retryAfter: int)

  type Clients = map<string, ClientRecord>

  datatype State = State(clients: Clients, lastCleanup: int)

  function CeilSeconds(ms: int): int {
    (ms + 999) / 1000
  }

  // ---------------------------------------------------------------- one request

  function Cleaned(s: State, now: int): State {
    if now - s.lastCleanup < CLEANUP_INTERVAL then s
    else State(map ip | ip in s.clients && now < s.clients[ip].resetAt :: s.clients[ip], now)
  }

  /** What happens to the record of the requesting client. */
  function Serve(o: Options, record: Option<ClientRecord>, now: int): (ClientRecord, Decision) {
    if record.None? || now >= record.value.resetAt then (ClientRecord(1, now + o.windowMs), Admit)
    else
      var r := record.value.(count := record.value.count + 1);
      (r, if r.count > o.max then Reject(CeilSeconds(r.resetAt - now)) else Admit)
  }

  function Lookup(c: Clients, ip: string): Option<ClientRecord> {
    if ip in c then Some(c[ip]) else None
  }

  function Step(o: Options, s: State, q: Request): (State, Decision) {
    var c := Cleaned(s, q.cleanupAt);
    var (r, d) := Serve(o, Lookup(c.clients, q.ip), q.at);
    (c.(clients := c.clients[q.ip := r]), d)
  }

  /** The middleware and the state it closes over. */
  class RateLimiter {
    const options: Options
    var clients: Clients
    var lastCleanup: int

    ghost function View(): State
      reads this
    {
      State(clients, lastCleanup)
    }

    constructor (options: Options, now: int)
      ensures this.options == options && View() == State(map[], now)
    {
      this.options := options;
      clients, lastCleanup := map[], now;
    }

    method Cleanup(now: int)
      modifies this
      ensures View() == Cleaned(old(View()), now)
    {
      if now - lastCleanup < CLEANUP_INTERVAL {
        return;
      }
      lastCleanup := now;
      var todo := clients.Keys;
      ghost var before := clients;
      while todo != {}
        invariant todo <= before.Keys && lastCleanup == now
        invariant forall k :: k in clients <==> k in before && (k in todo || now < before[k].resetAt)
        invariant forall k :: k in clients ==> clients[k] == before[k]
      {
        var key :| key in todo;
        todo := todo - {key};
        if now >= clients[key].resetAt {
          clients := clients - {key};
        }
      }
    }

    method Handle(q: Request) returns (d: Decision)
      modifies this
      ensures (View(), d) == Step(options, old(View()), q)
    {
      Cleanup(q.cleanupAt);
      if q.ip !in clients || q.at >= clients[q.ip].resetAt {
        clients := clients[q.ip := ClientRecord(1, q.at + options.windowMs)];
        return Admit;
      }
      var existing := clients[q.ip].(count := clients[q.ip].count + 1);
      clients := clients[q.ip := existing];
      if existing.count > options.max {
        var retryAfter := CeilSeconds(existing.resetAt - q.at);
        return Reject(retryAfter);
      }
      return Admit;
    }
  }

  // ---------------------------------------------------------------- traces

  /** Clock readings from `now` on never go back. */
  ghost predicate Timed(now: int, qs: seq<Request>)
    decreases qs
  {
    qs == [] || (now <= qs[0].cleanupAt <= qs[0].at && Timed(qs[0].at, qs[1..]))
  }

  function Decisions(o: Options, s: State, qs: seq<Request>): (ds: seq<Decision>)
    ensures |ds| == |qs|
    decreases qs
  {
    if qs == [] then []
    else
      var (s', d) := Step(o, s, qs[0]);
      [d] + Decisions(o, s', qs[1..])
  }

  /** A limiter for a single client that never cleans up. */
  function Solo(o: Options, record: Option<ClientRecord>, ats: seq<int>): (ds: seq<Decision>)
    ensures |ds| == |ats|
    decreases ats
  {
    if ats == [] then []
    else
      var (r, d) := Serve(o, record, ats[0]);
      [d] + Solo(o, Some(r), ats[1..])
  }

  function TimesOf(qs: seq<Request>, ip: string): seq<int> {
    if qs == [] then [] else (if qs[0].ip == ip then [qs[0].at] else []) + TimesOf(qs[1..], ip)
  }

  function DecisionsOf(qs: seq<Request>, ds: seq<Decision>, ip: string): seq<Decision>
    requires |ds| == |qs|
    decreases qs
  {
    if qs == [] then []
    else (if qs[0].ip == ip then [ds[0]] else []) + DecisionsOf(qs[1..], ds[1..], ip)
  }

  /** Two records a client cannot tell apart from `now` on: equal, or both without an open window. */
  ghost predicate SameFor(a: Option<ClientRecord>, b: Option<ClientRecord>, now: int) {
    a == b || ((a.Some? ==> a.value.resetAt <= now) && (b.Some? ==> b.value.resetAt <= now))
  }

  lemma CleanedIsSame(s: State, at: int, ip: string, record: Option<ClientRecord>)
    requires SameFor(Lookup(s.clients, ip), record, at)
    ensures SameFor(Lookup(Cleaned(s, at).clients, ip), record, at)
  {
  }

  /**
   Cleanup and other clients are invisible: the decisions a client gets from the shared, cleaning
   limiter are those of a limiter of its own that never cleans up.
   */
  lemma {:induction false} Isolation(
      o: Options, s: State, qs: seq<Request>, ip: string, record: Option<ClientRecord>, now: int)
    requires Timed(now, qs) && SameFor(Lookup(s.clients, ip), record, now)
    ensures DecisionsOf(qs, Decisions(o, s, qs), ip) == Solo(o, record, TimesOf(qs, ip))
    decreases qs
  {
    if qs != [] {
      var q := qs[0];
      var c := Cleaned(s, q.cleanupAt);
      var (s', d) := Step(o, s, q);
      CleanedIsSame(s, q.cleanupAt, ip, record);
      var ds := Decisions(o, s', qs[1..]);
      assert ([d] + ds)[1..] == ds;
      if q.ip == ip {
        var (r, d') := Serve(o, record, q.at);
        assert d == d' && Lookup(s'.clients, ip) == Some(r);
        Isolation(o, s', qs[1..], ip, Some(r), q.at);
        assert TimesOf(qs, ip)[0] == q.at && TimesOf(qs, ip)[1..] == TimesOf(qs[1..], ip);
      } else {
        assert Lookup(s'.clients, ip) == Lookup(c.clients, ip);
        Isolation(o, s', qs[1..], ip, record, q.at);
        assert TimesOf(qs, ip) == TimesOf(qs[1..], ip);
      }
    }
  }

  function StepWithoutCleanup(o: Options, c: Clients, q: Request): (Clients, Decision) {
    var (r, d) := Serve(o, Lookup(c, q.ip), q.at);
    (c[q.ip := r], d)
  }

  function DecisionsWithoutCleanup(o: Options, c: Clients, qs: seq<Request>): (ds: seq<Decision>)
    ensures |ds| == |qs|
    decreases qs
  {
    if qs == [] then []
    else
      var (c', d) := StepWithoutCleanup(o, c, qs[0]);
      [d] + DecisionsWithoutCleanup(o, c', qs[1..])
  }

  /** The whole sequence of decisions equals that of a limiter that never cleans up. */
  lemma {:induction false} CleanupIsTransparent(o: Options, s: State, c: Clients, qs: seq<Request>, now: int)
    requires Timed(now, qs) && forall ip :: SameFor(Lookup(s.clients, ip), Lookup(c, ip), now)
    ensures Decisions(o, s, qs) == DecisionsWithoutCleanup(o, c, qs)
    decreases qs
  {
    if qs != [] {
      var q := qs[0];
      var (s', d) := Step(o, s, q);
      var (c', d') := StepWithoutCleanup(o, c, q);
      forall ip
        ensures SameFor(Lookup(Cleaned(s, q.cleanupAt).clients, ip), Lookup(c, ip), q.cleanupAt)
      {
        CleanedIsSame(s, q.cleanupAt, ip, Lookup(c, ip));
      }
      assert SameFor(Lookup(Cleaned(s, q.cleanupAt).clients, q.ip), Lookup(c, q.ip), q.cleanupAt);
      forall ip
        ensures SameFor(Lookup(s'.clients, ip), Lookup(c', ip), q.at)
      {
        assert ip != q.ip ==> Lookup(s'.clients, ip) == Lookup(Cleaned(s, q.cleanupAt).clients, ip);
      }
      CleanupIsTransparent(o, s', c', qs[1..], q.at);
    }
  }

  /** The state after a trace. */
  function StateAfter(o: Options, s: State, qs: seq<Request>): State
    decreases qs
  {
    if qs == [] then s else StateAfter(o, Step(o, s, qs[0]).0, qs[1..])
  }

  /** The last cleanup is less than a minute ago, and no window had ended by then. */
  ghost predicate NoneStale(s: State, now: int) {
    now - 60_000 < s.lastCleanup <= now && forall ip :: ip in s.clients ==> s.clients[ip].resetAt >= s.lastCleanup
  }

  lemma StepDropsStale(o: Options, s: State, q: Request)
    requires s.lastCleanup <= q.cleanupAt <= q.at
    requires forall ip :: ip in s.clients ==> s.clients[ip].resetAt >= s.lastCleanup
    ensures NoneStale(Step(o, s, q).0, q.cleanupAt)
  {
  }

  /**
   Expired records go: over every timed trace, after every request, each record kept belongs to a window
   that has not ended, or ended less than a minute before the request.
   */
  lemma {:induction false} ExpiredRecordsGo(o: Options, s: State, qs: seq<Request>, now: int)
    requires Timed(now, qs) && qs != [] && s.lastCleanup <= now
    requires forall ip :: ip in s.clients ==> s.clients[ip].resetAt >= s.lastCleanup
    ensures forall ip :: ip in StateAfter(o, s, qs).clients ==>
      StateAfter(o, s, qs).clients[ip].resetAt > qs[|qs| - 1].cleanupAt - 60_000
    decreases qs
  {
    StepDropsStale(o, s, qs[0]);
    if |qs| > 1 {
      ExpiredRecordsGo(o, Step(o, s, qs[0]).0, qs[1..], qs[0].at);
    } else {
      assert StateAfter(o, Step(o, s, qs[0]).0, qs[1..]) == Step(o, s, qs[0]).0;
    }
  }

  // ---------------------------------------------------------------- how many requests get through

  ghost predicate Sorted(now: int, ats: seq<int>)
    decreases ats
  {
    ats == [] || (now <= ats[0] && Sorted(ats[0], ats[1..]))
  }

  /** The admitted requests with a time in [lo, hi). */
  function Admitted(ats: seq<int>, ds: seq<Decision>, lo: int, hi: int): nat
    requires |ats| == |ds|
    decreases ats
  {
    if ats == [] then 0
    else (if lo <= ats[0] < hi && ds[0].Admit? then 1 else 0) + Admitted(ats[1..], ds[1..], lo, hi)
  }

  function SoloAdmitted(o: Options, record: Option<ClientRecord>, ats: seq<int>, lo: int, hi: int): nat {
    Admitted(ats, Solo(o, record, ats), lo, hi)
  }

  /** What a window lets through: at least its first request, which is not compared with `max`. */
  function Cap(o: Options): nat {
    if o.max < 1 then 1 else o.max
  }

  function Left(o: Options, count: int): nat {
    if count >= Cap(o) then 0 else Cap(o) - count
  }

  lemma SoloUnfolds(o: Options, record: Option<ClientRecord>, ats: seq<int>, lo: int, hi: int)
    requires ats != []
    ensures var (r, d) := Serve(o, record, ats[0]);
      SoloAdmitted(o, record, ats, lo, hi)
      == (if lo <= ats[0] < hi && d.Admit? then 1 else 0) + SoloAdmitted(o, Some(r), ats[1..], lo, hi)
  {
  }

  lemma SortedLater(now: int, later: int, ats: seq<int>)
    requires now <= later && Sorted(later, ats)
    ensures Sorted(now, ats)
  {
  }

  lemma {:induction false} NothingAfter(o: Options, record: Option<ClientRecord>, ats: seq<int>, lo: int, hi: int)
    requires Sorted(hi, ats)
    ensures SoloAdmitted(o, record, ats, lo, hi) == 0
    decreases ats
  {
    if ats != [] {
      var (r, d) := Serve(o, record, ats[0]);
      SoloUnfolds(o, record, ats, lo, hi);
      SortedLater(hi, ats[0], ats[1..]);
      NothingAfter(o, Some(r), ats[1..], lo, hi);
    }
  }

  /** Until its reset a window admits at most what is left of it. */
  lemma {:induction false} RestOfWindow(o: Options, r: ClientRecord, ats: seq<int>, lo: int, hi: int, now: int)
    requires r.count >= 1 && Sorted(now, ats) && hi <= r.resetAt
    ensures SoloAdmitted(o, Some(r), ats, lo, hi) <= Left(o, r.count)
    decreases ats
  {
    if ats != [] {
      if ats[0] >= hi {
        NothingAfter(o, Some(r), ats, lo, hi);
      } else {
        SoloUnfolds(o, Some(r), ats, lo, hi);
        var (r', d) := Serve(o, Some(r), ats[0]);
        RestOfWindow(o, r', ats[1..], lo, hi, ats[0]);
      }
    }
  }

  /** Up to one window length past its reset, at most one further window opens. */
  lemma {:induction false} RestAndNextWindow(o: Options, r: ClientRecord, ats: seq<int>, lo: int, hi: int, now: int)
    requires r.count >= 1 && Sorted(now, ats) && hi <= r.resetAt + o.windowMs
    ensures SoloAdmitted(o, Some(r), ats, lo, hi) <= Left(o, r.count) + Cap(o)
    decreases ats
  {
    if ats != [] {
      SoloUnfolds(o, Some(r), ats, lo, hi);
      var (r', d) := Serve(o, Some(r), ats[0]);
      if ats[0] >= r.resetAt {
        RestOfWindow(o, r', ats[1..], lo, hi, ats[0]);
      } else {
        RestAndNextWindow(o, r', ats[1..], lo, hi, ats[0]);
      }
    }
  }

  /** A window opened by the first of `ats` admits at most max requests. */
  lemma FixedWindowBound(o: Options, record: Option<ClientRecord>, ats: seq<int>)
    requires ats != [] && Sorted(ats[0], ats)
    requires record.None? || record.value.resetAt <= ats[0]
    ensures SoloAdmitted(o, record, ats, ats[0], ats[0] + o.windowMs) <= Cap(o)
  {
    var lo, hi := ats[0], ats[0] + o.windowMs;
    SoloUnfolds(o, record, ats, lo, hi);
    RestOfWindow(o, Serve(o, record, lo).0, ats[1..], lo, hi, lo);
  }

  /** A record is never about to be reset later than one window from now. */
  ghost predicate WindowOpen(o: Options, record: Option<ClientRecord>, now: int) {
    record.Some? ==> record.value.count >= 1 && record.value.resetAt <= now + o.windowMs
  }

  /**
   Any half-open interval as long as a window contains at most 2 * max - 1 admitted requests of a
   client: an earlier window can contribute all but its first request, the next one all of its requests.
   */
  lemma {:induction false} SlidingBound(
      o: Options, record: Option<ClientRecord>, ats: seq<int>, lo: int, hi: int, now: int)
    requires Sorted(now, ats) && WindowOpen(o, record, now) && hi <= lo + o.windowMs
    ensures SoloAdmitted(o, record, ats, lo, hi) <= 2 * Cap(o) - 1
    decreases ats
  {
    if ats != [] {
      var at := ats[0];
      SoloUnfolds(o, record, ats, lo, hi);
      var (r, d) := Serve(o, record, at);
      if at >= hi {
        NothingAfter(o, record, ats, lo, hi);
      } else if at < lo {
        SlidingBound(o, Some(r), ats[1..], lo, hi, at);
      } else if record.None? || at >= record.value.resetAt {
        RestOfWindow(o, r, ats[1..], lo, hi, at);
      } else {
        RestAndNextWindow(o, r, ats[1..], lo, hi, at);
      }
    }
  }

  lemma {:induction false} TimesAreSorted(qs: seq<Request>, ip: string, now: int)
    requires Timed(now, qs)
    ensures Sorted(now, TimesOf(qs, ip))
    decreases qs
  {
    if qs != [] {
      TimesAreSorted(qs[1..], ip, qs[0].at);
      if qs[0].ip == ip {
        assert TimesOf(qs, ip)[1..] == TimesOf(qs[1..], ip);
      } else {
        SortedLater(now, qs[0].at, TimesOf(qs[1..], ip));
        assert TimesOf(qs, ip) == TimesOf(qs[1..], ip);
      }
    }
  }

  /** The sliding bound for a client of the shared limiter, over every trace from its start. */
  lemma SharedSlidingBound(o: Options, start: int, qs: seq<Request>, ip: string, lo: int, hi: int)
    requires Timed(start, qs) && hi <= lo + o.windowMs
    ensures |TimesOf(qs, ip)| == |DecisionsOf(qs, Decisions(o, State(map[], start), qs), ip)|
    ensures Admitted(TimesOf(qs, ip), DecisionsOf(qs, Decisions(o, State(map[], start), qs), ip), lo, hi)
      <= 2 * Cap(o) - 1
  {
    Isolation(o, State(map[], start), qs, ip, None, start);
    TimesAreSorted(qs, ip, start);
    SlidingBound(o, None, TimesOf(qs, ip), lo, hi, start);
  }

  // ---------------------------------------------------------------- the bound is reached

  function Repeat(at: int, n: nat): (ats: seq<int>)
    ensures |ats| == n
  {
    if n == 0 then [] else [at] + Repeat(at, n - 1)
  }

  /** n requests at one moment of an open window that has room for them are all admitted. */
  lemma {:induction false} BurstIsAdmitted(
      o: Options, r: ClientRecord, at: int, n: nat, more: seq<int>, lo: int, hi: int)
    requires at < r.resetAt && r.count + n <= o.max && lo <= at < hi
    ensures SoloAdmitted(o, Some(r), Repeat(at, n) + more, lo, hi)
      == n + SoloAdmitted(o, Some(r.(count := r.count + n)), more, lo, hi)
    decreases n
  {
    var ats := Repeat(at, n) + more;
    if n == 0 {
      assert ats == more;
    } else {
      assert ats[0] == at && ats[1..] == Repeat(at, n - 1) + more;
      SoloUnfolds(o, Some(r), ats, lo, hi);
      BurstIsAdmitted(o, r.(count := r.count + 1), at, n - 1, more, lo, hi);
    }
  }

  /** One request, max - 1 at the end of its window and max at the start of the next one reach the bound. */
  lemma BoundIsReached(o: Options)
    requires o.max >= 1 && o.windowMs >= 2
    ensures var w := o.windowMs;
      var ats := [0] + (Repeat(w - 1, o.max - 1) + ([w] + (Repeat(w, o.max - 1) + [])));
      SoloAdmitted(o, None, ats, w - 1, 2 * w - 1) == 2 * o.max - 1
  {
    var w := o.windowMs;
    var lo, hi := w - 1, 2 * w - 1;
    var second := [w] + (Repeat(w, o.max - 1) + []);
    var ats := [0] + (Repeat(w - 1, o.max - 1) + second);
    assert ats[1..] == Repeat(w - 1, o.max - 1) + second && second[1..] == Repeat(w, o.max - 1) + [];
    SoloUnfolds(o, None, ats, lo, hi);
    BurstIsAdmitted(o, ClientRecord(1, w), w - 1, o.max - 1, second, lo, hi);
    SoloUnfolds(o, Some(ClientRecord(o.max, w)), second, lo, hi);
    BurstIsAdmitted(o, ClientRecord(1, w + w), w, o.max - 1, [], lo, hi);
    assert SoloAdmitted(o, Some(ClientRecord(o.max, w + w)), [], lo, hi) == 0;
  }

  /** Windows of at most one millisecond do not straddle any interval of their length. */
  lemma {:induction false} ShortWindowBound(
      o: Options, record: Option<ClientRecord>, ats: seq<int>, lo: int, hi: int, now: int)
    requires o.windowMs <= 1 && hi <= lo + o.windowMs && Sorted(now, ats)
    requires record.Some? ==> record.value.resetAt <= lo
    ensures SoloAdmitted(o, record, ats, lo, hi) <= Cap(o)
    decreases ats
  {
    if ats != [] {
      if ats[0] >= hi {
        NothingAfter(o, record, ats, lo, hi);
      } else {
        SoloUnfolds(o, record, ats, lo, hi);
        var (r, d) := Serve(o, record, ats[0]);
        if ats[0] < lo {
          ShortWindowBound(o, Some(r), ats[1..], lo, hi, ats[0]);
        } else {
          RestOfWindow(o, r, ats[1..], lo, hi, ats[0]);
        }
      }
    }
  }

  /** The interval of window length from `lo` on admits at most `Cap(o)` requests. */
  ghost predicate CapHoldsFrom(o: Options, ats: seq<int>, lo: int) {
    SoloAdmitted(o, None, ats, lo, lo + o.windowMs) <= Cap(o)
  }

  /** So does every such interval of every trace. */
  ghost predicate CapHoldsInEveryInterval(o: Options) {
    forall ats, now, lo :: Sorted(now, ats) ==> CapHoldsFrom(o, ats, lo)
  }

  lemma {:induction false} RepeatIsSorted(now: int, at: int, n: nat, more: seq<int>)
    requires now <= at && Sorted(at, more)
    ensures Sorted(now, Repeat(at, n) + more)
    decreases n
  {
    if n == 0 {
      assert Repeat(at, n) + more == more;
      SortedLater(now, at, more);
    } else {
      RepeatIsSorted(at, at, n - 1, more);
      assert (Repeat(at, n) + more)[1..] == Repeat(at, n - 1) + more;
    }
  }

  /** The trace of `BoundIsReached` is in order. */
  lemma ReachingTraceIsSorted(o: Options)
    requires o.max >= 1 && o.windowMs >= 2
    ensures var w := o.windowMs;
      Sorted(0, [0] + (Repeat(w - 1, o.max - 1) + ([w] + (Repeat(w, o.max - 1) + []))))
  {
    var w := o.windowMs;
    var second := [w] + (Repeat(w, o.max - 1) + []);
    RepeatIsSorted(w, w, o.max - 1, []);
    assert second[1..] == Repeat(w, o.max - 1) + [];
    RepeatIsSorted(0, w - 1, o.max - 1, second);
    assert ([0] + (Repeat(w - 1, o.max - 1) + second))[1..] == Repeat(w - 1, o.max - 1) + second;
  }

  /**
   The limit holds for every interval of window length, and not only for the fixed windows, exactly
   when it is a single request or the window is at most one millisecond.
   */
  lemma CapHoldsExactly(o: Options)
    ensures CapHoldsInEveryInterval(o) <==> o.max <= 1 || o.windowMs <= 1
  {
    if o.max <= 1 || o.windowMs <= 1 {
      forall ats, now, lo | Sorted(now, ats)
        ensures CapHoldsFrom(o, ats, lo)
      {
        if o.windowMs <= 1 {
          ShortWindowBound(o, None, ats, lo, lo + o.windowMs, now);
        } else {
          SlidingBound(o, None, ats, lo, lo + o.windowMs, now);
        }
      }
    } else {
      var w := o.windowMs;
      BoundIsReached(o);
      ReachingTraceIsSorted(o);
      var ats := [0] + (Repeat(w - 1, o.max - 1) + ([w] + (Repeat(w, o.max - 1) + [])));
      assert Sorted(0, ats) && !CapHoldsFrom(o, ats, w - 1);
    }
  }

  // ---------------------------------------------------------------- Retry-After

  lemma RetryAfterCoversReset(o: Options, record: Option<ClientRecord>, now: int)
    ensures var d := Serve(o, record, now).1; d.Reject? ==>
      && record.Some? && d.retryAfter >= 1
      && now + 1000 * d.retryAfter - 1000 < record.value.resetAt <= now + 1000 * d.retryAfter
  {
  }

  /** The record of a client after the requests of `ats`. */
  function RecordAfter(o: Options, record: Option<ClientRecord>, ats: seq<int>): Option<ClientRecord>
    decreases ats
  {
    if ats == [] then record else RecordAfter(o, Some(Serve(o, record, ats[0]).0), ats[1..])
  }

  /** Requests before the reset do not move it. */
  lemma {:induction false} HammeringKeepsReset(o: Options, r: ClientRecord, ats: seq<int>)
    requires forall i :: 0 <= i < |ats| ==> ats[i] < r.resetAt
    ensures var after := RecordAfter(o, Some(r), ats); after == Some(r.(count := r.count + |ats|))
    decreases ats
  {
    if ats != [] {
      HammeringKeepsReset(o, r.(count := r.count + 1), ats[1..]);
    }
  }

  /**
   A rejected client that sends nothing from the reset on until the Retry-After deadline is admitted
   with its first request at or after the deadline, however many requests it sent before the reset.
   */
  lemma RetryAfterIsHonoured(o: Options, record: Option<ClientRecord>, now: int, between: seq<int>, at: int)
    requires Serve(o, record, now).1.Reject?
    requires forall i :: 0 <= i < |between| ==> between[i] < record.value.resetAt
    requires at >= now + 1000 * Serve(o, record, now).1.retryAfter
    ensures Serve(o, RecordAfter(o, Some(Serve(o, record, now).0), between), at).1 == Admit
  {
    RetryAfterCoversReset(o, record, now);
    HammeringKeepsReset(o, Serve(o, record, now).0, between);
  }

  lemma {:induction false} RecordAfterBoth(o: Options, record: Option<ClientRecord>, a: seq<int>, b: seq<int>)
    ensures RecordAfter(o, record, a + b) == RecordAfter(o, RecordAfter(o, record, a), b)
    decreases a
  {
    if a == [] {
      assert a + b == b;
    } else {
      assert (a + b)[1..] == a[1..] + b;
      RecordAfterBoth(o, Some(Serve(o, record, a[0]).0), a[1..], b);
    }
  }

  /** A request at or after the reset opens a window of its own. */
  lemma OpensWindow(o: Options, record: Option<ClientRecord>, before: seq<int>, first: int)
    requires var r := RecordAfter(o, record, before); r.None? || r.value.resetAt <= first
    ensures RecordAfter(o, record, before + [first]) == Some(ClientRecord(1, first + o.windowMs))
  {
    var r := RecordAfter(o, record, before);
    RecordAfterBoth(o, record, before, [first]);
    assert [first][1..] == [];
    assert RecordAfter(o, r, [first]) == Some(Serve(o, r, first).0);
  }

  /** The requests before its end are counted in it. */
  lemma CurrentWindow(o: Options, record: Option<ClientRecord>, before: seq<int>, first: int, others: seq<int>)
    requires var r := RecordAfter(o, record, before); r.None? || r.value.resetAt <= first
    requires forall i :: 0 <= i < |others| ==> others[i] < first + o.windowMs
    ensures RecordAfter(o, record, before + [first] + others) == Some(ClientRecord(1 + |others|, first + o.windowMs))
  {
    OpensWindow(o, record, before, first);
    RecordAfterBoth(o, record, before + [first], others);
    HammeringKeepsReset(o, ClientRecord(1, first + o.windowMs), others);
  }

  /**
   In the remaining case the client came back after a reset. Whatever it sent before, its last window
   was opened by some request `first` and holds the requests sent since: the next request is admitted
   exactly when that window is over or has room for one more.
   */
  lemma EarlyReturnSpendsTheWindow(
      o: Options, record: Option<ClientRecord>, before: seq<int>, first: int, others: seq<int>, at: int)
    requires var r := RecordAfter(o, record, before); r.None? || r.value.resetAt <= first
    requires forall i :: 0 <= i < |others| ==> others[i] < first + o.windowMs
    ensures Serve(o, RecordAfter(o, record, before + [first] + others), at).1 == Admit
      <==> at >= first + o.windowMs || 2 + |others| <= o.max
  {
    CurrentWindow(o, record, before, first, others);
  }

  lemma {:induction false} SortedAt(now: int, ats: seq<int>)
    requires Sorted(now, ats)
    ensures forall i, j :: 0 <= i <= j < |ats| ==> now <= ats[i] <= ats[j]
    decreases ats
  {
    if ats != [] {
      SortedAt(ats[0], ats[1..]);
      assert forall i :: 0 < i < |ats| ==> ats[i] == ats[1..][i - 1];
    }
  }

  lemma {:induction false} SortedPrefix(now: int, ats: seq<int>, k: nat)
    requires Sorted(now, ats) && k <= |ats|
    ensures Sorted(now, ats[..k])
    decreases ats
  {
    if k > 0 {
      SortedPrefix(ats[0], ats[1..], k - 1);
      assert ats[..k][1..] == ats[1..][..k - 1];
    }
  }

  /**
   Every trace that reaches past the reset of its record has such a last window, so silence from the
   reset on and an early return are the only two cases.
   */
  lemma {:induction false} LastWindow(
      o: Options, record: Option<ClientRecord>, ats: seq<int>, now: int) returns (k: nat)
    requires Sorted(now, ats) && ats != [] && (record.None? || record.value.resetAt <= ats[|ats| - 1])
    ensures k < |ats|
    ensures var r := RecordAfter(o, record, ats[..k]); r.None? || r.value.resetAt <= ats[k]
    ensures forall i :: k < i < |ats| ==> ats[k] <= ats[i] < ats[k] + o.windowMs
    decreases |ats|
  {
    var m := |ats| - 1;
    var r := RecordAfter(o, record, ats[..m]);
    k := m;
    if r.Some? && r.value.resetAt > ats[m] {
      SortedAt(now, ats);
      SortedPrefix(now, ats, m);
      if record.Some? && (m == 0 || ats[m - 1] < record.value.resetAt) {
        HammeringKeepsReset(o, record.value, ats[..m]);
      }
      k := LastWindow(o, record, ats[..m], now);
      assert ats[..m][..k] == ats[..k];
      assert ats[..m] == ats[..k] + [ats[k]] + ats[k + 1..m];
      CurrentWindow(o, record, ats[..k], ats[k], ats[k + 1..m]);
    }
  }

  /** The k-th decision for a client alone is the one its record after the first k requests calls for. */
  lemma {:induction false} SoloServes(o: Options, record: Option<ClientRecord>, ats: seq<int>, k: nat)
    requires k < |ats|
    ensures Solo(o, record, ats)[k] == Serve(o, RecordAfter(o, record, ats[..k]), ats[k]).1
    decreases ats
  {
    if k > 0 {
      SoloServes(o, Some(Serve(o, record, ats[0]).0), ats[1..], k - 1);
      assert ats[..k][1..] == ats[1..][..k - 1];
    }
  }

  /** Requests to the shared limiter from its start, one client's times among them and the answers it gets. */
  ghost predicate IsClientTrace(
      o: Options, start: int, qs: seq<Request>, ip: string, ats: seq<int>, ds: seq<Decision>)
  {
    && Timed(start, qs) && ats == TimesOf(qs, ip) && ds == DecisionsOf(qs, Decisions(o, State(map[], start), qs), ip)
  }

  /** The shared, cleaning limiter answers each client by that record, too. */
  lemma SharedServes(
      o: Options, start: int, qs: seq<Request>, ip: string, ats: seq<int>, ds: seq<Decision>, k: nat)
    requires IsClientTrace(o, start, qs, ip, ats, ds) && k < |ats|
    ensures |ds| == |ats| && Sorted(start, ats)
    ensures ds[k] == Serve(o, RecordAfter(o, None, ats[..k]), ats[k]).1
  {
    Isolation(o, State(map[], start), qs, ip, None, start);
    TimesAreSorted(qs, ip, start);
    SoloServes(o, None, ats, k);
  }

  /** The reset that a rejected request j is told, rounded up to seconds. */
  function ResetOf(o: Options, ats: seq<int>, j: nat): int
    requires j < |ats|
  {
    var r := RecordAfter(o, None, ats[..j]);
    if r.Some? then r.value.resetAt else ats[j]
  }

  lemma RecordAtReturn(o: Options, ats: seq<int>, j: nat, k: nat)
    requires j < k <= |ats|
    ensures RecordAfter(o, None, ats[..k])
      == RecordAfter(o, Some(Serve(o, RecordAfter(o, None, ats[..j]), ats[j]).0), ats[j + 1..k])
  {
    assert ats[..k] == ats[..j] + ats[j..k] && ats[j..k][1..] == ats[j + 1..k];
    RecordAfterBoth(o, None, ats[..j], ats[j..k]);
  }

  /**
   Retry-After of the shared limiter, over every timed trace of any clients: if request j of a client
   was rejected, the client comes back with request k at or after the deadline, and all its requests in
   between were sent before the reset, then request k is admitted. The reset lies within the last
   second before the deadline.
   */
  lemma SharedRetryAfterIsHonoured(
      o: Options, start: int, qs: seq<Request>, ip: string, ats: seq<int>, ds: seq<Decision>, j: nat, k: nat)
    requires IsClientTrace(o, start, qs, ip, ats, ds) && j < k < |ats| == |ds|
    requires ds[j].Reject? && ats[k] >= ats[j] + 1000 * ds[j].retryAfter
    requires forall i :: j < i < k ==> ats[i] < ResetOf(o, ats, j)
    ensures ds[k] == Admit
    ensures ats[j] + 1000 * ds[j].retryAfter - 1000 < ResetOf(o, ats, j) <= ats[j] + 1000 * ds[j].retryAfter
  {
    var record := RecordAfter(o, None, ats[..j]);
    SharedServes(o, start, qs, ip, ats, ds, j);
    SharedServes(o, start, qs, ip, ats, ds, k);
    RetryAfterCoversReset(o, record, ats[j]);
    RecordAtReturn(o, ats, j, k);
    RetryAfterIsHonoured(o, record, ats[j], ats[j + 1..k], ats[k]);
  }

  /** In particular a client that stays silent from one second before the deadline on is admitted. */
  lemma SharedSilentSecondIsEnough(
      o: Options, start: int, qs: seq<Request>, ip: string, ats: seq<int>, ds: seq<Decision>, j: nat, k: nat)
    requires IsClientTrace(o, start, qs, ip, ats, ds) && j < k < |ats| == |ds|
    requires ds[j].Reject? && ats[k] >= ats[j] + 1000 * ds[j].retryAfter
    requires forall i :: j < i < k ==> ats[i] <= ats[j] + 1000 * ds[j].retryAfter - 1000
    ensures ds[k] == Admit
  {
    SharedServes(o, start, qs, ip, ats, ds, j);
    RetryAfterCoversReset(o, RecordAfter(o, None, ats[..j]), ats[j]);
    SharedRetryAfterIsHonoured(o, start, qs, ip, ats, ds, j, k);
  }

  lemma {:induction false} RecordStays(o: Options, r: ClientRecord, ats: seq<int>)
    ensures RecordAfter(o, Some(r), ats).Some?
    decreases ats
  {
    if ats != [] {
      RecordStays(o, Serve(o, Some(r), ats[0]).0, ats[1..]);
    }
  }

  /** The last window of the requests after a rejected one, if they reach past its reset, and the next answer. */
  lemma LastWindowAfter(o: Options, r: ClientRecord, ats: seq<int>, now: int, at: int) returns (w: nat)
    requires Sorted(now, ats) && ats != [] && r.resetAt <= ats[|ats| - 1]
    ensures w < |ats| && r.resetAt <= ats[w]
    ensures Serve(o, RecordAfter(o, Some(r), ats[..w]), ats[w]).1 == Admit
    ensures forall i :: w < i < |ats| ==> ats[i] < ats[w] + o.windowMs
    ensures Serve(o, RecordAfter(o, Some(r), ats), at).1 == Admit
      <==> at >= ats[w] + o.windowMs || |ats| - w + 1 <= o.max
  {
    w := LastWindow(o, Some(r), ats, now);
    SortedAt(now, ats);
    RecordStays(o, r, ats[..w]);
    if ats[w] < r.resetAt {
      HammeringKeepsReset(o, r, ats[..w]);
    }
    assert ats == ats[..w] + [ats[w]] + ats[w + 1..];
    EarlyReturnSpendsTheWindow(o, Some(r), ats[..w], ats[w], ats[w + 1..], at);
  }

  lemma {:induction false} SortedIfPairwise(now: int, ats: seq<int>)
    requires forall i, j :: 0 <= i <= j < |ats| ==> now <= ats[i] <= ats[j]
    ensures Sorted(now, ats)
    decreases ats
  {
    if ats != [] {
      SortedIfPairwise(ats[0], ats[1..]);
    }
  }

  lemma SortedSlice(now: int, ats: seq<int>, i: nat, k: nat)
    requires Sorted(now, ats) && i <= k <= |ats|
    ensures Sorted(now, ats[i..k])
  {
    SortedAt(now, ats);
    SortedIfPairwise(now, ats[i..k]);
  }

  lemma LastIsLatest(now: int, ats: seq<int>, j: nat, k: nat, reset: int)
    requires Sorted(now, ats) && k <= |ats| && exists i :: j < i < k && ats[i] >= reset
    ensures j + 1 < k && ats[k - 1] >= reset
  {
    SortedAt(now, ats);
    var i :| j < i < k && ats[i] >= reset;
    assert ats[i] <= ats[k - 1];
  }

  lemma Slices(ats: seq<int>, i: nat, k: nat, v: nat)
    requires i + v < k <= |ats|
    ensures ats[i..k][..v] == ats[i..i + v] && ats[i..k][v] == ats[i + v]
    ensures forall x :: i + v < x < k ==> ats[x] == ats[i..k][x - i]
  {
  }

  /** The last window before request k, if some request after the rejected request j was sent from the reset on. */
  lemma WindowBeforeReturn(o: Options, ats: seq<int>, now: int, j: nat, k: nat) returns (w: nat)
    requires Sorted(now, ats) && j < k < |ats|
    requires Serve(o, RecordAfter(o, None, ats[..j]), ats[j]).1.Reject?
    requires exists i :: j < i < k && ats[i] >= ResetOf(o, ats, j)
    ensures j < w < k && ResetOf(o, ats, j) <= ats[w]
    ensures Serve(o, RecordAfter(o, None, ats[..w]), ats[w]).1 == Admit
    ensures forall i :: w < i < k ==> ats[i] < ats[w] + o.windowMs
    ensures Serve(o, RecordAfter(o, None, ats[..k]), ats[k]).1 == Admit
      <==> ats[k] >= ats[w] + o.windowMs || k - w + 1 <= o.max
  {
    var r := Serve(o, RecordAfter(o, None, ats[..j]), ats[j]).0;
    SortedSlice(now, ats, j + 1, k);
    LastIsLatest(now, ats, j, k, ResetOf(o, ats, j));
    Slices(ats, j + 1, k, k - j - 2);
    var v := LastWindowAfter(o, r, ats[j + 1..k], now, ats[k]);
    w := j + 1 + v;
    Slices(ats, j + 1, k, v);
    RecordAtReturn(o, ats, j, k);
    RecordAtReturn(o, ats, j, w);
  }

  /**
   If some request in between was sent from the reset on, a request w of those was admitted and opened
   the client's last window: request k is admitted exactly when that window is over or has room.
   */
  lemma SharedEarlyReturn(
      o: Options, start: int, qs: seq<Request>, ip: string, ats: seq<int>, ds: seq<Decision>, j: nat, k: nat)
    returns (w: nat)
    requires IsClientTrace(o, start, qs, ip, ats, ds) && j < k < |ats| == |ds| && ds[j].Reject?
    requires exists i :: j < i < k && ats[i] >= ResetOf(o, ats, j)
    ensures j < w < k && ResetOf(o, ats, j) <= ats[w] && ds[w] == Admit
    ensures forall i :: w < i < k ==> ats[i] < ats[w] + o.windowMs
    ensures ds[k] == Admit <==> ats[k] >= ats[w] + o.windowMs || k - w + 1 <= o.max
  {
    SharedServes(o, start, qs, ip, ats, ds, j);
    SharedServes(o, start, qs, ip, ats, ds, k);
    w := WindowBeforeReturn(o, ats, start, j, k);
    SharedServes(o, start, qs, ip, ats, ds, w);
  }

  /**
   So the promise fails: a client limited to one request per 1500 ms that comes back early is rejected
   again at the deadline.
   */
  lemma RetryAfterCanFail()
    ensures var o := Options(1500, 1);
      && Solo(o, None, [0, 600, 1550, 1600]) == [Admit, Reject(1), Admit, Reject(2)]
      && 600 + 1000 * 1 <= 1600
  {
  }
}
