/**
 The page-slot semaphore of the PDF renderer: at most two held slots, direct hand-off to
 the longest-waiting request, and a timer for each waiting request.
 */
module PageSlots {
  import Runs
  import Sorting

  const MAX_CONCURRENT_PAGES := 2

  /** Requests are numbered in the order in which they ask for a slot. */
  type Ticket = nat

  /** How the promise of a request settled. */
  datatype Outcome = Granted | TimedOut

  /**
   `timers` are the armed timers, `outcome` the settled promises, `held` the requests that were
   granted a slot and have not called their release function yet, `grants` the granted requests
   in the order of their grants.
   */
  datatype State = State(
    activePages: int,
    slotWaiters: seq<Ticket>,
    timers: set<Ticket>,
    outcome: map<Ticket, Outcome>,
    held: set<Ticket>,
    grants: seq<Ticket>,
    next: Ticket)

  const INITIAL := State(0, [], {}, map[], {}, [], 0)

  datatype Event = Acquire | Release(holder: Ticket) | Timeout(waiter: Ticket)

  /** A slot is released once, by its holder; a timer fires once, and only while it is armed. */
  predicate Enabled(s: State, e: Event) {
    match e
    case Acquire => true
    case Release(h) => h in s.held
    case Timeout(w) => w in s.timers
  }

  function Grant(s: State, t: Ticket): State {
    s.(outcome := s.outcome[t := Granted], held := s.held + {t}, grants := s.grants + [t])
  }

  function Without(q: seq<Ticket>, t: Ticket): seq<Ticket> {
    if q == [] then [] else if q[0] == t then q[1..] else [q[0]] + Without(q[1..], t)
  }

  function Step(s: State, e: Event): State {
    match e
    case Acquire =>
      var s' := s.(next := s.next + 1);
      if s.activePages < MAX_CONCURRENT_PAGES then Grant(s'.(activePages := s.activePages + 1), s.next)
      else s'.(slotWaiters := s.slotWaiters + [s.next], timers := s.timers + {s.next})
    case Release(h) =>
      var s' := s.(held := s.held - {h});
      if s.slotWaiters == [] then s'.(activePages := s.activePages - 1)
      else
        var w := s.slotWaiters[0];
        var s'' := s'.(slotWaiters := s.slotWaiters[1..], timers := s.timers - {w});
        if w in s.outcome then s'' else Grant(s'', w)
    case Timeout(w) =>
      s.(slotWaiters := Without(s.slotWaiters, w), timers := s.timers - {w},
         outcome := if w in s.outcome then s.outcome else s.outcome[w := TimedOut])
  }

  // ---------------------------------------------------------------- the module state

  function IndexOf(q: seq<Ticket>, t: Ticket): (i: int)
    ensures -1 <= i < |q|
    ensures i >= 0 ==> q[i] == t
  {
    if q == [] then -1
    else if q[0] == t then 0
    else
      var i := IndexOf(q[1..], t);
      if i == -1 then -1 else i + 1
  }

  function Splice(q: seq<Ticket>, i: nat): seq<Ticket>
    requires i < |q|
  {
    q[..i] + q[i + 1..]
  }

  lemma {:induction false} WithoutIsSplice(q: seq<Ticket>, t: Ticket, i: int)
    requires i == IndexOf(q, t)
    ensures Without(q, t) == if i >= 0 then Splice(q, i) else q
  {
    if q != [] && q[0] != t {
      WithoutIsSplice(q[1..], t, IndexOf(q[1..], t));
    }
  }

  /** The module-level variables and the promises they settle. */
  class Slots {
    var activePages: int
    var slotWaiters: seq<Ticket>
    var timers: set<Ticket>
    var outcome: map<Ticket, Outcome>
    var next: Ticket
    ghost var held: set<Ticket>
    ghost var grants: seq<Ticket>

    ghost function View(): State
      reads this
    {
      State(activePages, slotWaiters, timers, outcome, held, grants, next)
    }

    constructor ()
      ensures View() == INITIAL
    {
      activePages, slotWaiters, timers, outcome, next := 0, [], {}, map[], 0;
      held, grants := {}, [];
    }

    method AcquirePageSlot() returns (ticket: Ticket)
      modifies this
      ensures ticket == old(next) && View() == Step(old(View()), Acquire)
    {
      ticket := next;
      next := next + 1;
      if activePages < MAX_CONCURRENT_PAGES {
        activePages := activePages + 1;
        outcome, held, grants := outcome[ticket := Granted], held + {ticket}, grants + [ticket];
        return;
      }
      timers := timers + {ticket};
      slotWaiters := slotWaiters + [ticket];
    }

    /** The release function handed to a holder. Resolving a settled promise has no effect. */
    method ReleasePageSlot(ghost holder: Ticket)
      requires holder in held
      modifies this
      ensures View() == Step(old(View()), Release(holder))
    {
      held := held - {holder};
      if |slotWaiters| > 0 {
        var waiter := slotWaiters[0];
        slotWaiters := slotWaiters[1..];
        timers := timers - {waiter};
        if waiter !in outcome {
          outcome, held, grants := outcome[waiter := Granted], held + {waiter}, grants + [waiter];
        }
        return;
      }
      activePages := activePages - 1;
    }

    /** The timer callback of a waiter. */
    method TimerFires(waiter: Ticket)
      requires waiter in timers
      modifies this
      ensures View() == Step(old(View()), Timeout(waiter))
    {
      timers := timers - {waiter};
      var index := IndexOf(slotWaiters, waiter);
      if index >= 0 {
        slotWaiters := Splice(slotWaiters, index);
      }
      WithoutIsSplice(old(slotWaiters), waiter, index);
      if waiter !in outcome {
        outcome := outcome[waiter := TimedOut];
      }
    }
  }

  // ---------------------------------------------------------------- what every step keeps

  /** Earlier requests have smaller numbers. */
  const EARLIER: Sorting.Order<Ticket> := (a, b) => a < b

  ghost predicate Ascending(q: seq<Ticket>) {
    Sorting.Ascending(EARLIER, q)
  }

  lemma AscendingAppend(q: seq<Ticket>, t: Ticket)
    requires Ascending(q) && forall x :: x in q ==> x < t
    ensures Ascending(q + [t])
  {
    assert [t][1..] == [];
    Sorting.AscendingConcat(EARLIER, q, [t]);
  }

  ghost predicate Inv(s: State) {
    && s.activePages == |s.held| <= MAX_CONCURRENT_PAGES
    && (s.slotWaiters != [] ==> s.activePages == MAX_CONCURRENT_PAGES)
    && Ascending(s.slotWaiters) && Ascending(s.grants)
    && (forall t :: t in s.timers <==> t in s.slotWaiters)
    && (forall t: Ticket :: t < s.next <==> t in s.outcome || t in s.slotWaiters)
    && (forall t :: t in s.slotWaiters ==> t !in s.outcome)
    && (forall t :: t in s.grants <==> t in s.outcome && s.outcome[t] == Granted)
    && (forall t :: t in s.held ==> t in s.grants)
    && (forall g, w :: g in s.grants && w in s.slotWaiters ==> g < w)
  }

  lemma {:induction false} WithoutAscending(q: seq<Ticket>, t: Ticket)
    requires Ascending(q)
    ensures Ascending(Without(q, t))
    ensures forall x :: x in Without(q, t) <==> x in q && x != t
    ensures |Without(q, t)| == if t in q then |q| - 1 else |q|
  {
    if q != [] {
      var rest := Without(q[1..], t);
      assert q == [q[0]] + q[1..];
      WithoutAscending(q[1..], t);
      assert ([q[0]] + rest)[1..] == rest;
    }
  }

  lemma AcquireKeepsInv(s: State)
    requires Inv(s)
    ensures Inv(Step(s, Acquire))
  {
    var t := s.next;
    assert t !in s.grants && t !in s.slotWaiters && t !in s.held;
    if s.activePages < MAX_CONCURRENT_PAGES {
      AscendingAppend(s.grants, t);
      assert s.slotWaiters == [] && |s.held + {t}| == |s.held| + 1;
    } else {
      AscendingAppend(s.slotWaiters, t);
      assert forall w :: w in s.slotWaiters + [t] <==> w in s.slotWaiters || w == t;
    }
  }

  /** The slot of `h` goes to the first waiter without being returned to the pool. */
  lemma HandOff(s: State, h: Ticket, w: Ticket)
    requires Inv(s) && h in s.held && s.slotWaiters != [] && w == s.slotWaiters[0]
    ensures Inv(Step(s, Release(h)))
  {
    var rest := s.slotWaiters[1..];
    assert s.slotWaiters == [w] + rest;
    assert w in s.slotWaiters && w !in s.grants && w !in s.held;
    assert forall t :: t in rest ==> w < t;
    AscendingAppend(s.grants, w);
    assert |s.held - {h} + {w}| == |s.held|;
  }

  lemma ReleaseKeepsInv(s: State, h: Ticket)
    requires Inv(s) && h in s.held
    ensures Inv(Step(s, Release(h)))
  {
    if s.slotWaiters != [] {
      HandOff(s, h, s.slotWaiters[0]);
    }
  }

  lemma TimeoutKeepsInv(s: State, w: Ticket)
    requires Inv(s) && w in s.timers
    ensures Inv(Step(s, Timeout(w)))
  {
    WithoutAscending(s.slotWaiters, w);
  }

  lemma StepKeepsInv(s: State, e: Event)
    requires Inv(s) && Enabled(s, e)
    ensures Inv(Step(s, e))
  {
    match e
    case Acquire => AcquireKeepsInv(s);
    case Release(h) => ReleaseKeepsInv(s, h);
    case Timeout(w) => TimeoutKeepsInv(s, w);
  }

  // ---------------------------------------------------------------- whole runs

  const STEP: (State, Event) -> (State, ()) := (s, e) => (Step(s, e), ())

  const ENABLED: (State, Event) -> bool := (s, e) => Enabled(s, e)

  /** Every event of the run is enabled when it happens. */
  ghost predicate IsRun(s: State, es: seq<Event>) {
    Runs.Legal(STEP, ENABLED, s, es)
  }

  function After(s: State, es: seq<Event>): State {
    Runs.After(STEP, s, es)
  }

  lemma RunKeepsInv(s: State, es: seq<Event>)
    requires Inv(s) && IsRun(s, es)
    ensures Inv(After(s, es))
  {
    forall s, e | Inv(s) && ENABLED(s, e)
      ensures Inv(STEP(s, e).0)
    {
      StepKeepsInv(s, e);
    }
    Runs.KeepsState(STEP, ENABLED, (s: State) => Inv(s), s, es);
  }

  /**
   Safety of every interleaving of acquires, releases and timeouts: the counter equals the number
   of held slots and never exceeds two, nobody waits while a slot is free, and a request is granted
   only after every earlier request has settled, so the fast path overtakes no waiter and grants
   go out in order of arrival.
   */
  lemma EveryRunIsSafe(es: seq<Event>)
    requires IsRun(INITIAL, es)
    ensures var s := After(INITIAL, es);
      && 0 <= s.activePages == |s.held| <= 2
      && (s.slotWaiters != [] ==> s.activePages == 2)
      && (s.held == {} ==> s.activePages == 0 && s.slotWaiters == [])
      && (forall i, j :: 0 <= i < j < |s.grants| ==> s.grants[i] < s.grants[j])
      && (forall t: Ticket, g :: g in s.grants && t < g ==> t in s.outcome)
  {
    RunKeepsInv(INITIAL, es);
    var s := After(INITIAL, es);
    forall i, j | 0 <= i < j < |s.grants|
      ensures s.grants[i] < s.grants[j]
    {
      Sorting.AscendingAt(EARLIER, s.grants, i, j);
    }
  }

  lemma StepSettles(s: State, e: Event, t: Ticket)
    requires Inv(s) && Enabled(s, e)
    ensures t in s.outcome ==> t in Step(s, e).outcome && Step(s, e).outcome[t] == s.outcome[t]
    ensures t !in s.outcome && t in Step(s, e).outcome ==> (Step(s, e).outcome[t] == TimedOut <==> e == Timeout(t))
  {
  }

  /** A promise settles at most once, and a request is rejected only by its own timer. */
  lemma {:induction false} SettlesOnce(s: State, es: seq<Event>, t: Ticket)
    requires Inv(s) && IsRun(s, es)
    ensures t in s.outcome ==> t in After(s, es).outcome && After(s, es).outcome[t] == s.outcome[t]
    ensures t !in s.outcome && t in After(s, es).outcome && After(s, es).outcome[t] == TimedOut ==> Timeout(t) in es
    decreases es
  {
    if es != [] {
      var s' := Step(s, es[0]);
      StepKeepsInv(s, es[0]);
      StepSettles(s, es[0], t);
      SettlesOnce(s', es[1..], t);
    }
  }

  function Releases(es: seq<Event>): nat {
    if es == [] then 0 else (if es[0].Release? then 1 else 0) + Releases(es[1..])
  }

  function Timeouts(es: seq<Event>): nat {
    if es == [] then 0 else (if es[0].Timeout? then 1 else 0) + Timeouts(es[1..])
  }

  function Acquires(es: seq<Event>): nat {
    if es == [] then 0 else (if es[0].Acquire? then 1 else 0) + Acquires(es[1..])
  }

  lemma StepCounts(s: State, e: Event)
    requires Inv(s) && Enabled(s, e)
    ensures var s' := Step(s, e);
      |s'.held| + |s'.slotWaiters| == |s.held| + |s.slotWaiters| + if e.Acquire? then 1 else -1
    ensures e.Timeout? ==> Step(s, e).held == s.held
  {
    StepKeepsInv(s, e);
    match e
    case Acquire =>
    case Release(h) =>
    case Timeout(w) => WithoutAscending(s.slotWaiters, w);
  }

  /**
   Every request is accounted for: it holds a slot, waits, or left by exactly one release or
   one timeout. In particular a timeout neither loses nor creates a slot.
   */
  lemma {:induction false} Conservation(s: State, es: seq<Event>)
    requires Inv(s) && IsRun(s, es)
    ensures var s' := After(s, es);
      |s'.held| + |s'.slotWaiters| + Releases(es) + Timeouts(es) == |s.held| + |s.slotWaiters| + Acquires(es)
    decreases es
  {
    if es != [] {
      StepKeepsInv(s, es[0]);
      StepCounts(s, es[0]);
      Conservation(Step(s, es[0]), es[1..]);
    }
  }

  /** Position of a waiter: it only ever moves towards the head. */
  lemma {:induction false} WithoutKeepsOrder(q: seq<Ticket>, t: Ticket, k: nat)
    requires Ascending(q) && k < |q| && q[k] != t
    ensures var r := Without(q, t);
      (k < |r| && r[k] == q[k]) || (0 < k <= |r| && r[k - 1] == q[k])
  {
    if q[0] != t && k > 0 {
      WithoutKeepsOrder(q[1..], t, k - 1);
      assert q[k] == q[1..][k - 1];
    }
  }

  /** Where the waiter at position k is after one step, unless the step settled it. */
  lemma StepMovesUp(s: State, e: Event, k: nat) returns (k': nat)
    requires Inv(s) && Enabled(s, e) && k < |s.slotWaiters| && e != Timeout(s.slotWaiters[k])
    requires e.Release? ==> k > 0
    ensures var s' := Step(s, e);
      k' <= (if e.Release? then k - 1 else k) && k' < |s'.slotWaiters| && s'.slotWaiters[k'] == s.slotWaiters[k]
    ensures !e.Timeout? ==> k' == if e.Release? then k - 1 else k
  {
    match e
    case Acquire => k' := k;
    case Release(h) => k' := k - 1;
    case Timeout(t) =>
      WithoutKeepsOrder(s.slotWaiters, t, k);
      var r := Without(s.slotWaiters, t);
      k' := if k < |r| && r[k] == s.slotWaiters[k] then k else k - 1;
  }

  /** The waiter at position k has settled once more than k slots have been released. */
  lemma {:induction false} SettledAfterReleases(s: State, es: seq<Event>, k: nat)
    requires Inv(s) && IsRun(s, es) && k < |s.slotWaiters| && Releases(es) > k
    ensures var w := s.slotWaiters[k];
      w in After(s, es).outcome && (After(s, es).outcome[w] == Granted || Timeout(w) in es)
    decreases es
  {
    var w := s.slotWaiters[k];
    var e := es[0];
    StepKeepsInv(s, e);
    if e == Timeout(w) || (e.Release? && k == 0) {
      StepSettles(s, e, w);
      SettlesOnce(Step(s, e), es[1..], w);
    } else {
      var k' := StepMovesUp(s, e, k);
      SettledAfterReleases(Step(s, e), es[1..], k');
    }
  }

  /** Without timeouts the waiter at position k is granted exactly when more than k slots were released. */
  lemma {:induction false} GrantedExactlyAfter(s: State, es: seq<Event>, k: nat)
    requires Inv(s) && IsRun(s, es) && k < |s.slotWaiters| && Timeouts(es) == 0
    ensures s.slotWaiters[k] in After(s, es).grants <==> Releases(es) > k
    decreases es
  {
    var w := s.slotWaiters[k];
    assert w !in s.grants;
    if es != [] {
      var e := es[0];
      var s' := Step(s, e);
      StepKeepsInv(s, e);
      if e.Release? && k == 0 {
        SettlesOnce(s', es[1..], w);
        RunKeepsInv(s', es[1..]);
      } else {
        var k' := StepMovesUp(s, e, k);
        GrantedExactlyAfter(s', es[1..], k');
      }
    }
  }

  lemma {:induction false} OnlyReleases(es: seq<Event>)
    ensures Releases(es) <= |es|
    ensures Releases(es) == |es| ==> Timeouts(es) == 0 && Acquires(es) == 0
  {
    if es != [] {
      OnlyReleases(es[1..]);
    }
  }

  /** Releasing as often as there are holders and waiters drains the semaphore and serves every waiter. */
  lemma DrainsToZero(s: State, es: seq<Event>)
    requires Inv(s) && IsRun(s, es) && Releases(es) == |es| == |s.held| + |s.slotWaiters|
    ensures var s' := After(s, es);
      s'.activePages == 0 && s'.slotWaiters == [] && forall w :: w in s.slotWaiters ==> w in s'.grants
  {
    OnlyReleases(es);
    Conservation(s, es);
    RunKeepsInv(s, es);
    forall k | 0 <= k < |s.slotWaiters|
      ensures s.slotWaiters[k] in After(s, es).grants
    {
      assert s.held != {};
      GrantedExactlyAfter(s, es, k);
    }
  }

  // ---------------------------------------------------------------- the renderer around the semaphore

  /**
   A render holds a slot until its `finally` block runs. When the browser disconnected, the retry
   is returned without being awaited: `finally` gives the slot back while the retry is in flight.
   */
  datatype Renderer = Renderer(slots: State, retrying: set<Ticket>)

  const IDLE := Renderer(INITIAL, {})

  datatype RenderEvent =
    | Ask
    | Finish(ticket: Ticket)
    | ReturnRetry(ticket: Ticket)
    | RetrySettles(ticket: Ticket)
    | GiveUp(ticket: Ticket)

  predicate RenderEnabled(r: Renderer, e: RenderEvent) {
    match e
    case Ask => true
    case Finish(t) => t in r.slots.held
    case ReturnRetry(t) => t in r.slots.held
    case RetrySettles(t) => t in r.retrying
    case GiveUp(t) => t in r.slots.timers
  }

  function RenderStep(r: Renderer, e: RenderEvent): Renderer {
    match e
    case Ask => r.(slots := Step(r.slots, Acquire))
    case Finish(t) => r.(slots := Step(r.slots, Release(t)))
    case ReturnRetry(t) => Renderer(Step(r.slots, Release(t)), r.retrying + {t})
    case RetrySettles(t) => r.(retrying := r.retrying - {t})
    case GiveUp(t) => r.(slots := Step(r.slots, Timeout(t)))
  }

  const RENDER_STEP: (Renderer, RenderEvent) -> (Renderer, ()) := (r, e) => (RenderStep(r, e), ())

  const RENDER_ENABLED: (Renderer, RenderEvent) -> bool := (r, e) => RenderEnabled(r, e)

  ghost predicate IsRenderRun(r: Renderer, es: seq<RenderEvent>) {
    Runs.Legal(RENDER_STEP, RENDER_ENABLED, r, es)
  }

  function RenderAfter(r: Renderer, es: seq<RenderEvent>): Renderer {
    Runs.After(RENDER_STEP, r, es)
  }

  /** Renders whose page may be open: those holding a slot and those whose retry is in flight. */
  function InFlight(r: Renderer): set<Ticket> {
    r.slots.held + r.retrying
  }

  ghost predicate RenderInv(r: Renderer) {
    Inv(r.slots) && r.retrying !! r.slots.held && forall t :: t in r.retrying ==> t in r.slots.grants
  }

  lemma ReleaseLeavesOthers(s: State, h: Ticket)
    requires Inv(s) && h in s.held
    ensures Inv(Step(s, Release(h)))
    ensures forall t :: t in s.grants ==> t in Step(s, Release(h)).grants
    ensures forall t :: t in s.grants && (t == h || t !in s.held) ==> t !in Step(s, Release(h)).held
  {
    ReleaseKeepsInv(s, h);
  }

  lemma RenderStepKeepsInv(r: Renderer, e: RenderEvent)
    requires RenderInv(r) && RenderEnabled(r, e)
    ensures RenderInv(RenderStep(r, e))
  {
    match e
    case Ask =>
      AcquireKeepsInv(r.slots);
      assert r.slots.next !in r.slots.grants;
    case Finish(t) => ReleaseLeavesOthers(r.slots, t);
    case ReturnRetry(t) => ReleaseLeavesOthers(r.slots, t);
    case RetrySettles(t) =>
    case GiveUp(t) => TimeoutKeepsInv(r.slots, t);
  }

  lemma RenderRunKeepsInv(r: Renderer, es: seq<RenderEvent>)
    requires RenderInv(r) && IsRenderRun(r, es)
    ensures RenderInv(RenderAfter(r, es))
  {
    forall r, e | RenderInv(r) && RENDER_ENABLED(r, e)
      ensures RenderInv(RENDER_STEP(r, e).0)
    {
      RenderStepKeepsInv(r, e);
    }
    Runs.KeepsState(RENDER_STEP, RENDER_ENABLED, (r: Renderer) => RenderInv(r), r, es);
  }

  /** A render is over exactly when it finishes without a retry or its retry settles. */
  lemma RenderEnds(r: Renderer, e: RenderEvent, t: Ticket)
    requires RenderInv(r) && RenderEnabled(r, e) && t in InFlight(r)
    ensures t !in InFlight(RenderStep(r, e)) <==> e == Finish(t) || e == RetrySettles(t)
  {
    assert t in r.slots.grants && t < r.slots.next;
    assert r.slots.slotWaiters != [] ==> r.slots.slotWaiters[0] in r.slots.slotWaiters;
  }

  /** Slots held and requests waiting for one. */
  function Pending(r: Renderer): nat {
    |r.slots.held| + |r.slots.slotWaiters|
  }

  /** The page is closed in the end: a finished render, with or without a retry, has given its slot back. */
  lemma SlotsComeBack(r: Renderer, e: RenderEvent)
    requires RenderInv(r) && RenderEnabled(r, e)
    ensures var r' := RenderStep(r, e);
      match e
      case Ask => Pending(r') == Pending(r) + 1 && r'.retrying == r.retrying
      case Finish(t) => Pending(r') == Pending(r) - 1 && t !in r'.slots.held && r'.retrying == r.retrying
      case ReturnRetry(t) => Pending(r') == Pending(r) - 1 && t !in r'.slots.held && r'.retrying == r.retrying + {t}
      case RetrySettles(t) => r'.slots == r.slots && r'.retrying == r.retrying - {t}
      case GiveUp(t) => Pending(r') == Pending(r) - 1 && t !in r'.slots.slotWaiters && r'.retrying == r.retrying
  {
    match e
    case Ask => StepCounts(r.slots, Acquire);
    case Finish(t) =>
      StepCounts(r.slots, Release(t));
      ReleaseLeavesOthers(r.slots, t);
    case ReturnRetry(t) =>
      StepCounts(r.slots, Release(t));
      ReleaseLeavesOthers(r.slots, t);
    case RetrySettles(t) =>
    case GiveUp(t) =>
      StepCounts(r.slots, Timeout(t));
      WithoutAscending(r.slots.slotWaiters, t);
  }

  predicate NoRetryReturned(es: seq<RenderEvent>) {
    forall e :: e in es ==> !e.ReturnRetry?
  }

  lemma {:induction false} RetriesOnlySettle(r: Renderer, es: seq<RenderEvent>)
    requires IsRenderRun(r, es) && NoRetryReturned(es)
    ensures RenderAfter(r, es).retrying <= r.retrying
    decreases es
  {
    if es != [] {
      assert es[0] in es && forall e :: e in es[1..] ==> e in es;
      RetriesOnlySettle(RenderStep(r, es[0]), es[1..]);
    }
  }

  lemma InFlightCount(r: Renderer)
    requires RenderInv(r)
    ensures |InFlight(r)| == r.slots.activePages + |r.retrying|
  {
  }

  lemma SubsetIsSmaller<T>(a: set<T>, b: set<T>)
    requires a <= b
    ensures |a| <= |b|
  {
    assert b == a + (b - a);
  }

  /** One more event in front of a run. */
  lemma RunOne(r: Renderer, e: RenderEvent, es: seq<RenderEvent>)
    requires RenderEnabled(r, e) && IsRenderRun(RenderStep(r, e), es)
    ensures IsRenderRun(r, [e] + es) && RenderAfter(r, [e] + es) == RenderAfter(RenderStep(r, e), es)
  {
    assert ([e] + es)[1..] == es;
  }

  /** While a slot is free a new request takes it. */
  lemma AskTakesFreeSlot(r: Renderer)
    requires RenderInv(r) && r.slots.activePages < MAX_CONCURRENT_PAGES
    ensures var r' := RenderStep(r, Ask);
      && r'.slots.activePages == r.slots.activePages + 1 && r'.retrying == r.retrying
      && r'.slots.held == r.slots.held + {r.slots.next} && r.slots.next !in r.slots.held + r.retrying
  {
    assert r.slots.next !in r.slots.grants;
  }

  /** Requests alone can fill the slots while all retries stay in flight. */
  lemma FillSlots(r: Renderer) returns (es: seq<RenderEvent>)
    requires RenderInv(r)
    ensures IsRenderRun(r, es) && NoRetryReturned(es)
    ensures RenderAfter(r, es).slots.activePages == MAX_CONCURRENT_PAGES && RenderAfter(r, es).retrying == r.retrying
    decreases MAX_CONCURRENT_PAGES - r.slots.activePages
  {
    es := [];
    if r.slots.activePages < MAX_CONCURRENT_PAGES {
      RenderStepKeepsInv(r, Ask);
      AskTakesFreeSlot(r);
      var rest := FillSlots(RenderStep(r, Ask));
      RunOne(r, Ask, rest);
      es := [Ask] + rest;
    }
  }

  /**
   As long as no further retry is returned, the renders in flight are at most the two slots and the
   retries now in flight, and some run reaches that number.
   */
  lemma RendersInFlight(r: Renderer)
    requires RenderInv(r)
    ensures forall es :: IsRenderRun(r, es) && NoRetryReturned(es) ==>
      |InFlight(RenderAfter(r, es))| <= MAX_CONCURRENT_PAGES + |r.retrying|
    ensures exists es ::
      IsRenderRun(r, es) && NoRetryReturned(es) && |InFlight(RenderAfter(r, es))| == MAX_CONCURRENT_PAGES + |r.retrying|
  {
    forall es | IsRenderRun(r, es) && NoRetryReturned(es)
      ensures |InFlight(RenderAfter(r, es))| <= MAX_CONCURRENT_PAGES + |r.retrying|
    {
      RenderRunKeepsInv(r, es);
      InFlightCount(RenderAfter(r, es));
      RetriesOnlySettle(r, es);
      SubsetIsSmaller(RenderAfter(r, es).retrying, r.retrying);
    }
    var es := FillSlots(r);
    RenderRunKeepsInv(r, es);
    InFlightCount(RenderAfter(r, es));
  }

  /**
   So the bound of two renders holds from here on, in every run that returns no further retry, if
   and only if no retry is in flight now.
   */
  lemma TwoInFlightExactly(r: Renderer)
    requires RenderInv(r)
    ensures (forall es :: IsRenderRun(r, es) && NoRetryReturned(es) ==> |InFlight(RenderAfter(r, es))| <= 2)
      <==> r.retrying == {}
  {
    RendersInFlight(r);
    assert |r.retrying| == 0 <==> r.retrying == {};
  }

  /** A request takes a slot, returns its retry and so frees the slot, n times over. */
  lemma RetryRepeatedly(r: Renderer, n: nat) returns (es: seq<RenderEvent>)
    requires RenderInv(r) && r.slots.held == {}
    ensures IsRenderRun(r, es) && |InFlight(RenderAfter(r, es))| == |r.retrying| + n
    decreases n
  {
    es := [];
    if n == 0 {
      InFlightCount(r);
    } else {
      var t := r.slots.next;
      var asked := RenderStep(r, Ask);
      var returned := RenderStep(asked, ReturnRetry(t));
      AskTakesFreeSlot(r);
      RenderStepKeepsInv(r, Ask);
      RenderStepKeepsInv(asked, ReturnRetry(t));
      assert returned.slots.held == {} && |returned.retrying| == |r.retrying| + 1;
      var rest := RetryRepeatedly(returned, n - 1);
      RunOne(asked, ReturnRetry(t), rest);
      RunOne(r, Ask, [ReturnRetry(t)] + rest);
      es := [Ask] + ([ReturnRetry(t)] + rest);
    }
  }

  /** With returned retries there is no bound at all: every number of renders can be in flight. */
  lemma AnyNumberInFlight(n: nat)
    ensures exists es :: IsRenderRun(IDLE, es) && |InFlight(RenderAfter(IDLE, es))| == n
  {
    var es := RetryRepeatedly(IDLE, n);
    assert IsRenderRun(IDLE, es);
  }

  /** A run with three renders: two requests hold the slots, a third one waits, and the first returns its retry. */
  lemma RetryExceedsBound()
    ensures var es := [Ask, Ask, Ask, ReturnRetry(0)];
      IsRenderRun(IDLE, es) && InFlight(RenderAfter(IDLE, es)) == {0, 1, 2}
  {
    var r1 := RenderStep(IDLE, Ask);
    var r2 := RenderStep(r1, Ask);
    var r3 := RenderStep(r2, Ask);
    RunOne(r3, ReturnRetry(0), []);
    RunOne(r2, Ask, [ReturnRetry(0)]);
    RunOne(r1, Ask, [Ask, ReturnRetry(0)]);
    RunOne(IDLE, Ask, [Ask, Ask, ReturnRetry(0)]);
    assert [Ask] + [Ask, Ask, ReturnRetry(0)] == [Ask, Ask, Ask, ReturnRetry(0)];
  }
}
