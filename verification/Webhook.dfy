/**
 Stripe webhook processing: an event is recorded once, then dispatched to the handler of its type,
 which inserts or updates the row of one subscription. The subscriptions table is a map because its
 Stripe subscription id is unique; users and plans are referenced by foreign keys.
 */
module Webhook {
  import opened Wrappers
  import Runs

  datatype Status = Active | PastDue | Canceled | Other(name: string)

  datatype Subscription = Subscription(
    id: string,
    userId: string,
    planId: string,
    customerId: string,
    status: Status,
    currentPeriodEnd: Option<int>,
    cancelAtPeriodEnd: bool,
    createdAt: int,
    updatedAt: int)

  /** A reference to a Stripe object: absent, a bare id or the expanded object. */
  datatype Ref = Absent | Bare(id: string) | Expanded(id: string)

  /** The fields the handlers read. Period ends are unix seconds of the first line or item, if there is one. */
  datatype Payload =
    | CheckoutCompleted(userId: Option<string>, planId: Option<string>, subscription: Ref, customer: Ref)
    | InvoicePaid(subscription: Ref, periodEnd: Option<int>)
    | PaymentFailed(subscription: Ref)
    | SubscriptionUpdated(id: string, status: Status, periodEnd: Option<int>, cancelAtPeriodEnd: bool)
    | SubscriptionDeleted(id: string)
    | Unhandled

  datatype Event = Event(id: string, payload: Payload)

  /**
   One delivery of an event: the time, the generated row id, and the users and plans the database
   knows at that moment.
   */
  datatype Delivery = Delivery(event: Event, now: int, newId: string, users: set<string>, plans: set<string>)

  datatype State = State(paymentEvents: set<string>, subscriptions: map<string, Subscription>)

  datatype Response = Received | ServerError

  // ---------------------------------------------------------------- handlers

  function RefId(r: Ref): string {
    if r.Absent? then "" else r.id
  }

  function OrEmpty(s: Option<string>): string {
    if s.Some? then s.value else ""
  }

  const SECONDS_TO_MS := 1000

  /** A missing or zero period end is stored as null. */
  function PeriodEnd(unix: Option<int>): Option<int> {
    if unix.None? || unix.value == 0 then None else Some(unix.value * SECONDS_TO_MS)
  }

  /** The subscription an event is about; none for incomplete or unhandled events. */
  function Target(p: Payload): Option<string> {
    match p
    case CheckoutCompleted(user, plan, sub, cust) =>
      if OrEmpty(user) == "" || OrEmpty(plan) == "" || RefId(sub) == "" || RefId(cust) == "" then None
      else Some(RefId(sub))
    case InvoicePaid(sub, _) => if RefId(sub) == "" then None else Some(RefId(sub))
    case PaymentFailed(sub) => if RefId(sub) == "" then None else Some(RefId(sub))
    case SubscriptionUpdated(id, _, _, _) => Some(id)
    case SubscriptionDeleted(id) => Some(id)
    case Unhandled => None
  }

  /** The row a checkout inserts. */
  function Inserted(d: Delivery): Subscription
    requires d.event.payload.CheckoutCompleted?
  {
    var p := d.event.payload;
    Subscription("sub_" + d.newId, OrEmpty(p.userId), OrEmpty(p.planId), RefId(p.customer), Active, None, false,
      d.now, d.now)
  }

  /** What an event about a subscription does to the row of that subscription, and whether its statement succeeds. */
  function Effect(d: Delivery, row: Option<Subscription>): (Option<Subscription>, bool) {
    match d.event.payload
    case CheckoutCompleted(user, plan, sub, cust) =>
      if row.Some? || OrEmpty(user) !in d.users || OrEmpty(plan) !in d.plans then (row, false)
      else (Some(Inserted(d)), true)
    case InvoicePaid(_, end) =>
      (if row.None? then None
       else Some(row.value.(status := Active, currentPeriodEnd := PeriodEnd(end), updatedAt := d.now)), true)
    case PaymentFailed(_) =>
      (if row.None? then None else Some(row.value.(status := PastDue, updatedAt := d.now)), true)
    case SubscriptionUpdated(_, status, end, cancel) =>
      (if row.None? then None
       else Some(row.value.(status := status, currentPeriodEnd := PeriodEnd(end),
         cancelAtPeriodEnd := cancel, updatedAt := d.now)), true)
    case SubscriptionDeleted(_) =>
      (if row.None? then None else Some(row.value.(status := Canceled, updatedAt := d.now)), true)
    case Unhandled => (row, true)
  }

  function Row(subs: map<string, Subscription>, id: string): Option<Subscription> {
    if id in subs then Some(subs[id]) else None
  }

  function WithRow(subs: map<string, Subscription>, id: string, row: Option<Subscription>): map<string, Subscription> {
    if row.Some? then subs[id := row.value] else subs - {id}
  }

  function Deliver(s: State, d: Delivery): (State, Response) {
    if d.event.id in s.paymentEvents then (s, Received)
    else
      var recorded := s.(paymentEvents := s.paymentEvents + {d.event.id});
      var target := Target(d.event.payload);
      if target.None? then (recorded, Received)
      else
        var (row, ok) := Effect(d, Row(s.subscriptions, target.value));
        (recorded.(subscriptions := WithRow(s.subscriptions, target.value, row)), if ok then Received else ServerError)
  }

  /** The tables and the webhook route that changes them. */
  class WebhookRoute {
    var paymentEvents: set<string>
    var subscriptions: map<string, Subscription>

    ghost function View(): State
      reads this
    {
      State(paymentEvents, subscriptions)
    }

    constructor ()
      ensures View() == State({}, map[])
    {
      paymentEvents, subscriptions := {}, map[];
    }

    method HandleCheckoutCompleted(d: Delivery) returns (ok: bool)
      requires d.event.payload.CheckoutCompleted?
      modifies this`subscriptions
      ensures var t := Target(d.event.payload);
        && (t.None? ==> ok && subscriptions == old(subscriptions))
        && (t.Some? ==>
          && (Row(subscriptions, t.value), ok) == Effect(d, Row(old(subscriptions), t.value))
          && subscriptions == WithRow(old(subscriptions), t.value, Row(subscriptions, t.value)))
    {
      var p := d.event.payload;
      var userId, planId := OrEmpty(p.userId), OrEmpty(p.planId);
      var sub, customer := RefId(p.subscription), RefId(p.customer);
      if userId == "" || planId == "" || sub == "" || customer == "" {
        return true;
      }
      if sub in subscriptions || userId !in d.users || planId !in d.plans {
        return false;
      }
      var row := Subscription("sub_" + d.newId, userId, planId, customer, Active, None, false, d.now, d.now);
      subscriptions := subscriptions[sub := row];
      return true;
    }

    method HandleInvoicePaid(sub: string, periodEnd: Option<int>, now: int)
      modifies this`subscriptions
      ensures subscriptions == if sub == "" || sub !in old(subscriptions) then old(subscriptions)
        else old(subscriptions)[sub := old(subscriptions)[sub].(status := Active,
          currentPeriodEnd := PeriodEnd(periodEnd), updatedAt := now)]
    {
      if sub == "" {
        return;
      }
      var currentPeriodEnd: Option<int> := None;
      if periodEnd.Some? && periodEnd.value != 0 {
        currentPeriodEnd := Some(periodEnd.value * SECONDS_TO_MS);
      }
      if sub in subscriptions {
        subscriptions := subscriptions[sub := subscriptions[sub].(status := Active,
          currentPeriodEnd := currentPeriodEnd, updatedAt := now)];
      }
    }

    method HandlePaymentFailed(sub: string, now: int)
      modifies this`subscriptions
      ensures subscriptions == if sub == "" || sub !in old(subscriptions) then old(subscriptions)
        else old(subscriptions)[sub := old(subscriptions)[sub].(status := PastDue, updatedAt := now)]
    {
      if sub == "" {
        return;
      }
      if sub in subscriptions {
        subscriptions := subscriptions[sub := subscriptions[sub].(status := PastDue, updatedAt := now)];
      }
    }

    method HandleSubscriptionUpdated(
        sub: string, status: Status, periodEnd: Option<int>, cancelAtPeriodEnd: bool, now: int)
      modifies this`subscriptions
      ensures subscriptions == if sub !in old(subscriptions) then old(subscriptions)
        else old(subscriptions)[sub := old(subscriptions)[sub].(status := status,
          currentPeriodEnd := PeriodEnd(periodEnd), cancelAtPeriodEnd := cancelAtPeriodEnd, updatedAt := now)]
    {
      var currentPeriodEnd: Option<int> := None;
      if periodEnd.Some? && periodEnd.value != 0 {
        currentPeriodEnd := Some(periodEnd.value * SECONDS_TO_MS);
      }
      if sub in subscriptions {
        subscriptions := subscriptions[sub := subscriptions[sub].(status := status,
          currentPeriodEnd := currentPeriodEnd, cancelAtPeriodEnd := cancelAtPeriodEnd, updatedAt := now)];
      }
    }

    method HandleSubscriptionDeleted(sub: string, now: int)
      modifies this`subscriptions
      ensures subscriptions == if sub !in old(subscriptions) then old(subscriptions)
        else old(subscriptions)[sub := old(subscriptions)[sub].(status := Canceled, updatedAt := now)]
    {
      if sub in subscriptions {
        subscriptions := subscriptions[sub := subscriptions[sub].(status := Canceled, updatedAt := now)];
      }
    }

    /** The route handler behind the signature check. A failing handler leaves the event recorded. */
    method Post(d: Delivery) returns (r: Response)
      modifies this
      ensures (View(), r) == Deliver(old(View()), d)
    {
      if d.event.id in paymentEvents {
        return Received;
      }
      paymentEvents := paymentEvents + {d.event.id};
      ghost var before := subscriptions;
      r := Received;
      match d.event.payload {
        case CheckoutCompleted(_, _, _, _) =>
          var ok := HandleCheckoutCompleted(d);
          if !ok {
            r := ServerError;
          }
        case InvoicePaid(sub, end) => HandleInvoicePaid(RefId(sub), end, d.now);
        case PaymentFailed(sub) => HandlePaymentFailed(RefId(sub), d.now);
        case SubscriptionUpdated(id, status, end, cancel) => HandleSubscriptionUpdated(id, status, end, cancel, d.now);
        case SubscriptionDeleted(id) => HandleSubscriptionDeleted(id, d.now);
        case Unhandled =>
      }
      assert forall id :: id !in before ==> before - {id} == before;
    }
  }

  // ---------------------------------------------------------------- delivery sequences

  const DELIVER: (State, Delivery) -> (State, Response) := (s, d) => Deliver(s, d)

  function Process(s: State, ds: seq<Delivery>): State {
    Runs.After(DELIVER, s, ds)
  }

  /** The deliveries whose event id was not seen before. */
  function FirstDeliveries(seen: set<string>, ds: seq<Delivery>): seq<Delivery>
    decreases ds
  {
    if ds == [] then []
    else if ds[0].event.id in seen then FirstDeliveries(seen, ds[1..])
    else [ds[0]] + FirstDeliveries(seen + {ds[0].event.id}, ds[1..])
  }

  /** Redeliveries are invisible: only the first delivery of every event id matters. */
  lemma {:induction false} DuplicatesAreIgnored(s: State, ds: seq<Delivery>)
    ensures Process(s, ds) == Process(s, FirstDeliveries(s.paymentEvents, ds))
    decreases ds
  {
    if ds != [] {
      var s' := Deliver(s, ds[0]).0;
      DuplicatesAreIgnored(s', ds[1..]);
      if ds[0].event.id !in s.paymentEvents {
        var rest := FirstDeliveries(s'.paymentEvents, ds[1..]);
        assert ([ds[0]] + rest)[1..] == rest;
      }
    }
  }

  /** The deliveries about one subscription. */
  function About(ds: seq<Delivery>, id: string): seq<Delivery> {
    if ds == [] then []
    else (if Target(ds[0].event.payload) == Some(id) then [ds[0]] else []) + About(ds[1..], id)
  }

  /** The row one subscription's events make of it, in their order. */
  function RowAfter(row: Option<Subscription>, ds: seq<Delivery>): Option<Subscription>
    decreases ds
  {
    if ds == [] then row else RowAfter(Effect(ds[0], row).0, ds[1..])
  }

  lemma DeliverTouchesTarget(s: State, d: Delivery, id: string)
    requires d.event.id !in s.paymentEvents
    ensures var s' := Deliver(s, d).0;
      Row(s'.subscriptions, id) ==
        if Target(d.event.payload) == Some(id) then Effect(d, Row(s.subscriptions, id)).0 else Row(s.subscriptions, id)
  {
  }

  /** The row of a subscription is what its own first deliveries make of it, whatever happens to other subscriptions. */
  lemma {:induction false} RowDependsOnOwnEvents(s: State, ds: seq<Delivery>, id: string)
    ensures Row(Process(s, ds).subscriptions, id)
      == RowAfter(Row(s.subscriptions, id), About(FirstDeliveries(s.paymentEvents, ds), id))
    decreases ds
  {
    if ds != [] {
      var d := ds[0];
      var s' := Deliver(s, d).0;
      RowDependsOnOwnEvents(s', ds[1..], id);
      if d.event.id !in s.paymentEvents {
        var rest := FirstDeliveries(s'.paymentEvents, ds[1..]);
        DeliverTouchesTarget(s, d, id);
        assert ([d] + rest)[1..] == rest;
        if Target(d.event.payload) == Some(id) {
          assert About([d] + rest, id) == [d] + About(rest, id) && ([d] + About(rest, id))[1..] == About(rest, id);
        } else {
          assert About([d] + rest, id) == About(rest, id);
        }
      }
    }
  }

  /** A checkout that can insert its row. */
  predicate Creates(d: Delivery) {
    && d.event.payload.CheckoutCompleted?
    && OrEmpty(d.event.payload.userId) in d.users && OrEmpty(d.event.payload.planId) in d.plans
  }

  /** Equal but for the generated row id and the clock readings. */
  predicate SameButForIdAndTimes(a: Option<Subscription>, b: Option<Subscription>) {
    || (a.None? && b.None?)
    || (a.Some? && b.Some?
        && a.value.(id := b.value.id, createdAt := b.value.createdAt, updatedAt := b.value.updatedAt) == b.value)
  }

  predicate SameEvents(ds: seq<Delivery>, es: seq<Delivery>) {
    |ds| == |es| && forall i :: 0 <= i < |ds| ==> ds[i].event == es[i].event
  }

  /** The same delivery inserts the row, if it is not there: later checkouts fail whatever the database knows. */
  predicate SameCreation(present: bool, ds: seq<Delivery>, es: seq<Delivery>)
    requires |ds| == |es|
    decreases ds
  {
    present || ds == [] || (Creates(ds[0]) == Creates(es[0]) && SameCreation(Creates(ds[0]), ds[1..], es[1..]))
  }

  lemma {:induction false} SameEventsSameRow(
      sub: string, a: Option<Subscription>, b: Option<Subscription>, ds: seq<Delivery>, es: seq<Delivery>)
    requires SameButForIdAndTimes(a, b) && SameEvents(ds, es) && SameCreation(a.Some?, ds, es)
    requires forall d :: d in ds ==> Target(d.event.payload) == Some(sub)
    ensures SameButForIdAndTimes(RowAfter(a, ds), RowAfter(b, es))
    decreases ds
  {
    if ds != [] {
      assert ds[0] in ds && ds[0].event == es[0].event;
      SameEventsSameRow(sub, Effect(ds[0], a).0, Effect(es[0], b).0, ds[1..], es[1..]);
    }
  }

  /** Both sequences deliver the same new events about the subscription in the same order, and insert its row alike. */
  predicate AgreeAbout(s: State, ds: seq<Delivery>, es: seq<Delivery>, sub: string) {
    var a, b := About(FirstDeliveries(s.paymentEvents, ds), sub), About(FirstDeliveries(s.paymentEvents, es), sub);
    SameEvents(a, b) && SameCreation(sub in s.subscriptions, a, b)
  }

  lemma {:induction false} AboutTarget(ds: seq<Delivery>, sub: string)
    ensures forall d :: d in About(ds, sub) ==> Target(d.event.payload) == Some(sub)
  {
    if ds != [] {
      AboutTarget(ds[1..], sub);
    }
  }

  /**
   The row of a subscription depends on nothing but its own events, their order and the checkout that
   can insert it: not on other subscriptions, redeliveries, or users and plans added meanwhile, and on
   clocks and generated ids only in the columns that hold them.
   */
  lemma InterleavingIsIrrelevant(s: State, ds: seq<Delivery>, es: seq<Delivery>, sub: string)
    requires AgreeAbout(s, ds, es, sub)
    ensures SameButForIdAndTimes(Row(Process(s, ds).subscriptions, sub), Row(Process(s, es).subscriptions, sub))
  {
    var a, b := About(FirstDeliveries(s.paymentEvents, ds), sub), About(FirstDeliveries(s.paymentEvents, es), sub);
    RowDependsOnOwnEvents(s, ds, sub);
    RowDependsOnOwnEvents(s, es, sub);
    AboutTarget(FirstDeliveries(s.paymentEvents, ds), sub);
    SameEventsSameRow(sub, Row(s.subscriptions, sub), Row(s.subscriptions, sub), a, b);
  }

  /** With equal deliveries, times and ids included, the tables are equal. */
  lemma SameDeliveriesSameTable(s: State, ds: seq<Delivery>, es: seq<Delivery>)
    requires forall id ::
      About(FirstDeliveries(s.paymentEvents, ds), id) == About(FirstDeliveries(s.paymentEvents, es), id)
    ensures Process(s, ds).subscriptions == Process(s, es).subscriptions
  {
    var a, b := Process(s, ds).subscriptions, Process(s, es).subscriptions;
    forall id
      ensures Row(a, id) == Row(b, id)
    {
      RowDependsOnOwnEvents(s, ds, id);
      RowDependsOnOwnEvents(s, es, id);
    }
    assert forall id :: id in a <==> Row(a, id).Some?;
    assert forall id :: id in b <==> Row(b, id).Some?;
    assert forall id :: id in a ==> a[id] == Row(a, id).value;
    assert forall id :: id in b ==> b[id] == Row(b, id).value;
  }

  // ---------------------------------------------------------------- what retries and order do lose

  /**
   A delivery is answered with an error exactly when its event is new, a complete checkout, and its
   insert violates a constraint.
   */
  lemma FailsExactly(s: State, d: Delivery)
    ensures Deliver(s, d).1 == ServerError <==>
      && d.event.id !in s.paymentEvents && d.event.payload.CheckoutCompleted? && Target(d.event.payload).Some?
      && (Target(d.event.payload).value in s.subscriptions
          || OrEmpty(d.event.payload.userId) !in d.users || OrEmpty(d.event.payload.planId) !in d.plans)
  {
  }

  lemma {:induction false} SeenStaysSeen(s: State, ds: seq<Delivery>, id: string)
    requires id in s.paymentEvents
    ensures id in Process(s, ds).paymentEvents
    decreases ds
  {
    if ds != [] {
      SeenStaysSeen(Deliver(s, ds[0]).0, ds[1..], id);
    }
  }

  /**
   After a failed delivery the event counts as processed although the table is unchanged: every later
   delivery of the event, whatever the database knows by then, is answered as received and does nothing.
   */
  lemma FailedEventIsLost(s: State, d: Delivery, between: seq<Delivery>, retry: Delivery)
    requires Deliver(s, d).1 == ServerError && retry.event == d.event
    ensures Deliver(s, d).0.subscriptions == s.subscriptions
    ensures var later := Process(Deliver(s, d).0, between); Deliver(later, retry) == (later, Received)
  {
    SeenStaysSeen(Deliver(s, d).0, between, d.event.id);
    var t := Target(d.event.payload).value;
    assert t !in s.subscriptions ==> s.subscriptions - {t} == s.subscriptions;
  }

  // ---------------------------------------------------------------- the events column by column

  /** The reference, bare or expanded, is to the object with this id. */
  predicate Names(r: Ref, id: string) {
    id != "" && (r == Bare(id) || r == Expanded(id))
  }

  /** A new complete checkout inserts an active row with the user, the plan and the customer it names. */
  lemma CheckoutInserts(s: State, d: Delivery, user: string, plan: string, sub: string, customer: string)
    requires d.event.id !in s.paymentEvents && d.event.payload.CheckoutCompleted?
    requires d.event.payload.userId == Some(user) && d.event.payload.planId == Some(plan) && user != "" && plan != ""
    requires Names(d.event.payload.subscription, sub) && Names(d.event.payload.customer, customer)
    requires user in d.users && plan in d.plans && sub !in s.subscriptions
    ensures var row := Subscription("sub_" + d.newId, user, plan, customer, Active, None, false, d.now, d.now);
      Deliver(s, d) == (State(s.paymentEvents + {d.event.id}, s.subscriptions[sub := row]), Received)
  {
  }

  /** If the subscription has a row already, or the user or the plan is unknown, it is refused, but recorded. */
  lemma CheckoutIsRefused(s: State, d: Delivery, user: string, plan: string, sub: string, customer: string)
    requires d.event.id !in s.paymentEvents && d.event.payload.CheckoutCompleted?
    requires d.event.payload.userId == Some(user) && d.event.payload.planId == Some(plan) && user != "" && plan != ""
    requires Names(d.event.payload.subscription, sub) && Names(d.event.payload.customer, customer)
    requires user !in d.users || plan !in d.plans || sub in s.subscriptions
    ensures Deliver(s, d) == (State(s.paymentEvents + {d.event.id}, s.subscriptions), ServerError)
  {
    assert sub !in s.subscriptions ==> s.subscriptions - {sub} == s.subscriptions;
    assert sub in s.subscriptions ==> s.subscriptions[sub := s.subscriptions[sub]] == s.subscriptions;
  }

  /** The payload lacks a field its handler needs, or there is no handler. */
  predicate IsIncomplete(p: Payload) {
    match p
    case CheckoutCompleted(user, plan, sub, cust) =>
      || user in {None, Some("")} || plan in {None, Some("")}
      || sub in {Absent, Bare(""), Expanded("")} || cust in {Absent, Bare(""), Expanded("")}
    case InvoicePaid(sub, _) => sub in {Absent, Bare(""), Expanded("")}
    case PaymentFailed(sub) => sub in {Absent, Bare(""), Expanded("")}
    case SubscriptionUpdated(_, _, _, _) => false
    case SubscriptionDeleted(_) => false
    case Unhandled => true
  }

  /** Such an event is recorded and answered, and nothing else happens. */
  lemma IncompleteIsRecorded(s: State, d: Delivery)
    requires d.event.id !in s.paymentEvents && IsIncomplete(d.event.payload)
    ensures Deliver(s, d) == (State(s.paymentEvents + {d.event.id}, s.subscriptions), Received)
  {
  }

  /** The end of a billing period, in milliseconds; a missing or zero one is null. */
  predicate IsPeriodEnd(unix: Option<int>, end: Option<int>) {
    if unix == None || unix == Some(0) then end == None else end == Some(unix.value * 1000)
  }

  /** A paid invoice makes the row active and sets its period end. */
  lemma InvoicePaidSets(s: State, d: Delivery, sub: string, end: Option<int>)
    requires d.event.id !in s.paymentEvents && d.event.payload.InvoicePaid? && sub in s.subscriptions
    requires Names(d.event.payload.subscription, sub) && IsPeriodEnd(d.event.payload.periodEnd, end)
    ensures var was := s.subscriptions[sub];
      Deliver(s, d) ==
      (State(s.paymentEvents + {d.event.id},
             s.subscriptions[sub := Subscription(was.id, was.userId, was.planId, was.customerId, Active, end,
                                                 was.cancelAtPeriodEnd, was.createdAt, d.now)]),
       Received)
  {
  }

  /** A failed payment makes it past due. */
  lemma PaymentFailedSets(s: State, d: Delivery, sub: string)
    requires d.event.id !in s.paymentEvents && d.event.payload.PaymentFailed? && sub in s.subscriptions
    requires Names(d.event.payload.subscription, sub)
    ensures var was := s.subscriptions[sub];
      Deliver(s, d) ==
      (State(s.paymentEvents + {d.event.id},
             s.subscriptions[sub := Subscription(was.id, was.userId, was.planId, was.customerId, PastDue,
                                                 was.currentPeriodEnd, was.cancelAtPeriodEnd, was.createdAt, d.now)]),
       Received)
  {
  }

  /** An update of the subscription sets status, period end and cancellation flag; a deletion the status. */
  lemma SubscriptionEventSets(s: State, d: Delivery, sub: string, end: Option<int>)
    requires d.event.id !in s.paymentEvents && sub in s.subscriptions
    requires d.event.payload.SubscriptionUpdated? || d.event.payload.SubscriptionDeleted?
    requires d.event.payload.id == sub
    requires d.event.payload.SubscriptionUpdated? ==> IsPeriodEnd(d.event.payload.periodEnd, end)
    ensures var was := s.subscriptions[sub];
      var row := if d.event.payload.SubscriptionUpdated?
        then Subscription(was.id, was.userId, was.planId, was.customerId, d.event.payload.status, end,
                          d.event.payload.cancelAtPeriodEnd, was.createdAt, d.now)
        else Subscription(was.id, was.userId, was.planId, was.customerId, Canceled, was.currentPeriodEnd,
                          was.cancelAtPeriodEnd, was.createdAt, d.now);
      Deliver(s, d) == (State(s.paymentEvents + {d.event.id}, s.subscriptions[sub := row]), Received)
  {
  }

  // ---------------------------------------------------------------- the order of one subscription's own events

  /** A new event that updates the row of the subscription, if there is one. */
  predicate IsUpdateOf(s: State, d: Delivery, sub: string) {
    d.event.id !in s.paymentEvents && Target(d.event.payload) == Some(sub) && !d.event.payload.CheckoutCompleted?
  }

  /** The columns an event sets, apart from the time of the update. */
  datatype Write = Write(status: Status, periodEnd: Option<Option<int>>, cancel: Option<bool>)

  function Written(p: Payload): Option<Write> {
    match p
    case CheckoutCompleted(_, _, _, _) => Some(Write(Active, Some(None), Some(false)))
    case InvoicePaid(_, end) => Some(Write(Active, Some(PeriodEnd(end)), None))
    case PaymentFailed(_) => Some(Write(PastDue, None, None))
    case SubscriptionUpdated(_, status, end, cancel) => Some(Write(status, Some(PeriodEnd(end)), Some(cancel)))
    case SubscriptionDeleted(_) => Some(Write(Canceled, None, None))
    case Unhandled => None
  }

  /** No column is set by both to different values. */
  predicate Agree(v: Write, w: Write) {
    && v.status == w.status
    && (v.periodEnd.Some? && w.periodEnd.Some? ==> v.periodEnd == w.periodEnd)
    && (v.cancel.Some? && w.cancel.Some? ==> v.cancel == w.cancel)
  }

  predicate SameButForTime(a: Option<Subscription>, b: Option<Subscription>) {
    a == b || (a.Some? && b.Some? && a.value.(updatedAt := b.value.updatedAt) == b.value)
  }

  /**
   An update takes effect exactly when the row is there: with a row it sets its columns and the time
   and touches nothing else; without one it leaves the table unchanged but counts as processed, so
   that every later redelivery, after the checkout too, does nothing. It is answered as received.
   */
  lemma UpdateNeedsItsRow(s: State, d: Delivery, sub: string, between: seq<Delivery>, retry: Delivery)
    requires IsUpdateOf(s, d, sub) && retry.event == d.event
    ensures Deliver(s, d).1 == Received
    ensures sub in s.subscriptions ==>
      var w, row := Written(d.event.payload).value, s.subscriptions[sub];
      Deliver(s, d).0.subscriptions == s.subscriptions[sub := row.(
        status := w.status,
        currentPeriodEnd := if w.periodEnd.Some? then w.periodEnd.value else row.currentPeriodEnd,
        cancelAtPeriodEnd := if w.cancel.Some? then w.cancel.value else row.cancelAtPeriodEnd,
        updatedAt := d.now)]
    ensures sub !in s.subscriptions ==>
      var later := Process(Deliver(s, d).0, between);
      Deliver(s, d).0.subscriptions == s.subscriptions && Deliver(later, retry) == (later, Received)
  {
    SeenStaysSeen(Deliver(s, d).0, between, d.event.id);
    assert sub !in s.subscriptions ==> s.subscriptions - {sub} == s.subscriptions;
  }

  lemma {:induction false} NothingBeforeCheckout(own: seq<Delivery>, sub: string, k: nat)
    requires forall d :: d in own ==> Target(d.event.payload) == Some(sub)
    requires k <= |own| && (forall i :: 0 <= i < k ==> !Creates(own[i])) && (k < |own| ==> Creates(own[k]))
    ensures RowAfter(None, own) == if k == |own| then None else RowAfter(Some(Inserted(own[k])), own[k + 1..])
    decreases k
  {
    if k > 0 {
      assert own[0] in own && forall d :: d in own[1..] ==> d in own;
      NothingBeforeCheckout(own[1..], sub, k - 1);
      assert k < |own| ==> own[1..][k - 1] == own[k] && own[1..][k..] == own[k + 1..];
    }
  }

  /**
   Over whole delivery sequences: everything about a subscription that arrives before its first
   successful checkout is lost. Its row is what the deliveries after that checkout make of the row
   inserted, and without such a checkout there is none.
   */
  lemma RowStartsAtCheckout(s: State, ds: seq<Delivery>, sub: string, k: nat)
    requires sub !in s.subscriptions
    requires var own := About(FirstDeliveries(s.paymentEvents, ds), sub);
      k <= |own| && (forall i :: 0 <= i < k ==> !Creates(own[i])) && (k < |own| ==> Creates(own[k]))
    ensures var own := About(FirstDeliveries(s.paymentEvents, ds), sub);
      Row(Process(s, ds).subscriptions, sub)
      == if k == |own| then None else RowAfter(Some(Inserted(own[k])), own[k + 1..])
  {
    RowDependsOnOwnEvents(s, ds, sub);
    AboutTarget(FirstDeliveries(s.paymentEvents, ds), sub);
    NothingBeforeCheckout(About(FirstDeliveries(s.paymentEvents, ds), sub), sub, k);
  }

  /** The row after two new deliveries about it. */
  lemma TwoOwnDeliveries(s: State, d: Delivery, e: Delivery, sub: string)
    requires d.event.id !in s.paymentEvents && e.event.id !in s.paymentEvents && d.event.id != e.event.id
    requires Target(d.event.payload) == Some(sub) && Target(e.event.payload) == Some(sub)
    ensures Row(Process(s, [d, e]).subscriptions, sub) == Effect(e, Effect(d, Row(s.subscriptions, sub)).0).0
  {
    var s' := Deliver(s, d).0;
    DeliverTouchesTarget(s, d, sub);
    DeliverTouchesTarget(s', e, sub);
    assert [d, e][1..] == [e] && [e][1..] == [];
    assert Process(s', [e]) == Process(Deliver(s', e).0, [e][1..]);
  }

  /**
   Two updates of an existing row commute, up to the time of the update, exactly when they set no
   column to different values. As every update sets the status, the order of a paid invoice and a
   failed payment always matters.
   */
  lemma UpdatesCommuteExactly(s: State, d: Delivery, e: Delivery, sub: string)
    requires IsUpdateOf(s, d, sub) && IsUpdateOf(s, e, sub) && d.event.id != e.event.id
    ensures SameButForTime(Row(Process(s, [d, e]).subscriptions, sub), Row(Process(s, [e, d]).subscriptions, sub))
      <==> sub !in s.subscriptions || Agree(Written(d.event.payload).value, Written(e.event.payload).value)
  {
    TwoOwnDeliveries(s, d, e, sub);
    TwoOwnDeliveries(s, e, d, sub);
  }

  /**
   An update that arrives before the checkout of its subscription leaves the row as the checkout
   inserts it. That is the row of the proper order, up to the time of the update, exactly when the
   update sets nothing but what a checkout sets; column by column likewise.
   */
  lemma EarlyUpdateIsLost(s: State, checkout: Delivery, update: Delivery, sub: string)
    requires sub !in s.subscriptions && IsUpdateOf(s, update, sub)
    requires checkout.event.id !in s.paymentEvents && checkout.event.id != update.event.id
    requires Creates(checkout) && Target(checkout.event.payload) == Some(sub)
    ensures var early := Row(Process(s, [update, checkout]).subscriptions, sub);
      var late := Row(Process(s, [checkout, update]).subscriptions, sub);
      var w := Written(update.event.payload).value;
      && early == Some(Inserted(checkout)) && late.Some?
      && (SameButForTime(early, late) <==> Agree(w, Written(checkout.event.payload).value))
      && (early.value.status == late.value.status <==> w.status == Active)
      && (early.value.currentPeriodEnd == late.value.currentPeriodEnd <==>
            w.periodEnd.None? || w.periodEnd.value == None)
      && (early.value.cancelAtPeriodEnd == late.value.cancelAtPeriodEnd <==> w.cancel != Some(true))
  {
    TwoOwnDeliveries(s, checkout, update, sub);
    TwoOwnDeliveries(s, update, checkout, sub);
  }

  /**
   In particular an invoice paid before its checkout leaves no period end, and a deleted subscription
   stays active.
   */
  lemma EarlyInvoiceAndDeletion(s: State, checkout: Delivery, update: Delivery, sub: string)
    requires sub !in s.subscriptions && IsUpdateOf(s, update, sub)
    requires checkout.event.id !in s.paymentEvents && checkout.event.id != update.event.id
    requires Creates(checkout) && Target(checkout.event.payload) == Some(sub)
    ensures var early := Row(Process(s, [update, checkout]).subscriptions, sub);
      var late := Row(Process(s, [checkout, update]).subscriptions, sub);
      && early.Some? && late.Some?
      && (update.event.payload.InvoicePaid? ==>
            && early.value.currentPeriodEnd == None
            && late.value.currentPeriodEnd == PeriodEnd(update.event.payload.periodEnd))
      && (update.event.payload.SubscriptionDeleted? ==> early.value.status == Active && late.value.status == Canceled)
  {
    TwoOwnDeliveries(s, checkout, update, sub);
    TwoOwnDeliveries(s, update, checkout, sub);
  }
}
