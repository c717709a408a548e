/**
 The lifecycle of creator live-ingest channels: provisioning with deduplication, activation by a
 stream session, deactivation fenced by the session, and the published live-state events.

 The channels table keeps its rows in a fixed order. Two constraints of its schema matter: the id
 is the primary key and the SRS stream name is unique, so an insert or update that would repeat a
 stream name fails and changes nothing.
 */
module Channels {
  import opened Wrappers
  import opened Tables
  import Runs
  import Sorting

  datatype Ownership = Platform | Creator

  datatype Role = Playout | Broadcast | LiveIngest

  datatype Channel = Channel(
    id: string,
    name: string,
    ownership: Ownership,
    role: Role,
    srsStreamName: string,
    creatorId: Option<string>,
    streamSessionId: Option<string>,
    isActive: bool,
    createdAt: int,
    updatedAt: int)

  /** A published channel.live-state-changed event. */
  datatype LiveEvent = LiveEvent(channelId: string, live: bool)

  datatype State = State(channels: seq<Channel>, events: seq<LiveEvent>)

  datatype Error = EnsureError | ActivateError

  // ---------------------------------------------------------------- queries

  predicate IsLiveRow(r: Channel, creatorId: string) {
    r.creatorId == Some(creatorId) && r.ownership == Creator && r.role == LiveIngest
  }

  function LiveRows(rows: seq<Channel>, creatorId: string): seq<Channel> {
    Where(rows, (r: Channel) => IsLiveRow(r, creatorId))
  }

  function Update(rows: seq<Channel>, id: string, change: Channel -> Channel): (updated: seq<Channel>)
    ensures |updated| == |rows|
    ensures forall i :: 0 <= i < |rows| ==> updated[i] == if rows[i].id == id then change(rows[i]) else rows[i]
  {
    seq(|rows|, i requires 0 <= i < |rows| => if rows[i].id == id then change(rows[i]) else rows[i])
  }

  /** Some row other than `id` has the stream name. */
  predicate StreamTaken(rows: seq<Channel>, stream: string, id: string) {
    exists r :: r in rows && r.srsStreamName == stream && r.id != id
  }

  /** The first of the rows with the smallest creation time. */
  function Oldest(rows: seq<Channel>): (oldest: Channel)
    requires rows != []
    ensures oldest in rows && forall r :: r in rows ==> oldest.createdAt <= r.createdAt
  {
    if |rows| == 1 then rows[0]
    else
      var rest := Oldest(rows[1..]);
      assert forall r :: r in rows <==> r == rows[0] || r in rows[1..];
      if rows[0].createdAt <= rest.createdAt then rows[0] else rest
  }

  // ---------------------------------------------------------------- the three operations

  function NewChannel(
      id: string, name: string, stream: string, creatorId: string, session: Option<string>, now: int): Channel
  {
    Channel(id, name, Creator, LiveIngest, stream, Some(creatorId), session, session.Some?, now, now)
  }

  function Ensure(s: State, creatorId: string, name: string, newId: string, now: int): (State, Result<string, Error>) {
    var existing := LiveRows(s.channels, creatorId);
    if existing == [] then
      if StreamTaken(s.channels, "creator-" + creatorId, newId) then (s, Err(EnsureError))
      else
        var channel := NewChannel(newId, name + "'s Stream", "creator-" + creatorId, creatorId, None, now);
        (s.(channels := s.channels + [channel]), Ok(newId))
    else
      var keep := Oldest(existing).id;
      (s.(channels := Where(s.channels, (r: Channel) => !IsLiveRow(r, creatorId) || r.id == keep)), Ok(keep))
  }

  function Activated(r: Channel, name: string, session: string, stream: string, now: int): Channel {
    r.(name := "Live: " + name, srsStreamName := stream, streamSessionId := Some(session), isActive := true,
      updatedAt := now)
  }

  function Activate(
      s: State, creatorId: string, name: string, session: string, stream: string, newId: string, now: int):
    (State, Result<string, Error>)
  {
    var existing := LiveRows(s.channels, creatorId);
    var id := if existing == [] then newId else existing[0].id;
    if StreamTaken(s.channels, stream, id) then (s, Err(ActivateError))
    else
      var channels := if existing == []
        then s.channels + [NewChannel(id, "Live: " + name, stream, creatorId, Some(session), now)]
        else Update(s.channels, id, (r: Channel) => Activated(r, name, session, stream, now));
      (State(channels, s.events + [LiveEvent(id, true)]), Ok(id))
  }

  function Deactivate(s: State, session: string, now: int): (State, Option<string>) {
    var found := Where(s.channels, (r: Channel) => r.streamSessionId == Some(session) && r.isActive);
    if found == [] then (s, None)
    else
      var id := found[0].id;
      var channels := Update(s.channels, id, (r: Channel) => r.(isActive := false, updatedAt := now));
      (State(channels, s.events + [LiveEvent(id, false)]), Some(id))
  }

  // ---------------------------------------------------------------- the service

  ghost predicate UniqueIds(rows: seq<Channel>) {
    forall i, j :: 0 <= i < j < |rows| ==> rows[i].id != rows[j].id
  }

  /** The comparison of the stable sort by creation time. */
  function NotYounger(): Sorting.Order<Channel> {
    (a: Channel, b: Channel) => a.createdAt <= b.createdAt
  }

  function Ids(rows: seq<Channel>): (ids: seq<string>)
    ensures |ids| == |rows| && forall i :: 0 <= i < |rows| ==> ids[i] == rows[i].id
  {
    seq(|rows|, i requires 0 <= i < |rows| => rows[i].id)
  }

  lemma DeleteOne(rows: seq<Channel>, ids: seq<string>, i: nat)
    requires i < |ids|
    ensures Where(Where(rows, (r: Channel) => r.id !in ids[..i]), (r: Channel) => r.id != ids[i])
      == Where(rows, (r: Channel) => r.id !in ids[..i + 1])
  {
    var p, q := (r: Channel) => r.id !in ids[..i], (r: Channel) => r.id != ids[i];
    assert ids[..i + 1] == ids[..i] + [ids[i]];
    WhereTwice(rows, p, q, (r: Channel) => r.id !in ids[..i + 1]);
  }

  lemma {:induction false} LiveRowsAreDistinct(rows: seq<Channel>, creatorId: string)
    requires UniqueIds(rows)
    ensures Sorting.NoDup(LiveRows(rows, creatorId))
  {
    if rows != [] {
      assert forall r :: r in rows[1..] ==> r.id != rows[0].id;
      LiveRowsAreDistinct(rows[1..], creatorId);
    }
  }

  lemma SameIdSameRow(rows: seq<Channel>, a: Channel, b: Channel)
    requires UniqueIds(rows) && a in rows && b in rows && a.id == b.id
    ensures a == b
  {
  }

  lemma SameIdDifferentRow(rows: seq<Channel>, a: Channel, b: Channel)
    requires UniqueIds(rows) && a in rows && b in rows
    ensures a != b ==> a.id != b.id
  {
  }

  /** Deleting every row but the first of the sorted duplicates is what provisioning promises. */
  lemma DeleteDupes(rows: seq<Channel>, creatorId: string, sorted: seq<Channel>, dupeIds: seq<string>)
    requires UniqueIds(rows) && LiveRows(rows, creatorId) != []
    requires sorted == Sorting.Sort(NotYounger(), LiveRows(rows, creatorId)) && dupeIds == Ids(sorted[1..])
    ensures Where(rows, (r: Channel) => r.id !in dupeIds)
      == Where(rows, (r: Channel) => !IsLiveRow(r, creatorId) || r.id == sorted[0].id)
  {
    var live := LiveRows(rows, creatorId);
    LiveRowsAreDistinct(rows, creatorId);
    Sorting.SortPermutes(NotYounger(), live);
    forall i | 0 < i < |sorted|
      ensures sorted[i].id in dupeIds
    {
      assert dupeIds[i - 1] == sorted[1..][i - 1].id;
    }
    forall r | r in rows
      ensures r.id !in dupeIds <==> !IsLiveRow(r, creatorId) || r.id == sorted[0].id
    {
      if r.id in dupeIds {
        var i :| 0 <= i < |dupeIds| && dupeIds[i] == r.id;
        assert sorted[1..][i] == sorted[i + 1] && sorted[i + 1] in sorted && sorted[0] in sorted;
        SameIdSameRow(rows, r, sorted[i + 1]);
        SameIdDifferentRow(rows, r, sorted[0]);
      } else if IsLiveRow(r, creatorId) {
        assert r in live && r in sorted;
        var i :| 0 <= i < |sorted| && sorted[i] == r;
      }
    }
    WhereSame(rows, (r: Channel) => r.id !in dupeIds, (r: Channel) => !IsLiveRow(r, creatorId) || r.id == sorted[0].id);
  }

  lemma {:induction false} SortedHeadIsOldest(rows: seq<Channel>)
    requires rows != []
    ensures Sorting.Sort(NotYounger(), rows)[0] == Oldest(rows)
  {
    if |rows| > 1 {
      SortedHeadIsOldest(rows[1..]);
    } else {
      assert Sorting.Sort(NotYounger(), rows[1..]) == [];
    }
  }

  class ChannelService {
    var channels: seq<Channel>
    var events: seq<LiveEvent>

    ghost function View(): State
      reads this
    {
      State(channels, events)
    }

    constructor ()
      ensures View() == State([], [])
    {
      channels, events := [], [];
    }

    method EnsureCreatorChannel(
        creatorId: string, creatorName: string, newId: string, now: int)
      returns (r: Result<string, Error>)
      requires UniqueIds(channels)
      modifies this
      ensures (View(), r) == Ensure(old(View()), creatorId, creatorName, newId, now)
    {
      var existing := LiveRows(channels, creatorId);
      if |existing| == 0 {
        var stream := "creator-" + creatorId;
        if StreamTaken(channels, stream, newId) {
          return Err(EnsureError);
        }
        channels := channels + [NewChannel(newId, creatorName + "'s Stream", stream, creatorId, None, now)];
        return Ok(newId);
      }
      var sorted := Sorting.Sort(NotYounger(), existing);
      SortedHeadIsOldest(existing);
      var canonical := sorted[0];
      ghost var before := channels;
      DeleteDupes(before, creatorId, sorted, Ids(sorted[1..]));
      if |sorted| > 1 {
        var dupeIds := Ids(sorted[1..]);
        DeleteRows(dupeIds);
      } else {
        WhereAll(before, (r: Channel) => r.id !in Ids(sorted[1..]));
      }
      return Ok(canonical.id);
    }

    /** The loop that deletes the duplicates one by one. */
    method DeleteRows(ids: seq<string>)
      modifies this
      ensures channels == Where(old(channels), (r: Channel) => r.id !in ids) && events == old(events)
    {
      ghost var before := channels;
      WhereAll(before, (r: Channel) => r.id !in ids[..0]);
      for i := 0 to |ids|
        invariant channels == Where(before, (r: Channel) => r.id !in ids[..i]) && events == old(events)
      {
        DeleteOne(before, ids, i);
        channels := Where(channels, (r: Channel) => r.id != ids[i]);
      }
      assert ids[..|ids|] == ids;
      WhereSame(before, (r: Channel) => r.id !in ids[..|ids|], (r: Channel) => r.id !in ids);
    }

    method ActivateLiveChannel(
        creatorId: string, creatorName: string, session: string, stream: string, newId: string, now: int)
      returns (r: Result<string, Error>)
      modifies this
      ensures (View(), r) == Activate(old(View()), creatorId, creatorName, session, stream, newId, now)
    {
      var found := LiveRows(channels, creatorId);
      if |found| == 0 {
        if StreamTaken(channels, stream, newId) {
          return Err(ActivateError);
        }
        channels := channels + [NewChannel(newId, "Live: " + creatorName, stream, creatorId, Some(session), now)];
        events := events + [LiveEvent(newId, true)];
        return Ok(newId);
      }
      var channel := found[0];
      if StreamTaken(channels, stream, channel.id) {
        return Err(ActivateError);
      }
      channels := Update(channels, channel.id, (r: Channel) => Activated(r, creatorName, session, stream, now));
      events := events + [LiveEvent(channel.id, true)];
      return Ok(channel.id);
    }

    method DeactivateLiveChannel(session: string, now: int) returns (r: Option<string>)
      modifies this
      ensures (View(), r) == Deactivate(old(View()), session, now)
    {
      var found := Where(channels, (r: Channel) => r.streamSessionId == Some(session) && r.isActive);
      if |found| == 0 {
        return None;
      }
      var channel := found[0];
      channels := Update(channels, channel.id, (r: Channel) => r.(isActive := false, updatedAt := now));
      events := events + [LiveEvent(channel.id, false)];
      return Some(channel.id);
    }
  }

  // ---------------------------------------------------------------- runs

  datatype Op =
    | EnsureOp(creatorId: string, name: string, newId: string, now: int)
    | ActivateOp(creatorId: string, name: string, session: string, stream: string, newId: string, now: int)
    | DeactivateOp(session: string, now: int)

  /** An operation and whether it succeeded. */
  type Entry = (Op, bool)

  function Apply(s: State, op: Op): (State, bool) {
    match op
    case EnsureOp(c, name, id, now) =>
      var (s', r) := Ensure(s, c, name, id, now);
      (s', r.Ok?)
    case ActivateOp(c, name, session, stream, id, now) =>
      var (s', r) := Activate(s, c, name, session, stream, id, now);
      (s', r.Ok?)
    case DeactivateOp(session, now) =>
      var (s', r) := Deactivate(s, session, now);
      (s', true)
  }

  /** Generated ids are new, and a stream session belongs to one creator. */
  ghost predicate Allowed(s: State, op: Op, owner: string -> string) {
    && (!op.DeactivateOp? ==>
      (forall r :: r in s.channels ==> r.id != op.newId) && (forall e :: e in s.events ==> e.channelId != op.newId))
    && (op.ActivateOp? ==> owner(op.session) == op.creatorId)
  }

  /** The operations as a step function, and the operations that may be applied. */
  const APPLY: (State, Op) -> (State, bool) := (s, op) => Apply(s, op)

  ghost function AllowedBy(owner: string -> string): (State, Op) -> bool {
    (s, op) => Allowed(s, op, owner)
  }

  predicate Activates(e: Entry, creatorId: string) {
    e.1 && e.0.ActivateOp? && e.0.creatorId == creatorId
  }

  /** The session a creator activated last, unless it has been deactivated since. */
  function LiveSession(log: seq<Entry>, creatorId: string): Option<string> {
    if log == [] then None
    else
      var k := |log| - 1;
      var before := LiveSession(log[..k], creatorId);
      if Activates(log[k], creatorId) then Some(log[k].0.session)
      else if log[k].0.DeactivateOp? && before == Some(log[k].0.session) then None
      else before
  }

  /** The i-th entry activated the session, and nothing since replaced or deactivated it. */
  ghost predicate StillLive(log: seq<Entry>, creatorId: string, i: nat) {
    && i < |log| && Activates(log[i], creatorId)
    && forall j :: i < j < |log| ==>
      !Activates(log[j], creatorId) && !(log[j].0.DeactivateOp? && log[j].0.session == log[i].0.session)
  }

  lemma {:induction false} LiveSessionMeansStillLive(log: seq<Entry>, creatorId: string)
    ensures LiveSession(log, creatorId).Some? <==> exists i: nat :: StillLive(log, creatorId, i)
    ensures forall i: nat :: StillLive(log, creatorId, i) ==> LiveSession(log, creatorId) == Some(log[i].0.session)
  {
    if log != [] {
      var k := |log| - 1;
      var before := log[..k];
      LiveSessionMeansStillLive(before, creatorId);
      forall i: nat | StillLive(log, creatorId, i) && i < k
        ensures StillLive(before, creatorId, i)
      {
      }
      if Activates(log[k], creatorId) {
        assert StillLive(log, creatorId, k);
      } else if LiveSession(log, creatorId).Some? {
        var i: nat :| StillLive(before, creatorId, i);
        assert StillLive(log, creatorId, i);
      }
    }
  }

  /** Whether the last event published for a channel says that it is live. */
  function LastLive(events: seq<LiveEvent>, id: string): bool {
    if events == [] then false
    else
      var last := events[|events| - 1];
      if last.channelId == id then last.live else LastLive(events[..|events| - 1], id)
  }

  lemma {:induction false} NeverPublished(events: seq<LiveEvent>, id: string)
    requires forall e :: e in events ==> e.channelId != id
    ensures !LastLive(events, id)
  {
    if events != [] {
      assert events[|events| - 1] in events;
      NeverPublished(events[..|events| - 1], id);
    }
  }

  // ---------------------------------------------------------------- what every step keeps

  ghost predicate IsLive(r: Channel) {
    r.creatorId.Some? && IsLiveRow(r, r.creatorId.value)
  }

  /**
   A row is active exactly when its creator's last session is live, carries that session, and its last
   event agrees.
   */
  ghost predicate RowAgrees(r: Channel, events: seq<LiveEvent>, live: Option<string>) {
    && (r.isActive <==> live.Some?)
    && (r.isActive ==> r.streamSessionId == live)
    && (r.isActive <==> LastLive(events, r.id))
  }

  ghost predicate RowOk(r: Channel, events: seq<LiveEvent>, log: seq<Entry>, owner: string -> string) {
    && (r.streamSessionId.Some? ==> IsLive(r) && owner(r.streamSessionId.value) == r.creatorId.value)
    && (IsLive(r) ==> RowAgrees(r, events, LiveSession(log, r.creatorId.value)))
  }

  /** No two live-ingest rows of one creator. */
  ghost predicate OneLiveRowEach(rows: seq<Channel>) {
    forall i, j :: 0 <= i < j < |rows| && IsLive(rows[i]) && IsLive(rows[j]) ==> rows[i].creatorId != rows[j].creatorId
  }

  ghost predicate HasLiveRow(rows: seq<Channel>, creatorId: string) {
    exists r :: r in rows && IsLiveRow(r, creatorId)
  }

  ghost predicate Inv(s: State, log: seq<Entry>, owner: string -> string) {
    && UniqueIds(s.channels) && OneLiveRowEach(s.channels)
    && (forall r :: r in s.channels ==> RowOk(r, s.events, log, owner))
    && (forall c :: LiveSession(log, c).Some? ==> HasLiveRow(s.channels, c))
  }

  lemma OneLiveRow(rows: seq<Channel>, a: Channel, b: Channel, c: string)
    requires OneLiveRowEach(rows) && a in rows && b in rows && IsLiveRow(a, c) && IsLiveRow(b, c)
    ensures a == b
  {
  }

  /** A live session is the one its creator's active row carries, so it belongs to that creator. */
  lemma LiveSessionIsCarried(s: State, log: seq<Entry>, owner: string -> string, c: string)
    requires Inv(s, log, owner)
    ensures var live := LiveSession(log, c); live.Some? ==>
      && owner(live.value) == c
      && exists r :: r in s.channels && IsLiveRow(r, c) && r.isActive && r.streamSessionId == live
  {
  }

  lemma EnsureNewRow(s: State, log: seq<Entry>, owner: string -> string, op: Op)
    requires Inv(s, log, owner) && op.EnsureOp? && Allowed(s, op, owner)
    requires forall r :: r in s.channels ==> !IsLiveRow(r, op.creatorId)
    ensures var stream := "creator-" + op.creatorId;
      var row := NewChannel(op.newId, op.name + "'s Stream", stream, op.creatorId, None, op.now);
      Inv(State(s.channels + [row], s.events), log + [(op, true)], owner)
  {
    var row := NewChannel(op.newId, op.name + "'s Stream", "creator-" + op.creatorId, op.creatorId, None, op.now);
    var rows, log' := s.channels + [row], log + [(op, true)];
    assert log'[..|log|] == log;
    assert forall x :: LiveSession(log', x) == LiveSession(log, x);
    LiveSessionIsCarried(s, log, owner, op.creatorId);
    NeverPublished(s.events, op.newId);
    assert forall r :: r in rows <==> r in s.channels || r == row;
    assert RowOk(row, s.events, log', owner);
    forall r | r in s.channels
      ensures RowOk(r, s.events, log', owner)
    {
      assert RowOk(r, s.events, log, owner);
    }
  }

  lemma EnsureKeepsInv(s: State, log: seq<Entry>, owner: string -> string, op: Op)
    requires Inv(s, log, owner) && op.EnsureOp? && Allowed(s, op, owner)
    ensures Inv(Apply(s, op).0, log + [(op, Apply(s, op).1)], owner)
  {
    var (s', ok) := Apply(s, op);
    var c := op.creatorId;
    var log' := log + [(op, ok)];
    assert log'[..|log|] == log;
    assert forall x :: LiveSession(log', x) == LiveSession(log, x);
    var existing := LiveRows(s.channels, c);
    if existing != [] {
      var keep := Oldest(existing);
      forall r | r in s.channels
        ensures !IsLiveRow(r, c) || r.id == keep.id
      {
        if IsLiveRow(r, c) {
          OneLiveRow(s.channels, r, keep, c);
        }
      }
      WhereAll(s.channels, (r: Channel) => !IsLiveRow(r, c) || r.id == keep.id);
    } else if ok {
      EnsureNewRow(s, log, owner, op);
    }
  }

  /** An update that leaves the identifying fields alone keeps which creators have a live-ingest row. */
  lemma LiveRowsSurvive(rows: seq<Channel>, updated: seq<Channel>, id: string, change: Channel -> Channel)
    requires updated == Update(rows, id, change)
    requires forall r ::
      change(r).creatorId == r.creatorId && change(r).ownership == r.ownership && change(r).role == r.role
    ensures forall c :: HasLiveRow(rows, c) ==> HasLiveRow(updated, c)
  {
    forall c, r | r in rows && IsLiveRow(r, c)
      ensures HasLiveRow(updated, c)
    {
      var i :| 0 <= i < |rows| && rows[i] == r;
      assert updated[i] in updated && IsLiveRow(updated[i], c);
    }
  }

  lemma DeactivateRow(s: State, log: seq<Entry>, owner: string -> string, op: Op, row: Channel)
    requires Inv(s, log, owner) && op.DeactivateOp?
    requires row in s.channels && row.streamSessionId == Some(op.session) && row.isActive
    ensures var channels := Update(s.channels, row.id, (r: Channel) => r.(isActive := false, updatedAt := op.now));
      Inv(State(channels, s.events + [LiveEvent(row.id, false)]), log + [(op, true)], owner)
  {
    var change := (r: Channel) => r.(isActive := false, updatedAt := op.now);
    var rows := Update(s.channels, row.id, change);
    var events := s.events + [LiveEvent(row.id, false)];
    var log' := log + [(op, true)];
    assert log'[..|log|] == log && events[..|s.events|] == s.events;
    assert RowOk(row, s.events, log, owner);
    var c := row.creatorId.value;
    assert LiveSession(log, c) == Some(op.session) && LiveSession(log', c) == None;
    forall x | x != c
      ensures LiveSession(log', x) == LiveSession(log, x)
    {
      LiveSessionIsCarried(s, log, owner, x);
    }
    forall i | 0 <= i < |rows|
      ensures RowOk(rows[i], events, log', owner)
    {
      var r := s.channels[i];
      assert RowOk(r, s.events, log, owner);
      if r.id == row.id {
        SameIdSameRow(s.channels, r, row);
      } else if IsLive(r) && r.creatorId.value == c {
        OneLiveRow(s.channels, r, row, c);
      }
    }
    LiveRowsSurvive(s.channels, rows, row.id, change);
  }

  lemma DeactivateKeepsInv(s: State, log: seq<Entry>, owner: string -> string, op: Op)
    requires Inv(s, log, owner) && op.DeactivateOp?
    ensures Inv(Apply(s, op).0, log + [(op, true)], owner)
  {
    var s' := Apply(s, op).0;
    var log' := log + [(op, true)];
    assert log'[..|log|] == log;
    var found := Where(s.channels, (r: Channel) => r.streamSessionId == Some(op.session) && r.isActive);
    if found == [] {
      assert forall r :: r in s.channels ==> r !in found;
      forall c
        ensures LiveSession(log', c) == LiveSession(log, c)
      {
        LiveSessionIsCarried(s, log, owner, c);
      }
    } else {
      DeactivateRow(s, log, owner, op, found[0]);
    }
  }

  lemma ActivateNewRow(s: State, log: seq<Entry>, owner: string -> string, op: Op)
    requires Inv(s, log, owner) && op.ActivateOp? && Allowed(s, op, owner)
    requires forall r :: r in s.channels ==> !IsLiveRow(r, op.creatorId)
    ensures var row := NewChannel(op.newId, "Live: " + op.name, op.stream, op.creatorId, Some(op.session), op.now);
      Inv(State(s.channels + [row], s.events + [LiveEvent(op.newId, true)]), log + [(op, true)], owner)
  {
    var row := NewChannel(op.newId, "Live: " + op.name, op.stream, op.creatorId, Some(op.session), op.now);
    var rows, events, log' := s.channels + [row], s.events + [LiveEvent(op.newId, true)], log + [(op, true)];
    assert log'[..|log|] == log && events[..|s.events|] == s.events;
    assert forall x :: x != op.creatorId ==> LiveSession(log', x) == LiveSession(log, x);
    assert forall r :: r in rows <==> r in s.channels || r == row;
    assert RowOk(row, events, log', owner);
    forall r | r in s.channels
      ensures RowOk(r, events, log', owner)
    {
      assert RowOk(r, s.events, log, owner);
    }
  }

  lemma ActivateRow(s: State, log: seq<Entry>, owner: string -> string, op: Op, row: Channel)
    requires Inv(s, log, owner) && op.ActivateOp? && owner(op.session) == op.creatorId
    requires row in s.channels && IsLiveRow(row, op.creatorId)
    ensures var channels := Update(s.channels, row.id,
      (r: Channel) => Activated(r, op.name, op.session, op.stream, op.now));
      Inv(State(channels, s.events + [LiveEvent(row.id, true)]), log + [(op, true)], owner)
  {
    var change := (r: Channel) => Activated(r, op.name, op.session, op.stream, op.now);
    var rows := Update(s.channels, row.id, change);
    var events, log' := s.events + [LiveEvent(row.id, true)], log + [(op, true)];
    assert log'[..|log|] == log && events[..|s.events|] == s.events;
    var c := op.creatorId;
    assert forall x :: x != c ==> LiveSession(log', x) == LiveSession(log, x);
    forall i | 0 <= i < |rows|
      ensures RowOk(rows[i], events, log', owner)
    {
      var r := s.channels[i];
      assert RowOk(r, s.events, log, owner);
      if r.id == row.id {
        SameIdSameRow(s.channels, r, row);
      } else if IsLive(r) && r.creatorId.value == c {
        OneLiveRow(s.channels, r, row, c);
      }
    }
    assert exists r :: r in s.channels && IsLiveRow(r, c);
    LiveRowsSurvive(s.channels, rows, row.id, change);
  }

  lemma ActivateKeepsInv(s: State, log: seq<Entry>, owner: string -> string, op: Op)
    requires Inv(s, log, owner) && op.ActivateOp? && Allowed(s, op, owner)
    ensures Inv(Apply(s, op).0, log + [(op, Apply(s, op).1)], owner)
  {
    var (s', ok) := Apply(s, op);
    var log' := log + [(op, ok)];
    assert log'[..|log|] == log;
    var existing := LiveRows(s.channels, op.creatorId);
    if !ok {
      assert forall x :: LiveSession(log', x) == LiveSession(log, x);
    } else if existing == [] {
      ActivateNewRow(s, log, owner, op);
    } else {
      ActivateRow(s, log, owner, op, existing[0]);
    }
  }

  lemma {:induction false} ApplyKeepsInv(s: State, log: seq<Entry>, owner: string -> string, op: Op)
    requires Inv(s, log, owner) && Allowed(s, op, owner)
    ensures Inv(Apply(s, op).0, log + [(op, Apply(s, op).1)], owner)
  {
    match op
    case EnsureOp(_, _, _, _) => EnsureKeepsInv(s, log, owner, op);
    case ActivateOp(_, _, _, _, _, _) => ActivateKeepsInv(s, log, owner, op);
    case DeactivateOp(_, _) => DeactivateKeepsInv(s, log, owner, op);
  }

  lemma {:induction false} RunKeepsInv(s: State, log: seq<Entry>, ops: seq<Op>, owner: string -> string)
    requires Inv(s, log, owner) && Runs.Legal(APPLY, AllowedBy(owner), s, ops)
    ensures Inv(Runs.After(APPLY, s, ops), log + Runs.Log(APPLY, s, ops), owner)
  {
    var inv := (s: State, log: seq<Entry>) => Inv(s, log, owner);
    forall s, log, op | inv(s, log) && AllowedBy(owner)(s, op)
      ensures inv(APPLY(s, op).0, log + [(op, APPLY(s, op).1)])
    {
      ApplyKeepsInv(s, log, owner, op);
    }
    Runs.Keeps(APPLY, AllowedBy(owner), inv, s, log, ops);
  }

  /**
   A table to start from: ids are unique, no creator has two live-ingest rows, and those rows are active
   exactly when their last event says so. Rows carry sessions of their own creator only, active ones the
   session that is live.
   */
  ghost predicate IsStart(s: State, owner: string -> string) {
    && UniqueIds(s.channels) && OneLiveRowEach(s.channels)
    && forall r :: r in s.channels ==>
      && (r.streamSessionId.Some? ==> IsLive(r) && owner(r.streamSessionId.value) == r.creatorId.value)
      && (IsLive(r) ==> (r.isActive ==> r.streamSessionId.Some?) && (r.isActive <==> LastLive(s.events, r.id)))
  }

  /** The activations that the active rows of a table stand for. */
  function History(rows: seq<Channel>): seq<Entry> {
    if rows == [] then []
    else
      var k := |rows| - 1;
      var r := rows[k];
      History(rows[..k])
      + if r.isActive && r.creatorId.Some? && IsLiveRow(r, r.creatorId.value) && r.streamSessionId.Some? then
          var session := r.streamSessionId.value;
          [(ActivateOp(r.creatorId.value, r.name, session, r.srsStreamName, r.id, r.updatedAt), true)]
        else []
  }

  /** The last row adds the live session of its creator, if it is active, and nothing else. */
  lemma HistoryStep(rows: seq<Channel>)
    requires rows != []
    ensures var r, before := rows[|rows| - 1], rows[..|rows| - 1];
      forall c :: LiveSession(History(rows), c) ==
        if IsLive(r) && r.creatorId == Some(c) && r.isActive && r.streamSessionId.Some? then r.streamSessionId
        else LiveSession(History(before), c)
  {
    var h, h' := History(rows[..|rows| - 1]), History(rows);
    if |h'| > |h| {
      assert h'[..|h|] == h;
    } else {
      assert h' == h;
    }
  }

  lemma {:induction false} HistoryIsLive(rows: seq<Channel>)
    requires OneLiveRowEach(rows) && forall r :: r in rows && IsLive(r) && r.isActive ==> r.streamSessionId.Some?
    ensures forall r :: r in rows && IsLive(r) ==>
      LiveSession(History(rows), r.creatorId.value) == if r.isActive then r.streamSessionId else None
    ensures forall c :: LiveSession(History(rows), c).Some? ==> HasLiveRow(rows, c)
  {
    if rows != [] {
      var k := |rows| - 1;
      var r, before := rows[k], rows[..k];
      assert rows == before + [r];
      HistoryIsLive(before);
      HistoryStep(rows);
      assert forall x :: x in rows <==> x in before || x == r;
    }
  }

  /**
   At most one live-ingest row per creator; the row is active exactly when the creator's most recently
   activated session has not been deactivated since, and the last event published for it says the same.
   A live session always has its row.
   */
  ghost predicate Fenced(s: State, log: seq<Entry>, creatorId: string) {
    && OneLiveRowEach(s.channels)
    && (forall r :: r in s.channels && IsLiveRow(r, creatorId) ==>
          && (r.isActive <==> exists i: nat :: StillLive(log, creatorId, i))
          && (r.isActive <==> LastLive(s.events, r.id)))
    && ((exists i: nat :: StillLive(log, creatorId, i)) ==>
          exists r :: r in s.channels && IsLiveRow(r, creatorId) && r.isActive)
  }

  lemma InvIsFencing(s: State, log: seq<Entry>, owner: string -> string, creatorId: string)
    requires Inv(s, log, owner)
    ensures Fenced(s, log, creatorId)
  {
    LiveSessionMeansStillLive(log, creatorId);
    LiveSessionIsCarried(s, log, owner, creatorId);
    forall r | r in s.channels && IsLiveRow(r, creatorId)
      ensures (r.isActive <==> LiveSession(log, creatorId).Some?) && (r.isActive <==> LastLive(s.events, r.id))
    {
      assert RowOk(r, s.events, log, owner);
    }
  }

  lemma StartKeepsInv(s: State, owner: string -> string)
    requires IsStart(s, owner)
    ensures Inv(s, History(s.channels), owner)
  {
    HistoryIsLive(s.channels);
  }

  /**
   Every run of provisioning, activation and deactivation is fenced, for every creator, by the
   operations of the run and the activations that the rows active at its start stand for.
   */
  lemma {:induction false} RunsAreFenced(s: State, ops: seq<Op>, owner: string -> string, creatorId: string)
    requires IsStart(s, owner) && Runs.Legal(APPLY, AllowedBy(owner), s, ops)
    ensures Fenced(Runs.After(APPLY, s, ops), History(s.channels) + Runs.Log(APPLY, s, ops), creatorId)
  {
    var earlier := History(s.channels);
    StartKeepsInv(s, owner);
    RunKeepsInv(s, earlier, ops, owner);
    InvIsFencing(Runs.After(APPLY, s, ops), earlier + Runs.Log(APPLY, s, ops), owner, creatorId);
  }

  lemma {:induction false} NoHistory(rows: seq<Channel>)
    requires forall r :: r in rows && IsLive(r) ==> !r.isActive
    ensures History(rows) == []
  {
    if rows != [] {
      assert rows[|rows| - 1] in rows;
      NoHistory(rows[..|rows| - 1]);
    }
  }

  /** From a table in which no stream is live, by the operations of the run alone. */
  lemma {:induction false} NewRunsAreFenced(s: State, ops: seq<Op>, owner: string -> string, creatorId: string)
    requires IsStart(s, owner) && Runs.Legal(APPLY, AllowedBy(owner), s, ops)
    requires forall r :: r in s.channels && IsLive(r) ==> !r.isActive
    ensures Fenced(Runs.After(APPLY, s, ops), Runs.Log(APPLY, s, ops), creatorId)
  {
    var log := Runs.Log(APPLY, s, ops);
    assert History(s.channels) + log == log by {
      NoHistory(s.channels);
    }
    RunsAreFenced(s, ops, owner, creatorId);
  }

  /** Generated ids are new among the rows. */
  const FRESH_ID: (State, Op) -> bool :=
    (s: State, op: Op) => op.DeactivateOp? || forall r :: r in s.channels ==> r.id != op.newId

  ghost predicate RowsAreUnique(s: State) {
    UniqueIds(s.channels) && OneLiveRowEach(s.channels)
  }

  lemma NewRowKeepsUnique(rows: seq<Channel>, row: Channel, creatorId: string)
    requires UniqueIds(rows) && OneLiveRowEach(rows) && LiveRows(rows, creatorId) == []
    requires row.creatorId == Some(creatorId) && forall r :: r in rows ==> r.id != row.id
    ensures UniqueIds(rows + [row]) && OneLiveRowEach(rows + [row])
  {
    forall r | r in rows
      ensures !IsLiveRow(r, creatorId)
    {
      assert r !in LiveRows(rows, creatorId);
    }
  }

  lemma {:induction false} WhereKeepsUnique(rows: seq<Channel>, keep: Channel -> bool)
    requires UniqueIds(rows) && OneLiveRowEach(rows)
    ensures UniqueIds(Where(rows, keep)) && OneLiveRowEach(Where(rows, keep))
  {
    if rows != [] {
      var rest := Where(rows[1..], keep);
      WhereKeepsUnique(rows[1..], keep);
      forall r | r in rest
        ensures r.id != rows[0].id && (IsLive(r) && IsLive(rows[0]) ==> r.creatorId != rows[0].creatorId)
      {
        assert r in rows[1..];
      }
      assert Where(rows, keep) == if keep(rows[0]) then [rows[0]] + rest else rest;
    }
  }

  /** An update of the other columns. */
  lemma UpdateKeepsUnique(rows: seq<Channel>, id: string, change: Channel -> Channel)
    requires UniqueIds(rows) && OneLiveRowEach(rows)
    requires forall r :: change(r).id == r.id && change(r).creatorId == r.creatorId
    requires forall r :: change(r).ownership == r.ownership && change(r).role == r.role
    ensures UniqueIds(Update(rows, id, change)) && OneLiveRowEach(Update(rows, id, change))
  {
  }

  lemma ApplyKeepsUnique(s: State, op: Op)
    requires RowsAreUnique(s) && FRESH_ID(s, op)
    ensures RowsAreUnique(Apply(s, op).0)
  {
    match op
    case EnsureOp(c, name, id, now) =>
      var existing := LiveRows(s.channels, c);
      if existing != [] {
        WhereKeepsUnique(s.channels, (r: Channel) => !IsLiveRow(r, c) || r.id == Oldest(existing).id);
      } else {
        NewRowKeepsUnique(s.channels, NewChannel(id, name + "'s Stream", "creator-" + c, c, None, now), c);
      }
    case ActivateOp(c, name, session, stream, id, now) =>
      if LiveRows(s.channels, c) == [] {
        NewRowKeepsUnique(s.channels, NewChannel(id, "Live: " + name, stream, c, Some(session), now), c);
      } else {
        var row := LiveRows(s.channels, c)[0];
        UpdateKeepsUnique(s.channels, row.id, (r: Channel) => Activated(r, name, session, stream, now));
      }
    case DeactivateOp(session, now) =>
      var found := Where(s.channels, (r: Channel) => r.streamSessionId == Some(session) && r.isActive);
      if found != [] {
        UpdateKeepsUnique(s.channels, found[0].id, (r: Channel) => r.(isActive := false, updatedAt := now));
      }
  }

  /**
   Row uniqueness needs neither sessions nor a log: from any table with unique ids and at most one
   live-ingest row per creator, live or not, every run keeps both.
   */
  lemma RowsStayUnique(s: State, ops: seq<Op>)
    requires RowsAreUnique(s) && Runs.Legal(APPLY, FRESH_ID, s, ops)
    ensures RowsAreUnique(Runs.After(APPLY, s, ops))
  {
    forall s, op | RowsAreUnique(s) && FRESH_ID(s, op)
      ensures RowsAreUnique(APPLY(s, op).0)
    {
      ApplyKeepsUnique(s, op);
    }
    Runs.KeepsState(APPLY, FRESH_ID, (s: State) => RowsAreUnique(s), s, ops);
  }

  /** The unpublish callback of a session that a newer one replaced finds nothing and changes nothing. */
  lemma LateUnpublishIsIgnored(s: State, log: seq<Entry>, owner: string -> string, oldSession: string, now: int)
    requires Inv(s, log, owner) && LiveSession(log, owner(oldSession)) != Some(oldSession)
    ensures Deactivate(s, oldSession, now) == (s, None)
  {
    var found := Where(s.channels, (r: Channel) => r.streamSessionId == Some(oldSession) && r.isActive);
    forall r | r in s.channels
      ensures r !in found
    {
      assert RowOk(r, s.events, log, owner);
    }
    Sorting.NonemptyHasElement(found);
  }

  // ---------------------------------------------------------------- duplicates left by older versions

  lemma {:induction false} WhereOne(rows: seq<Channel>, row: Channel, keep: Channel -> bool)
    requires UniqueIds(rows) && row in rows && forall r :: r in rows ==> (keep(r) <==> r == row)
    ensures Where(rows, keep) == [row]
  {
    assert rows[0] in rows && forall r :: r in rows[1..] ==> r in rows;
    if rows[0] == row {
      assert forall r :: r in rows[1..] ==> r.id != row.id;
      WhereNone(rows[1..], keep);
    } else {
      WhereOne(rows[1..], row, keep);
    }
  }

  lemma {:induction false} OnlyKept(rows: seq<Channel>, keep: Channel, creatorId: string)
    requires UniqueIds(rows) && keep in rows && IsLiveRow(keep, creatorId)
    ensures LiveRows(Where(rows, (r: Channel) => !IsLiveRow(r, creatorId) || r.id == keep.id), creatorId) == [keep]
  {
    var p, q := (r: Channel) => !IsLiveRow(r, creatorId) || r.id == keep.id, (r: Channel) => IsLiveRow(r, creatorId);
    var both := (r: Channel) => r == keep;
    forall r | r in rows
      ensures p(r) && q(r) <==> r == keep
    {
      SameIdDifferentRow(rows, r, keep);
    }
    WhereTwice(rows, p, q, both);
    WhereOne(rows, keep, both);
  }

  /**
   From any number of duplicates, provisioning leaves exactly the oldest row of the creator, touches no
   other row, publishes nothing, and provisioning again changes nothing and returns the same channel.
   */
  lemma EnsureKeepsOldest(s: State, creatorId: string, name: string, newId: string, now: int)
    requires UniqueIds(s.channels) && LiveRows(s.channels, creatorId) != []
    ensures var keep := Oldest(LiveRows(s.channels, creatorId));
      var (s', r) := Ensure(s, creatorId, name, newId, now);
      && r == Ok(keep.id) && LiveRows(s'.channels, creatorId) == [keep] && s'.events == s.events
      && Where(s'.channels, (x: Channel) => !IsLiveRow(x, creatorId))
            == Where(s.channels, (x: Channel) => !IsLiveRow(x, creatorId))
      && Ensure(s', creatorId, name, newId, now) == (s', r)
  {
    var keep := Oldest(LiveRows(s.channels, creatorId));
    var (s', r) := Ensure(s, creatorId, name, newId, now);
    var p, q := (x: Channel) => !IsLiveRow(x, creatorId) || x.id == keep.id, (x: Channel) => !IsLiveRow(x, creatorId);
    OnlyKept(s.channels, keep, creatorId);
    WhereTwice(s.channels, p, q, q);
    WhereAll(s'.channels, p);
  }

  /**
   Deduplication goes by age alone: a creator who is live stays live exactly when the oldest row is
   the active one (or none was); otherwise the stream disappears and no event says so.
   */
  lemma DedupKeepsLiveIff(s: State, creatorId: string, name: string, newId: string, now: int)
    requires UniqueIds(s.channels) && LiveRows(s.channels, creatorId) != []
    ensures var live := LiveRows(s.channels, creatorId);
      var s' := Ensure(s, creatorId, name, newId, now).0;
      && ((exists r :: r in s'.channels && IsLiveRow(r, creatorId) && r.isActive) <==> Oldest(live).isActive)
      && s'.events == s.events
  {
  }

  /**
   An older idle duplicate: the creator goes live on the younger row, provisioning deletes it, and its
   unpublish finds nothing.
   */
  lemma DedupCanDropALiveChannel()
    ensures var a := NewChannel("a", "A", "a", "c", None, 1);
      var b := NewChannel("b", "B", "b", "c", Some("s"), 2);
      var s := State([a, b], [LiveEvent("b", true)]);
      var s' := Ensure(s, "c", "C", "n", 3).0;
      && LastLive(s.events, "b") && s'.channels == [a] && s'.events == s.events
      && Deactivate(s', "s", 4) == (s', None)
  {
  }

  // ---------------------------------------------------------------- the operations column by column

  /**
   A creator without a live-ingest row gets exactly one, idle and without a session, under a placeholder
   stream name; asking again returns it and changes nothing. If the placeholder is taken nothing happens.
   */
  lemma EnsureProvisions(
      s: State, creatorId: string, name: string, newId: string, now: int, againId: string, later: int)
    requires forall r :: r in s.channels ==>
      r.id != newId && !(r.creatorId == Some(creatorId) && r.ownership == Creator && r.role == LiveIngest)
    ensures var (s', r) := Ensure(s, creatorId, name, newId, now);
      if exists x :: x in s.channels && x.srsStreamName == "creator-" + creatorId then s' == s && r == Err(EnsureError)
      else
        && r == Ok(newId) && s'.events == s.events
        && s'.channels == s.channels
          + [Channel(newId, name + "'s Stream", Creator, LiveIngest, "creator-" + creatorId, Some(creatorId), None,
            false, now, now)]
        && Ensure(s', creatorId, name, againId, later) == (s', Ok(newId))
  {
    var own := (r: Channel) => IsLiveRow(r, creatorId);
    WhereNone(s.channels, own);
    var (s', r) := Ensure(s, creatorId, name, newId, now);
    if r.Ok? {
      var row := s'.channels[|s.channels|];
      WhereConcat(s.channels, [row], own);
      assert LiveRows(s'.channels, creatorId) == [row];
      WhereAll(s'.channels, (x: Channel) => !IsLiveRow(x, creatorId) || x.id == row.id);
    }
  }

  /**
   With live-ingest rows of the creator, the answer is one of the oldest of them, and of these rows it
   alone stays; the rows of others and the events do not change.
   */
  lemma EnsureDedups(s: State, creatorId: string, name: string, newId: string, now: int, i: nat)
    returns (keep: Channel)
    requires UniqueIds(s.channels) && i < |s.channels|
    requires var r := s.channels[i]; r.creatorId == Some(creatorId) && r.ownership == Creator && r.role == LiveIngest
    ensures keep in s.channels && keep.creatorId == Some(creatorId) && keep.ownership == Creator
      && keep.role == LiveIngest
    ensures forall x ::
      x in s.channels && x.creatorId == Some(creatorId) && x.ownership == Creator && x.role == LiveIngest ==>
      keep.createdAt <= x.createdAt
    ensures var (s', r) := Ensure(s, creatorId, name, newId, now);
      && r == Ok(keep.id) && s'.events == s.events
      && forall x ::
          x in s'.channels <==>
          && x in s.channels
          && (x == keep || x.creatorId != Some(creatorId) || x.ownership != Creator || x.role != LiveIngest)
  {
    assert s.channels[i] in LiveRows(s.channels, creatorId);
    keep := Oldest(LiveRows(s.channels, creatorId));
    forall x | x in s.channels
      ensures x.id == keep.id <==> x == keep
    {
      SameIdDifferentRow(s.channels, x, keep);
    }
  }

  /** A first publish without a row inserts a live one, unless the stream name is taken. */
  lemma ActivateInserts(
      s: State, creatorId: string, name: string, session: string, stream: string, newId: string, now: int)
    requires forall r :: r in s.channels ==>
      r.id != newId && !(r.creatorId == Some(creatorId) && r.ownership == Creator && r.role == LiveIngest)
    ensures var (s', r) := Activate(s, creatorId, name, session, stream, newId, now);
      if exists x :: x in s.channels && x.srsStreamName == stream then s' == s && r == Err(ActivateError)
      else
        && r == Ok(newId) && s'.events == s.events + [LiveEvent(newId, true)]
        && s'.channels == s.channels
          + [Channel(newId, "Live: " + name, Creator, LiveIngest, stream, Some(creatorId), Some(session), true, now,
            now)]
  {
    WhereNone(s.channels, (r: Channel) => IsLiveRow(r, creatorId));
  }

  /**
   A publish updates the creator's first live-ingest row in place, even under the stream name it already
   has: name, stream name, session, activity and time of update change, and nothing else in the table. It
   fails, changing nothing, exactly when another row has the stream name.
   */
  lemma ActivateUpdates(
      s: State, creatorId: string, name: string, session: string, stream: string, newId: string, now: int, i: nat)
    requires UniqueIds(s.channels) && i < |s.channels|
    requires var r := s.channels[i]; r.creatorId == Some(creatorId) && r.ownership == Creator && r.role == LiveIngest
    requires forall j :: 0 <= j < i ==>
      !(s.channels[j].creatorId == Some(creatorId) && s.channels[j].ownership == Creator
        && s.channels[j].role == LiveIngest)
    ensures var (s', r) := Activate(s, creatorId, name, session, stream, newId, now);
      var was := s.channels[i];
      if exists j :: 0 <= j < |s.channels| && j != i && s.channels[j].srsStreamName == stream
      then s' == s && r == Err(ActivateError)
      else
        && r == Ok(was.id) && s'.events == s.events + [LiveEvent(was.id, true)]
        && s'.channels == s.channels[i := Channel(was.id, "Live: " + name, Creator, LiveIngest, stream, Some(creatorId),
                                                  Some(session), true, was.createdAt, now)]
  {
    WhereFirst(s.channels, (r: Channel) => IsLiveRow(r, creatorId), i);
    var was := s.channels[i];
    forall j | 0 <= j < |s.channels|
      ensures s.channels[j].id == was.id <==> j == i
    {
    }
    if StreamTaken(s.channels, stream, was.id) {
      var x :| x in s.channels && x.srsStreamName == stream && x.id != was.id;
      var j :| 0 <= j < |s.channels| && s.channels[j] == x;
    }
    if j :| 0 <= j < |s.channels| && j != i && s.channels[j].srsStreamName == stream {
      assert s.channels[j] in s.channels && s.channels[j].id != was.id;
    }
  }

  /** An unpublish makes the first active row of the session idle and says so; without one it does nothing. */
  lemma DeactivateExactly(s: State, session: string, now: int, i: nat)
    requires UniqueIds(s.channels) && i <= |s.channels|
    requires forall j :: 0 <= j < i ==> !(s.channels[j].streamSessionId == Some(session) && s.channels[j].isActive)
    requires i < |s.channels| ==> s.channels[i].streamSessionId == Some(session) && s.channels[i].isActive
    ensures var (s', r) := Deactivate(s, session, now);
      if i == |s.channels| then s' == s && r == None
      else
        var was := s.channels[i];
        && r == Some(was.id) && s'.events == s.events + [LiveEvent(was.id, false)]
        && s'.channels == s.channels[i := Channel(was.id, was.name, was.ownership, was.role, was.srsStreamName,
                                                  was.creatorId, Some(session), false, was.createdAt, now)]
  {
    var live := (r: Channel) => r.streamSessionId == Some(session) && r.isActive;
    if i == |s.channels| {
      WhereNone(s.channels, live);
    } else {
      WhereFirst(s.channels, live, i);
      forall j | 0 <= j < |s.channels|
        ensures s.channels[j].id == s.channels[i].id <==> j == i
      {
      }
    }
  }
}
