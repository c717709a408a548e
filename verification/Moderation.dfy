/**
 Chat sanctions: the append-only log of moderation actions, the newest-first lookups over it and
 the room state a joining client receives.
 */
module Moderation {
  import opened Wrappers
  import opened Tables
  import opened Sorting

  datatype Kind = Timeout | Ban | Unban

  datatype Action = Action(
    id: string,
    roomId: string,
    targetUserId: string,
    moderatorUserName: string,
    kind: Kind,
    createdAt: int,
    expiresAt: Option<int>)

  type Log = seq<Action>

  datatype RoomState = RoomState(
    slowModeSeconds: int,
    isBanned: bool,
    banModeratorUserName: Option<string>,
    isTimedOut: bool,
    timedOutUntil: Option<int>,
    timeoutModeratorUserName: Option<string>)

  // ---------------------------------------------------------------- queries

  function Newer(): Order<Action> {
    (a: Action, b: Action) => a.createdAt > b.createdAt
  }

  function Older(): Order<Action> {
    (a: Action, b: Action) => a.createdAt < b.createdAt
  }

  predicate Concerns(a: Action, userId: string, roomId: string) {
    a.targetUserId == userId && a.roomId == roomId
  }

  predicate IsTimeoutOf(a: Action, userId: string, roomId: string) {
    Concerns(a, userId, roomId) && a.kind == Timeout
  }

  predicate IsBanOrUnban(a: Action) {
    a.kind == Ban || a.kind == Unban
  }

  /** SELECT ... WHERE keep ORDER BY created_at DESC. */
  function NewestFirst(log: Log, keep: Action -> bool): seq<Action> {
    Sort(Newer(), Where(log, keep))
  }

  function ActionsOf(log: Log, userId: string, roomId: string): seq<Action> {
    NewestFirst(log, (a: Action) => Concerns(a, userId, roomId))
  }

  predicate IsUserBanned(log: Log, userId: string, roomId: string) {
    var last := Find(ActionsOf(log, userId, roomId), (a: Action) => IsBanOrUnban(a));
    last.Some? && last.value.kind == Ban
  }

  /** The end of the timeout in force at `now`, judged by the newest timeout alone. */
  function TimedOutUntil(log: Log, userId: string, roomId: string, now: int): Option<int> {
    var rows := NewestFirst(log, (a: Action) => IsTimeoutOf(a, userId, roomId));
    if rows == [] || rows[0].expiresAt.None? then None
    else if rows[0].expiresAt.value > now then rows[0].expiresAt
    else None
  }

  // ---------------------------------------------------------------- forward replay

  /** The sanctions against one user in one room: who banned, and the latest timeout. */
  datatype Sanctions = Sanctions(bannedBy: Option<string>, timeout: Option<(Option<int>, string)>)

  const CLEAN := Sanctions(None, None)

  function Apply(s: Sanctions, a: Action): Sanctions {
    match a.kind
    case Ban => s.(bannedBy := Some(a.moderatorUserName))
    case Unban => s.(bannedBy := None)
    case Timeout => s.(timeout := Some((a.expiresAt, a.moderatorUserName)))
  }

  /** The actions in the order in which they happened, applied one after the other. */
  function Replay(s: Sanctions, actions: seq<Action>): Sanctions
    decreases actions
  {
    if actions == [] then s else Replay(Apply(s, actions[0]), actions[1..])
  }

  function Chronicle(log: Log, userId: string, roomId: string): seq<Action> {
    Sort(Older(), Where(log, (a: Action) => Concerns(a, userId, roomId)))
  }

  function SanctionsOf(log: Log, userId: string, roomId: string): Sanctions {
    Replay(CLEAN, Chronicle(log, userId, roomId))
  }

  /** The room state that the replayed sanctions call for at `now`. */
  function ReplayedState(slowModeSeconds: int, s: Sanctions, now: int): RoomState {
    var running := s.timeout.Some? && s.timeout.value.0.Some? && s.timeout.value.0.value > now;
    RoomState(slowModeSeconds, s.bannedBy.Some?, s.bannedBy, running,
              if running then s.timeout.value.0 else None,
              if running then Some(s.timeout.value.1) else None)
  }

  // ---------------------------------------------------------------- newest first against forward replay

  /** No two of the actions that `keep` selects have the same timestamp. */
  ghost predicate DistinctAmong(log: Log, keep: Action -> bool) {
    forall i, j :: 0 <= i < j < |log| && keep(log[i]) && keep(log[j]) ==> log[i].createdAt != log[j].createdAt
  }

  /** No two actions against one user in one room have the same timestamp. */
  ghost predicate DistinctTimes(log: Log, userId: string, roomId: string) {
    DistinctAmong(log, (a: Action) => a.targetUserId == userId && a.roomId == roomId)
  }

  lemma TimesAreTotal(s: set<Action>)
    requires forall x, y :: x in s && y in s && x != y ==> x.createdAt != y.createdAt
    ensures TotalOn(Newer(), s) && TotalOn(Older(), s)
  {
  }

  lemma {:induction false} SelectedActions(log: Log, keep: Action -> bool)
    requires DistinctAmong(log, keep)
    ensures NoDup(Where(log, keep))
    ensures forall x, y :: x in log && y in log && keep(x) && keep(y) && x != y ==> x.createdAt != y.createdAt
  {
    if log != [] {
      assert keep(log[0]) ==> forall y :: y in log[1..] && keep(y) ==> y.createdAt != log[0].createdAt;
      assert forall y :: y in log <==> y == log[0] || y in log[1..];
      SelectedActions(log[1..], keep);
    }
  }

  lemma QueryIsSorted(log: Log, keep: Action -> bool)
    requires DistinctAmong(log, keep)
    ensures var rows := NewestFirst(log, keep);
      Ascending(Newer(), rows) && (forall a :: a in rows <==> a in log && keep(a)) && TotalOn(Newer(), Elems(rows))
  {
    SelectedActions(log, keep);
    TimesAreTotal(Elems(Where(log, keep)));
    SortSorts(Newer(), Where(log, keep));
    TimesAreTotal(Elems(NewestFirst(log, keep)));
  }

  function Reverse(s: seq<Action>): (r: seq<Action>)
    ensures |r| == |s| && forall a :: a in r <==> a in s
  {
    if s == [] then []
    else
      assert forall a :: a in s <==> a == s[0] || a in s[1..];
      Reverse(s[1..]) + [s[0]]
  }

  lemma {:induction false} ReverseIsAscending(s: seq<Action>)
    requires Ascending(Newer(), s)
    ensures Ascending(Older(), Reverse(s))
  {
    if s != [] {
      ReverseIsAscending(s[1..]);
      assert Ascending(Older(), [s[0]]);
      AscendingConcat(Older(), Reverse(s[1..]), [s[0]]);
    }
  }

  /** The chronicle is the newest-first listing read backwards. */
  lemma ChronicleIsReversed(log: Log, userId: string, roomId: string)
    requires DistinctTimes(log, userId, roomId)
    ensures Chronicle(log, userId, roomId) == Reverse(ActionsOf(log, userId, roomId))
  {
    var keep := (a: Action) => Concerns(a, userId, roomId);
    var rows, newest := Where(log, keep), ActionsOf(log, userId, roomId);
    QueryIsSorted(log, keep);
    SelectedActions(log, keep);
    TimesAreTotal(Elems(rows));
    SortSorts(Older(), rows);
    ReverseIsAscending(newest);
    TimesAreTotal(Elems(Sort(Older(), rows)));
    AscendingUnique(Older(), Sort(Older(), rows), Reverse(newest));
  }

  lemma {:induction false} ReplayLast(s: Sanctions, actions: seq<Action>, last: Action)
    ensures Replay(s, actions + [last]) == Apply(Replay(s, actions), last)
    decreases actions
  {
    if actions == [] {
      assert [last][1..] == [];
    } else {
      assert (actions + [last])[1..] == actions[1..] + [last];
      ReplayLast(Apply(s, actions[0]), actions[1..], last);
    }
  }

  /** Replaying forwards finds what searching backwards finds. */
  lemma {:induction false} ReplayIsBackwardSearch(newest: seq<Action>)
    ensures var s := Replay(CLEAN, Reverse(newest));
      var b := Find(newest, (a: Action) => IsBanOrUnban(a));
      var t := Find(newest, (a: Action) => a.kind == Timeout);
      && s.bannedBy == (if b.Some? && b.value.kind == Ban then Some(b.value.moderatorUserName) else None)
      && s.timeout == (if t.Some? then Some((t.value.expiresAt, t.value.moderatorUserName)) else None)
  {
    if newest != [] {
      ReplayIsBackwardSearch(newest[1..]);
      ReplayLast(CLEAN, Reverse(newest[1..]), newest[0]);
    }
  }

  lemma {:induction false} AscendingWhere(less: Order<Action>, s: seq<Action>, keep: Action -> bool)
    requires Ascending(less, s)
    ensures Ascending(less, Where(s, keep))
  {
    if s != [] {
      AscendingWhere(less, s[1..], keep);
      var rest := Where(s[1..], keep);
      if keep(s[0]) {
        assert ([s[0]] + rest)[1..] == rest;
      } else {
        assert Where(s, keep) == rest;
      }
    }
  }

  /** Narrowing the WHERE clause narrows the listing. */
  lemma NarrowedQuery(log: Log, wide: Action -> bool, narrow: Action -> bool, extra: Action -> bool)
    requires DistinctAmong(log, wide) && forall a :: narrow(a) <==> wide(a) && extra(a)
    ensures NewestFirst(log, narrow) == Where(NewestFirst(log, wide), extra)
  {
    QueryIsSorted(log, wide);
    QueryIsSorted(log, narrow);
    AscendingWhere(Newer(), NewestFirst(log, wide), extra);
    AscendingUnique(Newer(), NewestFirst(log, narrow), Where(NewestFirst(log, wide), extra));
  }

  lemma FirstIsFound(s: seq<Action>, keep: Action -> bool)
    ensures var rows := Where(s, keep);
      (if rows == [] then None else Some(rows[0])) == Find(s, keep)
    decreases s
  {
  }

  /** Both lookups agree with the forward replay at every moment. */
  lemma LookupsAreReplay(log: Log, userId: string, roomId: string, now: int)
    requires DistinctTimes(log, userId, roomId)
    ensures var s := SanctionsOf(log, userId, roomId);
      && (IsUserBanned(log, userId, roomId) <==> s.bannedBy.Some?)
      && TimedOutUntil(log, userId, roomId, now) == ReplayedState(0, s, now).timedOutUntil
  {
    var newest := ActionsOf(log, userId, roomId);
    var wide := (a: Action) => Concerns(a, userId, roomId);
    var timeout := (a: Action) => a.kind == Timeout;
    ChronicleIsReversed(log, userId, roomId);
    ReplayIsBackwardSearch(newest);
    NarrowedQuery(log, wide, (a: Action) => IsTimeoutOf(a, userId, roomId), timeout);
    FirstIsFound(newest, timeout);
  }

  // ---------------------------------------------------------------- the room state

  /** The moderator of the newest action of a kind. */
  function NewestModerator(rows: seq<Action>, kind: Kind): Option<string> {
    var f := Find(rows, (a: Action) => a.kind == kind);
    if f.Some? then Some(f.value.moderatorUserName) else None
  }

  lemma {:induction false} FindLast(rows: seq<Action>, last: Action, kind: Kind)
    ensures NewestModerator(rows + [last], kind) ==
      if NewestModerator(rows, kind).Some? then NewestModerator(rows, kind)
      else if last.kind == kind then Some(last.moderatorUserName) else None
  {
    if rows != [] {
      assert (rows + [last])[0] == rows[0] && (rows + [last])[1..] == rows[1..] + [last];
      FindLast(rows[1..], last, kind);
    } else {
      assert (rows + [last])[1..] == [];
    }
  }

  lemma {:induction false} FindPrefix(rows: seq<Action>, k: nat, kind: Kind)
    requires k <= |rows| && NewestModerator(rows[..k], kind).Some?
    ensures NewestModerator(rows, kind) == NewestModerator(rows[..k], kind)
  {
    if rows[0].kind != kind {
      assert rows[..k][1..] == rows[1..][..k - 1];
      FindPrefix(rows[1..], k - 1, kind);
    }
  }

  /** The loop over the recent actions, which stops once both names are known. */
  method ModeratorNames(recent: seq<Action>) returns (ban: Option<string>, timeout: Option<string>)
    ensures ban == NewestModerator(recent, Ban) && timeout == NewestModerator(recent, Timeout)
  {
    ban, timeout := None, None;
    for i := 0 to |recent|
      invariant ban == NewestModerator(recent[..i], Ban) && timeout == NewestModerator(recent[..i], Timeout)
    {
      var row := recent[i];
      assert recent[..i + 1] == recent[..i] + [row];
      FindLast(recent[..i], row, Ban);
      FindLast(recent[..i], row, Timeout);
      if row.kind == Ban && ban.None? {
        ban := Some(row.moderatorUserName);
      }
      if row.kind == Timeout && timeout.None? {
        timeout := Some(row.moderatorUserName);
      }
      if ban.Some? && timeout.Some? {
        FindPrefix(recent, i + 1, Ban);
        FindPrefix(recent, i + 1, Timeout);
        return;
      }
    }
    assert recent[..|recent|] == recent;
  }

  lemma {:induction false} BanIsNewestBan(newest: seq<Action>)
    requires var f := Find(newest, (a: Action) => IsBanOrUnban(a)); f.Some? && f.value.kind == Ban
    ensures Find(newest, (a: Action) => a.kind == Ban) == Find(newest, (a: Action) => IsBanOrUnban(a))
  {
    if !IsBanOrUnban(newest[0]) {
      BanIsNewestBan(newest[1..]);
    }
  }

  /** Among the actions fetched for the names, the newest of a kind in force is the one that put it in force. */
  lemma RecentNames(log: Log, userId: string, roomId: string, now: int, recent: seq<Action>)
    requires DistinctTimes(log, userId, roomId)
    requires recent == NewestFirst(log, (a: Action) => Concerns(a, userId, roomId)
      && ((IsUserBanned(log, userId, roomId) && a.kind == Ban)
          || (TimedOutUntil(log, userId, roomId, now).Some? && a.kind == Timeout)))
    ensures var s := SanctionsOf(log, userId, roomId);
      && (s.bannedBy.Some? ==> NewestModerator(recent, Ban) == s.bannedBy)
      && (TimedOutUntil(log, userId, roomId, now).Some? ==>
            s.timeout.Some? && NewestModerator(recent, Timeout) == Some(s.timeout.value.1))
  {
    var banned, timedOut := IsUserBanned(log, userId, roomId), TimedOutUntil(log, userId, roomId, now).Some?;
    var newest := ActionsOf(log, userId, roomId);
    var wide := (a: Action) => Concerns(a, userId, roomId);
    var extra := (a: Action) => (banned && a.kind == Ban) || (timedOut && a.kind == Timeout);
    var narrow := (a: Action) => Concerns(a, userId, roomId)
      && ((banned && a.kind == Ban) || (timedOut && a.kind == Timeout));
    NarrowedQuery(log, wide, narrow, extra);
    ChronicleIsReversed(log, userId, roomId);
    ReplayIsBackwardSearch(newest);
    LookupsAreReplay(log, userId, roomId, now);
    if banned {
      FindInWhere(newest, extra, (a: Action) => a.kind == Ban);
      BanIsNewestBan(newest);
    }
    if timedOut {
      FindInWhere(newest, extra, (a: Action) => a.kind == Timeout);
    }
  }

  /** The newest ban or unban of the user in the room. */
  ghost predicate IsNewestVerdict(log: Log, a: Action, userId: string, roomId: string) {
    && a.targetUserId == userId && a.roomId == roomId && (a.kind == Ban || a.kind == Unban)
    && forall b :: b in log && b.targetUserId == userId && b.roomId == roomId && (b.kind == Ban || b.kind == Unban) ==>
      b.createdAt <= a.createdAt
  }

  ghost predicate IsBanInForce(log: Log, a: Action, userId: string, roomId: string) {
    a in log && a.kind == Ban && IsNewestVerdict(log, a, userId, roomId)
  }

  /** The ban a user is told: the newest ban or unban, if it is a ban, with its moderator. */
  ghost predicate BanIs(log: Log, userId: string, roomId: string, banned: bool, moderator: Option<string>) {
    if moderator.None? then !banned && !exists a :: IsBanInForce(log, a, userId, roomId)
    else banned && exists a :: IsBanInForce(log, a, userId, roomId) && moderator == Some(a.moderatorUserName)
  }

  ghost predicate IsNewestTimeout(log: Log, a: Action, userId: string, roomId: string) {
    && a.targetUserId == userId && a.roomId == roomId && a.kind == Timeout
    && forall b :: b in log && b.targetUserId == userId && b.roomId == roomId && b.kind == Timeout ==>
      b.createdAt <= a.createdAt
  }

  ghost predicate RunsNewest(log: Log, a: Action, userId: string, roomId: string, now: int) {
    a in log && IsNewestTimeout(log, a, userId, roomId) && a.expiresAt.Some? && a.expiresAt.value > now
  }

  /** The timeout a user is told: the newest one, if it still runs, with its end and its moderator. */
  ghost predicate TimeoutIs(
      log: Log, userId: string, roomId: string, now: int, timedOut: bool, until: Option<int>, moderator: Option<string>)
  {
    if until.None? then !timedOut && moderator.None? && !exists a :: RunsNewest(log, a, userId, roomId, now)
    else timedOut && exists a ::
      RunsNewest(log, a, userId, roomId, now) && until == a.expiresAt && moderator == Some(a.moderatorUserName)
  }

  lemma {:induction false} FoundIsNewest(newest: seq<Action>, p: Action -> bool)
    requires Ascending(Newer(), newest)
    ensures var f := Find(newest, p);
      f.Some? ==> forall b :: b in newest && p(b) ==> b.createdAt <= f.value.createdAt
  {
    if newest != [] {
      assert forall b :: b in newest <==> b == newest[0] || b in newest[1..];
      if !p(newest[0]) {
        FoundIsNewest(newest[1..], p);
      }
    }
  }

  lemma SameTimeSameAction(log: Log, keep: Action -> bool, a: Action, b: Action)
    requires DistinctAmong(log, keep) && a in log && b in log && keep(a) && keep(b)
    requires a.createdAt <= b.createdAt <= a.createdAt
    ensures a == b
  {
    SelectedActions(log, keep);
  }

  /** A user is banned exactly when some ban has no newer ban or unban after it. */
  lemma BannedExactly(log: Log, userId: string, roomId: string)
    requires DistinctTimes(log, userId, roomId)
    ensures IsUserBanned(log, userId, roomId) <==> exists a :: IsBanInForce(log, a, userId, roomId)
  {
    var newest := ActionsOf(log, userId, roomId);
    var concerned, verdict := (a: Action) => Concerns(a, userId, roomId), (a: Action) => IsBanOrUnban(a);
    QueryIsSorted(log, concerned);
    FoundIsNewest(newest, verdict);
    if IsUserBanned(log, userId, roomId) {
      assert IsBanInForce(log, Find(newest, verdict).value, userId, roomId);
    }
    if a :| IsBanInForce(log, a, userId, roomId) {
      assert a in newest && verdict(a);
      SameTimeSameAction(log, concerned, a, Find(newest, verdict).value);
    }
  }

  lemma ReplayedBan(log: Log, userId: string, roomId: string)
    requires DistinctTimes(log, userId, roomId)
    ensures var s := SanctionsOf(log, userId, roomId); BanIs(log, userId, roomId, s.bannedBy.Some?, s.bannedBy)
  {
    var newest := ActionsOf(log, userId, roomId);
    var verdict := (a: Action) => IsBanOrUnban(a);
    ChronicleIsReversed(log, userId, roomId);
    ReplayIsBackwardSearch(newest);
    QueryIsSorted(log, (a: Action) => Concerns(a, userId, roomId));
    FoundIsNewest(newest, verdict);
    BannedExactly(log, userId, roomId);
    LookupsAreReplay(log, userId, roomId, 0);
    if SanctionsOf(log, userId, roomId).bannedBy.Some? {
      assert IsBanInForce(log, Find(newest, verdict).value, userId, roomId);
    }
  }

  /** A user counts as timed out exactly when a running timeout has no newer timeout after it. */
  lemma TimedOutExactly(log: Log, userId: string, roomId: string, now: int)
    requires DistinctTimes(log, userId, roomId)
    ensures TimedOutUntil(log, userId, roomId, now).Some? <==>
      exists a :: a in log && IsNewestTimeout(log, a, userId, roomId) && a.expiresAt.Some? && a.expiresAt.value > now
  {
    var keep := (a: Action) => IsTimeoutOf(a, userId, roomId);
    var rows := NewestFirst(log, keep);
    QueryIsSorted(log, keep);
    if rows != [] {
      assert rows[0] in rows && forall b :: b in rows <==> b == rows[0] || b in rows[1..];
      SelectedActions(log, keep);
    }
  }

  lemma ReplayedTimeout(log: Log, userId: string, roomId: string, now: int)
    requires DistinctTimes(log, userId, roomId)
    ensures var st := ReplayedState(0, SanctionsOf(log, userId, roomId), now);
      TimeoutIs(log, userId, roomId, now, st.isTimedOut, st.timedOutUntil, st.timeoutModeratorUserName)
  {
    var newest := ActionsOf(log, userId, roomId);
    var timeout := (a: Action) => a.kind == Timeout;
    ChronicleIsReversed(log, userId, roomId);
    ReplayIsBackwardSearch(newest);
    QueryIsSorted(log, (a: Action) => Concerns(a, userId, roomId));
    FoundIsNewest(newest, timeout);
    LookupsAreReplay(log, userId, roomId, now);
    TimedOutExactly(log, userId, roomId, now);
    if ReplayedState(0, SanctionsOf(log, userId, roomId), now).isTimedOut {
      assert RunsNewest(log, Find(newest, timeout).value, userId, roomId, now);
    }
  }

  /** The room state that a replay calls for, in terms of the log alone. */
  lemma ReplayedStateExactly(slowModeSeconds: int, log: Log, userId: string, roomId: string, now: int)
    requires DistinctTimes(log, userId, roomId)
    ensures var st := ReplayedState(slowModeSeconds, SanctionsOf(log, userId, roomId), now);
      && st.slowModeSeconds == slowModeSeconds
      && BanIs(log, userId, roomId, st.isBanned, st.banModeratorUserName)
      && TimeoutIs(log, userId, roomId, now, st.isTimedOut, st.timedOutUntil, st.timeoutModeratorUserName)
  {
    ReplayedBan(log, userId, roomId);
    ReplayedTimeout(log, userId, roomId, now);
  }

  /**
   The state sent to a joining client: null for an unknown room, no sanctions for an anonymous
   caller, and otherwise what replaying the user's actions in order calls for, with the moderators
   of the very actions in force.
   */
  method GetRoomState(rooms: map<string, int>, log: Log, userId: Option<string>, roomId: string, now: int)
    returns (r: Option<RoomState>)
    requires userId.Some? ==> DistinctTimes(log, userId.value, roomId)
    ensures r ==
      if roomId !in rooms then None
      else if userId.None? || userId.value == "" then Some(RoomState(rooms[roomId], false, None, false, None, None))
      else Some(ReplayedState(rooms[roomId], SanctionsOf(log, userId.value, roomId), now))
    ensures r.Some? && userId.Some? && userId.value != "" ==>
      && r.value.slowModeSeconds == rooms[roomId]
      && BanIs(log, userId.value, roomId, r.value.isBanned, r.value.banModeratorUserName)
      && TimeoutIs(log, userId.value, roomId, now, r.value.isTimedOut, r.value.timedOutUntil,
            r.value.timeoutModeratorUserName)
  {
    if roomId !in rooms {
      return None;
    }
    if userId.None? || userId.value == "" {
      return Some(RoomState(rooms[roomId], false, None, false, None, None));
    }
    var user := userId.value;
    var banned := IsUserBanned(log, user, roomId);
    var until := TimedOutUntil(log, user, roomId, now);
    var banName, timeoutName: Option<string> := None, None;
    LookupsAreReplay(log, user, roomId, now);
    ReplayedStateExactly(rooms[roomId], log, user, roomId, now);
    if banned || until.Some? {
      var recent := NewestFirst(log, (a: Action) =>
        Concerns(a, user, roomId) && ((banned && a.kind == Ban) || (until.Some? && a.kind == Timeout)));
      banName, timeoutName := ModeratorNames(recent);
      RecentNames(log, user, roomId, now, recent);
    }
    return Some(RoomState(rooms[roomId], banned, if banned then banName else None,
                          until.Some?, until, if until.Some? then timeoutName else None));
  }

  // ---------------------------------------------------------------- the newest timeout alone decides

  /** Some timeout of the user in the room has not expired at `now`. */
  ghost predicate SomeTimeoutRuns(log: Log, userId: string, roomId: string, now: int) {
    exists a :: a in log && a.targetUserId == userId && a.roomId == roomId && a.kind == Timeout
      && a.expiresAt.Some? && a.expiresAt.value > now
  }

  /** The newest timeout of the user in the room, if there is any timeout, expires last. */
  ghost predicate NewestLastsLongest(log: Log, userId: string, roomId: string) {
    forall a, b ::
      && a in log && b in log && a.targetUserId == userId && a.roomId == roomId && a.kind == Timeout
      && IsNewestTimeout(log, b, userId, roomId) ==>
      a.expiresAt.Some? ==> b.expiresAt.Some? && a.expiresAt.value <= b.expiresAt.value
  }

  lemma NewestTimeout(log: Log, userId: string, roomId: string) returns (b: Action)
    requires DistinctTimes(log, userId, roomId) && exists a :: a in log && IsTimeoutOf(a, userId, roomId)
    ensures b in log && IsNewestTimeout(log, b, userId, roomId)
  {
    var keep := (a: Action) => IsTimeoutOf(a, userId, roomId);
    var rows := NewestFirst(log, keep);
    QueryIsSorted(log, keep);
    b := rows[0];
    assert b in rows && forall a :: a in rows <==> a == b || a in rows[1..];
  }

  /** If the newest timeout lasts longest, a user with any running timeout counts as timed out. */
  lemma RunningIsTimedOut(log: Log, userId: string, roomId: string, now: int)
    requires DistinctTimes(log, userId, roomId) && NewestLastsLongest(log, userId, roomId)
    ensures TimedOutUntil(log, userId, roomId, now).Some? <==> SomeTimeoutRuns(log, userId, roomId, now)
  {
    TimedOutExactly(log, userId, roomId, now);
    if SomeTimeoutRuns(log, userId, roomId, now) {
      var b := NewestTimeout(log, userId, roomId);
    }
  }

  /** A timeout that runs just before its end is then in force, or a newer one that lasts as long. */
  lemma TimedOutUntilItsEnd(log: Log, userId: string, roomId: string, a: Action, b: Action)
    requires DistinctTimes(log, userId, roomId) && a in log && b in log
    requires IsTimeoutOf(a, userId, roomId) && IsNewestTimeout(log, b, userId, roomId) && a.expiresAt.Some?
    requires TimedOutUntil(log, userId, roomId, a.expiresAt.value - 1).Some?
    ensures b.expiresAt.Some? && a.expiresAt.value <= b.expiresAt.value
  {
    var now := a.expiresAt.value - 1;
    TimedOutExactly(log, userId, roomId, now);
    var c :| c in log && IsNewestTimeout(log, c, userId, roomId) && c.expiresAt.Some? && c.expiresAt.value > now;
    assert c.createdAt == b.createdAt;
  }

  /**
   The code counts a user as timed out whenever some timeout still runs, as documented, exactly when
   no timeout expires later than the newest one.
   */
  lemma TimeoutsAgreeExactly(log: Log, userId: string, roomId: string)
    requires DistinctTimes(log, userId, roomId)
    ensures (forall now :: TimedOutUntil(log, userId, roomId, now).Some? <==> SomeTimeoutRuns(log, userId, roomId, now))
      <==> NewestLastsLongest(log, userId, roomId)
  {
    if NewestLastsLongest(log, userId, roomId) {
      forall now
        ensures TimedOutUntil(log, userId, roomId, now).Some? <==> SomeTimeoutRuns(log, userId, roomId, now)
      {
        RunningIsTimedOut(log, userId, roomId, now);
      }
    }
    if forall now :: TimedOutUntil(log, userId, roomId, now).Some? <==> SomeTimeoutRuns(log, userId, roomId, now) {
      forall a, b | a in log && b in log && IsTimeoutOf(a, userId, roomId) && IsNewestTimeout(log, b, userId, roomId)
          && a.expiresAt.Some?
        ensures b.expiresAt.Some? && a.expiresAt.value <= b.expiresAt.value
      {
        assert SomeTimeoutRuns(log, userId, roomId, a.expiresAt.value - 1);
        TimedOutUntilItsEnd(log, userId, roomId, a, b);
      }
    }
  }

  /** A newer, already expired timeout hides an older one that still runs. */
  lemma NewerTimeoutHidesOlder()
    ensures var log := [Action("1", "r", "u", "m", Timeout, 1, Some(100)),
      Action("2", "r", "u", "m", Timeout, 2, Some(5))];
      DistinctTimes(log, "u", "r") && SomeTimeoutRuns(log, "u", "r", 10) && TimedOutUntil(log, "u", "r", 10) == None
  {
  }

  // ---------------------------------------------------------------- other rooms and other users

  lemma OtherActionIsFiltered(log: Log, a: Action, keep: Action -> bool)
    requires !keep(a)
    ensures NewestFirst(log + [a], keep) == NewestFirst(log, keep)
  {
    WhereConcat(log, [a], keep);
    WhereNone([a], keep);
    assert Where(log, keep) + [] == Where(log, keep);
  }

  /** Another room's or another user's action, whenever it happened, changes neither sanction. */
  lemma OtherActionsDoNotMatter(log: Log, other: Action, userId: string, roomId: string, now: int)
    requires other.targetUserId != userId || other.roomId != roomId
    ensures IsUserBanned(log + [other], userId, roomId) == IsUserBanned(log, userId, roomId)
    ensures TimedOutUntil(log + [other], userId, roomId, now) == TimedOutUntil(log, userId, roomId, now)
  {
    OtherActionIsFiltered(log, other, (a: Action) => Concerns(a, userId, roomId));
    OtherActionIsFiltered(log, other, (a: Action) => IsTimeoutOf(a, userId, roomId));
  }

  // ---------------------------------------------------------------- the room state, written out
}
