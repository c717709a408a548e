/**
 Emoji reactions to chat messages. The reactions table is a sequence of rows, unique by message,
 user and emoji; a JavaScript Map is its keys in insertion order together with a map of values.
 */
module Reactions {
  import opened Wrappers
  import opened Tables
  import Moderation

  datatype Reaction = Reaction(id: string, messageId: string, roomId: string, userId: string, emoji: string)

  datatype MessageReaction = MessageReaction(emoji: string, count: nat, reactedByMe: bool)

  /** What the mutations return: the users who reacted to a message with one emoji. */
  datatype EmojiState = EmojiState(count: nat, userIds: seq<string>)

  datatype Error = RoomNotFound | RoomClosed | MessageNotFound | UserBanned

  type Key = (string, string, string)

  function KeyOf(r: Reaction): Key {
    (r.messageId, r.userId, r.emoji)
  }

  ghost function Keys(rows: seq<Reaction>): set<Key> {
    set r | r in rows :: KeyOf(r)
  }

  /** The table's unique constraint. */
  ghost predicate UniqueKeys(rows: seq<Reaction>) {
    forall i, j :: 0 <= i < j < |rows| ==> KeyOf(rows[i]) != KeyOf(rows[j])
  }

  // ---------------------------------------------------------------- insert and delete

  /** INSERT ... ON CONFLICT DO NOTHING. */
  function Inserted(rows: seq<Reaction>, r: Reaction): seq<Reaction> {
    if exists x :: x in rows && KeyOf(x) == KeyOf(r) then rows else rows + [r]
  }

  function Deleted(rows: seq<Reaction>, key: Key): seq<Reaction> {
    Where(rows, (r: Reaction) => KeyOf(r) != key)
  }

  function Reacted(rows: seq<Reaction>, messageId: string, emoji: string): seq<Reaction> {
    Where(rows, (r: Reaction) => r.messageId == messageId && r.emoji == emoji)
  }

  function UserIds(rows: seq<Reaction>): (ids: seq<string>)
    ensures |ids| == |rows| && forall i :: 0 <= i < |rows| ==> ids[i] == rows[i].userId
  {
    seq(|rows|, i requires 0 <= i < |rows| => rows[i].userId)
  }

  /** The answer names, without repetition, exactly the users whose key for the emoji is in the table. */
  ghost predicate Describes(e: EmojiState, keys: set<Key>, messageId: string, emoji: string) {
    && e.count == |e.userIds|
    && (forall i, j :: 0 <= i < j < |e.userIds| ==> e.userIds[i] != e.userIds[j])
    && (forall u :: u in e.userIds <==> (messageId, u, emoji) in keys)
  }

  lemma InsertIsSetInsert(rows: seq<Reaction>, r: Reaction)
    requires UniqueKeys(rows)
    ensures UniqueKeys(Inserted(rows, r)) && Keys(Inserted(rows, r)) == Keys(rows) + {KeyOf(r)}
  {
  }

  lemma {:induction false} WhereKeepsUnique(rows: seq<Reaction>, keep: Reaction -> bool)
    requires UniqueKeys(rows)
    ensures UniqueKeys(Where(rows, keep))
  {
    if rows != [] {
      WhereKeepsUnique(rows[1..], keep);
      assert forall r :: r in rows[1..] ==> KeyOf(r) != KeyOf(rows[0]);
      var rest := Where(rows[1..], keep);
      assert forall i :: 0 <= i < |rest| ==> rest[i] in rest;
    }
  }

  lemma DeleteIsSetDelete(rows: seq<Reaction>, key: Key)
    requires UniqueKeys(rows)
    ensures UniqueKeys(Deleted(rows, key)) && Keys(Deleted(rows, key)) == Keys(rows) - {key}
  {
    WhereKeepsUnique(rows, (r: Reaction) => KeyOf(r) != key);
  }

  lemma DeletedIsFiltered(
      rows: seq<Reaction>, messageId: string, userId: string, emoji: string, keep: Reaction -> bool)
    requires forall x :: keep(x) <==> !(x.messageId == messageId && x.userId == userId && x.emoji == emoji)
    ensures Deleted(rows, (messageId, userId, emoji)) == Where(rows, keep)
  {
    WhereSame(rows, (r: Reaction) => KeyOf(r) != (messageId, userId, emoji), keep);
  }

  /** Reacting twice is reacting once, and removing a reaction just added restores the table row for row. */
  lemma AddIsIdempotentAndUndone(rows: seq<Reaction>, r: Reaction, again: Reaction)
    requires KeyOf(again) == KeyOf(r)
    ensures Inserted(Inserted(rows, r), again) == Inserted(rows, r)
    ensures KeyOf(r) !in Keys(rows) ==> Deleted(Inserted(rows, r), KeyOf(r)) == rows
    ensures Deleted(Deleted(rows, KeyOf(r)), KeyOf(r)) == Deleted(rows, KeyOf(r))
  {
    var keep := (x: Reaction) => KeyOf(x) != KeyOf(r);
    assert r in rows + [r];
    if KeyOf(r) !in Keys(rows) {
      assert forall x :: x in rows ==> KeyOf(x) in Keys(rows);
      assert Inserted(rows, r) == rows + [r];
      WhereConcat(rows, [r], keep);
      WhereAll(rows, keep);
      WhereNone([r], keep);
    }
    WhereAll(Deleted(rows, KeyOf(r)), keep);
  }

  lemma AnswerDescribes(rows: seq<Reaction>, messageId: string, emoji: string)
    requires UniqueKeys(rows)
    ensures var found := Reacted(rows, messageId, emoji);
      Describes(EmojiState(|found|, UserIds(found)), Keys(rows), messageId, emoji)
  {
    var found := Reacted(rows, messageId, emoji);
    var ids := UserIds(found);
    WhereKeepsUnique(rows, (r: Reaction) => r.messageId == messageId && r.emoji == emoji);
    assert forall i :: 0 <= i < |found| ==> found[i] in found;
    forall u
      ensures u in ids <==> (messageId, u, emoji) in Keys(rows)
    {
      if (messageId, u, emoji) in Keys(rows) {
        var r :| r in rows && KeyOf(r) == (messageId, u, emoji);
        var i :| 0 <= i < |found| && found[i] == r;
        assert ids[i] == u;
      }
    }
  }

  // ---------------------------------------------------------------- grouping

  /** The emojis in order of first use, and the users of each. */
  datatype Groups = Groups(order: seq<string>, users: map<string, seq<string>>)

  const NO_GROUPS := Groups([], map[])

  function AddTo(g: Groups, emoji: string, userId: string): Groups {
    if emoji in g.users then g.(users := g.users[emoji := g.users[emoji] + [userId]])
    else Groups(g.order + [emoji], g.users[emoji := [userId]])
  }

  function Group(rows: seq<Reaction>): Groups {
    if rows == [] then NO_GROUPS
    else
      var last := rows[|rows| - 1];
      AddTo(Group(rows[..|rows| - 1]), last.emoji, last.userId)
  }

  function ToMessageReaction(emoji: string, users: seq<string>, me: Option<string>): MessageReaction {
    MessageReaction(emoji, |users|, me.Some? && me.value in users)
  }

  /** The order lists exactly the keys of the map. */
  ghost predicate IsMap(g: Groups) {
    && (forall i, j :: 0 <= i < j < |g.order| ==> g.order[i] != g.order[j])
    && (forall e :: e in g.order <==> e in g.users)
  }

  lemma {:induction false} GroupIsMap(rows: seq<Reaction>)
    ensures IsMap(Group(rows))
  {
    if rows != [] {
      GroupIsMap(rows[..|rows| - 1]);
    }
  }

  function Summary(g: Groups, me: Option<string>): (s: seq<MessageReaction>)
    requires IsMap(g)
    ensures |s| == |g.order|
    ensures forall i :: 0 <= i < |s| ==> s[i] == ToMessageReaction(g.order[i], g.users[g.order[i]], me)
  {
    seq(|g.order|, i requires 0 <= i < |g.order| => ToMessageReaction(g.order[i], g.users[g.order[i]], me))
  }

  function WithEmoji(rows: seq<Reaction>, emoji: string): seq<Reaction> {
    Where(rows, (r: Reaction) => r.emoji == emoji)
  }

  /** A group holds the users of the rows with its emoji, in row order. */
  ghost predicate HoldsUsers(g: Groups, emoji: string, found: seq<Reaction>) {
    && (emoji in g.users <==> found != [])
    && (emoji in g.users ==> g.users[emoji] == UserIds(found))
  }

  lemma AddToHoldsUsers(g: Groups, emoji: string, found: seq<Reaction>, last: Reaction)
    requires HoldsUsers(g, emoji, found)
    ensures HoldsUsers(AddTo(g, last.emoji, last.userId), emoji, found + if last.emoji == emoji then [last] else [])
  {
  }

  lemma {:induction false} GroupUsers(rows: seq<Reaction>, emoji: string)
    ensures HoldsUsers(Group(rows), emoji, WithEmoji(rows, emoji))
  {
    if rows != [] {
      var k := |rows| - 1;
      GroupUsers(rows[..k], emoji);
      assert rows == rows[..k] + [rows[k]];
      WhereConcat(rows[..k], [rows[k]], (r: Reaction) => r.emoji == emoji);
      AddToHoldsUsers(Group(rows[..k]), emoji, WithEmoji(rows[..k], emoji), rows[k]);
    }
  }

  function Total(s: seq<MessageReaction>): nat {
    if s == [] then 0 else s[|s| - 1].count + Total(s[..|s| - 1])
  }

  function TotalUsers(g: Groups, n: nat): nat
    requires IsMap(g) && n <= |g.order|
  {
    if n == 0 then 0 else |g.users[g.order[n - 1]]| + TotalUsers(g, n - 1)
  }

  lemma {:induction false} TotalOfSummary(g: Groups, me: Option<string>, n: nat)
    requires IsMap(g) && n <= |g.order|
    ensures Total(Summary(g, me)[..n]) == TotalUsers(g, n)
  {
    if n > 0 {
      TotalOfSummary(g, me, n - 1);
      assert Summary(g, me)[..n][..n - 1] == Summary(g, me)[..n - 1];
    }
  }

  lemma AddToIsMap(g: Groups, emoji: string, userId: string)
    requires IsMap(g)
    ensures IsMap(AddTo(g, emoji, userId)) && g.order <= AddTo(g, emoji, userId).order
  {
  }

  lemma {:induction false} AddToCounts(g: Groups, emoji: string, userId: string, n: nat)
    requires IsMap(g) && IsMap(AddTo(g, emoji, userId)) && n <= |g.order| <= |AddTo(g, emoji, userId).order|
    ensures TotalUsers(AddTo(g, emoji, userId), n) == TotalUsers(g, n) + if emoji in g.order[..n] then 1 else 0
  {
    if n > 0 {
      AddToCounts(g, emoji, userId, n - 1);
      assert g.order[..n] == g.order[..n - 1] + [g.order[n - 1]];
      assert AddTo(g, emoji, userId).order[n - 1] == g.order[n - 1] && g.order[n - 1] in g.users;
      assert emoji in g.order[..n - 1] ==> g.order[n - 1] != emoji;
    }
  }

  /** One more user, in an old group or a new one. */
  lemma AddToTotal(g: Groups, emoji: string, userId: string)
    requires IsMap(g)
    ensures var g' := AddTo(g, emoji, userId);
      IsMap(g') && TotalUsers(g', |g'.order|) == TotalUsers(g, |g.order|) + 1
  {
    AddToIsMap(g, emoji, userId);
    AddToCounts(g, emoji, userId, |g.order|);
    assert g.order[..|g.order|] == g.order;
  }

  lemma {:induction false} GroupCountsRows(rows: seq<Reaction>)
    ensures IsMap(Group(rows)) && TotalUsers(Group(rows), |Group(rows).order|) == |rows|
  {
    if rows != [] {
      var last := rows[|rows| - 1];
      GroupCountsRows(rows[..|rows| - 1]);
      AddToTotal(Group(rows[..|rows| - 1]), last.emoji, last.userId);
    }
  }

  ghost predicate Uses(rows: seq<Reaction>, emoji: string) {
    exists r :: r in rows && r.emoji == emoji
  }

  ghost predicate Lists(s: seq<MessageReaction>, emoji: string) {
    exists m :: m in s && m.emoji == emoji
  }

  /** One line of a summary: a positive count of the rows with its emoji, and whether the asking user is among them. */
  ghost predicate IsExact(m: MessageReaction, rows: seq<Reaction>, me: Option<string>) {
    && m.count == |WithEmoji(rows, m.emoji)| > 0
    && (m.reactedByMe <==> me.Some? && exists r :: r in rows && r.emoji == m.emoji && r.userId == me.value)
  }

  lemma {:induction false} SummaryTotal(rows: seq<Reaction>, me: Option<string>)
    ensures IsMap(Group(rows)) && Total(Summary(Group(rows), me)) == |rows|
  {
    var g := Group(rows);
    GroupCountsRows(rows);
    TotalOfSummary(g, me, |g.order|);
    assert Summary(g, me)[..|g.order|] == Summary(g, me);
  }

  lemma MembershipInGroup(rows: seq<Reaction>, emoji: string, userId: string)
    ensures userId in UserIds(WithEmoji(rows, emoji))
      <==> exists r :: r in rows && r.emoji == emoji && r.userId == userId
  {
    var found := WithEmoji(rows, emoji);
    var ids := UserIds(found);
    if userId in ids {
      var i :| 0 <= i < |ids| && ids[i] == userId;
      assert found[i] in found;
    }
    if r :| r in rows && r.emoji == emoji && r.userId == userId {
      assert r in found;
      var i :| 0 <= i < |found| && found[i] == r;
      assert ids[i] == userId;
    }
  }

  lemma SummaryLine(rows: seq<Reaction>, me: Option<string>, i: nat)
    requires IsMap(Group(rows)) && i < |Summary(Group(rows), me)|
    ensures IsExact(Summary(Group(rows), me)[i], rows, me)
  {
    var g := Group(rows);
    assert g.order[i] in g.order;
    GroupUsers(rows, g.order[i]);
    if me.Some? {
      MembershipInGroup(rows, g.order[i], me.value);
    }
  }

  lemma EmojiInUse(rows: seq<Reaction>, emoji: string)
    ensures WithEmoji(rows, emoji) != [] <==> Uses(rows, emoji)
  {
    var found := WithEmoji(rows, emoji);
    if found != [] {
      assert found[0] in found;
    }
  }

  lemma SummaryLists(rows: seq<Reaction>, me: Option<string>, e: string)
    requires IsMap(Group(rows))
    ensures Uses(rows, e) <==> Lists(Summary(Group(rows), me), e)
  {
    var g := Group(rows);
    var s := Summary(g, me);
    GroupUsers(rows, e);
    EmojiInUse(rows, e);
    if e in g.order {
      var i :| 0 <= i < |g.order| && g.order[i] == e;
      assert s[i] in s && s[i].emoji == e;
    }
  }

  /**
   The per-emoji summary of a message's rows: every emoji in use appears once, with a positive
   count equal to its number of rows, `reactedByMe` is membership, and the counts add up to the rows.
   */
  lemma SummaryIsExact(rows: seq<Reaction>, me: Option<string>)
    ensures IsMap(Group(rows))
    ensures var s := Summary(Group(rows), me);
      && (forall i, j :: 0 <= i < j < |s| ==> s[i].emoji != s[j].emoji)
      && (forall e :: Uses(rows, e) <==> Lists(s, e))
      && (forall m :: m in s ==> IsExact(m, rows, me))
      && Total(s) == |rows|
  {
    SummaryTotal(rows, me);
    var s := Summary(Group(rows), me);
    forall i | 0 <= i < |s|
      ensures IsExact(s[i], rows, me)
    {
      SummaryLine(rows, me, i);
    }
    forall e
      ensures Uses(rows, e) <==> Lists(s, e)
    {
      SummaryLists(rows, me, e);
    }
  }

  /** The emoji first stands in row p. */
  ghost predicate FirstUsedAt(rows: seq<Reaction>, emoji: string, p: nat) {
    p < |rows| && rows[p].emoji == emoji && forall q :: 0 <= q < p ==> rows[q].emoji != emoji
  }

  lemma {:induction false} NotGroupedIsUnused(rows: seq<Reaction>, emoji: string)
    requires emoji !in Group(rows).users
    ensures forall r :: r in rows ==> r.emoji != emoji
  {
    GroupUsers(rows, emoji);
    EmojiInUse(rows, emoji);
  }

  lemma {:induction false} OrderIsUsed(rows: seq<Reaction>, i: nat) returns (p: nat)
    requires i < |Group(rows).order|
    ensures FirstUsedAt(rows, Group(rows).order[i], p)
  {
    var k := |rows| - 1;
    GroupIsMap(rows[..k]);
    if i < |Group(rows[..k]).order| {
      p := OrderIsUsed(rows[..k], i);
    } else {
      p := k;
      NotGroupedIsUnused(rows[..k], rows[k].emoji);
    }
  }

  /** The lines of a summary stand in the order in which their emojis were first used. */
  lemma {:induction false} SummaryIsInOrder(rows: seq<Reaction>, i: nat, j: nat) returns (p: nat, q: nat)
    requires i < j < |Group(rows).order|
    ensures p < q && FirstUsedAt(rows, Group(rows).order[i], p) && FirstUsedAt(rows, Group(rows).order[j], q)
  {
    var k := |rows| - 1;
    var before := Group(rows[..k]);
    GroupIsMap(rows[..k]);
    if j < |before.order| {
      p, q := SummaryIsInOrder(rows[..k], i, j);
    } else {
      p := OrderIsUsed(rows[..k], i);
      q := k;
      NotGroupedIsUnused(rows[..k], rows[k].emoji);
    }
  }

  // ---------------------------------------------------------------- the service

  function RowsOf(rows: seq<Reaction>, messageId: string): seq<Reaction> {
    Where(rows, (r: Reaction) => r.messageId == messageId)
  }

  method GroupRows(rows: seq<Reaction>) returns (grouped: Groups)
    ensures grouped == Group(rows)
  {
    grouped := NO_GROUPS;
    for i := 0 to |rows|
      invariant grouped == Group(rows[..i])
    {
      assert rows[..i + 1][..i] == rows[..i];
      grouped := AddTo(grouped, rows[i].emoji, rows[i].userId);
    }
    assert rows[..|rows|] == rows;
  }

  /** Every message seen so far has the groups of its own rows. */
  ghost predicate ByMessage(rows: seq<Reaction>, byMessage: map<string, Groups>) {
    forall m :: (m in byMessage <==> RowsOf(rows, m) != [])
      && (m in byMessage ==> byMessage[m] == Group(RowsOf(rows, m)))
  }

  lemma RowsOfMore(rows: seq<Reaction>, row: Reaction, m: string)
    ensures RowsOf(rows + [row], m) == if row.messageId == m then RowsOf(rows, m) + [row] else RowsOf(rows, m)
  {
    WhereConcat(rows, [row], (r: Reaction) => r.messageId == m);
    assert RowsOf([row], m) == if row.messageId == m then [row] else [];
  }

  lemma ByMessageStep(rows: seq<Reaction>, row: Reaction, byMessage: map<string, Groups>)
    requires ByMessage(rows, byMessage)
    ensures var g := if row.messageId in byMessage then byMessage[row.messageId] else NO_GROUPS;
      ByMessage(rows + [row], byMessage[row.messageId := AddTo(g, row.emoji, row.userId)])
  {
    var g := if row.messageId in byMessage then byMessage[row.messageId] else NO_GROUPS;
    var next := byMessage[row.messageId := AddTo(g, row.emoji, row.userId)];
    forall m
      ensures (m in next <==> RowsOf(rows + [row], m) != [])
        && (m in next ==> next[m] == Group(RowsOf(rows + [row], m)))
    {
      var own := RowsOf(rows, m);
      RowsOfMore(rows, row, m);
      assert (own + [row])[..|own|] == own;
    }
  }

  method GroupByMessage(rows: seq<Reaction>) returns (byMessage: map<string, Groups>)
    ensures ByMessage(rows, byMessage)
  {
    byMessage := map[];
    for i := 0 to |rows|
      invariant ByMessage(rows[..i], byMessage)
    {
      var row := rows[i];
      ByMessageStep(rows[..i], row, byMessage);
      assert rows[..i + 1] == rows[..i] + [row];
      var msgMap := if row.messageId in byMessage then byMessage[row.messageId] else NO_GROUPS;
      byMessage := byMessage[row.messageId := AddTo(msgMap, row.emoji, row.userId)];
    }
    assert rows[..|rows|] == rows;
  }

  method Emit(g: Groups, me: Option<string>) returns (s: seq<MessageReaction>)
    requires IsMap(g)
    ensures s == Summary(g, me)
  {
    s := [];
    for i := 0 to |g.order|
      invariant s == Summary(g, me)[..i]
    {
      assert g.order[i] in g.order;
      s := s + [ToMessageReaction(g.order[i], g.users[g.order[i]], me)];
    }
  }

  method EmitAll(byMessage: map<string, Groups>, me: Option<string>) returns (result: map<string, seq<MessageReaction>>)
    requires forall m :: m in byMessage ==> IsMap(byMessage[m])
    ensures result.Keys == byMessage.Keys
    ensures forall m :: m in result ==> IsMap(byMessage[m]) && result[m] == Summary(byMessage[m], me)
  {
    result := map[];
    var todo := byMessage.Keys;
    while todo != {}
      invariant todo <= byMessage.Keys && result.Keys == byMessage.Keys - todo
      invariant forall m :: m in result ==> IsMap(byMessage[m]) && result[m] == Summary(byMessage[m], me)
    {
      var m :| m in todo;
      todo := todo - {m};
      var emitted := Emit(byMessage[m], me);
      result := result[m := emitted];
    }
  }

  lemma RowsOfRequested(rows: seq<Reaction>, ids: seq<string>, m: string)
    ensures RowsOf(Where(rows, (r: Reaction) => r.messageId in ids), m) == if m in ids then RowsOf(rows, m) else []
  {
    var p, q := (r: Reaction) => r.messageId in ids, (r: Reaction) => r.messageId == m;
    if m in ids {
      WhereTwice(rows, p, q, q);
    } else {
      WhereNone(Where(rows, p), q);
    }
  }

  /** The reactions table with the tables it consults. `rooms` says whether a room is closed. */
  class ReactionService {
    var reactions: seq<Reaction>
    var rooms: map<string, bool>
    var messages: map<string, string>
    var moderation: Moderation.Log

    constructor (rooms: map<string, bool>, messages: map<string, string>, moderation: Moderation.Log)
      ensures reactions == [] && this.rooms == rooms && this.messages == messages && this.moderation == moderation
    {
      reactions := [];
      this.rooms, this.messages, this.moderation := rooms, messages, moderation;
    }

    method AddReaction(newId: string, messageId: string, roomId: string, userId: string, emoji: string)
      returns (r: Result<EmojiState, Error>)
      requires UniqueKeys(reactions)
      modifies this`reactions
      ensures UniqueKeys(reactions)
      ensures r.Err? <==>
        || roomId !in rooms || rooms[roomId] || messageId !in messages || messages[messageId] != roomId
        || Moderation.IsUserBanned(moderation, userId, roomId)
      ensures r.Err? ==> reactions == old(reactions)
      ensures r.Err? ==>
        r.error ==
        if roomId !in rooms then RoomNotFound
        else if rooms[roomId] then RoomClosed
        else if messageId !in messages || messages[messageId] != roomId then MessageNotFound
        else UserBanned
      ensures r.Ok? ==>
        && (reactions ==
            if exists x :: x in old(reactions) && x.messageId == messageId && x.userId == userId && x.emoji == emoji
            then old(reactions) else old(reactions) + [Reaction(newId, messageId, roomId, userId, emoji)])
        && Keys(reactions) == Keys(old(reactions)) + {(messageId, userId, emoji)}
        && Describes(r.value, Keys(reactions), messageId, emoji)
    {
      if roomId !in rooms {
        return Err(RoomNotFound);
      }
      if rooms[roomId] {
        return Err(RoomClosed);
      }
      if messageId !in messages || messages[messageId] != roomId {
        return Err(MessageNotFound);
      }
      if Moderation.IsUserBanned(moderation, userId, roomId) {
        return Err(UserBanned);
      }
      var row := Reaction(newId, messageId, roomId, userId, emoji);
      InsertIsSetInsert(reactions, row);
      reactions := Inserted(reactions, row);
      AnswerDescribes(reactions, messageId, emoji);
      var rows := Reacted(reactions, messageId, emoji);
      return Ok(EmojiState(|rows|, UserIds(rows)));
    }

    method RemoveReaction(messageId: string, roomId: string, userId: string, emoji: string)
      returns (r: Result<EmojiState, Error>)
      requires UniqueKeys(reactions)
      modifies this`reactions
      ensures UniqueKeys(reactions)
      ensures r.Err? <==> roomId !in rooms
      ensures r.Err? ==> reactions == old(reactions) && r.error == RoomNotFound
      ensures r.Ok? ==>
        && reactions == Where(old(reactions),
             (x: Reaction) => !(x.messageId == messageId && x.userId == userId && x.emoji == emoji))
        && Keys(reactions) == Keys(old(reactions)) - {(messageId, userId, emoji)}
        && Describes(r.value, Keys(reactions), messageId, emoji)
    {
      if roomId !in rooms {
        return Err(RoomNotFound);
      }
      DeleteIsSetDelete(reactions, (messageId, userId, emoji));
      DeletedIsFiltered(reactions, messageId, userId, emoji,
        (x: Reaction) => !(x.messageId == messageId && x.userId == userId && x.emoji == emoji));
      reactions := Deleted(reactions, (messageId, userId, emoji));
      AnswerDescribes(reactions, messageId, emoji);
      var rows := Reacted(reactions, messageId, emoji);
      return Ok(EmojiState(|rows|, UserIds(rows)));
    }

    method GetReactionsForMessage(messageId: string, me: Option<string>) returns (s: seq<MessageReaction>)
      ensures IsMap(Group(RowsOf(reactions, messageId)))
      ensures s == Summary(Group(RowsOf(reactions, messageId)), me)
    {
      var grouped := GroupRows(RowsOf(reactions, messageId));
      GroupIsMap(RowsOf(reactions, messageId));
      s := Emit(grouped, me);
    }

    /**
     The batch answers, for exactly those requested messages that have reactions, what the query for
     the single message answers.
     */
    method GetReactionsBatch(
        messageIds: seq<string>, me: Option<string>)
      returns (result: map<string, seq<MessageReaction>>)
      ensures forall m :: m in result <==> m in messageIds && RowsOf(reactions, m) != []
      ensures forall m :: m in result ==>
        IsMap(Group(RowsOf(reactions, m))) && result[m] == Summary(Group(RowsOf(reactions, m)), me)
    {
      if |messageIds| == 0 {
        return map[];
      }
      var rows := Where(reactions, (r: Reaction) => r.messageId in messageIds);
      var byMessage := GroupByMessage(rows);
      forall m
        ensures m in byMessage <==> m in messageIds && RowsOf(reactions, m) != []
        ensures m in byMessage ==> IsMap(byMessage[m]) && byMessage[m] == Group(RowsOf(reactions, m))
      {
        RowsOfRequested(reactions, messageIds, m);
        GroupIsMap(RowsOf(reactions, m));
      }
      result := EmitAll(byMessage, me);
    }
  }
}
