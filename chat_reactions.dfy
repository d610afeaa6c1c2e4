/** Reactions to chat messages (the reaction part of `ActivityChatService`):
    the reaction table, the toggle rule, the per-message counts the service
    collects from the grouped count query, and the four-entry summary shown
    under each message.

    The table is a map keyed by (message, user), so each user has at most
    one reaction on a message by construction. */
module ChatReactions {
  import opened Common
  import opened Users
  import opened ReactionTypes

  type MessageId = nat

  /** A stored reaction (`ActivityMessageReaction`): its type and when it
      was last set. */
  datatype Reaction = Reaction(kind: ReactionType, reactedAt: DateTime)

  type ReactionTable = map<(MessageId, UserId), Reaction>

  /** The number of users whose reaction on `m` is of type `t`. */
  function ReactionCount(reactions: ReactionTable, m: MessageId, t: ReactionType): nat {
    |Reactors(reactions, m, t)|
  }

  /** The (message, user) keys of the reactions of type `t` on `m`. */
  function Reactors(reactions: ReactionTable, m: MessageId, t: ReactionType): set<(MessageId, UserId)> {
    set k | k in reactions && k.0 == m && reactions[k].kind == t
  }

  // ---------------------------------------------------------------------
  // Toggling

  /** The toggle rule of `toggleReaction`: without a reaction one is added;
      the same type again removes it; another type replaces it. */
  function Toggle(existing: Option<Reaction>, kind: ReactionType, now: DateTime): (r: Option<Reaction>)
    ensures r.None? <==> existing.Some? && existing.value.kind == kind
    ensures r.Some? ==> r.value == Reaction(kind, now)
  {
    match existing
    case None => Some(Reaction(kind, now))
    case Some(e) => if e.kind == kind then None else Some(Reaction(kind, now))
  }

  /** The type of an optional reaction. */
  function KindOf(r: Option<Reaction>): Option<ReactionType> {
    match r
    case None => None
    case Some(x) => Some(x.kind)
  }

  /** Toggling the same type twice gives back the user's reaction type when
      they had none or had that type; from another type it ends with none. */
  lemma ToggleTwice(existing: Option<Reaction>, kind: ReactionType, now1: DateTime, now2: DateTime)
    ensures existing.None? || existing.value.kind == kind ==>
              KindOf(Toggle(Toggle(existing, kind, now1), kind, now2)) == KindOf(existing)
    ensures existing.Some? && existing.value.kind != kind ==>
              Toggle(Toggle(existing, kind, now1), kind, now2).None?
  {
  }

  /** The table after the user's reaction on the message became `r`. */
  function WithReaction(reactions: ReactionTable, key: (MessageId, UserId), r: Option<Reaction>): (t: ReactionTable)
    ensures key in t <==> r.Some?
    ensures r.Some? ==> t[key] == r.value
    ensures forall k :: k != key ==> (k in t <==> k in reactions) && (k in t ==> t[k] == reactions[k])
  {
    if r.None? then reactions - {key} else reactions[key := r.value]
  }

  /** Setting one user's reaction on a message changes that message's count
      of a type only by what the old and the new reaction contribute. */
  lemma CountAfterSet(reactions: ReactionTable, key: (MessageId, UserId), r: Option<Reaction>, kind: ReactionType)
    ensures ReactionCount(WithReaction(reactions, key, r), key.0, kind) +
            (if key in reactions && reactions[key].kind == kind then 1 else 0) ==
            ReactionCount(reactions, key.0, kind) + (if r.Some? && r.value.kind == kind then 1 else 0)
  {
    var before := Reactors(reactions, key.0, kind);
    var later := Reactors(WithReaction(reactions, key, r), key.0, kind);
    ReactorsAfterSet(reactions, key, r, kind);
    SizeWithout(before, key);
    SizeWithout(later, key);
  }

  lemma ReactorsAfterSet(reactions: ReactionTable, key: (MessageId, UserId), r: Option<Reaction>, kind: ReactionType)
    ensures var before := Reactors(reactions, key.0, kind);
            var later := Reactors(WithReaction(reactions, key, r), key.0, kind);
            later - {key} == before - {key} &&
            (key in before <==> key in reactions && reactions[key].kind == kind) &&
            (key in later <==> r.Some? && r.value.kind == kind)
  {
    var after := WithReaction(reactions, key, r);
    var before := Reactors(reactions, key.0, kind);
    var later := Reactors(after, key.0, kind);
    forall k
      ensures k in later - {key} <==> k in before - {key}
    {
      if k != key {
        assert k in after <==> k in reactions;
        assert k in after ==> after[k] == reactions[k];
      }
    }
  }

  /** Toggling one user's reaction changes that message's count of the
      toggled type by exactly one, down when the user had that type and up
      otherwise; a reaction of another type it replaces loses one. */
  lemma ToggleChangesCountByOne(reactions: ReactionTable, key: (MessageId, UserId), kind: ReactionType, now: DateTime)
    ensures var existing := if key in reactions then Some(reactions[key]) else None;
            var after := WithReaction(reactions, key, Toggle(existing, kind, now));
            if existing.Some? && existing.value.kind == kind
            then ReactionCount(after, key.0, kind) + 1 == ReactionCount(reactions, key.0, kind)
            else ReactionCount(after, key.0, kind) == ReactionCount(reactions, key.0, kind) + 1
  ensures var existing := if key in reactions then Some(reactions[key]) else None;
          var after := WithReaction(reactions, key, Toggle(existing, kind, now));
          existing.Some? && existing.value.kind != kind ==>
            ReactionCount(after, key.0, existing.value.kind) + 1 == ReactionCount(reactions, key.0, existing.value.kind)
  {
    var existing := if key in reactions then Some(reactions[key]) else None;
    CountAfterSet(reactions, key, Toggle(existing, kind, now), kind);
    if existing.Some? && existing.value.kind != kind {
      CountAfterSet(reactions, key, Toggle(existing, kind, now), existing.value.kind);
    }
  }

  /** Taking one element out of a set shrinks it by one exactly when the
      element was there. */
  lemma SizeWithout<T>(s: set<T>, x: T)
    ensures |s| == |s - {x}| + (if x in s then 1 else 0)
  {
    if x in s {
      assert s == (s - {x}) + {x};
    } else {
      assert s - {x} == s;
    }
  }

  // ---------------------------------------------------------------------
  // Counting

  /** One row of the grouped count query: a message, a type and how many
      reactions of that type the message has. */
  datatype CountRow = CountRow(messageId: MessageId, kind: ReactionType, total: nat)

  /** What the grouped count query promises: every row carries the true
      count, and every type a listed message has reactions of has a row. */
  ghost predicate IsGrouping(rows: seq<CountRow>, reactions: ReactionTable, ids: seq<MessageId>) {
    (forall j :: 0 <= j < |rows| ==> rows[j].total == ReactionCount(reactions, rows[j].messageId, rows[j].kind)) &&
    (forall m, t :: m in ids && ReactionCount(reactions, m, t) > 0 ==>
       exists j :: 0 <= j < |rows| && rows[j].messageId == m && rows[j].kind == t)
  }

  /** `getOrDefault(type, 0)`. */
  function CountOr0(counts: map<ReactionType, nat>, t: ReactionType): nat {
    if t in counts then counts[t] else 0
  }

  /** `buildReactionCountsByMessage`: an empty count map for every listed
      message, then each row of the count query filed under its message,
      rows for messages not listed being skipped. */
  method BuildReactionCountsByMessage(messageIds: seq<MessageId>, rows: seq<CountRow>)
    returns (result: map<MessageId, map<ReactionType, nat>>)
    ensures forall m :: m in result <==> m in messageIds
    ensures forall m, t :: m in result && t in result[m] ==>
              exists j :: 0 <= j < |rows| && rows[j].messageId == m && rows[j].kind == t && rows[j].total == result[m][t]
    ensures forall m, t :: m in result && t !in result[m] ==>
              forall j :: 0 <= j < |rows| ==> !(rows[j].messageId == m && rows[j].kind == t)
  {
    result := map[];
    for i := 0 to |messageIds|
      invariant forall m :: m in result <==> m in messageIds[..i]
      invariant forall m :: m in result ==> result[m] == map[]
    {
      result := result[messageIds[i] := map[]];
    }
    assert messageIds[..|messageIds|] == messageIds;
    for j := 0 to |rows|
      invariant forall m :: m in result <==> m in messageIds
      invariant forall m, t :: m in result && t in result[m] ==>
                  exists i :: 0 <= i < j && rows[i].messageId == m && rows[i].kind == t && rows[i].total == result[m][t]
      invariant forall m, t :: m in result && t !in result[m] ==>
                  forall i :: 0 <= i < j ==> !(rows[i].messageId == m && rows[i].kind == t)
    {
      var row := rows[j];
      if row.messageId in result {
        var counts: map<ReactionType, nat> := result[row.messageId][row.kind := row.total];
        result := result[row.messageId := counts];
      }
    }
  }

  /** Fed with the rows of the grouped count query, the counts are the true
      counts of the reaction table, zero included. */
  lemma CountsAreTrue(messageIds: seq<MessageId>, rows: seq<CountRow>, reactions: ReactionTable,
                      result: map<MessageId, map<ReactionType, nat>>, m: MessageId, t: ReactionType)
    requires IsGrouping(rows, reactions, messageIds)
    requires forall m :: m in result <==> m in messageIds
    requires forall m, t :: m in result && t in result[m] ==>
               exists j :: 0 <= j < |rows| && rows[j].messageId == m && rows[j].kind == t && rows[j].total == result[m][t]
    requires forall m, t :: m in result && t !in result[m] ==>
               forall j :: 0 <= j < |rows| ==> !(rows[j].messageId == m && rows[j].kind == t)
    requires m in messageIds
    ensures CountOr0(result[m], t) == ReactionCount(reactions, m, t)
  {
    if t in result[m] {
      var j :| 0 <= j < |rows| && rows[j].messageId == m && rows[j].kind == t && rows[j].total == result[m][t];
    }
  }

  /** The rows of one message, one per type it has reactions of. */
  function RowsFor(reactions: ReactionTable, m: MessageId): seq<CountRow> {
    RowIf(reactions, m, Like) + RowIf(reactions, m, Love) + RowIf(reactions, m, Laugh) + RowIf(reactions, m, Wow)
  }

  function RowIf(reactions: ReactionTable, m: MessageId, t: ReactionType): seq<CountRow> {
    var n := ReactionCount(reactions, m, t);
    if n > 0 then [CountRow(m, t, n)] else []
  }

  /** `countGroupedByMessageIds`: the grouped count query of the reaction
      table, message by message. */
  function CountQuery(reactions: ReactionTable, ids: seq<MessageId>): seq<CountRow> {
    if ids == [] then []
    else CountQuery(reactions, ids[..|ids| - 1]) + RowsFor(reactions, ids[|ids| - 1])
  }

  /** The count query meets its promise. */
  lemma CountQueryIsGrouping(reactions: ReactionTable, ids: seq<MessageId>)
    ensures IsGrouping(CountQuery(reactions, ids), reactions, ids)
  {
    CountQueryTotals(reactions, ids);
    forall m, t | m in ids && ReactionCount(reactions, m, t) > 0
      ensures var rows := CountQuery(reactions, ids);
              exists j :: 0 <= j < |rows| && rows[j].messageId == m && rows[j].kind == t
    {
      CountQueryCovers(reactions, ids, m, t);
    }
  }

  /** A row that carries the true count. */
  ghost predicate TrueTotal(reactions: ReactionTable, row: CountRow) {
    row.total == ReactionCount(reactions, row.messageId, row.kind)
  }

  lemma {:induction false} CountQueryTotals(reactions: ReactionTable, ids: seq<MessageId>)
    ensures forall j :: 0 <= j < |CountQuery(reactions, ids)| ==> TrueTotal(reactions, CountQuery(reactions, ids)[j])
    decreases |ids|
  {
    if ids != [] {
      var front := CountQuery(reactions, ids[..|ids| - 1]);
      var back := RowsFor(reactions, ids[|ids| - 1]);
      CountQueryTotals(reactions, ids[..|ids| - 1]);
      RowsForTotals(reactions, ids[|ids| - 1]);
      var rows := front + back;
      assert CountQuery(reactions, ids) == rows;
      forall j | 0 <= j < |rows|
        ensures TrueTotal(reactions, rows[j])
      {
        if j < |front| {
          assert rows[j] == front[j];
        } else {
          assert rows[j] == back[j - |front|];
        }
      }
    }
  }

  lemma {:induction false} CountQueryCovers(reactions: ReactionTable, ids: seq<MessageId>, m: MessageId, t: ReactionType)
    requires m in ids && ReactionCount(reactions, m, t) > 0
    ensures var rows := CountQuery(reactions, ids);
            exists j :: 0 <= j < |rows| && rows[j].messageId == m && rows[j].kind == t
    decreases |ids|
  {
    var prefix := ids[..|ids| - 1];
    var front := CountQuery(reactions, prefix);
    var back := RowsFor(reactions, ids[|ids| - 1]);
    var rows := front + back;
    assert CountQuery(reactions, ids) == rows;
    if m in prefix {
      CountQueryCovers(reactions, prefix, m, t);
      var j :| 0 <= j < |front| && front[j].messageId == m && front[j].kind == t;
      assert rows[j] == front[j];
    } else {
      assert m == ids[|ids| - 1];
      RowsForHas(reactions, m, t);
      var k :| 0 <= k < |back| && back[k] == CountRow(m, t, ReactionCount(reactions, m, t));
      assert rows[|front| + k] == back[k];
    }
  }

  /** Where the row of type `t` sits among the rows of a message. */
  function RowIndex(t: ReactionType): nat {
    match t
    case Like => 0
    case Love => 1
    case Laugh => 2
    case Wow => 3
  }

  lemma RowsForTotals(reactions: ReactionTable, m: MessageId)
    ensures forall k :: 0 <= k < |RowsFor(reactions, m)| ==> TrueTotal(reactions, RowsFor(reactions, m)[k])
  {
    var a := RowIf(reactions, m, Like);
    var b := RowIf(reactions, m, Love);
    var c := RowIf(reactions, m, Laugh);
    var d := RowIf(reactions, m, Wow);
    var rows := RowsFor(reactions, m);
    assert forall x :: x in rows ==> x in a || x in b || x in c || x in d;
  }

  lemma RowsForHas(reactions: ReactionTable, m: MessageId, t: ReactionType)
    requires ReactionCount(reactions, m, t) > 0
    ensures var rows := RowsFor(reactions, m);
            exists k :: 0 <= k < |rows| && rows[k] == CountRow(m, t, ReactionCount(reactions, m, t))
  {
    var a := RowIf(reactions, m, Like);
    var b := RowIf(reactions, m, Love);
    var c := RowIf(reactions, m, Laugh);
    var d := RowIf(reactions, m, Wow);
    var rows := RowsFor(reactions, m);
    assert rows == a + b + c + d;
    var row := CountRow(m, t, ReactionCount(reactions, m, t));
    match t
    case Like => assert rows[0] == row;
    case Love => assert rows[|a|] == row;
    case Laugh => assert rows[|a| + |b|] == row;
    case Wow => assert rows[|a| + |b| + |c|] == row;
  }

  // ---------------------------------------------------------------------
  // Summaries

  /** The grouped count query followed by `buildReactionCountsByMessage`:
      for each listed message, the true count of every type. */
  method CountReactionsByMessage(reactions: ReactionTable, ids: seq<MessageId>)
    returns (counts: map<MessageId, map<ReactionType, nat>>)
    ensures forall m :: m in counts <==> m in ids
    ensures forall m, t :: m in ids ==> CountOr0(counts[m], t) == ReactionCount(reactions, m, t)
  {
    var rows := CountQuery(reactions, ids);
    CountQueryIsGrouping(reactions, ids);
    counts := BuildReactionCountsByMessage(ids, rows);
    forall m, t | m in ids
      ensures CountOr0(counts[m], t) == ReactionCount(reactions, m, t)
    {
      CountsAreTrue(ids, rows, reactions, counts, m, t);
    }
  }

  /** One entry of the summary under a message. */
  datatype ReactionSummary = ReactionSummary(name: string, emoji: string, count: nat, reactedByCurrentUser: bool)

  /** `buildCurrentUserReactionsByMessage`: the user's reaction type on each
      listed message that they reacted to. */
  function CurrentUserReactions(reactions: ReactionTable, ids: seq<MessageId>, user: UserId)
    : (r: map<MessageId, ReactionType>)
    ensures forall m :: m in r <==> m in ids && (m, user) in reactions
    ensures forall m :: m in r ==> r[m] == reactions[(m, user)].kind
  {
    map m | m in ids && (m, user) in reactions :: reactions[(m, user)].kind
  }

  /** After a user toggles a reaction on a listed message, the map of their
      own reactions shows the toggled outcome on that message and is
      unchanged on every other message. */
  lemma {:induction false} CurrentReactionsAfterToggle(reactions: ReactionTable, ids: seq<MessageId>, user: UserId,
                                                       m: MessageId, kind: ReactionType, now: DateTime)
    ensures var existing := if (m, user) in reactions then Some(reactions[(m, user)]) else None;
            var toggled := Toggle(existing, kind, now);
            var before := CurrentUserReactions(reactions, ids, user);
            var after := CurrentUserReactions(WithReaction(reactions, (m, user), toggled), ids, user);
            (m in ids ==> (m in after <==> toggled.Some?) && (m in after ==> after[m] == kind)) &&
            (forall n :: n != m ==> (n in after <==> n in before) && (n in after ==> after[n] == before[n]))
  {
    var existing := if (m, user) in reactions then Some(reactions[(m, user)]) else None;
    var toggled := Toggle(existing, kind, now);
    var table := WithReaction(reactions, (m, user), toggled);
    forall n | n != m
      ensures (n, user) in table <==> (n, user) in reactions
      ensures (n, user) in table ==> table[(n, user)] == reactions[(n, user)]
    {
      assert (n, user) != (m, user);
    }
  }

  /** `buildReactionSummaryForMessage`: one entry per supported type, in the
      order LIKE, LOVE, LAUGH, WOW, with its count (0 when missing) and
      whether it is the current user's reaction. */
  function BuildReactionSummaryForMessage(m: MessageId, countsByMessage: map<MessageId, map<ReactionType, nat>>,
                                          currentByMessage: map<MessageId, ReactionType>)
    : (r: seq<ReactionSummary>)
    ensures |r| == |Declared| == 4
    ensures forall i :: 0 <= i < 4 ==> r[i].name == Name(Declared[i]) && r[i].emoji == Emoji(Declared[i])
    ensures forall i :: 0 <= i < 4 ==>
              r[i].count == (if m in countsByMessage then CountOr0(countsByMessage[m], Declared[i]) else 0)
    ensures forall i :: 0 <= i < 4 ==>
              (r[i].reactedByCurrentUser <==> m in currentByMessage && currentByMessage[m] == Declared[i])
  {
    var counts := if m in countsByMessage then countsByMessage[m] else map[];
    var current := if m in currentByMessage then Some(currentByMessage[m]) else None;
    seq(4, i requires 0 <= i < 4 =>
      ReactionSummary(Name(Declared[i]), Emoji(Declared[i]), CountOr0(counts, Declared[i]), current == Some(Declared[i])))
  }

  /** At most one entry of a summary is flagged as the current user's, and
      exactly one when the user reacted to the message. */
  lemma {:induction false} SummaryFlagsAtMostOne(m: MessageId, countsByMessage: map<MessageId, map<ReactionType, nat>>,
                                                 currentByMessage: map<MessageId, ReactionType>)
    ensures var r := BuildReactionSummaryForMessage(m, countsByMessage, currentByMessage);
            (forall i, j :: 0 <= i < 4 && 0 <= j < 4 && r[i].reactedByCurrentUser && r[j].reactedByCurrentUser ==> i == j) &&
            (m in currentByMessage <==> exists i :: 0 <= i < 4 && r[i].reactedByCurrentUser)
  {
    var r := BuildReactionSummaryForMessage(m, countsByMessage, currentByMessage);
    if m in currentByMessage {
      var i := RowIndex(currentByMessage[m]);
      assert Declared[i] == currentByMessage[m];
      assert r[i].reactedByCurrentUser;
    }
  }

  /** The summary of a message straight from the reaction table: one entry
      per supported type in declaration order, with its count and whether
      it is `current`. */
  function Summary(reactions: ReactionTable, m: MessageId, current: Option<ReactionType>): seq<ReactionSummary> {
    seq(4, i requires 0 <= i < 4 =>
      ReactionSummary(Name(Declared[i]), Emoji(Declared[i]), ReactionCount(reactions, m, Declared[i]),
                      current == Some(Declared[i])))
  }

  /** Built from true counts, `buildReactionSummaryForMessage` gives the
      summary of the reaction table. */
  lemma SummaryFromCounts(reactions: ReactionTable, m: MessageId, countsByMessage: map<MessageId, map<ReactionType, nat>>,
                          currentByMessage: map<MessageId, ReactionType>)
    requires m in countsByMessage
    requires forall t :: CountOr0(countsByMessage[m], t) == ReactionCount(reactions, m, t)
    ensures BuildReactionSummaryForMessage(m, countsByMessage, currentByMessage) ==
            Summary(reactions, m, if m in currentByMessage then Some(currentByMessage[m]) else None)
  {
  }
}
