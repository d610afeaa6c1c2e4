/** The activity chat (`ActivityChatService`): messages, delivery and seen
    acknowledgements, reactions, and the read models built from them.

    The message table is a sequence in insertion order whose ids are the
    positions; the service clock (a ghost field every operation advances to
    its `now`) never goes back, so insertion order is also the order by
    (createdAt, id) that the queries sort by.  The delivered table is a map
    keyed by (message, user) and the seen table a log in insertion order
    with at most one acknowledgement per (message, user), which makes the
    unique constraints structural. */
module Chat {
  import opened Common
  import opened Text
  import opened Users
  import opened Activities
  import opened Participation
  import opened ReactionTypes
  import opened ChatReactions

  const MaxHistoryLimit: int := 100
  const MaxContentLength: int := 1500

  /** A chat message (`ActivityMessage`). */
  datatype Message = Message(id: MessageId, activityId: ActivityId, senderId: UserId,
                             content: string, createdAt: DateTime)

  /** A seen acknowledgement (`ActivityMessageSeen`). */
  datatype Ack = Ack(messageId: MessageId, userId: UserId, at: DateTime)

  /** The counts `markDelivered` and `markSeen` report (`SeenUpdateEvent`). */
  datatype SeenUpdate = SeenUpdate(messageId: MessageId, deliveredCount: nat, seenCount: nat)

  /** One viewer of a message (`SeenUserResponse`, without the display name). */
  datatype SeenUser = SeenUser(userId: UserId, seenAt: DateTime)

  /** The viewers of one message (`MessageSeenSummaryResponse`). */
  datatype SeenSummary = SeenSummary(messageId: MessageId, viewers: seq<SeenUser>)

  /** A message as the history returns it (`ChatMessageResponse`, without the
      sender's display name). */
  datatype MessageResponse = MessageResponse(message: Message, deliveredCount: nat, seenCount: nat,
                                             reactions: seq<ReactionSummary>,
                                             currentUserReaction: Option<ReactionType>)

  /** What `toggleReaction` broadcasts (`MessageReactionUpdateEvent`). */
  datatype ReactionUpdate = ReactionUpdate(messageId: MessageId, reactions: seq<ReactionSummary>,
                                           actorId: UserId, actorReaction: Option<ReactionType>)

  // ---------------------------------------------------------------------
  // Content and history

  /** `normalizeContent`: null or blank content is a bad request, and so is
      content longer than 1500 characters once trimmed. */
  function NormalizeContent(content: Option<string>): (r: Result<string, Status>)
    ensures r.Ok? <==> !IsNullOrBlank(content) && |Trim(content.value)| <= MaxContentLength
    ensures r.Err? ==> r.error == BadRequest
    ensures r.Ok? ==> r.value == Trim(content.value) && r.value != [] && IsTrimmed(r.value)
  {
    if IsNullOrBlank(content) then Err(BadRequest)
    else
      var normalized := Trim(content.value);
      TrimEmptyIffBlank(content.value);
      if |normalized| > MaxContentLength then Err(BadRequest) else Ok(normalized)
  }

  /** Accepted content is stored in a form that is accepted again as is. */
  lemma NormalizeContentIdempotent(content: Option<string>)
    ensures NormalizeContent(content).Ok? ==>
              NormalizeContent(Some(NormalizeContent(content).value)) == NormalizeContent(content)
  {
    if NormalizeContent(content).Ok? {
      var r := NormalizeContent(content).value;
      TrimIdempotent(content.value);
      TrimEmptyIffBlank(r);
    }
  }

  /** The page size of `getRecentMessages`: the requested limit, clamped to
      the range 1 to 100. */
  function ClampLimit(requested: int): (r: int)
    ensures 1 <= r <= MaxHistoryLimit
    ensures 1 <= requested <= MaxHistoryLimit ==> r == requested
    ensures requested < 1 ==> r == 1
    ensures requested > MaxHistoryLimit ==> r == MaxHistoryLimit
  {
    if requested > MaxHistoryLimit then MaxHistoryLimit
    else if requested < 1 then 1
    else requested
  }

  /** The order the message queries sort by: creation time, then id. */
  predicate Before(x: Message, y: Message) {
    x.createdAt < y.createdAt || (x.createdAt == y.createdAt && x.id < y.id)
  }

  predicate Chronological(ms: seq<Message>) {
    forall i, j :: 0 <= i < j < |ms| ==> Before(ms[i], ms[j])
  }

  /** The messages of one activity, in table order. */
  function MessagesOf(ms: seq<Message>, a: ActivityId): (r: seq<Message>)
    ensures |r| <= |ms|
    ensures forall x :: x in r <==> x in ms && x.activityId == a
  {
    if ms == [] then []
    else
      var last := ms[|ms| - 1];
      MessagesOf(ms[..|ms| - 1], a) + (if last.activityId == a then [last] else [])
  }

  /** Keeping the messages of one activity keeps the order. */
  lemma {:induction false} MessagesOfChronological(ms: seq<Message>, a: ActivityId)
    requires Chronological(ms)
    ensures Chronological(MessagesOf(ms, a))
    decreases |ms|
  {
    if ms != [] {
      var prefix := ms[..|ms| - 1];
      var last := ms[|ms| - 1];
      assert Chronological(prefix);
      MessagesOfChronological(prefix, a);
      var front := MessagesOf(prefix, a);
      forall x | x in front
        ensures Before(x, last)
      {
        var i :| 0 <= i < |prefix| && prefix[i] == x;
      }
    }
  }

  function Reverse<T>(s: seq<T>): (r: seq<T>)
    ensures |r| == |s|
    ensures forall i :: 0 <= i < |s| ==> r[i] == s[|s| - 1 - i]
  {
    seq(|s|, i requires 0 <= i < |s| => s[|s| - 1 - i])
  }

  /** Reversing twice gives the sequence back, and reversing keeps every
      element with its multiplicity. */
  lemma {:induction false} ReverseKeepsElements<T>(s: seq<T>)
    ensures Reverse(Reverse(s)) == s
    ensures multiset(Reverse(s)) == multiset(s)
    decreases |s|
  {
    if s != [] {
      var init := s[..|s| - 1];
      ReverseKeepsElements(init);
      assert Reverse(s) == [s[|s| - 1]] + Reverse(init);
      assert s == init + [s[|s| - 1]];
    }
  }

  function Min(a: int, b: int): int {
    if a <= b then a else b
  }

  /** The history as the service computes it: the first page of the
      messages newest first, put back in reading order. */
  function RecentPage(ms: seq<Message>, limit: nat): seq<Message> {
    Reverse(Reverse(ms)[..Min(limit, |ms|)])
  }

  /** That page is the newest `limit` messages, oldest first. */
  lemma RecentPageIsNewest(ms: seq<Message>, limit: nat)
    ensures RecentPage(ms, limit) == ms[|ms| - Min(limit, |ms|)..]
  {
  }

  /** The page of a chronological table is chronological. */
  lemma RecentPageChronological(ms: seq<Message>, a: ActivityId, limit: nat)
    requires Chronological(ms)
    ensures Chronological(RecentPage(MessagesOf(ms, a), limit))
  {
    var all := MessagesOf(ms, a);
    MessagesOfChronological(ms, a);
    RecentPageIsNewest(all, limit);
    SuffixChronological(all, |all| - Min(limit, |all|));
  }

  lemma SuffixChronological(ms: seq<Message>, d: nat)
    requires Chronological(ms) && d <= |ms|
    ensures Chronological(ms[d..])
  {
    forall i, j | 0 <= i < j < |ms| - d
      ensures Before(ms[d..][i], ms[d..][j])
    {
      assert ms[d..][i] == ms[d + i] && ms[d..][j] == ms[d + j];
    }
  }

  // ---------------------------------------------------------------------
  // Acknowledgements

  /** `insertIgnoreDuplicate` into the delivered table. */
  function InsertIfAbsent(delivered: map<(MessageId, UserId), DateTime>, key: (MessageId, UserId), now: DateTime)
    : (r: map<(MessageId, UserId), DateTime>)
    ensures key in r && r[key] == (if key in delivered then delivered[key] else now)
    ensures forall k :: k != key ==> (k in r <==> k in delivered) && (k in r ==> r[k] == delivered[k])
  {
    if key in delivered then delivered else delivered[key := now]
  }

  /** Acknowledging twice is acknowledging once. */
  lemma InsertIfAbsentIdempotent(delivered: map<(MessageId, UserId), DateTime>, key: (MessageId, UserId),
                                 now1: DateTime, now2: DateTime)
    ensures InsertIfAbsent(InsertIfAbsent(delivered, key, now1), key, now2) == InsertIfAbsent(delivered, key, now1)
  {
  }

  predicate HasAck(seen: seq<Ack>, m: MessageId, u: UserId) {
    exists i :: 0 <= i < |seen| && seen[i].messageId == m && seen[i].userId == u
  }

  /** `insertIgnoreDuplicate` into the seen table. */
  function AppendIfAbsent(seen: seq<Ack>, m: MessageId, u: UserId, now: DateTime): (r: seq<Ack>)
    ensures HasAck(r, m, u)
    ensures HasAck(seen, m, u) ==> r == seen
    ensures !HasAck(seen, m, u) ==> r == seen + [Ack(m, u, now)]
  {
    if HasAck(seen, m, u) then seen
    else
      assert (seen + [Ack(m, u, now)])[|seen|] == Ack(m, u, now);
      seen + [Ack(m, u, now)]
  }

  lemma AppendIfAbsentIdempotent(seen: seq<Ack>, m: MessageId, u: UserId, now1: DateTime, now2: DateTime)
    ensures AppendIfAbsent(AppendIfAbsent(seen, m, u, now1), m, u, now2) == AppendIfAbsent(seen, m, u, now1)
  {
  }

  /** The viewers of message `m` other than its sender, in log order. */
  function SeenBy(seen: seq<Ack>, m: MessageId, sender: UserId): (r: seq<SeenUser>)
    ensures |r| <= |seen|
    ensures forall v :: v in r <==> Ack(m, v.userId, v.seenAt) in seen && v.userId != sender
  {
    if seen == [] then []
    else
      var last := seen[|seen| - 1];
      SeenBy(seen[..|seen| - 1], m, sender) +
        (if last.messageId == m && last.userId != sender then [SeenUser(last.userId, last.at)] else [])
  }

  predicate AcksInTimeOrder(seen: seq<Ack>) {
    forall i, j :: 0 <= i < j < |seen| ==> seen[i].at <= seen[j].at
  }

  predicate ViewersInTimeOrder(viewers: seq<SeenUser>) {
    forall i, j :: 0 <= i < j < |viewers| ==> viewers[i].seenAt <= viewers[j].seenAt
  }

  /** The log holds at most one entry per (message, user): `markSeen`
      checks `existsByMessageIdAndUserId` before saving. */
  predicate AcksUnique(seen: seq<Ack>) {
    forall i, j :: 0 <= i < j < |seen| ==> (seen[i].messageId, seen[i].userId) != (seen[j].messageId, seen[j].userId)
  }

  /** No viewer is listed twice. */
  predicate ViewersDistinct(viewers: seq<SeenUser>) {
    forall i, j :: 0 <= i < j < |viewers| ==> viewers[i].userId != viewers[j].userId
  }

  /** The users a viewer list names. */
  function ViewerIds(viewers: seq<SeenUser>): set<UserId> {
    set v | v in viewers :: v.userId
  }

  /** A log with one entry per (message, user) lists each viewer once. */
  lemma {:induction false} SeenByDistinct(seen: seq<Ack>, m: MessageId, sender: UserId)
    requires AcksUnique(seen)
    ensures ViewersDistinct(SeenBy(seen, m, sender))
    decreases |seen|
  {
    if seen != [] {
      var prefix := seen[..|seen| - 1];
      var last := seen[|seen| - 1];
      assert AcksUnique(prefix) by {
        forall i, j | 0 <= i < j < |prefix|
          ensures (prefix[i].messageId, prefix[i].userId) != (prefix[j].messageId, prefix[j].userId)
        {
          assert prefix[i] == seen[i] && prefix[j] == seen[j];
        }
      }
      SeenByDistinct(prefix, m, sender);
      var front := SeenBy(prefix, m, sender);
      if last.messageId == m && last.userId != sender {
        forall v | v in front
          ensures v.userId != last.userId
        {
          var i :| 0 <= i < |prefix| && prefix[i] == Ack(m, v.userId, v.seenAt);
          assert seen[i] == prefix[i];
        }
        var x := SeenUser(last.userId, last.at);
        var r := front + [x];
        forall i, j | 0 <= i < j < |r|
          ensures r[i].userId != r[j].userId
        {
          if j == |front| {
            assert r[i] == front[i] && r[i] in front;
          } else {
            assert r[i] == front[i] && r[j] == front[j];
          }
        }
      }
    }
  }

  /** Appending a viewer adds exactly that user to the names. */
  lemma ViewerIdsAppend(front: seq<SeenUser>, x: SeenUser)
    ensures ViewerIds(front + [x]) == ViewerIds(front) + {x.userId}
  {
    var r := front + [x];
    forall u | u in ViewerIds(r)
      ensures u in ViewerIds(front) + {x.userId}
    {
      var v :| v in r && v.userId == u;
      assert v in front || v == x;
    }
    forall u | u in ViewerIds(front) + {x.userId}
      ensures u in ViewerIds(r)
    {
      if u == x.userId {
        assert x in r;
      } else {
        var v :| v in front && v.userId == u;
        assert v in r;
      }
    }
  }

  /** A list that names each user once names as many users as it has
      entries. */
  lemma {:induction false} DistinctViewersCount(viewers: seq<SeenUser>)
    requires ViewersDistinct(viewers)
    ensures |ViewerIds(viewers)| == |viewers|
    decreases |viewers|
  {
    if viewers != [] {
      var front := viewers[..|viewers| - 1];
      var last := viewers[|viewers| - 1];
      assert viewers == front + [last];
      assert ViewersDistinct(front) by {
        forall i, j | 0 <= i < j < |front|
          ensures front[i].userId != front[j].userId
        {
          assert front[i] == viewers[i] && front[j] == viewers[j];
        }
      }
      DistinctViewersCount(front);
      ViewerIdsAppend(front, last);
      assert last.userId !in ViewerIds(front) by {
        forall v | v in front
          ensures v.userId != last.userId
        {
          var i :| 0 <= i < |front| && front[i] == v;
          assert front[i] == viewers[i];
        }
      }
    }
  }


  /** A log kept in time order gives viewer lists in time order
      (`OrderBySeenAtAsc`). */
  lemma {:induction false} SeenByInTimeOrder(seen: seq<Ack>, m: MessageId, sender: UserId)
    requires AcksInTimeOrder(seen)
    ensures ViewersInTimeOrder(SeenBy(seen, m, sender))
    decreases |seen|
  {
    if seen != [] {
      var prefix := seen[..|seen| - 1];
      var last := seen[|seen| - 1];
      SeenByInTimeOrder(prefix, m, sender);
      var front := SeenBy(prefix, m, sender);
      forall v | v in front
        ensures v.seenAt <= last.at
      {
        var i :| 0 <= i < |prefix| && prefix[i] == Ack(m, v.userId, v.seenAt);
      }
    }
  }

  /** A smaller set has no more elements. */
  lemma SubsetSize<T>(a: set<T>, b: set<T>)
    requires a <= b
    ensures |a| <= |b|
  {
    assert b == a + (b - a);
    assert a * (b - a) == {};
  }

  // ---------------------------------------------------------------------
  // The invariant of the tables

  /** Message ids are positions, creation times never decrease and none is
      later than the clock. */
  predicate MessagesConsistent(messages: seq<Message>, clock: DateTime) {
    (forall i :: 0 <= i < |messages| ==> messages[i].id == i && messages[i].createdAt <= clock) &&
    (forall i, j :: 0 <= i < j < |messages| ==> messages[i].createdAt <= messages[j].createdAt)
  }

  /** Every seen acknowledgement has its delivered acknowledgement; the seen
      log is in time order, holds one entry per (message, user) and nothing
      later than the clock. */
  predicate AcksConsistent(delivered: map<(MessageId, UserId), DateTime>, seen: seq<Ack>, clock: DateTime) {
    (forall i :: 0 <= i < |seen| ==> (seen[i].messageId, seen[i].userId) in delivered && seen[i].at <= clock) &&
    AcksInTimeOrder(seen) && AcksUnique(seen)
  }

  /** Every delivery acknowledgement is for a message of the table. */
  predicate AcksKnown(delivered: map<(MessageId, UserId), DateTime>, count: nat) {
    forall k :: k in delivered ==> k.0 < count
  }

  /** The invariant survives the clock moving forward. */
  lemma LaterClock(messages: seq<Message>, delivered: map<(MessageId, UserId), DateTime>, seen: seq<Ack>,
                   clock: DateTime, now: DateTime)
    requires MessagesConsistent(messages, clock) && AcksConsistent(delivered, seen, clock) && clock <= now
    ensures MessagesConsistent(messages, now) && AcksConsistent(delivered, seen, now)
  {
  }

  /** A message sent now, with the next id, keeps the table consistent. */
  lemma MessagesAfterSend(messages: seq<Message>, clock: DateTime, message: Message)
    requires MessagesConsistent(messages, clock)
    requires message.id == |messages| && message.createdAt == clock
    ensures MessagesConsistent(messages + [message], clock)
  {
  }

  /** Recording a delivery keeps the acknowledgements consistent. */
  lemma AcksAfterDelivered(delivered: map<(MessageId, UserId), DateTime>, seen: seq<Ack>, clock: DateTime,
                           key: (MessageId, UserId))
    requires AcksConsistent(delivered, seen, clock)
    ensures AcksConsistent(InsertIfAbsent(delivered, key, clock), seen, clock)
  {
  }

  /** Recording a delivery and then a view, as `markSeen` does, keeps the
      acknowledgements consistent. */
  lemma AcksAfterSeen(delivered: map<(MessageId, UserId), DateTime>, seen: seq<Ack>, clock: DateTime,
                      m: MessageId, u: UserId)
    requires AcksConsistent(delivered, seen, clock)
    ensures AcksConsistent(InsertIfAbsent(delivered, (m, u), clock), AppendIfAbsent(seen, m, u, clock), clock)
  {
  }

  // ---------------------------------------------------------------------
  // The service

  class ActivityChatService {
    const participation: ParticipationService
    var messages: seq<Message>
    var delivered: map<(MessageId, UserId), DateTime>
    var seen: seq<Ack>
    var reactions: ReactionTable
    ghost var clock: DateTime

    /** The tables are consistent with each other and with the clock. */
    ghost predicate Valid()
      reads this`messages, this`delivered, this`seen, this`clock
    {
      MessagesConsistent(messages, clock) && AcksConsistent(delivered, seen, clock) &&
      AcksKnown(delivered, |messages|)
    }

    constructor(participation: ParticipationService, now: DateTime)
      ensures Valid() && this.participation == participation
      ensures messages == [] && delivered == map[] && seen == [] && reactions == map[] && clock == now
    {
      this.participation := participation;
      messages := [];
      delivered := map[];
      seen := [];
      reactions := map[];
      clock := now;
    }

    /** `requireChatAccess`: only the creator and approved participants may
        use the chat; the lookups of `canAccessChat` may fail first. */
    function ChatAccess(a: ActivityId, email: Option<string>): (r: Result<(), Status>)
      reads participation, participation.users
      ensures r.Ok? <==> participation.CanAccessChat(a, email) == Ok(true)
      ensures participation.CanAccessChat(a, email) == Ok(false) ==> r == Err(Forbidden)
      ensures participation.CanAccessChat(a, email).Err? ==> r == Err(participation.CanAccessChat(a, email).error)
    {
      match participation.CanAccessChat(a, email)
      case Err(e) => Err(e)
      case Ok(allowed) => if allowed then Ok(()) else Err(Forbidden)
    }

    /** `requireUserByEmail`. */
    function RequireUser(email: Option<string>): (r: Result<User, Status>)
      reads participation.users
      ensures r.Ok? <==> !IsNullOrBlank(email) && email.value in participation.users.byEmail
      ensures r.Ok? ==> r.value == participation.users.byEmail[email.value]
      ensures r.Err? ==> r.error == Unauthorized
    {
      if IsNullOrBlank(email) || email.value !in participation.users.byEmail then Err(Unauthorized)
      else Ok(participation.users.byEmail[email.value])
    }

    /** Whoever may use an activity's chat is a known user of a known
        activity. */
    lemma AccessFindsUser(a: ActivityId, email: Option<string>)
      requires ChatAccess(a, email).Ok?
      ensures RequireUser(email).Ok? && a in participation.activities
    {
    }

    /** The checks shared by the acknowledgement and reaction operations:
        chat access, the user, the message (NOT_FOUND when missing) and the
        message's activity (a bad request when it is another one). */
    function Locate(a: ActivityId, id: MessageId, email: Option<string>): (r: Result<(Message, User), Status>)
      reads this`messages, participation, participation.users
      ensures r.Ok? <==> ChatAccess(a, email).Ok? && id < |messages| && messages[id].activityId == a
      ensures r.Ok? ==> r.value == (messages[id], RequireUser(email).value)
      ensures ChatAccess(a, email).Err? ==> r == Err(ChatAccess(a, email).error)
      ensures ChatAccess(a, email).Ok? && id >= |messages| ==> r == Err(NotFound)
      ensures ChatAccess(a, email).Ok? && id < |messages| && messages[id].activityId != a ==> r == Err(BadRequest)
    {
      match ChatAccess(a, email)
      case Err(e) => Err(e)
      case Ok(_) =>
        // `requireUserByEmail` cannot fail once access is granted.
        AccessFindsUser(a, email);
        if id >= |messages| then Err(NotFound)
        else if messages[id].activityId != a then Err(BadRequest)
        else Ok((messages[id], RequireUser(email).value))
    }

    /** The users other than the sender who received message `m`. */
    function DeliveredUsers(m: MessageId, sender: UserId): set<UserId>
      reads this`delivered
    {
      set k | k in delivered && k.0 == m && k.1 != sender :: k.1
    }

    /** The users other than the sender who saw message `m`. */
    function SeenUsers(m: MessageId, sender: UserId): set<UserId>
      reads this`seen
    {
      set i | 0 <= i < |seen| && seen[i].messageId == m && seen[i].userId != sender :: seen[i].userId
    }

    /** `countByMessageIdAndUserIdNot` on the two tables. */
    function DeliveredCount(m: MessageId, sender: UserId): nat
      reads this`delivered
    {
      |DeliveredUsers(m, sender)|
    }

    function SeenCount(m: MessageId, sender: UserId): nat
      reads this`seen
    {
      |SeenUsers(m, sender)|
    }

    /** `sendMessage`: the content is checked before the access; a message
        from the sender is then appended with the normalised content and
        returned as `toMessageResponse` describes it with empty reaction
        maps: nobody has received, seen or reacted to it yet. */
    method SendMessage(a: ActivityId, senderEmail: Option<string>, content: Option<string>, now: DateTime)
      returns (res: Result<MessageResponse, Status>)
      modifies this`messages, this`clock
      requires Valid() && clock <= now
      ensures Valid() && clock == now
      ensures unchanged(this`delivered, this`seen, this`reactions)
      ensures NormalizeContent(content).Err? ==> res == Err(BadRequest)
      ensures NormalizeContent(content).Ok? && old(ChatAccess(a, senderEmail)).Err? ==>
                res == Err(old(ChatAccess(a, senderEmail)).error)
      ensures res.Ok? <==> NormalizeContent(content).Ok? && old(ChatAccess(a, senderEmail)).Ok?
      ensures res.Err? ==> messages == old(messages)
      ensures res.Ok? ==>
                var message := Message(|old(messages)|, a, old(RequireUser(senderEmail)).value.id,
                                       NormalizeContent(content).value, now);
                messages == old(messages) + [message] && FreshResponse(res.value, message)
    {
      var normalized := NormalizeContent(content);
      var access := ChatAccess(a, senderEmail);
      if normalized.Err? {
        Tick(now);
        return Err(normalized.error);
      }
      if access.Err? {
        Tick(now);
        return Err(access.error);
      }
      // `requireActivity` and `requireUserByEmail` cannot fail once access
      // is granted.
      AccessFindsUser(a, senderEmail);
      var sender := RequireUser(senderEmail);
      var message := Message(|messages|, a, sender.value.id, normalized.value, now);
      var response := AppendMessage(message);
      res := Ok(response);
    }

    /** The response to a message nobody has received, seen or reacted to:
        zero counts, no reaction of the caller, and the four declared kinds
        in order, each with a count of 0 and not chosen. */
    predicate FreshResponse(response: MessageResponse, message: Message) {
      response.message == message && response.deliveredCount == 0 && response.seenCount == 0 &&
      response.currentUserReaction.None? && |response.reactions| == 4 &&
      forall i :: 0 <= i < 4 ==>
        response.reactions[i] == ReactionSummary(Name(Declared[i]), Emoji(Declared[i]), 0, false)
    }

    /** The save and the response of `sendMessage`: the message is appended
        and described with empty reaction maps and the table's counts,
        which are 0 for a message nobody has yet received. */
    method AppendMessage(message: Message) returns (response: MessageResponse)
      modifies this`messages, this`clock
      requires Valid() && message.id == |messages| && clock <= message.createdAt
      ensures Valid() && clock == message.createdAt
      ensures messages == old(messages) + [message]
      ensures FreshResponse(response, message)
    {
      Tick(message.createdAt);
      MessagesAfterSend(messages, clock, message);
      NothingAcknowledged(message.id, message.senderId);
      var summary := BuildReactionSummaryForMessage(message.id, map[], map[]);
      response := MessageResponse(message, DeliveredCount(message.id, message.senderId),
                                  SeenCount(message.id, message.senderId), summary, None);
      messages := messages + [message];
    }

    /** No one has received or seen a message that is not in the table
        yet. */
    lemma NothingAcknowledged(m: MessageId, sender: UserId)
      requires Valid() && m >= |messages|
      ensures DeliveredCount(m, sender) == 0 && SeenCount(m, sender) == 0
    {
      assert DeliveredUsers(m, sender) == {};
      assert forall i :: 0 <= i < |seen| ==> seen[i].messageId != m;
      assert SeenUsers(m, sender) == {};
    }

    /** The reaction of `user` on message `m`, if any. */
    function OwnReaction(m: MessageId, user: UserId): Option<ReactionType>
      reads this`reactions
    {
      if (m, user) in reactions then Some(reactions[(m, user)].kind) else None
    }

    /** A message as `user` should see it in the history: its
        acknowledgement counts, the summary of its reactions and the user's
        own reaction, all read from the tables. */
    function Describe(m: Message, user: UserId): (r: MessageResponse)
      reads this`delivered, this`seen, this`reactions
      ensures r.message == m && |r.reactions| == 4
      ensures r.currentUserReaction.Some? <==> (m.id, user) in reactions
      ensures (m.id, user) in reactions ==> r.currentUserReaction == Some(reactions[(m.id, user)].kind)
      ensures r.deliveredCount == |DeliveredUsers(m.id, m.senderId)| && r.seenCount == |SeenUsers(m.id, m.senderId)|
      ensures forall i :: 0 <= i < 4 ==>
                r.reactions[i].count == ReactionCount(reactions, m.id, Declared[i]) &&
                (r.reactions[i].reactedByCurrentUser <==> r.currentUserReaction == Some(Declared[i]))
    {
      var own := OwnReaction(m.id, user);
      MessageResponse(m, DeliveredCount(m.id, m.senderId), SeenCount(m.id, m.senderId),
                      Summary(reactions, m.id, own), own)
    }

    /** `getRecentMessages`: the newest messages of the activity, at most
        the clamped limit of them, oldest first, each described for the
        requesting user. */
    method GetRecentMessages(a: ActivityId, requestedLimit: int, email: Option<string>)
      returns (res: Result<seq<MessageResponse>, Status>)
      requires Valid()
      ensures ChatAccess(a, email).Err? ==> res == Err(ChatAccess(a, email).error)
      ensures res.Ok? <==> ChatAccess(a, email).Ok?
      ensures res.Ok? ==>
                var all := MessagesOf(messages, a);
                var page := all[|all| - Min(ClampLimit(requestedLimit), |all|)..];
                |res.value| == |page| &&
                forall i :: 0 <= i < |page| ==> res.value[i] == Describe(page[i], RequireUser(email).value.id)
      ensures res.Ok? ==> forall i, j :: 0 <= i < j < |res.value| ==> Before(res.value[i].message, res.value[j].message)
    {
      var access := ChatAccess(a, email);
      if access.Err? {
        return Err(access.error);
      }
      // `requireActivity` and `requireUserByEmail` cannot fail once access
      // is granted.
      AccessFindsUser(a, email);
      var user := RequireUser(email).value;
      var limit := ClampLimit(requestedLimit);
      var all := MessagesOf(messages, a);
      var page := RecentPage(all, limit);
      RecentPageIsNewest(all, limit);
      TableChronological(this);
      RecentPageChronological(messages, a, limit);
      var responses := DescribePage(page, user.id);
      forall i, j | 0 <= i < j < |responses|
        ensures Before(responses[i].message, responses[j].message)
      {
        assert responses[i].message == page[i] && responses[j].message == page[j];
      }
      res := Ok(responses);
    }

    /** `toMessageResponse` over a page: the reaction counts and the user's
        reactions of all the page's messages are fetched together, then
        each message is described. */
    method DescribePage(page: seq<Message>, user: UserId) returns (responses: seq<MessageResponse>)
      ensures |responses| == |page|
      ensures forall k :: 0 <= k < |page| ==> responses[k] == Describe(page[k], user)
    {
      var ids := seq(|page|, i requires 0 <= i < |page| => page[i].id);
      var counts := CountReactionsByMessage(reactions, ids);
      var current := CurrentUserReactions(reactions, ids, user);
      responses := [];
      for i := 0 to |page|
        invariant |responses| == i
        invariant forall k :: 0 <= k < i ==> responses[k] == Describe(page[k], user)
      {
        var m := page[i];
        assert m.id == ids[i];
        var own := if m.id in current then Some(current[m.id]) else None;
        var response := MessageResponse(m, DeliveredCount(m.id, m.senderId), SeenCount(m.id, m.senderId),
                                        BuildReactionSummaryForMessage(m.id, counts, current), own);
        DescribedFromBatch(m, user, counts, current);
        ghost var before := responses;
        responses := responses + [response];
        assert responses[i] == Describe(page[i], user);
        assert forall k :: 0 <= k < i ==> responses[k] == before[k];
      }
    }

    /** One message of a page, described from the batched maps, is the
        message as `Describe` gives it. */
    lemma DescribedFromBatch(m: Message, user: UserId, counts: map<MessageId, map<ReactionType, nat>>,
                             current: map<MessageId, ReactionType>)
      requires m.id in counts
      requires forall t :: CountOr0(counts[m.id], t) == ReactionCount(reactions, m.id, t)
      requires m.id in current <==> (m.id, user) in reactions
      requires m.id in current ==> current[m.id] == reactions[(m.id, user)].kind
      ensures MessageResponse(m, DeliveredCount(m.id, m.senderId), SeenCount(m.id, m.senderId),
                              BuildReactionSummaryForMessage(m.id, counts, current),
                              if m.id in current then Some(current[m.id]) else None) == Describe(m, user)
    {
      SummaryFromCounts(reactions, m.id, counts, current);
    }

    /** The summary `toggleReaction` broadcasts for message `m`: its counts
        fetched afresh, with the actor's reaction `current` flagged. */
    method SummaryFor(m: MessageId, current: Option<ReactionType>) returns (summary: seq<ReactionSummary>)
      ensures summary == Summary(reactions, m, current)
    {
      var counts := CountReactionsByMessage(reactions, [m]);
      var byMessage := if current.Some? then map[m := current.value] else map[];
      SummaryFromCounts(reactions, m, counts, byMessage);
      summary := BuildReactionSummaryForMessage(m, counts, byMessage);
    }

    /** `toggleReaction`: a missing message id or an unknown type is a bad
        request before anything else; then the user's reaction on the
        message is toggled and the fresh summary of the message is
        returned. */
    method ToggleReaction(a: ActivityId, messageId: Option<MessageId>, typeValue: Option<string>,
                          email: Option<string>, now: DateTime)
      returns (res: Result<ReactionUpdate, Status>)
      modifies this`reactions, this`clock
      requires Valid() && clock <= now
      ensures Valid() && clock == now
      ensures unchanged(this`messages, this`delivered, this`seen)
      ensures messageId.None? || FromValue(typeValue).None? ==> res == Err(BadRequest)
      ensures messageId.Some? && FromValue(typeValue).Some? && Locate(a, messageId.value, email).Err? ==>
                res == Err(Locate(a, messageId.value, email).error)
      ensures res.Ok? <==> messageId.Some? && FromValue(typeValue).Some? && Locate(a, messageId.value, email).Ok?
      ensures res.Err? ==> reactions == old(reactions)
      ensures res.Ok? ==>
                var m := messageId.value;
                var user := RequireUser(email).value.id;
                var toggled := Toggle(if (m, user) in old(reactions) then Some(old(reactions)[(m, user)]) else None,
                                      FromValue(typeValue).value, now);
                reactions == WithReaction(old(reactions), (m, user), toggled) &&
                res.value == ReactionUpdate(m, Summary(reactions, m, KindOf(toggled)), user, KindOf(toggled))
    {
      if messageId.None? || FromValue(typeValue).None? {
        Tick(now);
        return Err(BadRequest);
      }
      var located := Locate(a, messageId.value, email);
      if located.Err? {
        Tick(now);
        return Err(located.error);
      }
      var update := ApplyToggle(messageId.value, RequireUser(email).value.id, FromValue(typeValue).value, now);
      res := Ok(update);
    }

    /** The clock moves forward to `now`; the tables stay consistent. */
    ghost method Tick(now: DateTime)
      modifies this`clock
      requires Valid() && clock <= now
      ensures Valid() && clock == now
    {
      LaterClock(messages, delivered, seen, clock, now);
      clock := now;
    }

    /** The table update of `toggleReaction` once the checks have passed:
        the user's reaction on the message is toggled and the message's new
        summary is returned. */
    method ApplyToggle(m: MessageId, user: UserId, kind: ReactionType, now: DateTime) returns (update: ReactionUpdate)
      modifies this`reactions, this`clock
      requires Valid() && clock <= now
      ensures Valid() && clock == now
      ensures var toggled := Toggle(if (m, user) in old(reactions) then Some(old(reactions)[(m, user)]) else None,
                                    kind, now);
              reactions == WithReaction(old(reactions), (m, user), toggled) &&
              update == ReactionUpdate(m, Summary(reactions, m, KindOf(toggled)), user, KindOf(toggled))
    {
      Tick(now);
      var key := (m, user);
      var existing := if key in reactions then Some(reactions[key]) else None;
      var toggled := Toggle(existing, kind, now);
      reactions := WithReaction(reactions, key, toggled);
      var summary := SummaryFor(m, KindOf(toggled));
      update := ReactionUpdate(m, summary, user, KindOf(toggled));
    }

    /** `markDelivered`: a missing message id is a bad request; after the
        checks of `Locate`, a user other than the sender is recorded as
        having received the message, once. */
    method MarkDelivered(a: ActivityId, messageId: Option<MessageId>, email: Option<string>, now: DateTime)
      returns (res: Result<SeenUpdate, Status>)
      modifies this
      requires Valid() && clock <= now
      ensures Valid() && clock == now
      ensures unchanged(this`messages, this`seen, this`reactions)
      ensures messageId.None? ==> res == Err(BadRequest)
      ensures messageId.Some? && Locate(a, messageId.value, email).Err? ==>
                res == Err(Locate(a, messageId.value, email).error)
      ensures res.Ok? <==> messageId.Some? && Locate(a, messageId.value, email).Ok?
      ensures res.Err? ==> delivered == old(delivered)
      ensures res.Ok? ==>
                var (m, user) := Locate(a, messageId.value, email).value;
                delivered == (if user.id == m.senderId then old(delivered)
                              else InsertIfAbsent(old(delivered), (m.id, user.id), now)) &&
                res.value == SeenUpdate(m.id, DeliveredCount(m.id, m.senderId), SeenCount(m.id, m.senderId))
    {
      LaterClock(messages, delivered, seen, clock, now);
      clock := now;
      if messageId.None? {
        return Err(BadRequest);
      }
      var located := Locate(a, messageId.value, email);
      if located.Err? {
        return Err(located.error);
      }
      var (m, user) := located.value;
      if user.id != m.senderId {
        AcksAfterDelivered(delivered, seen, clock, (m.id, user.id));
        delivered := InsertIfAbsent(delivered, (m.id, user.id), now);
      }
      res := Ok(SeenUpdate(m.id, DeliveredCount(m.id, m.senderId), SeenCount(m.id, m.senderId)));
    }

    /** `markSeen`: as `markDelivered`, and a user other than the sender is
        also recorded, once, as having seen the message. */
    method MarkSeen(a: ActivityId, messageId: Option<MessageId>, email: Option<string>, now: DateTime)
      returns (res: Result<SeenUpdate, Status>)
      modifies this
      requires Valid() && clock <= now
      ensures Valid() && clock == now
      ensures unchanged(this`messages, this`reactions)
      ensures messageId.None? ==> res == Err(BadRequest)
      ensures messageId.Some? && Locate(a, messageId.value, email).Err? ==>
                res == Err(Locate(a, messageId.value, email).error)
      ensures res.Ok? <==> messageId.Some? && Locate(a, messageId.value, email).Ok?
      ensures res.Err? ==> delivered == old(delivered) && seen == old(seen)
      ensures res.Ok? ==>
                var (m, user) := Locate(a, messageId.value, email).value;
                (user.id == m.senderId ==> delivered == old(delivered) && seen == old(seen)) &&
                (user.id != m.senderId ==>
                   delivered == InsertIfAbsent(old(delivered), (m.id, user.id), now) &&
                   seen == AppendIfAbsent(old(seen), m.id, user.id, now)) &&
                res.value == SeenUpdate(m.id, DeliveredCount(m.id, m.senderId), SeenCount(m.id, m.senderId)) &&
                res.value.seenCount <= res.value.deliveredCount
    {
      LaterClock(messages, delivered, seen, clock, now);
      clock := now;
      if messageId.None? {
        return Err(BadRequest);
      }
      var located := Locate(a, messageId.value, email);
      if located.Err? {
        return Err(located.error);
      }
      var (m, user) := located.value;
      RecordSeen(m, user.id, now);
      SeenAtMostDelivered(m.id, m.senderId);
      res := Ok(SeenUpdate(m.id, DeliveredCount(m.id, m.senderId), SeenCount(m.id, m.senderId)));
    }

    /** The two inserts of `markSeen`: a user other than the sender is
        recorded, once each, as having received and seen message `m` now. */
    method RecordSeen(m: Message, user: UserId, now: DateTime)
      modifies this`delivered, this`seen
      requires Valid() && now == clock && m.id < |messages|
      ensures Valid()
      ensures user == m.senderId ==> delivered == old(delivered) && seen == old(seen)
      ensures user != m.senderId ==>
                delivered == InsertIfAbsent(old(delivered), (m.id, user), now) &&
                seen == AppendIfAbsent(old(seen), m.id, user, now)
    {
      if user != m.senderId {
        AcksAfterSeen(delivered, seen, clock, m.id, user);
        delivered := InsertIfAbsent(delivered, (m.id, user), now);
        seen := AppendIfAbsent(seen, m.id, user, now);
      }
    }

    /** Every viewer also received the message, so the seen count never
        exceeds the delivered count. */
    lemma SeenAtMostDelivered(m: MessageId, sender: UserId)
      requires Valid()
      ensures SeenUsers(m, sender) <= DeliveredUsers(m, sender)
      ensures SeenCount(m, sender) <= DeliveredCount(m, sender)
    {
      forall u | u in SeenUsers(m, sender)
        ensures u in DeliveredUsers(m, sender)
      {
        var i :| 0 <= i < |seen| && seen[i].messageId == m && seen[i].userId != sender && seen[i].userId == u;
        assert (m, u) in delivered;
      }
      SubsetSize(SeenUsers(m, sender), DeliveredUsers(m, sender));
    }

    /** The viewers `getSeenUsers` lists are distinct and exactly as many as
        the seen count `markSeen` reports. */
    lemma ViewersAreSeenCount(m: MessageId, sender: UserId)
      requires Valid()
      ensures ViewersDistinct(SeenBy(seen, m, sender))
      ensures |SeenBy(seen, m, sender)| == SeenCount(m, sender)
    {
      var viewers := SeenBy(seen, m, sender);
      SeenByDistinct(seen, m, sender);
      DistinctViewersCount(viewers);
      forall u | u in ViewerIds(viewers)
        ensures u in SeenUsers(m, sender)
      {
        var v :| v in viewers && v.userId == u;
        var i :| 0 <= i < |seen| && seen[i] == Ack(m, v.userId, v.seenAt);
      }
      forall u | u in SeenUsers(m, sender)
        ensures u in ViewerIds(viewers)
      {
        var i :| 0 <= i < |seen| && seen[i].messageId == m && seen[i].userId != sender && seen[i].userId == u;
        assert Ack(m, u, seen[i].at) == seen[i];
        assert SeenUser(u, seen[i].at) in viewers;
      }
      assert ViewerIds(viewers) == SeenUsers(m, sender);
    }

    /** A described message never shows more viewers than recipients, and
        its seen count is the number of viewers `getSeenUsers` lists. */
    lemma DescribedCountsAgree(m: Message, user: UserId)
      requires Valid()
      ensures Describe(m, user).seenCount <= Describe(m, user).deliveredCount
      ensures Describe(m, user).seenCount == |SeenBy(seen, m.id, m.senderId)|
    {
      SeenAtMostDelivered(m.id, m.senderId);
      ViewersAreSeenCount(m.id, m.senderId);
    }

    /** `getSeenUsers`: the viewers of a message other than its sender, in
        the order they saw it. */
    function GetSeenUsers(messageId: Option<MessageId>, email: Option<string>): (r: Result<seq<SeenUser>, Status>)
      reads this, participation, participation.users
      requires Valid()
      ensures messageId.None? ==> r == Err(BadRequest)
      ensures messageId.Some? && messageId.value >= |messages| ==> r == Err(NotFound)
      ensures r.Ok? ==> messageId.Some? && messageId.value < |messages|
      ensures messageId.Some? && messageId.value < |messages| ==>
                var access := ChatAccess(messages[messageId.value].activityId, email);
                (r.Ok? <==> access.Ok?) && (access.Err? ==> r == Err(access.error))
      ensures r.Ok? ==>
                var m := messages[messageId.value];
                (forall v :: v in r.value <==> v.userId != m.senderId && Ack(m.id, v.userId, v.seenAt) in seen) &&
                ViewersInTimeOrder(r.value) && ViewersDistinct(r.value) &&
                |r.value| == SeenCount(m.id, m.senderId)
    {
      if messageId.None? then Err(BadRequest)
      else if messageId.value >= |messages| then Err(NotFound)
      else
        var m := messages[messageId.value];
        match ChatAccess(m.activityId, email)
        case Err(e) => Err(e)
        case Ok(_) =>
          SeenByInTimeOrder(seen, m.id, m.senderId);
          ViewersAreSeenCount(m.id, m.senderId);
          Ok(SeenBy(seen, m.id, m.senderId))
    }

    /** `getSeenUsersForMessages`: for each requested message of the
        activity, in (createdAt, id) order, its viewers other than its
        sender in the order they saw it; ids of other activities or of no
        message give no entry.  A null id list is an empty one. */
    method GetSeenUsersForMessages(a: ActivityId, messageIds: seq<MessageId>, email: Option<string>)
      returns (res: Result<seq<SeenSummary>, Status>)
      requires Valid()
      ensures ChatAccess(a, email).Err? ==> res == Err(ChatAccess(a, email).error)
      ensures res.Ok? <==> ChatAccess(a, email).Ok?
      ensures res.Ok? ==>
                (forall k :: 0 <= k < |res.value| ==>
                   var id := res.value[k].messageId;
                   id < |messages| && messages[id].activityId == a && id in messageIds &&
                   res.value[k].viewers == SeenBy(seen, id, messages[id].senderId)) &&
                (forall id: MessageId :: id < |messages| && messages[id].activityId == a && id in messageIds ==>
                   exists k :: 0 <= k < |res.value| && res.value[k].messageId == id) &&
                (forall k, l :: 0 <= k < l < |res.value| ==>
                   Before(messages[res.value[k].messageId], messages[res.value[l].messageId]))
    {
      var access := ChatAccess(a, email);
      if access.Err? {
        return Err(access.error);
      }
      // `requireActivity` cannot fail once access is granted.
      AccessFindsUser(a, email);
      if messageIds == [] {
        return Ok([]);
      }
      var validIds := RequestedMessages(a, messageIds);
      if validIds == [] {
        return Ok([]);
      }
      var viewers := ViewersOf(validIds);
      var summaries := seq(|validIds|, k requires 0 <= k < |validIds| => SeenSummary(validIds[k], viewers[validIds[k]]));
      SummariesCoverRequested(a, messageIds, validIds, summaries);
      res := Ok(summaries);
    }

    /** One summary per valid id covers every requested message of the
        activity. */
    lemma SummariesCoverRequested(a: ActivityId, messageIds: seq<MessageId>, validIds: seq<MessageId>,
                                  summaries: seq<SeenSummary>)
      requires |summaries| == |validIds|
      requires forall k :: 0 <= k < |validIds| ==> summaries[k].messageId == validIds[k]
      requires forall id: MessageId :: id < |messages| && messages[id].activityId == a && id in messageIds ==>
                 id in validIds
      ensures forall id: MessageId :: id < |messages| && messages[id].activityId == a && id in messageIds ==>
                exists k :: 0 <= k < |summaries| && summaries[k].messageId == id
    {
      forall id: MessageId | id < |messages| && messages[id].activityId == a && id in messageIds
        ensures exists k :: 0 <= k < |summaries| && summaries[k].messageId == id
      {
        var k :| 0 <= k < |validIds| && validIds[k] == id;
        assert summaries[k].messageId == id;
      }
    }

    /** The message query of `getSeenUsersForMessages`: the messages of the
        activity among the requested ids, by (createdAt, id). */
    method RequestedMessages(a: ActivityId, messageIds: seq<MessageId>) returns (validIds: seq<MessageId>)
      requires Valid()
      ensures forall k :: 0 <= k < |validIds| ==>
                validIds[k] < |messages| && messages[validIds[k]].activityId == a && validIds[k] in messageIds
      ensures forall id: MessageId :: id < |messages| && messages[id].activityId == a && id in messageIds ==>
                id in validIds
      ensures forall k, l :: 0 <= k < l < |validIds| ==> Before(messages[validIds[k]], messages[validIds[l]])
    {
      validIds := [];
      for i := 0 to |messages|
        invariant forall k :: 0 <= k < |validIds| ==>
                    validIds[k] < i && messages[validIds[k]].activityId == a && validIds[k] in messageIds
        invariant forall id: MessageId :: id < i && messages[id].activityId == a && id in messageIds ==> id in validIds
        invariant forall k, l :: 0 <= k < l < |validIds| ==> validIds[k] < validIds[l]
      {
        if messages[i].activityId == a && messages[i].id in messageIds {
          validIds := validIds + [messages[i].id];
        }
      }
    }

    /** The viewer lists of `getSeenUsersForMessages`: one per listed
        message, filled from the seen log in time order, the sender being
        skipped. */
    method ViewersOf(ids: seq<MessageId>) returns (viewers: map<MessageId, seq<SeenUser>>)
      requires forall k :: 0 <= k < |ids| ==> ids[k] < |messages|
      ensures forall id :: id in viewers <==> id in ids
      ensures forall id :: id in viewers ==> viewers[id] == SeenBy(seen, id, messages[id].senderId)
    {
      viewers := map id | id in ids :: [];
      for j := 0 to |seen|
        invariant forall id :: id in viewers <==> id in ids
        invariant forall id :: id in viewers ==> viewers[id] == SeenBy(seen[..j], id, messages[id].senderId)
      {
        var ack := seen[j];
        assert seen[..j + 1][..j] == seen[..j];
        if ack.messageId in viewers && ack.userId != messages[ack.messageId].senderId {
          viewers := viewers[ack.messageId := viewers[ack.messageId] + [SeenUser(ack.userId, ack.at)]];
        }
      }
      assert seen[..|seen|] == seen;
    }
  }

  /** The table kept in insertion order is in (createdAt, id) order. */
  lemma TableChronological(s: ActivityChatService)
    requires s.Valid()
    ensures Chronological(s.messages)
  {
  }
}
