/** The participation workflow (`ActivityParticipationService`): users ask to
    join an activity, its creator approves, rejects or excludes them, and a
    second denial blocks the user from that activity for good.

    The table of participations is a map keyed by (activity, user), so the
    table's unique constraint on that pair holds by construction. */
module Participation {
  import opened Common
  import opened Text
  import opened Users
  import opened Activities
  import opened ParticipationEntity

  type Key = (ActivityId, UserId)

  // ---------------------------------------------------------------------
  // Rules on a single row

  /** Whether the organiser has turned the request down at least once. */
  predicate IsDenied(s: ParticipationStatus) {
    s == Rejected || s == Excluded || s == Blocked
  }

  /** `getDenialCount`: the stored counter, or for a legacy row without one
      the count its status implies. */
  function DenialCount(r: Row): (n: int)
    ensures r.denialCount.Some? ==> n == r.denialCount.value
    ensures r.denialCount.None? ==> 0 <= n <= 2
    ensures r.denialCount.None? ==> (n == 2 <==> r.status == Blocked)
    ensures r.denialCount.None? ==> (n >= 1 <==> IsDenied(r.status))
  {
    match r.denialCount
    case Some(c) => c
    case None =>
      if r.status == Blocked then 2
      else if r.status == Rejected || r.status == Excluded then 1
      else 0
  }

  /** A rejection or exclusion (`incrementDenialCount` followed by the
      status and response-time updates): the counter rises by exactly one and
      the row is BLOCKED exactly when the new count reaches two. */
  function Deny(r: Row, denied: ParticipationStatus, now: DateTime): (d: Row)
    requires denied == Rejected || denied == Excluded
    ensures d.denialCount.Some? && DenialCount(d) == DenialCount(r) + 1
    ensures d.status == Blocked <==> DenialCount(d) >= 2
    ensures d.status != Blocked ==> d.status == denied
    ensures d.respondedAt == Some(now)
    ensures d.id == r.id && d.requestedAt == r.requestedAt
  {
    var count := DenialCount(r) + 1;
    r.(denialCount := Some(count), status := if count >= 2 then Blocked else denied,
       respondedAt := Some(now))
  }

  /** `updateExistingRequest`: a pending or approved row is returned as it
      is; a blocked row, or one denied twice, fails; any other row is
      re-opened as a fresh pending request with its denial count kept. */
  function UpdateExistingRequest(r: Row, now: DateTime): (res: Result<Row, Status>)
    ensures r.status == Pending || r.status == Approved ==> res == Ok(r)
    ensures res.Err? <==> IsDenied(r.status) && (r.status == Blocked || DenialCount(r) >= 2)
    ensures res.Err? ==> res.error == BadRequest
    ensures res.Ok? ==> res.value.id == r.id && res.value.denialCount == r.denialCount
    ensures res.Ok? && IsDenied(r.status) ==>
              res.value.status == Pending && res.value.requestedAt == now && res.value.respondedAt == None
  {
    if r.status == Pending || r.status == Approved then Ok(r)
    else if r.status == Blocked || DenialCount(r) >= 2 then Err(BadRequest)
    else Ok(r.(status := Pending, requestedAt := now, respondedAt := None))
  }

  /** The part of `canRequestParticipation` that looks at the user's row:
      no row, or a rejected or excluded one denied fewer than two times. */
  predicate MayRequest(existing: Option<Row>) {
    match existing
    case None => true
    case Some(r) =>
      !(r.status == Pending || r.status == Approved || r.status == Blocked) && DenialCount(r) < 2
  }

  /** The request button is offered exactly when a request would re-open the
      row as a new pending request (rather than fail or leave a pending or
      approved row alone). */
  lemma MayRequestIffReopens(r: Row, now: DateTime)
    ensures MayRequest(Some(r)) <==>
              IsDenied(r.status) && UpdateExistingRequest(r, now).Ok? &&
              UpdateExistingRequest(r, now).value.status == Pending
  {
  }

  /** Two denials block a user: a fresh request that is denied can be
      re-opened once, and after the second denial the row is BLOCKED and
      every further request fails. */
  lemma {:induction false} SecondDenialBlocks(r: Row, first: ParticipationStatus, second: ParticipationStatus,
                                              t1: DateTime, t2: DateTime, t3: DateTime, t4: DateTime)
    requires r.denialCount == Some(0)
    requires first == Rejected || first == Excluded
    requires second == Rejected || second == Excluded
    ensures Deny(r, first, t1).status == first
    ensures UpdateExistingRequest(Deny(r, first, t1), t2).Ok?
    ensures var reopened := UpdateExistingRequest(Deny(r, first, t1), t2).value;
            reopened.status == Pending &&
            Deny(reopened, second, t3).status == Blocked &&
            UpdateExistingRequest(Deny(reopened, second, t3), t4) == Err(BadRequest)
  {
    var d1 := Deny(r, first, t1);
    assert DenialCount(d1) == 1;
    var reopened := UpdateExistingRequest(d1, t2).value;
    assert DenialCount(reopened) == 1;
  }

  /** A blocked row stays out of reach of the user: requesting again always
      fails, and so does a row whose counter already reached two. */
  lemma BlockedRequestFails(r: Row, now: DateTime)
    requires r.status == Blocked || (IsDenied(r.status) && DenialCount(r) >= 2)
    ensures UpdateExistingRequest(r, now) == Err(BadRequest)
    ensures !MayRequest(Some(r))
  {
  }

  // ---------------------------------------------------------------------
  // Counting approved participants

  function ApprovedKeys(rows: map<Key, Row>, a: ActivityId): set<Key> {
    set k | k in rows && k.0 == a && rows[k].status == Approved
  }

  /** `countByActivityIdAndStatus(activityId, APPROVED)`. */
  function ApprovedCount(rows: map<Key, Row>, a: ActivityId): nat {
    |ApprovedKeys(rows, a)|
  }

  /** Replacing one row changes the approved count of its activity by what
      the old and the new status contribute, and no other activity's. */
  lemma ApprovedCountAfterUpdate(rows: map<Key, Row>, k: Key, row: Row, a: ActivityId)
    requires k in rows
    ensures k.0 == a ==>
              ApprovedCount(rows[k := row], a) + (if rows[k].status == Approved then 1 else 0) ==
              ApprovedCount(rows, a) + (if row.status == Approved then 1 else 0)
    ensures k.0 != a ==> ApprovedCount(rows[k := row], a) == ApprovedCount(rows, a)
  {
    var before := ApprovedKeys(rows, a);
    var after := ApprovedKeys(rows[k := row], a);
    if k.0 == a {
      assert after - {k} == before - {k};
      SizeWithout(before, k);
      SizeWithout(after, k);
    } else {
      assert before == after;
    }
  }

  /** Taking one element out of a set shrinks it by one exactly when the
      element was there. */
  lemma SizeWithout<T>(s: set<T>, x: T)
    ensures |s| == |s - {x}| + (if x in s then 1 else 0)
  {
    if x in s {
      assert s == (s - {x}) + {x};
    } else {
      assert s - {x} == s;
    }
  }

  /** A new row that is not approved leaves every approved count as it is. */
  lemma ApprovedCountAfterInsert(rows: map<Key, Row>, k: Key, row: Row, a: ActivityId)
    requires k !in rows && row.status != Approved
    ensures ApprovedCount(rows[k := row], a) == ApprovedCount(rows, a)
  {
    assert ApprovedKeys(rows[k := row], a) == ApprovedKeys(rows, a);
  }

  ghost predicate WellFormed(rows: map<Key, Row>, activities: map<ActivityId, Activity>, nextId: nat) {
    (forall k :: k in rows ==> rows[k].id < nextId && k.0 in activities) &&
    (forall k1, k2 :: k1 in rows && k2 in rows && k1 != k2 ==> rows[k1].id != rows[k2].id) &&
    (forall k :: k in rows ==> DenialCount(rows[k]) >= 0)
  }

  lemma WellFormedAfterUpdate(rows: map<Key, Row>, activities: map<ActivityId, Activity>, nextId: nat, k: Key, row: Row)
    requires WellFormed(rows, activities, nextId) && k in rows
    requires row.id == rows[k].id && DenialCount(row) >= 0
    ensures WellFormed(rows[k := row], activities, nextId)
  {
    var rows' := rows[k := row];
    forall k1, k2 | k1 in rows' && k2 in rows' && k1 != k2
      ensures rows'[k1].id != rows'[k2].id
    {
      assert rows'[k1].id == rows[k1].id && rows'[k2].id == rows[k2].id;
    }
  }

  lemma WellFormedAfterInsert(rows: map<Key, Row>, activities: map<ActivityId, Activity>, nextId: nat, k: Key, row: Row)
    requires WellFormed(rows, activities, nextId) && k !in rows && k.0 in activities
    requires row.id == nextId && DenialCount(row) >= 0
    ensures WellFormed(rows[k := row], activities, nextId + 1)
  {
  }

  /** `isCreator(activity, user)`: the activity has a creator and it is this
      user. */
  predicate IsCreatorOf(activity: Activity, user: User) {
    activity.creatorId == Some(user.id)
  }

  // ---------------------------------------------------------------------
  // The service

  class ParticipationService {
    const users: UserRepository
    var activities: map<ActivityId, Activity>
    var rows: map<Key, Row>
    var nextId: nat

    /** Row ids are unique and below the next id to be generated, every row
        belongs to a known activity, and stored counters are never
        negative. */
    ghost predicate Valid()
      reads this
    {
      WellFormed(rows, activities, nextId)
    }

    constructor(users: UserRepository, activities: map<ActivityId, Activity>)
      ensures Valid()
      ensures this.users == users && this.activities == activities
      ensures rows == map[] && nextId == 0
    {
      this.users := users;
      this.activities := activities;
      rows := map[];
      nextId := 0;
    }

    /** `requireActivity` followed by `requireUserByEmail`: an unknown
        activity is NOT_FOUND, a missing, blank or unknown e-mail is
        UNAUTHORIZED. */
    function Resolve(a: ActivityId, email: Option<string>): (r: Result<(Activity, User), Status>)
      reads this, users
      ensures r.Ok? <==> a in activities && !IsNullOrBlank(email) && email.value in users.byEmail
      ensures r.Ok? ==> r.value == (activities[a], users.byEmail[email.value])
      ensures a !in activities ==> r == Err(NotFound)
      ensures a in activities && r.Err? ==> r == Err(Unauthorized)
    {
      if a !in activities then Err(NotFound)
      else if IsNullOrBlank(email) || email.value !in users.byEmail then Err(Unauthorized)
      else Ok((activities[a], users.byEmail[email.value]))
    }

    /** `Resolve` followed by `requireOrganizer`: only the creator may
        process requests; anyone else is FORBIDDEN. */
    function Authorize(a: ActivityId, email: Option<string>): (r: Result<Activity, Status>)
      reads this, users
      ensures r.Ok? <==> Resolve(a, email).Ok? && IsCreatorOf(Resolve(a, email).value.0, Resolve(a, email).value.1)
      ensures r.Ok? ==> r.value == activities[a]
      ensures Resolve(a, email).Err? ==> r == Err(Resolve(a, email).error)
      ensures Resolve(a, email).Ok? && r.Err? ==> r == Err(Forbidden)
    {
      match Resolve(a, email)
      case Err(e) => Err(e)
      case Ok((activity, user)) => if IsCreatorOf(activity, user) then Ok(activity) else Err(Forbidden)
    }

    /** The row of the activity with the given id, if there is one
        (`findByIdAndActivityId`). */
    ghost function RequestKey(a: ActivityId, requestId: nat): (k: Option<Key>)
      reads this
      ensures k.Some? ==> k.value in rows && k.value.0 == a && rows[k.value].id == requestId
      ensures k.None? ==> forall key :: key in rows && key.0 == a ==> rows[key].id != requestId
    {
      if exists key :: key in rows && key.0 == a && rows[key].id == requestId then
        var key :| key in rows && key.0 == a && rows[key].id == requestId;
        Some(key)
      else
        None
    }

    method FindRequest(a: ActivityId, requestId: nat) returns (k: Option<Key>)
      requires Valid()
      ensures k == RequestKey(a, requestId)
    {
      if key :| key in rows && key.0 == a && rows[key].id == requestId {
        k := Some(key);
      } else {
        k := None;
      }
    }

    /** `requestParticipation`. */
    method Request(a: ActivityId, email: Option<string>, now: DateTime) returns (res: Result<Row, Status>)
      modifies this
      requires Valid()
      ensures Valid()
      ensures activities == old(activities)
      ensures Resolve(a, email).Err? ==> res == Err(Resolve(a, email).error)
      ensures Resolve(a, email).Ok? && IsCreatorOf(Resolve(a, email).value.0, Resolve(a, email).value.1) ==>
                res == Err(BadRequest)
      ensures res.Err? ==> rows == old(rows) && nextId == old(nextId)
      ensures res.Ok? ==>
                Resolve(a, email).Ok? && !IsCreatorOf(Resolve(a, email).value.0, Resolve(a, email).value.1) &&
                var k := (a, Resolve(a, email).value.1.id);
                rows == old(rows)[k := res.value] &&
                ApprovedCount(rows, a) == ApprovedCount(old(rows), a) &&
                (k !in old(rows) ==> res.value == Row(old(nextId), Pending, now, None, Some(0)) && nextId == old(nextId) + 1)
      ensures res.Ok? <==>
                Resolve(a, email).Ok? && !IsCreatorOf(Resolve(a, email).value.0, Resolve(a, email).value.1) &&
                var k := (a, Resolve(a, email).value.1.id);
                k !in old(rows) || UpdateExistingRequest(old(rows)[k], now).Ok?
      ensures Resolve(a, email).Ok? && !IsCreatorOf(Resolve(a, email).value.0, Resolve(a, email).value.1) &&
              (a, Resolve(a, email).value.1.id) in old(rows) ==>
                res == UpdateExistingRequest(old(rows)[(a, Resolve(a, email).value.1.id)], now) &&
                nextId == old(nextId)
    {
      var resolved := Resolve(a, email);
      if resolved.Err? {
        return Err(resolved.error);
      }
      var (activity, user) := resolved.value;
      if IsCreatorOf(activity, user) {
        return Err(BadRequest);
      }
      var k := (a, user.id);
      if k in rows {
        res := UpdateExistingRequest(rows[k], now);
        if res.Ok? {
          ApprovedCountAfterUpdate(rows, k, res.value, a);
          WellFormedAfterUpdate(rows, activities, nextId, k, res.value);
          rows := rows[k := res.value];
        }
      } else {
        var entity := new ActivityParticipation(a, user.id);
        entity.status := Some(Pending);
        entity.requestedAt := Some(now);
        entity.OnCreate(now);
        var row := entity.ToRow(nextId);
        ApprovedCountAfterInsert(rows, k, row, a);
        WellFormedAfterInsert(rows, activities, nextId, k, row);
        rows := rows[k := row];
        nextId := nextId + 1;
        res := Ok(row);
      }
    }

    /** `approveRequest`. */
    method Approve(a: ActivityId, requestId: nat, email: Option<string>, now: DateTime)
      returns (res: Result<(), Status>)
      modifies this
      requires Valid()
      ensures Valid()
      ensures activities == old(activities) && nextId == old(nextId)
      ensures Authorize(a, email).Err? ==> res == Err(Authorize(a, email).error)
      ensures Authorize(a, email).Ok? && old(RequestKey(a, requestId)).None? ==> res == Err(NotFound)
      ensures res.Err? ==> rows == old(rows)
      ensures res.Ok? ==>
                Authorize(a, email).Ok? && old(RequestKey(a, requestId)).Some? &&
                var k := old(RequestKey(a, requestId)).value;
                var capacity := activities[a].capacity;
                if old(rows)[k].status == Approved then rows == old(rows)
                else
                  ApprovedCount(old(rows), a) < capacity &&
                  rows == old(rows)[k := old(rows)[k].(status := Approved, respondedAt := Some(now))] &&
                  ApprovedCount(rows, a) == ApprovedCount(old(rows), a) + 1
      ensures Authorize(a, email).Ok? && old(RequestKey(a, requestId)).Some? &&
              old(rows)[old(RequestKey(a, requestId)).value].status != Approved &&
              ApprovedCount(old(rows), a) >= activities[a].capacity ==>
                res == Err(BadRequest)
      ensures res.Ok? <==>
                Authorize(a, email).Ok? && old(RequestKey(a, requestId)).Some? &&
                (old(rows)[old(RequestKey(a, requestId)).value].status == Approved ||
                 ApprovedCount(old(rows), a) < activities[a].capacity)
      ensures rows == old(rows) || ApprovedCount(rows, a) <= activities[a].capacity
    {
      var authorized := Authorize(a, email);
      if authorized.Err? {
        return Err(authorized.error);
      }
      var activity := authorized.value;
      var found := FindRequest(a, requestId);
      if found.None? {
        return Err(NotFound);
      }
      var k := found.value;
      var request := rows[k];
      if request.status == Approved {
        return Ok(());
      }
      if ApprovedCount(rows, a) >= activity.capacity {
        return Err(BadRequest);
      }
      var approved := request.(status := Approved, respondedAt := Some(now));
      ApprovedCountAfterUpdate(rows, k, approved, a);
      WellFormedAfterUpdate(rows, activities, nextId, k, approved);
      rows := rows[k := approved];
      res := Ok(());
    }

    /** `rejectRequest`. */
    method Reject(a: ActivityId, requestId: nat, email: Option<string>, now: DateTime)
      returns (res: Result<(), Status>)
      modifies this
      requires Valid()
      ensures Valid()
      ensures activities == old(activities) && nextId == old(nextId)
      ensures Authorize(a, email).Err? ==> res == Err(Authorize(a, email).error)
      ensures Authorize(a, email).Ok? && old(RequestKey(a, requestId)).None? ==> res == Err(NotFound)
      ensures res.Err? ==> rows == old(rows)
      ensures res.Ok? ==>
                Authorize(a, email).Ok? && old(RequestKey(a, requestId)).Some? &&
                var k := old(RequestKey(a, requestId)).value;
                var request := old(rows)[k];
                if request.status == Rejected || request.status == Blocked then rows == old(rows)
                else rows == old(rows)[k := Deny(request, Rejected, now)]
      ensures res.Ok? <==> Authorize(a, email).Ok? && old(RequestKey(a, requestId)).Some?
    {
      var authorized := Authorize(a, email);
      if authorized.Err? {
        return Err(authorized.error);
      }
      var found := FindRequest(a, requestId);
      if found.None? {
        return Err(NotFound);
      }
      var k := found.value;
      var request := rows[k];
      if request.status == Rejected || request.status == Blocked {
        return Ok(());
      }
      WellFormedAfterUpdate(rows, activities, nextId, k, Deny(request, Rejected, now));
      rows := rows[k := Deny(request, Rejected, now)];
      res := Ok(());
    }

    /** `excludeParticipant`: only an approved participant can be excluded. */
    method Exclude(a: ActivityId, requestId: nat, email: Option<string>, now: DateTime)
      returns (res: Result<(), Status>)
      modifies this
      requires Valid()
      ensures Valid()
      ensures activities == old(activities) && nextId == old(nextId)
      ensures Authorize(a, email).Err? ==> res == Err(Authorize(a, email).error)
      ensures Authorize(a, email).Ok? && old(RequestKey(a, requestId)).None? ==> res == Err(NotFound)
      ensures Authorize(a, email).Ok? && old(RequestKey(a, requestId)).Some? &&
              old(rows)[old(RequestKey(a, requestId)).value].status != Approved ==>
                res == Err(BadRequest)
      ensures res.Err? ==> rows == old(rows)
      ensures res.Ok? ==>
                Authorize(a, email).Ok? && old(RequestKey(a, requestId)).Some? &&
                var k := old(RequestKey(a, requestId)).value;
                old(rows)[k].status == Approved &&
                rows == old(rows)[k := Deny(old(rows)[k], Excluded, now)] &&
                ApprovedCount(rows, a) + 1 == ApprovedCount(old(rows), a)
      ensures res.Ok? <==>
                Authorize(a, email).Ok? && old(RequestKey(a, requestId)).Some? &&
                old(rows)[old(RequestKey(a, requestId)).value].status == Approved
    {
      var authorized := Authorize(a, email);
      if authorized.Err? {
        return Err(authorized.error);
      }
      var found := FindRequest(a, requestId);
      if found.None? {
        return Err(NotFound);
      }
      var k := found.value;
      var request := rows[k];
      if request.status != Approved {
        return Err(BadRequest);
      }
      var excluded := Deny(request, Excluded, now);
      ApprovedCountAfterUpdate(rows, k, excluded, a);
      WellFormedAfterUpdate(rows, activities, nextId, k, excluded);
      rows := rows[k := excluded];
      res := Ok(());
    }

    /** The row of the user behind `email` for activity `a`. */
    function RowOf(a: ActivityId, user: User): Option<Row>
      reads this
    {
      if (a, user.id) in rows then Some(rows[(a, user.id)]) else None
    }

    /** `canAccessChat`: the creator, or a user holding an approved row. */
    function CanAccessChat(a: ActivityId, email: Option<string>): (r: Result<bool, Status>)
      reads this, users
      ensures IsNullOrBlank(email) ==> r == Ok(false)
      ensures !IsNullOrBlank(email) && Resolve(a, email).Err? ==> r == Err(Resolve(a, email).error)
      ensures r.Err? <==> !IsNullOrBlank(email) && Resolve(a, email).Err?
      ensures r == Ok(true) <==>
                Resolve(a, email).Ok? &&
                var (activity, user) := Resolve(a, email).value;
                IsCreatorOf(activity, user) || ((a, user.id) in rows && rows[(a, user.id)].status == Approved)
    {
      if IsNullOrBlank(email) then Ok(false)
      else match Resolve(a, email)
        case Err(e) => Err(e)
        case Ok((activity, user)) =>
          Ok(IsCreatorOf(activity, user) || ((a, user.id) in rows && rows[(a, user.id)].status == Approved))
    }

    /** The public `isCreator(activityId, email)`. */
    function IsCreator(a: ActivityId, email: Option<string>): (r: Result<bool, Status>)
      reads this, users
      ensures IsNullOrBlank(email) ==> r == Ok(false)
      ensures r == Ok(true) <==> Resolve(a, email).Ok? && IsCreatorOf(Resolve(a, email).value.0, Resolve(a, email).value.1)
      ensures r.Err? <==> !IsNullOrBlank(email) && Resolve(a, email).Err?
    {
      if IsNullOrBlank(email) then Ok(false)
      else match Resolve(a, email)
        case Err(e) => Err(e)
        case Ok((activity, user)) => Ok(IsCreatorOf(activity, user))
    }

    /** `getParticipationStatus`: APPROVED for the creator, otherwise the
        status of the user's row, or null without one. */
    function GetParticipationStatus(a: ActivityId, email: Option<string>): (r: Result<Option<ParticipationStatus>, Status>)
      reads this, users
      ensures IsNullOrBlank(email) ==> r == Ok(None)
      ensures r.Err? <==> !IsNullOrBlank(email) && Resolve(a, email).Err?
      ensures r.Ok? && r.value.Some? && r.value.value != Approved ==>
                (a, Resolve(a, email).value.1.id) in rows &&
                rows[(a, Resolve(a, email).value.1.id)].status == r.value.value
      ensures !IsNullOrBlank(email) && Resolve(a, email).Ok? ==>
                var (activity, user) := Resolve(a, email).value;
                if IsCreatorOf(activity, user) then r == Ok(Some(Approved))
                else if (a, user.id) in rows then r == Ok(Some(rows[(a, user.id)].status))
                else r == Ok(None)
    {
      if IsNullOrBlank(email) then Ok(None)
      else match Resolve(a, email)
        case Err(e) => Err(e)
        case Ok((activity, user)) =>
          if IsCreatorOf(activity, user) then Ok(Some(Approved))
          else Ok(if (a, user.id) in rows then Some(rows[(a, user.id)].status) else None)
    }

    /** `canRequestParticipation`: never for the creator, otherwise as
        `MayRequest` says of the user's row. */
    function CanRequestParticipation(a: ActivityId, email: Option<string>): (r: Result<bool, Status>)
      reads this, users
      ensures IsNullOrBlank(email) ==> r == Ok(false)
      ensures r.Err? <==> !IsNullOrBlank(email) && Resolve(a, email).Err?
      ensures r == Ok(true) <==>
                Resolve(a, email).Ok? && !IsCreatorOf(Resolve(a, email).value.0, Resolve(a, email).value.1) &&
                MayRequest(RowOf(a, Resolve(a, email).value.1))
    {
      if IsNullOrBlank(email) then Ok(false)
      else match Resolve(a, email)
        case Err(e) => Err(e)
        case Ok((activity, user)) => Ok(!IsCreatorOf(activity, user) && MayRequest(RowOf(a, user)))
    }
  }

  /** Chat access and the APPROVED status shown on the page agree: a user can
      read the chat exactly when their status reads APPROVED. */
  lemma AccessIffApproved(s: ParticipationService, a: ActivityId, email: Option<string>)
    ensures s.CanAccessChat(a, email) == Ok(true) <==> s.GetParticipationStatus(a, email) == Ok(Some(Approved))
  {
  }

  /** A user who may request to join cannot already read the chat, and
      requesting then opens a pending request. */
  lemma {:induction false} RequestableMeansOutside(s: ParticipationService, a: ActivityId, email: Option<string>, now: DateTime)
    requires s.CanRequestParticipation(a, email) == Ok(true)
    ensures s.CanAccessChat(a, email) == Ok(false)
    ensures var user := s.Resolve(a, email).value.1;
            (a, user.id) in s.rows ==>
              UpdateExistingRequest(s.rows[(a, user.id)], now).Ok? &&
              UpdateExistingRequest(s.rows[(a, user.id)], now).value.status == Pending
  {
    var user := s.Resolve(a, email).value.1;
    if (a, user.id) in s.rows {
      MayRequestIffReopens(s.rows[(a, user.id)], now);
    }
  }
}
