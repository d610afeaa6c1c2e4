/** The participation entity (`ActivityParticipation`): one request of one
    user to join one activity, with its status, its timestamps and the count
    of times the request was denied. */
module ParticipationEntity {
  import opened Common
  import opened Users
  import opened Activities

  datatype ParticipationStatus = Pending | Approved | Rejected | Excluded | Blocked

  /** A persisted participation.  `denialCount` is null in rows written
      before the column existed. */
  datatype Row = Row(
    id: nat,
    status: ParticipationStatus,
    requestedAt: DateTime,
    respondedAt: Option<DateTime>,
    denialCount: Option<int>)

  /** The entity object before and while it is persisted: every column is
      nullable until `OnCreate` fills the defaults. */
  class ActivityParticipation {
    var id: Option<nat>
    var activityId: ActivityId
    var userId: UserId
    var status: Option<ParticipationStatus>
    var requestedAt: Option<DateTime>
    var respondedAt: Option<DateTime>
    var denialCount: Option<int>

    /** A new entity: the status field starts as PENDING, the rest is null. */
    constructor(activityId: ActivityId, userId: UserId)
      ensures this.activityId == activityId && this.userId == userId
      ensures id == None && status == Some(Pending)
      ensures requestedAt == None && respondedAt == None && denialCount == None
    {
      this.activityId := activityId;
      this.userId := userId;
      id := None;
      status := Some(Pending);
      requestedAt := None;
      respondedAt := None;
      denialCount := None;
    }

    /** Status and request time are set, as the non-null columns demand. */
    predicate Persistable()
      reads this
    {
      status.Some? && requestedAt.Some?
    }

    /** `onCreate`, run before the first insert: a null request time becomes
        `now`, a null status PENDING and a null denial count 0; values already
        set are kept. */
    method OnCreate(now: DateTime)
      modifies this
      ensures Persistable() && denialCount.Some?
      ensures requestedAt == Some(old(requestedAt).GetOr(now))
      ensures status == Some(old(status).GetOr(Pending))
      ensures denialCount == Some(old(denialCount).GetOr(0))
      ensures id == old(id) && activityId == old(activityId) && userId == old(userId)
      ensures respondedAt == old(respondedAt)
    {
      if requestedAt.None? {
        requestedAt := Some(now);
      }
      if status.None? {
        status := Some(Pending);
      }
      if denialCount.None? {
        denialCount := Some(0);
      }
    }

    /** The row stored for this entity under the generated id. */
    function ToRow(generatedId: nat): Row
      reads this
      requires Persistable()
    {
      Row(generatedId, status.value, requestedAt.value, respondedAt, denialCount)
    }
  }
}
