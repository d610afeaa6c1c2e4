/** The activity record as the services and controllers read it
    (`Activity`): its id, its creator, its capacity and the fields the pages
    sort by. */
module Activities {
  import opened Common
  import opened Users

  type ActivityId = nat

  /** A time of day (`LocalTime`), in seconds since midnight. */
  type TimeOfDay = nat

  datatype Activity = Activity(
    id: Option<ActivityId>,
    creatorId: Option<UserId>,
    capacity: int,
    date: Option<Date>,
    time: Option<TimeOfDay>,
    createdAt: Option<DateTime>,
    imageUrl: Option<string>)

  /** Calendar order on dates (`LocalDate.compareTo`). */
  predicate DateBefore(a: Date, b: Date) {
    a.year < b.year ||
    (a.year == b.year && (a.month < b.month || (a.month == b.month && a.day < b.day)))
  }
}
