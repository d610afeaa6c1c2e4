/** The user table (`User` and `UserRepository`).  The repository is kept
    as a map keyed by e-mail, which makes the table's unique e-mail column
    structural; the generated ids are unique by invariant. */
module Users {
  import opened Common

  type UserId = nat

  /** A calendar date (`LocalDate`). */
  datatype Date = Date(year: int, month: int, day: int)

  /** A stored user.  `password` holds the encoded password. */
  datatype User = User(
    id: UserId,
    fullName: string,
    email: string,
    password: string,
    birthDate: Option<Date>,
    bio: Option<string>,
    avatarUrl: Option<string>)

  class UserRepository {
    var byEmail: map<string, User>
    var nextId: UserId

    /** Each user is stored under its own e-mail and the ids are unique and
        below the next id to be generated. */
    ghost predicate Valid()
      reads this
    {
      (forall e :: e in byEmail ==> byEmail[e].email == e && byEmail[e].id < nextId) &&
      (forall e1, e2 :: e1 in byEmail && e2 in byEmail && e1 != e2 ==> byEmail[e1].id != byEmail[e2].id)
    }

    constructor()
      ensures Valid() && byEmail == map[] && nextId == 0
    {
      byEmail := map[];
      nextId := 0;
    }

    /** `findByEmail`: an exact lookup. */
    function FindByEmail(email: string): (r: Option<User>)
      reads this
      requires Valid()
      ensures r.Some? ==> r.value.email == email && r.value.id < nextId
      ensures r.None? <==> email !in byEmail
    {
      if email in byEmail then Some(byEmail[email]) else None
    }

    /** `findById`: the user with the given id, if any. */
    method FindById(id: UserId) returns (r: Option<User>)
      requires Valid()
      ensures r.Some? ==> r.value.id == id && r.value.email in byEmail && byEmail[r.value.email] == r.value
      ensures r.None? ==> forall e :: e in byEmail ==> byEmail[e].id != id
    {
      if e :| e in byEmail && byEmail[e].id == id {
        r := Some(byEmail[e]);
      } else {
        r := None;
      }
    }

    /** `save` of a new user: the user receives the next generated id. */
    method Insert(fullName: string, email: string, password: string,
                  birthDate: Option<Date>, bio: Option<string>, avatarUrl: Option<string>)
      returns (u: User)
      modifies this
      requires Valid() && email !in byEmail
      ensures Valid()
      ensures u == User(old(nextId), fullName, email, password, birthDate, bio, avatarUrl)
      ensures byEmail == old(byEmail)[email := u] && nextId == old(nextId) + 1
    {
      u := User(nextId, fullName, email, password, birthDate, bio, avatarUrl);
      byEmail := byEmail[email := u];
      nextId := nextId + 1;
    }

    /** `save` of an existing user whose id and e-mail stay the same. */
    method Update(u: User)
      modifies this
      requires Valid() && u.email in byEmail && byEmail[u.email].id == u.id
      ensures Valid()
      ensures byEmail == old(byEmail)[u.email := u] && nextId == old(nextId)
    {
      byEmail := byEmail[u.email := u];
    }
  }
}
