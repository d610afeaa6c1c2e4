/** Registration and profile updates (`UserService`). */
module UserAccounts {
  import opened Common
  import opened Text
  import opened Users

  /** `normalizeEmail`: lower-cased, then trimmed. */
  function NormalizeEmail(email: string): (r: string)
    ensures IsTrimmed(r) && IsLowerCase(r)
    ensures |r| <= |email|
  {
    var lower := ToLower(email);
    var r := Trim(lower);
    ToLowerIsLowerCase(email);
    LowerCaseSlice(lower, TrimOffset(lower), TrimOffset(lower) + |r|);
    r
  }

  /** Normalising an e-mail twice is normalising it once, so every lookup
      that normalises first finds the user stored under a normalised
      address. */
  lemma NormalizeEmailIdempotent(email: string)
    ensures NormalizeEmail(NormalizeEmail(email)) == NormalizeEmail(email)
  {
    var n := NormalizeEmail(email);
    LowerOfLowerCase(n);
    TrimOfTrimmed(n);
  }

  /** Upper-case letters and surrounding white space do not change the
      normalised address. */
  lemma NormalizeEmailIgnoresPaddingAndCase(pad: string, email: string)
    requires IsBlank(pad)
    ensures NormalizeEmail(pad + ToUpper(email) + pad) == NormalizeEmail(email)
  {
    var l := ToLower(email);
    var padded := pad + ToUpper(email) + pad;
    var lowered := ToLower(padded);
    assert lowered == pad + l + pad by {
      forall k | 0 <= k < |padded|
        ensures lowered[k] == (pad + l + pad)[k]
      {
        if k < |pad| {
          assert padded[k] == pad[k];
        } else if k < |pad| + |email| {
          assert padded[k] == ToUpper(email)[k - |pad|];
        } else {
          assert padded[k] == pad[k - |pad| - |email|];
        }
      }
    }
    TrimPadded(pad, l, pad);
  }

  /** The fields of a registration form (`RegisterRequest`). */
  datatype RegisterRequest = RegisterRequest(
    fullName: string, email: string, password: string, confirmPassword: string,
    birthDate: Option<Date>, bio: Option<string>)

  /** The fields of a profile form (`ProfileUpdateRequest`). */
  datatype ProfileUpdateRequest = ProfileUpdateRequest(
    fullName: string, birthDate: Option<Date>, bio: Option<string>, avatarUrl: Option<string>)

  /** The `IllegalArgumentException`s the service raises. */
  datatype AccountError = PasswordsDiffer | EmailTaken | UnknownUser

  /** The profile after an update: the name trimmed, a blank bio or avatar
      cleared and the others trimmed. */
  function UpdatedProfile(u: User, request: ProfileUpdateRequest): (r: User)
    ensures r.id == u.id && r.email == u.email && r.password == u.password
    ensures IsTrimmed(r.fullName) && r.birthDate == request.birthDate
    ensures r.bio != Some([]) && r.avatarUrl != Some([])
    ensures IsBlank(request.fullName) ==> r.fullName == []
    ensures r.fullName == Trim(request.fullName)
    ensures r.bio == NormalizeNullable(request.bio) && r.avatarUrl == NormalizeNullable(request.avatarUrl)
  {
    TrimEmptyIffBlank(request.fullName);
    NormalizeNullableIdempotent(request.bio);
    NormalizeNullableIdempotent(request.avatarUrl);
    u.(fullName := Trim(request.fullName), birthDate := request.birthDate,
       bio := NormalizeNullable(request.bio), avatarUrl := NormalizeNullable(request.avatarUrl))
  }

  /** The edit form as `editProfile` fills it from a stored user. */
  function FormOf(u: User): ProfileUpdateRequest {
    ProfileUpdateRequest(u.fullName, u.birthDate, u.bio, u.avatarUrl)
  }

  /** Saving the edit form of an updated profile without changing anything
      leaves the profile as it is. */
  lemma {:induction false} ResubmitKeepsProfile(u: User, request: ProfileUpdateRequest)
    ensures var p := UpdatedProfile(u, request);
            UpdatedProfile(p, FormOf(p)) == p
  {
    var p := UpdatedProfile(u, request);
    TrimIdempotent(request.fullName);
    NormalizeNullableIdempotent(request.bio);
    NormalizeNullableIdempotent(request.avatarUrl);
  }

  class UserService {
    const users: UserRepository

    constructor(users: UserRepository)
      ensures this.users == users
    {
      this.users := users;
    }

    /** `register`: the passwords must match and the normalised e-mail must
        be free; then exactly one user is added under that e-mail. */
    method Register(request: RegisterRequest, encode: string -> string)
      returns (res: Result<User, AccountError>)
      modifies users
      requires users.Valid()
      ensures users.Valid()
      ensures request.password != request.confirmPassword ==> res == Err(PasswordsDiffer)
      ensures request.password == request.confirmPassword && NormalizeEmail(request.email) in old(users.byEmail) ==>
                res == Err(EmailTaken)
      ensures res.Ok? <==> request.password == request.confirmPassword && NormalizeEmail(request.email) !in old(users.byEmail)
      ensures res.Err? ==> users.byEmail == old(users.byEmail) && users.nextId == old(users.nextId)
      ensures res.Ok? ==>
                res.value == User(old(users.nextId), request.fullName, NormalizeEmail(request.email),
                                  encode(request.password), request.birthDate, request.bio, None) &&
                users.byEmail == old(users.byEmail)[res.value.email := res.value] &&
                |users.byEmail| == |old(users.byEmail)| + 1
    {
      if request.password != request.confirmPassword {
        return Err(PasswordsDiffer);
      }
      var email := NormalizeEmail(request.email);
      if email in users.byEmail {
        return Err(EmailTaken);
      }
      var u := users.Insert(request.fullName, email, encode(request.password), request.birthDate, request.bio, None);
      res := Ok(u);
    }

    /** `findByEmail`: the lookup goes through the normalised address. */
    function FindByEmail(email: string): (r: Option<User>)
      reads users
      requires users.Valid()
      ensures r.Some? ==> r.value.email == NormalizeEmail(email)
      ensures r.None? <==> NormalizeEmail(email) !in users.byEmail
    {
      users.FindByEmail(NormalizeEmail(email))
    }

    /** `updateProfile`: an unknown e-mail fails; otherwise the stored user
        is replaced by `UpdatedProfile`. */
    method UpdateProfile(email: string, request: ProfileUpdateRequest)
      returns (res: Result<User, AccountError>)
      modifies users
      requires users.Valid()
      ensures users.Valid()
      ensures NormalizeEmail(email) !in old(users.byEmail) <==> res == Err(UnknownUser)
      ensures res.Err? ==> users.byEmail == old(users.byEmail)
      ensures res.Ok? ==>
                res.value == UpdatedProfile(old(users.byEmail)[NormalizeEmail(email)], request) &&
                users.byEmail == old(users.byEmail)[NormalizeEmail(email) := res.value]
      ensures users.nextId == old(users.nextId)
    {
      var found := FindByEmail(email);
      if found.None? {
        return Err(UnknownUser);
      }
      var u := UpdatedProfile(found.value, request);
      users.Update(u);
      res := Ok(u);
    }
  }

  /** Two addresses that differ only in case and surrounding white space
      find the same user. */
  lemma FindByEmailNormalizes(s: UserService, pad: string, email: string)
    requires s.users.Valid() && IsBlank(pad)
    ensures s.FindByEmail(pad + ToUpper(email) + pad) == s.FindByEmail(email)
  {
    NormalizeEmailIgnoresPaddingAndCase(pad, email);
  }
}
