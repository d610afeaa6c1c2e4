/** Accounts of users who sign in with Google (`OAuthAccountService`): the
    account is found by its normalised e-mail or created, a missing name is
    taken from the e-mail, and Google avatar URLs are mirrored to the image
    host so the stored URL stays valid.

    The mirroring upload is the parameter `mirror` and whether the image host
    is configured the parameter `configured`; the encoded random password of
    a new account is the parameter `password`. */
module OAuthAccounts {
  import opened Common
  import opened Text
  import opened Users
  import opened UserAccounts
  import opened Cloudinary

  /** `isGoogleAvatarUrl`: a present URL mentioning Google's image host. */
  predicate IsGoogleAvatarUrl(url: Option<string>): (b: bool)
    ensures b <==> url.Some? && Occurs(url.value, "googleusercontent.com")
  {
    if url.None? then false
    else
      ContainsIffOccurs(url.value, "googleusercontent.com");
      Contains(url.value, "googleusercontent.com")
  }

  /** `isCloudinaryUrl`: a URL mentioning the image host's delivery domain. */
  predicate IsCloudinaryUrl(url: string): (b: bool)
    ensures b <==> Occurs(url, "res.cloudinary.com")
  {
    ContainsIffOccurs(url, "res.cloudinary.com");
    Contains(url, "res.cloudinary.com")
  }

  /** Whether a mirroring upload gave a usable URL. */
  predicate Mirrored(outcome: UploadOutcome) {
    outcome.Uploaded? && NormalizeNullable(outcome.secureUrl).Some?
  }

  /** `toStableAvatarUrl`: a URL already on the image host, or any URL while
      the host is not configured, is kept; otherwise the picture is mirrored
      and the mirrored URL is used unless the upload failed or gave a blank
      URL, in which case the picture is kept. */
  function ToStableAvatarUrl(picture: Option<string>, configured: bool, mirror: string -> UploadOutcome)
    : (r: Option<string>)
    ensures r.None? <==> picture.None?
    ensures picture.Some? && (IsCloudinaryUrl(picture.value) || !configured) ==> r == picture
    ensures r != picture ==> configured && Mirrored(mirror(picture.value)) && r == mirror(picture.value).secureUrl
    ensures picture.Some? && configured && !IsCloudinaryUrl(picture.value) && Mirrored(mirror(picture.value)) ==>
              r == mirror(picture.value).secureUrl
    ensures picture.Some? && !IsBlank(picture.value) ==> !IsBlank(r.value)
  {
    match picture
    case None => None
    case Some(p) =>
      if IsCloudinaryUrl(p) || !configured then picture
      else
        var outcome := mirror(p);
        if Mirrored(outcome) then
          TrimEmptyIffBlank(outcome.secureUrl.value);
          outcome.secureUrl
        else picture
  }

  /** When every usable URL the upload gives is on the image host, a stable
      URL is stable: converting it again changes nothing. */
  lemma ToStableAvatarUrlIdempotent(picture: Option<string>, configured: bool, mirror: string -> UploadOutcome)
    requires forall p :: Mirrored(mirror(p)) ==> IsCloudinaryUrl(mirror(p).secureUrl.value)
    ensures ToStableAvatarUrl(ToStableAvatarUrl(picture, configured, mirror), configured, mirror) ==
            ToStableAvatarUrl(picture, configured, mirror)
  {
    var once := ToStableAvatarUrl(picture, configured, mirror);
    if once != picture {
      assert IsCloudinaryUrl(once.value);
    }
  }

  /** The name `split("@")[0]` takes from an e-mail: the text before the
      first `@`.  An address made only of `@` signs splits into no parts at
      all, so there is no first part and the call fails. */
  function NameFromEmail(email: string): (r: Option<string>)
    ensures r.None? <==> email != [] && forall i :: 0 <= i < |email| ==> email[i] == '@'
    ensures r.Some? ==> '@' !in r.value && StartsWith(email, r.value)
    ensures r.Some? && |r.value| < |email| ==> email[|r.value|] == '@'
  {
    if email != [] && forall i :: 0 <= i < |email| ==> email[i] == '@' then None
    else
      var name := Split(email, '@')[0];
      assert name == if '@' in email then email[..IndexOf(email, '@')] else email;
      Some(name)
  }

  /** The name an account gets: the trimmed given name, or the name taken
      from the e-mail when none is given. */
  function ResolvedName(fullName: Option<string>, normalizedEmail: string): (r: Option<string>)
    ensures !IsNullOrBlank(fullName) ==> r == Some(Trim(fullName.value)) && !IsBlank(r.value)
    ensures IsNullOrBlank(fullName) ==> r == NameFromEmail(normalizedEmail)
  {
    if IsNullOrBlank(fullName) then NameFromEmail(normalizedEmail)
    else
      TrimEmptyIffBlank(fullName.value);
      TrimIdempotent(fullName.value);
      Some(Trim(fullName.value))
  }

  /** An existing account after a Google sign-in: a blank name is replaced
      by the resolved one; a missing avatar is set from the picture, and a
      Google avatar is mirrored (from the new picture if there is one). */
  function MergedGoogleProfile(u: User, name: string, picture: Option<string>,
                               configured: bool, mirror: string -> UploadOutcome): (r: User)
    ensures r.id == u.id && r.email == u.email && r.password == u.password
    ensures r.birthDate == u.birthDate && r.bio == u.bio
    ensures !IsBlank(u.fullName) ==> r.fullName == u.fullName
    ensures IsBlank(u.fullName) ==> r.fullName == name
    ensures NormalizeNullable(u.avatarUrl).None? && picture.None? ==> r.avatarUrl == u.avatarUrl
    ensures NormalizeNullable(u.avatarUrl).Some? && !IsGoogleAvatarUrl(NormalizeNullable(u.avatarUrl)) ==>
              r.avatarUrl == u.avatarUrl
    ensures NormalizeNullable(u.avatarUrl).None? && picture.Some? ==>
              r.avatarUrl == ToStableAvatarUrl(picture, configured, mirror)
    ensures NormalizeNullable(u.avatarUrl).Some? && IsGoogleAvatarUrl(NormalizeNullable(u.avatarUrl)) ==>
              r.avatarUrl == ToStableAvatarUrl(if picture.Some? then picture else NormalizeNullable(u.avatarUrl),
                                               configured, mirror)
  {
    var current := NormalizeNullable(u.avatarUrl);
    var avatar :=
      if current.None? && picture.Some? then ToStableAvatarUrl(picture, configured, mirror)
      else if IsGoogleAvatarUrl(current) then
        ToStableAvatarUrl(if picture.Some? then picture else current, configured, mirror)
      else u.avatarUrl;
    u.(fullName := if IsBlank(u.fullName) then name else u.fullName, avatarUrl := avatar)
  }

  /** A sign-in that brings nothing new leaves an account with a name and a
      non-Google avatar exactly as it was. */
  lemma MergeKeepsCompleteProfile(u: User, name: string, picture: Option<string>,
                                  configured: bool, mirror: string -> UploadOutcome)
    requires !IsBlank(u.fullName)
    requires NormalizeNullable(u.avatarUrl).Some? ==> !IsGoogleAvatarUrl(NormalizeNullable(u.avatarUrl))
    requires NormalizeNullable(u.avatarUrl).None? ==> picture.None?
    ensures MergedGoogleProfile(u, name, picture, configured, mirror) == u
  {
  }

  /** The Google-avatar migration happens once: when the upload mirrors the
      old Google URL to a URL that is not a Google one, the account no longer
      holds a Google avatar and a later sign-in without a picture leaves it
      as it is. */
  lemma GoogleAvatarMigratedOnce(u: User, name: string, configured: bool, mirror: string -> UploadOutcome)
    requires !IsBlank(name)
    requires forall p :: Mirrored(mirror(p)) ==> !IsGoogleAvatarUrl(NormalizeNullable(mirror(p).secureUrl))
    requires IsGoogleAvatarUrl(NormalizeNullable(u.avatarUrl))
    requires configured && !IsCloudinaryUrl(NormalizeNullable(u.avatarUrl).value)
    requires Mirrored(mirror(NormalizeNullable(u.avatarUrl).value))
    ensures var once := MergedGoogleProfile(u, name, None, configured, mirror);
            !IsGoogleAvatarUrl(NormalizeNullable(once.avatarUrl)) &&
            MergedGoogleProfile(once, name, None, configured, mirror) == once
  {
    var current := NormalizeNullable(u.avatarUrl);
    var once := MergedGoogleProfile(u, name, None, configured, mirror);
    assert once.avatarUrl == mirror(current.value).secureUrl;
    assert !IsBlank(once.fullName);
  }

  /** The failure of `upsertGoogleUser`: no name given and none in the
      e-mail (an `ArrayIndexOutOfBoundsException`). */
  datatype UpsertError = NoNameInEmail

  class OAuthAccountService {
    const users: UserRepository

    constructor(users: UserRepository)
      ensures this.users == users
    {
      this.users := users;
    }

    /** `upsertGoogleUser`: the result is `created`.  The account is looked up
        by the normalised e-mail; an existing one is merged, otherwise one
        account is created with the resolved name, the normalised e-mail and
        the stable form of the picture. */
    method UpsertGoogleUser(email: string, fullName: Option<string>, pictureUrl: Option<string>,
                            configured: bool, mirror: string -> UploadOutcome, password: string)
      returns (res: Result<bool, UpsertError>)
      modifies users
      requires users.Valid()
      ensures users.Valid()
      ensures var normalized := NormalizeEmail(email);
              var name := ResolvedName(fullName, normalized);
              var picture := NormalizeNullable(pictureUrl);
              if name.None? then
                res == Err(NoNameInEmail) && users.byEmail == old(users.byEmail) && users.nextId == old(users.nextId)
              else if normalized in old(users.byEmail) then
                res == Ok(false) && users.nextId == old(users.nextId) &&
                users.byEmail == old(users.byEmail)[normalized :=
                  MergedGoogleProfile(old(users.byEmail)[normalized], name.value, picture, configured, mirror)]
              else
                res == Ok(true) && users.nextId == old(users.nextId) + 1 &&
                users.byEmail == old(users.byEmail)[normalized :=
                  User(old(users.nextId), name.value, normalized, password, None, None,
                       ToStableAvatarUrl(picture, configured, mirror))]
      ensures res.Ok? ==> NormalizeEmail(email) in users.byEmail
      ensures res == Ok(true) ==> |users.byEmail| == |old(users.byEmail)| + 1
    {
      var normalized := NormalizeEmail(email);
      var name := ResolvedName(fullName, normalized);
      if name.None? {
        return Err(NoNameInEmail);
      }
      var picture := NormalizeNullable(pictureUrl);
      var existing := users.FindByEmail(normalized);
      if existing.Some? {
        var merged := MergedGoogleProfile(existing.value, name.value, picture, configured, mirror);
        users.Update(merged);
        res := Ok(false);
      } else {
        var avatar := ToStableAvatarUrl(picture, configured, mirror);
        var u := users.Insert(name.value, normalized, password, None, None, avatar);
        res := Ok(true);
      }
    }
  }
}
