/** routes/users.js: registration and its password pattern, profile edits,
    removing the profile picture, and the user search. The user collection is
    a class whose handlers check a request, reject it without changing
    anything, or apply one update. */
module Users {

  import opened Common
  import opened Storage
  import opened UserSchema

  /** Why a handler answers with an error. ServerError is an exception that
      ends in a 500 answer. */
  datatype UserError =
    | InvalidDetails
    | EmailRegistered
    | ImageTooLarge
    | UserNotFound
    | BadName
    | BadUsername
    | BadStatus
    | UsernameInUse
    | ServerError

  // =====================================================================
  // The password pattern /^(?=.*\d)(?=.*[a-zA-Z]).{6,15}$/

  predicate IsDigit(c: char) {
    '0' <= c <= '9'
  }

  predicate IsLetter(c: char) {
    'a' <= c <= 'z' || 'A' <= c <= 'Z'
  }

  /** The characters `.` does not match. */
  predicate IsLineTerminator(c: char) {
    c == '\n' || c == '\r' || c as int == 0x2028 || c as int == 0x2029
  }

  predicate NoLineBreak(s: string) {
    forall i :: 0 <= i < |s| ==> !IsLineTerminator(s[i])
  }

  /** The lookahead `(?=.*X)` at the start of `s`: `.*` runs over characters
      `.` matches until one satisfying `x` is reached. The pattern has no `u`
      flag, so it reads code units; both halves of a surrogate pair are
      matched by `.` and by neither class, so reading whole characters gives
      the same answer. */
  predicate AheadMatches(s: string, x: char -> bool)
    decreases |s|
  {
    s != [] && (x(s[0]) || (!IsLineTerminator(s[0]) && AheadMatches(s[1..], x)))
  }

  /** `.{lo,hi}$` from the start of `s`, where each `.` consumes one code
      unit: a character outside the Basic Multilingual Plane uses up two. */
  predicate DotsBetween(s: string, lo: nat, hi: nat)
    decreases |s|
  {
    if s == [] then lo == 0
    else
      var w := CodeUnits(s[0]);
      !IsLineTerminator(s[0]) && w <= hi && DotsBetween(s[1..], if lo <= w then 0 else lo - w, hi - w)
  }

  /** The pattern as the regular-expression engine reads it. */
  predicate PasswordPattern(p: string)
    ensures PasswordPattern(p) ==> 6 <= Utf16Length(p) <= 15 && NoLineBreak(p)
  {
    DotsBetweenLength(p, 6, 15);
    AheadMatches(p, IsDigit) && AheadMatches(p, IsLetter) && DotsBetween(p, 6, 15)
  }

  lemma {:induction false} AheadMatchesAnywhere(s: string, x: char -> bool)
    requires NoLineBreak(s)
    ensures AheadMatches(s, x) <==> exists i :: 0 <= i < |s| && x(s[i])
    decreases |s|
  {
    if s != [] {
      AheadMatchesAnywhere(s[1..], x);
      if exists i :: 0 <= i < |s| && x(s[i]) {
        var i :| 0 <= i < |s| && x(s[i]);
        if i > 0 { assert x(s[1..][i - 1]); }
      }
      if exists i :: 0 <= i < |s[1..]| && x(s[1..][i]) {
        var i :| 0 <= i < |s[1..]| && x(s[1..][i]);
        assert x(s[i + 1]);
      }
    }
  }

  lemma {:induction false} DotsBetweenLength(s: string, lo: nat, hi: nat)
    ensures DotsBetween(s, lo, hi) <==> lo <= Utf16Length(s) <= hi && NoLineBreak(s)
    decreases |s|
  {
    if s != [] {
      var w := CodeUnits(s[0]);
      if w <= hi {
        DotsBetweenLength(s[1..], if lo <= w then 0 else lo - w, hi - w);
      }
      if NoLineBreak(s) {
        assert NoLineBreak(s[1..]) by {
          forall i | 0 <= i < |s[1..]| ensures !IsLineTerminator(s[1..][i]) {
            assert s[1..][i] == s[i + 1];
          }
        }
      }
      if !IsLineTerminator(s[0]) && NoLineBreak(s[1..]) {
        forall i | 0 <= i < |s| ensures !IsLineTerminator(s[i]) {
          if i > 0 { assert s[i] == s[1..][i - 1]; }
        }
      }
    }
  }

  /** A password is accepted exactly when its JavaScript length is 6 to 15,
      none of its characters is a line break, and it has at least one digit
      and at least one ASCII letter. */
  lemma PasswordRule(p: string)
    ensures PasswordPattern(p) <==>
              6 <= Utf16Length(p) <= 15 && NoLineBreak(p)
              && (exists i :: 0 <= i < |p| && IsDigit(p[i]))
              && (exists i :: 0 <= i < |p| && IsLetter(p[i]))
  {
    DotsBetweenLength(p, 6, 15);
    if NoLineBreak(p) {
      AheadMatchesAnywhere(p, IsDigit);
      AheadMatchesAnywhere(p, IsLetter);
    }
  }

  // =====================================================================
  // Registration (POST /)

  /** The checks of a registration up to the save, in the handler's order:
      the validation chain (name and username not blank after trimming, an
      email, the password pattern), then the email lookup, then the size of
      the picture. A taken username is not checked here. */
  function RegisterError(users: seq<User>, isEmail: string -> bool, name: Option<string>, email: Option<string>,
                         username: Option<string>, password: Option<string>, picture: Option<ImageFile>): (e: Option<UserError>)
    ensures e.None? <==>
              Filled(name) && email.Some? && isEmail(email.value) && Filled(username)
              && password.Some? && PasswordPattern(password.value)
              && !EmailTaken(users, email.value) && !(picture.Some? && picture.value.size > MiB)
  {
    if !(Filled(name) && email.Some? && isEmail(email.value) && Filled(username)
         && password.Some? && PasswordPattern(password.value)) then Some(InvalidDetails)
    else if EmailTaken(users, email.value) then Some(EmailRegistered)
    else if picture.Some? && TooLarge(picture.value.size) then Some(ImageTooLarge)
    else None
  }

  /** The database refuses to save a user that misses a required field or
      repeats an indexed email or username. */
  predicate SaveRejected(users: seq<User>, u: User) {
    !HasRequired(u) || EmailTaken(users, u.email) || UsernameTaken(users, u.username)
  }

  /** A new email with an already-taken username passes every check the
      handler makes: the username-taken answer sits behind the email-exists
      return and is never reached, so only the unique index refuses it. */
  lemma TakenUsernamePassesRegisterChecks(users: seq<User>, isEmail: string -> bool, name: string, email: string,
                                          username: string, password: string, k: nat)
    requires !Blank(name) && isEmail(email) && !Blank(username) && PasswordPattern(password)
    requires !EmailTaken(users, email)
    requires k < |users| && users[k].username == Trim(username) && Trim(name) != []
    ensures RegisterError(users, isEmail, Some(name), Some(email), Some(username), Some(password), None) == None
    ensures SaveRejected(users, NewUser("", Trim(name), email, Trim(username), None))
  {
  }

  // =====================================================================
  // Profile edits (PUT /)

  /** A field that is present but blank or longer than `max`, its length
      counted as JavaScript's `length` counts it. */
  predicate BadField(o: Option<string>, max: nat) {
    o.Some? && (Blank(o.value) || Utf16Length(o.value) > max)
  }

  /** The checks of an edit, in the handler's order: the user, the lengths of
      name, username and status, a taken username (anybody's, the editor's
      own included), then the size of the picture. */
  function EditError(users: seq<User>, actor: Id, name: Option<string>, username: Option<string>,
                     status: Option<string>, picture: Option<ImageFile>): (e: Option<UserError>)
    ensures e.None? <==>
              Registered(users, actor)
              && (name.Some? ==> !Blank(name.value) && Utf16Length(name.value) <= 25)
              && (username.Some? ==> !Blank(username.value) && Utf16Length(username.value) <= 25
                                     && !UsernameTaken(users, username.value))
              && (status.Some? ==> !Blank(status.value) && Utf16Length(status.value) <= 100)
              && !(picture.Some? && picture.value.size > MiB)
  {
    if !Registered(users, actor) then Some(UserNotFound)
    else if BadField(name, 25) then Some(BadName)
    else if BadField(username, 25) then Some(BadUsername)
    else if BadField(status, 100) then Some(BadStatus)
    else if username.Some? && UsernameTaken(users, username.value) then Some(UsernameInUse)
    else if picture.Some? && TooLarge(picture.value.size) then Some(ImageTooLarge)
    else None
  }

  /** Asking for one's own current username is refused as taken. */
  lemma OwnUsernameIsTaken(users: seq<User>, k: nat, name: Option<string>, status: Option<string>, picture: Option<ImageFile>)
    requires k < |users|
    requires !BadField(name, 25) && !BadField(Some(users[k].username), 25) && !BadField(status, 100)
    ensures EditError(users, users[k].id, name, Some(users[k].username), status, picture) == Some(UsernameInUse)
  {
    assert IndexOf(users, users[k].id).Some?;
  }

  /** The user after an edit: each of name, username and status when given,
      and the new picture with its public id when one was uploaded; nothing
      else changes. */
  function EditedUser(u: User, name: Option<string>, username: Option<string>, status: Option<string>,
                      picture: Option<Asset>): (u': User)
    ensures u'.name == (if Present(name) then name.value else u.name)
    ensures u'.username == (if Present(username) then username.value else u.username)
    ensures u'.status == (if Present(status) then status.value else u.status)
    ensures picture.Some? ==> u'.profilePicture == picture.value.url && u'.profilePicturePublicID == Some(picture.value.publicId)
    ensures picture.None? ==> u'.profilePicture == u.profilePicture && u'.profilePicturePublicID == u.profilePicturePublicID
    ensures u'.id == u.id && u'.email == u.email
  {
    var u1 := if Present(name) then u.(name := name.value) else u;
    var u2 := if Present(username) then u1.(username := username.value) else u1;
    var u3 := if Present(status) then u2.(status := status.value) else u2;
    match picture
    case None => u3
    case Some(a) => u3.(profilePicture := a.url, profilePicturePublicID := Some(a.publicId))
  }

  /** The public id an edit destroys: the old picture's, when a new one is
      uploaded and the old one has a public id. */
  function Superseded(u: User, picture: Option<ImageFile>): (ids: seq<string>)
    ensures ids != [] <==> picture.Some? && Present(u.profilePicturePublicID)
    ensures ids != [] ==> ids == [u.profilePicturePublicID.value]
  {
    if picture.Some? && Present(u.profilePicturePublicID) then [u.profilePicturePublicID.value] else []
  }

  /** PUT /removephoto: the default picture; the public id is left as it was. */
  function PictureRemoved(u: User): (u': User)
    ensures u'.profilePicture == DefaultProfilePicture
    ensures u'.(profilePicture := u.profilePicture) == u
  {
    u.(profilePicture := DefaultProfilePicture)
  }

  // =====================================================================
  // Search (GET /)

  /** The keyword filter: name or username contains the keyword, ignoring
      case. */
  predicate MatchesKeyword(u: User, keyword: string)
    ensures MatchesKeyword(u, keyword) <==>
              (exists i :: 0 <= i <= |u.name| - |keyword| && PrefixIgnoringCase(keyword, u.name[i..]))
              || (exists i :: 0 <= i <= |u.username| - |keyword| && PrefixIgnoringCase(keyword, u.username[i..]))
  {
    ContainsIgnoringCaseWindow(u.name, keyword);
    ContainsIgnoringCaseWindow(u.username, keyword);
    ContainsIgnoringCase(u.name, keyword) || ContainsIgnoringCase(u.username, keyword)
  }

  /** The users the search returns, in store order: with a keyword, those
      matching it; without, everybody; the requester never. */
  function Search(users: seq<User>, requester: Id, keyword: Option<string>): (r: seq<User>)
    ensures forall u :: u in r ==> u.id != requester
    ensures forall u :: u in r <==>
              u in users && u.id != requester && (Present(keyword) ==> MatchesKeyword(u, keyword.value))
    ensures |r| <= |users|
  {
    if users == [] then []
    else
      var u := users[0];
      var keep := u.id != requester && (Present(keyword) ==> MatchesKeyword(u, keyword.value));
      (if keep then [u] else []) + Search(users[1..], requester, keyword)
  }

  // =====================================================================
  // The collection invariant

  /** The schema's required fields and unique indexes hold. */
  ghost predicate WellFormed(users: seq<User>) {
    UniqueKeys(users) && forall i :: 0 <= i < |users| ==> HasRequired(users[i])
  }

  /** A save the database accepts, of a user with a fresh id, keeps the
      indexes and the required fields. */
  lemma SaveKeepsWellFormed(users: seq<User>, u: User)
    requires WellFormed(users) && IndexOf(users, u.id).None? && !SaveRejected(users, u)
    ensures WellFormed(users + [u])
  {
    var s := users + [u];
    forall i, j | 0 <= i < j < |s|
      ensures s[i].id != s[j].id && s[i].email != s[j].email && s[i].username != s[j].username
    {
      if j == |users| {
        assert s[i] == users[i];
      }
    }
  }

  /** Replacing a user by one with the same id and email and either the same
      username or one nobody holds keeps the indexes and the required
      fields. */
  lemma ReplaceKeepsWellFormed(users: seq<User>, k: nat, u: User)
    requires WellFormed(users) && k < |users| && HasRequired(u)
    requires u.id == users[k].id && u.email == users[k].email
    requires u.username == users[k].username || !UsernameTaken(users, u.username)
    ensures WellFormed(users[k := u])
  {
    var s := users[k := u];
    forall i, j | 0 <= i < j < |s|
      ensures s[i].id != s[j].id && s[i].email != s[j].email && s[i].username != s[j].username
    {
      if i == k || j == k {
        assert u.username != users[i].username || i == k;
        assert u.username != users[j].username || j == k;
      }
    }
  }

  /** An edit that passes its checks keeps the indexes and the required
      fields. */
  lemma EditKeepsWellFormed(users: seq<User>, actor: Id, name: Option<string>, username: Option<string>,
                            status: Option<string>, picture: Option<ImageFile>)
    requires WellFormed(users) && EditError(users, actor, name, username, status, picture).None?
    ensures var k := IndexOf(users, actor).value;
            WellFormed(users[k := EditedUser(users[k], name, username, status, StoredAsset(picture))])
  {
    var k := IndexOf(users, actor).value;
    assert name.Some? ==> Filled(name);
    assert username.Some? ==> Filled(username);
    ReplaceKeepsWellFormed(users, k, EditedUser(users[k], name, username, status, StoredAsset(picture)));
  }

  // =====================================================================
  // The user collection

  class UserStore {
    var users: seq<User>
    /** The image store, shared with the chat routes. */
    const media: MediaStore
    /** express-validator's `isEmail`. */
    const isEmail: string -> bool

    /** The schema's required fields and unique indexes hold. */
    ghost predicate Valid()
      reads this
    {
      WellFormed(users)
    }

    constructor (media: MediaStore, isEmail: string -> bool)
      ensures Valid() && users == []
      ensures this.media == media && this.isEmail == isEmail
    {
      users := [];
      this.media := media;
      this.isEmail := isEmail;
    }

    /** POST /. The stored name and username are the trimmed ones (the
        validation chain trims them in place). The picture is uploaded before
        the save, so a save refused by the unique index still leaves it
        uploaded. The password hash and the token are not modelled. */
    method Register(freshId: Id, name: Option<string>, email: Option<string>, username: Option<string>,
                    password: Option<string>, picture: Option<ImageFile>) returns (r: Result<User, UserError>)
      requires Valid() && IndexOf(users, freshId).None?
      modifies this, media
      ensures Valid()
      ensures media.destroyed == old(media.destroyed)
      ensures RegisterError(old(users), isEmail, name, email, username, password, picture).Some? ==>
                r == Failure(RegisterError(old(users), isEmail, name, email, username, password, picture).value)
                && users == old(users) && media.uploaded == old(media.uploaded)
      ensures RegisterError(old(users), isEmail, name, email, username, password, picture).None? ==>
                media.uploaded == old(media.uploaded) + UploadedPaths(picture)
      ensures RegisterError(old(users), isEmail, name, email, username, password, picture).None? ==>
                var u := NewUser(freshId, Trim(name.value), email.value, Trim(username.value), StoredAsset(picture));
                if SaveRejected(old(users), u) then r == Failure(ServerError) && users == old(users)
                else r == Success(u) && users == old(users) + [u]
    {
      var e := RegisterError(users, isEmail, name, email, username, password, picture);
      if e.Some? {
        return Failure(e.value);
      }
      r := Admit(freshId, name.value, email.value, username.value, picture);
    }

    /** The steps of POST /register once its checks pass: the picture is
        uploaded, then the user built from the trimmed fields is saved. */
    method Admit(freshId: Id, name: string, email: string, username: string,
                 picture: Option<ImageFile>) returns (r: Result<User, UserError>)
      requires Valid() && IndexOf(users, freshId).None?
      modifies this, media
      ensures Valid()
      ensures media.destroyed == old(media.destroyed)
      ensures media.uploaded == old(media.uploaded) + UploadedPaths(picture)
      ensures var u := NewUser(freshId, Trim(name), email, Trim(username), StoredAsset(picture));
              if SaveRejected(old(users), u) then r == Failure(ServerError) && users == old(users)
              else r == Success(u) && users == old(users) + [u]
    {
      var stored := media.UploadIfAny(picture);
      var u := NewUser(freshId, Trim(name), email, Trim(username), stored);
      r := Save(u);
    }

    /** `user.save()`: the database refuses a user that misses a required
        field or repeats an indexed key, which the handler answers as a
        server error. */
    method Save(u: User) returns (r: Result<User, UserError>)
      requires Valid() && IndexOf(users, u.id).None?
      modifies this
      ensures Valid()
      ensures SaveRejected(old(users), u) ==> r == Failure(ServerError) && users == old(users)
      ensures !SaveRejected(old(users), u) ==> r == Success(u) && users == old(users) + [u]
    {
      if SaveRejected(users, u) {
        return Failure(ServerError);
      }
      SaveKeepsWellFormed(users, u);
      users := users + [u];
      r := Success(u);
    }

    /** PUT /. The old picture is destroyed only after the new one is
        uploaded, and only when it has a public id. */
    method Edit(actor: Id, name: Option<string>, username: Option<string>, status: Option<string>,
                picture: Option<ImageFile>) returns (r: Result<User, UserError>)
      requires Valid()
      modifies this, media
      ensures Valid()
      ensures EditError(old(users), actor, name, username, status, picture).Some? ==>
                r == Failure(EditError(old(users), actor, name, username, status, picture).value)
                && users == old(users)
                && media.uploaded == old(media.uploaded) && media.destroyed == old(media.destroyed)
      ensures EditError(old(users), actor, name, username, status, picture).None? ==>
                var k := IndexOf(old(users), actor).value;
                r == Success(EditedUser(old(users)[k], name, username, status, StoredAsset(picture)))
                && users == old(users)[k := r.value]
      ensures EditError(old(users), actor, name, username, status, picture).None? ==>
                var k := IndexOf(old(users), actor).value;
                media.uploaded == old(media.uploaded) + UploadedPaths(picture)
                && media.destroyed == old(media.destroyed) + Superseded(old(users)[k], picture)
    {
      // The checks come before any call to the image store.
      var e := EditError(users, actor, name, username, status, picture);
      if e.Some? {
        return Failure(e.value);
      }
      var k := IndexOf(users, actor).value;
      var stored := ReplacePicture(users[k], picture);
      var u := EditedUser(users[k], name, username, status, stored);
      EditKeepsWellFormed(users, actor, name, username, status, picture);
      users := users[k := u];
      r := Success(u);
    }

    /** The picture part of an edit: upload the new picture, then destroy
        the old one when it has a public id. */
    method ReplacePicture(u: User, picture: Option<ImageFile>) returns (stored: Option<Asset>)
      modifies media
      ensures stored == StoredAsset(picture)
      ensures media.uploaded == old(media.uploaded) + UploadedPaths(picture)
      ensures media.destroyed == old(media.destroyed) + Superseded(u, picture)
    {
      stored := media.UploadIfAny(picture);
      if picture.Some? && Present(u.profilePicturePublicID) {
        media.Destroy(u.profilePicturePublicID.value);
      }
    }

    /** PUT /removephoto. The destroy call is made whatever the user, and a
        requester without a user record changes nothing. */
    method RemovePhoto(actor: Id, profilePicturePublicID: string) returns (r: Option<User>)
      requires Valid()
      modifies this, media
      ensures Valid()
      ensures media.destroyed == old(media.destroyed) + [profilePicturePublicID]
      ensures media.uploaded == old(media.uploaded)
      ensures IndexOf(old(users), actor).None? ==> r == None && users == old(users)
      ensures IndexOf(old(users), actor).Some? ==>
                var k := IndexOf(old(users), actor).value;
                r == Some(PictureRemoved(old(users)[k])) && users == old(users)[k := PictureRemoved(old(users)[k])]
    {
      var found := IndexOf(users, actor);
      media.Destroy(profilePicturePublicID);
      if found.None? {
        return None;
      }
      var k := found.value;
      var u := PictureRemoved(users[k]);
      assert u.(profilePicture := users[k].profilePicture) == users[k];
      ReplaceKeepsWellFormed(users, k, u);
      users := users[k := u];
      r := Some(u);
    }
  }
}
