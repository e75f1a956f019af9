/** The user document of models/User.js: required and unique fields and the
    defaults of `status` and `profilePicture`. The password hash is not part
    of this model. */
module UserSchema {

  import opened Common
  import opened Storage

  datatype User = User(
    id: Id,
    name: string,
    email: string,
    username: string,
    status: string,
    profilePicture: string,
    profilePicturePublicID: Option<string>)

  const DefaultStatus: string := "Available"

  /** The default profile picture, also what removing the picture restores. */
  const DefaultProfilePicture: string := "https://icon-library.com/images/my-profile-icon-png/my-profile-icon-png-14.jpg"

  /** `new User({ name, email, username, ... })`, with the uploaded picture
      when there is one and the schema defaults otherwise. */
  function NewUser(id: Id, name: string, email: string, username: string, picture: Option<Asset>): (u: User)
    ensures u.id == id && u.name == name && u.email == email && u.username == username
    ensures u.status == DefaultStatus
    ensures picture.None? ==> u.profilePicture == DefaultProfilePicture && u.profilePicturePublicID == None
    ensures picture.Some? ==> u.profilePicture == picture.value.url && u.profilePicturePublicID == Some(picture.value.publicId)
  {
    match picture
    case None => User(id, name, email, username, DefaultStatus, DefaultProfilePicture, None)
    case Some(a) => User(id, name, email, username, DefaultStatus, a.url, Some(a.publicId))
  }

  /** Mongoose's `required` on a string rejects a missing or empty value. */
  predicate HasRequired(u: User) {
    u.name != [] && u.email != [] && u.username != []
  }

  /** The unique indexes on email and username, plus distinct ids. */
  ghost predicate UniqueKeys(users: seq<User>) {
    forall i, j :: 0 <= i < j < |users| ==>
      users[i].id != users[j].id && users[i].email != users[j].email && users[i].username != users[j].username
  }

  /** The position of the user with id `id` (`User.findById`). */
  function IndexOf(users: seq<User>, id: Id): (k: Option<nat>)
    ensures k.Some? ==> k.value < |users| && users[k.value].id == id
    ensures k.None? <==> forall i :: 0 <= i < |users| ==> users[i].id != id
  {
    if users == [] then None
    else if users[0].id == id then Some(0)
    else match IndexOf(users[1..], id)
      case None => None
      case Some(k) => Some(k + 1)
  }

  predicate Registered(users: seq<User>, id: Id) {
    IndexOf(users, id).Some?
  }

  /** Some user has this email (`User.findOne({ email })`). */
  predicate EmailTaken(users: seq<User>, email: string) {
    exists i :: 0 <= i < |users| && users[i].email == email
  }

  /** Some user has this username (`User.findOne({ username })`). */
  predicate UsernameTaken(users: seq<User>, username: string) {
    exists i :: 0 <= i < |users| && users[i].username == username
  }
}
