/** The rules of routes/chats.js that do not depend on mutable state: the
    queries the handlers run, the new `users` arrays they compute, the order
    in which each handler checks its request, and the invariants of the chat
    collection with the lemmas that say which handlers keep them. */
module ChatQueries {

  import opened Common
  import opened Storage
  import opened ChatSchema
  import opened UserSchema

  /** Why a handler answers with an error instead of a chat. ServerError is
      an exception: a 500 answer, or none at all when it is thrown before the
      handler's `try` block. */
  datatype ChatError =
    | UserNotFound
    | EmptyMessage
    | MessageToSelf
    | ImageTooLarge
    | TooFewParticipants
    | GroupNameMissing
    | AlreadyInGroup
    | UsersNotFound
    | DuplicateGroup
    | GroupNotFound
    | AlreadyMember
    | NotAdmin
    | BadGroupName
    | ServerError

  // =====================================================================
  // Queries

  /** `findOne`: the first chat, in store order, that satisfies `p`. */
  function First(chats: seq<Chat>, p: Chat -> bool): (k: Option<nat>)
    ensures k.Some? ==> k.value < |chats| && p(chats[k.value])
    ensures k.Some? ==> forall i :: 0 <= i < k.value ==> !p(chats[i])
    ensures k.None? ==> forall i :: 0 <= i < |chats| ==> !p(chats[i])
  {
    if chats == [] then None
    else if p(chats[0]) then Some(0)
    else match First(chats[1..], p)
      case None => None
      case Some(k) => Some(k + 1)
  }

  /** Two collections on which the conditions agree chat by chat have the
      same first match. */
  lemma FirstAgrees(xs: seq<Chat>, ys: seq<Chat>, p: Chat -> bool, q: Chat -> bool)
    requires |xs| == |ys|
    requires forall i :: 0 <= i < |xs| ==> p(xs[i]) == q(ys[i])
    ensures First(xs, p) == First(ys, q)
  {
    if xs != [] && !p(xs[0]) {
      FirstAgrees(xs[1..], ys[1..], p, q);
    }
  }

  /** The direct-chat query `{ isGroupChat: false, users: { $all: [a, b] } }`:
      containment of both users, not equality of the member list. */
  predicate DirectWith(c: Chat, a: Id, b: Id) {
    !c.isGroupChat && a in c.users && b in c.users
  }

  function FindDirect(chats: seq<Chat>, a: Id, b: Id): (k: Option<nat>)
    ensures k.Some? ==> k.value < |chats| && DirectWith(chats[k.value], a, b)
    ensures k.Some? ==> forall i :: 0 <= i < k.value ==> !DirectWith(chats[i], a, b)
    ensures k.None? <==> forall i :: 0 <= i < |chats| ==> !DirectWith(chats[i], a, b)
  {
    First(chats, c => DirectWith(c, a, b))
  }

  /** The duplicate-group query `{ isGroupChat: true, users: { $all: ids } }`:
      a group whose users include every requested id (a superset matches). */
  predicate GroupContaining(c: Chat, ids: seq<Id>) {
    c.isGroupChat && forall i :: 0 <= i < |ids| ==> ids[i] in c.users
  }

  function FindGroup(chats: seq<Chat>, ids: seq<Id>): (k: Option<nat>)
    ensures k.Some? ==> k.value < |chats| && GroupContaining(chats[k.value], ids)
    ensures k.Some? ==> forall i :: 0 <= i < k.value ==> !GroupContaining(chats[i], ids)
    ensures k.None? <==> forall i :: 0 <= i < |chats| ==> !GroupContaining(chats[i], ids)
  {
    First(chats, c => GroupContaining(c, ids))
  }

  /** What `Chat.findById(id)` does. */
  datatype Lookup = Missing | CastFailure | Found(index: nat)

  /** `Chat.findById(id)`: an undefined id finds nothing, a string that is
      not an ObjectId makes the query throw, any other finds the chat with
      that id if there is one. */
  function FindById(chats: seq<Chat>, id: Option<string>, valid: string -> bool): (l: Lookup)
    ensures l.Found? ==> id.Some? && l.index < |chats| && chats[l.index].id == id.value
    ensures l == CastFailure <==> id.Some? && !valid(id.value)
    ensures l == Missing <==>
              id.None? || (valid(id.value) && forall i :: 0 <= i < |chats| ==> chats[i].id != id.value)
  {
    match id
    case None => Missing
    case Some(s) =>
      if !valid(s) then CastFailure
      else match First(chats, (c: Chat) => c.id == s)
        case None => Missing
        case Some(k) => Found(k)
  }

  /** `Chat.find({ users: user })`: the chats the user belongs to, in store
      order (the answer's sort by `updatedAt` is not modelled). */
  function ChatsOf(chats: seq<Chat>, user: Id): (r: seq<Chat>)
    ensures forall c :: c in r <==> c in chats && user in c.users
    ensures |r| <= |chats|
  {
    if chats == [] then []
    else (if user in chats[0].users then [chats[0]] else []) + ChatsOf(chats[1..], user)
  }

  // =====================================================================
  // The users arrays the handlers compute

  /** `users.filter(u => u !== x)`: every occurrence of `x` goes, every other
      member keeps its number of occurrences. */
  function Without(users: seq<Id>, x: Id): (r: seq<Id>)
    ensures x !in r
    ensures forall y :: y != x ==> multiset(r)[y] == multiset(users)[y]
    ensures |r| <= |users|
  {
    if users == [] then []
    else
      assert users == [users[0]] + users[1..];
      (if users[0] == x then [] else [users[0]]) + Without(users[1..], x)
  }

  /** Filtering distributes over concatenation, so it keeps the relative
      order of the members that stay. */
  lemma {:induction false} WithoutConcat(a: seq<Id>, b: seq<Id>, x: Id)
    ensures Without(a + b, x) == Without(a, x) + Without(b, x)
    decreases |a|
  {
    if a != [] {
      var head := if a[0] == x then [] else [a[0]];
      assert a + b == [a[0]] + (a[1..] + b);
      assert a == [a[0]] + a[1..];
      WithoutCons(a[0], a[1..] + b, x);
      WithoutCons(a[0], a[1..], x);
      WithoutConcat(a[1..], b, x);
      calc {
        Without(a + b, x);
        head + Without(a[1..] + b, x);
        head + (Without(a[1..], x) + Without(b, x));
        (head + Without(a[1..], x)) + Without(b, x);
        Without(a, x) + Without(b, x);
      }
    } else {
      assert a + b == b;
    }
  }

  /** One step of the filter. */
  lemma WithoutCons(y: Id, rest: seq<Id>, x: Id)
    ensures Without([y] + rest, x) == (if y == x then [] else [y]) + Without(rest, x)
  {
    assert ([y] + rest)[0] == y && ([y] + rest)[1..] == rest;
  }

  /** Removing a user who is not a member leaves the list as it was. */
  lemma {:induction false} WithoutAbsent(users: seq<Id>, x: Id)
    requires x !in users
    ensures Without(users, x) == users
    decreases |users|
  {
    if users != [] {
      WithoutAbsent(users[1..], x);
      assert users == [users[0]] + users[1..];
    }
  }

  /** The first member left after filtering is the earliest-joined member
      other than `x`. */
  lemma {:induction false} WithoutHead(users: seq<Id>, x: Id, i: nat)
    requires i < |users| && users[i] != x
    requires forall j :: 0 <= j < i ==> users[j] == x
    ensures Without(users, x) != [] && Without(users, x)[0] == users[i]
    decreases i
  {
    if i > 0 {
      WithoutHead(users[1..], x, i - 1);
    }
  }

  /** `messages: [...chat.messages, newMessage]`. */
  function WithMessage(c: Chat, m: Message): (c': Chat)
    ensures c.messages < c'.messages && c'.messages[|c.messages|] == m
    ensures |c'.messages| == |c.messages| + 1
    ensures c'.(messages := c.messages) == c
  {
    c.(messages := c.messages + [m])
  }

  /** `users: [...group.users, userId]`. */
  function AddedMember(c: Chat, u: Id): (c': Chat)
    ensures c.users < c'.users && c'.users[|c.users|] == u
    ensures |c'.users| == |c.users| + 1
    ensures c'.(users := c.users) == c
  {
    c.(users := c.users + [u])
  }

  /** `users: group.users.filter(...)`; the admin is left as it was. */
  function RemovedMember(c: Chat, u: Id): (c': Chat)
    ensures u !in c'.users
    ensures c'.users == Without(c.users, u)
    ensures forall y :: y != u ==> multiset(c'.users)[y] == multiset(c.users)[y]
    ensures c'.groupAdmin == c.groupAdmin
    ensures c'.(users := c.users) == c
  {
    c.(users := Without(c.users, u))
  }

  /** Leaving: the leaver is filtered out and the admin becomes the first
      remaining member, or none when nobody remains. Nothing else changes. */
  function AfterLeave(c: Chat, leaver: Id): (c': Chat)
    ensures leaver !in c'.users
    ensures c'.users == Without(c.users, leaver)
    ensures forall y :: y != leaver ==> multiset(c'.users)[y] == multiset(c.users)[y]
    ensures c'.groupAdmin.None? <==> c'.users == []
    ensures c'.groupAdmin.Some? ==> c'.groupAdmin.value in c'.users && c'.groupAdmin.value != leaver
    ensures c'.(users := c.users, groupAdmin := c.groupAdmin) == c
  {
    var rest := Without(c.users, leaver);
    c.(users := rest, groupAdmin := if rest == [] then None else Some(rest[0]))
  }

  /** Admin succession on leave: the new admin is the earliest-joined member
      who is not the leaver. */
  lemma LeaveSuccession(c: Chat, leaver: Id, i: nat)
    requires i < |c.users| && c.users[i] != leaver
    requires forall j :: 0 <= j < i ==> c.users[j] == leaver
    ensures AfterLeave(c, leaver).groupAdmin == Some(c.users[i])
  {
    WithoutHead(c.users, leaver, i);
  }

  /** PUT /group: the name when it is a non-empty string, and the new photo
      with its public id when one was uploaded. */
  function EditedGroup(c: Chat, name: Option<string>, photo: Option<Asset>): (c': Chat)
    ensures Present(name) ==> c'.groupName == name
    ensures !Present(name) ==> c'.groupName == c.groupName
    ensures photo.Some? ==> c'.groupPhoto == Some(photo.value.url) && c'.groupPhotoPublicId == Some(photo.value.publicId)
    ensures photo.None? ==> c'.groupPhoto == c.groupPhoto && c'.groupPhotoPublicId == c.groupPhotoPublicId
    ensures c'.(groupName := c.groupName, groupPhoto := c.groupPhoto, groupPhotoPublicId := c.groupPhotoPublicId) == c
  {
    var named := if Present(name) then c.(groupName := name) else c;
    match photo
    case None => named
    case Some(a) => named.(groupPhoto := Some(a.url), groupPhotoPublicId := Some(a.publicId))
  }

  /** PUT /group/removephoto: the placeholder photo; the stored public id is
      left as it was. */
  function PhotoRemoved(c: Chat): (c': Chat)
    ensures c'.groupPhoto == Some(GroupPlaceholder)
    ensures c'.groupPhotoPublicId == c.groupPhotoPublicId
    ensures c'.(groupPhoto := c.groupPhoto) == c
  {
    c.(groupPhoto := Some(GroupPlaceholder))
  }

  /** `userIds.split(',').map(id => id.trim())`. */
  function GroupIds(userIds: string): (ids: seq<Id>)
    ensures |ids| == |Split(userIds, ',')|
    ensures forall i :: 0 <= i < |ids| ==> ids[i] == Trim(Split(userIds, ',')[i])
  {
    var parts := Split(userIds, ',');
    seq(|parts|, i requires 0 <= i < |parts| => Trim(parts[i]))
  }

  /** The group POST /group builds from the trimmed ids and the actor. */
  function NewGroup(id: Id, ids: seq<Id>, actor: Id, groupName: string, photo: Option<Asset>): (c: Chat)
    ensures c.id == id
    ensures c.isGroupChat && c.groupAdmin == Some(actor) && AdminIsMember(c)
    ensures c.users == ids + [actor] && c.messages == []
    ensures c.groupName == Some(groupName)
    ensures photo.None? ==> c.groupPhoto == Some(GroupPlaceholder) && c.groupPhotoPublicId == None
    ensures photo.Some? ==> c.groupPhoto == Some(photo.value.url) && c.groupPhotoPublicId == Some(photo.value.publicId)
  {
    Chat(id, ids + [actor], true, Some(groupName),
         Some(if photo.Some? then photo.value.url else GroupPlaceholder),
         if photo.Some? then Some(photo.value.publicId) else None,
         Some(actor), [])
  }

  // =====================================================================
  // The order in which each handler checks its request

  /** POST /: the checks of a direct send, in the order the handler makes
      them; the image size is checked last, before the upload. */
  function SendDirectError(users: seq<User>, valid: string -> bool, actor: Id,
                           userId: Option<string>, text: Option<string>, image: Option<ImageFile>): (e: Option<ChatError>)
    ensures e.None? <==>
              Present(userId) && (Filled(text) || image.Some?) && valid(userId.value)
              && Registered(users, userId.value) && userId.value != actor
              && !(image.Some? && image.value.size > MiB)
    ensures e == Some(ImageTooLarge) ==> image.Some? && image.value.size > MiB
    ensures Present(userId) && userId.value == actor ==> e.Some?
  {
    if !Present(userId) then Some(UserNotFound)
    else if !Filled(text) && image.None? then Some(EmptyMessage)
    else if !valid(userId.value) then Some(UserNotFound)
    else if !Registered(users, userId.value) then Some(UserNotFound)
    else if userId.value == actor then Some(MessageToSelf)
    else if image.Some? && TooLarge(image.value.size) then Some(ImageTooLarge)
    else None
  }

  predicate AllValid(ids: seq<Id>, valid: string -> bool) {
    forall i :: 0 <= i < |ids| ==> valid(ids[i])
  }

  /** POST /group. A missing `userIds` passes the first check (`undefined < 2`
      is false) and then makes `userIds.split` throw. */
  function CreateGroupError(chats: seq<Chat>, valid: string -> bool, actor: Id, userIds: Option<string>,
                            groupName: Option<string>, photo: Option<ImageFile>): (e: Option<ChatError>)
    ensures userIds.Some? && |Split(userIds.value, ',')| < 2 ==> e == Some(TooFewParticipants)
    ensures e.None? <==>
              userIds.Some? && |GroupIds(userIds.value)| >= 2 && Filled(groupName)
              && actor !in GroupIds(userIds.value) && AllValid(GroupIds(userIds.value), valid)
              && FindGroup(chats, GroupIds(userIds.value) + [actor]).None?
              && !(photo.Some? && photo.value.size > MiB)
  {
    if userIds.Some? && |Split(userIds.value, ',')| < 2 then Some(TooFewParticipants)
    else if !Filled(groupName) then Some(GroupNameMissing)
    else if userIds.None? then Some(ServerError)
    else
      var ids := GroupIds(userIds.value);
      if actor in ids then Some(AlreadyInGroup)
      else if !AllValid(ids, valid) then Some(UsersNotFound)
      else if FindGroup(chats, ids + [actor]).Some? then Some(DuplicateGroup)
      else if photo.Some? && TooLarge(photo.value.size) then Some(ImageTooLarge)
      else None
  }

  /** Any existing group whose users include the requested ids and the actor
      blocks the creation, even when it has further members. */
  lemma SupersetBlocksGroup(chats: seq<Chat>, valid: string -> bool, actor: Id, userIds: string,
                            groupName: Option<string>, photo: Option<ImageFile>, k: nat)
    requires |Split(userIds, ',')| >= 2 && Filled(groupName)
    requires actor !in GroupIds(userIds) && AllValid(GroupIds(userIds), valid)
    requires k < |chats| && chats[k].isGroupChat
    requires actor in chats[k].users
    requires forall i :: 0 <= i < |GroupIds(userIds)| ==> GroupIds(userIds)[i] in chats[k].users
    ensures CreateGroupError(chats, valid, actor, Some(userIds), groupName, photo) == Some(DuplicateGroup)
  {
    var members := GroupIds(userIds) + [actor];
    assert GroupContaining(chats[k], members);
  }

  /** PUT /group/newMessage. The actor plays no part: neither membership nor
      `isGroupChat` is checked. */
  function GroupMessageError(chats: seq<Chat>, valid: string -> bool, groupId: Option<string>,
                             text: Option<string>, image: Option<ImageFile>): (e: Option<ChatError>)
    ensures e.None? <==>
              (Filled(text) || image.Some?) && FindById(chats, groupId, valid).Found?
              && !(image.Some? && image.value.size > MiB)
  {
    if !Filled(text) && image.None? then Some(EmptyMessage)
    else match FindById(chats, groupId, valid)
      case CastFailure => Some(ServerError)
      case Missing => Some(GroupNotFound)
      case Found(_) => if image.Some? && TooLarge(image.value.size) then Some(ImageTooLarge) else None
  }

  /** The request names a well-formed group and user and the group exists. */
  predicate TargetsGroup(chats: seq<Chat>, valid: string -> bool, groupId: Option<string>, userId: Option<string>) {
    Present(groupId) && valid(groupId.value) && Present(userId) && valid(userId.value)
    && FindById(chats, groupId, valid).Found?
  }

  /** PUT /group/addUser. Membership is checked before the admin check; a
      chat without an admin makes `groupAdmin.toString()` throw. */
  function AddMemberError(chats: seq<Chat>, users: seq<User>, valid: string -> bool, actor: Id,
                          groupId: Option<string>, userId: Option<string>): (e: Option<ChatError>)
    ensures e.None? <==>
              TargetsGroup(chats, valid, groupId, userId) && Registered(users, userId.value)
              && userId.value !in chats[FindById(chats, groupId, valid).index].users
              && chats[FindById(chats, groupId, valid).index].groupAdmin == Some(actor)
    ensures TargetsGroup(chats, valid, groupId, userId) && Registered(users, userId.value)
            && userId.value in chats[FindById(chats, groupId, valid).index].users
            ==> e == Some(AlreadyMember)
  {
    if !Present(groupId) || !valid(groupId.value) then Some(GroupNotFound)
    else if !Present(userId) || !valid(userId.value) then Some(UserNotFound)
    else match FindById(chats, groupId, valid)
      case Found(k) =>
        if !Registered(users, userId.value) then Some(UserNotFound)
        else if userId.value in chats[k].users then Some(AlreadyMember)
        else if chats[k].groupAdmin.None? then Some(ServerError)
        else if chats[k].groupAdmin.value != actor then Some(NotAdmin)
        else None
      case _ => Some(GroupNotFound)
  }

  /** PUT /group/removeUser: the same checks without the membership one, so
      removing a non-member is accepted. */
  function RemoveMemberError(chats: seq<Chat>, users: seq<User>, valid: string -> bool, actor: Id,
                             groupId: Option<string>, userId: Option<string>): (e: Option<ChatError>)
    ensures e.None? <==>
              TargetsGroup(chats, valid, groupId, userId) && Registered(users, userId.value)
              && chats[FindById(chats, groupId, valid).index].groupAdmin == Some(actor)
  {
    if !Present(groupId) || !valid(groupId.value) then Some(GroupNotFound)
    else if !Present(userId) || !valid(userId.value) then Some(UserNotFound)
    else match FindById(chats, groupId, valid)
      case Found(k) =>
        if !Registered(users, userId.value) then Some(UserNotFound)
        else if chats[k].groupAdmin.None? then Some(ServerError)
        else if chats[k].groupAdmin.value != actor then Some(NotAdmin)
        else None
      case _ => Some(GroupNotFound)
  }

  /** PUT /group. An undefined id makes `id.trim()` throw before the `try`. */
  function EditGroupError(chats: seq<Chat>, valid: string -> bool, actor: Id, id: Option<string>,
                          name: Option<string>, photo: Option<ImageFile>): (e: Option<ChatError>)
    ensures e.None? <==>
              id.Some? && !Blank(id.value) && FindById(chats, id, valid).Found?
              && chats[FindById(chats, id, valid).index].groupAdmin == Some(actor)
              && (name.Some? ==> !Blank(name.value) && Utf16Length(name.value) <= 50)
              && !(photo.Some? && photo.value.size > MiB)
  {
    if id.None? then Some(ServerError)
    else if Blank(id.value) then Some(GroupNotFound)
    else match FindById(chats, id, valid)
      case CastFailure => Some(ServerError)
      case Missing => Some(GroupNotFound)
      case Found(k) =>
        if chats[k].groupAdmin.None? then Some(ServerError)
        else if chats[k].groupAdmin.value != actor then Some(NotAdmin)
        else if name.Some? && (Blank(name.value) || Utf16Length(name.value) > 50) then Some(BadGroupName)
        else if photo.Some? && TooLarge(photo.value.size) then Some(ImageTooLarge)
        else None
  }

  /** PUT /group/removephoto. There is no not-found answer: a missing group
      makes `group.groupAdmin` throw. */
  function RemovePhotoError(chats: seq<Chat>, valid: string -> bool, actor: Id, id: Option<string>): (e: Option<ChatError>)
    ensures e.None? <==>
              FindById(chats, id, valid).Found? && chats[FindById(chats, id, valid).index].groupAdmin == Some(actor)
    ensures (FindById(chats, id, valid).Found? && chats[FindById(chats, id, valid).index].groupAdmin.Some?
             && chats[FindById(chats, id, valid).index].groupAdmin != Some(actor)) ==> e == Some(NotAdmin)
    ensures e.Some? && e != Some(NotAdmin) ==> e == Some(ServerError)
  {
    match FindById(chats, id, valid)
    case Found(k) =>
      if chats[k].groupAdmin.None? then Some(ServerError)
      else if chats[k].groupAdmin.value != actor then Some(NotAdmin)
      else None
    case _ => Some(ServerError)
  }

  /** PUT /group/leavegroup/:id. The cast error of a malformed id is answered
      as not found; no admin or membership check is made. */
  function LeaveError(chats: seq<Chat>, valid: string -> bool, id: string): (e: Option<ChatError>)
    ensures e.None? <==> FindById(chats, Some(id), valid).Found?
    ensures e.Some? ==> e == Some(GroupNotFound)
  {
    match FindById(chats, Some(id), valid)
    case Found(_) => None
    case _ => Some(GroupNotFound)
  }

  // =====================================================================
  // Direct sends

  /** Where a direct send between `a` and `b` lands: the existing direct chat
      holding both, or a new chat at the end. */
  function DeliverIndex(chats: seq<Chat>, a: Id, b: Id): (k: nat)
    ensures k <= |chats|
    ensures k < |chats| <==> FindDirect(chats, a, b).Some?
  {
    match FindDirect(chats, a, b)
    case Some(k) => k
    case None => |chats|
  }

  /** The collection after a direct send of `m` from `a` to `b`. */
  function Deliver(chats: seq<Chat>, a: Id, b: Id, m: Message, freshId: Id): (r: seq<Chat>)
    ensures |chats| <= |r| <= |chats| + 1
    ensures forall i :: 0 <= i < |chats| ==> r[i].id == chats[i].id
  {
    match FindDirect(chats, a, b)
    case Some(k) => chats[k := WithMessage(chats[k], m)]
    case None => chats + [NewDirectChat(freshId, [a, b], [m])]
  }

  /** A send appends `m` at the end of the direct chat holding both users,
      or creates the chat `[a, b]` holding just `m`; every other chat is
      untouched, and afterwards the query finds that chat from either side. */
  lemma DeliverLands(chats: seq<Chat>, a: Id, b: Id, m: Message, freshId: Id)
    ensures var r, k := Deliver(chats, a, b, m, freshId), DeliverIndex(chats, a, b);
            && k < |r|
            && (k < |chats| ==> |r| == |chats| && r[k] == WithMessage(chats[k], m))
            && (k == |chats| ==> |r| == |chats| + 1 && r[k] == NewDirectChat(freshId, [a, b], [m]))
            && (forall i :: 0 <= i < |chats| && i != k ==> r[i] == chats[i])
            && FindDirect(r, a, b) == Some(k) && FindDirect(r, b, a) == Some(k)
  {
    var r, k := Deliver(chats, a, b, m, freshId), DeliverIndex(chats, a, b);
    match FindDirect(chats, a, b)
    case Some(j) =>
      FirstAgrees(r, chats, c => DirectWith(c, a, b), c => DirectWith(c, a, b));
      FirstAgrees(r, chats, c => DirectWith(c, b, a), c => DirectWith(c, a, b));
    case None =>
      assert r[..|chats|] == chats;
      FirstAgrees(chats, chats, c => DirectWith(c, b, a), c => DirectWith(c, a, b));
      assert DirectWith(r[k], a, b);
      assert forall i :: 0 <= i < |chats| ==> r[i] == chats[i];
  }

  /** Repeated sends between the same two users, in either direction, land
      in one chat: the second send appends to the chat the first one used. */
  lemma RepeatedSendsShareChat(chats: seq<Chat>, a: Id, b: Id, m1: Message, m2: Message, id1: Id, id2: Id)
    ensures var s1 := Deliver(chats, a, b, m1, id1);
            var k := DeliverIndex(chats, a, b);
            && DeliverIndex(s1, b, a) == k && DeliverIndex(s1, a, b) == k
            && Deliver(s1, b, a, m2, id2) == s1[k := WithMessage(s1[k], m2)]
            && Deliver(s1, a, b, m2, id2) == s1[k := WithMessage(s1[k], m2)]
  {
    DeliverLands(chats, a, b, m1, id1);
  }

  // =====================================================================
  // Invariants of the collection

  /** For two distinct users there is at most one direct chat holding both. */
  ghost predicate DirectUnique(chats: seq<Chat>) {
    forall i, j, a, b :: 0 <= i < j < |chats| && a != b && DirectWith(chats[i], a, b) ==> !DirectWith(chats[j], a, b)
  }

  /** A group with members has an admin who is one of them. */
  predicate AdminIsMember(c: Chat) {
    c.isGroupChat && c.users != [] ==> c.groupAdmin.Some? && c.groupAdmin.value in c.users
  }

  /** Messages are only appended: every chat keeps its id and its earlier
      messages as a prefix, and chats are never removed. */
  ghost predicate MessagesOnlyGrow(before: seq<Chat>, after: seq<Chat>) {
    |before| <= |after|
    && forall i :: 0 <= i < |before| ==> after[i].id == before[i].id && before[i].messages <= after[i].messages
  }

  /** A direct send between two distinct users keeps direct chats unique:
      it only creates a chat when none holds both users. */
  lemma DeliverKeepsDirectUnique(chats: seq<Chat>, a: Id, b: Id, m: Message, freshId: Id)
    requires a != b && DirectUnique(chats)
    ensures DirectUnique(Deliver(chats, a, b, m, freshId))
    ensures MessagesOnlyGrow(chats, Deliver(chats, a, b, m, freshId))
  {
    DeliverLands(chats, a, b, m, freshId);
    var r := Deliver(chats, a, b, m, freshId);
    if FindDirect(chats, a, b).None? {
      forall i, j, x, y | 0 <= i < j < |r| && x != y && DirectWith(r[i], x, y)
        ensures !DirectWith(r[j], x, y)
      {
        if j == |chats| {
          assert r[i] == chats[i];
        }
      }
    }
  }

  /** The change a handler makes to one chat keeps it on the same side of
      `isGroupChat` and, for a direct chat, does not bring in anybody new. */
  predicate NoNewDirectMember(before: Chat, after: Chat) {
    after.isGroupChat == before.isGroupChat
    && (!before.isGroupChat ==> forall u :: u in after.users ==> u in before.users)
  }

  /** Replacing one chat by such a change keeps direct chats unique. This
      covers appending a group message, editing a group, removing its photo,
      removing a member, leaving, and adding a member to a group chat. */
  lemma UpdateKeepsDirectUnique(chats: seq<Chat>, k: nat, c: Chat)
    requires DirectUnique(chats) && k < |chats| && NoNewDirectMember(chats[k], c)
    ensures DirectUnique(chats[k := c])
  {
    var r := chats[k := c];
    forall i, j, x, y | 0 <= i < j < |r| && x != y && DirectWith(r[i], x, y)
      ensures !DirectWith(r[j], x, y)
    {
      if DirectWith(r[j], x, y) {
        assert DirectWith(chats[i], x, y) && DirectWith(chats[j], x, y);
      }
    }
  }

  /** The membership changes of the group handlers bring nobody new into a
      direct chat, except adding a member, which does so whenever the chat is
      direct. */
  lemma MemberChangesKeepDirectMembers(c: Chat, u: Id)
    ensures NoNewDirectMember(c, RemovedMember(c, u))
    ensures NoNewDirectMember(c, AfterLeave(c, u))
    ensures NoNewDirectMember(c, AddedMember(c, u)) <==> c.isGroupChat || u in c.users
  {
    forall y | y in Without(c.users, u) ensures y in c.users {
      assert multiset(Without(c.users, u))[y] > 0;
    }
    if !c.isGroupChat && u !in c.users {
      assert u in AddedMember(c, u).users;
    }
  }

  /** Adding a group chat keeps direct chats unique. */
  lemma AddGroupKeepsDirectUnique(chats: seq<Chat>, g: Chat)
    requires DirectUnique(chats) && g.isGroupChat
    ensures DirectUnique(chats + [g])
  {
    var r := chats + [g];
    forall i, j, x, y | 0 <= i < j < |r| && x != y && DirectWith(r[i], x, y)
      ensures !DirectWith(r[j], x, y)
    {
      if j < |chats| {
        assert r[i] == chats[i] && r[j] == chats[j];
      }
    }
  }

  /** Direct-chat uniqueness is not an invariant of the handlers taken
      together. After `a` leaves the direct chat with `b`, the chat keeps `b`
      and gets `b` as its admin; a new send from `a` to `b` then creates a
      second direct chat, and `b` may add `a` back to the first one, every
      step accepted by its handler's checks: both sends (the same text from
      `a` to `b`), the leave and the add. */
  lemma LeaveThenAddBreaksDirectUnique(valid: string -> bool, users: seq<User>, text: Option<string>)
    requires valid("c1") && valid("c2") && valid("a") && valid("b")
    requires Registered(users, "a") && Registered(users, "b")
    requires Filled(text)
    ensures var m := NewMessage("a", text, None);
            var s0 := Deliver([], "a", "b", m, "c1");
            var s1 := s0[0 := AfterLeave(s0[0], "a")];
            var s2 := Deliver(s1, "a", "b", m, "c2");
            var s3 := s2[0 := AddedMember(s2[0], "a")];
            && SendDirectError(users, valid, "a", Some("b"), text, None) == None
            && LeaveError(s0, valid, "c1") == None
            && AddMemberError(s2, users, valid, "b", Some("c1"), Some("a")) == None
            && DirectUnique(s2) && !DirectUnique(s3)
  {
    LeaveThenAddTrace(valid, users, NewMessage("a", text, None));
  }

  /** The four states of `LeaveThenAddBreaksDirectUnique` for any message. */
  lemma LeaveThenAddTrace(valid: string -> bool, users: seq<User>, m: Message)
    requires valid("c1") && valid("c2") && valid("a") && valid("b")
    requires Registered(users, "a")
    ensures var s0 := Deliver([], "a", "b", m, "c1");
            var s1 := s0[0 := AfterLeave(s0[0], "a")];
            var s2 := Deliver(s1, "a", "b", m, "c2");
            var s3 := s2[0 := AddedMember(s2[0], "a")];
            && LeaveError(s0, valid, "c1") == None
            && AddMemberError(s2, users, valid, "b", Some("c1"), Some("a")) == None
            && DirectUnique(s2) && !DirectUnique(s3)
  {
    var c1 := NewDirectChat("c1", ["a", "b"], [m]);
    var left := c1.(users := ["b"], groupAdmin := Some("b"));
    var c2 := NewDirectChat("c2", ["a", "b"], [m]);
    FirstDirectSend(m);
    LeaveDirectChat(c1);
    SecondDirectSend(left, m);
    var s0 := [c1];
    assert FindById(s0, Some("c1"), valid) == Found(0);
    assert LeaveError(s0, valid, "c1") == None;
    var s1 := s0[0 := AfterLeave(s0[0], "a")];
    assert s1 == [left];
    var s2 := [left, c2];
    assert FindById(s2, Some("c1"), valid) == Found(0);
    assert "a" !in left.users;
    assert AddMemberError(s2, users, valid, "b", Some("c1"), Some("a")) == None;
    assert DirectUnique(s2) by {
      assert forall x, y :: DirectWith(left, x, y) ==> x == "b" && y == "b";
    }
    var s3 := s2[0 := AddedMember(s2[0], "a")];
    assert DirectWith(s3[0], "a", "b") && DirectWith(s3[1], "a", "b");
  }

  lemma FirstDirectSend(m: Message)
    ensures Deliver([], "a", "b", m, "c1") == [NewDirectChat("c1", ["a", "b"], [m])]
  {
  }

  lemma LeaveDirectChat(c: Chat)
    requires c.users == ["a", "b"]
    ensures AfterLeave(c, "a") == c.(users := ["b"], groupAdmin := Some("b"))
  {
    assert Without(["a", "b"], "a") == ["b"] by {
      assert ["a", "b"][1..] == ["b"];
      assert Without(["b"], "a") == ["b"];
    }
  }

  lemma SecondDirectSend(left: Chat, m: Message)
    requires !left.isGroupChat && left.users == ["b"]
    ensures Deliver([left], "a", "b", m, "c2") == [left, NewDirectChat("c2", ["a", "b"], [m])]
  {
    assert !DirectWith(left, "a", "b");
  }

  /** Admin membership holds for a new group, and leaving and adding keep it;
      removing a member other than the admin keeps it too. */
  lemma HandlersKeepAdminIsMember(c: Chat, u: Id)
    requires AdminIsMember(c)
    ensures AdminIsMember(AfterLeave(c, u))
    ensures c.users != [] ==> AdminIsMember(AddedMember(c, u))
    ensures c.groupAdmin != Some(u) ==> AdminIsMember(RemovedMember(c, u))
  {
    if c.groupAdmin != Some(u) && c.isGroupChat && Without(c.users, u) != [] {
      assert c.users != [];
      var admin := c.groupAdmin.value;
      assert multiset(Without(c.users, u))[admin] == multiset(c.users)[admin] > 0;
    }
  }

  /** Removal does not touch the admin, so an admin who removes themself
      leaves a group whose admin is not a member. */
  lemma AdminRemovingSelfLeavesAdminOutside(c: Chat, admin: Id, other: Id)
    requires c.isGroupChat && c.groupAdmin == Some(admin) && other in c.users && other != admin
    ensures !AdminIsMember(RemovedMember(c, admin))
  {
    assert multiset(Without(c.users, admin))[other] == multiset(c.users)[other] > 0;
  }

  /** PUT /group/newMessage asks nothing of the sender: a message with text
      to any existing chat, a direct chat between two other users included,
      passes every check. */
  lemma AnyChatTakesGroupMessages(chats: seq<Chat>, valid: string -> bool, k: nat, text: string)
    requires k < |chats| && valid(chats[k].id) && !Blank(text)
    ensures GroupMessageError(chats, valid, Some(chats[k].id), Some(text), None) == None
  {
    assert FindById(chats, Some(chats[k].id), valid) != Missing;
  }

  /** Leaving asks nothing of the caller either: an outsider who leaves a
      chat with members changes no member list but still makes the first
      member the admin. */
  lemma OutsiderLeaveResetsAdmin(c: Chat, outsider: Id)
    requires outsider !in c.users && c.users != []
    ensures AfterLeave(c, outsider).users == c.users
    ensures AfterLeave(c, outsider).groupAdmin == Some(c.users[0])
  {
    WithoutAbsent(c.users, outsider);
  }
}
