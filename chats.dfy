/** routes/chats.js: the chat collection and the handlers that change it.
    Every handler makes all of its checks before it calls the image store
    or writes a chat, so each is a check (the error functions of
    ChatQueries) followed by the uploads, the deletes and one write. */
module Chats {

  import opened Common
  import opened Storage
  import opened ChatSchema
  import opened UserSchema
  import opened ChatQueries
  import Users

  /** The ids of `ids` that are not well-formed, in order: the `forEach`
      of POST /group that fills `idErrors`. */
  method CollectInvalid(ids: seq<Id>, valid: string -> bool) returns (errs: seq<Id>)
    ensures forall x :: x in errs <==> x in ids && !valid(x)
    ensures errs == [] <==> AllValid(ids, valid)
    ensures |errs| <= |ids|
  {
    errs := [];
    var i := 0;
    while i < |ids|
      invariant 0 <= i <= |ids|
      invariant forall x :: x in errs <==> x in ids[..i] && !valid(x)
      invariant |errs| <= i
    {
      if !valid(ids[i]) {
        errs := errs + [ids[i]];
      }
      assert ids[..i + 1] == ids[..i] + [ids[i]];
      i := i + 1;
    }
    assert ids[..i] == ids;
    if errs != [] {
      assert errs[0] in ids && !valid(errs[0]);
    } else {
      forall j | 0 <= j < |ids| ensures valid(ids[j]) {
        assert ids[j] in ids;
      }
    }
  }

  /** The checks of POST /group in the handler's order, with the `forEach`
      over the ids: the loop form of `ChatQueries.CreateGroupError`, which
      states the same checks as one expression. */
  method GroupRequestError(chats: seq<Chat>, valid: string -> bool, actor: Id, userIds: Option<string>,
                           groupName: Option<string>, photo: Option<ImageFile>) returns (e: Option<ChatError>)
    ensures e == CreateGroupError(chats, valid, actor, userIds, groupName, photo)
  {
    if userIds.Some? && |Split(userIds.value, ',')| < 2 {
      return Some(TooFewParticipants);
    }
    if !Filled(groupName) {
      return Some(GroupNameMissing);
    }
    if userIds.None? {
      return Some(ServerError);
    }
    var ids := GroupIds(userIds.value);
    if actor in ids {
      return Some(AlreadyInGroup);
    }
    var idErrors := CollectInvalid(ids, valid);
    if |idErrors| > 0 {
      return Some(UsersNotFound);
    }
    if FindGroup(chats, ids + [actor]).Some? {
      return Some(DuplicateGroup);
    }
    if photo.Some? && TooLarge(photo.value.size) {
      return Some(ImageTooLarge);
    }
    return None;
  }

  /** No two chats share an id. */
  ghost predicate DistinctIds(chats: seq<Chat>) {
    forall i, j :: 0 <= i < j < |chats| ==> chats[i].id != chats[j].id
  }

  predicate Unused(chats: seq<Chat>, id: Id) {
    forall i :: 0 <= i < |chats| ==> chats[i].id != id
  }

  /** A chat with an unused id can be appended without a clash. */
  lemma AppendKeepsDistinctIds(chats: seq<Chat>, c: Chat)
    requires DistinctIds(chats) && Unused(chats, c.id)
    ensures DistinctIds(chats + [c])
  {
    var r := chats + [c];
    forall i, j | 0 <= i < j < |r| ensures r[i].id != r[j].id {
      if j < |chats| {
        assert r[i] == chats[i] && r[j] == chats[j];
      } else {
        assert r[i] == chats[i] && r[j] == c;
      }
    }
  }

  /** A send keeps the ids distinct: it either appends to an existing chat,
      which keeps its id, or adds a chat under an unused id. */
  lemma DeliverKeepsDistinctIds(chats: seq<Chat>, a: Id, b: Id, m: Message, freshId: Id)
    requires DistinctIds(chats) && Unused(chats, freshId)
    ensures DistinctIds(Deliver(chats, a, b, m, freshId))
  {
    match FindDirect(chats, a, b)
    case Some(k) =>
      var r := Deliver(chats, a, b, m, freshId);
      assert forall i :: 0 <= i < |r| ==> r[i].id == chats[i].id;
    case None =>
      AppendKeepsDistinctIds(chats, NewDirectChat(freshId, [a, b], [m]));
  }

  /** The public id an edit of the group destroys: the old photo's, when a
      new one is uploaded and the old one has a public id. */
  function ReplacedPhoto(c: Chat, photo: Option<ImageFile>): (ids: seq<string>)
    ensures ids != [] <==> photo.Some? && Present(c.groupPhotoPublicId)
    ensures ids != [] ==> ids == [c.groupPhotoPublicId.value]
  {
    if photo.Some? && Present(c.groupPhotoPublicId) then [c.groupPhotoPublicId.value] else []
  }

  class ChatStore {
    var chats: seq<Chat>
    /** The user collection the handlers look users up in. */
    const directory: Users.UserStore
    /** The image store. */
    const media: MediaStore
    /** `mongoose.Types.ObjectId.isValid`. */
    const isValidId: string -> bool

    ghost predicate Valid()
      reads this
    {
      DistinctIds(chats)
    }

    constructor (directory: Users.UserStore, media: MediaStore, isValidId: string -> bool)
      ensures Valid() && chats == []
      ensures this.directory == directory && this.media == media && this.isValidId == isValidId
    {
      chats := [];
      this.directory := directory;
      this.media := media;
      this.isValidId := isValidId;
    }

    /** POST /: a message from `actor` to `userId`, appended to their direct
        chat or starting one. The image, if any, is uploaded before the chat
        is looked up. */
    method SendDirect(actor: Id, userId: Option<string>, text: Option<string>, image: Option<ImageFile>,
                      freshId: Id) returns (r: Result<Chat, ChatError>)
      requires Valid() && Unused(chats, freshId)
      modifies this, media
      ensures Valid()
      ensures media.destroyed == old(media.destroyed)
      ensures SendDirectError(directory.users, isValidId, actor, userId, text, image).Some? ==>
                r == Failure(SendDirectError(directory.users, isValidId, actor, userId, text, image).value)
                && chats == old(chats) && media.uploaded == old(media.uploaded)
      ensures SendDirectError(directory.users, isValidId, actor, userId, text, image).None? ==>
                var m := NewMessage(actor, text, StoredAsset(image));
                && chats == Deliver(old(chats), actor, userId.value, m, freshId)
                && r == Success(chats[DeliverIndex(old(chats), actor, userId.value)])
                && media.uploaded == old(media.uploaded) + UploadedPaths(image)
      ensures MessagesOnlyGrow(old(chats), chats)
      ensures DirectUnique(old(chats)) ==> DirectUnique(chats)
    {
      var e := SendDirectError(directory.users, isValidId, actor, userId, text, image);
      if e.Some? {
        return Failure(e.value);
      }
      r := Send(actor, userId.value, text, image, freshId);
    }

    /** The steps of POST / once its checks pass: the image is uploaded, then
        the message is delivered to the direct chat of the pair. */
    method Send(actor: Id, to: Id, text: Option<string>, image: Option<ImageFile>, freshId: Id)
      returns (r: Result<Chat, ChatError>)
      requires Valid() && Unused(chats, freshId) && actor != to
      modifies this, media
      ensures Valid()
      ensures media.destroyed == old(media.destroyed)
      ensures var m := NewMessage(actor, text, StoredAsset(image));
              && chats == Deliver(old(chats), actor, to, m, freshId)
              && r == Success(chats[DeliverIndex(old(chats), actor, to)])
              && media.uploaded == old(media.uploaded) + UploadedPaths(image)
      ensures MessagesOnlyGrow(old(chats), chats)
      ensures DirectUnique(old(chats)) ==> DirectUnique(chats)
    {
      var stored := media.UploadIfAny(image);
      var m := NewMessage(actor, text, stored);
      DeliverLands(chats, actor, to, m, freshId);
      if DirectUnique(chats) {
        DeliverKeepsDirectUnique(chats, actor, to, m, freshId);
      }
      DeliverKeepsDistinctIds(chats, actor, to, m, freshId);
      var k := DeliverIndex(chats, actor, to);
      chats := Deliver(chats, actor, to, m, freshId);
      r := Success(chats[k]);
    }

    /** POST /group: a new group of the listed users and the actor, with the
        actor as its admin. */
    method CreateGroup(actor: Id, userIds: Option<string>, groupName: Option<string>, photo: Option<ImageFile>,
                       freshId: Id) returns (r: Result<Chat, ChatError>)
      requires Valid() && Unused(chats, freshId)
      modifies this, media
      ensures Valid()
      ensures media.destroyed == old(media.destroyed)
      ensures CreateGroupError(old(chats), isValidId, actor, userIds, groupName, photo).Some? ==>
                r == Failure(CreateGroupError(old(chats), isValidId, actor, userIds, groupName, photo).value)
                && chats == old(chats) && media.uploaded == old(media.uploaded)
      ensures CreateGroupError(old(chats), isValidId, actor, userIds, groupName, photo).None? ==>
                var g := NewGroup(freshId, GroupIds(userIds.value), actor, groupName.value, StoredAsset(photo));
                && r == Success(g) && chats == old(chats) + [g]
                && media.uploaded == old(media.uploaded) + UploadedPaths(photo)
      ensures MessagesOnlyGrow(old(chats), chats)
      ensures DirectUnique(old(chats)) ==> DirectUnique(chats)
    {
      var e := GroupRequestError(chats, isValidId, actor, userIds, groupName, photo);
      if e.Some? {
        return Failure(e.value);
      }
      r := AddGroup(freshId, GroupIds(userIds.value), actor, groupName.value, photo);
    }

    /** The steps of POST /group once its checks pass: the photo is
        uploaded, then the group is created. */
    method AddGroup(freshId: Id, ids: seq<Id>, actor: Id, groupName: string, photo: Option<ImageFile>)
      returns (r: Result<Chat, ChatError>)
      requires Valid() && Unused(chats, freshId)
      modifies this, media
      ensures Valid()
      ensures media.destroyed == old(media.destroyed)
      ensures var g := NewGroup(freshId, ids, actor, groupName, StoredAsset(photo));
              && r == Success(g) && chats == old(chats) + [g]
              && media.uploaded == old(media.uploaded) + UploadedPaths(photo)
      ensures MessagesOnlyGrow(old(chats), chats)
      ensures DirectUnique(old(chats)) ==> DirectUnique(chats)
    {
      var stored := media.UploadIfAny(photo);
      var g := NewGroup(freshId, ids, actor, groupName, stored);
      if DirectUnique(chats) {
        AddGroupKeepsDirectUnique(chats, g);
      }
      AppendKeepsDistinctIds(chats, g);
      chats := chats + [g];
      r := Success(g);
    }

    /** PUT /group/newMessage: a message appended to the chat `groupId`,
        whoever sends it and whatever kind of chat it is. */
    method AppendGroupMessage(actor: Id, groupId: Option<string>, text: Option<string>, image: Option<ImageFile>)
      returns (r: Result<Chat, ChatError>)
      requires Valid()
      modifies this, media
      ensures Valid()
      ensures media.destroyed == old(media.destroyed)
      ensures GroupMessageError(old(chats), isValidId, groupId, text, image).Some? ==>
                r == Failure(GroupMessageError(old(chats), isValidId, groupId, text, image).value)
                && chats == old(chats) && media.uploaded == old(media.uploaded)
      ensures GroupMessageError(old(chats), isValidId, groupId, text, image).None? ==>
                var k := FindById(old(chats), groupId, isValidId).index;
                var c := WithMessage(old(chats)[k], NewMessage(actor, text, StoredAsset(image)));
                && r == Success(c) && chats == old(chats)[k := c]
                && media.uploaded == old(media.uploaded) + UploadedPaths(image)
      ensures MessagesOnlyGrow(old(chats), chats)
      ensures DirectUnique(old(chats)) ==> DirectUnique(chats)
    {
      var e := GroupMessageError(chats, isValidId, groupId, text, image);
      if e.Some? {
        return Failure(e.value);
      }
      var k := FindById(chats, groupId, isValidId).index;
      var stored := media.UploadIfAny(image);
      var c := WithMessage(chats[k], NewMessage(actor, text, stored));
      Replace(k, c);
      r := Success(c);
    }

    /** PUT /group/addUser. */
    method AddMember(actor: Id, groupId: Option<string>, userId: Option<string>) returns (r: Result<Chat, ChatError>)
      requires Valid()
      modifies this
      ensures Valid()
      ensures AddMemberError(old(chats), directory.users, isValidId, actor, groupId, userId).Some? ==>
                r == Failure(AddMemberError(old(chats), directory.users, isValidId, actor, groupId, userId).value)
                && chats == old(chats)
      ensures AddMemberError(old(chats), directory.users, isValidId, actor, groupId, userId).None? ==>
                var k := FindById(old(chats), groupId, isValidId).index;
                var c := AddedMember(old(chats)[k], userId.value);
                r == Success(c) && chats == old(chats)[k := c]
      ensures MessagesOnlyGrow(old(chats), chats)
    {
      var e := AddMemberError(chats, directory.users, isValidId, actor, groupId, userId);
      if e.Some? {
        return Failure(e.value);
      }
      var k := FindById(chats, groupId, isValidId).index;
      var c := AddedMember(chats[k], userId.value);
      Replace(k, c);
      r := Success(c);
    }

    /** PUT /group/removeUser. */
    method RemoveMember(actor: Id, groupId: Option<string>, userId: Option<string>) returns (r: Result<Chat, ChatError>)
      requires Valid()
      modifies this
      ensures Valid()
      ensures RemoveMemberError(old(chats), directory.users, isValidId, actor, groupId, userId).Some? ==>
                r == Failure(RemoveMemberError(old(chats), directory.users, isValidId, actor, groupId, userId).value)
                && chats == old(chats)
      ensures RemoveMemberError(old(chats), directory.users, isValidId, actor, groupId, userId).None? ==>
                var k := FindById(old(chats), groupId, isValidId).index;
                var c := RemovedMember(old(chats)[k], userId.value);
                r == Success(c) && chats == old(chats)[k := c]
      ensures MessagesOnlyGrow(old(chats), chats)
      ensures DirectUnique(old(chats)) ==> DirectUnique(chats)
    {
      var e := RemoveMemberError(chats, directory.users, isValidId, actor, groupId, userId);
      if e.Some? {
        return Failure(e.value);
      }
      var k := FindById(chats, groupId, isValidId).index;
      var c := RemovedMember(chats[k], userId.value);
      MemberChangesKeepDirectMembers(chats[k], userId.value);
      Replace(k, c);
      r := Success(c);
    }

    /** PUT /group: rename and change the photo. The new photo is uploaded
        before the old one is destroyed. */
    method EditGroup(actor: Id, id: Option<string>, name: Option<string>, photo: Option<ImageFile>)
      returns (r: Result<Chat, ChatError>)
      requires Valid()
      modifies this, media
      ensures Valid()
      ensures EditGroupError(old(chats), isValidId, actor, id, name, photo).Some? ==>
                r == Failure(EditGroupError(old(chats), isValidId, actor, id, name, photo).value)
                && chats == old(chats)
                && media.uploaded == old(media.uploaded) && media.destroyed == old(media.destroyed)
      ensures EditGroupError(old(chats), isValidId, actor, id, name, photo).None? ==>
                var k := FindById(old(chats), id, isValidId).index;
                var c := EditedGroup(old(chats)[k], name, StoredAsset(photo));
                r == Success(c) && chats == old(chats)[k := c]
      ensures EditGroupError(old(chats), isValidId, actor, id, name, photo).None? ==>
                var k := FindById(old(chats), id, isValidId).index;
                && media.uploaded == old(media.uploaded) + UploadedPaths(photo)
                && media.destroyed == old(media.destroyed) + ReplacedPhoto(old(chats)[k], photo)
      ensures MessagesOnlyGrow(old(chats), chats)
      ensures DirectUnique(old(chats)) ==> DirectUnique(chats)
    {
      var e := EditGroupError(chats, isValidId, actor, id, name, photo);
      if e.Some? {
        return Failure(e.value);
      }
      var k := FindById(chats, id, isValidId).index;
      var stored := ReplacePhoto(chats[k], photo);
      var c := EditedGroup(chats[k], name, stored);
      Replace(k, c);
      r := Success(c);
    }

    /** PUT /group/removephoto: the photo named in the request is destroyed
        once the admin check has passed. */
    method RemoveGroupPhoto(actor: Id, id: Option<string>, photoPublicId: string) returns (r: Result<Chat, ChatError>)
      requires Valid()
      modifies this, media
      ensures Valid()
      ensures media.uploaded == old(media.uploaded)
      ensures RemovePhotoError(old(chats), isValidId, actor, id).Some? ==>
                r == Failure(RemovePhotoError(old(chats), isValidId, actor, id).value)
                && chats == old(chats) && media.destroyed == old(media.destroyed)
      ensures RemovePhotoError(old(chats), isValidId, actor, id).None? ==>
                var k := FindById(old(chats), id, isValidId).index;
                && r == Success(PhotoRemoved(old(chats)[k])) && chats == old(chats)[k := PhotoRemoved(old(chats)[k])]
                && media.destroyed == old(media.destroyed) + [photoPublicId]
      ensures MessagesOnlyGrow(old(chats), chats)
      ensures DirectUnique(old(chats)) ==> DirectUnique(chats)
    {
      var e := RemovePhotoError(chats, isValidId, actor, id);
      if e.Some? {
        return Failure(e.value);
      }
      var k := FindById(chats, id, isValidId).index;
      media.Destroy(photoPublicId);
      var c := PhotoRemoved(chats[k]);
      Replace(k, c);
      r := Success(c);
    }

    /** PUT /group/leavegroup/:id: the actor is filtered out and the first
        remaining member becomes admin, whether or not the actor was a
        member or the admin. */
    method LeaveGroup(actor: Id, id: string) returns (r: Result<Chat, ChatError>)
      requires Valid()
      modifies this
      ensures Valid()
      ensures LeaveError(old(chats), isValidId, id).Some? ==>
                r == Failure(LeaveError(old(chats), isValidId, id).value) && chats == old(chats)
      ensures LeaveError(old(chats), isValidId, id).None? ==>
                var k := FindById(old(chats), Some(id), isValidId).index;
                r == Success(AfterLeave(old(chats)[k], actor)) && chats == old(chats)[k := AfterLeave(old(chats)[k], actor)]
      ensures MessagesOnlyGrow(old(chats), chats)
      ensures DirectUnique(old(chats)) ==> DirectUnique(chats)
    {
      var e := LeaveError(chats, isValidId, id);
      if e.Some? {
        return Failure(e.value);
      }
      var k := FindById(chats, Some(id), isValidId).index;
      var c := AfterLeave(chats[k], actor);
      MemberChangesKeepDirectMembers(chats[k], actor);
      Replace(k, c);
      r := Success(c);
    }

    /** The photo part of a group edit: upload the new photo, then destroy
        the old one when it has a public id. */
    method ReplacePhoto(c: Chat, photo: Option<ImageFile>) returns (stored: Option<Asset>)
      modifies media
      ensures stored == StoredAsset(photo)
      ensures media.uploaded == old(media.uploaded) + UploadedPaths(photo)
      ensures media.destroyed == old(media.destroyed) + ReplacedPhoto(c, photo)
    {
      stored := media.UploadIfAny(photo);
      if photo.Some? && Present(c.groupPhotoPublicId) {
        media.Destroy(c.groupPhotoPublicId.value);
      }
    }

    /** `findByIdAndUpdate` on the chat at `k` with a change that keeps its
        id and its messages. */
    method Replace(k: nat, c: Chat)
      requires Valid() && k < |chats| && c.id == chats[k].id && chats[k].messages <= c.messages
      modifies this
      ensures Valid() && chats == old(chats)[k := c]
      ensures MessagesOnlyGrow(old(chats), chats)
      ensures DirectUnique(old(chats)) && NoNewDirectMember(old(chats)[k], c) ==> DirectUnique(chats)
    {
      if DirectUnique(chats) && NoNewDirectMember(chats[k], c) {
        UpdateKeepsDirectUnique(chats, k, c);
      }
      chats := chats[k := c];
    }
  }
}
