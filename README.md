# ChatNow backend: chats, users and live fan-out

This project models the core of the ChatNow messaging backend:

- **routes/chats.js** (`Chats.ChatStore`): the chat collection and the handlers that change it. These handlers cover:
  - sending a direct message, which appends it to the pair's chat or creates that chat;
  - creating a group;
  - posting to a group;
  - adding and removing members;
  - editing a group's name and photo;
  - removing a group's photo;
  - leaving a group;
  - listing a user's chats.
- **routes/users.js** (`Users.UserStore`): registration with its password pattern, profile edits, removing the profile picture, and the user search.
- **server.js** (`Fanout`): the socket handlers. Each becomes a function from the chat's members to the list of (recipient, event) pairs it emits.
- **models/Chat.js** and **models/User.js** (`ChatSchema`, `UserSchema`): the documents and their defaults.

The checks each handler makes before it changes anything are pure functions in `ChatQueries` and `Users`. Each is stated by an if-and-only-if: exactly which requests pass. Each handler method computes that check and returns the error when there is one. Otherwise it:

1. uploads to the image store, or deletes from it;
2. writes one document;
3. ensures the new collection, the answer and the image-store calls.

The image store (`Storage.MediaStore`) is a log of the paths uploaded and the public ids destroyed. A request that fails one of the handler's checks leaves both logs unchanged. Registration is the one exception: the unique index can still refuse the save after the picture has been uploaded.

The invariants the model tracks, and the lemmas that say which handlers keep or break them:

- chat ids stay distinct;
- messages are only appended;
- there is at most one direct chat per pair of users;
- the admin of a group is one of its members.

External services become parameters:

- `mongoose.Types.ObjectId.isValid` and the e-mail validator are uninterpreted `string -> bool` values;
- a new document's ObjectId is a `freshId` argument that is not in use;
- the asset an upload returns travels with the uploaded file (`ImageFile.stored`).

String lengths limited by the routes (`name.length` and the password pattern) are counted in UTF-16 code units, as JavaScript counts them (`Common.Utf16Length`).

A request field that is absent is `None`. A field is "present" when the JavaScript value is truthy, and "filled" when `?.trim()` is truthy. An exception (a 500 answer, or a throw before the handler's `try`) is the `ServerError` error.

## Model

| member | source | states |
|---|---|---|
| Common.Trim | routes/chats.js:136 | `trim()` gives the piece of the string left after its leading and trailing white space, all of it white space (`AllSpace`), is cut off; the result is empty iff the string is all white space, and otherwise starts and ends with a non-space character |
| Common.TrimWindow | routes/chats.js:136 | trimming the start, then the end, leaves the piece of the string that begins at its first non-space character and is followed only by white space; the piece is empty iff the string is all white space |
| Common.Utf16Length | routes/chats.js:420 | `length` counts at least one and at most two code units per character; it equals the number of characters iff no character lies outside the Basic Multilingual Plane; a single character counts two units outside that plane and one inside it |
| Common.Utf16LengthAppend | routes/chats.js:420 | the `length` of a concatenation is the sum of the lengths, which with the one-character case fixes the count on every string |
| Common.Filled | routes/chats.js:26 | a field whose `?.trim()` is truthy is also truthy |
| Common.Split | routes/chats.js:128 | `split(',')` gives one more part than there are commas, and no part contains a comma |
| Common.JoinSplit | routes/chats.js:136 | joining the parts of a split with the separator gives back the original string |
| Common.SplitJoin | routes/chats.js:136 | splitting a join of comma-free parts gives back the parts |
| Common.TooLarge | routes/chats.js:54 | an image is refused iff its size in bytes divided by 1024*1024 exceeds 1 |
| Common.ContainsIgnoringCaseWindow | routes/users.js:246-247 | a case-insensitive match of the keyword is a window of the name, at some offset, equal to the keyword up to case |
| Storage.StoredAsset | routes/chats.js:64-72 | an upload yields an asset iff a file was sent, and that asset is the one the store returned for it |
| Storage.UploadedPaths | routes/chats.js:64 | at most one path is uploaded: the file's temporary path when a file was sent, none otherwise |
| Storage.MediaStore.Upload | routes/chats.js:64 | the temporary path is appended to the upload log, the asset is returned, and the delete log is unchanged |
| Storage.MediaStore.UploadIfAny | routes/chats.js:52-73 | uploads exactly when a file was sent; the logs grow by `UploadedPaths` only |
| Storage.MediaStore.Destroy | routes/chats.js:493 | the public id is appended to the delete log and the upload log is unchanged |
| ChatSchema.NewMessage | routes/chats.js:46-73 | the sender is the actor; text is kept iff it is truthy, and it is then stored trimmed, as the schema asks; the image URL and public id come from the upload, and there are neither without an upload; a message with filled text or an image has content |
| ChatSchema.NewDirectChat | routes/chats.js:97-102 | a new direct chat is not a group, has no admin, name or photo, and holds exactly the two users and the first message |
| UserSchema.NewUser | models/User.js:3-31 | a new user has the given fields, the default status, and either the uploaded picture or the default picture with no public id |
| UserSchema.IndexOf | routes/users.js:130 | `findById` finds the user with that id, or reports that no user has it |
| ChatQueries.First | routes/chats.js:75-80 | `findOne` returns the first chat in store order that satisfies the filter, or none when no chat does |
| ChatQueries.FindDirect | routes/chats.js:75-80 | the direct-chat query (`DirectWith`: not a group, and both users among the members) returns the first matching chat, or none iff no chat matches |
| ChatQueries.FindGroup | routes/chats.js:156-161 | the duplicate-group query (`GroupContaining`: a group whose members include every listed id) returns the first matching chat, or none iff no chat matches |
| ChatQueries.FindById | routes/chats.js:233-237 | `findById` fails with a cast error iff the id is malformed; it finds nothing iff the id is absent or no chat has it; otherwise it returns the chat with that id |
| ChatQueries.ChatsOf | routes/chats.js:546 | GET / returns exactly the chats that list the user as a member |
| ChatQueries.Without | routes/chats.js:524 | the `filter` removes every copy of the id and keeps every other member with its multiplicity |
| ChatQueries.WithMessage | routes/chats.js:86 | exactly one element is added to the messages, at the end, and it is the message; the earlier messages and every other field are unchanged |
| ChatQueries.AddedMember | routes/chats.js:327 | exactly one element is added to the members, at the end, and it is the user, even when already listed; the earlier members and every other field are unchanged |
| ChatQueries.RemovedMember | routes/chats.js:376-380 | the members become the filter that drops every occurrence of the user (`Without`), so every other member keeps its multiplicity; the admin and every other field are unchanged |
| ChatQueries.AfterLeave | routes/chats.js:522-527 | the members become the filter that drops every occurrence of the leaver (`Without`), so every other member keeps its multiplicity; the new admin is a remaining member other than the leaver, or unset when nobody remains; nothing else changes |
| ChatQueries.LeaveSuccession | routes/chats.js:524-525 | the new admin is the earliest-listed member who is not the leaver |
| ChatQueries.EditedGroup | routes/chats.js:424-457 | the name changes iff a truthy name was sent; the photo and its public id change iff a photo was uploaded; nothing else changes |
| ChatQueries.PhotoRemoved | routes/chats.js:489-495 | the photo becomes the group placeholder; the public id and every other field are kept |
| ChatQueries.GroupIds | routes/chats.js:136 | one id for each comma-separated part, in order, each the trimmed part |
| ChatQueries.NewGroup | routes/chats.js:167-202 | a new group has the given id and lists the ids, then the actor; the actor is its admin and a member; it has no messages; the photo is the upload or the placeholder |
| ChatQueries.SendDirectError | routes/chats.js:22-62 | a direct message passes iff the receiver id is truthy and well-formed, the receiver is registered and is not the sender, the text is filled or an image is attached, and the image is at most 1 MiB; a message to oneself is always refused |
| ChatQueries.CreateGroupError | routes/chats.js:128-185 | fewer than two parts is TooFewParticipants; a group passes iff its ids are given and number at least two, the name is filled, the actor is not listed, every id is well-formed, no group already contains them all with the actor, and the photo is at most 1 MiB |
| ChatQueries.SupersetBlocksGroup | routes/chats.js:156-165 | an existing group that contains all the listed users and the actor, even with extra members, blocks the new group as a duplicate |
| ChatQueries.GroupMessageError | routes/chats.js:228-256 | a group message passes iff it has filled text or an image, the chat exists, and the image is at most 1 MiB; membership and group status are not checked |
| ChatQueries.AddMemberError | routes/chats.js:296-323 | an add passes iff both ids are truthy and well-formed, the chat exists, the user is registered and not yet a member, and the actor is the admin; adding a current member is AlreadyMember |
| ChatQueries.RemoveMemberError | routes/chats.js:351-374 | a removal passes iff both ids are truthy and well-formed, the chat exists, the user is registered, and the actor is the admin |
| ChatQueries.EditGroupError | routes/chats.js:405-440 | an edit passes iff the id is present and not blank, the chat exists, the actor is its admin, a name that is sent is not blank and has a length of at most 50 code units, and the photo is at most 1 MiB |
| ChatQueries.RemovePhotoError | routes/chats.js:483-487 | photo removal passes iff the chat exists and the actor is its admin; a chat with another admin answers NotAdmin; every other refusal, a missing chat included, is ServerError, since there is no not-found answer |
| ChatQueries.LeaveError | routes/chats.js:516-534 | leaving passes iff the chat exists; a malformed or unknown id is GroupNotFound |
| ChatQueries.DeliverIndex | routes/chats.js:75-82 | a send lands at an existing chat's position iff the direct-chat query finds one, and otherwise at the end |
| ChatQueries.Deliver | routes/chats.js:82-104 | a send adds at most one chat and keeps the id of every existing chat |
| ChatQueries.DeliverLands | routes/chats.js:75-109 | a direct message is appended to the pair's chat, or a new chat `[actor, receiver]` holds it; no other chat changes; afterwards the chat is found from either side |
| ChatQueries.RepeatedSendsShareChat | routes/chats.js:75-102 | after one send, later sends in either direction append to that same chat |
| ChatQueries.DeliverKeepsDirectUnique | routes/chats.js:75-102 | sending keeps at most one direct chat per pair, and never removes a message |
| ChatQueries.UpdateKeepsDirectUnique | routes/chats.js:325-330 | replacing one chat by one that brings no new member into a direct chat keeps at most one direct chat per pair |
| ChatQueries.MemberChangesKeepDirectMembers | routes/chats.js:317-329 | removing and leaving never give a direct chat a new member; adding does so exactly when the chat is direct and the user is not already in it |
| ChatQueries.AddGroupKeepsDirectUnique | routes/chats.js:169-170 | a new group leaves the direct chats as they were |
| ChatQueries.LeaveThenAddBreaksDirectUnique | routes/chats.js:514-527 | a first send, the leave, a second send and the add, each shown to pass its handler's checks, yield two direct chats for one pair |
| ChatQueries.HandlersKeepAdminIsMember | routes/chats.js:524-525 | leaving keeps the admin a member; so do adding to a non-empty chat and removing someone other than the admin |
| ChatQueries.AdminRemovingSelfLeavesAdminOutside | routes/chats.js:372-380 | an admin who removes themself stays admin without being a member |
| ChatQueries.AnyChatTakesGroupMessages | routes/chats.js:233-237 | a group message with text is accepted for any existing chat, a direct chat included, whoever sends it |
| ChatQueries.OutsiderLeaveResetsAdmin | routes/chats.js:524-525 | a non-member who leaves changes no members, but makes the first member admin |
| Users.AheadMatchesAnywhere | routes/users.js:22 | the lookahead `(?=.*x)` matches a line iff some character of it is an `x` |
| Users.DotsBetweenLength | routes/users.js:22 | `.{lo,hi}$`, with each `.` taking one code unit, matches iff the UTF-16 length is between lo and hi and there is no line terminator |
| Users.PasswordPattern | routes/users.js:22 | a password that matches the pattern has a UTF-16 length of 6 to 15 and no line terminator |
| Users.PasswordRule | routes/users.js:22 | the password pattern holds iff the password has a UTF-16 length of 6 to 15, no line terminator, a digit and an ASCII letter |
| Users.RegisterError | routes/users.js:18-58 | registration passes iff name and username are filled, the e-mail is valid, the password matches the pattern, no user has the e-mail, and the picture is at most 1 MiB |
| Users.TakenUsernamePassesRegisterChecks | routes/users.js:36-44 | a request whose username is taken still passes every check, and the save then fails on the unique index |
| Users.EditError | routes/users.js:130-174 | an edit passes iff the user exists; each sent name and username is non-blank with a length of at most 25 code units; a sent status is non-blank with at most 100; a sent username belongs to nobody; and the picture is at most 1 MiB |
| Users.OwnUsernameIsTaken | routes/users.js:151-156 | resending one's own username is refused as taken |
| Users.EditedUser | routes/users.js:148-193 | name, username and status change iff a truthy value was sent; the picture and its public id change iff one was uploaded; id and e-mail never change |
| Users.Superseded | routes/users.js:185-187 | the old picture is destroyed iff a new one was uploaded and the old one has a public id |
| Users.PictureRemoved | routes/users.js:215-221 | the picture becomes the default; every other field, the public id included, is kept |
| Users.MatchesKeyword | routes/users.js:244-248 | a user matches iff the keyword occurs, ignoring case, at some position of the name or of the username |
| Users.Search | routes/users.js:243-255 | the search returns exactly the users other than the requester, each of them matching the keyword case-insensitively in name or username when a keyword is given |
| Users.SaveKeepsWellFormed | routes/users.js:95 | a save that the schema accepts keeps ids, e-mails and usernames unique and the required fields filled |
| Users.ReplaceKeepsWellFormed | routes/users.js:193 | an update that keeps id and e-mail, and takes a free username, keeps the collection well formed |
| Users.EditKeepsWellFormed | routes/users.js:148-193 | an accepted edit keeps the collection well formed |
| Users.UserStore.Register | routes/users.js:18-116 | a rejected request changes nothing and uploads nothing; an accepted one uploads the picture and adds the user with trimmed name and username, unless the save breaks a unique index, which is a server error after the upload |
| Users.UserStore.Admit | routes/users.js:60-95 | once the checks pass, the picture, if any, is uploaded; then the user with trimmed name and username is saved, or refused as a server error with the upload already made |
| Users.UserStore.Save | routes/users.js:95 | a user the unique indexes or required fields refuse is a server error and changes nothing; otherwise the user is appended |
| Users.UserStore.Edit | routes/users.js:123-202 | a rejected edit changes nothing; an accepted one replaces the user by the edited user, uploads the new picture and destroys the superseded one |
| Users.UserStore.ReplacePicture | routes/users.js:163-191 | uploads the new picture, then destroys the old one when it has a public id |
| Users.UserStore.RemovePhoto | routes/users.js:208-230 | the given public id is always destroyed; the user, when found, gets the default picture |
| Chats.CollectInvalid | routes/chats.js:142-151 | collects exactly the malformed ids; it is empty iff every id is well-formed |
| Chats.GroupRequestError | routes/chats.js:128-165 | the handler's checks, in its order, give the same answer as `CreateGroupError` |
| Chats.AppendKeepsDistinctIds | routes/chats.js:202-204 | saving a chat under an unused id keeps chat ids distinct |
| Chats.DeliverKeepsDistinctIds | routes/chats.js:82-104 | a direct message keeps chat ids distinct |
| Chats.ReplacedPhoto | routes/chats.js:451-453 | the old group photo is destroyed iff a new one was uploaded and the old one has a public id |
| Chats.ChatStore.SendDirect | routes/chats.js:16-115 | a rejected send changes nothing and uploads nothing; an accepted one uploads the image, delivers the message and answers with the pair's chat; direct chats stay unique and messages only grow |
| Chats.ChatStore.Send | routes/chats.js:64-104 | once the checks pass, the image, if any, is uploaded, and the message is delivered to the pair's direct chat, or to a new one when there is none; ids stay distinct and direct chats stay unique |
| Chats.ChatStore.CreateGroup | routes/chats.js:122-215 | a rejected request changes nothing; an accepted one uploads the photo and appends the new group; ids stay distinct and direct chats stay unique |
| Chats.ChatStore.AddGroup | routes/chats.js:187-204 | once the checks pass, the photo, if any, is uploaded and the new group is appended; ids stay distinct and direct chats stay unique |
| Chats.ChatStore.AppendGroupMessage | routes/chats.js:222-286 | a rejected message changes nothing; an accepted one uploads the image and appends the message to that chat only |
| Chats.ChatStore.AddMember | routes/chats.js:292-341 | a rejected add changes nothing; an accepted one appends the user to that chat only |
| Chats.ChatStore.RemoveMember | routes/chats.js:347-392 | a rejected removal changes nothing; an accepted one filters the user out of that chat only; direct chats stay unique |
| Chats.ChatStore.EditGroup | routes/chats.js:399-472 | a rejected edit changes nothing and calls no store; an accepted one uploads the photo, destroys the one it replaces, and updates that chat only |
| Chats.ChatStore.RemoveGroupPhoto | routes/chats.js:478-508 | a rejected request destroys nothing; an accepted one destroys the given public id and puts back the placeholder |
| Chats.ChatStore.LeaveGroup | routes/chats.js:514-537 | leaving an unknown chat changes nothing; otherwise the actor is filtered out and the first remaining member becomes admin |
| Chats.ChatStore.ReplacePhoto | routes/chats.js:442-457 | uploads the new photo, then destroys the old one when it has a public id |
| Chats.ChatStore.Replace | routes/chats.js:325-330 | `findByIdAndUpdate` replaces one chat; ids stay distinct and messages only grow |
| Fanout.AllExcept | server.js:56-60 | one event for each member other than the skipped id, in member order, all of the same kind |
| Fanout.OnNewMessage | server.js:54-61 | every member except the sender receives "message received" |
| Fanout.OnNewGroup | server.js:63-70 | every member except the admin receives "group created" |
| Fanout.OnEditGroup | server.js:72-79 | every member except the admin receives "group edited" |
| Fanout.OnGroupPhotoRemove | server.js:81-88 | every member except the admin receives "group photo removed" |
| Fanout.Split2 | server.js:92-101 | the loop shared by the two membership events emits at most one event per member, never to the admin, and only to members |
| Fanout.OnAddToGroup | server.js:90-102 | every member except the admin is notified; "added to group" goes exactly to the added user, and "other user added to group" to the rest |
| Fanout.AddToGroupSplit | server.js:90-102 | the two audiences are disjoint, together they are the members other than the admin, and the first is at most the added user |
| Fanout.RemoveFromGroupAsWritten | server.js:104-116 | as written, the handler completes only when every member is the admin, and then emits nothing |
| Fanout.RemoveFromGroupNeverDelivers | server.js:109 | for the group [admin, other], the handler as written emits nothing, while the corrected one emits one event |
| Fanout.OnRemoveFromGroup | server.js:104-116 | corrected: every member except the admin is notified; "removed from group" goes exactly to the removed user |
| Fanout.RemoveFromGroupSplit | server.js:104-116 | the two audiences are disjoint, together they are the members other than the admin, and the first is at most the removed user |
| Fanout.RemovedUserAbsentFromAnswer | routes/chats.js:376-380 | when the handler is given the members of the group the route returns, the removed user is no longer among them, so every event is "other user removed from group"; this assumes each member arrives as an object carrying its id, and the admin as its id string |
| Fanout.OnLeaveGroup | server.js:118-125 | every member except the admin receives "user left" |
| Fanout.LeaveNotifiesRemaining | server.js:118-125 | when the handler is given the group after a leave, the remaining members other than the new admin are notified, and the leaver is not; this assumes each member arrives as an object carrying its id, and the admin as its id string |
| Fanout.OnTyping | server.js:127-134 | every member except the typist receives "typing started" with the name |
| Fanout.OnStopTyping | server.js:136-143 | every member except the typist receives "typing stopped" |

## Left out

- Message dates and document timestamps are not modelled: they are clock values.
- ChatQueries.ChatsOf: returns the chats in store order. GET / (routes/chats.js:546-550) returns them sorted by `updatedAt`, newest first. The sort depends on timestamps, which are not modelled. On the other routes the sort applies to a single document and changes nothing.
- Password hashing (bcrypt), token issuance (jsonwebtoken) and routes/auth.js are not modelled. Registration stores no password, and the actor of every handler is an argument.
- Deleting the temporary upload files (`fs.unlink`) and reading their size (`fs.statSync`) are not modelled. The size is a field of `ImageFile`.
- `populate` and `select('-password')` in the answers are not modelled. They change how an answer is shown, not what is stored.
- Concurrency between requests is not modelled: each handler runs atomically on the collection.
- Ids are taken in the canonical form the routes hand out: 24 lower-case hexadecimal characters, compared as strings. Mongoose casts the id argument of `findById` (routes/chats.js:36, 233, 305, 311, 360, 366, 410, 483, 516; routes/users.js:130) and of the `$all` queries (routes/chats.js:78, 159) to an ObjectId. That cast also accepts upper-case hexadecimal and 12-character strings, and maps them to the same document. The string comparisons in `includes` (routes/chats.js:138, 317) and the `toString()` filters (routes/chats.js:378, 524; routes/users.js:255) do not map them. This casting of non-canonical id forms is not modelled: such an id finds nothing in the model.
- Failures of the image store and the database are not modelled. Once its checks pass, every handler succeeds. In the source, any upload (routes/chats.js:64, 187, 258, 442; routes/users.js:60, 176), destroy (routes/chats.js:452, 493; routes/users.js:186, 219) or write (routes/chats.js:84, 104, 204, 269, 325, 376, 459, 495, 527; routes/users.js:95, 193, 221) may throw into the handler's `catch`, which answers 500. The calls made before it keep their effect. For example, an edit of a group photo that uploads the new photo and destroys the old one, and whose update then fails, leaves the chat pointing at the destroyed photo. Only the unique-index refusal of a registration save is modelled, as `Users.UserStore.Save`.
- The socket `join` and `disconnect` handlers and the room delivery itself are not modelled. A room is a user id, and an emit is a (recipient, event) pair.
- GET /users/:id and the server bootstrap (Express, CORS, listening) are not modelled; they hold no logic beyond a lookup.
- Common.Trim: treats only ASCII white space, line terminators, no-break space, U+FEFF and U+2028/U+2029 as white space. The other Unicode space separators are left out.
- ChatQueries.AfterLeave: when the last member leaves, the admin becomes unset. Whether Mongoose stores or drops the undefined admin depends on its version.
- Users.MatchesKeyword: folds case for ASCII letters only, and treats the keyword as literal text. In the source it is a regular expression.
- Users.UserStore.Register: the saved document carries no password field, and the e-mail validator is an uninterpreted predicate.
- Users.UserStore.RemovePhoto: the `profilePicturePublicID` body field is taken to be a string; an absent id is not modelled.
- Chats.ChatStore.RemoveGroupPhoto: the `photoPublicId` body field is taken to be a string.
- Fanout.OnAddToGroup: the group's admin is taken to arrive as an id string, and each member as an object whose `_id` is an id string. A missing admin, which makes the handler throw, is not modelled. The same holds for the other admin-skipping handlers.
- Fanout.OnNewGroup, Fanout.OnEditGroup, Fanout.OnGroupPhotoRemove, Fanout.OnAddToGroup, Fanout.OnRemoveFromGroup: the route answers populate `groupAdmin` into an object (routes/chats.js:206, 276, 332, 383, 462, 498). The client code is not part of this model, so it is not known what it forwards. If a client forwards such an answer unchanged, `groupAdmin.toString()` is "[object Object]" (server.js:66, 75, 84, 93), no member equals it, and the admin is notified too. The model's promise that the admin is skipped holds only for an admin sent as its id string.
- Fanout.OnLeaveGroup: the leave answer is not populated (routes/chats.js:527), so after JSON its `users` are id strings, not objects. If a client forwards that answer unchanged, every `user._id` at server.js:121-123 is undefined, and no member's room is reached. LeaveNotifiesRemaining assumes the members arrive as objects with an id, as the other answers give them.
- ChatQueries.SendDirectError: states exactly which requests pass. Among the failures, it pins only the image-size error and the refusal of a message to oneself.
- ChatQueries.CreateGroupError: states exactly which requests pass. Among the failures, it pins only TooFewParticipants.
- ChatQueries.GroupMessageError: states exactly which requests pass; it does not say which error each failure gives.
- ChatQueries.AddMemberError: states exactly which requests pass. Among the failures, it pins only AlreadyMember.
- ChatQueries.RemoveMemberError: states exactly which requests pass; it does not say which error each failure gives.
- ChatQueries.EditGroupError: states exactly which requests pass; it does not say which error each failure gives.
- Users.RegisterError: states exactly which requests pass; it does not say which error each failure gives.
- Users.EditError: states exactly which requests pass; it does not say which error each failure gives.
- In these places the model follows the code, which a reader might not expect:
  - A duplicate group is any group that contains all the listed users and the actor, not only one with the same member set.
  - A comma list that repeats an id makes a group with duplicate members.
  - An admin may remove themself and stays admin.
  - Group messages are accepted from anyone, for any chat.
  - Leaving checks neither membership nor the admin.

## Findings

| source | as written | input that shows it | evidently intended | confidence | as-written member | corrected member |
|---|---|---|---|---|---|---|
| server.js:109 | the "remove from group" handler compares each member with `id`, a name that is not declared in the handler, so it throws a ReferenceError at the first member who is not the admin | a group with members [admin, other] whose admin removes anyone: nothing is emitted | compare with `userId`, so that the removed user receives "removed from group" and every other non-admin member receives "other user removed from group" | not executed | Fanout.RemoveFromGroupAsWritten | Fanout.OnRemoveFromGroup |
