/** The chat document of models/Chat.js: its fields, their defaults, and the
    message records embedded in it. */
module ChatSchema {

  import opened Common
  import opened Storage

  /** One entry of `messages`. The schema trims `text` when it is stored. */
  datatype Message = Message(
    sender: Id,
    text: Option<string>,
    image: Option<string>,
    imagePublicId: Option<string>)

  /** A chat. `users` is an ordered array of user references with no
      uniqueness constraint; `groupAdmin` is one optional reference. */
  datatype Chat = Chat(
    id: Id,
    users: seq<Id>,
    isGroupChat: bool,
    groupName: Option<string>,
    groupPhoto: Option<string>,
    groupPhotoPublicId: Option<string>,
    groupAdmin: Option<Id>,
    messages: seq<Message>)

  /** The group photo used when none was uploaded or after it is removed. */
  const GroupPlaceholder: string := "https://icon-library.com/images/persons-icon/persons-icon-11.jpg"

  /** A message has text with something in it or an image. */
  predicate HasContent(m: Message) {
    (m.text.Some? && m.text.value != []) || m.image.Some?
  }

  /** The message a route builds: the sender, `text` only when it is a
      non-empty string (stored trimmed), and the uploaded image if any. When
      the routes' guard holds (text that is not blank, or an image) the stored
      message is never empty; stored text never starts or ends with white
      space. */
  function NewMessage(sender: Id, text: Option<string>, image: Option<Asset>): (m: Message)
    ensures m.sender == sender
    ensures Filled(text) || image.Some? ==> HasContent(m)
    ensures m.text.Some? <==> Present(text)
    ensures Present(text) ==> m.text == Some(Trim(text.value))
    ensures m.text.Some? && m.text.value != [] ==>
              !IsSpace(m.text.value[0]) && !IsSpace(m.text.value[|m.text.value| - 1])
    ensures m.image.Some? <==> image.Some?
    ensures image.Some? ==> m.image == Some(image.value.url) && m.imagePublicId == Some(image.value.publicId)
    ensures image.None? ==> m.imagePublicId == None
  {
    Message(
      sender,
      if Present(text) then Some(Trim(text.value)) else None,
      if image.Some? then Some(image.value.url) else None,
      if image.Some? then Some(image.value.publicId) else None)
  }

  /** `new Chat({ users, messages })`: every other field takes its schema
      default, so the result is a direct chat with no name, photo or admin. */
  function NewDirectChat(id: Id, users: seq<Id>, messages: seq<Message>): (c: Chat)
    ensures !c.isGroupChat && c.groupAdmin == None
    ensures c.groupName == None && c.groupPhoto == None && c.groupPhotoPublicId == None
    ensures c.id == id && c.users == users && c.messages == messages
  {
    Chat(id, users, false, None, None, None, None, messages)
  }
}
