/**
 * The durable records of the chat backend: the Mongo `Message` and `Chat`
 * documents. Array fields (`readBy`, `seenBy`, `reactions`, `deletedFor`,
 * `members`) keep the order in which Mongo stores them; nullable string
 * fields are `Option<string>`.
 */
module Models {
  import opened Base

  /** One entry of a message's `reactions` array. */
  datatype Reaction = Reaction(user: UserId, emoji: string)

  datatype Message = Message(
    id: MessageId,
    chat: ChatId,
    sender: UserId,
    text: Option<string>,
    mediaUrl: Option<string>,
    mediaType: Option<string>,
    publicId: Option<string>,
    readBy: seq<UserId>,
    seenBy: seq<UserId>,
    reactions: seq<Reaction>,
    deletedFor: seq<UserId>,
    isDeletedGlobally: bool)

  /** `admin` is only set on group chats; `chatName` is the group's name. */
  datatype Chat = Chat(
    id: ChatId,
    members: seq<UserId>,
    isGroup: bool,
    chatName: Option<string>,
    admin: Option<UserId>)

  /** A freshly created message document: every array empty and not deleted,
      as the schema's defaults give it. */
  function NewMessage(id: MessageId, chat: ChatId, sender: UserId, text: Option<string>,
                      mediaUrl: Option<string>, mediaType: Option<string>,
                      publicId: Option<string>): (m: Message)
    ensures m.id == id && m.chat == chat && m.sender == sender
    ensures m.text == text && m.mediaUrl == mediaUrl && m.mediaType == mediaType && m.publicId == publicId
    ensures m.readBy == [] && m.seenBy == [] && m.reactions == [] && m.deletedFor == []
    ensures !m.isDeletedGlobally
  {
    Message(id, chat, sender, text, mediaUrl, mediaType, publicId, [], [], [], [], false)
  }
}
