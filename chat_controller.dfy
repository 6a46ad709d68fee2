/**
 * The REST handlers of the chat controller that carry rules: deleting a
 * message (for everyone or for oneself), the admin-gated group membership
 * edits, group creation and find-or-create of a one-to-one chat. Each handler
 * is a function from the documents it loads to the HTTP status it answers
 * with and the document value it saves.
 */
module ChatController {
  import opened Base
  import opened Models
  import opened Store

  // ---------------------------------------------------------------------
  // Message deletion
  // ---------------------------------------------------------------------

  /** The `resource_type` given to the media store when a message's upload
      is destroyed. */
  datatype ResourceType = Image | Video | Raw

  function ResourceTypeOf(mediaType: Option<string>): (r: ResourceType)
    ensures r == Image <==> mediaType.Some? && StartsWith(mediaType.value, "image/")
    ensures r == Video <==> mediaType.Some? && StartsWith(mediaType.value, "video/")
    ensures r == Raw <==> mediaType.None? ||
                          (!StartsWith(mediaType.value, "image/") && !StartsWith(mediaType.value, "video/"))
  {
    if Truthy(mediaType) then
      if StartsWith(mediaType.value, "image/") then Image
      else if StartsWith(mediaType.value, "video/") then Video
      else Raw
    else Raw
  }

  /** The policy deletion for everyone must follow: nobody in the chat other
      than the sender has seen the message. */
  ghost predicate UnseenByOthers(chat: Chat, seenBy: seq<UserId>, sender: UserId) {
    forall u :: u in chat.members && u != sender ==> u !in seenBy
  }

  /** The eligibility test as the handler computes it: for a group, no other
      member is in `seenBy`; for a one-to-one chat, the first other member is
      not in `seenBy`, and a chat with no other member is eligible. */
  function CanDeleteForEveryone(chat: Chat, seenBy: seq<UserId>, sender: UserId): (r: bool)
    ensures UnseenByOthers(chat, seenBy, sender) ==> r
    ensures chat.isGroup && r ==> UnseenByOthers(chat, seenBy, sender)
  {
    if chat.isGroup then
      var others := Without(chat.members, sender);
      assert forall i :: 0 <= i < |others| ==> others[i] in others;
      !(exists i :: 0 <= i < |others| && others[i] in seenBy)
    else
      match FirstOther(chat.members, sender)
      case Some(recipient) => recipient !in seenBy
      case None => true
  }

  /** A one-to-one chat has at most one member besides `u`. */
  ghost predicate AtMostOneOther(members: seq<UserId>, u: UserId) {
    forall i, j :: 0 <= i < |members| && 0 <= j < |members| && members[i] != u && members[j] != u
      ==> members[i] == members[j]
  }

  /** The handler's test is the policy, for groups and for one-to-one chats
      of the shape the one-to-one chat handler creates. */
  lemma CanDeleteForEveryoneIsPolicy(chat: Chat, seenBy: seq<UserId>, sender: UserId)
    requires chat.isGroup || AtMostOneOther(chat.members, sender)
    ensures CanDeleteForEveryone(chat, seenBy, sender) <==> UnseenByOthers(chat, seenBy, sender)
  {
    if chat.isGroup {
      var others := Without(chat.members, sender);
      if !CanDeleteForEveryone(chat, seenBy, sender) {
        var i :| 0 <= i < |others| && others[i] in seenBy;
        assert others[i] in others;
      }
    } else {
      match FirstOther(chat.members, sender)
      case None =>
      case Some(recipient) =>
        var k :| 0 <= k < |chat.members| && chat.members[k] == recipient;
        forall u | u in chat.members && u != sender ensures u == recipient {
          var j :| 0 <= j < |chat.members| && chat.members[j] == u;
        }
    }
  }

  /** The media store's destroy call: the upload to release and its type. */
  datatype Release = Release(publicId: string, resourceType: ResourceType)

  /** The outcome of a deletion request: the HTTP status, the message as it
      is afterwards (`None` when there is none), the destroy call made, if
      any, and whether `message-deleted` is broadcast to the chat. */
  datatype Deletion = Deletion(status: int, message: Option<Message>, release: Option<Release>, broadcast: bool)

  /** The tombstone a message becomes once deleted for everyone; the upload
      reference is cleared only when the destroy call succeeded. */
  function Tombstone(m: Message, destroyOk: bool): (t: Message)
    ensures t.isDeletedGlobally && t.text.None? && t.mediaUrl.None? && t.mediaType.None?
    ensures t == m.(isDeletedGlobally := true, text := None, mediaUrl := None, mediaType := None,
                    publicId := t.publicId)
    ensures t.publicId.None? <==> m.publicId.None? || (Truthy(m.publicId) && destroyOk)
    ensures !destroyOk ==> t.publicId == m.publicId
  {
    m.(isDeletedGlobally := true, text := None, mediaUrl := None, mediaType := None,
       publicId := if Truthy(m.publicId) && destroyOk then None else m.publicId)
  }

  /** The delete handler. `found` is the message `findById` returned and
      `chat` its populated chat (`None` when that chat document is gone);
      `destroyOk` is whether the media store's destroy call succeeds. */
  function DeleteMessage(found: Option<Message>, chat: Option<Chat>, requester: UserId,
                         deleteType: string, destroyOk: bool): (r: Deletion)
    ensures found.None? ==> r == Deletion(404, None, None, false)
    ensures r.status != 200 ==> r.message == found && r.release.None? && !r.broadcast
    ensures r.status == 200 ==> found.Some? && chat.Some? && requester in chat.value.members
    ensures found.Some? && chat.None? ==> r.status == 500
    ensures found.Some? && chat.Some? && requester !in chat.value.members ==> r.status == 403
    ensures (found.Some? && chat.Some? && deleteType == "everyone" && found.value.sender != requester)
              ==> r.status == 403
    ensures r.broadcast <==> r.status == 200 && deleteType == "everyone"
    ensures deleteType != "everyone" && deleteType != "me" ==> r.status != 200
    ensures (found.Some? && chat.Some? && requester in chat.value.members
             && deleteType != "everyone" && deleteType != "me") ==> r.status == 400
  {
    match found
    case None => Deletion(404, None, None, false)
    case Some(m) =>
      match chat
      // `message.chat` is null, so reading its members throws: answered with 500.
      case None => Deletion(500, found, None, false)
      case Some(c) =>
        if requester !in c.members then Deletion(403, found, None, false)
        else if deleteType == "everyone" then
          if m.sender != requester then Deletion(403, found, None, false)
          else if CanDeleteForEveryone(c, m.seenBy, requester) then
            var release := if Truthy(m.publicId)
                           then Some(Release(m.publicId.value, ResourceTypeOf(m.mediaType)))
                           else None;
            Deletion(200, Some(Tombstone(m, destroyOk)), release, true)
          else Deletion(400, found, None, false)
        else if deleteType == "me" then
          Deletion(200, Some(m.(deletedFor := AddToSet(m.deletedFor, requester))), None, false)
        else Deletion(400, found, None, false)
  }

  /** The sender of a message in a chat they belong to may delete it for
      everyone exactly when no other member has seen it; otherwise the answer
      is 400 and the message is left as it was. */
  lemma DeleteForEveryoneGate(m: Message, c: Chat, destroyOk: bool)
    requires m.sender in c.members
    requires c.isGroup || AtMostOneOther(c.members, m.sender)
    ensures var r := DeleteMessage(Some(m), Some(c), m.sender, "everyone", destroyOk);
            && (r.status == 200 <==> UnseenByOthers(c, m.seenBy, m.sender))
            && (r.status != 200 ==> r.status == 400 && r.message == Some(m))
  {
    CanDeleteForEveryoneIsPolicy(c, m.seenBy, m.sender);
  }

  /** A deletion for everyone that succeeds leaves a tombstone: content and
      media cleared, the upload reference cleared only if its destroy call
      succeeded (a failed destroy does not stop the deletion), every other
      field unchanged, and the destroy call made with the type of the media
      the message had. */
  lemma DeleteForEveryoneTombstones(m: Message, c: Chat, requester: UserId, destroyOk: bool)
    requires DeleteMessage(Some(m), Some(c), requester, "everyone", destroyOk).status == 200
    ensures var r := DeleteMessage(Some(m), Some(c), requester, "everyone", destroyOk);
            && r.message.Some?
            && var t := r.message.value;
            && t.isDeletedGlobally && t.text.None? && t.mediaUrl.None? && t.mediaType.None?
            && (t.publicId.None? <==> m.publicId.None? || (Truthy(m.publicId) && destroyOk))
            && t == m.(isDeletedGlobally := true, text := None, mediaUrl := None, mediaType := None,
                       publicId := if Truthy(m.publicId) && destroyOk then None else m.publicId)
            && (r.release.Some? <==> Truthy(m.publicId))
            && (r.release.Some? ==> r.release.value == Release(m.publicId.value, ResourceTypeOf(m.mediaType)))
  {
  }

  /** Deleting for oneself: any member may do it; afterwards the requester is
      in `deletedFor` exactly once (given at most once before), nothing else
      of the message changes, nothing is broadcast, and repeating the request
      changes nothing further. */
  lemma DeleteForMeIdempotent(m: Message, c: Chat, requester: UserId, destroyOk: bool)
    requires requester in c.members
    requires Occurrences(m.deletedFor, requester) <= 1
    ensures var r := DeleteMessage(Some(m), Some(c), requester, "me", destroyOk);
            && r.status == 200 && r.message.Some? && r.release.None? && !r.broadcast
            && Occurrences(r.message.value.deletedFor, requester) == 1
            && (forall u :: u in r.message.value.deletedFor <==> u in m.deletedFor || u == requester)
            && r.message.value == m.(deletedFor := r.message.value.deletedFor)
            && DeleteMessage(r.message, Some(c), requester, "me", destroyOk) == r
  {
  }

  // ---------------------------------------------------------------------
  // Group chats
  // ---------------------------------------------------------------------

  /** A handler's answer: the HTTP status and the chat as saved (the chat as
      loaded, unchanged, when the request is refused). */
  datatype ChatReply = ChatReply(status: int, chat: Option<Chat>)

  /** `addGroupMember`: 404 unless the chat is a group, 403 unless the
      requester is its admin, 400 if the user is already a member, otherwise
      the user is appended to the members. */
  function AddGroupMember(chat: Option<Chat>, requester: UserId, userId: UserId): (r: ChatReply)
    ensures chat.None? || !chat.value.isGroup ==> r.status == 404
    ensures r.status != 200 ==> r.chat == chat
    ensures r.status == 200 ==>
              && chat.Some? && chat.value.isGroup && chat.value.admin == Some(requester)
              && userId !in chat.value.members
              && r.chat == Some(chat.value.(members := chat.value.members + [userId]))
    ensures (chat.Some? && chat.value.isGroup && chat.value.admin.Some? && chat.value.admin.value != requester)
              ==> r.status == 403
    ensures (chat.Some? && chat.value.isGroup && chat.value.admin == Some(requester))
              ==> (r.status == 200 <==> userId !in chat.value.members) && (r.status != 200 ==> r.status == 400)
  {
    match chat
    case None => ChatReply(404, chat)
    case Some(c) =>
      if !c.isGroup then ChatReply(404, chat)
      else match c.admin
        // a group without an admin: `chat.admin.equals` throws, answered with 500
        case None => ChatReply(500, chat)
        case Some(admin) =>
          if admin != requester then ChatReply(403, chat)
          else if userId in c.members then ChatReply(400, chat)
          else ChatReply(200, Some(c.(members := c.members + [userId])))
  }

  /** `removeGroupMember`: the same 404 and 403 gates, then every occurrence
      of the user is filtered out of the members; removing a non-member is
      accepted and changes nothing. */
  function RemoveGroupMember(chat: Option<Chat>, requester: UserId, userId: UserId): (r: ChatReply)
    ensures chat.None? || !chat.value.isGroup ==> r.status == 404
    ensures r.status != 200 ==> r.chat == chat
    ensures (chat.Some? && chat.value.isGroup && chat.value.admin.Some? && chat.value.admin.value != requester)
              ==> r.status == 403
    ensures r.status == 200 <==> chat.Some? && chat.value.isGroup && chat.value.admin == Some(requester)
    ensures r.status == 200 ==>
              && r.chat.Some? && r.chat.value == chat.value.(members := r.chat.value.members)
              && (forall u :: u in r.chat.value.members <==> u in chat.value.members && u != userId)
              && (userId !in chat.value.members ==> r.chat == chat)
  {
    match chat
    case None => ChatReply(404, chat)
    case Some(c) =>
      if !c.isGroup then ChatReply(404, chat)
      else match c.admin
        case None => ChatReply(500, chat)
        case Some(admin) =>
          if admin != requester then ChatReply(403, chat)
          else
            WithoutAbsent(c.members, userId);
            ChatReply(200, Some(c.(members := Without(c.members, userId))))
  }

  /** Removing a member the admin has just added gives back the chat as it
      was before the addition. */
  lemma AddThenRemoveRestores(chat: Option<Chat>, requester: UserId, userId: UserId)
    requires AddGroupMember(chat, requester, userId).status == 200
    ensures RemoveGroupMember(AddGroupMember(chat, requester, userId).chat, requester, userId)
            == ChatReply(200, chat)
  {
    var c := chat.value;
    WithoutAppended(c.members, userId);
    WithoutAbsent(c.members, userId);
  }

  /** Adding the same user twice: the second request is refused with 400. */
  lemma AddTwiceRefused(chat: Option<Chat>, requester: UserId, userId: UserId)
    requires AddGroupMember(chat, requester, userId).status == 200
    ensures AddGroupMember(AddGroupMember(chat, requester, userId).chat, requester, userId).status == 400
  {
  }

  /** Removing is idempotent. */
  lemma RemoveTwice(chat: Option<Chat>, requester: UserId, userId: UserId)
    ensures var once := RemoveGroupMember(chat, requester, userId);
            RemoveGroupMember(once.chat, requester, userId) == once
  {
  }

  /** `createGroupChat`: 400 without a name or with fewer than two supplied
      members; otherwise a group whose members are the supplied ones followed
      by the creator, and whose admin is the creator. */
  function CreateGroupChat(chatName: Option<string>, members: Option<seq<UserId>>,
                           creator: UserId, newId: ChatId): (r: ChatReply)
    ensures r.status == 400 <==> !Truthy(chatName) || members.None? || |members.value| < 2
    ensures r.status == 400 ==> r.chat.None?
    ensures r.status != 400 ==>
              && r.status == 201 && r.chat.Some?
              && r.chat.value.isGroup && r.chat.value.admin == Some(creator)
              && r.chat.value.members == members.value + [creator]
              && r.chat.value.chatName == chatName && r.chat.value.id == newId
  {
    if !Truthy(chatName) || members.None? || |members.value| < 2 then ChatReply(400, None)
    else ChatReply(201, Some(Chat(newId, members.value + [creator], true, chatName, Some(creator))))
  }

  /** The creator administers the new group: they may add anyone not yet a
      member, and somebody else's request is refused with 403. */
  lemma CreatorAdministersGroup(chatName: Option<string>, members: seq<UserId>, creator: UserId,
                                newId: ChatId, other: UserId, userId: UserId)
    requires CreateGroupChat(chatName, Some(members), creator, newId).status == 201
    ensures var g := CreateGroupChat(chatName, Some(members), creator, newId).chat;
            && (AddGroupMember(g, creator, userId).status == 200 <==> userId !in members && userId != creator)
            && (other != creator ==> AddGroupMember(g, other, userId).status == 403)
            && (other != creator ==> RemoveGroupMember(g, other, userId).status == 403)
  {
  }

  // ---------------------------------------------------------------------
  // One-to-one chats
  // ---------------------------------------------------------------------

  /** The answer of `createOrGetChat`: status, the chat returned and the chat
      collection afterwards. */
  datatype Lookup = Lookup(status: int, chat: Chat, chats: seq<Chat>)

  /** `createOrGetChat`: the first existing one-to-one chat holding both
      users is returned (200); otherwise `[me, other]` is created (201). */
  function CreateOrGetChat(chats: seq<Chat>, me: UserId, other: UserId, newId: ChatId): (r: Lookup)
    ensures IsDirectChatOf(r.chat, me, other)
    ensures r.status == 200 <==> FindDirectChat(chats, me, other).Some?
    ensures r.status == 200 ==> r.chats == chats && r.chat in chats
    ensures r.status != 200 ==>
              && r.status == 201 && r.chats == chats + [r.chat]
              && r.chat == Chat(newId, [me, other], false, None, None)
    ensures r.status == 201 && FindChat(chats, newId).None? ==> FindChat(r.chats, newId) == Some(r.chat)
  {
    match FindDirectChat(chats, me, other)
    case Some(c) => Lookup(200, c, chats)
    case None =>
      var c := Chat(newId, [me, other], false, None, None);
      FindChatAppendFresh(chats, c);
      Lookup(201, c, chats + [c])
  }

  /** Find-or-create is idempotent: asking again finds the same chat and
      creates nothing. */
  lemma CreateOrGetChatIdempotent(chats: seq<Chat>, me: UserId, other: UserId, id1: ChatId, id2: ChatId)
    ensures var first := CreateOrGetChat(chats, me, other, id1);
            var again := CreateOrGetChat(first.chats, me, other, id2);
            again.status == 200 && again.chat == first.chat && again.chats == first.chats
  {
    var first := CreateOrGetChat(chats, me, other, id1);
    if first.status == 201 {
      FindDirectChatAppend(chats, first.chat, me, other);
    }
  }

  /** A created one-to-one chat has at most one member besides either user,
      so the deletion gate on it is exactly the policy. */
  lemma CreatedChatHasOneOther(chats: seq<Chat>, me: UserId, other: UserId, newId: ChatId)
    requires CreateOrGetChat(chats, me, other, newId).status == 201
    ensures AtMostOneOther(CreateOrGetChat(chats, me, other, newId).chat.members, me)
    ensures AtMostOneOther(CreateOrGetChat(chats, me, other, newId).chat.members, other)
  {
  }
}
