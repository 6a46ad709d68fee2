/**
 * The socket.io coordinator: the five in-memory maps the handlers share, the
 * user of each open connection, the durable store the handlers read and
 * write, and the events they emit. Each handler is one atomic method.
 */
module Socket {
  import opened Base
  import opened Models
  import opened Store
  import opened Presence

  class Coordinator {
    /** userId => socket id of its latest connection. */
    var users: map<UserId, SocketId>
    /** userId => friend ids cached at join. */
    var friendsMap: map<UserId, seq<UserId>>
    /** userId => the users it is typing to (a JS Set, in insertion order). */
    var typingUsers: map<UserId, seq<UserId>>
    /** userId => (senderId => unread count). */
    var unreadCounts: map<UserId, map<UserId, nat>>
    /** chatId => users currently subscribed to the chat's room. */
    var chatRooms: map<ChatId, set<UserId>>
    /** `socket.userId` of each open connection. */
    var socketUser: map<SocketId, UserId>
    /** The durable store: each user's `friends`, the chats, the messages. */
    var directory: map<UserId, seq<UserId>>
    var chats: seq<Chat>
    var messages: seq<Message>
    /** Every event emitted so far, in order. */
    ghost var trace: seq<Emit>

    ghost predicate Valid()
      reads this`chatRooms, this`typingUsers, this`unreadCounts, this`friendsMap, this`users, this`messages
    {
      && NoEmptyRoom(chatRooms)
      && TypingSetsNoDup(typingUsers)
      && AllPositive(unreadCounts)
      && typingUsers.Keys <= friendsMap.Keys <= users.Keys
      && "" !in users
      && OneReactionPerUser(messages)
    }

    constructor (directory: map<UserId, seq<UserId>>, chats: seq<Chat>, messages: seq<Message>)
      requires OneReactionPerUser(messages)
      ensures Valid()
      ensures users == map[] && friendsMap == map[] && typingUsers == map[]
      ensures unreadCounts == map[] && chatRooms == map[] && socketUser == map[]
      ensures this.directory == directory && this.chats == chats && this.messages == messages
      ensures trace == []
    {
      users, friendsMap, typingUsers := map[], map[], map[];
      unreadCounts, chatRooms, socketUser := map[], map[], map[];
      this.directory, this.chats, this.messages := directory, chats, messages;
      trace := [];
    }

    /** `socket.userId`, or "" before the connection has joined. */
    function UserOf(sock: SocketId): (u: UserId)
      reads this`socketUser
      ensures u != "" ==> sock in socketUser && socketUser[sock] == u
      ensures sock !in socketUser ==> u == ""
    {
      if sock in socketUser then socketUser[sock] else ""
    }

    // -------------------------------------------------------------------
    // join
    // -------------------------------------------------------------------

    /** A missing id is refused with `auth-error`. Otherwise the connection is
        registered first; an unknown user then gets `auth-error`. A known one
        has its friends cached and its unread counts rehydrated, is told which
        friends are online and its counts, and its online friends and chat
        rooms are told it is online. */
    method Join(sock: SocketId, userId: UserId)
      requires Valid()
      modifies this`users, this`socketUser, this`friendsMap, this`unreadCounts, this`trace
      ensures Valid()
      ensures userId == "" ==>
                && users == old(users) && socketUser == old(socketUser)
                && friendsMap == old(friendsMap) && unreadCounts == old(unreadCounts)
                && trace == old(trace) + [Emit(ToSocket(sock), AuthError)]
      ensures userId != "" ==> users == old(users)[userId := sock] && socketUser == old(socketUser)[sock := userId]
      ensures userId != "" && userId !in directory ==>
                && friendsMap == old(friendsMap) && unreadCounts == old(unreadCounts)
                && trace == old(trace) + [Emit(ToSocket(sock), AuthError)]
      ensures userId != "" && userId in directory ==>
                var friends := directory[userId];
                var online := Among(friends, users.Keys);
                && friendsMap == old(friendsMap)[userId := friends]
                && unreadCounts == old(unreadCounts)[userId := Rehydrate(PopulateChats(DirectChatsOf(chats, userId), directory.Keys), messages, userId, friends)]
                && trace == old(trace)
                            + [Emit(ToSocket(sock), OnlineFriends(online)), Emit(ToSocket(sock), UnreadCounts(unreadCounts[userId]))]
                            + SendEach(online, users, FriendStatusChange(userId, Online))
                            + RoomNotices(ChatsOf(chats, userId), userId, Online)
    {
      if userId == "" {
        trace := trace + [Emit(ToSocket(sock), AuthError)];
        return;
      }
      users := users[userId := sock];
      socketUser := socketUser[sock := userId];
      if userId !in directory {
        trace := trace + [Emit(ToSocket(sock), AuthError)];
        return;
      }
      JoinKnownUser(sock, userId);
    }

    /** The rest of join, once the user was found: cache the friend list,
        rehydrate the unread counts, and send the notices. */
    method JoinKnownUser(sock: SocketId, userId: UserId)
      requires Valid() && userId in users && userId in directory
      modifies this`friendsMap, this`unreadCounts, this`trace
      ensures Valid()
      ensures var friends := directory[userId];
              var online := Among(friends, users.Keys);
              && friendsMap == old(friendsMap)[userId := friends]
              && unreadCounts == old(unreadCounts)[userId := Rehydrate(PopulateChats(DirectChatsOf(chats, userId), directory.Keys), messages, userId, friends)]
              && trace == old(trace)
                          + [Emit(ToSocket(sock), OnlineFriends(online)), Emit(ToSocket(sock), UnreadCounts(unreadCounts[userId]))]
                          + SendEach(online, users, FriendStatusChange(userId, Online))
                          + RoomNotices(ChatsOf(chats, userId), userId, Online)
    {
      var friendIds := directory[userId];
      friendsMap := friendsMap[userId := friendIds];
      InitializeUnreadCounts(userId, friendIds);
      RehydratePositive(PopulateChats(DirectChatsOf(chats, userId), directory.Keys), messages, userId, friendIds);
      assert AllPositive(unreadCounts);
      var online := Among(friendIds, users.Keys);
      trace := trace + [Emit(ToSocket(sock), OnlineFriends(online)), Emit(ToSocket(sock), UnreadCounts(unreadCounts[userId]))]
                     + SendEach(online, users, FriendStatusChange(userId, Online));
      NotifyChatRooms(userId, Online);
    }

    /** `initializeUnreadCounts`: the loop over the user's one-to-one chats
        builds the map of Rehydrate and stores it as the user's counts. */
    method InitializeUnreadCounts(userId: UserId, friendIds: seq<UserId>)
      modifies this`unreadCounts
      ensures unreadCounts == old(unreadCounts)[userId := Rehydrate(PopulateChats(DirectChatsOf(chats, userId), directory.Keys), messages, userId, friendIds)]
    {
      var userChats := PopulateChats(DirectChatsOf(chats, userId), directory.Keys);
      var acc := UnreadFromFriends(userChats, userId, friendIds);
      unreadCounts := unreadCounts[userId := acc];
    }

    /** The loop of `initializeUnreadCounts` over the populated chats: for
        each, the first other member, when a friend with unread messages,
        gets its count. */
    method UnreadFromFriends(userChats: seq<Chat>, userId: UserId, friendIds: seq<UserId>) returns (acc: map<UserId, nat>)
      ensures acc == Rehydrate(userChats, messages, userId, friendIds)
    {
      acc := map[];
      var i := 0;
      while i < |userChats|
        invariant 0 <= i <= |userChats|
        invariant acc == Rehydrate(userChats[..i], messages, userId, friendIds)
      {
        var chat := userChats[i];
        assert userChats[..i + 1][..i] == userChats[..i];
        var other := FirstOther(chat.members, userId);
        if other.Some? && other.value in friendIds {
          var unreadCount := CountUnread(messages, chat.id, other.value, userId);
          if unreadCount > 0 {
            acc := acc[other.value := unreadCount];
          }
        }
        i := i + 1;
      }
      assert userChats[..i] == userChats;
    }

    /** `notifyChatRoomsAboutStatusChange`: every chat the user is a member of
        is told the user's new status. */
    method NotifyChatRooms(userId: UserId, status: Status)
      modifies this`trace
      ensures trace == old(trace) + RoomNotices(ChatsOf(chats, userId), userId, status)
      ensures |trace| == |old(trace)| + |ChatsOf(chats, userId)|
    {
      RoomNoticesOnePerChat(ChatsOf(chats, userId), userId, status);
      trace := trace + RoomNotices(ChatsOf(chats, userId), userId, status);
    }

    // -------------------------------------------------------------------
    // join-chat, leave-chat, typing-in-chat
    // -------------------------------------------------------------------

    /** The caller is subscribed to the chat's room; it is then told which
        other members are online, and the rest of the room that it joined. */
    method JoinChat(sock: SocketId, chatId: ChatId)
      requires Valid()
      modifies this`chatRooms, this`trace
      ensures Valid()
      ensures chatId == "" || UserOf(sock) == "" ==> chatRooms == old(chatRooms) && trace == old(trace)
      ensures chatId != "" && UserOf(sock) != "" ==>
                var u := UserOf(sock);
                && chatRooms == JoinRoom(old(chatRooms), chatId, u)
                && u in chatRooms[chatId]
                && (FindChat(chats, chatId).None? ==>
                      trace == old(trace) + [Emit(ToSocket(sock), ErrorEvent("Chat not found"))])
                && (FindChat(chats, chatId).Some? ==>
                      var split := MemberSplit(Among(FindChat(chats, chatId).value.members, directory.Keys), u, users.Keys);
                      && u !in split.0 && u !in split.1
                      && trace == old(trace) + [Emit(ToSocket(sock), ChatMembersStatus(chatId, split.0, split.1)),
                                                Emit(ToRoomExcept(chatId, sock), MemberJoinedChat(u, chatId))])
    {
      var u := UserOf(sock);
      if chatId == "" || u == "" {
        return;
      }
      chatRooms := JoinRoom(chatRooms, chatId, u);
      var chat := FindChat(chats, chatId);
      if chat.None? {
        trace := trace + [Emit(ToSocket(sock), ErrorEvent("Chat not found"))];
        return;
      }
      var split := MemberSplit(Among(chat.value.members, directory.Keys), u, users.Keys);
      trace := trace + [Emit(ToSocket(sock), ChatMembersStatus(chatId, split.0, split.1))];
      trace := trace + [Emit(ToRoomExcept(chatId, sock), MemberJoinedChat(u, chatId))];
    }

    /** The caller leaves the chat's room, and the rest of the room is told. */
    method LeaveChat(sock: SocketId, chatId: ChatId)
      requires Valid()
      modifies this`chatRooms, this`trace
      ensures Valid()
      ensures chatId == "" || UserOf(sock) == "" ==> chatRooms == old(chatRooms) && trace == old(trace)
      ensures chatId != "" && UserOf(sock) != "" ==>
                && chatRooms == LeaveRoom(old(chatRooms), chatId, UserOf(sock))
                && (chatId in chatRooms ==> UserOf(sock) !in chatRooms[chatId])
                && trace == old(trace) + [Emit(ToRoomExcept(chatId, sock), MemberLeftChat(UserOf(sock), chatId))]
    {
      var u := UserOf(sock);
      if chatId == "" || u == "" {
        return;
      }
      chatRooms := LeaveRoom(chatRooms, chatId, u);
      trace := trace + [Emit(ToRoomExcept(chatId, sock), MemberLeftChat(u, chatId))];
    }

    /** The rest of the chat's room is told whether the caller is typing. */
    method TypingInChat(sock: SocketId, chatId: ChatId, isTyping: bool)
      modifies this`trace
      ensures chatId == "" || UserOf(sock) == "" ==> trace == old(trace)
      ensures chatId != "" && UserOf(sock) != "" ==>
                trace == old(trace) + [Emit(ToRoomExcept(chatId, sock), UserTypingInChat(UserOf(sock), isTyping, chatId))]
    {
      var u := UserOf(sock);
      if u == "" || chatId == "" {
        return;
      }
      trace := trace + [Emit(ToRoomExcept(chatId, sock), UserTypingInChat(u, isTyping, chatId))];
    }

    // -------------------------------------------------------------------
    // send-message
    // -------------------------------------------------------------------

    /** Invalid data is refused and changes nothing. Otherwise the message is
        stored (before the chat is looked up). For a known chat, every member
        but the sender that is not in the chat's room has its unread count for
        the sender set to the stored count, and is told if connected; then the
        room receives the message. */
    method SendMessage(sock: SocketId, chatId: ChatId, sender: UserId, text: Option<string>,
                       mediaUrl: Option<string>, mediaType: Option<string>, publicId: Option<string>,
                       newId: MessageId)
      requires Valid()
      modifies this`messages, this`unreadCounts, this`trace
      ensures Valid()
      ensures !ValidMessageData(chatId, sender, text, mediaUrl) ==>
                && messages == old(messages) && unreadCounts == old(unreadCounts)
                && trace == old(trace) + [Emit(ToSocket(sock), MessageError("Invalid message data"))]
      ensures ValidMessageData(chatId, sender, text, mediaUrl) ==>
                var m := NewMessage(newId, chatId, sender, TrimText(text), mediaUrl, mediaType, publicId);
                && messages == old(messages) + [m]
                && Delivered(old(unreadCounts), old(trace), sock, m)
    {
      if !ValidMessageData(chatId, sender, text, mediaUrl) {
        trace := trace + [Emit(ToSocket(sock), MessageError("Invalid message data"))];
        return;
      }
      var newMsg := NewMessage(newId, chatId, sender, TrimText(text), mediaUrl, mediaType, publicId);
      StoreMessage(newMsg);
      DeliverMessage(sock, newMsg);
    }

    /** `newMsg.save()`: the new document is appended (so `findById` of a
        fresh id then finds it, by `IndexOfAppendFresh`), unread by everyone,
        and no message gains a second reaction. */
    method StoreMessage(m: Message)
      requires Valid() && m.readBy == [] && m.reactions == []
      modifies this`messages
      ensures Valid()
      ensures messages == old(messages) + [m]
      ensures forall r :: CountUnread(messages, m.chat, m.sender, r) > 0
    {
      InsertedIsUnread(messages, m);
      OneReactionPerUserInsert(messages, m);
      messages := messages + [m];
    }

    /** What send-message does once the message `m` is stored, starting from
        the counts `counts0` and the trace `trace0`: an unknown chat is
        reported to the sender; for a known one, every populated member but
        the sender that is not in the chat's room has its unread count for
        the sender set to the stored count, and is told if connected; then the
        room receives the message. */
    ghost predicate Delivered(counts0: map<UserId, map<UserId, nat>>, trace0: seq<Emit>, sock: SocketId, m: Message)
      reads this
    {
      && (FindChat(chats, m.chat).None? ==>
            && unreadCounts == counts0
            && trace == trace0 + [Emit(ToSocket(sock), MessageError("Chat not found"))])
      && (FindChat(chats, m.chat).Some? ==>
            var recipients := Without(Among(FindChat(chats, m.chat).value.members, directory.Keys), m.sender);
            var inRoom := InRoom(chatRooms, m.chat);
            && m.sender !in recipients
            && unreadCounts == SendUnread(counts0, recipients, inRoom, messages, m.chat, m.sender)
            && trace == trace0 + UnreadNotices(recipients, inRoom, users, messages, m.chat, m.sender)
                        + [Emit(ToRoom(m.chat), ReceiveMessage(m))])
    }

    /** The chat lookup, recipient loop and room broadcast of send-message,
        after the message is stored: every recipient has it unread. */
    method DeliverMessage(sock: SocketId, m: Message)
      requires Valid()
      requires forall r :: CountUnread(messages, m.chat, m.sender, r) > 0
      modifies this`unreadCounts, this`trace
      ensures Valid()
      ensures Delivered(old(unreadCounts), old(trace), sock, m)
    {
      var chatDoc := FindChat(chats, m.chat);
      if chatDoc.None? {
        trace := trace + [Emit(ToSocket(sock), MessageError("Chat not found"))];
        return;
      }
      var recipients := Without(Among(chatDoc.value.members, directory.Keys), m.sender);
      UpdateRecipients(m.chat, m.sender, recipients);
      trace := trace + [Emit(ToRoom(m.chat), ReceiveMessage(m))];
    }

    /** The loop over the recipients of a new message: each one outside the
        chat's room has its unread count for the sender set to the stored
        count, and is told if connected. */
    method UpdateRecipients(chatId: ChatId, sender: UserId, recipients: seq<UserId>)
      requires AllPositive(unreadCounts)
      requires forall r :: r in recipients ==> CountUnread(messages, chatId, sender, r) > 0
      modifies this`unreadCounts, this`trace
      ensures AllPositive(unreadCounts)
      ensures var inRoom := InRoom(chatRooms, chatId);
              && unreadCounts == SendUnread(old(unreadCounts), recipients, inRoom, messages, chatId, sender)
              && trace == old(trace) + UnreadNotices(recipients, inRoom, users, messages, chatId, sender)
    {
      var inRoom := InRoom(chatRooms, chatId);
      var counts := unreadCounts;
      ghost var emitted: seq<Emit> := [];
      var i := 0;
      while i < |recipients|
        invariant 0 <= i <= |recipients|
        invariant counts == SendUnread(unreadCounts, recipients[..i], inRoom, messages, chatId, sender)
        invariant emitted == UnreadNotices(recipients[..i], inRoom, users, messages, chatId, sender)
      {
        var recipientId := recipients[i];
        assert recipients[..i + 1][..i] == recipients[..i];
        if recipientId !in inRoom {
          var recipientUnread := if recipientId in counts then counts[recipientId] else map[];
          var unseenCount := CountUnread(messages, chatId, sender, recipientId);
          counts := counts[recipientId := recipientUnread[sender := unseenCount]];
          if recipientId in users {
            emitted := emitted + [Emit(ToSocket(users[recipientId]), UnreadCountUpdate(sender, unseenCount))];
          }
        }
        i := i + 1;
      }
      assert recipients[..i] == recipients;
      SendUnreadPositive(unreadCounts, recipients, inRoom, messages, chatId, sender);
      unreadCounts := counts;
      trace := trace + emitted;
    }

    // -------------------------------------------------------------------
    // typing
    // -------------------------------------------------------------------

    /** Only towards a cached friend: the recipient is added to, or removed
        from, the caller's typing set, and told if connected. */
    method Typing(sock: SocketId, recipientId: UserId, isTyping: bool)
      requires Valid()
      modifies this`typingUsers, this`trace
      ensures Valid()
      ensures var u := UserOf(sock);
              (u == "" || recipientId == "" || u !in friendsMap || recipientId !in friendsMap[u]) ==>
                typingUsers == old(typingUsers) && trace == old(trace)
      ensures var u := UserOf(sock);
              (u != "" && recipientId != "" && u in friendsMap && recipientId in friendsMap[u]) ==>
                var before := if u in old(typingUsers) then old(typingUsers)[u] else [];
                && typingUsers == old(typingUsers)[u := SetTyping(before, recipientId, isTyping)]
                && (isTyping ==> forall x :: x in typingUsers[u] <==> x in before || x == recipientId)
                && (!isTyping ==> forall x :: x in typingUsers[u] <==> x in before && x != recipientId)
                && trace == old(trace) + (if recipientId in users
                                          then [Emit(ToSocket(users[recipientId]), UserTyping(u, isTyping))]
                                          else [])
    {
      var u := UserOf(sock);
      if u == "" || recipientId == "" {
        return;
      }
      var userFriends := if u in friendsMap then friendsMap[u] else [];
      if recipientId !in userFriends {
        return;
      }
      var userTypingSet := if u in typingUsers then typingUsers[u] else [];
      typingUsers := typingUsers[u := SetTyping(userTypingSet, recipientId, isTyping)];
      if recipientId in users {
        trace := trace + [Emit(ToSocket(users[recipientId]), UserTyping(u, isTyping))];
      }
    }

    // -------------------------------------------------------------------
    // mark-as-read, message-seen, message-react
    // -------------------------------------------------------------------

    /** Every message from the sender, in every chat, is marked read by the
        caller, the caller's unread entry for the sender is dropped, and the
        caller is told the count is 0. */
    method MarkAsRead(sock: SocketId, senderId: UserId)
      requires Valid()
      modifies this`messages, this`unreadCounts, this`trace
      ensures Valid()
      ensures UserOf(sock) == "" || senderId == "" ==>
                messages == old(messages) && unreadCounts == old(unreadCounts) && trace == old(trace)
      ensures UserOf(sock) != "" && senderId != "" ==>
                var u := UserOf(sock);
                && messages == MarkAllRead(old(messages), senderId, u)
                && (u in old(unreadCounts) ==> unreadCounts == old(unreadCounts)[u := old(unreadCounts)[u] - {senderId}])
                && (u !in old(unreadCounts) ==> unreadCounts == old(unreadCounts))
                && (u in unreadCounts ==> senderId !in unreadCounts[u])
                && (forall c :: CountUnread(messages, c, senderId, u) == 0)
                && trace == old(trace) + [Emit(ToSocket(sock), UnreadCountUpdate(senderId, 0))]
    {
      var u := UserOf(sock);
      if u == "" || senderId == "" {
        return;
      }
      ghost var before := messages;
      messages := MarkAllRead(messages, senderId, u);
      forall c ensures CountUnread(messages, c, senderId, u) == 0 {
        MarkAllReadClears(before, senderId, u, c);
      }
      OneReactionPerUserSameReactions(before, messages);
      if u in unreadCounts {
        unreadCounts := unreadCounts[u := unreadCounts[u] - {senderId}];
      }
      trace := trace + [Emit(ToSocket(sock), UnreadCountUpdate(senderId, 0))];
    }

    /** The message gets the user in `seenBy` (at most once), and the room is
        told; an unknown message id changes nothing but is still announced. */
    method MessageSeen(messageId: MessageId, userId: UserId, chatId: ChatId)
      requires Valid()
      modifies this`messages, this`trace
      ensures Valid()
      ensures messageId == "" || userId == "" || chatId == "" ==> messages == old(messages) && trace == old(trace)
      ensures messageId != "" && userId != "" && chatId != "" ==>
                && messages == MarkSeen(old(messages), messageId, userId)
                && trace == old(trace) + [Emit(ToRoom(chatId), MessageSeenUpdate(messageId, userId))]
    {
      if messageId == "" || userId == "" || chatId == "" {
        return;
      }
      ghost var before := messages;
      messages := MarkSeen(messages, messageId, userId);
      OneReactionPerUserSameReactions(before, messages);
      trace := trace + [Emit(ToRoom(chatId), MessageSeenUpdate(messageId, userId))];
    }

    /** The user's reaction on the message is replaced by the new emoji and
        the room is told the message's reactions. Reading the reactions of a
        message that does not exist fails, and the caller gets an error. */
    method MessageReact(sock: SocketId, messageId: MessageId, userId: UserId, emoji: string, chatId: ChatId)
      requires Valid()
      modifies this`messages, this`trace
      ensures Valid()
      ensures messageId == "" || userId == "" || emoji == "" || chatId == "" ==>
                messages == old(messages) && trace == old(trace)
      ensures messageId != "" && userId != "" && emoji != "" && chatId != "" ==>
                && messages == PushReaction(PullReaction(old(messages), messageId, userId), messageId, userId, emoji)
                && (IndexOf(old(messages), messageId).None? ==>
                      trace == old(trace) + [Emit(ToSocket(sock), ErrorEvent("Failed to add reaction"))])
                && (IndexOf(old(messages), messageId).Some? ==>
                      var i := IndexOf(old(messages), messageId).value;
                      && EmojisBy(messages[i].reactions, userId) == [emoji]
                      && (forall v :: v != userId ==> EmojisBy(messages[i].reactions, v) == EmojisBy(old(messages)[i].reactions, v))
                      && trace == old(trace) + [Emit(ToRoom(chatId), ReactionUpdate(messageId, messages[i].reactions))])
    {
      if messageId == "" || userId == "" || emoji == "" || chatId == "" {
        return;
      }
      ghost var before := messages;
      ReactUpdatesOneMessage(messages, messageId, userId, emoji);
      messages := PullReaction(messages, messageId, userId);
      messages := PushReaction(messages, messageId, userId, emoji);
      forall j | 0 <= j < |messages| ensures OneReactionEach(messages[j].reactions) {
        if IndexOf(before, messageId) == Some(j) {
          assert messages[j].reactions == React(before[j].reactions, userId, emoji);
        } else {
          assert messages[j] == before[j];
        }
      }
      var updated := IndexOf(messages, messageId);
      if updated.None? {
        trace := trace + [Emit(ToSocket(sock), ErrorEvent("Failed to add reaction"))];
      } else {
        trace := trace + [Emit(ToRoom(chatId), ReactionUpdate(messageId, messages[updated.value].reactions))];
      }
    }

    // -------------------------------------------------------------------
    // disconnect
    // -------------------------------------------------------------------

    /** The connection goes away. For a joined user: it is dropped from
        `users`, the users it was typing to that are still connected are told
        it stopped, it leaves every room (rooms left empty are dropped), its
        still-connected friends are told it is offline, and its cached friends,
        typing set and unread counts are dropped. */
    method Disconnect(sock: SocketId)
      requires Valid()
      modifies this`users, this`socketUser, this`friendsMap, this`typingUsers, this`unreadCounts,
               this`chatRooms, this`trace
      ensures Valid()
      ensures socketUser == old(socketUser) - {sock}
      ensures old(UserOf(sock)) == "" ==>
                && users == old(users) && friendsMap == old(friendsMap) && typingUsers == old(typingUsers)
                && unreadCounts == old(unreadCounts) && chatRooms == old(chatRooms) && trace == old(trace)
      ensures old(UserOf(sock)) != "" ==>
                var u := old(UserOf(sock));
                var typingStops := if u in old(typingUsers)
                                   then SendEach(old(typingUsers)[u], users, UserTyping(u, false)) else [];
                var friendIds := if u in old(friendsMap) then old(friendsMap)[u] else [];
                && users == old(users) - {u}
                && friendsMap == old(friendsMap) - {u}
                && typingUsers == old(typingUsers) - {u}
                && unreadCounts == old(unreadCounts) - {u}
                && chatRooms == RemoveFromRooms(old(chatRooms), u)
                && (forall c :: c in chatRooms ==> u !in chatRooms[c])
                && trace == old(trace) + typingStops + SendEach(friendIds, users, FriendStatusChange(u, Offline))
    {
      var u := UserOf(sock);
      socketUser := socketUser - {sock};
      if u == "" {
        return;
      }
      users := users - {u};
      var friendIds := if u in friendsMap then friendsMap[u] else [];
      StopTyping(u);
      LeaveAllRooms(u);
      trace := trace + SendEach(friendIds, users, FriendStatusChange(u, Offline));
      friendsMap := friendsMap - {u};
      unreadCounts := unreadCounts - {u};
    }

    /** The users `u` was typing to that are still connected are told it
        stopped, and its typing set is dropped. */
    method StopTyping(u: UserId)
      requires TypingSetsNoDup(typingUsers)
      modifies this`typingUsers, this`trace
      ensures TypingSetsNoDup(typingUsers)
      ensures typingUsers == old(typingUsers) - {u}
      ensures u !in old(typingUsers) ==> trace == old(trace)
      ensures u in old(typingUsers) ==>
                && trace == old(trace) + SendEach(old(typingUsers)[u], users, UserTyping(u, false))
                && forall x :: x in old(typingUsers)[u] && x in users ==>
                     Emit(ToSocket(users[x]), UserTyping(u, false)) in trace[|old(trace)|..]
    {
      if u in typingUsers {
        SendEachReaches(typingUsers[u], users, UserTyping(u, false));
        trace := trace + SendEach(typingUsers[u], users, UserTyping(u, false));
        typingUsers := typingUsers - {u};
      }
    }

    /** The loop over `chatRooms.entries()`: the user is removed from every
        room it is in, and a room it leaves empty is dropped. The result does
        not depend on the order the entries are visited in. */
    method LeaveAllRooms(u: UserId)
      modifies this`chatRooms
      ensures chatRooms == RemoveFromRooms(old(chatRooms), u)
    {
      var orig := chatRooms;
      var rooms := chatRooms;
      var pending := chatRooms.Keys;
      assert rooms == PrunedExcept(orig, u, pending);
      while pending != {}
        invariant pending <= orig.Keys
        invariant rooms == PrunedExcept(orig, u, pending)
        decreases |pending|
      {
        var c :| c in pending;
        PrunedExceptStep(orig, u, pending, c);
        if u in rooms[c] {
          var usersInRoom := rooms[c] - {u};
          if usersInRoom == {} {
            rooms := rooms - {c};
          } else {
            rooms := rooms[c := usersInRoom];
          }
        }
        pending := pending - {c};
      }
      assert rooms == RemoveFromRooms(orig, u);
      chatRooms := rooms;
    }
  }
}
