# Chat backend: presence coordinator and chat rules, in Dafny

This project models the two parts of a Node.js chat backend (Express, socket.io,
MongoDB) that carry rules:

- **The socket.io coordinator** (`src/lib/socket.js`). It keeps five in-process
  maps: connected users, cached friend lists, typing sets, unread counters and
  chat-room subscriptions. Its event handlers change these maps in place,
  read and write the message and chat collections, and emit events.
  `Socket.Coordinator` is a class with one field per map, plus:
  - the `socket.userId` of each open connection;
  - the durable store (each user's friend list, the chats, the messages);
  - a ghost trace of every emitted event with its target: one socket, a
    chat's room, or a room minus the emitting socket.

  Each handler is a method proved against the functions of module
  `Presence`. The Mongo queries it issues are the functions of module
  `Store`. They are `countDocuments`, `updateMany` with `$addToSet`,
  `findByIdAndUpdate` with `$addToSet`/`$pull`/`$push`, `find` and `findOne`.

  `Coordinator.Valid()` is kept by every handler:
  - no room is recorded with no subscriber;
  - typing sets have no duplicates;
  - every stored unread count is positive;
  - a user with a typing set has a cached friend list, and a user with a
    cached friend list is connected;
  - the empty id is never connected;
  - no message has two reactions by the same user.
- **The chat controller's rules** (`src/controllers/chat.controller.js`):
  - deleting a message, for everyone or for oneself;
  - the admin-gated group membership edits;
  - group creation;
  - find-or-create of a one-to-one chat.

  Each handler is a function from the documents it loads to the HTTP status
  and the document it saves.

Modules:
- `Base`: option values, ids, and the JavaScript array idioms the backend uses
  (`filter`, `find`, `$addToSet`/`includes`-then-`push`, `trim`).
- `Models`: the `Message` and `Chat` documents.
- `Store`: the Mongo operations.
- `ChatController`: the REST handlers.
- `Presence`: what the socket handlers compute.
- `Socket`: the coordinator class.

Conventions:
- A collection is a sequence in natural order, and `findById` is its first
  document with that id.
- Ids are strings. The empty string stands for a missing (falsy) value in an
  event payload.
- A nullable document field is an `Option`.
- The users that have a document are the keys of the coordinator's
  `directory`. A populated member list (`populate('members')`) keeps only
  the ids found there, in order (`Base.Among`, the same filter as
  `friendIds.filter(fid => users.has(fid))`).

Behaviour kept as the code has it:
- `join` registers the connection before checking that the user exists.
- `join-chat` subscribes the caller before looking the chat up.
- `send-message` stores the message before looking up its chat. Its `sender`
  comes from the payload, not from the connection.
- `mark-as-read` marks the sender's messages read in every chat, not just one.
- `disconnect` removes the user from `users` even when a newer connection of
  the same user registered there. It leaves the user inside other users'
  typing sets.
- The delete-for-everyone test on a one-to-one chat looks only at the first
  other member. `ChatController.CanDeleteForEveryoneIsPolicy` shows this is
  the "seen by no other member" policy for group chats and for one-to-one
  chats with at most one other member. `ChatController.CreatedChatHasOneOther`
  shows those are the only one-to-one chats `createOrGetChat` creates.

## Model

| member | source | states |
|---|---|---|
| Base.Without | src/controllers/chat.controller.js:139-141 | `filter(y => y !== x)`: the result holds exactly the elements other than `x`, and is no longer than the input |
| Base.AddToSet | src/controllers/chat.controller.js:247-249 | `$addToSet` and include-then-push: membership is the old members plus `x`, nothing changes if `x` was present, no duplicates are introduced, and `x` occurs exactly once afterwards if it occurred at most once before |
| Base.FirstOther | src/controllers/chat.controller.js:193 | `find(m => m !== x)`: `None` exactly when every element is `x`; otherwise the first element of the list that is not `x` (every earlier element is `x`) |
| Base.Trim | src/lib/socket.js:121 | `String.prototype.trim`: the result is an infix of the text with only ECMAScript white space cut before and after it; it is empty exactly when the text is all white space, and otherwise neither starts nor ends with white space |
| Base.WithoutAbsent | src/controllers/chat.controller.js:139-141 | for any list and value: if the value does not occur, filtering it out returns the list unchanged |
| Base.WithoutAppended | src/controllers/chat.controller.js:139-141 | appending `x` and then filtering `x` out equals filtering the original list |
| Base.WithoutNoDup | src/controllers/chat.controller.js:139-141 | for any list and value: if the list is duplicate-free, so is the filtered list |
| Models.NewMessage | src/models/Message.js:3-16 | a new message document carries the given id, chat, sender, text, media URL, media type and upload id, has empty `readBy`, `seenBy`, `reactions` and `deletedFor`, and is not deleted |
| Store.CountUnread | src/lib/socket.js:161-165 | a count of the documents of the chat from the sender whose `readBy` lacks the reader, never more than the collection size (what it counts is pinned down by `CountUnreadZero` and `CountUnreadAppend`) |
| Store.CountUnreadZero | src/lib/socket.js:161-165 | the count is zero exactly when no document matches the filter |
| Store.CountUnreadAppend | src/lib/socket.js:127-135 | storing one document raises the count by one exactly when it matches the filter |
| Store.InsertedIsUnread | src/lib/socket.js:127-165 | after a new message is stored, every reader's count for its chat and sender is one more than before, so it is positive |
| Store.MarkRead | src/lib/socket.js:224-227 | the per-document update changes only `readBy`, adding the reader exactly when the document is from the sender |
| Store.MarkAllRead | src/lib/socket.js:224-227 | over the whole collection, in every chat: only `readBy` changes, the reader is added to each of the sender's messages, other senders' messages and other readers are untouched |
| Store.MarkAllReadClears | src/lib/socket.js:224-227 | afterwards no message of that sender is unread by that reader, in any chat |
| Store.MarkAllReadKeepsOthers | src/lib/socket.js:224-227 | every other (sender, reader) unread count is unchanged |
| Store.IndexOf | src/lib/socket.js:247-249 | `findById`: the first document with the id, or `None` exactly when there is none |
| Store.IndexOfAppendFresh | src/lib/socket.js:127-135 | a saved message whose id no earlier document has is what `findById` then returns, at the end of the collection |
| Store.IndexOfReplace | src/lib/socket.js:247-249 | replacing a document by one with the same id leaves `findById` where it was |
| Store.MarkSeen | src/lib/socket.js:247-249 | `findByIdAndUpdate` with `$addToSet: { seenBy }`: only the found document's `seenBy` changes and it gains the user; an unknown id changes nothing |
| Store.MarkSeenIdempotent | src/lib/socket.js:247-249 | marking a message seen twice by one user equals marking it once |
| Store.OneReactionPerUserInsert | src/lib/socket.js:127-135 | storing a message without reactions keeps "one reaction per user" for the collection |
| Store.OneReactionPerUserSameReactions | src/lib/socket.js:224-249 | an update that leaves every document's reactions alone keeps "one reaction per user" |
| Store.PullReactions | src/lib/socket.js:262-264 | `$pull: { reactions: { user } }`: reactions by that user are removed and no other |
| Store.EmojisByPulled | src/lib/socket.js:262-264 | after the pull the user has no emoji, and every other user's emojis are unchanged |
| Store.React | src/lib/socket.js:262-269 | pull then push: the user ends with exactly the new emoji, every other user keeps theirs, and "at most one reaction per user" is preserved |
| Store.ReactTwice | src/lib/socket.js:262-269 | reacting twice leaves only the later emoji for that user |
| Store.PullReaction | src/lib/socket.js:262-264 | on the collection: only the found message's reactions change; an unknown id changes nothing |
| Store.PushReaction | src/lib/socket.js:267-269 | on the collection: the reaction is appended to the found message only; an unknown id changes nothing |
| Store.ReactUpdatesOneMessage | src/lib/socket.js:262-269 | the two updates together replace the user's reaction on the one found message (as `React`) and leave every other message as it was |
| Store.FindChat | src/lib/socket.js:73-77 | `Chat.findById`: a chat of the collection with that id, `None` exactly when there is none |
| Store.ChatsOf | src/lib/socket.js:340 | `Chat.find({ members: u })`: exactly the chats with `u` among the members, never more than the collection holds (order: `Store.ChatsOfConcat`) |
| Store.ChatsOfConcat | src/lib/socket.js:340 | the query distributes over concatenation of the collection, so it keeps collection order |
| Store.DirectChatsOf | src/lib/socket.js:352-355 | `Chat.find({ members: u, isGroup: false })`: exactly the one-to-one chats of `u`, never more than the collection holds (order: `Store.DirectChatsOfConcat`) |
| Store.DirectChatsOfConcat | src/lib/socket.js:352-355 | the query distributes over concatenation of the collection, so it keeps collection order |
| Store.PopulateChats | src/lib/socket.js:352-355 | `find(...).populate('members')`: one populated chat per chat found |
| Store.PopulateChatsEach | src/lib/socket.js:352-355 | the i-th populated chat is the i-th chat with only its member list populated |
| Store.FindChatAppendFresh | src/controllers/chat.controller.js:18-21 | a created chat whose id no earlier chat has is what `Chat.findById` then returns |
| Store.FindDirectChat | src/controllers/chat.controller.js:11-14 | `findOne({ isGroup: false, members: { $all: [a, b] } })`: a matching chat, `None` exactly when no chat matches |
| Store.FindDirectChatAppend | src/controllers/chat.controller.js:18-21 | a matching chat inserted after none matched is what the next `findOne` returns |
| ChatController.ResourceTypeOf | src/controllers/chat.controller.js:205-210 | `Image` iff the media type starts with `image/`, `Video` iff it starts with `video/`, `Raw` otherwise, including when there is none |
| ChatController.CanDeleteForEveryone | src/controllers/chat.controller.js:177-202 | the handler's eligibility test: it holds whenever no other member has seen the message, and for a group it holds only then |
| ChatController.Tombstone | src/controllers/chat.controller.js:212-226 | a message deleted for everyone: flagged deleted, text and media cleared, every other field kept, and the upload reference cleared exactly when a present reference was destroyed successfully (kept after a failed destroy) |
| ChatController.CanDeleteForEveryoneIsPolicy | src/controllers/chat.controller.js:177-202 | for a group, or a one-to-one chat with at most one member besides the sender, the code's test holds iff no member other than the sender is in `seenBy` (a chat with no other member is eligible) |
| ChatController.DeleteMessage | src/controllers/chat.controller.js:156-257 | 404 for an unknown message, 500 when its chat is gone, 403 for a non-member, 403 for a non-sender asking "everyone"; a member asking for any other type than "everyone"/"me" gets 400; a refusal changes nothing, makes no destroy call and broadcasts nothing; `message-deleted` is broadcast iff the deletion for everyone succeeds |
| ChatController.DeleteForEveryoneGate | src/controllers/chat.controller.js:171-202 | for the sender of a message in their chat: 200 iff no other member has seen it; otherwise 400 and the message unchanged |
| ChatController.DeleteForEveryoneTombstones | src/controllers/chat.controller.js:204-226 | success gives a tombstone: deleted flag set, text/media/type cleared, every other field unchanged; `publicId` is cleared if the destroy call succeeded and otherwise kept as it was, and a failed destroy still deletes; the destroy call is made iff there is a `publicId`, with the resource type of the media |
| ChatController.DeleteForMeIdempotent | src/controllers/chat.controller.js:244-254 | any member gets 200; the requester is then in `deletedFor` exactly once; nothing else changes; nothing is broadcast; repeating the request changes nothing further |
| ChatController.AddGroupMember | src/controllers/chat.controller.js:102-116 | 404 when the chat is missing or not a group; 403 for a non-admin; with the admin, 200 iff the user is not yet a member, else 400; success appends the user; a refusal leaves the chat unchanged |
| ChatController.RemoveGroupMember | src/controllers/chat.controller.js:130-142 | the same 404/403 gates; for the admin always 200, with exactly the old members other than the user and nothing else changed; removing a non-member leaves the chat unchanged |
| ChatController.AddThenRemoveRestores | src/controllers/chat.controller.js:102-142 | removing a member just added restores the chat as it was |
| ChatController.AddTwiceRefused | src/controllers/chat.controller.js:111-113 | adding the same user a second time is refused with 400 |
| ChatController.RemoveTwice | src/controllers/chat.controller.js:130-142 | removing twice equals removing once |
| ChatController.CreateGroupChat | src/controllers/chat.controller.js:35-46 | 400 iff the name is missing or fewer than two members are supplied; otherwise 201 with a group whose members are the supplied list followed by the creator and whose admin is the creator |
| ChatController.CreatorAdministersGroup | src/controllers/chat.controller.js:35-46 | in a new group the creator can add exactly the users not yet in it, and anybody else's add or remove is refused with 403 |
| ChatController.CreateOrGetChat | src/controllers/chat.controller.js:11-24 | 200 with the one-to-one chat of the pair that `findOne` returns and nothing created, iff one exists; otherwise 201 with `[me, other]` appended to the collection, and a fresh id then finds the new chat |
| ChatController.CreateOrGetChatIdempotent | src/controllers/chat.controller.js:11-24 | asking again returns the same chat with status 200 and creates nothing |
| ChatController.CreatedChatHasOneOther | src/controllers/chat.controller.js:18-21 | a created one-to-one chat has at most one member besides either user |
| Presence.SendEach | src/lib/socket.js:45-53 | the `forEach` over a list of users with the `users.get` guard; never more emits than users listed (which emits, and in what order, is stated by `SendEachInOrder`) |
| Presence.SendEachReaches | src/lib/socket.js:292-299 | the emits go exactly to the sockets of the listed users that are connected |
| Presence.SendEachOnline | src/lib/socket.js:314-322 | sending to a list is sending to its connected members: offline users are skipped and list order is kept |
| Presence.SendEachInOrder | src/lib/socket.js:314-322 | exactly one emit per connected listed user, in list order: the i-th emit goes to the socket of the i-th connected user |
| Presence.SendEachToAll | src/lib/socket.js:45-53 | when all listed users are connected, the i-th emit goes to the i-th user |
| Presence.OnlineFriendsNotified | src/lib/socket.js:37-53 | on join each online friend, in friend-list order, gets exactly one `friend-status-change` "online" |
| Presence.RoomNotices | src/lib/socket.js:341-344 | the `chat-member-status-change` emits to the rooms of a list of chats, one per chat |
| Base.Among | src/lib/socket.js:37 | `filter(fid => users.has(fid))`: exactly the listed ids that belong to the set, never more than listed; with the set of existing users it is also `populate('members')` (src/lib/socket.js:73, 140, 355) |
| Base.AmongConcat | src/lib/socket.js:37 | the filter keeps list order (it distributes over concatenation) |
| Base.AmongAll | src/lib/socket.js:37 | a list whose ids all belong to the set (all connected, or all with a user document) is returned as it is |
| Presence.RoomNoticesOnePerChat | src/lib/socket.js:338-348 | the i-th notice goes to the room of the i-th chat of the list, with the user's status |
| Presence.MemberSplit | src/lib/socket.js:79-93 | the caller is in neither list; another member is in the online list iff connected and in the offline list iff not; together they hold every other member |
| Presence.JoinRoom | src/lib/socket.js:69-70 | the chat's set gains the user, created if absent; other rooms unchanged; no room becomes empty |
| Presence.LeaveRoom | src/lib/socket.js:107-112 | the user is removed; the entry is dropped iff that leaves it empty; other rooms unchanged; an unknown room changes nothing; no room becomes empty |
| Presence.RemoveFromRooms | src/lib/socket.js:304-311 | the user is in no room; a room is dropped iff removing the user empties it; every kept room loses just the user; no room becomes empty |
| Presence.PrunedExceptStep | src/lib/socket.js:304-311 | visiting one room in disconnect's loop removes the user from it, dropping it if that leaves it empty, whatever the visiting order |
| Presence.SetTyping | src/lib/socket.js:196-203 | typing adds the recipient and not typing removes it, like `Set.add`/`Set.delete`; no duplicates are introduced |
| Presence.RehydrateStep | src/lib/socket.js:359-372 | one iteration over a chat: existing entries are kept, and an entry is added or replaced only for the chat's other member, when a friend, with that chat's positive unread count |
| Presence.Rehydrate | src/lib/socket.js:357-372 | the map the loop over the chats builds: every entry is a positive count for a friend other than the user |
| Presence.RehydrateSound | src/lib/socket.js:350-378 | every rehydrated entry is positive, is for a friend other than the user, and equals the stored unread count in one of the user's one-to-one chats whose other member is that friend |
| Presence.RehydratePositive | src/lib/socket.js:369-371 | only strictly positive counts are stored |
| Presence.RehydrateComplete | src/lib/socket.js:359-372 | every friend who is the other member of a one-to-one chat with unread messages gets an entry |
| Presence.RehydrateSingleChat | src/lib/socket.js:359-372 | with one chat per friend, the friend's entry exists iff the stored count is positive, and equals it |
| Presence.ValidMessageData | src/lib/socket.js:121 | the send-message guard: a chat id and a sender, and either text with a character that is not white space, or a media URL |
| Presence.TrimText | src/lib/socket.js:130 | `text?.trim()`: missing stays missing; present text becomes empty exactly when it is all white space, and never grows |
| Presence.SendUnread | src/lib/socket.js:151-167 | the unread map after the recipients loop; no user loses its entry |
| Presence.SendUnreadKeys | src/lib/socket.js:151-167 | the loop adds an entry exactly for the recipients outside the room (`unreadCounts.set(recipientId, new Map())` when there was none) |
| Presence.SendUnreadFrame | src/lib/socket.js:151-155 | recipients in the chat's room and non-recipients keep their unread map unchanged |
| Presence.SendUnreadSets | src/lib/socket.js:151-167 | every recipient outside the room has, under the sender, the stored unread count (set, not incremented), and keeps its counts for other senders |
| Presence.SendUnreadPositive | src/lib/socket.js:151-167 | when every refreshed count is positive, all stored counts stay positive |
| Presence.UnreadNotices | src/lib/socket.js:169-176 | the `unread-count-update` emits of the recipients loop; never more emits than entries in the recipient list (order and multiplicity: `Presence.UnreadNoticesInOrder`) |
| Presence.UnreadNoticesInOrder | src/lib/socket.js:151-176 | one emit per entry of the recipient list that is connected and not in the room, in list order, with duplicates repeated; the i-th goes to the i-th such recipient with their refreshed count |
| Presence.UnreadNoticesReach | src/lib/socket.js:169-176 | `unread-count-update` goes exactly to connected recipients outside the room, carrying their refreshed count |
| Socket.Coordinator.constructor | src/lib/socket.js:5-9 | all five maps start empty, with no connection and an empty trace, over a given store; the invariant holds |
| Socket.Coordinator.UserOf | src/lib/socket.js:22 | `socket.userId`: the user a connection joined as, or the empty id before it joined |
| Socket.Coordinator.Join | src/lib/socket.js:15-61 | a missing id emits only `auth-error` and changes no map; otherwise the connection is registered; an unknown user then gets only `auth-error`; a known one is handled as `JoinKnownUser`; the invariant is kept |
| Socket.Coordinator.JoinKnownUser | src/lib/socket.js:31-56 | caches the friend list; stores the counts rehydrated from the populated one-to-one chats; emits `online-friends` (the connected friends in order), `unread-counts`, one `friend-status-change` per online friend and one room notice per chat |
| Socket.Coordinator.InitializeUnreadCounts | src/lib/socket.js:350-378 | stores, as the user's counts, exactly `Rehydrate` of the user's one-to-one chats with their member lists populated |
| Socket.Coordinator.UnreadFromFriends | src/lib/socket.js:359-373 | the loop over the chats computes exactly `Rehydrate` of them, and changes nothing |
| Socket.Coordinator.NotifyChatRooms | src/lib/socket.js:338-348 | appends one status notice to the room of each chat the user is a member of |
| Socket.Coordinator.JoinChat | src/lib/socket.js:63-99 | without a chat id or joined user nothing happens; otherwise the user is added to the room, and then either "Chat not found" or the online/offline split (caller in neither list) of the populated members (members without a user document are listed in neither) followed by `member-joined-chat` to the rest of the room |
| Socket.Coordinator.LeaveChat | src/lib/socket.js:101-115 | the user leaves the room (dropped when empty) and `member-left-chat` goes to the rest of the room |
| Socket.Coordinator.TypingInChat | src/lib/socket.js:211-216 | one `user-typing-in-chat` to the rest of the room, or nothing without a user or chat id |
| Socket.Coordinator.SendMessage | src/lib/socket.js:117-187 | invalid data (no chat, no sender, or blank text without media) emits `message-error` and changes nothing; otherwise the trimmed message is stored; an unknown chat then gets "Chat not found"; a known one updates the unread map as `SendUnread` over the populated members other than the sender, sends the count notices, then `receive-message` to the room |
| Socket.Coordinator.StoreMessage | src/lib/socket.js:127-135 | `newMsg.save()`: the message is appended and nothing else changes; the invariant is kept |
| Socket.Coordinator.DeliverMessage | src/lib/socket.js:140-181 | after the save: "Chat not found", or the unread updates and notices over the populated members other than the sender followed by `receive-message` to the room; the invariant is kept |
| Socket.Coordinator.UpdateRecipients | src/lib/socket.js:151-178 | the recipients loop stores exactly `SendUnread` and emits exactly `UnreadNotices`, keeping every stored count positive |
| Socket.Coordinator.Typing | src/lib/socket.js:189-209 | does nothing unless the recipient is in the caller's cached friends; otherwise the recipient is added to or removed from the caller's typing set, nothing else changes, and a connected recipient is told |
| Socket.Coordinator.MarkAsRead | src/lib/socket.js:218-240 | marks all the sender's messages read by the caller (so no count for that pair remains in any chat), drops the caller's entry for the sender, and emits count 0 |
| Socket.Coordinator.MessageSeen | src/lib/socket.js:243-254 | adds the user to the message's `seenBy` and announces it to the room |
| Socket.Coordinator.MessageReact | src/lib/socket.js:257-280 | replaces the user's reaction on the message, so the user has exactly the new emoji and others are unchanged, then sends the room the reactions; a missing message gets "Failed to add reaction" |
| Socket.Coordinator.Disconnect | src/lib/socket.js:282-329 | the connection is gone; a joined user is dropped from `users`, `friendsMap`, `typingUsers`, `unreadCounts` and every room (emptied rooms dropped), its typing recipients and then its friends that are still connected are told, in list order |
| Socket.Coordinator.StopTyping | src/lib/socket.js:292-301 | every still-connected user in the typing set receives `isTyping: false`, and the typing set is dropped |
| Socket.Coordinator.LeaveAllRooms | src/lib/socket.js:304-311 | the loop over the rooms, in any order, leaves exactly `RemoveFromRooms` |

## Left out

- Asynchronous interleaving: each handler is one atomic step, although its `await`s could interleave with other handlers.
- socket.io delivery: emits are recorded with their target (a socket, a room, a room minus the sender); which sockets a room reaches, `socket.join`/`socket.leave`, and fan-out across server instances are not modelled.
- The un-awaited `notifyChatRoomsAboutStatusChange` on disconnect (src/lib/socket.js:325) is not modelled; on join, where it is awaited, it is.
- Store failures and the `catch` branches they lead to (500 answers, "Failed to ..." error events, log lines). The deterministic failures are modelled: a missing message in `message-react`, a deleted chat in `deleteMessage`, and a group without admin in the membership edits.
- `populate` payloads: event payloads and REST replies carry ids and stored documents, not the populated copies with names or profile pictures; `chat-members-status` lists ids only. Where populating decides behaviour (the recipients of send-message, the member split of join-chat, the other member in `initializeUnreadCounts`), it is modelled by `Base.Among` over the users that have a document.
- Id generation, timestamps and `createdAt`: new ids are parameters, assumed fresh as generated ObjectIds are. The duplicate-key error that `save()` would raise on a reused id is not modelled; `Store.IndexOfAppendFresh` and `Store.FindChatAppendFresh` state what a fresh id guarantees. ObjectId casting and its errors are not modelled.
- The media store's destroy call (src/controllers/chat.controller.js:212-222) is external: its success is a parameter, and the call made is returned as a value.
- User lookup is a map from user id to friend list; the user schema and password hooks are not part of this model.
- The REST `sendMessage` and `getMessages` (src/controllers/chat.controller.js:56-95) only insert and read messages; they are not part of this model. Nor are the auth controller, mail, upload, server and route files.
- The socket `error` handler and connection logging only log.
- Socket.Coordinator.Disconnect: the typing-stop notices are stated through `SendEach`; their completeness is stated on `StopTyping`, not repeated here.
