/**
 * What the socket handlers compute, stated as functions: the outbound events
 * and where they go, the online/offline splits, the room-subscription map
 * updates, the typing sets, the unread-count rehydration done on join and the
 * unread-count refresh done on each new message. The handlers in module
 * Socket are methods proved to do exactly these.
 */
module Presence {
  import opened Base
  import opened Models
  import opened Store

  // ---------------------------------------------------------------------
  // Outbound events
  // ---------------------------------------------------------------------

  datatype Status = Online | Offline

  /** The events the socket layer emits, with their payloads. The member
      names that `chat-members-status` carries are left out. */
  datatype Event =
    | AuthError
    | OnlineFriends(friends: seq<UserId>)
    | UnreadCounts(counts: map<UserId, nat>)
    | FriendStatusChange(user: UserId, status: Status)
    | ChatMemberStatusChange(user: UserId, status: Status, chat: ChatId)
    | ChatMembersStatus(chat: ChatId, online: seq<UserId>, offline: seq<UserId>)
    | MemberJoinedChat(user: UserId, chat: ChatId)
    | MemberLeftChat(user: UserId, chat: ChatId)
    | ReceiveMessage(message: Message)
    | UnreadCountUpdate(sender: UserId, count: nat)
    | UserTyping(user: UserId, isTyping: bool)
    | UserTypingInChat(user: UserId, isTyping: bool, chat: ChatId)
    | MessageSeenUpdate(messageId: MessageId, user: UserId)
    | ReactionUpdate(messageId: MessageId, reactions: seq<Reaction>)
    | MessageError(text: string)
    | ErrorEvent(text: string)

  /** `socket.emit` / `io.to(socketId)` reach one socket; `io.to(chatId)`
      reaches every socket in the chat's room; `socket.to(chatId)` reaches
      the room except the emitting socket. */
  datatype Target = ToSocket(socket: SocketId) | ToRoom(chat: ChatId) | ToRoomExcept(chat: ChatId, except: SocketId)

  datatype Emit = Emit(target: Target, event: Event)

  /** `ids.forEach(id => { const s = users.get(id); if (s) io.to(s).emit(ev) })`:
      one emit of `ev` to the socket of each listed user that is connected. */
  function SendEach(ids: seq<UserId>, users: map<UserId, SocketId>, ev: Event): (r: seq<Emit>)
    ensures |r| <= |ids|
  {
    if ids == [] then []
    else (if ids[0] in users then [Emit(ToSocket(users[ids[0]]), ev)] else []) + SendEach(ids[1..], users, ev)
  }

  /** Exactly the connected listed users are reached: every emit goes to one
      of them, and each of them gets one. */
  lemma {:induction false} SendEachReaches(ids: seq<UserId>, users: map<UserId, SocketId>, ev: Event)
    ensures forall e :: e in SendEach(ids, users, ev) <==>
              exists x :: x in ids && x in users && e == Emit(ToSocket(users[x]), ev)
  {
    if ids != [] {
      SendEachReaches(ids[1..], users, ev);
      assert forall x :: x in ids <==> x == ids[0] || x in ids[1..];
    }
  }

  /** When every listed user is connected, the i-th emit goes to the i-th
      user: one emit per listed user, in list order. */
  lemma {:induction false} SendEachToAll(ids: seq<UserId>, users: map<UserId, SocketId>, ev: Event)
    requires forall x :: x in ids ==> x in users
    ensures |SendEach(ids, users, ev)| == |ids|
    ensures forall i :: 0 <= i < |ids| ==> SendEach(ids, users, ev)[i] == Emit(ToSocket(users[ids[i]]), ev)
  {
    if ids != [] {
      SendEachToAll(ids[1..], users, ev);
    }
  }

  /** Offline listed users are skipped: sending to a list is sending to its
      connected members, in list order. */
  lemma {:induction false} SendEachOnline(ids: seq<UserId>, users: map<UserId, SocketId>, ev: Event)
    ensures SendEach(ids, users, ev) == SendEach(Among(ids, users.Keys), users, ev)
  {
    if ids != [] {
      SendEachOnline(ids[1..], users, ev);
      var rest := Among(ids[1..], users.Keys);
      if ids[0] in users {
        var o := [ids[0]] + rest;
        assert Among(ids, users.Keys) == o;
        assert o[0] == ids[0] && o[1..] == rest;
        assert SendEach(o, users, ev) == [Emit(ToSocket(users[ids[0]]), ev)] + SendEach(rest, users, ev);
      } else {
        assert Among(ids, users.Keys) == rest;
      }
    }
  }

  /** One emit per connected listed user, in list order: the i-th emit goes
      to the i-th connected user of the list. */
  lemma SendEachInOrder(ids: seq<UserId>, users: map<UserId, SocketId>, ev: Event)
    ensures var online := Among(ids, users.Keys);
            && |SendEach(ids, users, ev)| == |online|
            && forall i :: 0 <= i < |online| ==> SendEach(ids, users, ev)[i] == Emit(ToSocket(users[online[i]]), ev)
  {
    SendEachOnline(ids, users, ev);
    SendEachToAll(Among(ids, users.Keys), users, ev);
  }

  /** On join, each online friend, in friend-list order, gets exactly one
      `friend-status-change`. */
  lemma OnlineFriendsNotified(friends: seq<UserId>, users: map<UserId, SocketId>, u: UserId)
    ensures var online := Among(friends, users.Keys);
            var notices := SendEach(online, users, FriendStatusChange(u, Online));
            && |notices| == |online|
            && forall i :: 0 <= i < |online| ==> notices[i] == Emit(ToSocket(users[online[i]]), FriendStatusChange(u, Online))
  {
    SendEachToAll(Among(friends, users.Keys), users, FriendStatusChange(u, Online));
  }

  /** `userChats.forEach(chat => io.to(chat._id).emit("chat-member-status-change", ...))`. */
  function RoomNotices(cs: seq<Chat>, user: UserId, status: Status): (r: seq<Emit>)
    ensures |r| == |cs|
  {
    if cs == [] then []
    else [Emit(ToRoom(cs[0].id), ChatMemberStatusChange(user, status, cs[0].id))] + RoomNotices(cs[1..], user, status)
  }

  /** Each chat of the list gets one status change, in list order. */
  lemma {:induction false} RoomNoticesOnePerChat(cs: seq<Chat>, user: UserId, status: Status)
    ensures |RoomNotices(cs, user, status)| == |cs|
    ensures forall i :: 0 <= i < |cs| ==>
              RoomNotices(cs, user, status)[i] == Emit(ToRoom(cs[i].id), ChatMemberStatusChange(user, status, cs[i].id))
  {
    if cs != [] {
      RoomNoticesOnePerChat(cs[1..], user, status);
    }
  }

  // ---------------------------------------------------------------------
  // Presence
  // ---------------------------------------------------------------------

  /** The `chat-members-status` reply: the members other than the caller,
      split by whether they are connected, each in member-list order. */
  function MemberSplit(members: seq<UserId>, caller: UserId, online: set<UserId>): (r: (seq<UserId>, seq<UserId>))
    ensures forall x :: x in r.0 <==> x in members && x != caller && x in online
    ensures forall x :: x in r.1 <==> x in members && x != caller && x !in online
    ensures |r.0| + |r.1| == |members| - Occurrences(members, caller)
  {
    if members == [] then ([], [])
    else
      var rest := MemberSplit(members[1..], caller, online);
      var m := members[0];
      assert forall x :: x in members <==> x == m || x in members[1..];
      if m == caller then rest
      else if m in online then ([m] + rest.0, rest.1)
      else (rest.0, [m] + rest.1)
  }

  // ---------------------------------------------------------------------
  // Room subscriptions (chatRooms)
  // ---------------------------------------------------------------------

  /** No room is ever recorded with no subscriber. */
  ghost predicate NoEmptyRoom(rooms: map<ChatId, set<UserId>>) {
    forall c :: c in rooms ==> rooms[c] != {}
  }

  /** join-chat: the user is added to the chat's set, created if absent. */
  function JoinRoom(rooms: map<ChatId, set<UserId>>, chat: ChatId, u: UserId): (r: map<ChatId, set<UserId>>)
    ensures r.Keys == rooms.Keys + {chat}
    ensures u in r[chat] && r[chat] - {u} == (if chat in rooms then rooms[chat] else {}) - {u}
    ensures forall c :: c in rooms && c != chat ==> r[c] == rooms[c]
    ensures NoEmptyRoom(rooms) ==> NoEmptyRoom(r)
  {
    rooms[chat := (if chat in rooms then rooms[chat] else {}) + {u}]
  }

  /** leave-chat: the user is removed from the chat's set, and the entry is
      dropped when that leaves it empty. */
  function LeaveRoom(rooms: map<ChatId, set<UserId>>, chat: ChatId, u: UserId): (r: map<ChatId, set<UserId>>)
    ensures chat !in rooms ==> r == rooms
    ensures chat in rooms ==> (chat in r <==> rooms[chat] - {u} != {})
    ensures chat in r ==> u !in r[chat] || chat !in rooms
    ensures chat in r && chat in rooms ==> r[chat] == rooms[chat] - {u}
    ensures forall c :: c != chat ==> (c in r <==> c in rooms) && (c in r ==> r[c] == rooms[c])
    ensures NoEmptyRoom(rooms) ==> NoEmptyRoom(r)
  {
    if chat !in rooms then rooms
    else if rooms[chat] - {u} == {} then rooms - {chat}
    else rooms[chat := rooms[chat] - {u}]
  }

  /** What disconnect leaves of the rooms: the user is in none of them, the
      rooms that would become empty are dropped, and nothing else changes. A
      room the user is not in is kept as it is. */
  function RemoveFromRooms(rooms: map<ChatId, set<UserId>>, u: UserId): (r: map<ChatId, set<UserId>>)
    ensures forall c :: c in r ==> u !in r[c]
    ensures forall c :: c in r <==> c in rooms && (u !in rooms[c] || rooms[c] - {u} != {})
    ensures forall c :: c in r ==> r[c] == rooms[c] - {u}
    ensures NoEmptyRoom(rooms) ==> NoEmptyRoom(r)
  {
    map c | c in rooms && (u !in rooms[c] || rooms[c] - {u} != {}) :: rooms[c] - {u}
  }

  /** The rooms part way through disconnect's loop: the rooms still
      `pending` are as they were, the others as RemoveFromRooms leaves them. */
  function PrunedExcept(rooms: map<ChatId, set<UserId>>, u: UserId, pending: set<ChatId>): map<ChatId, set<UserId>>
  {
    map c | c in rooms && (c in pending || u !in rooms[c] || rooms[c] - {u} != {}) ::
      if c in pending then rooms[c] else rooms[c] - {u}
  }

  /** One iteration of the loop: visiting a pending room `c` removes the user
      from it, dropping it if that leaves it empty. */
  lemma PrunedExceptStep(rooms: map<ChatId, set<UserId>>, u: UserId, pending: set<ChatId>, c: ChatId)
    requires c in pending && c in rooms
    ensures var before := PrunedExcept(rooms, u, pending);
            var after := PrunedExcept(rooms, u, pending - {c});
            && c in before && before[c] == rooms[c]
            && after == if u !in rooms[c] then before
                        else if rooms[c] - {u} == {} then before - {c}
                        else before[c := rooms[c] - {u}]
  {
    var before := PrunedExcept(rooms, u, pending);
    var after := PrunedExcept(rooms, u, pending - {c});
    var expected := if u !in rooms[c] then before
                    else if rooms[c] - {u} == {} then before - {c}
                    else before[c := rooms[c] - {u}];
    assert after.Keys == expected.Keys;
    forall d | d in after ensures after[d] == expected[d] {
      if d == c {
        assert u !in rooms[c] ==> rooms[c] - {u} == rooms[c];
      }
    }
  }

  // ---------------------------------------------------------------------
  // Typing (typingUsers): each value is a JS Set, in insertion order
  // ---------------------------------------------------------------------

  /** Each typing set holds a user at most once. */
  ghost predicate TypingSetsNoDup(typing: map<UserId, seq<UserId>>) {
    forall u :: u in typing ==> NoDup(typing[u])
  }

  /** The typing set after a `typing` event: `add` or `delete` on a JS Set. */
  function SetTyping(s: seq<UserId>, recipient: UserId, isTyping: bool): (t: seq<UserId>)
    ensures isTyping ==> forall x :: x in t <==> x in s || x == recipient
    ensures !isTyping ==> forall x :: x in t <==> x in s && x != recipient
    ensures NoDup(s) ==> NoDup(t)
  {
    if isTyping then AddToSet(s, recipient)
    else
      WithoutNoDup(s, recipient);
      Without(s, recipient)
  }

  // ---------------------------------------------------------------------
  // Unread rehydration (initializeUnreadCounts)
  // ---------------------------------------------------------------------

  /** One iteration over a one-to-one chat: the other member, if it is a
      friend and has unread messages in that chat, gets their count. */
  function RehydrateStep(acc: map<UserId, nat>, chat: Chat, msgs: seq<Message>,
                         u: UserId, friends: seq<UserId>): (r: map<UserId, nat>)
    ensures acc.Keys <= r.Keys
    ensures forall k :: k in r ==>
              || (k in acc && r[k] == acc[k])
              || (FirstOther(chat.members, u) == Some(k) && k in friends
                  && r[k] == CountUnread(msgs, chat.id, k, u) > 0)
  {
    match FirstOther(chat.members, u)
    case None => acc
    case Some(other) =>
      if other !in friends then acc
      else
        var n := CountUnread(msgs, chat.id, other, u);
        if n > 0 then acc[other := n] else acc
  }

  /** The map the loop over `cs` builds, chat by chat in list order. */
  function Rehydrate(cs: seq<Chat>, msgs: seq<Message>, u: UserId, friends: seq<UserId>): (r: map<UserId, nat>)
    ensures forall k :: k in r ==> r[k] > 0 && k in friends && k != u
  {
    if cs == [] then map[]
    else RehydrateStep(Rehydrate(cs[..|cs| - 1], msgs, u, friends), cs[|cs| - 1], msgs, u, friends)
  }

  /** Every rehydrated entry is a strictly positive count, for a friend other
      than the user, and is the durable unread count of that friend's messages
      in one of the listed chats whose other member the friend is. */
  lemma {:induction false} RehydrateSound(cs: seq<Chat>, msgs: seq<Message>, u: UserId, friends: seq<UserId>)
    ensures forall k :: k in Rehydrate(cs, msgs, u, friends) ==>
              && Rehydrate(cs, msgs, u, friends)[k] > 0 && k in friends && k != u
              && exists i :: 0 <= i < |cs| && FirstOther(cs[i].members, u) == Some(k)
                   && Rehydrate(cs, msgs, u, friends)[k] == CountUnread(msgs, cs[i].id, k, u)
  {
    if cs != [] {
      var n := |cs| - 1;
      var pre := cs[..n];
      RehydrateSound(pre, msgs, u, friends);
      var p := Rehydrate(pre, msgs, u, friends);
      var r := Rehydrate(cs, msgs, u, friends);
      forall k | k in r
        ensures r[k] > 0 && k in friends && k != u
        ensures exists i :: 0 <= i < |cs| && FirstOther(cs[i].members, u) == Some(k)
                  && r[k] == CountUnread(msgs, cs[i].id, k, u)
      {
        if FirstOther(cs[n].members, u) == Some(k) && k in friends && CountUnread(msgs, cs[n].id, k, u) > 0 {
          assert r[k] == CountUnread(msgs, cs[n].id, k, u);
        } else {
          assert k in p && r[k] == p[k];
          var i :| 0 <= i < |pre| && FirstOther(pre[i].members, u) == Some(k)
                   && p[k] == CountUnread(msgs, pre[i].id, k, u);
          assert pre[i] == cs[i];
        }
      }
    }
  }

  /** In particular the rehydrated map holds only strictly positive counts. */
  lemma RehydratePositive(cs: seq<Chat>, msgs: seq<Message>, u: UserId, friends: seq<UserId>)
    ensures forall k :: k in Rehydrate(cs, msgs, u, friends) ==> Rehydrate(cs, msgs, u, friends)[k] > 0
  {
    RehydrateSound(cs, msgs, u, friends);
  }

  /** Every friend who is the other member of a listed chat with unread
      messages gets an entry. */
  lemma {:induction false} RehydrateComplete(cs: seq<Chat>, msgs: seq<Message>, u: UserId, friends: seq<UserId>)
    ensures forall i, k :: (0 <= i < |cs| && FirstOther(cs[i].members, u) == Some(k) && k in friends
                            && CountUnread(msgs, cs[i].id, k, u) > 0) ==> k in Rehydrate(cs, msgs, u, friends)
  {
    if cs != [] {
      var n := |cs| - 1;
      var pre := cs[..n];
      RehydrateComplete(pre, msgs, u, friends);
      forall i, k | 0 <= i < |cs| && FirstOther(cs[i].members, u) == Some(k) && k in friends
                    && CountUnread(msgs, cs[i].id, k, u) > 0
        ensures k in Rehydrate(cs, msgs, u, friends)
      {
        if i < n {
          assert pre[i] == cs[i];
          assert k in Rehydrate(pre, msgs, u, friends);
        }
      }
    }
  }

  /** With a single listed chat whose other member is the friend `k` (the
      usual case: one one-to-one chat per pair), the rehydrated entry for `k`
      exists exactly when the durable unread count is positive, and equals it. */
  lemma RehydrateSingleChat(cs: seq<Chat>, msgs: seq<Message>, u: UserId, friends: seq<UserId>, i: nat, k: UserId)
    requires i < |cs| && FirstOther(cs[i].members, u) == Some(k) && k in friends
    requires forall j :: 0 <= j < |cs| && FirstOther(cs[j].members, u) == Some(k) ==> j == i
    ensures k in Rehydrate(cs, msgs, u, friends) <==> CountUnread(msgs, cs[i].id, k, u) > 0
    ensures k in Rehydrate(cs, msgs, u, friends) ==>
              Rehydrate(cs, msgs, u, friends)[k] == CountUnread(msgs, cs[i].id, k, u)
  {
    RehydrateSound(cs, msgs, u, friends);
    RehydrateComplete(cs, msgs, u, friends);
  }

  // ---------------------------------------------------------------------
  // Unread refresh on a new message (the recipients loop of send-message)
  // ---------------------------------------------------------------------

  /** Every stored unread count is strictly positive. */
  ghost predicate AllPositive(counts: map<UserId, map<UserId, nat>>) {
    forall u, s :: u in counts && s in counts[u] ==> counts[u][s] > 0
  }

  /** send-message's guard: a chat, a sender, and either text that is not
      blank once trimmed or a media URL. */
  predicate ValidMessageData(chatId: ChatId, sender: UserId, text: Option<string>, mediaUrl: Option<string>)
    ensures ValidMessageData(chatId, sender, text, mediaUrl) <==>
              && chatId != "" && sender != ""
              && ((text.Some? && exists i :: 0 <= i < |text.value| && !IsJsSpace(text.value[i])) || Truthy(mediaUrl))
  {
    chatId != "" && sender != "" && (Truthy(TrimText(text)) || Truthy(mediaUrl))
  }

  /** `text?.trim()`. */
  function TrimText(text: Option<string>): (r: Option<string>)
    ensures r.None? <==> text.None?
    ensures text.Some? ==> (r.value == "" <==> forall i :: 0 <= i < |text.value| ==> IsJsSpace(text.value[i]))
    ensures text.Some? ==> |r.value| <= |text.value|
  {
    match text
    case None => None
    case Some(t) => Some(Trim(t))
  }

  /** The users subscribed to a chat's room, `chatRooms.get(chatId)`, or none. */
  function InRoom(rooms: map<ChatId, set<UserId>>, chat: ChatId): set<UserId> {
    if chat in rooms then rooms[chat] else {}
  }

  /** The unread map after the loop over `recipients`, in list order: each
      recipient not subscribed to the chat's room gets, under the sender, the
      durable count of the sender's messages in that chat it has not read. */
  function SendUnread(counts: map<UserId, map<UserId, nat>>, recipients: seq<UserId>, inRoom: set<UserId>,
                      msgs: seq<Message>, chat: ChatId, sender: UserId): (after: map<UserId, map<UserId, nat>>)
    ensures counts.Keys <= after.Keys
  {
    if recipients == [] then counts
    else
      var prev := SendUnread(counts, recipients[..|recipients| - 1], inRoom, msgs, chat, sender);
      var r := recipients[|recipients| - 1];
      if r in inRoom then prev
      else prev[r := (if r in prev then prev[r] else map[])[sender := CountUnread(msgs, chat, sender, r)]]
  }

  /** The loop adds an entry exactly for the recipients outside the room
      that had none. */
  lemma {:induction false} SendUnreadKeys(counts: map<UserId, map<UserId, nat>>, recipients: seq<UserId>,
                                          inRoom: set<UserId>, msgs: seq<Message>, chat: ChatId, sender: UserId)
    ensures forall x :: x in SendUnread(counts, recipients, inRoom, msgs, chat, sender) <==>
              x in counts || (x in recipients && x !in inRoom)
  {
    if recipients != [] {
      var n := |recipients| - 1;
      SendUnreadKeys(counts, recipients[..n], inRoom, msgs, chat, sender);
      assert forall x :: x in recipients <==> x in recipients[..n] || x == recipients[n];
    }
  }

  /** Recipients in the room, and users who are not recipients, keep their
      unread map as it was. */
  lemma {:induction false} SendUnreadFrame(counts: map<UserId, map<UserId, nat>>, recipients: seq<UserId>,
                                           inRoom: set<UserId>, msgs: seq<Message>, chat: ChatId, sender: UserId)
    ensures forall r :: r !in recipients || r in inRoom ==>
              var after := SendUnread(counts, recipients, inRoom, msgs, chat, sender);
              (r in after <==> r in counts) && (r in counts ==> after[r] == counts[r])
  {
    if recipients != [] {
      var n := |recipients| - 1;
      SendUnreadFrame(counts, recipients[..n], inRoom, msgs, chat, sender);
      forall r | r !in recipients || r in inRoom
        ensures var after := SendUnread(counts, recipients, inRoom, msgs, chat, sender);
                (r in after <==> r in counts) && (r in counts ==> after[r] == counts[r])
      {
        if r !in recipients {
          assert r !in recipients[..n];
        }
      }
    }
  }

  /** Every recipient outside the room has, under the sender, the durable
      unread count; its entries for other senders are unchanged. */
  lemma {:induction false} SendUnreadSets(counts: map<UserId, map<UserId, nat>>, recipients: seq<UserId>,
                                          inRoom: set<UserId>, msgs: seq<Message>, chat: ChatId, sender: UserId)
    ensures forall r :: r in recipients && r !in inRoom ==>
              var after := SendUnread(counts, recipients, inRoom, msgs, chat, sender);
              && r in after && sender in after[r]
              && after[r][sender] == CountUnread(msgs, chat, sender, r)
              && after[r] - {sender} == (if r in counts then counts[r] else map[]) - {sender}
  {
    if recipients != [] {
      var n := |recipients| - 1;
      var pre := recipients[..n];
      SendUnreadSets(counts, pre, inRoom, msgs, chat, sender);
      SendUnreadFrame(counts, pre, inRoom, msgs, chat, sender);
      var prev := SendUnread(counts, pre, inRoom, msgs, chat, sender);
      var after := SendUnread(counts, recipients, inRoom, msgs, chat, sender);
      forall r | r in recipients && r !in inRoom
        ensures && r in after && sender in after[r]
                && after[r][sender] == CountUnread(msgs, chat, sender, r)
                && after[r] - {sender} == (if r in counts then counts[r] else map[]) - {sender}
      {
        var k :| 0 <= k < |recipients| && recipients[k] == r;
        if r == recipients[n] {
          var base := if r in prev then prev[r] else map[];
          assert after[r] == base[sender := CountUnread(msgs, chat, sender, r)];
          if r in pre {
            assert base - {sender} == (if r in counts then counts[r] else map[]) - {sender};
          } else {
            assert base == (if r in counts then counts[r] else map[]);
          }
          assert after[r] - {sender} == base - {sender};
        } else {
          assert r in pre by { assert k < n && pre[k] == r; }
        }
      }
    }
  }

  /** Every count the loop stores is positive when every refreshed count is:
      stored counts stay positive. */
  lemma SendUnreadPositive(counts: map<UserId, map<UserId, nat>>, recipients: seq<UserId>,
                           inRoom: set<UserId>, msgs: seq<Message>, chat: ChatId, sender: UserId)
    requires AllPositive(counts)
    requires forall r :: r in recipients ==> CountUnread(msgs, chat, sender, r) > 0
    ensures AllPositive(SendUnread(counts, recipients, inRoom, msgs, chat, sender))
  {
    SendUnreadFrame(counts, recipients, inRoom, msgs, chat, sender);
    SendUnreadSets(counts, recipients, inRoom, msgs, chat, sender);
    var after := SendUnread(counts, recipients, inRoom, msgs, chat, sender);
    forall u, s | u in after && s in after[u] ensures after[u][s] > 0 {
      if u in recipients && u !in inRoom && s != sender {
        var before := if u in counts then counts[u] else map[];
        assert s in after[u] - {sender};
        assert (after[u] - {sender})[s] == before[s];
      }
    }
  }

  /** The `unread-count-update` emits of the loop, in list order: one for
      each recipient outside the room that is connected, carrying the
      refreshed count. */
  function UnreadNotices(recipients: seq<UserId>, inRoom: set<UserId>, users: map<UserId, SocketId>,
                         msgs: seq<Message>, chat: ChatId, sender: UserId): (r: seq<Emit>)
    ensures |r| <= |recipients|
  {
    if recipients == [] then []
    else
      var n := |recipients| - 1;
      var x := recipients[n];
      UnreadNotices(recipients[..n], inRoom, users, msgs, chat, sender)
        + (if x !in inRoom && x in users
           then [Emit(ToSocket(users[x]), UnreadCountUpdate(sender, CountUnread(msgs, chat, sender, x)))]
           else [])
  }

  /** One notice per entry of the list that is outside the room and
      connected, in list order, each with that recipient's refreshed count. */
  lemma {:induction false} UnreadNoticesInOrder(recipients: seq<UserId>, inRoom: set<UserId>, users: map<UserId, SocketId>,
                                                msgs: seq<Message>, chat: ChatId, sender: UserId)
    ensures var told := Among(recipients, users.Keys - inRoom);
            var notices := UnreadNotices(recipients, inRoom, users, msgs, chat, sender);
            && |notices| == |told|
            && forall i :: 0 <= i < |told| ==>
                 told[i] in users && told[i] !in inRoom &&
                 notices[i] == Emit(ToSocket(users[told[i]]), UnreadCountUpdate(sender, CountUnread(msgs, chat, sender, told[i])))
  {
    if recipients != [] {
      var n := |recipients| - 1;
      var x := recipients[n];
      UnreadNoticesInOrder(recipients[..n], inRoom, users, msgs, chat, sender);
      assert recipients == recipients[..n] + [x];
      AmongConcat(recipients[..n], [x], users.Keys - inRoom);
      assert Among([x], users.Keys - inRoom) == (if x in users.Keys - inRoom then [x] else []);
    }
  }

  /** Exactly the connected recipients outside the room are told, each with
      the durable unread count of the sender's messages. */
  lemma {:induction false} UnreadNoticesReach(recipients: seq<UserId>, inRoom: set<UserId>, users: map<UserId, SocketId>,
                                              msgs: seq<Message>, chat: ChatId, sender: UserId)
    ensures forall e :: e in UnreadNotices(recipients, inRoom, users, msgs, chat, sender) <==>
              exists x :: (x in recipients && x !in inRoom && x in users &&
                           e == Emit(ToSocket(users[x]), UnreadCountUpdate(sender, CountUnread(msgs, chat, sender, x))))
  {
    if recipients != [] {
      var n := |recipients| - 1;
      UnreadNoticesReach(recipients[..n], inRoom, users, msgs, chat, sender);
      assert forall y :: y in recipients <==> y in recipients[..n] || y == recipients[n];
    }
  }
}
