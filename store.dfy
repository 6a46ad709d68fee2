/**
 * The Mongo queries and updates the backend issues, as functions over the
 * message and chat collections. A collection is a sequence in Mongo's natural
 * order; `findById` finds the first document with that id.
 */
module Store {
  import opened Base
  import opened Models

  // ---------------------------------------------------------------------
  // Unread counting: countDocuments({ chat, sender, readBy: { $ne: reader } })
  // ---------------------------------------------------------------------

  /** The document filter `{ chat, sender, readBy: { $ne: reader } }`. */
  predicate Unread(m: Message, chat: ChatId, sender: UserId, reader: UserId) {
    m.chat == chat && m.sender == sender && reader !in m.readBy
  }

  /** `Message.countDocuments({ chat, sender, readBy: { $ne: reader } })`. */
  function CountUnread(msgs: seq<Message>, chat: ChatId, sender: UserId, reader: UserId): (n: nat)
    ensures n <= |msgs|
  {
    if msgs == [] then 0
    else
      CountUnread(msgs[..|msgs| - 1], chat, sender, reader)
        + (if Unread(msgs[|msgs| - 1], chat, sender, reader) then 1 else 0)
  }

  /** The count is zero exactly when no document matches the filter. */
  lemma {:induction false} CountUnreadZero(msgs: seq<Message>, chat: ChatId, sender: UserId, reader: UserId)
    ensures CountUnread(msgs, chat, sender, reader) == 0 <==>
              forall i :: 0 <= i < |msgs| ==> !Unread(msgs[i], chat, sender, reader)
  {
    if msgs != [] {
      var n := |msgs| - 1;
      CountUnreadZero(msgs[..n], chat, sender, reader);
      assert forall i :: 0 <= i < n ==> msgs[..n][i] == msgs[i];
    }
  }

  /** Inserting one document changes the count by one exactly when it matches. */
  lemma CountUnreadAppend(msgs: seq<Message>, m: Message, chat: ChatId, sender: UserId, reader: UserId)
    ensures CountUnread(msgs + [m], chat, sender, reader)
            == CountUnread(msgs, chat, sender, reader) + (if Unread(m, chat, sender, reader) then 1 else 0)
  {
    assert (msgs + [m])[..|msgs|] == msgs;
  }

  /** Two collections that agree, document by document, on the filter have
      the same count. */
  lemma {:induction false} CountUnreadAgree(xs: seq<Message>, ys: seq<Message>, chat: ChatId, sender: UserId, reader: UserId)
    requires |xs| == |ys|
    requires forall i :: 0 <= i < |xs| ==> (Unread(xs[i], chat, sender, reader) <==> Unread(ys[i], chat, sender, reader))
    ensures CountUnread(xs, chat, sender, reader) == CountUnread(ys, chat, sender, reader)
  {
    if xs != [] {
      var n := |xs| - 1;
      CountUnreadAgree(xs[..n], ys[..n], chat, sender, reader);
    }
  }

  /** A freshly stored message is unread by everybody: afterwards every
      reader has at least one unread message from its sender in its chat. */
  lemma InsertedIsUnread(msgs: seq<Message>, m: Message)
    requires m.readBy == []
    ensures forall r :: CountUnread(msgs + [m], m.chat, m.sender, r) == CountUnread(msgs, m.chat, m.sender, r) + 1
  {
    forall r ensures CountUnread(msgs + [m], m.chat, m.sender, r) == CountUnread(msgs, m.chat, m.sender, r) + 1 {
      CountUnreadAppend(msgs, m, m.chat, m.sender, r);
    }
  }

  // ---------------------------------------------------------------------
  // mark-as-read: updateMany({ sender, readBy: { $ne: reader } }, { $addToSet: { readBy: reader } })
  // ---------------------------------------------------------------------

  /** The update applied to one document. */
  function MarkRead(m: Message, sender: UserId, reader: UserId): (r: Message)
    ensures r == m.(readBy := r.readBy)
    ensures forall u :: u in r.readBy <==> u in m.readBy || (u == reader && m.sender == sender)
  {
    if m.sender == sender && reader !in m.readBy then m.(readBy := m.readBy + [reader]) else m
  }

  /** The bulk update over the whole collection; it is not restricted to one
      chat. */
  function MarkAllRead(msgs: seq<Message>, sender: UserId, reader: UserId): (r: seq<Message>)
    ensures |r| == |msgs|
    ensures forall i :: 0 <= i < |msgs| ==> r[i] == msgs[i].(readBy := r[i].readBy)
    ensures forall i :: 0 <= i < |msgs| && msgs[i].sender != sender ==> r[i] == msgs[i]
    ensures forall i :: 0 <= i < |msgs| && msgs[i].sender == sender ==> reader in r[i].readBy
    ensures forall i, u :: 0 <= i < |msgs| && u != reader ==> (u in r[i].readBy <==> u in msgs[i].readBy)
  {
    seq(|msgs|, i requires 0 <= i < |msgs| => MarkRead(msgs[i], sender, reader))
  }

  /** After the update nothing from `sender` is unread by `reader`, in any chat. */
  lemma MarkAllReadClears(msgs: seq<Message>, sender: UserId, reader: UserId, chat: ChatId)
    ensures CountUnread(MarkAllRead(msgs, sender, reader), chat, sender, reader) == 0
  {
    var r := MarkAllRead(msgs, sender, reader);
    forall i | 0 <= i < |r| ensures !Unread(r[i], chat, sender, reader) {
    }
    CountUnreadZero(r, chat, sender, reader);
  }

  /** The update leaves every other (sender, reader) count as it was. */
  lemma MarkAllReadKeepsOthers(msgs: seq<Message>, sender: UserId, reader: UserId,
                               chat: ChatId, s: UserId, u: UserId)
    requires s != sender || u != reader
    ensures CountUnread(MarkAllRead(msgs, sender, reader), chat, s, u) == CountUnread(msgs, chat, s, u)
  {
    var r := MarkAllRead(msgs, sender, reader);
    forall i | 0 <= i < |msgs| ensures Unread(r[i], chat, s, u) <==> Unread(msgs[i], chat, s, u) {
      assert r[i] == MarkRead(msgs[i], sender, reader);
    }
    CountUnreadAgree(r, msgs, chat, s, u);
  }

  // ---------------------------------------------------------------------
  // findById and single-document updates
  // ---------------------------------------------------------------------

  /** Position of `Message.findById(id)` in the collection. */
  function IndexOf(msgs: seq<Message>, id: MessageId): (r: Option<nat>)
    ensures r.Some? ==> r.value < |msgs| && msgs[r.value].id == id
    ensures r.Some? ==> forall j :: 0 <= j < r.value ==> msgs[j].id != id
    ensures r.None? <==> forall j :: 0 <= j < |msgs| ==> msgs[j].id != id
  {
    if msgs == [] then None
    else if msgs[0].id == id then Some(0)
    else match IndexOf(msgs[1..], id)
      case None => None
      case Some(k) => Some(k + 1)
  }

  /** Replacing a document by one with the same id keeps `findById` where it was. */
  /** A message stored under an id no earlier message has is the one that
      `findById` then returns. */
  lemma {:induction false} IndexOfAppendFresh(msgs: seq<Message>, m: Message)
    ensures IndexOf(msgs, m.id).None? ==> IndexOf(msgs + [m], m.id) == Some(|msgs|)
  {
    if msgs == [] {
      assert [m][0] == m;
    } else if IndexOf(msgs, m.id).None? {
      assert (msgs + [m])[1..] == msgs[1..] + [m];
      IndexOfAppendFresh(msgs[1..], m);
    }
  }

  lemma IndexOfReplace(msgs: seq<Message>, i: nat, m: Message, id: MessageId)
    requires i < |msgs| && m.id == msgs[i].id
    ensures IndexOf(msgs[i := m], id) == IndexOf(msgs, id)
  {
    IndexOfSameIds(msgs[i := m], msgs, id);
  }

  /** `findById` only looks at the ids. */
  lemma {:induction false} IndexOfSameIds(xs: seq<Message>, ys: seq<Message>, id: MessageId)
    requires |xs| == |ys| && forall j :: 0 <= j < |xs| ==> xs[j].id == ys[j].id
    ensures IndexOf(xs, id) == IndexOf(ys, id)
  {
    if xs != [] && xs[0].id != id {
      assert forall j :: 0 <= j < |xs| - 1 ==> xs[1..][j].id == ys[1..][j].id by {
        forall j | 0 <= j < |xs| - 1 ensures xs[1..][j].id == ys[1..][j].id {
          assert xs[1..][j] == xs[j + 1] && ys[1..][j] == ys[j + 1];
        }
      }
      IndexOfSameIds(xs[1..], ys[1..], id);
    }
  }

  /** `Message.findByIdAndUpdate(id, { $addToSet: { seenBy: user } })`. */
  function MarkSeen(msgs: seq<Message>, id: MessageId, user: UserId): (r: seq<Message>)
    ensures |r| == |msgs| && IndexOf(r, id) == IndexOf(msgs, id)
    ensures IndexOf(msgs, id).None? ==> r == msgs
    ensures IndexOf(msgs, id).Some? ==>
              var i := IndexOf(msgs, id).value;
              && r[i] == msgs[i].(seenBy := r[i].seenBy)
              && (forall u :: u in r[i].seenBy <==> u in msgs[i].seenBy || u == user)
              && (forall j :: 0 <= j < |msgs| && j != i ==> r[j] == msgs[j])
  {
    match IndexOf(msgs, id)
    case None => msgs
    case Some(i) =>
      var m := msgs[i].(seenBy := AddToSet(msgs[i].seenBy, user));
      IndexOfReplace(msgs, i, m, id);
      msgs[i := m]
  }

  /** Marking a message seen twice by the same user is marking it once. */
  lemma MarkSeenIdempotent(msgs: seq<Message>, id: MessageId, user: UserId)
    ensures MarkSeen(MarkSeen(msgs, id, user), id, user) == MarkSeen(msgs, id, user)
  {
  }

  // ---------------------------------------------------------------------
  // Reactions: $pull { reactions: { user } } then $push { reactions: { user, emoji } }
  // ---------------------------------------------------------------------

  /** The emojis `user` has in `rs`, in list order. */
  function EmojisBy(rs: seq<Reaction>, user: UserId): seq<string>
  {
    if rs == [] then []
    else (if rs[0].user == user then [rs[0].emoji] else []) + EmojisBy(rs[1..], user)
  }

  /** At most one reaction per user. */
  ghost predicate OneReactionEach(rs: seq<Reaction>) {
    forall v :: |EmojisBy(rs, v)| <= 1
  }

  /** Every message of the collection has at most one reaction per user. */
  ghost predicate OneReactionPerUser(msgs: seq<Message>) {
    forall i :: 0 <= i < |msgs| ==> OneReactionEach(msgs[i].reactions)
  }

  /** Storing a document with no reactions keeps the property. */
  lemma OneReactionPerUserInsert(msgs: seq<Message>, m: Message)
    requires OneReactionPerUser(msgs) && m.reactions == []
    ensures OneReactionPerUser(msgs + [m])
  {
    forall j | 0 <= j < |msgs| + 1 ensures OneReactionEach((msgs + [m])[j].reactions) {
      if j < |msgs| {
        assert (msgs + [m])[j] == msgs[j];
      }
    }
  }

  /** An update that keeps every document's reactions keeps the property. */
  lemma OneReactionPerUserSameReactions(msgs: seq<Message>, r: seq<Message>)
    requires OneReactionPerUser(msgs) && |r| == |msgs|
    requires forall j :: 0 <= j < |msgs| ==> r[j].reactions == msgs[j].reactions
    ensures OneReactionPerUser(r)
  {
    forall j | 0 <= j < |r| ensures OneReactionEach(r[j].reactions) {
      assert r[j].reactions == msgs[j].reactions;
    }
  }

  lemma {:induction false} EmojisByConcat(a: seq<Reaction>, b: seq<Reaction>, v: UserId)
    ensures EmojisBy(a + b, v) == EmojisBy(a, v) + EmojisBy(b, v)
  {
    if a == [] {
      assert a + b == b;
    } else {
      assert (a + b)[1..] == a[1..] + b;
      EmojisByConcat(a[1..], b, v);
    }
  }

  /** `$pull: { reactions: { user } }` on one document. */
  function PullReactions(rs: seq<Reaction>, user: UserId): (r: seq<Reaction>)
    ensures forall x :: x in r <==> x in rs && x.user != user
  {
    if rs == [] then []
    else if rs[0].user == user then PullReactions(rs[1..], user)
    else [rs[0]] + PullReactions(rs[1..], user)
  }

  /** Pulling takes every reaction of `user` and no other. */
  lemma {:induction false} EmojisByPulled(rs: seq<Reaction>, user: UserId, v: UserId)
    ensures EmojisBy(PullReactions(rs, user), v) == if v == user then [] else EmojisBy(rs, v)
  {
    if rs != [] {
      EmojisByPulled(rs[1..], user, v);
      if rs[0].user != user {
        EmojisByConcat([rs[0]], PullReactions(rs[1..], user), v);
      }
    }
  }

  /** The pull-then-push pair on one reaction list: the user ends with exactly
      the new emoji, every other user's reactions are untouched, and the
      at-most-one-per-user property is kept. */
  function React(rs: seq<Reaction>, user: UserId, emoji: string): (r: seq<Reaction>)
    ensures EmojisBy(r, user) == [emoji]
    ensures forall v :: v != user ==> EmojisBy(r, v) == EmojisBy(rs, v)
    ensures OneReactionEach(rs) ==> OneReactionEach(r)
  {
    var pulled := PullReactions(rs, user);
    var added := [Reaction(user, emoji)];
    var r := pulled + added;
    assert forall v :: EmojisBy(r, v) == (if v == user then [emoji] else EmojisBy(rs, v)) by {
      forall v ensures EmojisBy(r, v) == (if v == user then [emoji] else EmojisBy(rs, v)) {
        EmojisByConcat(pulled, added, v);
        EmojisByPulled(rs, user, v);
        assert added[1..] == [];
      }
    }
    r
  }

  /** Reacting twice leaves one entry for the user, with the later emoji. */
  lemma ReactTwice(rs: seq<Reaction>, user: UserId, first: string, second: string)
    ensures EmojisBy(React(React(rs, user, first), user, second), user) == [second]
  {
  }

  /** `Message.findByIdAndUpdate(id, { $pull: { reactions: { user } } })`. */
  function PullReaction(msgs: seq<Message>, id: MessageId, user: UserId): (r: seq<Message>)
    ensures |r| == |msgs| && IndexOf(r, id) == IndexOf(msgs, id)
    ensures IndexOf(msgs, id).None? ==> r == msgs
    ensures IndexOf(msgs, id).Some? ==>
              var i := IndexOf(msgs, id).value;
              && r[i] == msgs[i].(reactions := PullReactions(msgs[i].reactions, user))
              && (forall j :: 0 <= j < |msgs| && j != i ==> r[j] == msgs[j])
  {
    match IndexOf(msgs, id)
    case None => msgs
    case Some(i) =>
      var m := msgs[i].(reactions := PullReactions(msgs[i].reactions, user));
      IndexOfReplace(msgs, i, m, id);
      msgs[i := m]
  }

  /** `Message.findByIdAndUpdate(id, { $push: { reactions: { user, emoji } } })`. */
  function PushReaction(msgs: seq<Message>, id: MessageId, user: UserId, emoji: string): (r: seq<Message>)
    ensures |r| == |msgs| && IndexOf(r, id) == IndexOf(msgs, id)
    ensures IndexOf(msgs, id).None? ==> r == msgs
    ensures IndexOf(msgs, id).Some? ==>
              var i := IndexOf(msgs, id).value;
              && r[i] == msgs[i].(reactions := msgs[i].reactions + [Reaction(user, emoji)])
              && (forall j :: 0 <= j < |msgs| && j != i ==> r[j] == msgs[j])
  {
    match IndexOf(msgs, id)
    case None => msgs
    case Some(i) =>
      var m := msgs[i].(reactions := msgs[i].reactions + [Reaction(user, emoji)]);
      IndexOfReplace(msgs, i, m, id);
      msgs[i := m]
  }

  /** The two updates of the message-react handler together replace the
      user's reaction on that one message and touch nothing else. */
  lemma ReactUpdatesOneMessage(msgs: seq<Message>, id: MessageId, user: UserId, emoji: string)
    ensures var r := PushReaction(PullReaction(msgs, id, user), id, user, emoji);
            && |r| == |msgs| && IndexOf(r, id) == IndexOf(msgs, id)
            && (IndexOf(msgs, id).None? ==> r == msgs)
            && (IndexOf(msgs, id).Some? ==>
                  var i := IndexOf(msgs, id).value;
                  && r[i] == msgs[i].(reactions := React(msgs[i].reactions, user, emoji))
                  && forall j :: 0 <= j < |msgs| && j != i ==> r[j] == msgs[j])
  {
  }

  // ---------------------------------------------------------------------
  // Chat queries
  // ---------------------------------------------------------------------

  /** `Chat.findById(id)`. */
  function FindChat(chats: seq<Chat>, id: ChatId): (r: Option<Chat>)
    ensures r.Some? ==> r.value in chats && r.value.id == id
    ensures r.None? <==> forall j :: 0 <= j < |chats| ==> chats[j].id != id
  {
    if chats == [] then None
    else if chats[0].id == id then Some(chats[0])
    else FindChat(chats[1..], id)
  }

  // ---------------------------------------------------------------------
  // populate('members')
  // ---------------------------------------------------------------------

  /** `find(...).populate('members')`: each chat of the result with its
      member list populated. */
  function PopulateChats(cs: seq<Chat>, existing: set<UserId>): (r: seq<Chat>)
    ensures |r| == |cs|
  {
    if cs == [] then []
    else [cs[0].(members := Among(cs[0].members, existing))] + PopulateChats(cs[1..], existing)
  }

  /** Chat by chat, only the member list is populated; ids, flags, name and
      admin are kept. */
  lemma {:induction false} PopulateChatsEach(cs: seq<Chat>, existing: set<UserId>)
    ensures forall i :: 0 <= i < |cs| ==>
              PopulateChats(cs, existing)[i] == cs[i].(members := Among(cs[i].members, existing))
  {
    if cs != [] {
      PopulateChatsEach(cs[1..], existing);
      var r := PopulateChats(cs, existing);
      forall i | 0 <= i < |cs| ensures r[i] == cs[i].(members := Among(cs[i].members, existing)) {
        if i > 0 {
          assert r[i] == PopulateChats(cs[1..], existing)[i - 1];
          assert cs[i] == cs[1..][i - 1];
        }
      }
    }
  }

  /** A chat stored under an id no earlier chat has is the one that
      `Chat.findById` then returns. */
  lemma {:induction false} FindChatAppendFresh(chats: seq<Chat>, c: Chat)
    ensures FindChat(chats, c.id).None? ==> FindChat(chats + [c], c.id) == Some(c)
  {
    if chats == [] {
      assert [c][0] == c;
    } else if FindChat(chats, c.id).None? {
      assert (chats + [c])[1..] == chats[1..] + [c];
      FindChatAppendFresh(chats[1..], c);
    }
  }

  /** `Chat.find({ members: user })`, in collection order. */
  function ChatsOf(chats: seq<Chat>, user: UserId): (r: seq<Chat>)
    ensures forall c :: c in r <==> c in chats && user in c.members
    ensures |r| <= |chats|
  {
    if chats == [] then []
    else (if user in chats[0].members then [chats[0]] else []) + ChatsOf(chats[1..], user)
  }

  /** The query keeps collection order: it distributes over concatenation. */
  lemma {:induction false} ChatsOfConcat(a: seq<Chat>, b: seq<Chat>, user: UserId)
    ensures ChatsOf(a + b, user) == ChatsOf(a, user) + ChatsOf(b, user)
  {
    if a == [] {
      assert a + b == b;
    } else {
      assert (a + b)[1..] == a[1..] + b;
      ChatsOfConcat(a[1..], b, user);
    }
  }

  /** `Chat.find({ members: user, isGroup: false })`, in collection order. */
  function DirectChatsOf(chats: seq<Chat>, user: UserId): (r: seq<Chat>)
    ensures forall c :: c in r <==> c in chats && user in c.members && !c.isGroup
    ensures |r| <= |chats|
  {
    if chats == [] then []
    else (if user in chats[0].members && !chats[0].isGroup then [chats[0]] else [])
           + DirectChatsOf(chats[1..], user)
  }

  /** The query keeps collection order: it distributes over concatenation. */
  lemma {:induction false} DirectChatsOfConcat(a: seq<Chat>, b: seq<Chat>, user: UserId)
    ensures DirectChatsOf(a + b, user) == DirectChatsOf(a, user) + DirectChatsOf(b, user)
  {
    if a == [] {
      assert a + b == b;
    } else {
      assert (a + b)[1..] == a[1..] + b;
      DirectChatsOfConcat(a[1..], b, user);
    }
  }

  /** The filter `{ isGroup: false, members: { $all: [a, b] } }`. */
  predicate IsDirectChatOf(c: Chat, a: UserId, b: UserId) {
    !c.isGroup && a in c.members && b in c.members
  }

  /** `Chat.findOne({ isGroup: false, members: { $all: [a, b] } })`. */
  function FindDirectChat(chats: seq<Chat>, a: UserId, b: UserId): (r: Option<Chat>)
    ensures r.Some? ==> r.value in chats && IsDirectChatOf(r.value, a, b)
    ensures r.None? <==> forall j :: 0 <= j < |chats| ==> !IsDirectChatOf(chats[j], a, b)
  {
    if chats == [] then None
    else if IsDirectChatOf(chats[0], a, b) then Some(chats[0])
    else FindDirectChat(chats[1..], a, b)
  }

  /** A new document matching the filter, inserted after none matched, is what
      the next `findOne` returns. */
  lemma {:induction false} FindDirectChatAppend(chats: seq<Chat>, c: Chat, a: UserId, b: UserId)
    requires FindDirectChat(chats, a, b).None? && IsDirectChatOf(c, a, b)
    ensures FindDirectChat(chats + [c], a, b) == Some(c)
  {
    if chats == [] {
      assert chats + [c] == [c];
    } else {
      assert (chats + [c])[1..] == chats[1..] + [c];
      FindDirectChatAppend(chats[1..], c, a, b);
    }
  }
}
