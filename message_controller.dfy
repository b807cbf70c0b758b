/**
 * `sendMessage` and `getMessages`: find or create the conversation of a pair, store the
 * message, append its id, push it to the receiver's socket when one is registered; and
 * read a pair's history back.
 */
module MessageController {
  import opened Common
  import opened Models
  import opened Collections
  import opened Store
  import opened Socket

  /** The filter `partcipants: { $all: [a, b] }`: both ids are among the participants, in any order. */
  predicate HasParticipants(c: Conversation, a: UserId, b: UserId) {
    a in c.participants && b in c.participants
  }

  /** `Conversation.findOne({ partcipants: { $all: [a, b] } })`: the first conversation holding both ids. */
  function FindConversation(conversations: seq<Conversation>, a: UserId, b: UserId): (r: Option<nat>)
    ensures r.Some? ==> r.value < |conversations| && HasParticipants(conversations[r.value], a, b)
    ensures r.Some? ==> forall j | 0 <= j < r.value :: !HasParticipants(conversations[j], a, b)
    ensures r.None? <==> forall j | 0 <= j < |conversations| :: !HasParticipants(conversations[j], a, b)
  {
    FindFirst(conversations, c => HasParticipants(c, a, b))
  }

  /** The query ignores the order of the pair. */
  lemma {:induction false} FindConversationSymmetric(conversations: seq<Conversation>, a: UserId, b: UserId)
    ensures FindConversation(conversations, a, b) == FindConversation(conversations, b, a)
  {
    FindFirstAgrees(conversations, c => HasParticipants(c, a, b), conversations, c => HasParticipants(c, b, a));
  }

  /** The message ids of the conversation the query finds, none when it finds nothing. */
  function MessageIdsBetween(conversations: seq<Conversation>, a: UserId, b: UserId): seq<MessageId> {
    match FindConversation(conversations, a, b)
    case None => []
    case Some(k) => conversations[k].messages
  }

  /** Every conversation has two participant entries (what `sendMessage` creates). */
  predicate TwoParticipants(conversations: seq<Conversation>) {
    forall i | 0 <= i < |conversations| :: |conversations[i].participants| == 2
  }

  /** No two conversations hold the same pair of distinct users. */
  ghost predicate OnePerPair(conversations: seq<Conversation>) {
    forall i, j, a: UserId, b: UserId |
      && 0 <= i < |conversations| && 0 <= j < |conversations| && a != b
      && HasParticipants(conversations[i], a, b) && HasParticipants(conversations[j], a, b)
      :: i == j
  }

  /** The conversation collection after `sendMessage` stored message `id`. */
  function SendConversations(conversations: seq<Conversation>, sender: UserId, receiver: UserId,
                             id: MessageId, now: Time): (r: seq<Conversation>)
    ensures FindConversation(conversations, sender, receiver).None? ==> |r| == |conversations| + 1
    ensures FindConversation(conversations, sender, receiver).Some? ==> |r| == |conversations|
  {
    match FindConversation(conversations, sender, receiver)
    case None =>
      conversations + [Conversation(|conversations|, [sender, receiver], [id], now, now)]
    case Some(k) =>
      conversations[k := conversations[k].(messages := conversations[k].messages + [id], updatedAt := now)]
  }

  /**
   * With no conversation of the pair, a send adds exactly one new one `[sender, receiver]`
   * holding `[id]`; otherwise `id` goes to the end of the found conversation's messages.
   * Either way no other conversation changes and no id, participant list or creation time does.
   */
  lemma {:induction false} SendConversationsShape(conversations: seq<Conversation>, sender: UserId, receiver: UserId,
                                                  id: MessageId, now: Time)
    ensures var r := SendConversations(conversations, sender, receiver, id, now);
      && (FindConversation(conversations, sender, receiver).None? <==> |r| == |conversations| + 1)
      && (|r| == |conversations| || |r| == |conversations| + 1)
      && (|r| == |conversations| + 1 ==>
            r[|conversations|] == Conversation(|conversations|, [sender, receiver], [id], now, now))
      && (forall j | 0 <= j < |conversations| ::
            && r[j].id == conversations[j].id
            && r[j].participants == conversations[j].participants
            && r[j].createdAt == conversations[j].createdAt)
      && (forall j | 0 <= j < |conversations| ::
            || r[j] == conversations[j]
            || (&& FindConversation(conversations, sender, receiver) == Some(j)
                && r[j].messages == conversations[j].messages + [id]
                && r[j].updatedAt == now))
  {
  }

  /** After a send, the pair's history is the old one with the new id at the end. */
  lemma {:induction false} SendAppendsToPair(conversations: seq<Conversation>, sender: UserId, receiver: UserId,
                                             id: MessageId, now: Time)
    ensures MessageIdsBetween(SendConversations(conversations, sender, receiver, id, now), sender, receiver)
            == MessageIdsBetween(conversations, sender, receiver) + [id]
  {
    var after := SendConversations(conversations, sender, receiver, id, now);
    var p := c => HasParticipants(c, sender, receiver);
    match FindConversation(conversations, sender, receiver)
    case None =>
      FindFirstAppend(conversations, after[|conversations|], p);
      assert after == conversations + [after[|conversations|]];
    case Some(k) =>
      FindFirstAgrees(conversations, p, after, p);
  }

  /**
   * A send between two distinct users leaves the history of every other pair of distinct
   * users as it was, provided each conversation has two participant entries.
   */
  lemma {:induction false} SendKeepsOtherPairs(conversations: seq<Conversation>, sender: UserId, receiver: UserId,
                                               id: MessageId, now: Time, a: UserId, b: UserId)
    requires TwoParticipants(conversations)
    requires sender != receiver && a != b
    requires !((a == sender && b == receiver) || (a == receiver && b == sender))
    ensures MessageIdsBetween(SendConversations(conversations, sender, receiver, id, now), a, b)
            == MessageIdsBetween(conversations, a, b)
  {
    var after := SendConversations(conversations, sender, receiver, id, now);
    var p := c => HasParticipants(c, a, b);
    match FindConversation(conversations, sender, receiver)
    case None =>
      FindFirstAppend(conversations, after[|conversations|], p);
      assert after == conversations + [after[|conversations|]];
    case Some(k) =>
      var ps := conversations[k].participants;
      assert ps == [ps[0], ps[1]];
      assert !p(conversations[k]);
      FindFirstAgrees(conversations, p, after, p);
  }

  /** Sends only create conversations with two participant entries. */
  lemma {:induction false} SendKeepsTwoParticipants(conversations: seq<Conversation>, sender: UserId, receiver: UserId,
                                                    id: MessageId, now: Time)
    requires TwoParticipants(conversations)
    ensures TwoParticipants(SendConversations(conversations, sender, receiver, id, now))
  {
  }

  /** A send never creates a second conversation for a pair of distinct users. */
  lemma {:induction false} SendKeepsOnePerPair(conversations: seq<Conversation>, sender: UserId, receiver: UserId,
                                               id: MessageId, now: Time)
    requires OnePerPair(conversations)
    ensures OnePerPair(SendConversations(conversations, sender, receiver, id, now))
  {
    var after := SendConversations(conversations, sender, receiver, id, now);
    if |after| == |conversations| + 1 {
      forall i, j, a: UserId, b: UserId |
        && 0 <= i < |after| && 0 <= j < |after| && a != b
        && HasParticipants(after[i], a, b) && HasParticipants(after[j], a, b)
        ensures i == j
      {
      }
    }
  }

  /** `populate("messages")`: the referenced messages in order; a dangling reference is dropped. */
  function Populate(messages: seq<Message>, ids: seq<MessageId>): (r: seq<Message>)
    ensures |r| <= |ids|
  {
    if |ids| == 0 then []
    else
      var found := FindById(messages, ids[0]);
      var head := if found.Some? then [messages[found.value]] else [];
      head + Populate(messages, ids[1..])
  }

  /** When every reference points at a stored message, populating resolves each one, in order. */
  lemma {:induction false} PopulateResolvesAll(messages: seq<Message>, ids: seq<MessageId>)
    requires MessagesValid(messages)
    requires forall k | 0 <= k < |ids| :: ids[k] < |messages|
    ensures |Populate(messages, ids)| == |ids|
    ensures forall k | 0 <= k < |ids| :: Populate(messages, ids)[k] == messages[ids[k]]
    decreases |ids|
  {
    if |ids| > 0 {
      var rest := ids[1..];
      assert forall k | 0 <= k < |rest| :: rest[k] == ids[k + 1];
      PopulateResolvesAll(messages, rest);
      assert FindById(messages, ids[0]) == Some(ids[0]);
      var r := Populate(messages, ids);
      assert r == [messages[ids[0]]] + Populate(messages, rest);
      forall k | 0 <= k < |ids| ensures r[k] == messages[ids[k]] {
        if k > 0 {
          assert r[k] == Populate(messages, rest)[k - 1];
        }
      }
    }
  }

  /** Populating only ever yields stored messages. */
  lemma {:induction false} PopulateYieldsStored(messages: seq<Message>, ids: seq<MessageId>, m: Message)
    requires m in Populate(messages, ids)
    ensures m in messages
    decreases |ids|
  {
    var found := FindById(messages, ids[0]);
    var head := if found.Some? then [messages[found.value]] else [];
    if m !in head {
      PopulateYieldsStored(messages, ids[1..], m);
    }
  }

  /** `Message.findById(id)`: the position of the message with that id. */
  function FindById(messages: seq<Message>, id: MessageId): (r: Option<nat>)
    ensures r.Some? ==> r.value < |messages| && messages[r.value].id == id
    ensures r.None? ==> forall j | 0 <= j < |messages| :: messages[j].id != id
    ensures MessagesValid(messages) && id < |messages| ==> r == Some(id)
  {
    var r := FindFirst(messages, (m: Message) => m.id == id);
    assert MessagesValid(messages) && id < |messages| ==> messages[id].id == id;
    assert MessagesValid(messages) && r.Some? ==> messages[r.value].id == r.value;
    r
  }

  /**
   * `getMessages(sender, receiver)`: the populated messages of the first conversation holding
   * both users, in stored (append) order, or nothing when there is none.
   */
  function GetMessages(conversations: seq<Conversation>, messages: seq<Message>,
                       sender: UserId, receiver: UserId): (r: Option<seq<Message>>)
    ensures r.None? <==> forall j | 0 <= j < |conversations| :: !HasParticipants(conversations[j], sender, receiver)
  {
    match FindConversation(conversations, sender, receiver)
    case None => None
    case Some(k) => Some(Populate(messages, conversations[k].messages))
  }

  /**
   * `getMessages` answers with nothing exactly when no conversation holds both users, and
   * otherwise with the populated history of the pair.
   */
  lemma {:induction false} GetMessagesFindsPair(conversations: seq<Conversation>, messages: seq<Message>,
                                                sender: UserId, receiver: UserId)
    ensures GetMessages(conversations, messages, sender, receiver).None?
            <==> forall j | 0 <= j < |conversations| :: !HasParticipants(conversations[j], sender, receiver)
    ensures GetMessages(conversations, messages, sender, receiver).Some? ==>
              GetMessages(conversations, messages, sender, receiver).value
              == Populate(messages, MessageIdsBetween(conversations, sender, receiver))
  {
  }

  /** The history of a pair reads the same from either side. */
  lemma {:induction false} GetMessagesSymmetric(conversations: seq<Conversation>, messages: seq<Message>, a: UserId, b: UserId)
    ensures GetMessages(conversations, messages, a, b) == GetMessages(conversations, messages, b, a)
  {
    FindConversationSymmetric(conversations, a, b);
  }

  /** With one conversation per pair, the history of two distinct users is that of their only conversation. */
  lemma {:induction false} GetMessagesOfOnlyConversation(conversations: seq<Conversation>, messages: seq<Message>,
                                                         a: UserId, b: UserId, j: nat)
    requires OnePerPair(conversations) && a != b
    requires j < |conversations| && HasParticipants(conversations[j], a, b)
    ensures GetMessages(conversations, messages, a, b) == Some(Populate(messages, conversations[j].messages))
  {
  }

  /** Storing one more message and referencing it last adds it at the end of the populated list. */
  lemma {:induction false} PopulateAppend(messages: seq<Message>, ids: seq<MessageId>, m: Message)
    requires MessagesValid(messages) && m.id == |messages|
    requires forall k | 0 <= k < |ids| :: ids[k] < |messages|
    ensures Populate(messages + [m], ids + [m.id]) == Populate(messages, ids) + [m]
  {
    var got := Populate(messages + [m], ids + [m.id]);
    var want := Populate(messages, ids) + [m];
    assert MessagesValid(messages + [m]);
    PopulateResolvesAll(messages, ids);
    PopulateResolvesAll(messages + [m], ids + [m.id]);
    forall k | 0 <= k < |ids| + 1 ensures got[k] == want[k] {
      if k < |ids| {
        assert (ids + [m.id])[k] == ids[k];
      }
    }
  }

  /** Right after a send, the pair's history is the old history followed by the new message. */
  lemma {:induction false} SendThenGetMessages(conversations: seq<Conversation>, messages: seq<Message>,
                                               sender: UserId, receiver: UserId, m: Message, now: Time)
    requires MessagesValid(messages) && ConversationsValid(conversations, |messages|)
    requires m.id == |messages|
    ensures GetMessages(SendConversations(conversations, sender, receiver, m.id, now), messages + [m], sender, receiver)
            == Some(Populate(messages, MessageIdsBetween(conversations, sender, receiver)) + [m])
  {
    var after := SendConversations(conversations, sender, receiver, m.id, now);
    SendAppendsToPair(conversations, sender, receiver, m.id, now);
    PopulateAppend(messages, MessageIdsBetween(conversations, sender, receiver), m);
    GetMessagesFindsPair(after, messages + [m], sender, receiver);
  }

  /** A send keeps the collections' constraints: ids are positions and references point at stored messages. */
  lemma {:induction false} SendKeepsStoreValid(conversations: seq<Conversation>, messages: seq<Message>,
                                               sender: UserId, receiver: UserId, m: Message, now: Time)
    requires MessagesValid(messages) && ConversationsValid(conversations, |messages|)
    requires m.id == |messages|
    ensures MessagesValid(messages + [m])
    ensures ConversationsValid(SendConversations(conversations, sender, receiver, m.id, now), |messages| + 1)
  {
    var after := SendConversations(conversations, sender, receiver, m.id, now);
    forall i | 0 <= i < |after|
      ensures after[i].id == i
      ensures forall k | 0 <= k < |after[i].messages| :: after[i].messages[k] < |messages| + 1
    {
      if i < |conversations| && after[i] != conversations[i] {
        assert after[i].messages == conversations[i].messages + [m.id];
      }
    }
  }

  /** One request to send, as the handler sees it: who sends to whom, and when. */
  datatype Outgoing = Outgoing(sender: UserId, receiver: UserId, at: Time)

  /** The conversations after the sends run one after another; the i-th stores message `firstId + i`. */
  function SendAll(conversations: seq<Conversation>, sends: seq<Outgoing>, firstId: MessageId): seq<Conversation>
    decreases |sends|
  {
    if |sends| == 0 then conversations
    else
      var o := sends[0];
      SendAll(SendConversations(conversations, o.sender, o.receiver, firstId, o.at), sends[1..], firstId + 1)
  }

  /** The send goes between `a` and `b`, in either direction. */
  predicate Between(o: Outgoing, a: UserId, b: UserId) {
    (o.sender == a && o.receiver == b) || (o.sender == b && o.receiver == a)
  }

  /** The ids of the sends between `a` and `b`, in the order they ran. */
  function IdsBetween(sends: seq<Outgoing>, a: UserId, b: UserId, firstId: MessageId): seq<MessageId>
    decreases |sends|
  {
    if |sends| == 0 then []
    else (if Between(sends[0], a, b) then [firstId] else []) + IdsBetween(sends[1..], a, b, firstId + 1)
  }

  /** Any sequence of sends keeps at most one conversation per pair of distinct users. */
  lemma {:induction false} SendAllKeepsOnePerPair(conversations: seq<Conversation>, sends: seq<Outgoing>,
                                                  firstId: MessageId)
    requires OnePerPair(conversations)
    ensures OnePerPair(SendAll(conversations, sends, firstId))
    decreases |sends|
  {
    if |sends| > 0 {
      var o := sends[0];
      SendKeepsOnePerPair(conversations, o.sender, o.receiver, firstId, o.at);
      SendAllKeepsOnePerPair(SendConversations(conversations, o.sender, o.receiver, firstId, o.at),
                             sends[1..], firstId + 1);
    }
  }

  /** One send between distinct users adds its id to the history of two distinct users exactly when it is between them. */
  lemma {:induction false} SendStep(conversations: seq<Conversation>, o: Outgoing, id: MessageId, a: UserId, b: UserId)
    requires TwoParticipants(conversations) && a != b && o.sender != o.receiver
    ensures MessageIdsBetween(SendConversations(conversations, o.sender, o.receiver, id, o.at), a, b)
            == MessageIdsBetween(conversations, a, b) + (if Between(o, a, b) then [id] else [])
  {
    var next := SendConversations(conversations, o.sender, o.receiver, id, o.at);
    if Between(o, a, b) {
      SendAppendsToPair(conversations, o.sender, o.receiver, id, o.at);
      FindConversationSymmetric(conversations, a, b);
      FindConversationSymmetric(next, a, b);
    } else {
      SendKeepsOtherPairs(conversations, o.sender, o.receiver, id, o.at, a, b);
    }
  }

  /**
   * After a sequence of sends between distinct users, the history of two distinct users is
   * their earlier history followed by exactly the ids of the sends between them, in send order.
   */
  lemma {:induction false} HistoryOfSends(conversations: seq<Conversation>, sends: seq<Outgoing>,
                                          firstId: MessageId, a: UserId, b: UserId)
    requires TwoParticipants(conversations) && a != b
    requires forall i | 0 <= i < |sends| :: sends[i].sender != sends[i].receiver
    ensures MessageIdsBetween(SendAll(conversations, sends, firstId), a, b)
            == MessageIdsBetween(conversations, a, b) + IdsBetween(sends, a, b, firstId)
    decreases |sends|
  {
    if |sends| > 0 {
      var o := sends[0];
      var next := SendConversations(conversations, o.sender, o.receiver, firstId, o.at);
      var step := if Between(o, a, b) then [firstId] else [];
      assert IdsBetween(sends, a, b, firstId) == step + IdsBetween(sends[1..], a, b, firstId + 1);
      SendKeepsTwoParticipants(conversations, o.sender, o.receiver, firstId, o.at);
      SendStep(conversations, o, firstId, a, b);
      assert forall i | 0 <= i < |sends[1..]| :: sends[1..][i] == sends[i + 1];
      HistoryOfSends(next, sends[1..], firstId + 1, a, b);
      calc {
        MessageIdsBetween(SendAll(conversations, sends, firstId), a, b);
        MessageIdsBetween(SendAll(next, sends[1..], firstId + 1), a, b);
        MessageIdsBetween(next, a, b) + IdsBetween(sends[1..], a, b, firstId + 1);
        (MessageIdsBetween(conversations, a, b) + step) + IdsBetween(sends[1..], a, b, firstId + 1);
        { AppendAssociative(MessageIdsBetween(conversations, a, b), step, IdsBetween(sends[1..], a, b, firstId + 1)); }
        MessageIdsBetween(conversations, a, b) + (step + IdsBetween(sends[1..], a, b, firstId + 1));
        MessageIdsBetween(conversations, a, b) + IdsBetween(sends, a, b, firstId);
      }
    }
  }

  /**
   * With `sender == receiver` the query matches the first conversation holding the sender.
   * When that is a conversation with another user, a message to oneself is appended to it: no
   * conversation is added and the other user's history with the sender gains the message.
   */
  lemma {:induction false} SelfSendJoinsAnotherPairsConversation(conversations: seq<Conversation>, s: UserId, o: UserId,
                                                                 id: MessageId, now: Time, k: nat)
    requires OnePerPair(conversations) && s != o
    requires FindConversation(conversations, s, s) == Some(k)
    requires o in conversations[k].participants
    ensures var after := SendConversations(conversations, s, s, id, now);
            && |after| == |conversations|
            && MessageIdsBetween(after, s, o) == MessageIdsBetween(conversations, s, o) + [id]
  {
    var after := SendConversations(conversations, s, s, id, now);
    assert after[k] == conversations[k].(messages := conversations[k].messages + [id], updatedAt := now);
    assert HasParticipants(conversations[k], s, o) && HasParticipants(after[k], s, o);
    forall i, j, a: UserId, b: UserId |
      && 0 <= i < |after| && 0 <= j < |after| && a != b
      && HasParticipants(after[i], a, b) && HasParticipants(after[j], a, b)
      ensures i == j
    {
      assert HasParticipants(conversations[i], a, b) && HasParticipants(conversations[j], a, b);
    }
    GetMessagesOfOnlyConversation(conversations, [], s, o, k);
    GetMessagesOfOnlyConversation(after, [], s, o, k);
    assert FindConversation(conversations, s, o) == Some(k);
    assert FindConversation(after, s, o) == Some(k);
  }

  /**
   * The storing half of `sendMessage`: create the message (text and image unchecked, a missing
   * one taking the default ""), then append its id to the pair's conversation or start one.
   */
  method StoreMessage(db: Database, sender: UserId, receiver: UserId,
                      text: Option<string>, image: Option<string>, now: Time)
    returns (newMessage: Message)
    requires db.Valid()
    modifies db`messages, db`conversations
    ensures db.Valid()
    ensures newMessage == CreateMessage(|old(db.messages)|, sender, receiver, text, image, now)
    ensures db.messages == old(db.messages) + [newMessage]
    ensures db.conversations == SendConversations(old(db.conversations), sender, receiver, newMessage.id, now)
    ensures GetMessages(db.conversations, db.messages, sender, receiver)
            == Some(Populate(old(db.messages), MessageIdsBetween(old(db.conversations), sender, receiver)) + [newMessage])
  {
    var conversation := FindConversation(db.conversations, sender, receiver);
    newMessage := CreateMessage(|db.messages|, sender, receiver, text, image, now);
    var conversations := db.conversations;
    if conversation.None? {
      conversations := conversations + [Conversation(|conversations|, [sender, receiver], [newMessage.id], now, now)];
    } else {
      var k := conversation.value;
      var c := conversations[k];
      conversations := conversations[k := c.(messages := c.messages + [newMessage.id], updatedAt := now)];
    }
    assert conversations == SendConversations(db.conversations, sender, receiver, newMessage.id, now);
    SendThenGetMessages(db.conversations, db.messages, sender, receiver, newMessage, now);
    SendKeepsStoreValid(db.conversations, db.messages, sender, receiver, newMessage, now);
    db.messages := db.messages + [newMessage];
    db.conversations := conversations;
  }

  /**
   * `sendMessage`: store the message, push it to the receiver's socket exactly when the
   * receiver is registered, and reply 201 with the message.
   */
  method SendMessage(db: Database, io: SocketServer, sender: UserId, receiver: UserId,
                     text: Option<string>, upload: Option<string>, now: Time)
    returns (res: Response<Message>)
    requires db.Valid()
    requires io.Valid()
    modifies db`messages, db`conversations, io`outbox
    ensures db.Valid()
    ensures io.Valid()
    ensures res.Ok? && res.status == 201
    ensures res.body == CreateMessage(|old(db.messages)|, sender, receiver, text, upload, now)
    ensures db.messages == old(db.messages) + [res.body]
    ensures db.conversations == SendConversations(old(db.conversations), sender, receiver, res.body.id, now)
    ensures io.outbox == old(io.outbox) +
              if receiver in io.userSocketMap then [ToSocket(io.userSocketMap[receiver], NewMessage(res.body))] else []
  {
    // `image` stays undefined unless a file was uploaded and the upload returned a URL
    var image := upload;
    var newMessage := StoreMessage(db, sender, receiver, text, image, now);
    var receiverSocketId := io.GetReceiverSocketId(receiver);
    if receiverSocketId.Some? && receiverSocketId.value != "" {
      io.EmitTo(receiverSocketId.value, NewMessage(newMessage));
    }
    res := Ok(201, newMessage);
  }
}
