/**
 * The MongoDB collections the controllers read and write, with the constraints the
 * schemas put on them. Records are never deleted, so a record's ObjectId is its position.
 */
module Store {
  import opened Models

  /** Users: ids are positions, required strings are present, `userName` and `email` are unique indexes. */
  predicate UsersValid(users: seq<User>) {
    && (forall i | 0 <= i < |users| ::
          users[i].id == i
          && RequiredString(users[i].userName)
          && RequiredString(users[i].email)
          && RequiredString(users[i].password))
    && (forall i, j | 0 <= i < j < |users| ::
          users[i].userName != users[j].userName && users[i].email != users[j].email)
  }

  /** Messages: ids are positions. */
  predicate MessagesValid(messages: seq<Message>) {
    forall i | 0 <= i < |messages| :: messages[i].id == i
  }

  /** Conversations: ids are positions and every message reference points at a stored message. */
  predicate ConversationsValid(conversations: seq<Conversation>, messageCount: nat) {
    forall i | 0 <= i < |conversations| ::
      conversations[i].id == i
      && forall k | 0 <= k < |conversations[i].messages| :: conversations[i].messages[k] < messageCount
  }

  /** The database: the `users`, `messages` and `conversations` collections. */
  class Database {
    var users: seq<User>
    var messages: seq<Message>
    var conversations: seq<Conversation>

    ghost predicate Valid()
      reads this
    {
      UsersValid(users) && MessagesValid(messages) && ConversationsValid(conversations, |messages|)
    }

    constructor ()
      ensures Valid()
      ensures users == [] && messages == [] && conversations == []
    {
      users, messages, conversations := [], [], [];
    }
  }
}
