/**
 * The three Mongoose schemas of the backend as datatypes: User, Message and Conversation.
 * Every record carries its ObjectId and the `createdAt`/`updatedAt` pair that
 * `{ timestamps: true }` adds; the clock is a parameter of the handlers.
 */
module Models {
  import opened Common

  /** An ObjectId; fresh ones are handed out as naturals. */
  type ObjectId = nat
  type UserId = ObjectId
  type MessageId = ObjectId
  type Time = nat

  /** A stored user: `name` optional, `userName`/`email`/`password` required, `image` defaulting to "". */
  datatype User = User(
    id: UserId,
    name: Option<string>,
    userName: string,
    email: string,
    password: string,
    image: string,
    createdAt: Time,
    updatedAt: Time)

  /** A user as a query with `select("-password")` returns it. */
  datatype PublicUser = PublicUser(
    id: UserId,
    name: Option<string>,
    userName: string,
    email: string,
    image: string,
    createdAt: Time,
    updatedAt: Time)

  /** A stored message: `sender`/`receiver` required references, `message` and `image` defaulting to "". */
  datatype Message = Message(
    id: MessageId,
    sender: UserId,
    receiver: UserId,
    message: string,
    image: string,
    createdAt: Time,
    updatedAt: Time)

  /**
   * A stored conversation (the schema spells the first field `partcipants`): a list of user
   * references with no length or distinctness constraint, and the ordered message references.
   */
  datatype Conversation = Conversation(
    id: ObjectId,
    participants: seq<UserId>,
    messages: seq<MessageId>,
    createdAt: Time,
    updatedAt: Time)

  /** Mongoose's `required` validator on a String path: a missing or empty string fails it. */
  predicate RequiredString(s: string) {
    s != ""
  }

  /**
   * `User.create({ userName, email, password })`: validation fails unless every required
   * string is present; otherwise the record gets no name, the default image and both timestamps.
   */
  function CreateUser(id: UserId, userName: string, email: string, password: string, now: Time): (r: Option<User>)
    ensures r.Some? <==> RequiredString(userName) && RequiredString(email) && RequiredString(password)
    ensures r.Some? ==> r.value.id == id && r.value.userName == userName && r.value.email == email
                        && r.value.password == password
    ensures r.Some? ==> r.value.name == None && r.value.image == ""
    ensures r.Some? ==> r.value.createdAt == now && r.value.updatedAt == now
  {
    if RequiredString(userName) && RequiredString(email) && RequiredString(password) then
      Some(User(id, None, userName, email, password, "", now, now))
    else
      None
  }

  /**
   * `Message.create({ sender, receiver, message, image })`: an absent text or image takes the
   * schema default "", a present one is stored as given, even when empty.
   */
  function CreateMessage(id: MessageId, sender: UserId, receiver: UserId, text: Option<string>,
                         image: Option<string>, now: Time): (m: Message)
    ensures m.id == id && m.sender == sender && m.receiver == receiver
    ensures text.None? ==> m.message == ""
    ensures text.Some? ==> m.message == text.value
    ensures image.None? ==> m.image == ""
    ensures image.Some? ==> m.image == image.value
    ensures m.createdAt == now && m.updatedAt == now
  {
    Message(id, sender, receiver, text.GetOr(""), image.GetOr(""), now, now)
  }

  /** The projection `select("-password")`: every field but the password. */
  function WithoutPassword(u: User): PublicUser {
    PublicUser(u.id, u.name, u.userName, u.email, u.image, u.createdAt, u.updatedAt)
  }
}
