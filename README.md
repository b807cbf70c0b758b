# Chat backend: presence, messaging and accounts in Dafny

This project models the server side of a one-to-one chat application (Express, Mongoose,
Socket.IO) as one sequential state machine and proves properties of it.

- **Schemas** (`models.dfy`, `store.dfy`). `User`, `Message` and `Conversation` are datatypes
  with the schema defaults (`""` for message text and images, no name) and the `createdAt` /
  `updatedAt` pair. `Database` is a class holding the three collections. Its invariant says
  that ids are positions, that required strings are present, that `userName` and `email` are
  unique, and that every message reference points at a stored message.
- **Presence registry** (`socket.dfy`). `SocketServer` is a class holding `userSocketMap`, the
  live sockets with the `userId` each handshake carried, and an outbox of emitted events. The
  connection and disconnect handlers are methods. The same updates are also pure functions
  (`Connected`, `Disconnected`, `Run`), so whole event traces can be reasoned about.
- **Messages** (`message_controller.dfy`). `sendMessage` finds the pair's conversation,
  creates the message, then appends to that conversation or starts a new one, and pushes the
  message to the receiver's socket. `getMessages` is the read-only history lookup. The
  properties cover append order, one conversation per pair, symmetry and "push iff online".
- **Accounts** (`auth_controller.dfy`, `user_controller.dfy`). `signUp` runs its guards in a
  fixed order and then inserts. `login` is a pure decision. `getCurrentUser`, `getOtherUsers`
  and `search` are filters over the user store. `editProfile` updates one record in place.

Each handler runs as one atomic step, as Node runs it between two `await`s. Outside effects
are parameters. The clock is `now`. `bcrypt.hash` is `hash` and `bcrypt.compare` is
`compare`. The Cloudinary upload is an optional URL (absent when no file came or the upload
failed). The regex test of `search` is `matches`. Mongoose hands out fresh ObjectIds, and
here those are the next free positions. `populate` drops a reference to a missing message, as
Mongoose does; under the store invariant no such reference exists.

The code does not check for an empty message or for `sender == receiver`, and the model does
not either. For a message to oneself the `$all` query matches the first stored conversation
that holds the sender. When that is a conversation with someone else, the message joins it
(`SelfSendJoinsAnotherPairsConversation`). When it is an earlier `[s, s]` conversation, the
message goes there. When the sender has no conversation, a new `[s, s]` one is created.

## Model

| member | source | states |
|---|---|---|
| `Models.CreateUser` | backend/models/user.model.js:5-40 | creation succeeds exactly when `userName`, `email` and `password` are non-empty; the record has no name, image `""` and both timestamps at `now` |
| `Models.CreateMessage` | backend/models/message.model.js:5-35 | the message carries the given sender and receiver; an absent text or image becomes `""`; both timestamps are `now` |
| `Store.UsersValid` | backend/models/user.model.js:13-30 | ids are positions; `userName`, `email` and `password` are non-empty; no two users share a `userName` or an `email` |
| `Socket.Connected` | backend/socket/socket.js:32-37 | the new socket is recorded; with a `userId` that user's entry becomes the new socket (last connection wins) and the online set gains the user; without one the map is unchanged; no other user's entry changes; consistency is kept |
| `Socket.Disconnected` | backend/socket/socket.js:43-45 | the socket is dropped; the handshake user's entry is deleted whatever socket it now holds, so the online set loses that user; without a user the map is unchanged; no other entry changes; consistency is kept |
| `Socket.Run` | backend/socket/socket.js:29-49 | the handlers run one after another over a trace of connects and disconnects; a run the transport can deliver emits one broadcast per event; the rows below state what the registry and the broadcasts are |
| `Socket.RunKeepsConsistent` | backend/socket/socket.js:29-49 | after any admissible trace of connects and disconnects, every map entry still names a live socket whose handshake carried that user |
| `Socket.RunBroadcastsOncePerEvent` | backend/socket/socket.js:40-48 | a trace emits exactly one `getOnlineUsers` broadcast per event, and the i-th one carries the key set of the map right after the i-th event |
| `Socket.StaleDisconnectTakesUserOffline` | backend/socket/socket.js:43-45 | a user who connects twice and then loses the older socket is offline, although the newer socket is still open |
| `Socket.SocketServer.constructor` | backend/socket/socket.js:20 | the registry starts empty, with nothing emitted |
| `Socket.SocketServer.GetReceiverSocketId` | backend/socket/socket.js:24-26 | the result is present exactly when the receiver is in the map, and then it is the map's entry; under the invariant it is a non-empty id of a live socket of that receiver; it reads only |
| `Socket.SocketServer.HandleConnection` | backend/socket/socket.js:29-40 | the registry becomes `Connected` of the old one; exactly one broadcast of the new key set is appended; the invariant is kept |
| `Socket.SocketServer.HandleDisconnect` | backend/socket/socket.js:43-49 | the registry becomes `Disconnected` of the old one; exactly one broadcast of the new key set is appended; the invariant is kept |
| `Socket.SocketServer.EmitTo` | backend/controllers/message.controllers.js:62 | exactly one event addressed to the one socket is appended, and the registry does not change |
| `MessageController.FindConversation` | backend/controllers/message.controllers.js:33-35 | the first conversation whose participants hold both ids, or none exactly when no conversation holds both |
| `MessageController.FindConversationSymmetric` | backend/controllers/message.controllers.js:33-35 | the `$all` query finds the same conversation whichever of the two ids comes first |
| `MessageController.SendConversations` | backend/controllers/message.controllers.js:46-55 | the conversation collection after a send: one longer when the pair had no conversation, the same length otherwise; the rows below state its contents |
| `MessageController.SendConversationsShape` | backend/controllers/message.controllers.js:46-55 | with no conversation of the pair, exactly one is added: `[sender, receiver]` holding `[id]`; otherwise `id` is appended to the found one's messages; no other conversation changes, and no id, participant list or creation time does |
| `MessageController.SendAppendsToPair` | backend/controllers/message.controllers.js:46-55 | after a send the pair's message ids are the old ones with the new id at the end |
| `MessageController.SendKeepsOtherPairs` | backend/controllers/message.controllers.js:51-55 | a send between two distinct users leaves every other pair's history as it was |
| `MessageController.SendKeepsTwoParticipants` | backend/controllers/message.controllers.js:46-50 | sends only create conversations with two participant entries |
| `MessageController.SendKeepsOnePerPair` | backend/controllers/message.controllers.js:33-55 | a send never creates a second conversation for a pair of distinct users |
| `MessageController.SendAllKeepsOnePerPair` | backend/controllers/message.controllers.js:33-55 | any sequence of sends keeps at most one conversation per pair of distinct users |
| `MessageController.SendStep` | backend/controllers/message.controllers.js:33-55 | one send between distinct users adds its id to a pair's history exactly when it goes between that pair |
| `MessageController.HistoryOfSends` | backend/controllers/message.controllers.js:33-55 | after a sequence of sends between distinct users, a pair's history is the earlier one followed by the ids of exactly the sends between them, in send order |
| `MessageController.SelfSendJoinsAnotherPairsConversation` | backend/controllers/message.controllers.js:33-55 | with one conversation per pair, a message from a user to itself, whose query finds a conversation with another user, is appended to that conversation: no conversation is added and that other user's history with the sender gains the message at the end |
| `MessageController.SendKeepsStoreValid` | backend/controllers/message.controllers.js:38-55 | storing a message and referencing it keeps ids as positions and every reference pointing at a stored message |
| `MessageController.Populate` | backend/controllers/message.controllers.js:89 | `populate("messages")` yields at most one message per reference, dropping a dangling one; the rows below state which messages and in what order |
| `MessageController.PopulateResolvesAll` | backend/controllers/message.controllers.js:87-89 | when every reference is stored, `populate` returns one message per reference, in reference order |
| `MessageController.PopulateYieldsStored` | backend/controllers/message.controllers.js:87-89 | `populate` only ever returns stored messages |
| `MessageController.PopulateAppend` | backend/controllers/message.controllers.js:53 | referencing a newly stored message last adds exactly that message at the end of the populated list |
| `MessageController.GetMessages` | backend/controllers/message.controllers.js:78-92 | absent (the `undefined` body) exactly when no conversation holds both users; the rows below state what it is otherwise |
| `MessageController.GetMessagesFindsPair` | backend/controllers/message.controllers.js:87-92 | the answer is absent exactly when no conversation holds both users, and otherwise it is the populated history of the pair |
| `MessageController.GetMessagesSymmetric` | backend/controllers/message.controllers.js:87-92 | `getMessages(a, b)` equals `getMessages(b, a)` |
| `MessageController.GetMessagesOfOnlyConversation` | backend/controllers/message.controllers.js:87-92 | with one conversation per pair, two distinct users get the history of the conversation that holds them |
| `MessageController.SendThenGetMessages` | backend/controllers/message.controllers.js:33-92 | right after a send, `getMessages` of the pair answers the old history followed by the new message |
| `MessageController.StoreMessage` | backend/controllers/message.controllers.js:33-55 | exactly one message is appended, built from the request; the conversations become `SendConversations` of the old ones; the pair's history gains the message at the end; the store invariant is kept |
| `MessageController.SendMessage` | backend/controllers/message.controllers.js:14-66 | the reply is 201 with the new message; the stores change as in `StoreMessage`; a `newMessage` event to the receiver's socket is appended exactly when the receiver is in the map; both invariants are kept |
| `AuthController.FindByUserName` | backend/controllers/auth.controllers.js:17 | a user is found exactly when some stored user has that `userName`, and it has that `userName` |
| `AuthController.FindByEmail` | backend/controllers/auth.controllers.js:23 | the first stored user with that email, found exactly when one exists |
| `AuthController.SignUpResult` | backend/controllers/auth.controllers.js:17-61 | the reply of `signUp` for a store: a taken `userName` gives 400 "userName already exist"; a success is 201 with the next id and the hash as password; a failure is 400 or 500; `SignUpOutcomes` gives the full guard order |
| `AuthController.SignUpOutcomes` | backend/controllers/auth.controllers.js:17-61 | a taken `userName` wins over everything, then a taken email, then a password under 6 characters; success happens exactly when all three pass and the strings are non-empty, and yields 201 with the new user holding the hash, not the password |
| `AuthController.SignUpKeepsUsersValid` | backend/controllers/auth.controllers.js:17-41 | a successful sign-up keeps `userName` and `email` unique and ids as positions |
| `AuthController.SignUp` | backend/controllers/auth.controllers.js:11-61 | the reply is `SignUpResult` for the old store and the hashed password; exactly one user is added on success and none otherwise; the store invariant is kept |
| `AuthController.NameCheckComesFirst` | backend/controllers/auth.controllers.js:17-31 | for every store and request, a taken `userName` together with a too-short password is reported as the `userName` error, not the password error |
| `AuthController.Login` | backend/controllers/auth.controllers.js:65-94 | "user does not exist" exactly when no user has the email, and every other failure is "incorrect password"; the rows below state the success case |
| `AuthController.LoginOutcomes` | backend/controllers/auth.controllers.js:65-94 | "user does not exist" exactly when no user has the email; any other failure is "incorrect password"; a success is 200 with a stored user under that email whose hash the password matches |
| `AuthController.LoginWithUniqueEmails` | backend/controllers/auth.controllers.js:71-94 | with unique emails, login returns the user stored under the email when the password matches its hash, and "incorrect password" otherwise |
| `AuthController.SignUpThenLogin` | backend/controllers/auth.controllers.js:34-94 | after a successful sign-up, logging in with the same email and password returns the new user |
| `UserController.FindUser` | backend/controllers/user.controllers.js:11 | `findById` finds a user exactly when the id is stored, and that user has the id |
| `UserController.GetCurrentUser` | backend/controllers/user.controllers.js:7-17 | 400 "user not found" exactly when no user has the id; otherwise 200 with that user's record without its password |
| `UserController.ProfileUpdate` | backend/controllers/user.controllers.js:35-38 | only the name, the image and `updatedAt` change; an absent name or image keeps the stored one |
| `UserController.ProfileUpdateKeepsUsersValid` | backend/controllers/user.controllers.js:35-38 | a profile update keeps ids, required fields and uniqueness |
| `UserController.EditProfile` | backend/controllers/user.controllers.js:24-45 | a known caller's record becomes `ProfileUpdate` of it and the reply is 200 with the updated record; an unknown caller gets 400 "user not found" and nothing changes; the store invariant is kept |
| `UserController.EditProfileTouchesOnlyCaller` | backend/controllers/user.controllers.js:35-45 | every other record is unchanged, and the caller's id, `userName`, email, password and creation time are unchanged |
| `UserController.GetOtherUsers` | backend/controllers/user.controllers.js:52-60 | always 200, with no more entries than stored users; `GetOtherUsersLists` states which entries |
| `UserController.GetOtherUsersLists` | backend/controllers/user.controllers.js:52-60 | 200 with a password-free entry for every stored user other than the caller, and no entry for the caller |
| `UserController.Search` | backend/controllers/user.controllers.js:67-84 | 400 "query is required" exactly when the query is missing or empty, and otherwise 200 with at most the stored records; `SearchFinds` states which records |
| `UserController.SearchFinds` | backend/controllers/user.controllers.js:67-84 | 400 "query is required" exactly when the query is missing or empty; otherwise 200 with exactly the stored records whose name or `userName` matches, passwords and caller included |

## Left out

- Every `catch` branch that answers 500 after a thrown error (a lost database connection, a
  `CastError` for an id that is not an ObjectId) is not modelled. The one exception is the
  validation failure of `User.create`, which `SignUp` answers with 500. The error text the
  source appends to "signup error" is not modelled either.
- `genToken`, the cookie, `logOut`, `isAuth` and the multer and Cloudinary plumbing are not
  part of this model. The caller's id is taken as given, and the upload is an optional URL.
- Interleavings across `await`s (the find-then-create race of `sendMessage`, the
  check-then-insert race of `signUp`) are not modelled: each handler is atomic.
- Request fields are always present. A missing `userName`, `email` or `password` (an
  `undefined` that Mongoose drops from a `findOne` filter) and a `query` that is an array are
  not modelled.
- `password.length` counts UTF-16 code units. Here it is the number of characters.
- `findOne` takes the first match in stored order. Mongoose does not promise which match.
- `Object.keys(userSocketMap)` is modelled as the key set, so it has no order.
- An absent `name` or `image` passed to `findByIdAndUpdate` keeps the stored value here, as
  when Mongoose strips `undefined` from an update.
- The regex semantics of `search` are abstract: `matches(field, query)` stands for the
  case-insensitive test.
- `getMessages` always answers 200, so `MessageController.GetMessages` returns only the body:
  `None` stands for the `undefined` body and `Some` for the populated list.
- Socket.IO delivers a connection only under a fresh, non-empty socket id, and a disconnect
  only for a live socket. `HandleConnection` and `HandleDisconnect` require this of their
  caller.
- `MessageController.SendMessage` does not repeat the history and one-conversation-per-pair
  facts. `StoreMessage`, `SendThenGetMessages` and `SendKeepsOnePerPair` state them for the
  same update.
- The handshake `userId` is any string the client sends, and nothing checks it against the
  token. The model takes it as an optional user id. Handshake ids that are not ObjectIds, and
  the missing authentication of sockets, are not modelled.
- The React frontend is not part of this model.
