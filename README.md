# Chat relay, message store and client chat state, in Dafny

A model of the sequential core of a small real-time chat application with
1:1 video calls (a Node/socket.io server and a React client):

- **Connection registry and relay routing** (`registry.dfy`, `relay.dfy`):
  the server's `onlineUsers` map from socket id to user id, kept as a
  sequence of entries with JavaScript `Map` semantics (`set` keeps an
  existing key's position, lookups find the earliest entry), and the
  socket handlers `'user connected'`, `'send message'`, `'file shared'`,
  `'call user'`, `'answer call'` and `'disconnect'` as methods of a
  `Relay` class that update the registry and return the deliveries they
  emit, as `(target, event, payload)` triples.
- **Message/user store** (`store.dfy`): the JSON-file database as a `Db`
  class with `users` and `messages` sequences; record creation with
  max+1 ids, first-match lookups, the user projection, the mailbox filter
  and the mark-as-read update.
- **Client chat state** (`chat_view.dfy`, `file_content.dfy`): the
  updaters the `Chat` component applies on `users_online`,
  `user_connected`, `user_disconnected` and `new_message`, the unread
  counters, the optimistic local message of `sendMessage`, `selectUser`,
  the per-conversation filter, and the `FILE:type:name:url` content
  encoding with the parser and classifier of `renderMessage`.

The message store of the server (`prisma.message.create`) and its user
directory (`prisma.user.findMany`) are parameters of the handlers: the
store is a function from the create request to the persisted message, or
None when `create` throws; the directory is the list of users, or None when
the query rejects. Timestamps and the temporary id `Date.now()` are
parameters too.

The client and the server use different event names (`user_connected`,
`send_message`, `users_online`, `new_message` on the client; `user
connected`, `send message`, `users online`, `new message` on the server).
Each side is modelled with its own names and no end-to-end property that
assumes they meet is stated.

Where the design description of the system and the code differ, the model
follows the code:

- There is no call-session table. `'call user'` and `'answer call'` are
  forwarded by destination user id alone, with no state, no role check and
  no timeout.
- A message goes to the receiver's first registered socket only, not to
  every connection of the receiver; the echo goes to the sending socket
  only, not to the sender's other connections.
- Errors are not surfaced. An unbound sender, a store failure and an
  offline callee all lead to nothing being emitted.

## Model

| member | source | states |
|---|---|---|
| Registry.GetSpec | chat-app/server/src/server.ts:93 | `onlineUsers.get` finds nothing exactly when the socket has no entry, and otherwise finds the user of that socket's entry |
| Registry.SetGet | chat-app/server/src/server.ts:75 | after `set(socket, userId)` the socket maps to `userId` and every other socket maps to what it did before |
| Registry.SetPlacement | chat-app/server/src/server.ts:75 | `set` on a bound socket rewrites its entry in place and keeps every other entry and the order; on a new socket it appends one entry; keys stay distinct |
| Registry.SetOnline | chat-app/server/src/server.ts:75-86 | after `set(socket, userId)` a user is among the map's values exactly when it is `userId` or another socket is bound to it |
| Registry.RemoveGet | chat-app/server/src/server.ts:176 | after `delete(socket)` the socket is unbound and every other socket keeps its binding |
| Registry.RemovePlacement | chat-app/server/src/server.ts:176 | `delete` removes exactly the one entry of that socket and keeps the others in order; deleting an absent socket changes nothing; keys stay distinct |
| Registry.RemoveOnline | chat-app/server/src/server.ts:176-188 | after `delete(socket)` a user is among the map's values exactly when some other socket is bound to it, so a user with a second connection stays online |
| Registry.FirstSocketSpec | chat-app/server/src/server.ts:109-110 | the `entries().find(...)` lookup returns nothing exactly when the user is offline, and otherwise the socket of the earliest entry bound to that user |
| Relay.PresenceListSpec | chat-app/server/src/server.ts:84-87 | the presence list has one entry per directory user, same ids, names and order, with `online` true exactly when the id is among the registry's values |
| Relay.ConnectedPresence | chat-app/server/src/server.ts:73-89 | in the list broadcast after `'user connected'`, a user is online exactly when it is the new user or another socket is bound to it |
| Relay.DisconnectedPresence | chat-app/server/src/server.ts:172-191 | in the list broadcast after `'disconnect'`, a user is online exactly when another socket is still bound to it |
| Relay.Relay.constructor | chat-app/server/src/server.ts:68 | the registry starts empty |
| Relay.Relay.FindSocketOf | chat-app/server/src/server.ts:109-110 | the scan returns the socket of the earliest entry bound to the user, None exactly when the user is offline, and a returned socket is bound |
| Relay.Relay.UserConnected | chat-app/server/src/server.ts:73-90 | the registry becomes `set(socket, userId)`: the socket maps to the user, other sockets unchanged; the presence list of the updated registry is broadcast to everyone, or nothing is emitted when the directory query rejects |
| Relay.Relay.Persist | chat-app/server/src/server.ts:93-117 | no store request without a truthy sender binding; the request carries the content, the bound sender and the receiver; a store failure emits nothing; a stored message is forwarded to the receiver's first socket, if any, then echoed to the sender |
| Relay.Relay.SendMessage | chat-app/server/src/server.ts:92-121 | an unbound or falsy sender persists and emits nothing; a store failure emits nothing; otherwise one or two deliveries of the stored message: two exactly when the receiver is online, the first to the receiver's earliest socket, the last always to the sending socket |
| Relay.Relay.FileShared | chat-app/server/src/server.ts:123-147 | the same routing as `'send message'`, with stored content exactly `"FILE:" + filename` |
| Relay.Relay.CallUser | chat-app/server/src/server.ts:149-160 | forwards `{signal, from}` as `'incoming call'` to the earliest socket of `userToCall`; emits nothing exactly when that user is offline |
| Relay.Relay.AnswerCall | chat-app/server/src/server.ts:162-170 | forwards only the signal as `'call accepted'` to the earliest socket of `to`; emits nothing exactly when that user is offline |
| Relay.Relay.Disconnect | chat-app/server/src/server.ts:172-193 | a socket with a truthy binding loses exactly its entry and the new presence list is broadcast; any other socket changes nothing and emits nothing; other sockets keep their bindings |
| Store.MaxOf | chat-app/server/src/db.ts:54 | `Math.max` of a non-empty id list is one of the ids and no id exceeds it |
| Store.NextId | chat-app/server/src/db.ts:54 | the new id is 1 on an empty table, otherwise one more than some existing id, and above every existing id |
| Store.NextIdKeepsUnique | chat-app/server/src/db.ts:54-57 | appending a record with the next id keeps ids pairwise distinct |
| Store.GetUser | chat-app/server/src/db.ts:42-45 | returns the first user with that username, or None exactly when no user has it |
| Store.GetUserById | chat-app/server/src/db.ts:47-50 | returns the first user with that id, or None exactly when no user has it |
| Store.GetAllUsers | chat-app/server/src/db.ts:62-65 | one `{id, username, online: false}` per stored user, same length and order |
| Store.GetMessages | chat-app/server/src/db.ts:86-89 | a message is in the mailbox exactly when it is stored and the user is its sender or receiver |
| Store.GetMessagesAppend | chat-app/server/src/db.ts:88 | the mailbox keeps stored order: the mailbox of a concatenation is the concatenation of the mailboxes |
| Store.GetMessagesCount | chat-app/server/src/db.ts:88 | each involving message occurs in the mailbox as often as it is stored; others never |
| Store.NewMessageInMailbox | chat-app/server/src/db.ts:80-88 | a newly created message appears last in the mailbox of its sender and of its receiver |
| Store.MarkRead | chat-app/server/src/db.ts:94-99 | same length; every message from the sender to the receiver is read; only the read flag of any message can change; every other message is unchanged |
| Store.MarkReadIdempotent | chat-app/server/src/db.ts:91-102 | marking the same conversation read twice equals marking it once |
| Store.MarkReadMonotone | chat-app/server/src/db.ts:94-99 | ids and order are preserved and a read flag never goes back to unread |
| Store.Db.constructor | chat-app/server/src/db.ts:15-22 | both tables start empty |
| Store.Db.CreateUser | chat-app/server/src/db.ts:52-60 | returns the next id and appends exactly `{id, username, password}`, earlier users and all messages unchanged, no duplicate-username check; distinct ids stay distinct |
| Store.Db.CreateMessage | chat-app/server/src/db.ts:68-84 | returns and appends an unread message with the next id, the given content, sender, receiver and timestamp; users unchanged; distinct ids stay distinct |
| Store.Db.MarkAsRead | chat-app/server/src/db.ts:91-102 | the messages become the marked list; users unchanged |
| FileContent.Split | chat-app/frontend/src/components/Chat.tsx:384 | `split(':')` always yields at least one piece |
| FileContent.SplitFirst | chat-app/frontend/src/components/Chat.tsx:384 | splitting `a + ":" + b` with colon-free `a` gives `a` followed by the pieces of `b` |
| FileContent.KindOf | chat-app/frontend/src/components/Chat.tsx:387-439 | image, video and audio type prefixes win in that order; exactly `application/pdf` is a PDF; anything else is generic |
| FileContent.Render | chat-app/frontend/src/components/Chat.tsx:381-443 | content is plain text, shown unchanged, exactly when it does not start with `FILE:`; otherwise its type is the second piece of the split and its kind is classified from that type |
| FileContent.SplitEncode | chat-app/frontend/src/components/Chat.tsx:361-384 | splitting `FILE:type:name:url` gives back `FILE`, type, name and url when none of them contains a colon |
| FileContent.RenderEncode | chat-app/frontend/src/components/Chat.tsx:361-443 | an encoded file renders with the kind of its type and the original name and url when no piece contains a colon |
| FileContent.RenderColonInUrl | chat-app/frontend/src/components/Chat.tsx:384 | a url containing a colon, such as an absolute `http:` url, is cut at its first colon when rendered |
| ChatView.MarkOnline | chat-app/frontend/src/components/Chat.tsx:177-185 | `users_online` keeps length, ids, names and order and sets `online` exactly when the id is in the list |
| ChatView.SetPresence | chat-app/frontend/src/components/Chat.tsx:234-250 | `user_connected`/`user_disconnected` set the flag of the users with that id and leave every other user unchanged |
| ChatView.SnapshotAfterDelta | chat-app/frontend/src/components/Chat.tsx:177-250 | a full snapshot after a delta gives the same list as the snapshot alone |
| ChatView.DropLocalCopies | chat-app/frontend/src/components/Chat.tsx:195-200 | a message survives the echo filter exactly when it is not a local-only copy with the echo's content, sender and receiver |
| ChatView.DropLocalCopiesAppend | chat-app/frontend/src/components/Chat.tsx:195-203 | the echo filter keeps surviving messages in order |
| ChatView.DropLocalCopiesCount | chat-app/frontend/src/components/Chat.tsx:195-200 | every surviving message is kept as often as it occurred; every local copy is removed each time it occurs |
| ChatView.ReconcileOwn | chat-app/frontend/src/components/Chat.tsx:191-204 | the echo of one's own message removes exactly its local copies, keeps every other message with its multiplicity, and ends with the server message |
| ChatView.ReconcileOther | chat-app/frontend/src/components/Chat.tsx:205-208 | a message from anyone else is appended and nothing is removed |
| ChatView.BumpUnread | chat-app/frontend/src/components/Chat.tsx:216-221 | the sender's counter grows by exactly one when the receiver is the current user, the sender is not, and the sender is not selected, and is unchanged otherwise; no other counter changes |
| ChatView.Handle | chat-app/frontend/src/components/Chat.tsx:177-250 | each socket event updates only its own part of the view: presence events only user flags, `new_message` only messages and counters, ending the messages with the new one |
| ChatView.Send | chat-app/frontend/src/components/Chat.tsx:301-334 | does nothing on a blank input or a missing socket, selected user or current user; otherwise emits the input and appends one unread local-only message from the current to the selected user, clearing the input and leaving earlier messages unchanged |
| ChatView.FileUploaded | chat-app/frontend/src/components/Chat.tsx:336-365 | with a socket, a current and a selected user, emits one `send_message` carrying the `FILE:` encoding and the file type; otherwise nothing |
| ChatView.Select | chat-app/frontend/src/components/Chat.tsx:446-469 | selects the user, sets its unread counter to 0 and leaves every other counter unchanged; with a socket and a current user emits `chat_open` then `mark_messages_read` for that user's messages |
| ChatView.SelectClearsNotification | chat-app/frontend/src/components/Chat.tsx:451-454 | selecting a sender after its message arrived leaves its counter at 0 |
| ChatView.Conversation | chat-app/frontend/src/components/Chat.tsx:637-651 | a message is shown exactly when it goes from the current user to the selected user or back; nothing is shown without a current user |
| ChatView.ConversationAppend | chat-app/frontend/src/components/Chat.tsx:646-651 | the conversation keeps the stored order |
| ChatView.ConversationSymmetric | chat-app/frontend/src/components/Chat.tsx:637-651 | both participants of a chat see the same messages |
| ChatView.SentMessageShown | chat-app/frontend/src/components/Chat.tsx:318-331 | a message just sent is the last message shown in the open conversation |

## Left out

- Socket ids are a non-empty string type, as socket.io issues them, so the `if (recipientSocketId)` test always passes for a found entry.
- User ids are unbounded integers; "falsy" means absent or 0. NaN and non-numeric payloads of the duck-typed socket events are not modelled.
- `io.emit` is one delivery with target "everyone"; its fan-out over connections is not expanded.
- Each handler is one atomic step. The `await`s inside the handlers, and the interleavings they allow between handlers, are not modelled.
- The store (`prisma.message.create`) and the directory (`prisma.user.findMany`) are opaque parameters. Nothing is stated about the content of a persisted message beyond its being forwarded unchanged.
- The call-session state machine of the design description (ringing, accept/reject, offer/answer gating, timeouts, disconnect-as-end) is not implemented by the code and is not modelled.
- The multer upload endpoint and `/api/users` are HTTP plumbing and are not modelled. The upload endpoint answers `{filename, path}`, while the client reads `fileType`, `fileName` and `fileUrl` from the answer; `FileUploaded` takes those three as parameters.
- `db.ts` file I/O is not modelled: reading, `writeFileSync`, directory creation and malformed JSON. The two files are the `users` and `messages` fields. A `RangeError` of `Math.max` on a huge table is not modelled either.
- `createdAt` (`new Date().toISOString()`) and the temporary id `Date.now()` are parameters.
- Express, sessions, bcrypt and the auth and chat controllers are not modelled; they are wiring around the store.
- On the client, the initial fetches (current user, users, messages), the video-call events and buttons, notifications, sounds, scrolling, alerts, logout and the JSX are not modelled. `VideoCall.tsx` is not part of this model: WebRTC media, screen sharing and the drag clamp work on browser APIs.
- `currentUserRef` and `selectedUserRef` are updated by effects after a render; the model reads the current state in their place.
- FileContent.Split: its contract only promises at least one piece; what the pieces are is stated by SplitFirst, SplitEncode and the other lemmas about colon-free strings.
- FileContent.Render: only the tag chosen for a message is modelled, not the markup.
