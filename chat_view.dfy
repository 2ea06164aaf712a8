/**
 * The state of the `Chat` component and the updaters its socket handlers
 * and UI callbacks pass to `setUsers`, `setMessages` and
 * `setUnreadMessages`. The component's state and its `currentUserRef` /
 * `selectedUserRef` refs are one `View` record threaded from event to
 * event.
 */
module ChatView {
  import opened Wrappers
  import FileContent

  datatype User = User(id: int, username: string, online: bool)

  /** A message as the client holds it; `localOnly` is `_isLocalOnly`, absent meaning false. */
  datatype Message = Message(
    id: int, content: string, senderId: int, receiverId: int, isRead: bool,
    createdAt: string, senderName: Option<string>, localOnly: bool)

  /** What the component emits on its socket. */
  datatype Outgoing =
    | SendMessage(content: string, receiverId: int, senderId: int, fileType: Option<string>)
    | ChatOpen(userId: int, withUserId: int)
    | MarkMessagesRead(senderId: int, receiverId: int)
  {
    function Event(): string {
      match this
      case SendMessage(_, _, _, _) => "send_message"
      case ChatOpen(_, _) => "chat_open"
      case MarkMessagesRead(_, _) => "mark_messages_read"
    }
  }

  /** The events the component listens to on its socket. */
  datatype Incoming =
    | UsersOnline(ids: seq<int>)
    | NewMessage(message: Message)
    | UserConnected(userId: int)
    | UserDisconnected(userId: int)

  /**
   * `messages`, `users`, `unreadMessages`, `selectedUser`, `currentUser`,
   * `inputMessage`, and whether `socket` is set.
   */
  datatype View = View(
    messages: seq<Message>, users: seq<User>, unread: map<int, nat>,
    selected: Option<User>, current: Option<User>, input: string, connected: bool)

  /** `u?.id` */
  function IdOf(u: Option<User>): Option<int> {
    if u.Some? then Some(u.value.id) else None
  }

  /** `unreadMessages[id] || 0` */
  function Count(unread: map<int, nat>, id: int): nat {
    if id in unread then unread[id] else 0
  }

  // ---------------------------------------------------------------- presence

  /** `users_online`: `prev.map(user => ({ ...user, online: onlineUsers.includes(user.id) }))` */
  function MarkOnline(users: seq<User>, online: seq<int>): (r: seq<User>)
    ensures |r| == |users|
    ensures forall i :: 0 <= i < |users| ==>
      r[i].id == users[i].id && r[i].username == users[i].username && (r[i].online <==> users[i].id in online)
  {
    if users == [] then []
    else
      var rest := MarkOnline(users[1..], online);
      assert forall i :: 1 <= i < |users| ==> users[i] == users[1..][i - 1];
      [users[0].(online := users[0].id in online)] + rest
  }

  /** `user_connected` / `user_disconnected`: only the users with that id get the new flag. */
  function SetPresence(users: seq<User>, userId: int, online: bool): (r: seq<User>)
    ensures |r| == |users|
    ensures forall i :: 0 <= i < |users| && users[i].id == userId ==> r[i] == users[i].(online := online)
    ensures forall i :: 0 <= i < |users| && users[i].id != userId ==> r[i] == users[i]
  {
    if users == [] then []
    else
      var rest := SetPresence(users[1..], userId, online);
      assert forall i :: 1 <= i < |users| ==> users[i] == users[1..][i - 1];
      [if users[0].id == userId then users[0].(online := online) else users[0]] + rest
  }

  /** A snapshot replaces every flag: applying it after any delta gives the same list as applying it alone. */
  lemma SnapshotAfterDelta(users: seq<User>, userId: int, online: bool, ids: seq<int>)
    ensures MarkOnline(SetPresence(users, userId, online), ids) == MarkOnline(users, ids)
  {
    var a := MarkOnline(SetPresence(users, userId, online), ids);
    var b := MarkOnline(users, ids);
    forall i | 0 <= i < |users| ensures a[i] == b[i] {
    }
  }

  // ---------------------------------------------------------------- messages

  /** An optimistic copy the server echo of `m` replaces. */
  predicate IsLocalCopy(x: Message, m: Message) {
    x.localOnly && x.content == m.content && x.senderId == m.senderId && x.receiverId == m.receiverId
  }

  /** The filter of `new_message` for an echo of one's own message. */
  function DropLocalCopies(prev: seq<Message>, m: Message): (r: seq<Message>)
    ensures |r| <= |prev|
    ensures forall x :: x in r <==> x in prev && !IsLocalCopy(x, m)
  {
    if prev == [] then []
    else
      var rest := DropLocalCopies(prev[1..], m);
      assert forall x :: x in prev <==> x == prev[0] || x in prev[1..];
      if IsLocalCopy(prev[0], m) then rest else [prev[0]] + rest
  }

  /** The filter keeps the surviving messages in their order. */
  lemma {:induction false} DropLocalCopiesAppend(a: seq<Message>, b: seq<Message>, m: Message)
    ensures DropLocalCopies(a + b, m) == DropLocalCopies(a, m) + DropLocalCopies(b, m)
  {
    if a == [] {
      assert a + b == b;
    } else {
      assert (a + b)[1..] == a[1..] + b;
      assert (a + b)[0] == a[0];
      DropLocalCopiesAppend(a[1..], b, m);
    }
  }

  /** Each surviving message is kept as many times as it occurred; each local copy is removed every time. */
  lemma {:induction false} DropLocalCopiesCount(prev: seq<Message>, m: Message, x: Message)
    ensures multiset(DropLocalCopies(prev, m))[x] == if IsLocalCopy(x, m) then 0 else multiset(prev)[x]
  {
    if prev != [] {
      DropLocalCopiesCount(prev[1..], m, x);
      assert prev == [prev[0]] + prev[1..];
    }
  }

  /** `setMessages` of `new_message`: drop the local copies of one's own echoed message, then append it. */
  function Reconcile(prev: seq<Message>, currentId: Option<int>, m: Message): seq<Message> {
    if currentId == Some(m.senderId) then DropLocalCopies(prev, m) + [m]
    else prev + [m]
  }

  /**
   * The echo of one's own message removes exactly its local copies, keeps
   * every other message (as often as it occurred, in order) and ends with
   * the server's message.
   */
  lemma ReconcileOwn(prev: seq<Message>, currentId: Option<int>, m: Message)
    requires currentId == Some(m.senderId)
    ensures var r := Reconcile(prev, currentId, m);
      |r| >= 1 && r[|r| - 1] == m &&
      (forall x :: x in r[..|r| - 1] <==> x in prev && !IsLocalCopy(x, m)) &&
      (forall x :: !IsLocalCopy(x, m) ==> multiset(r[..|r| - 1])[x] == multiset(prev)[x])
  {
    var r := Reconcile(prev, currentId, m);
    assert r[..|r| - 1] == DropLocalCopies(prev, m);
    forall x | !IsLocalCopy(x, m) ensures multiset(r[..|r| - 1])[x] == multiset(prev)[x] {
      DropLocalCopiesCount(prev, m, x);
    }
  }

  /** A message from anyone else (or with no current user) is appended and nothing is removed. */
  lemma ReconcileOther(prev: seq<Message>, currentId: Option<int>, m: Message)
    requires currentId != Some(m.senderId)
    ensures var r := Reconcile(prev, currentId, m);
      |r| == |prev| + 1 && r[..|prev|] == prev && r[|prev|] == m
  {
  }

  /** Whether `new_message` bumps the sender's unread counter. */
  predicate Notifies(currentId: Option<int>, selectedId: Option<int>, m: Message) {
    currentId == Some(m.receiverId) && currentId != Some(m.senderId) && selectedId != Some(m.senderId)
  }

  /** `setUnreadMessages` of `new_message`. */
  function BumpUnread(unread: map<int, nat>, currentId: Option<int>, selectedId: Option<int>, m: Message): (r: map<int, nat>)
    ensures Count(r, m.senderId) == Count(unread, m.senderId) + (if Notifies(currentId, selectedId, m) then 1 else 0)
    ensures forall k :: k != m.senderId ==> (k in r <==> k in unread)
    ensures forall k :: k != m.senderId && k in unread ==> r[k] == unread[k]
    ensures !Notifies(currentId, selectedId, m) ==> r == unread
  {
    if Notifies(currentId, selectedId, m) then unread[m.senderId := Count(unread, m.senderId) + 1]
    else unread
  }

  // ---------------------------------------------------------------- socket events

  /** One socket event applied to the view. */
  function Handle(v: View, e: Incoming): (r: View)
    ensures r.selected == v.selected && r.current == v.current && r.input == v.input && r.connected == v.connected
    ensures e.NewMessage? ==> r.users == v.users
    ensures !e.NewMessage? ==> r.messages == v.messages && r.unread == v.unread && |r.users| == |v.users|
    ensures e.UsersOnline? ==> r.users == MarkOnline(v.users, e.ids)
    ensures e.UserConnected? ==> r.users == SetPresence(v.users, e.userId, true)
    ensures e.UserDisconnected? ==> r.users == SetPresence(v.users, e.userId, false)
    ensures e.NewMessage? ==>
      |r.messages| >= 1 && r.messages[|r.messages| - 1] == e.message &&
      r.messages == Reconcile(v.messages, IdOf(v.current), e.message) &&
      r.unread == BumpUnread(v.unread, IdOf(v.current), IdOf(v.selected), e.message)
  {
    match e
    case UsersOnline(ids) => v.(users := MarkOnline(v.users, ids))
    case UserConnected(id) => v.(users := SetPresence(v.users, id, true))
    case UserDisconnected(id) => v.(users := SetPresence(v.users, id, false))
    case NewMessage(m) =>
      v.(messages := Reconcile(v.messages, IdOf(v.current), m),
         unread := BumpUnread(v.unread, IdOf(v.current), IdOf(v.selected), m))
  }

  // ---------------------------------------------------------------- UI callbacks

  /** The characters `String.prototype.trim` strips. */
  predicate IsJsWhitespace(c: char) {
    var n := c as int;
    n == 0x09 || n == 0x0A || n == 0x0B || n == 0x0C || n == 0x0D || n == 0x20 ||
    n == 0xA0 || n == 0x1680 || (0x2000 <= n <= 0x200A) || n == 0x2028 || n == 0x2029 ||
    n == 0x202F || n == 0x205F || n == 0x3000 || n == 0xFEFF
  }

  /** `!inputMessage.trim()` */
  predicate Blank(s: string) {
    forall i :: 0 <= i < |s| ==> IsJsWhitespace(s[i])
  }

  /**
   * `sendMessage`: with a non-blank input, a socket, a selected user and a
   * current user, emits the message and appends an optimistic unread local
   * copy (temporary id `now`), clearing the input; otherwise does nothing.
   */
  function Send(v: View, now: int, createdAt: string): (r: (View, seq<Outgoing>))
    ensures Blank(v.input) || !v.connected || v.selected.None? || v.current.None? ==> r == (v, [])
    ensures !(Blank(v.input) || !v.connected || v.selected.None? || v.current.None?) ==>
      |r.0.messages| == |v.messages| + 1 && r.0.messages[..|v.messages|] == v.messages &&
      var m := r.0.messages[|v.messages|];
      m.localOnly && !m.isRead && m.content == v.input &&
      m.senderId == v.current.value.id && m.receiverId == v.selected.value.id &&
      r.0.input == "" &&
      r.0.users == v.users && r.0.unread == v.unread && r.0.selected == v.selected && r.0.current == v.current &&
      r.1 == [SendMessage(v.input, v.selected.value.id, v.current.value.id, None)]
  {
    if Blank(v.input) || !v.connected || v.selected.None? || v.current.None? then (v, [])
    else
      var me := v.current.value;
      var to := v.selected.value;
      var local := Message(now, v.input, me.id, to.id, false, createdAt, Some(me.username), true);
      (v.(messages := v.messages + [local], input := ""), [SendMessage(v.input, to.id, me.id, None)])
  }

  /**
   * The emit after a successful upload in `handleFileUpload`: the encoded
   * `FILE:` content, sent only with a socket, a current user and a selected
   * user; no local copy is added.
   */
  function FileUploaded(v: View, fileType: string, fileName: string, fileUrl: string): (r: seq<Outgoing>)
    ensures |r| <= 1
    ensures r != [] <==> v.connected && v.current.Some? && v.selected.Some?
    ensures r != [] ==>
      r[0].SendMessage? && r[0].content == FileContent.Encode(fileType, fileName, fileUrl) &&
      r[0].fileType == Some(fileType) &&
      r[0].receiverId == v.selected.value.id && r[0].senderId == v.current.value.id
  {
    if !v.connected || v.current.None? || v.selected.None? then []
    else [SendMessage(FileContent.Encode(fileType, fileName, fileUrl), v.selected.value.id, v.current.value.id, Some(fileType))]
  }

  /**
   * `selectUser`: selects `u`, zeroes its unread counter and leaves the
   * others alone; with a socket and a current user it also announces the
   * open chat and asks the server to mark `u`'s messages read.
   */
  function Select(v: View, u: User): (r: (View, seq<Outgoing>))
    ensures r.0.selected == Some(u)
    ensures u.id in r.0.unread && r.0.unread[u.id] == 0
    ensures forall k :: k != u.id ==> (k in r.0.unread <==> k in v.unread)
    ensures forall k :: k != u.id && k in v.unread ==> r.0.unread[k] == v.unread[k]
    ensures r.0.messages == v.messages && r.0.users == v.users && r.0.current == v.current && r.0.input == v.input
    ensures r.1 == if v.connected && v.current.Some?
                   then [ChatOpen(v.current.value.id, u.id), MarkMessagesRead(u.id, v.current.value.id)]
                   else []
  {
    var v' := v.(selected := Some(u), unread := v.unread[u.id := 0]);
    if v.connected && v.current.Some? then
      (v', [ChatOpen(v.current.value.id, u.id), MarkMessagesRead(u.id, v.current.value.id)])
    else (v', [])
  }

  /** Selecting a user after one of its messages arrived clears the count that message added. */
  lemma SelectClearsNotification(v: View, m: Message, u: User)
    requires u.id == m.senderId
    ensures Count(Select(Handle(v, NewMessage(m)), u).0.unread, m.senderId) == 0
  {
  }

  // ---------------------------------------------------------------- conversation

  /** Whether `msg` belongs to the chat between the current user and the selected user. */
  predicate InConversation(msg: Message, currentId: Option<int>, selectedId: int) {
    (currentId == Some(msg.senderId) && msg.receiverId == selectedId) ||
    (msg.senderId == selectedId && currentId == Some(msg.receiverId))
  }

  /** The `messages.filter(...)` of the open conversation. */
  function Conversation(messages: seq<Message>, currentId: Option<int>, selectedId: int): (r: seq<Message>)
    ensures |r| <= |messages|
    ensures forall x :: x in r <==> x in messages && InConversation(x, currentId, selectedId)
  {
    if messages == [] then []
    else
      var rest := Conversation(messages[1..], currentId, selectedId);
      assert forall x :: x in messages <==> x == messages[0] || x in messages[1..];
      if InConversation(messages[0], currentId, selectedId) then [messages[0]] + rest else rest
  }

  /** The conversation keeps the stored order. */
  lemma {:induction false} ConversationAppend(a: seq<Message>, b: seq<Message>, currentId: Option<int>, selectedId: int)
    ensures Conversation(a + b, currentId, selectedId) == Conversation(a, currentId, selectedId) + Conversation(b, currentId, selectedId)
  {
    if a == [] {
      assert a + b == b;
    } else {
      assert (a + b)[1..] == a[1..] + b;
      assert (a + b)[0] == a[0];
      ConversationAppend(a[1..], b, currentId, selectedId);
    }
  }

  /** Both participants see the same conversation. */
  lemma {:induction false} ConversationSymmetric(messages: seq<Message>, a: int, b: int)
    ensures Conversation(messages, Some(a), b) == Conversation(messages, Some(b), a)
  {
    if messages != [] {
      ConversationSymmetric(messages[1..], a, b);
    }
  }

  /** A message just sent to the selected user is shown last in the open conversation. */
  lemma SentMessageShown(v: View, now: int, createdAt: string)
    requires !Blank(v.input) && v.connected && v.selected.Some? && v.current.Some?
    ensures var r := Send(v, now, createdAt).0;
      var c := Conversation(r.messages, IdOf(r.current), r.selected.value.id);
      |c| >= 1 && c[|c| - 1] == r.messages[|r.messages| - 1]
  {
    var r := Send(v, now, createdAt).0;
    assert r.messages == v.messages + [r.messages[|r.messages| - 1]];
    ConversationAppend(v.messages, [r.messages[|r.messages| - 1]], IdOf(r.current), r.selected.value.id);
  }
}
