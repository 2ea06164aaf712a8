/**
 * The JSON-file store of the chat server. The two files become the `users`
 * and `messages` sequences of a `Db`; every read of a file is a read of the
 * field and every `writeFileSync` an assignment to it. Lookups, projections
 * and filters are functions of the sequences.
 */
module Store {
  import opened Wrappers

  datatype User = User(id: int, username: string, password: string)

  /** The shape `getAllUsers` returns. */
  datatype PublicUser = PublicUser(id: int, username: string, online: bool)

  datatype Message = Message(
    id: int, content: string, senderId: int, receiverId: int,
    isRead: bool, createdAt: string)

  /** `users.map(u => u.id)` */
  function UserIds(users: seq<User>): seq<int> {
    seq(|users|, i requires 0 <= i < |users| => users[i].id)
  }

  /** `messages.map(m => m.id)` */
  function MessageIds(messages: seq<Message>): seq<int> {
    seq(|messages|, i requires 0 <= i < |messages| => messages[i].id)
  }

  /** `Math.max(...ids)`: an element of `ids` that no element exceeds. */
  function MaxOf(ids: seq<int>): (r: int)
    requires ids != []
    ensures forall i :: 0 <= i < |ids| ==> ids[i] <= r
    ensures exists i :: 0 <= i < |ids| && ids[i] == r
  {
    if |ids| == 1 then ids[0]
    else
      var m := MaxOf(ids[1..]);
      assert forall i :: 1 <= i < |ids| ==> ids[i] == ids[1..][i - 1];
      if ids[0] >= m then ids[0] else m
  }

  /**
   * `ids.length ? Math.max(...ids) + 1 : 1`: 1 for an empty table,
   * otherwise one more than the largest id, so above every existing id.
   */
  function NextId(ids: seq<int>): (r: int)
    ensures ids == [] ==> r == 1
    ensures forall i :: 0 <= i < |ids| ==> ids[i] < r
    ensures ids != [] ==> exists i :: 0 <= i < |ids| && r == ids[i] + 1
  {
    if ids == [] then 1 else MaxOf(ids) + 1
  }

  ghost predicate UniqueIds(ids: seq<int>) {
    forall i, j :: 0 <= i < j < |ids| ==> ids[i] != ids[j]
  }

  /** Appending a record with the next id keeps ids unique. */
  lemma NextIdKeepsUnique(ids: seq<int>)
    ensures UniqueIds(ids) ==> UniqueIds(ids + [NextId(ids)])
  {
  }

  /** `users.find(u => u.username === username) || null` */
  function GetUser(users: seq<User>, username: string): (r: Option<User>)
    ensures r.None? <==> forall i :: 0 <= i < |users| ==> users[i].username != username
    ensures r.Some? ==>
      exists i :: 0 <= i < |users| && users[i] == r.value && users[i].username == username &&
        forall j :: 0 <= j < i ==> users[j].username != username
  {
    if users == [] then None
    else if users[0].username == username then Some(users[0])
    else
      var r := GetUser(users[1..], username);
      assert forall i :: 1 <= i < |users| ==> users[i] == users[1..][i - 1];
      r
  }

  /** `users.find(u => u.id === id) || null` */
  function GetUserById(users: seq<User>, id: int): (r: Option<User>)
    ensures r.None? <==> forall i :: 0 <= i < |users| ==> users[i].id != id
    ensures r.Some? ==>
      exists i :: 0 <= i < |users| && users[i] == r.value && users[i].id == id &&
        forall j :: 0 <= j < i ==> users[j].id != id
  {
    if users == [] then None
    else if users[0].id == id then Some(users[0])
    else
      var r := GetUserById(users[1..], id);
      assert forall i :: 1 <= i < |users| ==> users[i] == users[1..][i - 1];
      r
  }

  /** `users.map(({ id, username }) => ({ id, username, online: false }))` */
  function GetAllUsers(users: seq<User>): (r: seq<PublicUser>)
    ensures |r| == |users|
    ensures forall i :: 0 <= i < |users| ==>
      r[i].id == users[i].id && r[i].username == users[i].username && !r[i].online
  {
    if users == [] then []
    else
      var rest := GetAllUsers(users[1..]);
      assert forall i :: 1 <= i < |users| ==> users[i] == users[1..][i - 1];
      [PublicUser(users[0].id, users[0].username, false)] + rest
  }

  predicate Involves(m: Message, userId: int) {
    m.senderId == userId || m.receiverId == userId
  }

  /** `messages.filter(m => m.senderId === userId || m.receiverId === userId)` */
  function GetMessages(messages: seq<Message>, userId: int): (r: seq<Message>)
    ensures |r| <= |messages|
    ensures forall m :: m in r <==> m in messages && Involves(m, userId)
  {
    if messages == [] then []
    else
      var rest := GetMessages(messages[1..], userId);
      assert forall m :: m in messages <==> m == messages[0] || m in messages[1..];
      if Involves(messages[0], userId) then [messages[0]] + rest else rest
  }

  /** The mailbox of a concatenation is the concatenation of the mailboxes: stored order is kept. */
  lemma {:induction false} GetMessagesAppend(a: seq<Message>, b: seq<Message>, userId: int)
    ensures GetMessages(a + b, userId) == GetMessages(a, userId) + GetMessages(b, userId)
  {
    if a == [] {
      assert a + b == b;
    } else {
      assert (a + b)[1..] == a[1..] + b;
      assert (a + b)[0] == a[0];
      GetMessagesAppend(a[1..], b, userId);
    }
  }

  /** Each stored message occurs in a mailbox as often as it is stored, when it involves the user, and otherwise not at all. */
  lemma {:induction false} GetMessagesCount(messages: seq<Message>, userId: int, m: Message)
    ensures multiset(GetMessages(messages, userId))[m] == if Involves(m, userId) then multiset(messages)[m] else 0
  {
    if messages != [] {
      GetMessagesCount(messages[1..], userId, m);
      assert messages == [messages[0]] + messages[1..];
    }
  }

  /** A message appended to the store shows up last in the mailbox of its sender and of its receiver. */
  lemma NewMessageInMailbox(messages: seq<Message>, m: Message, userId: int)
    requires Involves(m, userId)
    ensures GetMessages(messages + [m], userId) == GetMessages(messages, userId) + [m]
  {
    GetMessagesAppend(messages, [m], userId);
  }

  predicate Between(m: Message, senderId: int, receiverId: int) {
    m.senderId == senderId && m.receiverId == receiverId
  }

  /** The update `markAsRead` writes back: unread messages from `senderId` to `receiverId` become read. */
  function MarkRead(messages: seq<Message>, senderId: int, receiverId: int): (r: seq<Message>)
    ensures |r| == |messages|
    ensures forall i :: 0 <= i < |messages| && Between(messages[i], senderId, receiverId) ==> r[i].isRead
    ensures forall i :: 0 <= i < |messages| ==> r[i].(isRead := messages[i].isRead) == messages[i]
    ensures forall i :: 0 <= i < |messages| && !Between(messages[i], senderId, receiverId) ==> r[i] == messages[i]
  {
    if messages == [] then []
    else
      var m := messages[0];
      var rest := MarkRead(messages[1..], senderId, receiverId);
      assert forall i :: 1 <= i < |messages| ==> messages[i] == messages[1..][i - 1];
      [if Between(m, senderId, receiverId) && !m.isRead then m.(isRead := true) else m] + rest
  }

  /** Marking the same conversation read twice changes nothing the second time. */
  lemma MarkReadIdempotent(messages: seq<Message>, senderId: int, receiverId: int)
    ensures MarkRead(MarkRead(messages, senderId, receiverId), senderId, receiverId)
         == MarkRead(messages, senderId, receiverId)
  {
    var once := MarkRead(messages, senderId, receiverId);
    var twice := MarkRead(once, senderId, receiverId);
    forall i | 0 <= i < |messages| ensures twice[i] == once[i] {
      assert once[i].(isRead := messages[i].isRead) == messages[i];
      assert twice[i].(isRead := once[i].isRead) == once[i];
    }
  }

  /** A read flag never goes back from true to false, and ids and order are untouched. */
  lemma MarkReadMonotone(messages: seq<Message>, senderId: int, receiverId: int)
    ensures MessageIds(MarkRead(messages, senderId, receiverId)) == MessageIds(messages)
    ensures forall i :: 0 <= i < |messages| && messages[i].isRead ==> MarkRead(messages, senderId, receiverId)[i].isRead
  {
    var r := MarkRead(messages, senderId, receiverId);
    forall i | 0 <= i < |messages| ensures r[i].id == messages[i].id && (messages[i].isRead ==> r[i].isRead) {
      assert r[i].(isRead := messages[i].isRead) == messages[i];
    }
  }

  class Db {
    /** The contents of `users.json`. */
    var users: seq<User>
    /** The contents of `messages.json`. */
    var messages: seq<Message>

    /** Both files start as empty arrays. */
    constructor ()
      ensures users == [] && messages == []
    {
      users := [];
      messages := [];
    }

    /**
     * `createUser`: appends one record with the next id and returns that id.
     * No check that the username is free.
     */
    method CreateUser(username: string, password: string) returns (id: int)
      modifies this
      ensures id == NextId(UserIds(old(users)))
      ensures users == old(users) + [User(id, username, password)]
      ensures messages == old(messages)
      ensures UniqueIds(UserIds(old(users))) ==> UniqueIds(UserIds(users))
    {
      id := NextId(UserIds(users));
      NextIdKeepsUnique(UserIds(users));
      users := users + [User(id, username, password)];
      assert UserIds(users) == UserIds(old(users)) + [id];
    }

    /** `createMessage`: appends an unread message with the next id and the given timestamp. */
    method CreateMessage(content: string, senderId: int, receiverId: int, createdAt: string)
      returns (m: Message)
      modifies this
      ensures m == Message(NextId(MessageIds(old(messages))), content, senderId, receiverId, false, createdAt)
      ensures messages == old(messages) + [m]
      ensures users == old(users)
      ensures UniqueIds(MessageIds(old(messages))) ==> UniqueIds(MessageIds(messages))
    {
      m := Message(NextId(MessageIds(messages)), content, senderId, receiverId, false, createdAt);
      NextIdKeepsUnique(MessageIds(messages));
      messages := messages + [m];
      assert MessageIds(messages) == MessageIds(old(messages)) + [m.id];
    }

    /** `markAsRead`: writes back the marked list. */
    method MarkAsRead(senderId: int, receiverId: int)
      modifies this
      ensures messages == MarkRead(old(messages), senderId, receiverId)
      ensures users == old(users)
    {
      messages := MarkRead(messages, senderId, receiverId);
    }
  }
}
