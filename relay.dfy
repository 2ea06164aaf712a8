/**
 * The socket handlers of the chat server. A `Relay` owns the `onlineUsers`
 * registry; each handler is one atomic step that may update the registry
 * and returns the list of deliveries it emits, in emission order.
 *
 * The user directory (`prisma.user.findMany`) and the message store
 * (`prisma.message.create`) are outside the model: the directory is passed
 * in (None when the query rejects) and the store is a function that returns
 * the persisted message, or None when `create` throws.
 */
module Relay {
  import opened Wrappers
  import opened Registry

  const UsersOnlineEvent := "users online"
  const NewMessageEvent := "new message"
  const IncomingCallEvent := "incoming call"
  const CallAcceptedEvent := "call accepted"

  /** A row of `prisma.user.findMany({ select: { id, username } })`. */
  datatype DirectoryUser = DirectoryUser(id: UserId, username: string)

  /** One element of the `'users online'` broadcast. */
  datatype PresenceEntry = PresenceEntry(id: UserId, username: string, online: bool)

  /** The `data` handed to `prisma.message.create`. */
  datatype NewMessage = NewMessage(content: string, senderId: UserId, receiverId: UserId)

  /** A message as the store returns it, with its sender included. */
  datatype PersistedMessage = PersistedMessage(
    id: int, content: string, senderId: UserId, receiverId: UserId,
    isRead: bool, createdAt: string, sender: DirectoryUser)

  /** `io.to(socket).emit`/`socket.emit` address one socket; `io.emit` addresses everyone. */
  datatype Target = ToSocket(socket: SocketId) | ToEveryone

  datatype Payload =
    | OnlineList(users: seq<PresenceEntry>)
    | MessagePayload(message: PersistedMessage)
    | IncomingCall(signal: string, from: UserId)
    | Signal(signal: string)

  datatype Delivery = Delivery(target: Target, event: string, payload: Payload)

  /** `users.map(user => ({ ...user, online: <id among the registry's values> }))` */
  function PresenceList(directory: seq<DirectoryUser>, es: seq<Entry>): seq<PresenceEntry> {
    if directory == [] then []
    else
      var d := directory[0];
      [PresenceEntry(d.id, d.username, IsOnline(es, d.id))] + PresenceList(directory[1..], es)
  }

  /** The `'users online'` broadcast, or nothing when the directory query rejected. */
  function PresenceBroadcast(directory: Option<seq<DirectoryUser>>, es: seq<Entry>): seq<Delivery> {
    match directory
    case None => []
    case Some(users) => [Delivery(ToEveryone, UsersOnlineEvent, OnlineList(PresenceList(users, es)))]
  }

  /**
   * The broadcast presence list has one entry per directory user, in order,
   * and a user's `online` flag is set exactly when the user is bound to some
   * socket.
   */
  lemma {:induction false} PresenceListSpec(directory: seq<DirectoryUser>, es: seq<Entry>)
    ensures |PresenceList(directory, es)| == |directory|
    ensures forall i :: 0 <= i < |directory| ==>
      var p := PresenceList(directory, es)[i];
      p.id == directory[i].id && p.username == directory[i].username &&
      (p.online <==> IsOnline(es, directory[i].id))
  {
    if directory != [] {
      PresenceListSpec(directory[1..], es);
      forall i | 0 < i < |directory|
        ensures PresenceList(directory, es)[i] == PresenceList(directory[1..], es)[i - 1]
      {
      }
    }
  }

  /** The deliveries of a persisted message: to the receiver's first socket, if any, then back to the sender. */
  function Forward(m: PersistedMessage, recipient: Option<SocketId>, sender: SocketId): seq<Delivery> {
    (if recipient.Some? then [Delivery(ToSocket(recipient.value), NewMessageEvent, MessagePayload(m))] else [])
    + [Delivery(ToSocket(sender), NewMessageEvent, MessagePayload(m))]
  }

  class Relay {
    /** `onlineUsers`: socket id to user id, in insertion order. */
    var onlineUsers: seq<Entry>

    ghost predicate Valid()
      reads this
    {
      DistinctKeys(onlineUsers)
    }

    constructor ()
      ensures Valid() && onlineUsers == []
    {
      onlineUsers := [];
    }

    /**
     * `Array.from(onlineUsers.entries()).find(([_, id]) => id === u)?.[0]`:
     * the socket of the earliest entry bound to `u`, or None when `u` is offline.
     */
    method FindSocketOf(u: UserId) returns (r: Option<SocketId>)
      ensures r == FirstSocketOf(onlineUsers, u)
      ensures r.None? <==> !IsOnline(onlineUsers, u)
      ensures r.Some? ==> Get(onlineUsers, r.value).Some?
    {
      FirstSocketSpec(onlineUsers, u);
      var i := 0;
      while i < |onlineUsers|
        invariant 0 <= i <= |onlineUsers|
        invariant FirstSocketOf(onlineUsers[i..], u) == FirstSocketOf(onlineUsers, u)
      {
        assert onlineUsers[i..][1..] == onlineUsers[i + 1..];
        if onlineUsers[i].1 == u {
          r := Some(onlineUsers[i].0);
          GetOfEntry(onlineUsers, i);
          return;
        }
        i := i + 1;
      }
      r := None;
    }

    /**
     * `'user connected'`: binds the socket to the user (overwriting an
     * earlier binding of that socket in place), then broadcasts the
     * presence list computed from the updated registry.
     */
    method UserConnected(socket: SocketId, userId: UserId, directory: Option<seq<DirectoryUser>>)
      returns (out: seq<Delivery>)
      requires Valid()
      modifies this
      ensures Valid()
      ensures onlineUsers == Set(old(onlineUsers), socket, userId)
      ensures Get(onlineUsers, socket) == Some(userId)
      ensures forall s :: s != socket ==> Get(onlineUsers, s) == Get(old(onlineUsers), s)
      ensures out == PresenceBroadcast(directory, onlineUsers)
    {
      SetPlacement(onlineUsers, socket, userId);
      SetGet(onlineUsers, socket, userId);
      onlineUsers := Set(onlineUsers, socket, userId);
      out := PresenceBroadcast(directory, onlineUsers);
    }

    /**
     * The shared body of `'send message'` and `'file shared'`: look up the
     * sender, persist, then forward to the receiver's first socket and echo
     * to the sending socket. Returns the store request it made, if any.
     */
    method Persist(socket: SocketId, content: string, receiverId: UserId,
                   store: NewMessage -> Option<PersistedMessage>)
      returns (request: Option<NewMessage>, out: seq<Delivery>)
      ensures var sender := Get(onlineUsers, socket);
        request.Some? <==> sender.Some? && Truthy(sender.value)
      ensures request.Some? ==> request.value == NewMessage(content, Get(onlineUsers, socket).value, receiverId)
      ensures request.None? || store(request.value).None? ==> out == []
      ensures request.Some? && store(request.value).Some? ==>
        out == Forward(store(request.value).value, FirstSocketOf(onlineUsers, receiverId), socket)
    {
      var sender := Get(onlineUsers, socket);
      if sender.None? || !Truthy(sender.value) {
        return None, [];
      }
      request := Some(NewMessage(content, sender.value, receiverId));
      var stored := store(request.value);
      if stored.None? {
        return request, [];
      }
      var recipient := FindSocketOf(receiverId);
      out := [];
      if recipient.Some? {
        out := out + [Delivery(ToSocket(recipient.value), NewMessageEvent, MessagePayload(stored.value))];
      }
      out := out + [Delivery(ToSocket(socket), NewMessageEvent, MessagePayload(stored.value))];
    }

    /**
     * `'send message'`: a socket with no truthy binding persists and emits
     * nothing; a store failure emits nothing; otherwise the stored message
     * goes to at most one socket of the receiver, the earliest bound one,
     * and is always echoed last to the sender.
     */
    method SendMessage(socket: SocketId, content: string, receiverId: UserId,
                       store: NewMessage -> Option<PersistedMessage>)
      returns (request: Option<NewMessage>, out: seq<Delivery>)
      ensures var sender := Get(onlineUsers, socket);
        request == (if sender.Some? && Truthy(sender.value)
                    then Some(NewMessage(content, sender.value, receiverId)) else None)
      ensures request.None? || store(request.value).None? ==> out == []
      ensures request.Some? && store(request.value).Some? ==>
        var m := store(request.value).value;
        1 <= |out| <= 2 &&
        out[|out| - 1] == Delivery(ToSocket(socket), NewMessageEvent, MessagePayload(m)) &&
        (|out| == 2 <==> IsOnline(onlineUsers, receiverId)) &&
        (|out| == 2 ==>
           FirstSocketOf(onlineUsers, receiverId).Some? &&
           out[0] == Delivery(ToSocket(FirstSocketOf(onlineUsers, receiverId).value), NewMessageEvent, MessagePayload(m)))
    {
      request, out := Persist(socket, content, receiverId, store);
      FirstSocketSpec(onlineUsers, receiverId);
    }

    /**
     * `'file shared'`: the same routing as `'send message'`, with the stored
     * content exactly `"FILE:" + filename`.
     */
    method FileShared(socket: SocketId, filename: string, receiverId: UserId,
                      store: NewMessage -> Option<PersistedMessage>)
      returns (request: Option<NewMessage>, out: seq<Delivery>)
      ensures var sender := Get(onlineUsers, socket);
        request == (if sender.Some? && Truthy(sender.value)
                    then Some(NewMessage("FILE:" + filename, sender.value, receiverId)) else None)
      ensures request.None? || store(request.value).None? ==> out == []
      ensures request.Some? && store(request.value).Some? ==>
        out == Forward(store(request.value).value, FirstSocketOf(onlineUsers, receiverId), socket)
    {
      request, out := Persist(socket, "FILE:" + filename, receiverId, store);
    }

    /**
     * `'call user'`: forwards the signal and the caller to the first socket
     * bound to `userToCall`, with no session check; dropped when that user
     * is offline.
     */
    method CallUser(userToCall: UserId, signalData: string, from: UserId) returns (out: seq<Delivery>)
      ensures out == [] <==> !IsOnline(onlineUsers, userToCall)
      ensures FirstSocketOf(onlineUsers, userToCall).Some? ==>
        out == [Delivery(ToSocket(FirstSocketOf(onlineUsers, userToCall).value), IncomingCallEvent, IncomingCall(signalData, from))]
    {
      var recipient := FindSocketOf(userToCall);
      if recipient.Some? {
        out := [Delivery(ToSocket(recipient.value), IncomingCallEvent, IncomingCall(signalData, from))];
      } else {
        out := [];
      }
    }

    /**
     * `'answer call'`: forwards only the signal to the first socket bound
     * to `to`; dropped when that user is offline.
     */
    method AnswerCall(to: UserId, signal: string) returns (out: seq<Delivery>)
      ensures out == [] <==> !IsOnline(onlineUsers, to)
      ensures FirstSocketOf(onlineUsers, to).Some? ==>
        out == [Delivery(ToSocket(FirstSocketOf(onlineUsers, to).value), CallAcceptedEvent, Signal(signal))]
    {
      var recipient := FindSocketOf(to);
      if recipient.Some? {
        out := [Delivery(ToSocket(recipient.value), CallAcceptedEvent, Signal(signal))];
      } else {
        out := [];
      }
    }

    /**
     * `'disconnect'`: a socket with a truthy binding loses exactly that
     * entry and a fresh presence list is broadcast; any other socket
     * changes nothing and broadcasts nothing.
     */
    method Disconnect(socket: SocketId, directory: Option<seq<DirectoryUser>>) returns (out: seq<Delivery>)
      requires Valid()
      modifies this
      ensures Valid()
      ensures var u := Get(old(onlineUsers), socket);
        if u.Some? && Truthy(u.value)
        then onlineUsers == Remove(old(onlineUsers), socket) && out == PresenceBroadcast(directory, onlineUsers)
        else onlineUsers == old(onlineUsers) && out == []
      ensures forall s :: s != socket ==> Get(onlineUsers, s) == Get(old(onlineUsers), s)
    {
      var u := Get(onlineUsers, socket);
      if u.Some? && Truthy(u.value) {
        RemovePlacement(onlineUsers, socket);
        RemoveGet(onlineUsers, socket);
        onlineUsers := Remove(onlineUsers, socket);
        out := PresenceBroadcast(directory, onlineUsers);
      } else {
        out := [];
      }
    }
  }

  /**
   * In the list broadcast after `'user connected'`(socket, userId), a user
   * is online exactly when it is `userId` or another socket is bound to it.
   */
  lemma ConnectedPresence(es: seq<Entry>, socket: SocketId, userId: UserId, directory: seq<DirectoryUser>, i: int)
    requires DistinctKeys(es)
    requires 0 <= i < |directory|
    ensures |PresenceList(directory, Set(es, socket, userId))| == |directory|
    ensures PresenceList(directory, Set(es, socket, userId))[i].online <==>
      directory[i].id == userId || exists j :: 0 <= j < |es| && es[j].0 != socket && es[j].1 == directory[i].id
  {
    PresenceListSpec(directory, Set(es, socket, userId));
    SetOnline(es, socket, userId, directory[i].id);
  }

  /**
   * In the list broadcast after `'disconnect'` of `socket`, a user is online
   * exactly when some other socket is still bound to it.
   */
  lemma DisconnectedPresence(es: seq<Entry>, socket: SocketId, directory: seq<DirectoryUser>, i: int)
    requires 0 <= i < |directory|
    ensures |PresenceList(directory, Remove(es, socket))| == |directory|
    ensures PresenceList(directory, Remove(es, socket))[i].online <==>
      exists j :: 0 <= j < |es| && es[j].0 != socket && es[j].1 == directory[i].id
  {
    PresenceListSpec(directory, Remove(es, socket));
    RemoveOnline(es, socket, directory[i].id);
  }
}
