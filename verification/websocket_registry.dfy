/**
  The notification WebSocket server's connection registry: a JavaScript `Map` from the user id a client
  announced to its socket, kept in insertion order, updated by `authenticate` messages and by socket
  closes, and read by `sendNotification` and `broadcastNotification`. Sockets are abstract ids; which of
  them are open is an input.
*/
module WebSocketRegistry {
  import opened Wrappers
  import opened Json

  type SocketId = int

  /** A registry entry. The key is the `userId` value exactly as the client sent it. */
  datatype Entry = Entry(userId: Value, socket: SocketId)

  type Registry = seq<Entry>

  /** The notification record that is serialised and sent. */
  datatype Notice = Notice(id: int, kind: string, content: string, createdAt: int)

  datatype Push = Push(socket: SocketId, notice: Notice)

  /**
    Map-key equality (SameValueZero) on parsed JSON: primitives by value; an array or object is only
    ever equal to itself, and every parsed message yields a fresh one.
  */
  predicate SameKey(a: Value, b: Value) {
    a == b && !a.Arr? && !a.Obj?
  }

  /** No two entries share a key. */
  predicate Keyed(r: Registry) {
    forall i, j :: 0 <= i < j < |r| ==> !SameKey(r[i].userId, r[j].userId)
  }

  predicate KeyAt(r: Registry, key: Value, i: int) {
    0 <= i < |r| && SameKey(r[i].userId, key)
  }

  /** The position of `key` in the registry. */
  function Find(r: Registry, key: Value): (found: Option<nat>)
    ensures found.Some? ==> KeyAt(r, key, found.value) && forall i :: 0 <= i < found.value ==> !KeyAt(r, key, i)
    ensures found.None? ==> forall i :: 0 <= i < |r| ==> !KeyAt(r, key, i)
    decreases |r|
  {
    if r == [] then None
    else if SameKey(r[0].userId, key) then Some(0)
    else
      assert forall i :: 1 <= i < |r| ==> (KeyAt(r, key, i) <==> KeyAt(r[1..], key, i - 1));
      match Find(r[1..], key)
      case None => None
      case Some(k) => Some(k + 1)
  }

  /** `connections.get(key)`. */
  function Get(r: Registry, key: Value): (s: Option<SocketId>)
    ensures s.Some? <==> exists i :: KeyAt(r, key, i)
  {
    match Find(r, key)
    case None => None
    case Some(i) => Some(r[i].socket)
  }

  /** `connections.set(key, socket)`: an existing key keeps its place and takes the new socket; a new key goes last. */
  function Put(r: Registry, key: Value, socket: SocketId): (r': Registry)
    ensures Find(r, key).Some? ==> r' == r[Find(r, key).value := Entry(key, socket)]
    ensures Find(r, key).None? ==> r' == r + [Entry(key, socket)]
  {
    match Find(r, key)
    case None => r + [Entry(key, socket)]
    case Some(i) => r[i := Entry(key, socket)]
  }

  /** An `authenticate` message with a truthy `userId`. */
  predicate Authenticates(message: Option<Value>) {
    message.Some? && !Nullish(message.value)
    && Member(message.value, "type") == Str("authenticate")
    && Truthy(Member(message.value, "userId"))
  }

  /**
    The `message` handler. `message` is the parsed text, None when `JSON.parse` throws; reading a
    property of a parsed `null` throws too. Every throw is caught and logged.
  */
  function OnMessage(r: Registry, ws: SocketId, message: Option<Value>): (r': Registry)
    ensures !Authenticates(message) ==> r' == r
    ensures Authenticates(message) ==> r' == Put(r, Member(message.value, "userId"), ws)
  {
    if Authenticates(message) then Put(r, Member(message.value, "userId"), ws) else r
  }

  predicate SocketAt(r: Registry, ws: SocketId, i: int) {
    0 <= i < |r| && r[i].socket == ws
  }

  /** The first entry holding socket `ws`. */
  function FindSocket(r: Registry, ws: SocketId): (found: Option<nat>)
    ensures found.Some? ==> SocketAt(r, ws, found.value) && forall i :: 0 <= i < found.value ==> !SocketAt(r, ws, i)
    ensures found.None? ==> forall i :: 0 <= i < |r| ==> !SocketAt(r, ws, i)
    decreases |r|
  {
    if r == [] then None
    else if r[0].socket == ws then Some(0)
    else
      assert forall i :: 1 <= i < |r| ==> (SocketAt(r, ws, i) <==> SocketAt(r[1..], ws, i - 1));
      match FindSocket(r[1..], ws)
      case None => None
      case Some(k) => Some(k + 1)
  }

  /** The `close` handler: the first entry holding the socket is deleted, and the scan stops there. */
  function OnClose(r: Registry, ws: SocketId): (r': Registry)
    ensures FindSocket(r, ws).None? ==> r' == r
    ensures FindSocket(r, ws).Some? ==>
      var i := FindSocket(r, ws).value;
      r' == r[..i] + r[i + 1..]
  {
    match FindSocket(r, ws)
    case None => r
    case Some(i) => r[..i] + r[i + 1..]
  }

  /** `sendNotification`: the registered socket of the (numeric) user id, if it is open. */
  function SendNotification(r: Registry, open: set<SocketId>, userId: int, notice: Notice): (pushes: seq<Push>)
    ensures |pushes| <= 1
    ensures pushes != [] <==> Get(r, Num(userId)).Some? && Get(r, Num(userId)).value in open
    ensures pushes != [] ==> pushes == [Push(Get(r, Num(userId)).value, notice)]
  {
    match Get(r, Num(userId))
    case Some(s) => if s in open then [Push(s, notice)] else []
    case None => []
  }

  /** `broadcastNotification`: one push per entry whose socket is open, in registry order. */
  function Broadcast(r: Registry, open: set<SocketId>, notice: Notice): (pushes: seq<Push>)
    ensures |pushes| <= |r|
    ensures forall k :: 0 <= k < |pushes| ==> pushes[k].socket in open && pushes[k].notice == notice
    decreases |r|
  {
    if r == [] then []
    else
      var rest := Broadcast(r[..|r| - 1], open, notice);
      var last := r[|r| - 1];
      if last.socket in open then rest + [Push(last.socket, notice)] else rest
  }

  // ---------------------------------------------------------------------------------------------
  // Properties

  /** After authenticating, the announced primitive user id maps to the socket the message came on. */
  lemma AuthenticateRegisters(r: Registry, ws: SocketId, message: Option<Value>)
    requires Authenticates(message)
    requires !Member(message.value, "userId").Arr? && !Member(message.value, "userId").Obj?
    ensures Get(OnMessage(r, ws, message), Member(message.value, "userId")) == Some(ws)
  {
    var key := Member(message.value, "userId");
    var r' := OnMessage(r, ws, message);
    match Find(r, key)
    case None =>
      assert r' == r + [Entry(key, ws)];
      forall f | 0 <= f < |r| ensures !KeyAt(r', key, f) {
        assert r'[f] == r[f] && !KeyAt(r, key, f);
      }
      assert KeyAt(r', key, |r|);
    case Some(i) =>
      assert r' == r[i := Entry(key, ws)];
      forall f | 0 <= f < i ensures !KeyAt(r', key, f) {
        assert r'[f] == r[f] && !KeyAt(r, key, f);
      }
      assert KeyAt(r', key, i);
  }

  /** A client that announced a numeric id is reached by the next notification for that id while its socket is open. */
  lemma AuthenticateThenSend(r: Registry, ws: SocketId, message: Option<Value>, userId: int, open: set<SocketId>, notice: Notice)
    requires Authenticates(message) && Member(message.value, "userId") == Num(userId)
    requires ws in open
    ensures SendNotification(OnMessage(r, ws, message), open, userId, notice) == [Push(ws, notice)]
  {
    AuthenticateRegisters(r, ws, message);
  }

  /** Authenticating one key leaves every other key's socket as it was. */
  lemma AuthenticateKeepsOthers(r: Registry, ws: SocketId, message: Option<Value>, other: Value)
    requires Authenticates(message)
    requires !SameKey(other, Member(message.value, "userId"))
    ensures Get(OnMessage(r, ws, message), other) == Get(r, other)
  {
    var key := Member(message.value, "userId");
    var r' := OnMessage(r, ws, message);
    assert forall i :: 0 <= i < |r| ==> (KeyAt(r', other, i) <==> KeyAt(r, other, i));
    assert !KeyAt(r', other, |r|);
    match Find(r, other)
    case None =>
    case Some(i) =>
      assert KeyAt(r', other, i);
      var f := Find(r', other).value;
      assert f == i;
  }

  /** Messages keep keys unique. */
  lemma OnMessageKeepsKeyed(r: Registry, ws: SocketId, message: Option<Value>)
    requires Keyed(r)
    ensures Keyed(OnMessage(r, ws, message))
  {
    if Authenticates(message) {
      var key := Member(message.value, "userId");
      var r' := OnMessage(r, ws, message);
      match Find(r, key)
      case None =>
        forall i, j | 0 <= i < j < |r'| ensures !SameKey(r'[i].userId, r'[j].userId) {
          if j == |r| {
            assert !KeyAt(r, key, i);
          }
        }
      case Some(k) =>
        forall i, j | 0 <= i < j < |r'| ensures !SameKey(r'[i].userId, r'[j].userId) {
          if i == k {
            assert SameKey(r[k].userId, key);
          } else if j == k {
            assert SameKey(r[k].userId, key);
          }
        }
    }
  }

  /** Closing keeps keys unique and removes at most one entry, leaving the others in order. */
  lemma OnCloseKeepsKeyed(r: Registry, ws: SocketId)
    requires Keyed(r)
    ensures Keyed(OnClose(r, ws))
    ensures |r| - 1 <= |OnClose(r, ws)| <= |r|
  {
    match FindSocket(r, ws)
    case None =>
    case Some(k) =>
      var r' := OnClose(r, ws);
      forall i, j | 0 <= i < j < |r'| ensures !SameKey(r'[i].userId, r'[j].userId) {
        var i0 := if i < k then i else i + 1;
        var j0 := if j < k then j else j + 1;
        assert r'[i] == r[i0] && r'[j] == r[j0];
      }
  }

  /** A closed socket is no longer reachable through the user id it was first registered under. */
  lemma CloseUnregistersFirst(r: Registry, ws: SocketId)
    requires Keyed(r)
    requires FindSocket(r, ws).Some?
    ensures var key := r[FindSocket(r, ws).value].userId;
      !key.Arr? && !key.Obj? ==> Get(OnClose(r, ws), key).None?
  {
    var k := FindSocket(r, ws).value;
    var key := r[k].userId;
    var r' := OnClose(r, ws);
    if !key.Arr? && !key.Obj? {
      forall i | 0 <= i < |r'| ensures !KeyAt(r', key, i) {
        var i0 := if i < k then i else i + 1;
        assert r'[i] == r[i0];
        assert SameKey(r[k].userId, key);
      }
    }
  }

  function OpenEntries(r: Registry, open: set<SocketId>): (n: nat)
    decreases |r|
  {
    if r == [] then 0 else OpenEntries(r[..|r| - 1], open) + (if r[|r| - 1].socket in open then 1 else 0)
  }

  /** A broadcast pushes once per entry with an open socket, so a socket registered under two ids receives it twice. */
  lemma {:induction false} BroadcastCount(r: Registry, open: set<SocketId>, notice: Notice)
    ensures |Broadcast(r, open, notice)| == OpenEntries(r, open)
    decreases |r|
  {
    if r != [] {
      BroadcastCount(r[..|r| - 1], open, notice);
    }
  }

  /** How many entries of the registry hold socket `s`. */
  function EntriesOn(r: Registry, s: SocketId): nat
    decreases |r|
  {
    if r == [] then 0 else EntriesOn(r[..|r| - 1], s) + (if r[|r| - 1].socket == s then 1 else 0)
  }

  /** How many of the pushes go to socket `s`. */
  function PushesTo(pushes: seq<Push>, s: SocketId): nat
    decreases |pushes|
  {
    if pushes == [] then 0 else PushesTo(pushes[..|pushes| - 1], s) + (if pushes[|pushes| - 1].socket == s then 1 else 0)
  }

  /**
    Each push goes to its own entry's socket: an open socket receives one push per entry holding it, and a
    closed one receives none.
  */
  lemma {:induction false} BroadcastPerSocket(r: Registry, open: set<SocketId>, notice: Notice, s: SocketId)
    ensures PushesTo(Broadcast(r, open, notice), s) == if s in open then EntriesOn(r, s) else 0
    decreases |r|
  {
    if r != [] {
      var rest := Broadcast(r[..|r| - 1], open, notice);
      BroadcastPerSocket(r[..|r| - 1], open, notice, s);
      var last := r[|r| - 1];
      if last.socket in open {
        var pushes := rest + [Push(last.socket, notice)];
        assert pushes[..|pushes| - 1] == rest;
      }
    }
  }

  lemma SharedSocketPushedTwice(a: Value, b: Value, s: SocketId, notice: Notice)
    ensures Broadcast([Entry(a, s), Entry(b, s)], {s}, notice) == [Push(s, notice), Push(s, notice)]
  {
    assert [Entry(a, s), Entry(b, s)][..1] == [Entry(a, s)];
    assert [Entry(a, s)][..0] == [];
  }

  /** A client that announced its id as a string is not found by `sendNotification`, which looks up the number. */
  lemma StringIdNotReached(s: SocketId, open: set<SocketId>, notice: Notice)
    ensures SendNotification([Entry(Str("5"), s)], open, 5, notice) == []
  {
    assert !KeyAt([Entry(Str("5"), s)], Num(5), 0);
  }
}
