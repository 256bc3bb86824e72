/**
 The socket server's shared state and its event handlers.

 Every handler runs to completion on a single event loop, so each one is a
 method that takes the server from one state to the next and returns the
 messages it emits. The two tables are fields that the handlers update in
 place: the room directory (`rooms`, iterated in the order `roomOrder`) and
 the connection registry (`sockets`, iterated in the order `socketOrder`).
 `sender` is always the id of the connection the event arrived on.
 */
module SocketServer {
  import opened Common
  import D = RoomDirectory
  import R = ConnectionRegistry
  import opened Events

  class Server {
    var rooms: map<RoomId, D.Room>
    var roomOrder: seq<RoomId>
    var sockets: map<UserId, ConnId>
    var socketOrder: seq<UserId>

    /** The room directory as a value. */
    function Dir(): D.Directory
      reads this
    {
      D.Directory(rooms, roomOrder)
    }

    /** The connection registry as a value. */
    function Reg(): R.Registry
      reads this
    {
      R.Registry(sockets, socketOrder)
    }

    ghost predicate Valid()
      reads this
    {
      D.Wf(Dir()) && R.Wf(Reg())
    }

    /** A freshly started process: no rooms, no registered users. */
    constructor ()
      ensures Valid()
      ensures rooms == map[] && roomOrder == [] && sockets == map[] && socketOrder == []
    {
      rooms, roomOrder := map[], [];
      sockets, socketOrder := map[], [];
    }

    /** `send-message`: relayed to the other members of the room. */
    method SendMessage(sender: ConnId, roomId: RoomId, message: string) returns (out: seq<Outbound>)
      ensures AllScoped(out)
      ensures out == [Outbound(RoomExceptSender(roomId, sender), ReceiveMessage(message))]
    {
      out := [Outbound(RoomExceptSender(roomId, sender), ReceiveMessage(message))];
    }

    /** `user-joined`: an ephemeral announcement to the other members. */
    method UserJoined(sender: ConnId, roomId: RoomId, user: string) returns (out: seq<Outbound>)
      ensures AllScoped(out)
      ensures out == [Outbound(RoomExceptSender(roomId, sender), NewUser(user))]
    {
      out := [Outbound(RoomExceptSender(roomId, sender), NewUser(user))];
    }

    /** `ready-state-changed`: only a broadcast to the whole room. No
        participant's `isReady` is updated; the method has no `modifies`
        clause, so neither table changes. */
    method ReadyStateChanged(roomId: RoomId, userId: UserId, isReady: bool) returns (out: seq<Outbound>)
      ensures AllScoped(out)
      ensures out == [Outbound(WholeRoom(roomId), UserReadyUpdate(userId, isReady))]
    {
      out := [Outbound(WholeRoom(roomId), UserReadyUpdate(userId, isReady))];
    }

    /** `join-room`: create the room on first join with the joiner's
        language, admit the joiner unless already present, and broadcast the
        membership list to the whole room. */
    method JoinRoom(roomId: RoomId, user: D.User, language: Language) returns (out: seq<Outbound>)
      requires Valid()
      modifies this`rooms, this`roomOrder
      ensures Valid()
      ensures Dir() == D.Join(old(Dir()), roomId, user, language)
      ensures AllScoped(out)
      ensures out == [Outbound(WholeRoom(roomId), ParticipantsUpdate(rooms[roomId].participants))]
    {
      D.JoinInPlace(Dir(), roomId, user, language);
      if roomId !in rooms {
        rooms := rooms[roomId := D.Room([], language)];
        roomOrder := roomOrder + [roomId];
      }
      var alreadyJoined := D.HasUser(rooms[roomId].participants, user.userId);
      if !alreadyJoined {
        var room := rooms[roomId];
        rooms := rooms[roomId := room.(participants := room.participants + [D.Participant(user.userId, user.name, false)])];
      }
      out := [Outbound(WholeRoom(roomId), ParticipantsUpdate(rooms[roomId].participants))];
    }

    /** `user-left`: nothing happens for an unknown room; otherwise the user's
        entries are filtered out, the others are told who left, the whole room
        gets the new list, and a room left empty is deleted. */
    method UserLeft(sender: ConnId, roomId: RoomId, userId: UserId, userName: string) returns (out: seq<Outbound>)
      requires Valid()
      modifies this`rooms, this`roomOrder
      ensures Valid()
      ensures Dir() == D.Leave(old(Dir()), roomId, userId)
      ensures AllScoped(out)
      ensures out == if roomId !in old(rooms) then [] else
                [Outbound(RoomExceptSender(roomId, sender), Payload.UserLeft(userId, userName)),
                 Outbound(WholeRoom(roomId), ParticipantsUpdate(D.WithoutUser(old(rooms)[roomId].participants, userId)))]
    {
      if roomId !in rooms {
        return [];
      }
      D.LeaveInPlace(Dir(), roomId, userId);
      var room := rooms[roomId];
      var remaining := D.WithoutUser(room.participants, userId);
      rooms := rooms[roomId := room.(participants := remaining)];
      out := [Outbound(RoomExceptSender(roomId, sender), Payload.UserLeft(userId, userName)),
              Outbound(WholeRoom(roomId), ParticipantsUpdate(remaining))];
      assert Scoped(out[0]) && Scoped(out[1]);
      if |remaining| == 0 {
        rooms := rooms - {roomId};
        roomOrder := Without(roomOrder, roomId);
      }
    }

    /** `find-available-room`: the reply to the caller is the first room in
        iteration order with the queried language and spare capacity, or none. */
    method FindAvailableRoom(language: Language) returns (r: Option<RoomId>)
      ensures r.Some? ==> r.value in rooms && rooms[r.value].language == language
                          && |rooms[r.value].participants| < D.Capacity
      ensures r.None? <==> forall i :: 0 <= i < |roomOrder| ==> !D.Available(rooms, language, roomOrder[i])
      ensures r == D.FindAvailable(roomOrder, rooms, language)
    {
      r := D.FindAvailable(roomOrder, rooms, language);
    }

    /** `offer`: forwarded to the target connection. */
    method Offer(target: ConnId, callerId: string, sdp: string) returns (out: seq<Outbound>)
      ensures AllScoped(out)
      ensures out == [Outbound(SingleConnection(target), Payload.Offer(callerId, sdp))]
    {
      out := [Outbound(SingleConnection(target), Payload.Offer(callerId, sdp))];
    }

    /** `answer`: forwarded to the target connection. */
    method Answer(target: ConnId, sdp: string) returns (out: seq<Outbound>)
      ensures AllScoped(out)
      ensures out == [Outbound(SingleConnection(target), Payload.Answer(sdp))]
    {
      out := [Outbound(SingleConnection(target), Payload.Answer(sdp))];
    }

    /** `ice-candidate`: forwarded to the target connection. */
    method IceCandidate(target: ConnId, candidate: string) returns (out: seq<Outbound>)
      ensures AllScoped(out)
      ensures out == [Outbound(SingleConnection(target), Payload.IceCandidate(candidate))]
    {
      out := [Outbound(SingleConnection(target), Payload.IceCandidate(candidate))];
    }

    /** `voice-join`: register the user against the calling connection (last
        write wins) and tell the other members of the room. */
    method VoiceJoin(sender: ConnId, roomId: RoomId, userId: UserId) returns (out: seq<Outbound>)
      requires Valid()
      modifies this`sockets, this`socketOrder
      ensures Valid()
      ensures Reg() == R.Register(old(Reg()), userId, sender)
      ensures AllScoped(out)
      ensures out == [Outbound(RoomExceptSender(roomId, sender), VoiceUserJoined(userId))]
    {
      if userId !in sockets {
        socketOrder := socketOrder + [userId];
      }
      sockets := sockets[userId := sender];
      R.RegisterPreservesWf(old(Reg()), userId, sender);
      out := [Outbound(RoomExceptSender(roomId, sender), VoiceUserJoined(userId))];
    }

    /** `voice-signal`: delivered to the connection registered for `to`, or
        dropped when there is none. */
    method VoiceSignal(to: UserId, from: UserId, signal: string) returns (out: seq<Outbound>)
      ensures AllScoped(out)
      ensures |out| <= 1
      ensures out != [] <==> to in sockets && sockets[to] != ""
      ensures out != [] ==> out[0] == Outbound(SingleConnection(sockets[to]), Payload.VoiceSignal(from, signal))
    {
      var target := R.Target(sockets, to);
      if target.Some? {
        out := [Outbound(SingleConnection(target.value), Payload.VoiceSignal(from, signal))];
      } else {
        out := [];
      }
    }

    /** `disconnect`: walk the registry in iteration order and delete the
        first entry bound to the closing connection; rooms are not touched. */
    method Disconnect(sender: ConnId)
      requires Valid()
      modifies this`sockets, this`socketOrder
      ensures Valid()
      ensures Reg() == R.Unregister(old(Reg()), sender)
    {
      var order, conn := socketOrder, sockets;
      var i := 0;
      while i < |order|
        invariant 0 <= i <= |order|
        invariant forall j :: 0 <= j < i ==> !R.BoundTo(conn, order[j], sender)
      {
        var userId := order[i];
        assert userId in order;
        if conn[userId] == sender {
          R.UnregisterRemovesFirst(Reg(), sender, i);
          R.UnregisterPreservesWf(Reg(), sender);
          sockets := conn - {userId};
          socketOrder := Without(order, userId);
          return;
        }
        i := i + 1;
      }
      assert R.FirstBound(order, conn, sender).None?;
      R.UnregisterPreservesWf(Reg(), sender);
    }
  }

  /** The first joiner creates the room with its language, gets the
      one-element membership list, and the matchmaker then offers the room. */
  method FirstJoinScenario()
  {
    var server := new Server();
    var a0 := D.Participant("A", "Alice", false);
    var out := server.JoinRoom("R1", D.User("A", "Alice"), "python");
    assert server.rooms["R1"] == D.Room([a0], "python");
    assert out == [Outbound(WholeRoom("R1"), ParticipantsUpdate([a0]))];
    var found := server.FindAvailableRoom("python");
    assert found == Some("R1");
  }

  /** A second user joins the room, both get the two-element list, and a
      ready toggle is broadcast to the whole room without changing the
      stored participants. */
  method SecondJoinScenario(server: Server)
    requires server.Valid()
    requires server.rooms == map["R1" := D.Room([D.Participant("A", "Alice", false)], "python")]
    modifies server
  {
    var a0 := D.Participant("A", "Alice", false);
    var b0 := D.Participant("B", "Bob", false);
    assert !D.HasUser([a0], "B");
    var out := server.JoinRoom("R1", D.User("B", "Bob"), "python");
    assert server.rooms["R1"].participants == [a0, b0];
    assert out == [Outbound(WholeRoom("R1"), ParticipantsUpdate([a0, b0]))];

    out := server.ReadyStateChanged("R1", "A", true);
    assert out == [Outbound(WholeRoom("R1"), UserReadyUpdate("A", true))];
    assert server.rooms["R1"].participants == [a0, b0];
  }

  /** From a room holding A and B: B leaves (A alone is told, then gets the
      new list); A leaves (the room is sent the empty list), the room is
      deleted and no longer offered. */
  method LeaveScenario(server: Server)
    requires server.Valid()
    requires server.rooms == map["R1" := D.Room([D.Participant("A", "Alice", false), D.Participant("B", "Bob", false)], "python")]
    modifies server
  {
    var a1 := D.Participant("A", "Alice", false);
    var b0 := D.Participant("B", "Bob", false);
    assert D.WithoutUser([a1, b0], "B") == [a1] by {
      assert [a1, b0][1..] == [b0];
    }
    var out := server.UserLeft("sock-b", "R1", "B", "Bob");
    assert out == [Outbound(RoomExceptSender("R1", "sock-b"), Payload.UserLeft("B", "Bob")),
                   Outbound(WholeRoom("R1"), ParticipantsUpdate([a1]))];

    assert D.WithoutUser([a1], "A") == [];
    out := server.UserLeft("sock-a", "R1", "A", "Alice");
    assert out == [Outbound(RoomExceptSender("R1", "sock-a"), Payload.UserLeft("A", "Alice")),
                   Outbound(WholeRoom("R1"), ParticipantsUpdate([]))];
    assert "R1" !in server.rooms;
    var found := server.FindAvailableRoom("python");
    assert found == None;
  }

  /** A voice signal reaches the connection registered for its target, and
      is dropped once that connection has closed. */
  method VoiceScenario()
  {
    var server := new Server();
    var out := server.VoiceJoin("sock-x", "R1", "u1");
    assert out == [Outbound(RoomExceptSender("R1", "sock-x"), VoiceUserJoined("u1"))];
    out := server.VoiceSignal("u1", "u2", "S");
    assert out == [Outbound(SingleConnection("sock-x"), Payload.VoiceSignal("u2", "S"))];
    server.Disconnect("sock-x");
    out := server.VoiceSignal("u1", "u2", "S");
    assert out == [];
  }
}
