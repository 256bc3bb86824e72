/**
 The room directory: the server's table from room id to room (participants and
 language), with the value-level meaning of the `join-room`, `user-left` and
 `find-available-room` handlers and the invariants they keep.

 The directory's iteration order (what `Object.entries(rooms)` walks) is kept
 explicitly as `order`, the room ids in insertion order.
 */
module RoomDirectory {
  import opened Common

  /** Rooms with this many participants are not offered by the matchmaker. */
  const Capacity: nat := 6

  /** A user's membership record within one room. */
  datatype Participant = Participant(userId: UserId, name: string, isReady: bool)

  /** The `user` object carried by a `join-room` request. */
  datatype User = User(userId: UserId, name: string)

  datatype Room = Room(participants: seq<Participant>, language: Language)

  datatype Directory = Directory(rooms: map<RoomId, Room>, order: seq<RoomId>)

  /** No userId occurs twice in a participant list. */
  predicate DistinctUsers(ps: seq<Participant>)
  {
    forall i, j :: 0 <= i < j < |ps| ==> ps[i].userId != ps[j].userId
  }

  /** What every stored room satisfies: it is not empty and its userIds are distinct. */
  predicate RoomOk(room: Room)
  {
    |room.participants| > 0 && DistinctUsers(room.participants)
  }

  /** The directory invariant: `order` lists exactly the stored room ids, once
      each, and every stored room is non-empty with distinct userIds. */
  ghost predicate Wf(d: Directory)
  {
    && (forall id :: id in d.rooms <==> id in d.order)
    && Distinct(d.order)
    && (forall id :: id in d.rooms ==> RoomOk(d.rooms[id]))
  }

  /** No stored participant is marked ready. The handlers never set `isReady`
      after admission, so this holds of every reachable directory. */
  predicate NoneReady(d: Directory)
  {
    forall id, p :: id in d.rooms && p in d.rooms[id].participants ==> !p.isReady
  }

  /** The `participants.some(u => u.userId === userId)` membership test. */
  function HasUser(ps: seq<Participant>, userId: UserId): (r: bool)
    ensures r <==> exists i :: 0 <= i < |ps| && ps[i].userId == userId
  {
    if |ps| == 0 then false
    else ps[0].userId == userId || HasUser(ps[1..], userId)
  }

  /** How many entries of `ps` carry `userId`. */
  function Occurrences(ps: seq<Participant>, userId: UserId): nat
  {
    if |ps| == 0 then 0
    else (if ps[0].userId == userId then 1 else 0) + Occurrences(ps[1..], userId)
  }

  /** Admission of a joiner: appended with isReady = false unless its userId is
      already in the list. */
  function Admit(ps: seq<Participant>, user: User): (r: seq<Participant>)
    ensures HasUser(r, user.userId)
    ensures |r| == if HasUser(ps, user.userId) then |ps| else |ps| + 1
  {
    if HasUser(ps, user.userId) then ps
    else
      var r := ps + [Participant(user.userId, user.name, false)];
      assert r[|ps|].userId == user.userId;
      r
  }

  /** The `participants.filter(p => p.userId !== userId)` of `user-left`. */
  function WithoutUser(ps: seq<Participant>, userId: UserId): (r: seq<Participant>)
    ensures !HasUser(r, userId) && |r| <= |ps|
    ensures !HasUser(ps, userId) ==> r == ps
  {
    if |ps| == 0 then []
    else if ps[0].userId == userId then WithoutUser(ps[1..], userId)
    else [ps[0]] + WithoutUser(ps[1..], userId)
  }

  /** The directory after `join-room(roomId, user, language)`: the room is
      created with the joiner's language when its id is absent (appended to
      the iteration order), then the joiner is admitted. */
  function Join(d: Directory, roomId: RoomId, user: User, language: Language): Directory
  {
    var room := if roomId in d.rooms then d.rooms[roomId] else Room([], language);
    var order := if roomId in d.rooms then d.order else d.order + [roomId];
    Directory(d.rooms[roomId := room.(participants := Admit(room.participants, user))], order)
  }

  /** The directory after `user-left(roomId, userId)`: nothing for an unknown
      room; otherwise the user's entries are filtered out and a room left
      empty is deleted. */
  function Leave(d: Directory, roomId: RoomId, userId: UserId): Directory
  {
    if roomId !in d.rooms then d
    else
      var remaining := WithoutUser(d.rooms[roomId].participants, userId);
      if |remaining| == 0 then Directory(d.rooms - {roomId}, Without(d.order, roomId))
      else Directory(d.rooms[roomId := d.rooms[roomId].(participants := remaining)], d.order)
  }

  /** The matchmaker's test: the room exists, has the queried language and
      fewer than Capacity participants. */
  predicate Available(rooms: map<RoomId, Room>, language: Language, id: RoomId)
  {
    id in rooms && rooms[id].language == language && |rooms[id].participants| < Capacity
  }

  /** The `Object.entries(rooms).find(...)` scan of `find-available-room`. */
  function FindAvailable(order: seq<RoomId>, rooms: map<RoomId, Room>, language: Language): (r: Option<RoomId>)
    ensures r.Some? ==> r.value in order && Available(rooms, language, r.value)
    ensures r.None? <==> forall i :: 0 <= i < |order| ==> !Available(rooms, language, order[i])
  {
    if |order| == 0 then None
    else if Available(rooms, language, order[0]) then Some(order[0])
    else FindAvailable(order[1..], rooms, language)
  }

  // ---------------------------------------------------------------------------
  // Participant lists

  /** In a list with distinct userIds, a userId occurs once if present and
      not at all otherwise. */
  lemma {:induction false} OccurrencesDistinct(ps: seq<Participant>, userId: UserId)
    requires DistinctUsers(ps)
    ensures Occurrences(ps, userId) == if HasUser(ps, userId) then 1 else 0
  {
    if |ps| > 0 {
      assert DistinctUsers(ps[1..]) by {
        forall i, j | 0 <= i < j < |ps[1..]| ensures ps[1..][i].userId != ps[1..][j].userId {
          assert ps[1..][i] == ps[i + 1] && ps[1..][j] == ps[j + 1];
        }
      }
      OccurrencesDistinct(ps[1..], userId);
      if ps[0].userId == userId {
        assert !HasUser(ps[1..], userId) by {
          forall i | 0 <= i < |ps[1..]| ensures ps[1..][i].userId != userId {
            assert ps[1..][i] == ps[i + 1];
          }
        }
      }
    }
  }

  /** Admission keeps userIds distinct. */
  lemma AdmitDistinct(ps: seq<Participant>, user: User)
    requires DistinctUsers(ps)
    ensures DistinctUsers(Admit(ps, user))
  {
  }

  /** Filtering keeps exactly the entries of other users. */
  lemma {:induction false} WithoutUserMembers(ps: seq<Participant>, userId: UserId)
    ensures forall p :: p in WithoutUser(ps, userId) <==> p in ps && p.userId != userId
  {
    if |ps| > 0 {
      WithoutUserMembers(ps[1..], userId);
    }
  }

  /** Filtering keeps userIds distinct. */
  lemma {:induction false} WithoutUserDistinct(ps: seq<Participant>, userId: UserId)
    requires DistinctUsers(ps)
    ensures DistinctUsers(WithoutUser(ps, userId))
  {
    if |ps| > 0 {
      forall i, j | 0 <= i < j < |ps[1..]| ensures ps[1..][i].userId != ps[1..][j].userId {
        assert ps[1..][i] == ps[i + 1] && ps[1..][j] == ps[j + 1];
      }
      WithoutUserDistinct(ps[1..], userId);
      if ps[0].userId != userId {
        var w := WithoutUser(ps[1..], userId);
        WithoutUserMembers(ps[1..], userId);
        assert WithoutUser(ps, userId) == [ps[0]] + w;
        forall i, j | 0 <= i < j < |[ps[0]] + w| ensures ([ps[0]] + w)[i].userId != ([ps[0]] + w)[j].userId {
          assert ([ps[0]] + w)[j] == w[j - 1] && w[j - 1] in w;
          if i > 0 {
            assert ([ps[0]] + w)[i] == w[i - 1];
          } else {
            var k :| 0 <= k < |ps[1..]| && ps[1..][k] == w[j - 1];
            assert ps[1..][k] == ps[k + 1];
          }
        }
      }
    }
  }

  /** Filtering distributes over concatenation: the kept participants stay in
      their original relative order. */
  lemma {:induction false} WithoutUserConcat(a: seq<Participant>, b: seq<Participant>, userId: UserId)
    ensures WithoutUser(a + b, userId) == WithoutUser(a, userId) + WithoutUser(b, userId)
  {
    if |a| == 0 {
      assert a + b == b;
    } else {
      assert (a + b)[0] == a[0];
      assert (a + b)[1..] == a[1..] + b;
      WithoutUserConcat(a[1..], b, userId);
    }
  }

  /** Filtering removes every entry of the leaving user and keeps every entry
      of any other user. */
  lemma {:induction false} WithoutUserOccurrences(ps: seq<Participant>, userId: UserId, other: UserId)
    ensures Occurrences(WithoutUser(ps, userId), userId) == 0
    ensures other != userId ==> Occurrences(WithoutUser(ps, userId), other) == Occurrences(ps, other)
  {
    if |ps| > 0 {
      WithoutUserOccurrences(ps[1..], userId, other);
      if ps[0].userId != userId {
        assert ([ps[0]] + WithoutUser(ps[1..], userId))[1..] == WithoutUser(ps[1..], userId);
      }
    }
  }

  // ---------------------------------------------------------------------------
  // join-room

  /** After `join-room` the room exists and holds the joiner; its language is
      the one it already had, or the joiner's when it was just created; every
      other room is untouched. */
  lemma JoinEffect(d: Directory, roomId: RoomId, user: User, language: Language)
    ensures var r := Join(d, roomId, user, language);
            && roomId in r.rooms && HasUser(r.rooms[roomId].participants, user.userId)
            && r.rooms[roomId].language == (if roomId in d.rooms then d.rooms[roomId].language else language)
            && (forall id :: id != roomId ==> (id in r.rooms <==> id in d.rooms))
            && (forall id :: id != roomId && id in d.rooms ==> r.rooms[id] == d.rooms[id])
  {
  }

  /** `join-room` keeps the directory invariant. */
  lemma JoinPreservesWf(d: Directory, roomId: RoomId, user: User, language: Language)
    requires Wf(d)
    ensures Wf(Join(d, roomId, user, language))
  {
    var r := Join(d, roomId, user, language);
    if roomId in d.rooms {
      AdmitDistinct(d.rooms[roomId].participants, user);
    } else {
      assert roomId !in d.order;
      forall i, j | 0 <= i < j < |r.order| ensures r.order[i] != r.order[j] {
        if j == |d.order| {
          assert r.order[i] == d.order[i];
          assert d.order[i] in d.order;
        }
      }
      assert DistinctUsers([]);
    }
  }

  /** The in-place steps of `join-room` (create the room if absent, then push
      the joiner unless already present) compute `Join` and keep the
      invariant. */
  lemma JoinInPlace(d: Directory, roomId: RoomId, user: User, language: Language)
    requires Wf(d)
    ensures var rooms := if roomId in d.rooms then d.rooms else d.rooms[roomId := Room([], language)];
            var order := if roomId in d.rooms then d.order else d.order + [roomId];
            var room := rooms[roomId];
            var joiner := Participant(user.userId, user.name, false);
            && Wf(Join(d, roomId, user, language))
            && Join(d, roomId, user, language) ==
                 if HasUser(room.participants, user.userId) then Directory(rooms, order)
                 else Directory(rooms[roomId := room.(participants := room.participants + [joiner])], order)
  {
    JoinPreservesWf(d, roomId, user, language);
    if roomId in d.rooms && HasUser(d.rooms[roomId].participants, user.userId) {
      assert d.rooms[roomId := d.rooms[roomId]] == d.rooms;
    }
  }

  /** After `join-room`, the joiner's userId occurs exactly once in the room. */
  lemma JoinExactlyOnce(d: Directory, roomId: RoomId, user: User, language: Language)
    requires Wf(d)
    ensures Occurrences(Join(d, roomId, user, language).rooms[roomId].participants, user.userId) == 1
  {
    JoinPreservesWf(d, roomId, user, language);
    OccurrencesDistinct(Join(d, roomId, user, language).rooms[roomId].participants, user.userId);
  }

  /** A new joiner is appended at the end with isReady = false; everything
      already in the room keeps its place and fields; a repeated join leaves
      the list as it was. */
  lemma JoinAppendOnly(d: Directory, roomId: RoomId, user: User, language: Language)
    requires roomId in d.rooms
    ensures var before := d.rooms[roomId].participants;
            var after := Join(d, roomId, user, language).rooms[roomId].participants;
            && |before| <= |after|
            && after[..|before|] == before
            && (HasUser(before, user.userId) ==> after == before)
            && (!HasUser(before, user.userId) ==>
                  |after| == |before| + 1 && after[|before|] == Participant(user.userId, user.name, false))
  {
  }

  /** `join-room` admits with isReady = false, so no participant becomes ready. */
  lemma JoinKeepsNoneReady(d: Directory, roomId: RoomId, user: User, language: Language)
    requires NoneReady(d)
    ensures NoneReady(Join(d, roomId, user, language))
  {
  }

  /** Joining twice with the same userId is the same as joining once, whatever
      language the second request carries. */
  lemma JoinIdempotent(d: Directory, roomId: RoomId, user: User, language: Language, language': Language)
    ensures Join(Join(d, roomId, user, language), roomId, user, language') == Join(d, roomId, user, language)
  {
  }

  // ---------------------------------------------------------------------------
  // user-left

  /** After `user-left` on a known room, the room is deleted exactly when no
      participant remains; a surviving room no longer holds the user and keeps
      its language; every other room is untouched. An unknown room id
      changes nothing. */
  lemma LeaveEffect(d: Directory, roomId: RoomId, userId: UserId)
    ensures var r := Leave(d, roomId, userId);
            && (roomId !in d.rooms ==> r == d)
            && (roomId in d.rooms ==> (roomId in r.rooms <==> WithoutUser(d.rooms[roomId].participants, userId) != []))
            && (roomId in r.rooms ==> !HasUser(r.rooms[roomId].participants, userId)
                                      && r.rooms[roomId].language == d.rooms[roomId].language)
            && (forall id :: id != roomId ==> (id in r.rooms <==> id in d.rooms))
            && (forall id :: id != roomId && id in d.rooms ==> r.rooms[id] == d.rooms[id])
  {
  }

  /** `user-left` keeps the directory invariant; in particular, no empty room
      survives it. */
  lemma LeavePreservesWf(d: Directory, roomId: RoomId, userId: UserId)
    requires Wf(d)
    ensures Wf(Leave(d, roomId, userId))
  {
    if roomId in d.rooms {
      var ps := d.rooms[roomId].participants;
      WithoutUserDistinct(ps, userId);
      if |WithoutUser(ps, userId)| == 0 {
        WithoutMembers(d.order, roomId);
      }
    }
  }

  /** The two in-place steps of `user-left` on a known room (reassign the
      filtered list, then delete the room if it became empty) compute `Leave`
      and keep the invariant. */
  lemma LeaveInPlace(d: Directory, roomId: RoomId, userId: UserId)
    requires Wf(d) && roomId in d.rooms
    ensures var room := d.rooms[roomId];
            var remaining := WithoutUser(room.participants, userId);
            var rooms := d.rooms[roomId := room.(participants := remaining)];
            && Wf(Leave(d, roomId, userId))
            && Leave(d, roomId, userId) == if |remaining| == 0 then Directory(rooms - {roomId}, Without(d.order, roomId))
                                           else Directory(rooms, d.order)
  {
    var remaining := WithoutUser(d.rooms[roomId].participants, userId);
    if |remaining| == 0 {
      assert d.rooms[roomId := d.rooms[roomId].(participants := remaining)] - {roomId} == d.rooms - {roomId};
    }
    LeavePreservesWf(d, roomId, userId);
  }

  /** `user-left` only removes participants, so no participant becomes ready. */
  lemma LeaveKeepsNoneReady(d: Directory, roomId: RoomId, userId: UserId)
    requires NoneReady(d)
    ensures NoneReady(Leave(d, roomId, userId))
  {
    if roomId in d.rooms {
      WithoutUserMembers(d.rooms[roomId].participants, userId);
    }
  }

  /** When `user-left` deletes a room, the room id is cut out of the iteration
      order and the other rooms keep their relative order. */
  lemma LeaveLastKeepsOrder(d: Directory, roomId: RoomId, userId: UserId, k: nat)
    requires Wf(d) && roomId in d.rooms && k < |d.order| && d.order[k] == roomId
    requires WithoutUser(d.rooms[roomId].participants, userId) == []
    ensures Leave(d, roomId, userId).order == d.order[..k] + d.order[k + 1..]
  {
    WithoutAt(d.order, k);
  }

  /** `user-left` with a userId that is not in the room changes nothing. */
  lemma LeaveUnknownUser(d: Directory, roomId: RoomId, userId: UserId)
    requires Wf(d) && roomId in d.rooms && !HasUser(d.rooms[roomId].participants, userId)
    ensures Leave(d, roomId, userId) == d
  {
  }

  /** `user-left` undoes a `join-room` that admitted a new participant: the
      participant is removed again and a room the join created is deleted
      again, so the directory is exactly as before. */
  lemma JoinThenLeave(d: Directory, roomId: RoomId, user: User, language: Language)
    requires Wf(d)
    requires roomId in d.rooms ==> !HasUser(d.rooms[roomId].participants, user.userId)
    ensures Leave(Join(d, roomId, user, language), roomId, user.userId) == d
  {
    var joiner := Participant(user.userId, user.name, false);
    var j := Join(d, roomId, user, language);
    if roomId in d.rooms {
      var room := d.rooms[roomId];
      WithoutUserConcat(room.participants, [joiner], user.userId);
      assert WithoutUser([joiner], user.userId) == [];
      assert WithoutUser(j.rooms[roomId].participants, user.userId) == room.participants;
      assert j.rooms[roomId := room] == d.rooms;
    } else {
      assert roomId !in d.order;
      WithoutAppended(d.order, roomId);
      assert j.rooms - {roomId} == d.rooms;
    }
  }

  // ---------------------------------------------------------------------------
  // find-available-room

  /** The matchmaker returns the FIRST available room in iteration order. */
  lemma {:induction false} FindAvailableFirst(order: seq<RoomId>, rooms: map<RoomId, Room>, language: Language, i: nat)
    requires i < |order| && Available(rooms, language, order[i])
    requires forall j :: 0 <= j < i ==> !Available(rooms, language, order[j])
    ensures FindAvailable(order, rooms, language) == Some(order[i])
  {
    if i > 0 {
      FindAvailableFirst(order[1..], rooms, language, i - 1);
    }
  }

  /** On a well-formed directory, "none" means no stored room at all has the
      language and spare capacity. */
  lemma FindNoneMeansNoRoom(d: Directory, language: Language)
    requires Wf(d) && FindAvailable(d.order, d.rooms, language).None?
    ensures forall id :: id in d.rooms ==> !Available(d.rooms, language, id)
  {
  }

  /** Once the last participant has left, the matchmaker no longer offers
      the room. */
  lemma LeaveLastThenFind(d: Directory, roomId: RoomId, userId: UserId, language: Language)
    requires roomId in d.rooms && WithoutUser(d.rooms[roomId].participants, userId) == []
    ensures var r := Leave(d, roomId, userId);
            roomId !in r.rooms && FindAvailable(r.order, r.rooms, language) != Some(roomId)
  {
  }
}
