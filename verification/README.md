# Room directory and connection registry of the socket-game server

This project models the core of the socket-game server (`index.ts`): a
real-time presence and signaling relay. Clients join named rooms, chat,
toggle a "ready" flag and negotiate peer-to-peer audio through the server.
The server keeps two process-wide tables:

- the **room directory** (`rooms`): room id → `{participants, language}`;
- the **connection registry** (`userSocketMap`): user id → connection id.

Every event handler runs to completion on Node's single event loop. So each
handler is modelled as one atomic, sequential step on these two tables. The
step also returns the outbound messages it emits, each tagged with its
audience: every other connection in the room (`socket.to(roomId)`), the
whole room (`io.to(roomId)`), or a single connection (`io.to(connId)`).

Layout:

- `common.dfy` (`Common`): identifiers, `Option`, `Distinct`, and `Without`.
  `Without` removes a key from an iteration order.
- `room_directory.dfy` (`RoomDirectory`): participants, rooms, the directory
  as a value, its invariant `Wf`, and the value-level meaning of `join-room`,
  `user-left` and `find-available-room`, with the lemmas about them.
- `connection_registry.dfy` (`ConnectionRegistry`): the registry as a value,
  its invariant, and the meaning of `voice-join`, the `voice-signal` lookup
  and the `disconnect` clean-up, with the lemmas about them.
- `events.dfy` (`Events`): outbound messages and audiences. `Scoped` states
  the broadcast discipline. Membership and ready snapshots go to the whole
  room. Chat, announcements, departures and voice arrivals go to everyone
  but the sender. Signaling goes to one connection.
- `socket_server.dfy` (`SocketServer`): the class `Server` holds the two
  tables as fields. It has one method per handler, and each method updates
  the fields in place, in the source's own steps. A mutating method states
  its new state as the matching function of the old state, keeps `Valid()`,
  and changes only the fields it `modifies`. A handler that only reads or
  relays has no `modifies` clause, so it provably changes nothing. Four
  scenario methods (`FirstJoinScenario`, `SecondJoinScenario`,
  `LeaveScenario`, `VoiceScenario`) are verified against concrete states of
  the intended session. Each asserts the broadcasts of every handler it
  calls and the stored state that results.

Iteration order is explicit. `Object.entries(rooms)` and
`userSocketMap.entries()` are modelled as a sequence of keys in insertion
order (`roomOrder`, `socketOrder`) kept alongside each map. A new key is
appended, and a deleted key is removed. `Map.set` on a key that is already
present keeps that key's place.

Two points where the model follows the code rather than the intended
design:

- `ready-state-changed` only broadcasts `user-ready-update` to the whole
  room (index.ts:57-64). A ready toggle might be expected to set the
  participant's `isReady`, but the handler never does. Every participant is
  admitted with `isReady = false`, and `JoinKeepsNoneReady` and
  `LeaveKeepsNoneReady` prove that `join-room` and `user-left` keep
  `NoneReady` (no stored participant is ready). `Server.ReadyStateChanged`
  has no `modifies` clause, so no stored participant is ever ready.
  `SecondJoinScenario` asserts that the stored list is unchanged.
- `voice-signal` tests the looked-up id for truthiness
  (`if (targetSocketId)`). An empty connection id is therefore treated
  like a missing entry, and the signal is dropped.

## Model

| member | source | states |
|---|---|---|
| RoomDirectory.HasUser | index.ts:77-79 | the `some` check: true exactly when some participant in the list carries the userId |
| RoomDirectory.Admit | index.ts:77-82 | after admission the joiner's userId is in the list; the list grows by one exactly when the userId was absent |
| RoomDirectory.AdmitDistinct | index.ts:77-82 | admission keeps userIds pairwise distinct |
| RoomDirectory.WithoutUser | index.ts:97-99 | the filtered list holds no entry of the leaving user; filtering out an unknown userId returns the list unchanged |
| RoomDirectory.WithoutUserMembers | index.ts:97-99 | the filter keeps exactly the participants of other users |
| RoomDirectory.WithoutUserDistinct | index.ts:97-99 | the filter keeps userIds pairwise distinct |
| RoomDirectory.WithoutUserConcat | index.ts:97-99 | the filter distributes over concatenation, so the kept participants stay in their original order |
| RoomDirectory.WithoutUserOccurrences | index.ts:97-99 | every entry of the leaving user is removed; every other user keeps its number of entries |
| RoomDirectory.JoinEffect | index.ts:70-82 | after `join-room` the room exists and holds the joiner; its language is the old one, or the joiner's if the room was just created; all other rooms are untouched |
| RoomDirectory.JoinPreservesWf | index.ts:70-82 | `join-room` keeps the invariant: the iteration order lists exactly the stored rooms, every room is non-empty, userIds are distinct |
| RoomDirectory.JoinInPlace | index.ts:70-82 | the in-place steps (create if absent, then push unless already joined) compute the same directory as `Join` |
| RoomDirectory.JoinExactlyOnce | index.ts:77-82 | after `join-room` the joiner's userId occurs exactly once in the room |
| RoomDirectory.JoinAppendOnly | index.ts:77-81 | a new joiner is appended last with isReady = false; earlier participants keep their order and fields; a repeated join leaves the list unchanged |
| RoomDirectory.JoinIdempotent | index.ts:70-82 | joining twice with the same userId equals joining once, whatever language the second request carries |
| RoomDirectory.LeaveEffect | index.ts:93-111 | an unknown room id changes nothing; otherwise the room is deleted exactly when no participant remains, a surviving room no longer holds the user and keeps its language, and all other rooms are untouched |
| RoomDirectory.LeavePreservesWf | index.ts:97-111 | `user-left` keeps the invariant; in particular no empty room survives |
| RoomDirectory.LeaveInPlace | index.ts:97-111 | reassigning the filtered list and then deleting the room if it is empty computes `Leave` |
| RoomDirectory.LeaveLastKeepsOrder | index.ts:108-110 | deleting an emptied room cuts its id out of the iteration order; the other rooms keep their relative order |
| RoomDirectory.JoinKeepsNoneReady | index.ts:77-82 | `join-room` admits with isReady = false, so if no stored participant was ready, none is afterwards |
| RoomDirectory.LeaveKeepsNoneReady | index.ts:97-111 | `user-left` only removes participants, so if no stored participant was ready, none is afterwards |
| RoomDirectory.LeaveUnknownUser | index.ts:97-111 | `user-left` with a userId not in the room leaves the directory exactly as it was |
| RoomDirectory.JoinThenLeave | index.ts:70-111 | `user-left` undoes a `join-room` that admitted a new participant, deleting again a room the join created |
| RoomDirectory.FindAvailable | index.ts:116-119 | a returned room is stored, has the queried language and fewer than 6 participants; none is returned exactly when no room in iteration order qualifies |
| RoomDirectory.FindAvailableFirst | index.ts:116-119 | the first qualifying room in iteration order is the one returned |
| RoomDirectory.FindNoneMeansNoRoom | index.ts:116-125 | on a well-formed directory, a null reply means no stored room has the language and spare capacity |
| RoomDirectory.LeaveLastThenFind | index.ts:108-119 | once the last participant has left, the room is gone and the matchmaker does not offer it |
| Common.Without | index.ts:109 | deleting a key from the iteration order leaves no occurrence of it and does not lengthen the order; that the kept keys stay in order is stated by `Common.WithoutAt` |
| Common.WithoutMembers | index.ts:109 | deleting a key keeps exactly the other keys, still distinct |
| Common.WithoutAt | index.ts:109 | deleting a key that occurs once removes exactly its position; the keys before and after it keep their relative order |
| ConnectionRegistry.RegisterEffect | index.ts:141 | after `userSocketMap.set` the user is bound to the calling connection and every other entry is unchanged |
| ConnectionRegistry.RegisterPreservesWf | index.ts:141 | `set` keeps one iteration-order slot per registered user |
| ConnectionRegistry.RegisterLastWriteWins | index.ts:141 | a second `set` for the same user replaces the first (last write wins) |
| ConnectionRegistry.Target | index.ts:147-148 | a delivery target exists exactly when the user is registered with a non-empty connection id, and it is that id |
| ConnectionRegistry.FirstBound | index.ts:160-161 | the entry found is bound to the closing connection; nothing is found exactly when no entry is |
| ConnectionRegistry.FirstBoundAt | index.ts:160-164 | the scan stops at the first entry in iteration order bound to the closing connection |
| ConnectionRegistry.UnregisterEffect | index.ts:160-166 | `disconnect` removes at most one entry, only one bound to the closing connection, and keeps every other binding |
| ConnectionRegistry.UnregisterPreservesWf | index.ts:160-166 | `disconnect` keeps the registry invariant |
| ConnectionRegistry.UnregisterRemovesFirst | index.ts:160-166 | `disconnect` deletes exactly the first bound entry and keeps the others in order |
| ConnectionRegistry.UnregisterKeepsOrder | index.ts:160-166 | on a well-formed registry, `disconnect` cuts the removed user out of the iteration order; every other user keeps its relative place |
| ConnectionRegistry.UnregisterUnknown | index.ts:160-166 | `disconnect` of a connection that no user is registered against changes nothing |
| ConnectionRegistry.RegisterThenUnregister | index.ts:140-166 | `disconnect` undoes the `voice-join` of a new user on a fresh connection |
| ConnectionRegistry.UnregisterKeepsSecondBinding | index.ts:160-166 | when one connection registered two users, `disconnect` removes only the first; the second stays bound to the closed connection |
| SocketServer.Server.constructor | index.ts:13-21 | the process starts with an empty directory and an empty registry |
| SocketServer.Server.SendMessage | index.ts:42-45 | the chat message is relayed to the other members of the room only; no state changes |
| SocketServer.Server.UserJoined | index.ts:50-55 | the announcement goes to the other members of the room only; no state changes |
| SocketServer.Server.ReadyStateChanged | index.ts:57-64 | emits `user-ready-update {userId, isReady}` to the whole room and changes neither table |
| SocketServer.Server.JoinRoom | index.ts:66-86 | the new directory is `Join` of the old one, the invariant is kept, the registry is untouched, and the room's new list is sent to the whole room |
| SocketServer.Server.UserLeft | index.ts:90-112 | an unknown room gives no output and no change; otherwise the new directory is `Leave` of the old one, `user-left` goes to the others and then the filtered list to the whole room |
| SocketServer.Server.FindAvailableRoom | index.ts:114-126 | replies with the first stored room in iteration order that has the language and fewer than 6 participants, or none if there is no such room; no state changes |
| SocketServer.Server.Offer | index.ts:128-130 | `{callerId, sdp}` is forwarded to the target connection only |
| SocketServer.Server.Answer | index.ts:132-134 | `{sdp}` is forwarded to the target connection only |
| SocketServer.Server.IceCandidate | index.ts:136-138 | `{candidate}` is forwarded to the target connection only |
| SocketServer.Server.VoiceJoin | index.ts:140-144 | the registry becomes `Register(old, userId, sender)`, rooms are untouched, and `voice-user-joined` goes to the other members |
| SocketServer.Server.VoiceSignal | index.ts:146-154 | delivers `{from, signal}` to exactly the registered connection of `to` when there is one, else emits nothing; no state changes |
| SocketServer.Server.Disconnect | index.ts:156-167 | the loop deletes the first registry entry bound to the closing connection (the registry becomes `Unregister(old, sender)`) and never touches rooms |

## Left out

- Server plumbing is left out because it is framework I/O: Express, the HTTP server, socket.io construction, CORS and port binding (index.ts:1-5, 23-32, 171-174).
- All `console.log` and `console.warn` output is left out. The dropped `voice-signal` is modelled as an empty output with no warning.
- socket.io's own group membership (`socket.join(roomId)` at index.ts:38, 68, 142) is not modelled. Audiences are abstract tags on outbound messages. `io.to(target)` with a connection id is modelled as delivery to that one connection, because each socket sits in a group named by its own id.
- The earlier `join-room` handler (index.ts:37-40) and the earlier `disconnect` handler (index.ts:47-49) are not modelled. The first passes the whole payload to `socket.join`, and the second only logs. Neither touches the directory or the registry.
- JavaScript's key order for plain objects is not modelled: integer-like keys come first in numeric order. The directory iterates in insertion order, and "first match" is stated relative to that order.
- Keys inherited from `Object.prototype` are not modelled. In the source, a room id such as `constructor` looks already present, but `rooms["constructor"].participants` is undefined. So `join-room` throws at the `.some` call (index.ts:77) and `user-left` throws at the `.filter` call (index.ts:97). In the model, the directory holds only the rooms that were created, and such an id is treated like any other.
- Malformed payloads are not modelled: a missing `user`, or a non-string id. The extra fields that `{...user}` copies are also dropped, so a participant is just userId, name and isReady.
- Opaque payloads are carried as strings and never inspected: chat messages, announced users, SDP, ICE candidates and voice signals.
- Concurrency is not modelled, because Node runs each handler atomically. The capacity race between `find-available-room` and a later `join-room` is not an invariant of the code. Capacity is checked only when the matchmaker replies, and `join-room` does not enforce it.
