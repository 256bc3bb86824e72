/**
 The connection registry: the server's `userSocketMap`, a table from a user's
 stable identity to the connection it last used for voice, with the
 value-level meaning of `voice-join`, the `voice-signal` lookup and the
 `disconnect` clean-up.

 A JavaScript `Map` iterates in insertion order, and `set` on a key that is
 already present keeps that key's place; `order` holds that iteration order.
 */
module ConnectionRegistry {
  import opened Common

  datatype Registry = Registry(conn: map<UserId, ConnId>, order: seq<UserId>)

  /** The registry invariant: `order` lists exactly the registered users, once each. */
  ghost predicate Wf(g: Registry)
  {
    (forall u :: u in g.conn <==> u in g.order) && Distinct(g.order)
  }

  /** `userId` is registered against connection `connId`. */
  predicate BoundTo(conn: map<UserId, ConnId>, userId: UserId, connId: ConnId)
  {
    userId in conn && conn[userId] == connId
  }

  /** `userSocketMap.set(userId, connId)`: a new user is appended to the
      iteration order, a known one keeps its place. */
  function Register(g: Registry, userId: UserId, connId: ConnId): Registry
  {
    Registry(g.conn[userId := connId], if userId in g.conn then g.order else g.order + [userId])
  }

  /** The `voice-signal` lookup `userSocketMap.get(to)` followed by the
      truthiness test `if (targetSocketId)`: a missing entry and an empty
      connection id both mean "no target". */
  function Target(conn: map<UserId, ConnId>, to: UserId): (r: Option<ConnId>)
    ensures r.Some? <==> to in conn && conn[to] != ""
    ensures r.Some? ==> BoundTo(conn, to, r.value)
  {
    if to in conn && conn[to] != "" then Some(conn[to]) else None
  }

  /** The first user, in iteration order, registered against `connId`. */
  function FirstBound(order: seq<UserId>, conn: map<UserId, ConnId>, connId: ConnId): (r: Option<UserId>)
    ensures r.Some? ==> r.value in order && BoundTo(conn, r.value, connId)
    ensures r.None? <==> forall i :: 0 <= i < |order| ==> !BoundTo(conn, order[i], connId)
  {
    if |order| == 0 then None
    else if BoundTo(conn, order[0], connId) then Some(order[0])
    else FirstBound(order[1..], conn, connId)
  }

  /** The registry after `disconnect` of connection `connId`: the first entry
      bound to it is deleted, if there is one. */
  function Unregister(g: Registry, connId: ConnId): Registry
  {
    match FirstBound(g.order, g.conn, connId)
    case None => g
    case Some(u) => Registry(g.conn - {u}, Without(g.order, u))
  }

  /** After `voice-join`, the user is bound to the calling connection and
      every other entry is as it was. */
  lemma RegisterEffect(g: Registry, userId: UserId, connId: ConnId)
    ensures var r := Register(g, userId, connId);
            && BoundTo(r.conn, userId, connId)
            && (forall u :: u != userId ==> (u in r.conn <==> u in g.conn))
            && (forall u :: u != userId && u in g.conn ==> r.conn[u] == g.conn[u])
  {
  }

  /** `voice-join` keeps the registry invariant. */
  lemma RegisterPreservesWf(g: Registry, userId: UserId, connId: ConnId)
    requires Wf(g)
    ensures Wf(Register(g, userId, connId))
  {
  }

  /** `disconnect` removes at most one entry, only one bound to the closing
      connection, and leaves every other binding as it was. */
  lemma UnregisterEffect(g: Registry, connId: ConnId)
    ensures var r := Unregister(g, connId);
            && r.conn.Keys <= g.conn.Keys && |g.conn.Keys - r.conn.Keys| <= 1
            && (forall u :: u in r.conn ==> r.conn[u] == g.conn[u])
            && (forall u :: u in g.conn && u !in r.conn ==> g.conn[u] == connId)
  {
  }

  /** `disconnect` keeps the registry invariant. */
  lemma UnregisterPreservesWf(g: Registry, connId: ConnId)
    requires Wf(g)
    ensures Wf(Unregister(g, connId))
  {
    match FirstBound(g.order, g.conn, connId)
    case None =>
    case Some(u) => WithoutMembers(g.order, u);
  }

  /** A second `voice-join` for the same user replaces the first: the
      registry keeps one entry per user, holding the latest connection. */
  lemma RegisterLastWriteWins(g: Registry, userId: UserId, c1: ConnId, c2: ConnId)
    ensures Register(Register(g, userId, c1), userId, c2) == Register(g, userId, c2)
  {
  }

  /** The first entry in iteration order that is bound to `connId` is the one
      that `FirstBound` picks. */
  lemma {:induction false} FirstBoundAt(order: seq<UserId>, conn: map<UserId, ConnId>, connId: ConnId, i: nat)
    requires i < |order| && BoundTo(conn, order[i], connId)
    requires forall j :: 0 <= j < i ==> !BoundTo(conn, order[j], connId)
    ensures FirstBound(order, conn, connId) == Some(order[i])
  {
    if i > 0 {
      FirstBoundAt(order[1..], conn, connId, i - 1);
    }
  }

  /** `disconnect` removes exactly the first entry bound to the closing
      connection and keeps the iteration order of the others. */
  lemma UnregisterRemovesFirst(g: Registry, connId: ConnId, i: nat)
    requires i < |g.order| && BoundTo(g.conn, g.order[i], connId)
    requires forall j :: 0 <= j < i ==> !BoundTo(g.conn, g.order[j], connId)
    ensures Unregister(g, connId) == Registry(g.conn - {g.order[i]}, Without(g.order, g.order[i]))
  {
    FirstBoundAt(g.order, g.conn, connId, i);
  }

  /** On a well-formed registry, `disconnect` cuts the removed user out of
      the iteration order and every other user keeps its relative place. */
  lemma UnregisterKeepsOrder(g: Registry, connId: ConnId, i: nat)
    requires Wf(g)
    requires i < |g.order| && BoundTo(g.conn, g.order[i], connId)
    requires forall j :: 0 <= j < i ==> !BoundTo(g.conn, g.order[j], connId)
    ensures Unregister(g, connId).order == g.order[..i] + g.order[i + 1..]
  {
    UnregisterRemovesFirst(g, connId, i);
    WithoutAt(g.order, i);
  }

  /** `disconnect` of a connection that no user is registered against
      changes nothing. */
  lemma UnregisterUnknown(g: Registry, connId: ConnId)
    requires Wf(g)
    requires forall u :: u in g.conn ==> g.conn[u] != connId
    ensures Unregister(g, connId) == g
  {
  }

  /** `disconnect` undoes the `voice-join` of a new user on a fresh
      connection: the registry is exactly as before. */
  lemma RegisterThenUnregister(g: Registry, userId: UserId, connId: ConnId)
    requires Wf(g) && userId !in g.conn
    requires forall u :: u in g.conn ==> g.conn[u] != connId
    ensures Unregister(Register(g, userId, connId), connId) == g
  {
    var r := Register(g, userId, connId);
    forall j | 0 <= j < |g.order| ensures !BoundTo(r.conn, r.order[j], connId) {
      assert r.order[j] == g.order[j] && g.order[j] in g.order;
    }
    FirstBoundAt(r.order, r.conn, connId, |g.order|);
    WithoutAppended(g.order, userId);
    assert r.conn - {userId} == g.conn;
  }

  /** Only one entry is removed per `disconnect`: when one connection was used
      to register two users, the later one stays registered against the
      closed connection. */
  lemma UnregisterKeepsSecondBinding()
    ensures var g := Register(Register(Registry(map[], []), "u1", "s1"), "u2", "s1");
            var r := Unregister(g, "s1");
            "u1" !in r.conn && BoundTo(r.conn, "u2", "s1")
  {
  }
}
