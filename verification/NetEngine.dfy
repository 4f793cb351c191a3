/** The engine's connection table: ring reads that pause a connection, polls that resume it. */
module NetEngine {
  import opened Bytes
  import opened BodyRing

  datatype Connection = Connection(paused: bool)

  datatype Status = Ok | Failure | NotRingBound

  class Engine {
    var connections: map<nat, Connection>
    var rings: map<nat, Ring>
    var bindings: map<nat, nat>      // connection id to ring id
    var registered: set<nat>         // connections the poller watches
    var nextConn: nat

    ghost function Memory(): set<object>
      reads this
    {
      (set id | id in rings :: rings[id] as object) + (set id | id in rings :: rings[id].data as object)
    }

    /** A connection is watched by the poller exactly when it is not paused. */
    ghost predicate Valid()
      reads this, Memory()
    {
      && (forall id :: id in rings ==> rings[id].Valid())
      && (forall i, j :: i in rings && j in rings && rings[i] != rings[j] ==> rings[i].data != rings[j].data)
      && (forall c :: c in connections ==> c < nextConn)
      && (forall c :: c in registered <==> c in connections && !connections[c].paused)
    }

    constructor ()
      ensures Valid() && connections == map[] && rings == map[] && bindings == map[]
    {
      connections, rings, bindings := map[], map[], map[];
      registered, nextConn := {}, 1;
    }

    /** `net_connect`, after the socket is open: a fresh id, watched from the start. */
    method Connect(registerOk: bool) returns (conn: nat, ok: bool)
      requires Valid()
      modifies this`connections, this`registered, this`nextConn
      ensures Valid() && ok == registerOk && conn !in old(connections)
      ensures connections == if ok then old(connections)[conn := Connection(false)] else old(connections)
    {
      conn, ok := nextConn, registerOk;
      nextConn := nextConn + 1;
      if ok {
        registered := registered + {conn};
        connections := connections[conn := Connection(false)];
      }
    }

    /** `net_close`: dropping the stream also ends its registration. */
    method Close(conn: nat) returns (r: Status)
      requires Valid()
      modifies this`connections, this`registered
      ensures Valid() && connections == old(connections) - {conn}
      ensures r == if conn in old(connections) then Ok else Failure
    {
      r := if conn in connections then Ok else Failure;
      connections := connections - {conn};
      registered := registered - {conn};
    }

    /** `net_body_ring_register`: a later registration under the same id replaces the first. */
    method RegisterRing(id: nat, ring: Ring)
      requires Valid() && ring.Valid()
      requires forall i :: i in rings && rings[i] != ring ==> rings[i].data != ring.data
      modifies this`rings
      ensures Valid() && rings == old(rings)[id := ring]
    {
      rings := rings[id := ring];
    }

    method UnregisterRing(id: nat)
      requires Valid()
      modifies this`rings
      ensures Valid() && rings == old(rings) - {id}
    {
      rings := rings - {id};
    }

    /** `net_conn_bind_body_ring` checks neither the connection nor the ring. */
    method Bind(conn: nat, id: nat)
      requires Valid()
      modifies this`bindings
      ensures Valid() && bindings == old(bindings)[conn := id]
    {
      bindings := bindings[conn := id];
    }

    predicate Bound(conn: nat)
      reads this
    {
      conn in bindings && bindings[conn] in rings
    }

    function RingOf(conn: nat): Ring
      reads this
      requires Bound(conn)
    {
      rings[bindings[conn]]
    }

    function Occupied(conn: nat): int
      reads this, if Bound(conn) then {RingOf(conn)} else {}
      requires Bound(conn)
    {
      RingOf(conn).head - RingOf(conn).tail
    }

    /**
     * `net_read` on a connection with a ring. The bytes delivered go to the ring in order; the
     * connection ends up paused if it was, or if the ring is now above the high watermark.
     */
    method NetRead(conn: nat, incoming: seq<byte>) returns (r: Status, ghost n: nat)
      requires Valid()
      modifies this`connections, this`registered
      modifies if Bound(conn) then {RingOf(conn), RingOf(conn).data} else {}
      ensures Valid()
      ensures r.NotRingBound? <==> !Bound(conn)
      ensures connections.Keys == old(connections.Keys)
      ensures forall c :: c in connections && c != conn ==> connections[c] == old(connections)[c]
      ensures r.Ok? ==>
                && conn in connections && 0 < n <= |incoming|
                && RingOf(conn).stream == old(RingOf(conn).stream) + incoming[..n]
                && connections[conn].paused ==
                   (old(connections[conn].paused) || 100 * Occupied(conn) > 95 * RingOf(conn).data.Length)
      ensures !r.Ok? ==> connections == old(connections) && n == 0
      ensures r.Failure? ==>
                && RingOf(conn).stream == old(RingOf(conn).stream)
                && (conn !in connections || incoming == [] || Occupied(conn) == RingOf(conn).data.Length)
    {
      n := 0;
      if !Bound(conn) {
        return NotRingBound, 0;
      }
      if conn !in connections {
        return Failure, 0;
      }
      var ring := rings[bindings[conn]];
      var got := ring.Receive(incoming);
      if got == 0 {
        assert incoming[..got] == [];
        return Failure, 0;
      }
      ring.Interfere();
      WatermarksInFull(ring.head - ring.tail, ring.data.Length);
      if ShouldStop(ring.head - ring.tail, ring.data.Length) {
        registered := registered - {conn};
        connections := connections[conn := Connection(true)];
      }
      return Ok, got;
    }

    /** A ring below the low watermark of half its capacity, rounded down; consumers can only make it so, never undo it. */
    predicate Low(id: nat)
      reads this, if id in rings then {rings[id]} else {}
    {
      id in rings && 2 * (rings[id].head - rings[id].tail) + 2 <= rings[id].data.Length
    }

    /** One turn of the loop in `poll`: resume this connection if its ring has drained enough. */
    method Visit(conn: nat)
      requires Valid() && conn in bindings
      modifies this`connections, this`registered, (if Bound(conn) then {RingOf(conn)} else {})`tail
      ensures Valid() && connections.Keys == old(connections.Keys)
      ensures forall c :: c in connections && c != conn ==> connections[c] == old(connections)[c]
      ensures forall id :: old(Low(id)) ==> Low(id)
      ensures conn in connections ==>
                connections[conn].paused == (old(connections)[conn].paused && !Low(bindings[conn]))
    {
      if conn in connections && connections[conn].paused && bindings[conn] in rings {
        var ring := rings[bindings[conn]];
        ring.Interfere();
        WatermarksInFull(ring.head - ring.tail, ring.data.Length);
        if ShouldResume(ring.head - ring.tail, ring.data.Length) {
          registered := registered + {conn};
          connections := connections[conn := Connection(false)];
        }
      }
    }

    /**
     * The first part of `poll`, with consumers releasing bytes at any moment. A paused
     * connection whose ring is below the low watermark on entry is resumed; only paused
     * connections whose ring is below it on return are; nothing else changes. In particular a
     * paused connection stays paused when its ring is no longer registered.
     */
    method Poll()
      requires Valid()
      modifies this`connections, this`registered, (set id | id in rings :: rings[id])`tail
      ensures Valid() && connections.Keys == old(connections.Keys)
      ensures forall c :: c in connections && connections[c] != old(connections)[c] ==>
                            old(connections)[c].paused && c in bindings && Low(bindings[c])
      ensures forall c :: c in connections && c in bindings && old(Low(bindings[c])) ==> !connections[c].paused
      ensures forall c :: c in connections && !Bound(c) ==> connections[c] == old(connections)[c]
    {
      var todo := bindings.Keys;
      while todo != {}
        invariant Valid() && connections.Keys == old(connections.Keys) && todo <= bindings.Keys
        invariant forall id :: old(Low(id)) ==> Low(id)
        invariant forall c :: c in connections && c in todo ==> connections[c] == old(connections)[c]
        invariant forall c :: c in connections && connections[c] != old(connections)[c] ==>
                                old(connections)[c].paused && c in bindings && Low(bindings[c])
        invariant forall c :: c in connections && c in bindings - todo && old(Low(bindings[c])) ==>
                                !connections[c].paused
        decreases todo
      {
        var conn :| conn in todo;
        todo := todo - {conn};
        Visit(conn);
      }
    }
  }
}
