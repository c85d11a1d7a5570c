/** The adapter's membership index as a value, and what `add`, `del` and
    `delAll` do to it.

    The adapter keeps two plain objects: `rooms`, from a room name to its
    Room, and `sids`, from a socket id to the set of room names it is in.
    `Index` is a snapshot of both: each room by its member ids (in the order
    `Object.keys` reports them), each socket by its room names, and the order
    in which the keys of `sids` were created (which `Object.keys(this.sids)`
    reports, and a broadcast to everyone walks). */
module Membership {
  import opened Rooms

  datatype Index = Index(
    rooms: map<string, seq<string>>,
    sids: map<string, set<string>>,
    sidOrder: seq<string>)

  /** A freshly constructed adapter. */
  const Empty := Index(map[], map[], [])

  /** Every room recorded for a socket exists and has the socket as a member. */
  ghost predicate SidsInRooms(ix: Index) {
    forall id, room :: id in ix.sids && room in ix.sids[id] ==>
      room in ix.rooms && id in ix.rooms[room]
  }

  /** Every member of a stored room has that room recorded. */
  ghost predicate RoomsInSids(ix: Index) {
    forall room, id :: room in ix.rooms && id in ix.rooms[room] ==>
      id in ix.sids && room in ix.sids[id]
  }

  /** No stored room is empty, and no room lists a member twice. */
  ghost predicate RoomsWellFormed(rooms: map<string, seq<string>>) {
    forall room :: room in rooms ==> rooms[room] != [] && Distinct(rooms[room])
  }

  /** The key order lists each key of sids exactly once. */
  ghost predicate OrderMatches(ix: Index) {
    Distinct(ix.sidOrder) && forall id :: id in ix.sids <==> id in ix.sidOrder
  }

  /** The invariants the three membership operations keep: the two maps
      agree in both directions (a room is recorded for a socket exactly when
      the socket is a member of that room), no stored room is empty, so its
      counter is at least one, and the key order matches sids. */
  ghost predicate Consistent(ix: Index) {
    SidsInRooms(ix) && RoomsInSids(ix) && RoomsWellFormed(ix.rooms) && OrderMatches(ix)
  }

  /** The room names of `id`, or none for an id the adapter does not know. */
  function RoomsOf(ix: Index, id: string): set<string> {
    if id in ix.sids then ix.sids[id] else {}
  }

  /** The key order after `this.sids[id] = this.sids[id] || {}`. */
  function Touched(order: seq<string>, sids: map<string, set<string>>, id: string): seq<string> {
    if id in sids then order else order + [id]
  }

  /** The rooms after `this.rooms[room] = this.rooms[room] || new Room();
      this.rooms[room].add(id)`. */
  function Enter(rooms: map<string, seq<string>>, id: string, room: string): map<string, seq<string>>
  {
    rooms[room := Added(if room in rooms then rooms[room] else [], id)]
  }

  /** `add(id, room)`: record the room for the id, create the room if it is
      absent, and add the id to it. */
  function Join(ix: Index, id: string, room: string): Index
  {
    Index(
      Enter(ix.rooms, id, room),
      ix.sids[id := RoomsOf(ix, id) + {room}],
      Touched(ix.sidOrder, ix.sids, id))
  }

  /** The rooms after taking `id` out of every room named in `targets` and
      dropping those it left empty; other rooms are kept as they are. */
  function Evict(rooms: map<string, seq<string>>, id: string, targets: set<string>): (r: map<string, seq<string>>)
    ensures r.Keys <= rooms.Keys
    ensures forall room :: room in rooms && room !in targets ==> room in r && r[room] == rooms[room]
    ensures forall room :: room in r && room in targets ==> r[room] == Without(rooms[room], id)
    ensures forall room :: room in rooms && room in targets ==>
      (room !in r <==> Without(rooms[room], id) == [])
  {
    map room | room in rooms && (room !in targets || Without(rooms[room], id) != []) ::
      if room in targets then Without(rooms[room], id) else rooms[room]
  }

  /** `del(id, room)`: forget the room for the id (creating an empty entry
      for an unknown id), take the id out of the room if the room exists, and
      drop the room when that left it empty. */
  function Leave(ix: Index, id: string, room: string): Index
  {
    Index(Evict(ix.rooms, id, {room}), ix.sids[id := RoomsOf(ix, id) - {room}], Touched(ix.sidOrder, ix.sids, id))
  }

  /** A sequence is empty exactly when nothing is in it. */
  lemma EmptyIffNoMember(s: seq<string>)
    ensures s == [] <==> forall x :: x !in s
  {
    if s != [] {
      assert s[0] in s;
    }
  }

  /** Evicting room by room: one more room after a set of others. */
  lemma EvictStep(rooms: map<string, seq<string>>, id: string, done: set<string>, room: string)
    requires room !in done
    ensures Evict(Evict(rooms, id, done), id, {room}) == Evict(rooms, id, done + {room})
  {
    var a := Evict(Evict(rooms, id, done), id, {room});
    var b := Evict(rooms, id, done + {room});
    assert a.Keys == b.Keys;
    forall k | k in a ensures a[k] == b[k] {
    }
  }

  /** Evicting from one room is an update of that room, or its removal
      when the id was its last member. */
  lemma EvictOne(rooms: map<string, seq<string>>, id: string, room: string)
    ensures room !in rooms ==> Evict(rooms, id, {room}) == rooms
    ensures room in rooms ==>
      Evict(rooms, id, {room}) ==
        if Without(rooms[room], id) == [] then rooms - {room}
        else rooms[room := Without(rooms[room], id)]
  {
    var r := Evict(rooms, id, {room});
    if room !in rooms {
      assert r.Keys == rooms.Keys;
    } else if Without(rooms[room], id) == [] {
      assert r.Keys == (rooms - {room}).Keys;
    } else {
      assert r.Keys == rooms.Keys;
    }
  }

  /** Only the targets that name stored rooms matter. */
  lemma EvictAgree(rooms: map<string, seq<string>>, id: string, d1: set<string>, d2: set<string>)
    requires forall t :: t in rooms ==> (t in d1 <==> t in d2)
    ensures Evict(rooms, id, d1) == Evict(rooms, id, d2)
  {
    var a := Evict(rooms, id, d1);
    var b := Evict(rooms, id, d2);
    assert a.Keys == b.Keys;
  }

  /** `delAll(id)`: take the id out of every room it is recorded in, drop
      the rooms that leaves empty, then delete its entry from sids. */
  function LeaveAll(ix: Index, id: string): Index
  {
    Index(Evict(ix.rooms, id, RoomsOf(ix, id)), ix.sids - {id}, Without(ix.sidOrder, id))
  }

  /** What `add` does: the room is recorded for the id and has the id as a
      member, a new room has only the id, and nothing else changes. */
  lemma JoinEffect(ix: Index, id: string, room: string)
    ensures var r := Join(ix, id, room);
      && id in r.sids && room in r.sids[id]
      && room in r.rooms && id in r.rooms[room]
      && r.rooms.Keys == ix.rooms.Keys + {room} && r.sids.Keys == ix.sids.Keys + {id}
      && (room !in ix.rooms ==> r.rooms[room] == [id])
      && (room in ix.rooms ==> forall x :: x in r.rooms[room] <==> x in ix.rooms[room] || x == id)
      && r.sids[id] == RoomsOf(ix, id) + {room}
      && (forall other :: other in ix.rooms && other != room ==> r.rooms[other] == ix.rooms[other])
      && (forall other :: other in ix.sids && other != id ==> r.sids[other] == ix.sids[other])
  {
  }

  /** What `del` does: the room is no longer recorded for the id (which now
      has an entry), the id is no longer a member, the room disappears
      exactly when the id was its only member, and nothing else changes. */
  lemma LeaveEffect(ix: Index, id: string, room: string)
    ensures var r := Leave(ix, id, room);
      && id in r.sids && room !in r.sids[id]
      && r.sids[id] == RoomsOf(ix, id) - {room}
      && r.sids.Keys == ix.sids.Keys + {id}
      && (room in r.rooms ==> room in ix.rooms && id !in r.rooms[room])
      && (room in ix.rooms ==> (room !in r.rooms <==> forall x :: x in ix.rooms[room] ==> x == id))
      && (room in r.rooms ==> forall x :: x in r.rooms[room] <==> x in ix.rooms[room] && x != id)
      && (room !in ix.rooms ==> r.rooms == ix.rooms)
      && (forall other :: other != room ==>
            (other in r.rooms <==> other in ix.rooms) && (other in r.rooms ==> r.rooms[other] == ix.rooms[other]))
      && (forall other :: other in ix.sids && other != id ==> r.sids[other] == ix.sids[other])
  {
    EmptyIffNoMember(Without(if room in ix.rooms then ix.rooms[room] else [], id));
  }

  /** What `delAll` does: the id loses its entry and its place in the key
      order, its rooms lose it as a member and disappear when it was their
      only member, and the other rooms are untouched. */
  lemma LeaveAllEffect(ix: Index, id: string)
    ensures var r := LeaveAll(ix, id);
      && id !in r.sids && r.sids == ix.sids - {id} && id !in r.sidOrder
      && r.rooms.Keys <= ix.rooms.Keys
      && (forall room :: room in ix.rooms && room !in RoomsOf(ix, id) ==>
            room in r.rooms && r.rooms[room] == ix.rooms[room])
      && (forall room :: room in r.rooms && room in RoomsOf(ix, id) ==>
            forall x :: x in r.rooms[room] <==> x in ix.rooms[room] && x != id)
      && (forall room :: room in ix.rooms && room in RoomsOf(ix, id) ==>
            (room !in r.rooms <==> forall x :: x in ix.rooms[room] ==> x == id))
      && (id !in ix.sids ==> r.rooms == ix.rooms)
  {
    forall room | room in ix.rooms {
      EmptyIffNoMember(Without(ix.rooms[room], id));
    }
  }

  lemma EmptyConsistent()
    ensures Consistent(Empty)
  {
  }

  lemma JoinKeepsConsistent(ix: Index, id: string, room: string)
    requires Consistent(ix)
    ensures Consistent(Join(ix, id, room))
  {
    JoinKeepsSidsInRooms(ix, id, room);
    JoinKeepsRoomsInSids(ix, id, room);
    JoinKeepsShape(ix, id, room);
  }

  lemma JoinKeepsSidsInRooms(ix: Index, id: string, room: string)
    requires SidsInRooms(ix)
    ensures SidsInRooms(Join(ix, id, room))
  {
    var r := Join(ix, id, room);
    forall x, rm | x in r.sids && rm in r.sids[x] ensures rm in r.rooms && x in r.rooms[rm] {
      if x != id || rm != room {
        assert rm in ix.sids[x];
      }
    }
  }

  lemma JoinKeepsRoomsInSids(ix: Index, id: string, room: string)
    requires RoomsInSids(ix)
    ensures RoomsInSids(Join(ix, id, room))
  {
    var r := Join(ix, id, room);
    forall rm, x | rm in r.rooms && x in r.rooms[rm] ensures x in r.sids && rm in r.sids[x] {
      if rm != room || x != id {
        assert rm in ix.rooms && x in ix.rooms[rm];
      }
    }
  }

  lemma JoinKeepsShape(ix: Index, id: string, room: string)
    requires RoomsWellFormed(ix.rooms) && OrderMatches(ix)
    ensures RoomsWellFormed(Join(ix, id, room).rooms) && OrderMatches(Join(ix, id, room))
  {
    var r := Join(ix, id, room);
    if id !in ix.sids {
      assert Added(ix.sidOrder, id) == r.sidOrder;
    }
  }

  lemma LeaveKeepsConsistent(ix: Index, id: string, room: string)
    requires Consistent(ix)
    ensures Consistent(Leave(ix, id, room))
  {
    LeaveKeepsRoomsInSids(ix, id, room);
    LeaveKeepsSidsInRooms(ix, id, room);
    LeaveKeepsShape(ix, id, room);
  }

  lemma LeaveKeepsRoomsInSids(ix: Index, id: string, room: string)
    requires RoomsInSids(ix)
    ensures RoomsInSids(Leave(ix, id, room))
  {
    var r := Leave(ix, id, room);
    forall rm, x | rm in r.rooms && x in r.rooms[rm] ensures x in r.sids && rm in r.sids[x] {
      assert rm in ix.rooms && x in ix.rooms[rm];
    }
  }

  lemma LeaveKeepsSidsInRooms(ix: Index, id: string, room: string)
    requires SidsInRooms(ix)
    ensures SidsInRooms(Leave(ix, id, room))
  {
    var r := Leave(ix, id, room);
    forall x, rm | x in r.sids && rm in r.sids[x] ensures rm in r.rooms && x in r.rooms[rm] {
      assert x in ix.sids && rm in ix.sids[x];
      if rm == room {
        assert x in Without(ix.rooms[room], id);
      }
    }
  }

  lemma LeaveKeepsShape(ix: Index, id: string, room: string)
    requires RoomsWellFormed(ix.rooms) && OrderMatches(ix)
    ensures RoomsWellFormed(Leave(ix, id, room).rooms) && OrderMatches(Leave(ix, id, room))
  {
    var r := Leave(ix, id, room);
    if room in ix.rooms {
      WithoutDistinct(ix.rooms[room], id);
    }
    if id !in ix.sids {
      assert Added(ix.sidOrder, id) == r.sidOrder;
    }
  }

  lemma LeaveAllKeepsConsistent(ix: Index, id: string)
    requires Consistent(ix)
    ensures Consistent(LeaveAll(ix, id))
  {
    var r := LeaveAll(ix, id);
    var targets := RoomsOf(ix, id);
    LeaveAllKeepsRoomsInSids(ix, id);
    LeaveAllKeepsSidsInRooms(ix, id);
    assert RoomsWellFormed(r.rooms) by {
      forall rm | rm in r.rooms ensures r.rooms[rm] != [] && Distinct(r.rooms[rm]) {
        assert rm in ix.rooms;
        WithoutDistinct(ix.rooms[rm], id);
      }
    }
    WithoutDistinct(ix.sidOrder, id);
  }

  lemma LeaveAllKeepsRoomsInSids(ix: Index, id: string)
    requires RoomsInSids(ix)
    ensures RoomsInSids(LeaveAll(ix, id))
  {
    var r := LeaveAll(ix, id);
    forall rm, x | rm in r.rooms && x in r.rooms[rm] ensures x in r.sids && rm in r.sids[x] {
      LeaveAllMember(ix, id, rm, x);
    }
  }

  /** A member that survives `delAll(id)` was a member before and is not `id`. */
  lemma LeaveAllMember(ix: Index, id: string, rm: string, x: string)
    requires RoomsInSids(ix)
    requires rm in LeaveAll(ix, id).rooms && x in LeaveAll(ix, id).rooms[rm]
    ensures rm in ix.rooms && x in ix.rooms[rm] && x != id
    ensures x in LeaveAll(ix, id).sids && rm in LeaveAll(ix, id).sids[x]
  {
    var targets := RoomsOf(ix, id);
    var rooms := Evict(ix.rooms, id, targets);
    assert rm in ix.rooms;
    if rm in targets {
      assert x in Without(ix.rooms[rm], id);
    } else {
      assert rooms[rm] == ix.rooms[rm];
      assert rm !in RoomsOf(ix, id);
    }
  }

  lemma LeaveAllKeepsSidsInRooms(ix: Index, id: string)
    requires SidsInRooms(ix)
    ensures SidsInRooms(LeaveAll(ix, id))
  {
    var r := LeaveAll(ix, id);
    forall x, rm | x in r.sids && rm in r.sids[x] ensures rm in r.rooms && x in r.rooms[rm] {
      LeaveAllRecorded(ix, id, x, rm);
    }
  }

  /** A room still recorded for a socket after `delAll(id)` still has it. */
  lemma LeaveAllRecorded(ix: Index, id: string, x: string, rm: string)
    requires SidsInRooms(ix)
    requires x in LeaveAll(ix, id).sids && rm in LeaveAll(ix, id).sids[x]
    ensures rm in LeaveAll(ix, id).rooms && x in LeaveAll(ix, id).rooms[rm]
  {
    var targets := RoomsOf(ix, id);
    assert x != id && rm in ix.sids[x];
    assert rm in ix.rooms && x in ix.rooms[rm];
    if rm in targets {
      assert x in Without(ix.rooms[rm], id);
    }
  }

  /** After `delAll(id)` the id belongs to no room. */
  lemma LeaveAllRemovesId(ix: Index, id: string)
    requires Consistent(ix)
    ensures forall room :: room in LeaveAll(ix, id).rooms ==> id !in LeaveAll(ix, id).rooms[room]
  {
  }

  /** Joining a room twice leaves the same state as joining it once. */
  lemma JoinIdempotent(ix: Index, id: string, room: string)
    ensures Join(Join(ix, id, room), id, room) == Join(ix, id, room)
  {
    AddDelIdempotent(if room in ix.rooms then ix.rooms[room] else [], id);
  }

  /** Leaving a room twice leaves the same state as leaving it once. */
  lemma LeaveIdempotent(ix: Index, id: string, room: string)
    ensures Leave(Leave(ix, id, room), id, room) == Leave(ix, id, room)
  {
    var once := Leave(ix, id, room);
    var twice := Leave(once, id, room);
    if room in once.rooms {
      assert id !in once.rooms[room];
      assert Without(once.rooms[room], id) == once.rooms[room];
      EmptyIffNoMember(once.rooms[room]);
      assert once.rooms[room := once.rooms[room]] == once.rooms;
    }
    assert twice.rooms == once.rooms;
    assert once.sids[id] - {room} == once.sids[id];
    assert twice.sids == once.sids;
  }

  /** Joining a room the socket is not in and leaving it again restores the
      rooms exactly (a room created by the join is dropped again). The entry
      in sids is restored too when the socket was already known; for an
      unknown socket an empty entry stays behind. */
  lemma JoinThenLeave(ix: Index, id: string, room: string)
    requires Consistent(ix)
    requires room !in RoomsOf(ix, id)
    ensures Leave(Join(ix, id, room), id, room) ==
      if id in ix.sids then ix else Index(ix.rooms, ix.sids[id := {}], ix.sidOrder + [id])
  {
    JoinThenLeaveRooms(ix, id, room);
    JoinThenLeaveSids(ix, id, room);
    if id in ix.sids {
      assert ix.sids[id := RoomsOf(ix, id)] == ix.sids;
    }
  }

  lemma JoinThenLeaveSids(ix: Index, id: string, room: string)
    requires room !in RoomsOf(ix, id)
    ensures Leave(Join(ix, id, room), id, room).sids == ix.sids[id := RoomsOf(ix, id)]
    ensures Leave(Join(ix, id, room), id, room).sidOrder == Touched(ix.sidOrder, ix.sids, id)
  {
    var joined := Join(ix, id, room);
    assert RoomsOf(joined, id) - {room} == RoomsOf(ix, id);
  }

  lemma JoinThenLeaveRooms(ix: Index, id: string, room: string)
    requires RoomsInSids(ix) && RoomsWellFormed(ix.rooms)
    requires room !in RoomsOf(ix, id)
    ensures Leave(Join(ix, id, room), id, room).rooms == ix.rooms
  {
    if room in ix.rooms {
      assert id !in ix.rooms[room];
    }
    EvictEnter(ix.rooms, id, room);
  }

  /** Taking an id back out of a room it was just put into, when it was not
      a member and the room was absent or not empty, restores the rooms. */
  lemma EvictEnter(rooms: map<string, seq<string>>, id: string, room: string)
    requires room in rooms ==> id !in rooms[room] && rooms[room] != []
    ensures Evict(Enter(rooms, id, room), id, {room}) == rooms
  {
    var entered := Enter(rooms, id, room);
    var r := Evict(entered, id, {room});
    var prior := if room in rooms then rooms[room] else [];
    WithoutAdded(prior, id);
    assert Without(entered[room], id) == prior;
    forall k | k in rooms ensures k in r && r[k] == rooms[k] {
    }
    assert r.Keys == rooms.Keys;
  }

  /** `delAll` of a socket the adapter does not know changes nothing. */
  lemma LeaveAllUnknown(ix: Index, id: string)
    requires Consistent(ix)
    requires id !in ix.sids
    ensures LeaveAll(ix, id) == ix
  {
    assert id !in ix.sidOrder;
  }

  /** One membership call. */
  datatype Op = JoinOp(id: string, room: string) | LeaveOp(id: string, room: string) | LeaveAllOp(id: string)

  function Apply(ix: Index, op: Op): Index {
    match op
    case JoinOp(id, room) => Join(ix, id, room)
    case LeaveOp(id, room) => Leave(ix, id, room)
    case LeaveAllOp(id) => LeaveAll(ix, id)
  }

  /** The state after a sequence of membership calls, in order. */
  function Replay(ix: Index, ops: seq<Op>): Index
    decreases |ops|
  {
    if ops == [] then ix else Replay(Apply(ix, ops[0]), ops[1..])
  }

  /** Any sequence of add, del and delAll calls on a consistent index keeps
      it consistent. */
  lemma {:induction false} ReplayKeepsConsistent(ix: Index, ops: seq<Op>)
    requires Consistent(ix)
    ensures Consistent(Replay(ix, ops))
    decreases |ops|
  {
    if ops != [] {
      ApplyKeepsConsistent(ix, ops[0]);
      ReplayKeepsConsistent(Apply(ix, ops[0]), ops[1..]);
    }
  }

  lemma ApplyKeepsConsistent(ix: Index, op: Op)
    requires Consistent(ix)
    ensures Consistent(Apply(ix, op))
  {
    match op
    case JoinOp(id, room) => JoinKeepsConsistent(ix, id, room);
    case LeaveOp(id, room) => LeaveKeepsConsistent(ix, id, room);
    case LeaveAllOp(id) => LeaveAllKeepsConsistent(ix, id);
  }

  /** Any sequence of add, del and delAll calls on a new adapter leaves the
      index consistent. */
  lemma FromEmptyConsistent(ops: seq<Op>)
    ensures Consistent(Replay(Empty, ops))
  {
    EmptyConsistent();
    ReplayKeepsConsistent(Empty, ops);
  }
}
