/** The in-memory adapter as an object: the `rooms` and `sids` objects it
    mutates in place, the namespace it serves and the encoder it owns.

    Every method is proved against the value-level operations of
    `Membership` and `Fanout`: its new state is the function of the old
    state, so the invariants and round-trips proved there carry over. The
    callbacks the adapter schedules with `process.nextTick` are returned
    instead. */
module MemoryAdapter {
  import opened Rooms
  import opened Membership
  import opened Fanout

  /** The encoder of the packet parser. Its wire format is not part of this
      model: `wire` stands for it. `calls` records every packet it was asked
      to encode, in order. */
  class Encoder {
    const wire: Packet -> seq<Frame>
    var calls: seq<Packet>

    constructor (wire: Packet -> seq<Frame>)
      ensures this.wire == wire && calls == []
    {
      this.wire := wire;
      calls := [];
    }

    method Encode(p: Packet) returns (frames: seq<Frame>)
      modifies this`calls
      ensures calls == old(calls) + [p]
      ensures frames == wire(p)
    {
      calls := calls + [p];
      frames := wire(p);
    }
  }

  /** The parts of the namespace the adapter uses: its name, the ids of its
      live connections (`nsp.connected`), and every `packet(...)` call made on
      one of those connections, in order. */
  class Namespace {
    const name: string
    var connected: set<string>
    var sent: seq<Delivery>

    constructor (name: string, connected: set<string>)
      ensures this.name == name && this.connected == connected && sent == []
    {
      this.name := name;
      this.connected := connected;
      sent := [];
    }

    /** `connected[id].packet(frames, opts)`. */
    method Deliver(id: string, frames: seq<Frame>, opts: PacketOpts)
      modifies this`sent
      ensures sent == old(sent) + [Delivery(id, frames, opts)]
    {
      sent := sent + [Delivery(id, frames, opts)];
    }
  }

  /** The completion callback of a membership call: none when the caller
      passed none, otherwise called with a null error. */
  datatype Reply = NoReply | Replied(err: Option<string>)

  function Completion(fn: bool): (r: Reply)
    ensures fn <==> r.Replied?
    ensures r.Replied? ==> r.err == None
  {
    if fn then Replied(None) else NoReply
  }

  class Adapter {
    const nsp: Namespace
    const encoder: Encoder
    /** Room name to Room. */
    var rooms: map<string, Room>
    /** Socket id to the names of its rooms. */
    var sids: map<string, set<string>>
    /** The keys of `sids` in creation order, as `Object.keys(this.sids)` reports them. */
    var sidOrder: seq<string>

    /** Every stored room knows the name it is stored under, so no two names
        share a Room object, and its counter equals its size. */
    ghost predicate Owned()
      reads this`rooms, rooms.Values
    {
      forall a :: a in rooms ==> rooms[a].name == a && rooms[a].Valid()
    }

    /** The rooms are well owned and the index they form with sids is consistent. */
    ghost predicate Valid()
      reads this, rooms.Values
    {
      Owned() && Consistent(Snapshot())
    }

    /** The members of each room, in key order. */
    function Members(): map<string, seq<string>>
      reads this`rooms, rooms.Values
    {
      map r | r in rooms :: rooms[r].sockets
    }

    /** The membership index the two objects hold. */
    function Snapshot(): Index
      reads this, rooms.Values
    {
      Index(Members(), sids, sidOrder)
    }

    constructor (nsp: Namespace, wire: Packet -> seq<Frame>)
      ensures Valid() && Snapshot() == Empty
      ensures rooms == map[] && sids == map[] && sidOrder == []
      ensures this.nsp == nsp && fresh(encoder) && encoder.wire == wire && encoder.calls == []
    {
      this.nsp := nsp;
      rooms := map[];
      sids := map[];
      sidOrder := [];
      encoder := new Encoder(wire);
      new;
      EmptyConsistent();
    }

    /** `this.rooms[room] = this.rooms[room] || new Room(); this.rooms[room].add(id)`.
        A room that does not exist yet receives its first member before it is
        stored, which no other code can observe. */
    method AddToRoom(id: string, room: string)
      requires Owned()
      modifies this`rooms, rooms.Values
      ensures Owned()
      ensures Members() == Enter(old(Members()), id, room)
      ensures forall r :: r in old(rooms) ==> r in rooms && rooms[r] == old(rooms[r])
      ensures forall r :: r in rooms && r !in old(rooms) ==> fresh(rooms[r])
    {
      if room in rooms {
        Enroll(id, room);
      } else {
        var created := new Room(room);
        created.Add(id);
        Store(room, created);
      }
    }

    /** `this.rooms[room].add(id)` on a stored room: only that room's members change. */
    method Enroll(id: string, room: string)
      requires Owned() && room in rooms
      modifies rooms[room]
      ensures Owned()
      ensures Members() == old(Members())[room := Added(old(Members())[room], id)]
    {
      var target := rooms[room];
      target.Add(id);
      forall r | r in rooms && r != room ensures rooms[r] != target {
        assert rooms[r].name == r;
      }
    }

    /** `this.rooms[room].del(id)` on a stored room: only that room's members change. */
    method Withdraw(id: string, room: string)
      requires Owned() && room in rooms
      modifies rooms[room]
      ensures Owned()
      ensures Members() == old(Members())[room := Without(old(Members())[room], id)]
      ensures rooms[room].length == |rooms[room].sockets|
    {
      var target := rooms[room];
      target.Del(id);
      forall r | r in rooms && r != room ensures rooms[r] != target {
        assert rooms[r].name == r;
      }
    }

    /** `if (this.rooms[room]) { this.rooms[room].del(id); if (this.rooms[room].length === 0) delete this.rooms[room]; }`,
        the step that `del` takes once and `delAll` once per room. */
    method DelFromRoom(id: string, room: string)
      requires Owned()
      modifies this`rooms, rooms.Values
      ensures Owned()
      ensures Members() == Evict(old(Members()), id, {room})
      ensures forall r :: r in rooms ==> r in old(rooms) && rooms[r] == old(rooms[r])
    {
      EvictOne(Members(), id, room);
      if room in rooms {
        Withdraw(id, room);
        if rooms[room].length == 0 {
          Drop(room);
        }
      }
    }

    /** `this.rooms[room] = created` for a room not stored yet. */
    method Store(room: string, created: Room)
      requires Owned() && room !in rooms
      requires created.name == room && created.Valid()
      modifies this`rooms
      ensures Owned()
      ensures rooms == old(rooms)[room := created]
      ensures Members() == old(Members())[room := created.sockets]
    {
      rooms := rooms[room := created];
      assert Members().Keys == old(Members()).Keys + {room};
    }

    /** `delete this.rooms[room]`. */
    method Drop(room: string)
      requires Owned()
      modifies this`rooms
      ensures Owned()
      ensures rooms == old(rooms) - {room}
      ensures Members() == old(Members()) - {room}
    {
      rooms := rooms - {room};
      assert Members().Keys == (old(Members()) - {room}).Keys;
    }

    /** `this.sids[id] = this.sids[id] || {}`: an unknown id gets an empty
        entry, created last in key order. */
    method Touch(id: string)
      modifies this`sids, this`sidOrder
      ensures sids == old(sids)[id := if id in old(sids) then old(sids)[id] else {}]
      ensures sidOrder == Touched(old(sidOrder), old(sids), id)
    {
      if id !in sids {
        sids := sids[id := {}];
        sidOrder := sidOrder + [id];
      }
    }

    /** `this.sids[id] = this.sids[id] || {}; this.sids[id][room] = true`. */
    method Enlist(id: string, room: string)
      modifies this`sids, this`sidOrder
      ensures sids == old(sids)[id := (if id in old(sids) then old(sids)[id] else {}) + {room}]
      ensures sidOrder == Touched(old(sidOrder), old(sids), id)
    {
      Touch(id);
      sids := sids[id := sids[id] + {room}];
    }

    /** `add(id, room, fn)`. */
    method Add(id: string, room: string, fn: bool) returns (reply: Reply)
      requires Valid()
      modifies this, rooms.Values
      ensures Valid()
      ensures Snapshot() == Join(old(Snapshot()), id, room)
      ensures forall r :: r in old(rooms) ==> r in rooms && rooms[r] == old(rooms[r])
      ensures forall r :: r in rooms && r !in old(rooms) ==> fresh(rooms[r])
      ensures reply == Completion(fn)
    {
      ghost var before := Snapshot();
      Enlist(id, room);
      assert Members() == before.rooms;
      AddToRoom(id, room);
      assert Snapshot() == Join(before, id, room);
      JoinKeepsConsistent(before, id, room);
      reply := Completion(fn);
    }

    /** `this.sids[id] = this.sids[id] || {}; delete this.sids[id][room]`. */
    method Delist(id: string, room: string)
      modifies this`sids, this`sidOrder
      ensures sids == old(sids)[id := (if id in old(sids) then old(sids)[id] else {}) - {room}]
      ensures sidOrder == Touched(old(sidOrder), old(sids), id)
    {
      Touch(id);
      sids := sids[id := sids[id] - {room}];
    }

    /** `del(id, room, fn)`. */
    method Del(id: string, room: string, fn: bool) returns (reply: Reply)
      requires Valid()
      modifies this, rooms.Values
      ensures Valid()
      ensures Snapshot() == Leave(old(Snapshot()), id, room)
      ensures forall r :: r in rooms ==> r in old(rooms) && rooms[r] == old(rooms[r])
      ensures reply == Completion(fn)
    {
      ghost var before := Snapshot();
      Delist(id, room);
      assert Members() == before.rooms;
      DelFromRoom(id, room);
      assert Snapshot() == Leave(before, id, room);
      LeaveKeepsConsistent(before, id, room);
      reply := Completion(fn);
    }

    /** `Object.keys(this.sids[id]).filter(room => this.rooms[room]).map(...)`:
        the step of DelFromRoom for each named room that exists, visited one
        at a time in no particular order. */
    method DelFromRooms(id: string, names: set<string>)
      requires Owned()
      modifies this`rooms, rooms.Values
      ensures Owned()
      ensures Members() == Evict(old(Members()), id, names)
      ensures forall r :: r in rooms ==> r in old(rooms) && rooms[r] == old(rooms[r])
    {
      ghost var start := Members();
      ghost var done: set<string> := {};
      var pending := set r | r in names && r in rooms;
      EvictAgree(start, id, {}, names - pending);
      while pending != {}
        invariant Owned()
        invariant forall r :: r in rooms ==> r in old(rooms) && rooms[r] == old(rooms[r])
        invariant pending !! done && pending + done <= names
        invariant forall t :: t in names && t in start ==> t in pending || t in done
        invariant forall t :: t in pending ==> t in start
        invariant Members() == Evict(start, id, done)
        decreases pending
      {
        var r :| r in pending;
        EvictStep(start, id, done, r);
        DelFromRoom(id, r);
        done := done + {r};
        pending := pending - {r};
      }
      EvictAgree(start, id, done, names);
    }

    /** `delete this.sids[id]`: the id loses its entry and its place in the key order. */
    method Forget(id: string)
      modifies this`sids, this`sidOrder
      ensures sids == old(sids) - {id}
      ensures sidOrder == Without(old(sidOrder), id)
    {
      sids := sids - {id};
      sidOrder := Without(sidOrder, id);
    }

    /** `delAll(id, fn)`. */
    method DelAll(id: string, fn: bool) returns (reply: Reply)
      requires Valid()
      modifies this, rooms.Values
      ensures Valid()
      ensures Snapshot() == LeaveAll(old(Snapshot()), id)
      ensures forall r :: r in rooms ==> r in old(rooms) && rooms[r] == old(rooms[r])
      ensures reply == Completion(fn)
    {
      ghost var before := Snapshot();
      var joined := if id in sids then sids[id] else {};
      Forget(id);
      assert Members() == before.rooms;
      DelFromRooms(id, joined);
      assert Snapshot() == LeaveAll(before, id);
      LeaveAllKeepsConsistent(before, id);
      reply := Completion(fn);
    }

    /** `broadcast(packet, opts)`: stamp the packet with the namespace name,
        encode it once, and hand the same frames and options to the
        connection of every recipient, in recipient order. */
    method Broadcast(packet: Packet, opts: BroadcastOpts)
      modifies nsp`sent, encoder`calls
      ensures encoder.calls == old(encoder.calls) + [Stamp(packet, nsp.name)]
      ensures nsp.sent == old(nsp.sent) +
        Deliveries(Recipients(Snapshot(), opts, nsp.connected), encoder.wire(Stamp(packet, nsp.name)), PacketOptsOf(opts.flags))
    {
      var packetOpts := PacketOptsOf(opts.flags);
      var stamped := Stamp(packet, nsp.name);
      var recipients := Recipients(Snapshot(), opts, nsp.connected);
      var frames := encoder.Encode(stamped);
      Fan(recipients, frames, packetOpts);
      assert Snapshot() == old(Snapshot());
    }

    /** `.map(sc => sc.packet(encodedPackets, packetOpts))` over the
        recipients' connections. */
    method Fan(recipients: seq<string>, frames: seq<Frame>, packetOpts: PacketOpts)
      modifies nsp`sent
      ensures nsp.sent == old(nsp.sent) + Deliveries(recipients, frames, packetOpts)
    {
      var i := 0;
      while i < |recipients|
        invariant 0 <= i <= |recipients|
        invariant nsp.sent == old(nsp.sent) + Deliveries(recipients[..i], frames, packetOpts)
      {
        nsp.Deliver(recipients[i], frames, packetOpts);
        assert recipients[..i + 1] == recipients[..i] + [recipients[i]];
        i := i + 1;
      }
      assert recipients[..i] == recipients;
    }

    /** `clients(rooms, fn)`. It reads the state and changes nothing. */
    method Clients(targets: seq<string>, fn: bool) returns (reply: ClientsReply)
      ensures reply == Fanout.Clients(Snapshot(), targets, nsp.connected, fn)
    {
      reply := Fanout.Clients(Snapshot(), targets, nsp.connected, fn);
    }
  }
}
