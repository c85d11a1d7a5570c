/** Who a broadcast reaches and what `clients` reports, as functions of the
    membership index, the call's options and the ids of the live connections
    of the namespace.

    Both computations are filter/map pipelines in the adapter. The room
    branch flattens the member lists with `.join().split(',')`; for ids
    without commas that is concatenation, except that an empty list (or no
    list at all) turns into the one-element list `[""]`. No step removes
    duplicates: an id that is in two target rooms, or a room named twice,
    is delivered to twice. */
module Fanout {
  import opened Rooms
  import opened Membership

  datatype Option<T> = None | Some(value: T)

  /** One transport-level frame produced by the packet encoder. */
  type Frame = string

  /** A packet as the namespace hands it to broadcast. Only `nsp` is
      touched by the adapter; the rest is passed to the encoder as is. */
  datatype Packet = Packet(kind: int, nsp: string, data: string)

  /** `opts.flags`: each flag may be absent. */
  datatype Flags = Flags(volatile: Option<bool>, compress: Option<bool>)

  /** The options of a broadcast; an absent list is the empty list. */
  datatype BroadcastOpts = BroadcastOpts(rooms: seq<string>, except: seq<string>, flags: Flags)

  /** The options every delivery of one broadcast carries. */
  datatype PacketOpts = PacketOpts(preEncoded: bool, volatile: Option<bool>, compress: Option<bool>)

  /** One call of `packet(encodedPackets, packetOpts)` on the connection of `id`. */
  datatype Delivery = Delivery(id: string, frames: seq<Frame>, opts: PacketOpts)

  /** The delivery options: always pre-encoded, the two flags passed through. */
  function PacketOptsOf(flags: Flags): (o: PacketOpts)
    ensures o.preEncoded
    ensures o.volatile == flags.volatile && o.compress == flags.compress
  {
    PacketOpts(true, flags.volatile, flags.compress)
  }

  /** The packet with the namespace name stamped on it; nothing else changes. */
  function Stamp(p: Packet, name: string): (r: Packet)
    ensures r.nsp == name && r.kind == p.kind && r.data == p.data
  {
    p.(nsp := name)
  }

  /** `rooms.filter(room => this.rooms[room])`: the target names that exist,
      in target order, repetitions kept. */
  function Existing(rooms: map<string, seq<string>>, targets: seq<string>): (r: seq<string>)
    ensures |r| <= |targets|
    ensures forall t :: t in r <==> t in targets && t in rooms
    ensures r == [] <==> forall t :: t in targets ==> t !in rooms
  {
    if targets == [] then []
    else
      var r := (if targets[0] in rooms then [targets[0]] else []) + Existing(rooms, targets[1..]);
      assert r != [] ==> r[0] in r;
      r
  }

  /** `.map(room => this.rooms[room]).map(room => Object.keys(room.sockets))`. */
  function MemberLists(rooms: map<string, seq<string>>, names: seq<string>): (r: seq<seq<string>>)
    requires forall t :: t in names ==> t in rooms
    ensures |r| == |names|
    ensures forall i :: 0 <= i < |names| ==> r[i] == rooms[names[i]]
  {
    if names == [] then [] else [rooms[names[0]]] + MemberLists(rooms, names[1..])
  }

  /** Plain concatenation of the lists, in order. */
  function Flatten(lists: seq<seq<string>>): seq<string> {
    if lists == [] then [] else lists[0] + Flatten(lists[1..])
  }

  /** Splitting `l.join(',')` at commas, for comma-free ids: the list itself,
      or `[""]` when it is empty. */
  function SplitOfJoined(l: seq<string>): seq<string> {
    if l == [] then [""] else l
  }

  function Pieces(lists: seq<seq<string>>): seq<string> {
    if lists == [] then [] else SplitOfJoined(lists[0]) + Pieces(lists[1..])
  }

  /** `lists.join().split(',')` for comma-free ids. */
  function JoinSplit(lists: seq<seq<string>>): (r: seq<string>)
    ensures lists == [] ==> r == [""]
  {
    if lists == [] then [""] else Pieces(lists)
  }

  /** When no list is empty, the pieces are the plain concatenation. */
  lemma {:induction false} PiecesOfNonEmpty(lists: seq<seq<string>>)
    requires forall i :: 0 <= i < |lists| ==> lists[i] != []
    ensures Pieces(lists) == Flatten(lists)
  {
    if lists != [] {
      PiecesOfNonEmpty(lists[1..]);
    }
  }

  /** `.filter(id => !except.includes(id)).map(id => this.nsp.connected[id]).filter(e => e)`:
      the ids that are not excluded and have a live connection, in order,
      each as often as it occurs in `ids`. */
  function Reachable(ids: seq<string>, except: seq<string>, connected: set<string>): (r: seq<string>)
    ensures |r| <= |ids|
  {
    if ids == [] then []
    else (if ids[0] !in except && ids[0] in connected then [ids[0]] else []) + Reachable(ids[1..], except, connected)
  }

  /** An id survives the filter exactly when it occurs, is not excluded
      and is connected. */
  lemma {:induction false} ReachableMember(ids: seq<string>, except: seq<string>, connected: set<string>)
    ensures forall x :: x in Reachable(ids, except, connected) <==> x in ids && x !in except && x in connected
  {
    if ids != [] {
      ReachableMember(ids[1..], except, connected);
      assert forall x :: x in ids <==> x == ids[0] || x in ids[1..];
    }
  }

  /** The filter keeps every occurrence of a kept id and none of the others. */
  lemma {:induction false} ReachableCount(ids: seq<string>, except: seq<string>, connected: set<string>, x: string)
    ensures multiset(Reachable(ids, except, connected))[x] ==
      if x !in except && x in connected then multiset(ids)[x] else 0
  {
    if ids != [] {
      ReachableCount(ids[1..], except, connected, x);
      var head := if ids[0] !in except && ids[0] in connected then [ids[0]] else [];
      assert multiset(Reachable(ids, except, connected)) == multiset(head) + multiset(Reachable(ids[1..], except, connected));
      assert multiset(ids) == multiset([ids[0]]) + multiset(ids[1..]) by {
        assert ids == [ids[0]] + ids[1..];
      }
    }
  }

  /** Keeping ids of a list without repetitions keeps it without repetitions. */
  lemma {:induction false} ReachableDistinct(ids: seq<string>, except: seq<string>, connected: set<string>)
    requires Distinct(ids)
    ensures Distinct(Reachable(ids, except, connected))
  {
    if ids != [] {
      DistinctTail(ids);
      ReachableDistinct(ids[1..], except, connected);
      ReachableMember(ids[1..], except, connected);
      if ids[0] !in except && ids[0] in connected {
        DistinctCons(ids[0], Reachable(ids[1..], except, connected));
      }
    }
  }

  /** The ids a broadcast with `opts` delivers to, in delivery order: the
      members of the target rooms when any room is named, otherwise every
      key of sids; then the excluded and the disconnected ids are dropped. */
  function Recipients(ix: Index, opts: BroadcastOpts, connected: set<string>): seq<string> {
    var ids :=
      if |opts.rooms| > 0 then
        JoinSplit(MemberLists(ix.rooms, Existing(ix.rooms, opts.rooms)))
      else ix.sidOrder;
    Reachable(ids, opts.except, connected)
  }

  /** How many entries of `targets` name an existing room that has `x`. */
  function Hits(rooms: map<string, seq<string>>, targets: seq<string>, x: string): (n: nat)
    ensures n <= |targets|
  {
    if targets == [] then 0
    else (if targets[0] in rooms && x in rooms[targets[0]] then 1 else 0) + Hits(rooms, targets[1..], x)
  }

  /** Hits is positive exactly when some target room has `x`. */
  lemma {:induction false} HitsPositive(rooms: map<string, seq<string>>, targets: seq<string>, x: string)
    ensures Hits(rooms, targets, x) > 0 <==> exists t :: t in targets && t in rooms && x in rooms[t]
  {
    if targets != [] {
      HitsPositive(rooms, targets[1..], x);
      assert forall t :: t in targets <==> t == targets[0] || t in targets[1..];
    }
  }

  /** In the concatenated member lists of the existing targets, `x` occurs
      once per target entry whose room has it. */
  lemma {:induction false} FlattenCount(rooms: map<string, seq<string>>, targets: seq<string>, x: string)
    requires RoomsWellFormed(rooms)
    ensures multiset(Flatten(MemberLists(rooms, Existing(rooms, targets))))[x] == Hits(rooms, targets, x)
  {
    if targets != [] {
      FlattenCount(rooms, targets[1..], x);
      var rest := Existing(rooms, targets[1..]);
      if targets[0] in rooms {
        var m := rooms[targets[0]];
        assert Existing(rooms, targets) == [targets[0]] + rest;
        assert MemberLists(rooms, [targets[0]] + rest) == [m] + MemberLists(rooms, rest);
        assert Flatten([m] + MemberLists(rooms, rest)) == m + Flatten(MemberLists(rooms, rest));
        DistinctCount(m, x);
      } else {
        assert Existing(rooms, targets) == rest;
      }
    }
  }

  /** In a list without repetitions an id occurs once or not at all. */
  lemma {:induction false} DistinctCount(s: seq<string>, x: string)
    requires Distinct(s)
    ensures multiset(s)[x] == if x in s then 1 else 0
  {
    if s != [] {
      DistinctTail(s);
      DistinctCount(s[1..], x);
      assert s == [s[0]] + s[1..];
    }
  }

  /** With at least one existing target room, a broadcast goes to the
      concatenation of the member lists of the existing targets, in target
      order, minus the excluded and the disconnected ids. */
  lemma RecipientsOfRooms(ix: Index, opts: BroadcastOpts, connected: set<string>)
    requires RoomsWellFormed(ix.rooms)
    requires exists t :: t in opts.rooms && t in ix.rooms
    ensures Recipients(ix, opts, connected) ==
      Reachable(Flatten(MemberLists(ix.rooms, Existing(ix.rooms, opts.rooms))), opts.except, connected)
  {
    var names := Existing(ix.rooms, opts.rooms);
    var lists := MemberLists(ix.rooms, names);
    var t :| t in opts.rooms && t in ix.rooms;
    assert t in names;
    PiecesOfNonEmpty(lists);
  }

  /** Duplicates are kept: with at least one existing target room, each
      connected, non-excluded id is delivered to once per target entry
      whose room has it, and every other id not at all. */
  lemma RecipientsCount(ix: Index, opts: BroadcastOpts, connected: set<string>, x: string)
    requires RoomsWellFormed(ix.rooms)
    requires exists t :: t in opts.rooms && t in ix.rooms
    ensures multiset(Recipients(ix, opts, connected))[x] ==
      if x !in opts.except && x in connected then Hits(ix.rooms, opts.rooms, x) else 0
  {
    RecipientsOfRooms(ix, opts, connected);
    FlattenCount(ix.rooms, opts.rooms, x);
    ReachableCount(Flatten(MemberLists(ix.rooms, Existing(ix.rooms, opts.rooms))), opts.except, connected, x);
  }

  /** With at least one existing target room, an id is reached exactly when
      it is connected, not excluded, and a member of some target room. */
  lemma RecipientsToRooms(ix: Index, opts: BroadcastOpts, connected: set<string>, x: string)
    requires RoomsWellFormed(ix.rooms)
    requires exists t :: t in opts.rooms && t in ix.rooms
    ensures x in Recipients(ix, opts, connected) <==>
      x !in opts.except && x in connected && exists t :: t in opts.rooms && t in ix.rooms && x in ix.rooms[t]
  {
    RecipientsCount(ix, opts, connected, x);
    HitsPositive(ix.rooms, opts.rooms, x);
  }

  /** When rooms are named but none exists, the flattening yields the one
      id `""`, so nobody is reached unless a connection has the empty id. */
  lemma RecipientsOfMissingRooms(ix: Index, opts: BroadcastOpts, connected: set<string>)
    requires |opts.rooms| > 0
    requires forall t :: t in opts.rooms ==> t !in ix.rooms
    ensures Recipients(ix, opts, connected) ==
      if "" !in opts.except && "" in connected then [""] else []
  {
    assert Existing(ix.rooms, opts.rooms) == [];
  }

  /** Without target rooms a broadcast reaches every known socket that is
      connected and not excluded, each exactly once. */
  lemma RecipientsToAll(ix: Index, opts: BroadcastOpts, connected: set<string>)
    requires OrderMatches(ix)
    requires opts.rooms == []
    ensures forall x :: x in Recipients(ix, opts, connected) <==>
      x in ix.sids && x !in opts.except && x in connected
    ensures Distinct(Recipients(ix, opts, connected))
  {
    ReachableDistinct(ix.sidOrder, opts.except, connected);
    ReachableMember(ix.sidOrder, opts.except, connected);
  }

  /** One record per recipient, in recipient order, all with the same
      frames and options. */
  function Deliveries(ids: seq<string>, frames: seq<Frame>, opts: PacketOpts): (r: seq<Delivery>)
    ensures |r| == |ids|
    ensures forall i :: 0 <= i < |ids| ==> r[i] == Delivery(ids[i], frames, opts)
  {
    if ids == [] then [] else [Delivery(ids[0], frames, opts)] + Deliveries(ids[1..], frames, opts)
  }

  /** What `clients(rooms, fn)` yields: nothing without a callback; the
      TypeError that `Object.keys(room.sockets)` raises when any named room
      exists (the pipeline maps over room names, not Room objects); and
      otherwise the ids passed to the callback with a null error. */
  datatype ClientsReply = NoCallback | Threw(error: string) | Listed(err: Option<string>, ids: seq<string>)

  function Clients(ix: Index, targets: seq<string>, connected: set<string>, hasCallback: bool): (r: ClientsReply)
    ensures r == NoCallback <==> !hasCallback
    ensures r.Threw? <==> hasCallback && exists t :: t in targets && t in ix.rooms
    ensures r.Listed? ==> r.err == None
    ensures hasCallback && targets == [] ==>
      r.Listed? && forall x :: x in r.ids <==> x in ix.sidOrder && x in connected
    ensures hasCallback && targets != [] && (forall t :: t in targets ==> t !in ix.rooms) ==>
      r == Listed(None, if "" in connected then [""] else [])
  {
    if !hasCallback then NoCallback
    else if |targets| > 0 then
      if Existing(ix.rooms, targets) != [] then Threw("TypeError")
      else Listed(None, Reachable(JoinSplit([]), [], connected))
    else
      ReachableMember(ix.sidOrder, [], connected);
      Listed(None, Reachable(ix.sidOrder, [], connected))
  }

  /** Without target rooms, clients lists every known socket that is
      connected, each once. */
  lemma ClientsOfAll(ix: Index, connected: set<string>)
    requires OrderMatches(ix)
    ensures Clients(ix, [], connected, true).Listed?
    ensures forall x :: x in Clients(ix, [], connected, true).ids <==> x in ix.sids && x in connected
    ensures Distinct(Clients(ix, [], connected, true).ids)
  {
    ReachableDistinct(ix.sidOrder, [], connected);
    ReachableMember(ix.sidOrder, [], connected);
  }

  /** Two rooms sharing a member, r1 = {a, b} and r2 = {b, c}, with the
      sockets recorded in the order a, b, c. */
  function TwoRooms(a: string, b: string, c: string, r1: string, r2: string): Index {
    Index(map[r1 := [a, b], r2 := [b, c]],
          map[a := {r1}, b := {r1, r2}, c := {r2}],
          [a, b, c])
  }

  /** Both rooms are non-empty lists without repetitions. */
  lemma TwoRoomsWellFormed(a: string, b: string, c: string, r1: string, r2: string)
    requires a != b && b != c && r1 != r2
    ensures RoomsWellFormed(TwoRooms(a, b, c, r1, r2).rooms)
  {
  }

  /** How often each id occurs in the member lists of r1 and r2. */
  lemma TwoRoomsHits(a: string, b: string, c: string, r1: string, r2: string, x: string)
    requires r1 != r2
    ensures Hits(TwoRooms(a, b, c, r1, r2).rooms, [r1, r2], x) ==
      (if x == a || x == b then 1 else 0) + (if x == b || x == c then 1 else 0)
  {
    assert [r1, r2][1..] == [r2];
    assert x in [a, b] <==> x == a || x == b;
    assert x in [b, c] <==> x == b || x == c;
  }

  /** Broadcasting to both rooms except b reaches a and c, once each, and
      nobody else. */
  lemma TwoRoomsExcept(a: string, b: string, c: string, r1: string, r2: string, flags: Flags)
    requires a != b && b != c && a != c && r1 != r2
    ensures multiset(Recipients(TwoRooms(a, b, c, r1, r2), BroadcastOpts([r1, r2], [b], flags), {a, b, c})) == multiset{a, c}
  {
    forall x
      ensures multiset(Recipients(TwoRooms(a, b, c, r1, r2), BroadcastOpts([r1, r2], [b], flags), {a, b, c}))[x] ==
        multiset{a, c}[x]
    {
      TwoRoomsExceptCount(a, b, c, r1, r2, flags, x);
    }
  }

  /** The count behind TwoRoomsExcept, one id at a time. */
  lemma TwoRoomsExceptCount(a: string, b: string, c: string, r1: string, r2: string, flags: Flags, x: string)
    requires a != b && b != c && a != c && r1 != r2
    ensures multiset(Recipients(TwoRooms(a, b, c, r1, r2), BroadcastOpts([r1, r2], [b], flags), {a, b, c}))[x] ==
      if x == a || x == c then 1 else 0
  {
    var ix := TwoRooms(a, b, c, r1, r2);
    var opts := BroadcastOpts([r1, r2], [b], flags);
    TwoRoomsWellFormed(a, b, c, r1, r2);
    assert r1 in opts.rooms && r1 in ix.rooms;
    RecipientsCount(ix, opts, {a, b, c}, x);
    TwoRoomsHits(a, b, c, r1, r2, x);
  }

  /** Without the exclusion, b, a member of both rooms, is delivered to twice. */
  lemma TwoRoomsDuplicate(a: string, b: string, c: string, r1: string, r2: string, flags: Flags)
    requires a != b && b != c && r1 != r2
    ensures multiset(Recipients(TwoRooms(a, b, c, r1, r2), BroadcastOpts([r1, r2], [], flags), {a, b, c}))[b] == 2
  {
    var ix := TwoRooms(a, b, c, r1, r2);
    var opts := BroadcastOpts([r1, r2], [], flags);
    TwoRoomsWellFormed(a, b, c, r1, r2);
    assert r1 in opts.rooms && r1 in ix.rooms;
    RecipientsCount(ix, opts, {a, b, c}, b);
    TwoRoomsHits(a, b, c, r1, r2, b);
  }

  /** Without rooms every connected id that is not excluded is reached, in
      join order. */
  lemma TwoRoomsToAll(a: string, b: string, c: string, r1: string, r2: string, flags: Flags)
    requires a != b && b != c && a != c
    ensures Recipients(TwoRooms(a, b, c, r1, r2), BroadcastOpts([], [b], flags), {a, c}) == [a, c]
  {
    var order := [a, b, c];
    assert order[1..] == [b, c] && order[1..][1..] == [c];
    assert Reachable([b, c], [b], {a, c}) == [c];
  }

  /** Listing the clients of an existing room throws instead of listing a
      and b; without rooms the connected ids are listed in join order. */
  lemma TwoRoomsClients(a: string, b: string, c: string, r1: string, r2: string)
    requires a != b && b != c && a != c && r1 != r2
    ensures Clients(TwoRooms(a, b, c, r1, r2), [r1], {a, b, c}, true).Threw?
    ensures Clients(TwoRooms(a, b, c, r1, r2), [], {a, c}, true) == Listed(None, [a, c])
  {
    assert r1 in [r1];
    var order := [a, b, c];
    assert order[1..] == [b, c] && order[1..][1..] == [c];
    assert Reachable([c], [], {a, c}) == [c];
    assert Reachable([b, c], [], {a, c}) == [c];
  }
}
