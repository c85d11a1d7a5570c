# socket.io in-memory adapter, modelled in Dafny

The in-memory adapter of socket.io (`index.js`) keeps track of which socket
ids are in which rooms of a namespace, and computes who a broadcast reaches.
It consists of two classes:

- `Room`, a counted set of socket ids: the object `sockets` used as a set and
  the counter `length` that `add` and `del` keep in step with it.
- `Adapter`, which holds two plain objects, `rooms` (room name to `Room`) and
  `sids` (socket id to the set of its room names). `add`, `del` and `delAll`
  change both in place and drop a room as soon as it becomes empty;
  `broadcast` and `clients` compute recipient lists from them.

The project has four modules:

- `Rooms` (`rooms.dfy`): the key sequence of a room as a sequence without
  repetitions in insertion order (the order `Object.keys` reports), the
  functions `Added` and `Without` that describe `sockets[id] = true` and
  `delete sockets[id]`, and the class `Room` with its in-place `Add` and
  `Del`.
- `Membership` (`membership.dfy`): a snapshot of the adapter's two objects as
  a value (`Index`), what `add`, `del` and `delAll` do to it (`Join`, `Leave`,
  `LeaveAll`), the invariant they keep (`Consistent`: a room is recorded for
  a socket exactly when the socket is one of its members, no stored room is
  empty, no room lists an id twice, and the key order of `sids` lists each
  key once), idempotence, the join/leave round trip, and consistency after
  any sequence of calls.
- `Fanout` (`fanout.dfy`): the recipient pipelines of `broadcast` and
  `clients` as functions of the index, the options and the ids of the live
  connections, and what they deliver to.
- `MemoryAdapter` (`adapter.dfy`): the adapter as a class over `Room` objects,
  whose methods are proved to change the state exactly as the `Membership`
  functions say, so the invariants carry over; `broadcast` encodes once and
  appends one delivery per recipient to the namespace's delivery log.

Where the code and its documented intent differ, the model follows the code:

- `clients(rooms, fn)` with a room name that exists throws a TypeError
  (`index.js:174` maps over room names, not `Room` objects) instead of listing
  the members of those rooms.
- `clients` and `broadcast` with rooms that all do not exist flatten an empty
  list with `.join().split(',')`, which yields the single id `""`; the result
  is empty unless a connection has the empty id.
- A broadcast to several rooms reaches a socket once per target room it is
  in: the member lists are concatenated, not united.
- `del` never deletes a `sids` entry it leaves empty (index.js:88-89). So
  when `add` created the entry for a new id (index.js:73), joining a room and
  leaving it again leaves that empty entry behind: the state is restored only
  for an id that was already known.

## Model

| member | source | states |
|---|---|---|
| Rooms.Added | index.js:28-33 | after `sockets[id] = true` the members are the old ones plus `id`; a present id changes nothing, an absent one goes last with the old keys in front; no id is repeated |
| Rooms.Without | index.js:40-45 | after `delete sockets[id]` the members are the old ones except `id`; an absent id changes nothing |
| Rooms.WithoutDistinct | index.js:40-45 | deleting keeps a room free of repetitions and removes exactly one entry when `id` was a member |
| Rooms.WithoutAdded | index.js:28-45 | deleting an id just added to a room it was not in restores the room, order included |
| Rooms.AddDelIdempotent | index.js:28-45 | adding twice equals adding once; deleting twice equals deleting once |
| Rooms.Room.Add | index.js:28-33 | the members become `Added(old, id)`; `length` goes up by one exactly when `id` was absent; `length` stays equal to the member count |
| Rooms.Room.Del | index.js:40-45 | the members become `Without(old, id)`; `length` goes down by one exactly when `id` was present, so it never falls below the member count |
| Rooms.Room.constructor | index.js:16-20 | a new room is empty with `length` 0 |
| Membership.Touched | index.js:73 | the key order of `sids` after the entry of `id` is made to exist: a new id goes last; stated by `Adapter.Touch` and `JoinKeepsShape` |
| Membership.Enter | index.js:75-76 | the rooms after `room` is created if absent and `id` is added to it; its contract is stated by `JoinEffect` and `EvictEnter` |
| Membership.Join | index.js:72-76 | the index after `add(id, room)`; its contract is stated by `JoinEffect`, `JoinKeepsConsistent`, `JoinIdempotent` and `JoinThenLeave` |
| Membership.Leave | index.js:87-93 | the index after `del(id, room)`; its contract is stated by `LeaveEffect`, `LeaveKeepsConsistent`, `LeaveIdempotent` and `JoinThenLeave` |
| Membership.LeaveAll | index.js:104-112 | the index after `delAll(id)`; its contract is stated by `LeaveAllEffect`, `LeaveAllKeepsConsistent`, `LeaveAllRemovesId` and `LeaveAllUnknown` |
| Membership.EvictEnter | index.js:75-93 | taking an id back out of a room it was just put into, when it was not a member, restores the rooms, dropping a room the join created |
| Membership.JoinEffect | index.js:72-76 | after `add(id, room)`, `room` is recorded for `id` and `id` is a member of `room`; a room is created only if absent and then holds just `id`; all other rooms and all other ids' entries are unchanged |
| Membership.LeaveEffect | index.js:87-93 | after `del(id, room)`, `room` is not recorded for `id`, which now has an entry; `id` is not a member; the room disappears exactly when `id` was its only member; an unknown room leaves `rooms` unchanged; nothing else changes |
| Membership.LeaveAllEffect | index.js:104-112 | after `delAll(id)`, `id` has no entry and no place in the key order; its rooms lose it and disappear exactly when it was their only member; other rooms are untouched; an unknown id leaves `rooms` unchanged |
| Membership.Evict | index.js:106-109 | taking `id` out of a set of rooms: only those rooms change, each becomes `Without(room, id)`, and one is dropped exactly when that leaves it empty |
| Membership.EvictOne | index.js:90-93 | taking `id` out of one room updates that room, or removes it when `id` was its last member; an absent room changes nothing |
| Membership.EvictStep | index.js:106-110 | taking `id` out of the rooms one at a time gives the same rooms as taking it out of all at once |
| Membership.EvictAgree | index.js:106 | names of rooms that do not exist make no difference (the `filter(room => this.rooms[room])`) |
| Membership.EmptyConsistent | index.js:57-63 | a new adapter's empty index is consistent |
| Membership.JoinKeepsConsistent | index.js:72-76 | `add` keeps the invariant: a room is recorded for a socket exactly when the socket is its member, no stored room is empty or repeats an id, the key order matches `sids` |
| Membership.LeaveKeepsConsistent | index.js:87-93 | `del` keeps the same invariant |
| Membership.LeaveAllKeepsConsistent | index.js:104-112 | `delAll` keeps the same invariant |
| Membership.LeaveAllRemovesId | index.js:104-112 | after `delAll(id)` on a consistent index, `id` belongs to no room |
| Membership.LeaveAllUnknown | index.js:104-112 | `delAll` of an unknown id changes nothing |
| Membership.JoinIdempotent | index.js:72-76 | repeating `add(id, room)` changes nothing |
| Membership.LeaveIdempotent | index.js:87-93 | repeating `del(id, room)` changes nothing |
| Membership.JoinThenLeave | index.js:72-93 | `add` then `del` of a room the socket was not in restores the rooms exactly (a room created by the join is dropped); for a known id the whole index is restored, for an unknown id an empty entry is left behind |
| Membership.ReplayKeepsConsistent | index.js:72-115 | any sequence of `add`, `del` and `delAll` calls on a consistent index leaves it consistent |
| Membership.FromEmptyConsistent | index.js:57-115 | any sequence of calls on a new adapter leaves it consistent |
| Fanout.PacketOptsOf | index.js:132-136 | every delivery is pre-encoded and passes `volatile` and `compress` through |
| Fanout.Stamp | index.js:137 | the packet gets the namespace name and is otherwise unchanged |
| Fanout.Existing | index.js:141 | the target names kept are exactly those that name an existing room; the result is empty exactly when none exists |
| Fanout.MemberLists | index.js:142-143 | one member list per kept target, in target order |
| Fanout.JoinSplit | index.js:144 | `.join().split(',')` of the member lists for comma-free ids: `[""]` for no lists; for non-empty lists their concatenation (`PiecesOfNonEmpty`) |
| Fanout.Reachable | index.js:145-147 | the except and connected filters keep at most as many ids as they get; their contract is stated by `ReachableMember`, `ReachableCount` and `ReachableDistinct` |
| Fanout.Recipients | index.js:140-153 | the ids a broadcast delivers to; its contract is stated by `RecipientsOfRooms`, `RecipientsCount`, `RecipientsToRooms`, `RecipientsOfMissingRooms` and `RecipientsToAll` |
| Fanout.ReachableMember | index.js:145-147 | an id survives the except and connected filters exactly when it occurs, is not excluded and is connected |
| Fanout.ReachableCount | index.js:145-147 | the filters keep every occurrence of a surviving id and none of the others |
| Fanout.ReachableDistinct | index.js:150-152 | filtering a list without repetitions leaves one without repetitions |
| Fanout.PiecesOfNonEmpty | index.js:144 | for comma-free ids, `.join().split(',')` of non-empty lists is their concatenation |
| Fanout.HitsPositive | index.js:141-143 | an id is counted for some target exactly when some existing target room has it |
| Fanout.FlattenCount | index.js:141-144 | in the concatenated member lists an id occurs once per target entry whose room has it |
| Fanout.RecipientsOfRooms | index.js:140-148 | with an existing target room, the recipients are the concatenated member lists of the existing targets, in order, minus the excluded and the disconnected ids |
| Fanout.RecipientsCount | index.js:140-148 | duplicates are kept: each connected, non-excluded id is delivered to once per target entry whose room has it |
| Fanout.RecipientsToRooms | index.js:140-148 | with an existing target room, an id is reached exactly when it is connected, not excluded and in some target room |
| Fanout.RecipientsOfMissingRooms | index.js:140-148 | when every named room is missing, the only possible recipient is the id `""` |
| Fanout.RecipientsToAll | index.js:149-153 | without rooms, exactly the known sockets that are connected and not excluded are reached, each once |
| Fanout.Deliveries | index.js:148 | one delivery per recipient, in recipient order, with the same frames and options |
| Fanout.Clients | index.js:164-181 | no callback yields nothing; a callback and an existing named room yield the TypeError; without rooms the listed ids are exactly the connected keys of `sids`; with only missing rooms just `""` can be listed; the error argument is null |
| Fanout.ClientsOfAll | index.js:177-178 | without rooms, `clients` lists exactly the known sockets that are connected, each once |
| Fanout.TwoRoomsHits | index.js:141-144 | with r1 = {a, b} and r2 = {b, c}, b is in both target rooms and a and c in one |
| Fanout.TwoRoomsWellFormed | index.js:140-148 | fixture of the two-room broadcast examples: both example rooms are non-empty and list no id twice |
| Fanout.TwoRoomsExcept | index.js:140-148 | broadcasting to r1 and r2 except b reaches a and c once each and nobody else |
| Fanout.TwoRoomsExceptCount | index.js:140-148 | in that broadcast a and c are reached once and every other id never |
| Fanout.TwoRoomsDuplicate | index.js:140-148 | broadcasting to r1 and r2 without exclusions reaches b twice |
| Fanout.TwoRoomsToAll | index.js:149-153 | broadcasting to all except b with a and c connected reaches a then c |
| Fanout.TwoRoomsClients | index.js:164-181 | `clients([r1])` throws; `clients([])` lists the connected a and c in join order |
| MemoryAdapter.Completion | index.js:77 | the callback is called, with a null error, exactly when one was passed |
| MemoryAdapter.Encoder.Encode | index.js:139 | each call is recorded and yields the frames of the packet |
| MemoryAdapter.Namespace.Deliver | index.js:148 | each `packet(...)` call is appended to the delivery log |
| MemoryAdapter.Adapter.constructor | index.js:57-63 | a new adapter has no rooms and no sids, a fresh encoder, and satisfies the invariant |
| MemoryAdapter.Adapter.Touch | index.js:73 | an unknown id gets an empty entry, last in key order; a known id is untouched |
| MemoryAdapter.Adapter.Enlist | index.js:73-74 | the room is added to the id's entry, which is created empty and last in key order if absent; no other entry changes |
| MemoryAdapter.Adapter.Delist | index.js:88-89 | the room is removed from the id's entry, which is created empty and last in key order if absent; no other entry changes |
| MemoryAdapter.Adapter.Forget | index.js:112 | the id loses its entry and its place in the key order; no other entry changes |
| MemoryAdapter.Adapter.Enroll | index.js:76 | adding to a stored room changes only that room's members |
| MemoryAdapter.Adapter.Withdraw | index.js:91 | deleting from a stored room changes only that room's members and keeps its counter equal to its size |
| MemoryAdapter.Adapter.Store | index.js:75 | storing a new room adds just that room |
| MemoryAdapter.Adapter.Drop | index.js:92 | `delete this.rooms[room]` removes just that room |
| MemoryAdapter.Adapter.AddToRoom | index.js:75-76 | the rooms become `Enter(old, id, room)`; existing Room objects stay in place, any new one is fresh |
| MemoryAdapter.Adapter.DelFromRoom | index.js:90-93 | the rooms become `Evict(old, id, {room})`; no Room object is replaced |
| MemoryAdapter.Adapter.Add | index.js:72-78 | the new state is `Join(old state, id, room)`, the invariant is kept, and the callback gets a null error |
| MemoryAdapter.Adapter.Del | index.js:87-96 | the new state is `Leave(old state, id, room)`, the invariant is kept, and the callback gets a null error |
| MemoryAdapter.Adapter.DelFromRooms | index.js:105-111 | the loop over the socket's rooms leaves the rooms as `Evict(old, id, names)` |
| MemoryAdapter.Adapter.DelAll | index.js:104-115 | the new state is `LeaveAll(old state, id)`, the invariant is kept, and the callback gets a null error |
| MemoryAdapter.Adapter.Broadcast | index.js:128-156 | the stamped packet is encoded exactly once, and the deliveries appended are the recipients of the pipeline, in order, each with the same frames and options |
| MemoryAdapter.Adapter.Fan | index.js:148 | one delivery is appended per recipient, in order |
| MemoryAdapter.Adapter.Clients | index.js:164-181 | the reply is the one `Fanout.Clients` describes, and the state is not changed |

## Left out

- The `EventEmitter` base class: the adapter inherits it but emits nothing.
- The packet encoder of `socket.io-parser`: its wire format is the parameter `wire`. The model assumes it calls its callback synchronously, once.
- `process.nextTick`: the callbacks are not deferred. Their arguments are the return value of each method (`Reply`, `ClientsReply`).
- Transport delivery through `sc.packet(...)`: each call is recorded in the namespace's delivery log instead of performed.
- What `volatile` and `compress` mean: they are passed through unchanged.
- Ids containing `,`: the `.join().split(',')` flattening is modelled for comma-free ids only.
- Object key order for integer-like keys: JavaScript lists such keys first in numeric order. The model uses insertion order for every key.
- Ids or room names that clash with properties of `Object.prototype`, such as `__proto__` or `hasOwnProperty`.
- Packet mutation: `packet.nsp = ...` changes the caller's object. The model's `Stamp` returns a new packet value.
- MemoryAdapter.Adapter.DelFromRooms: it visits the rooms in no particular order, while the source uses the key order of `sids[id]`. The final state is the same for every order.
- MemoryAdapter.Adapter.DelAll: it deletes the `sids` entry before the room loop rather than after it. Nothing in between reads that entry.
- MemoryAdapter.Adapter.AddToRoom: a new room gets its first member before it is stored rather than after. No other code runs in between.
- `clients` with existing rooms: it is modelled only as the TypeError it raises, not as a list of members.
