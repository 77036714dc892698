# Mesh node database, reliable router and routing plugin — a Dafny model

This project models three pieces at the core of a mesh radio firmware.

- **The node database** (`node_db.dfy`, module `NodeDB`). It is a fixed-capacity array of
  node records, of which the first `numNodes` are in use.
  - Lookup and get-or-create keep node numbers unique. A created record is appended
    zeroed, and no record ever moves.
  - A received position is merged into a node's record field by field. A received user
    block replaces the stored one whole. Packet metadata stamps the sender's record.
  - It counts the nodes heard recently, using wrapping 32-bit clock arithmetic.
  - A read cursor walks the records.
  - It chooses the local node number. The first candidate is the configured number, or,
    when none is configured, one derived from the hardware address. Either is moved to
    `NUM_RESERVED` when it is broadcast or reserved. After that come random draws, until a
    number is free or already belongs to the local owner.
- **The reliable router** (`reliable_router.dfy`, module `ReliableRouter`). It keeps a
  table of pending retransmissions keyed by (sender, packet id).
  - A reliable send files a record with two attempts left.
  - Acks, naks and implicit acks cancel a record. An implicit ack is hearing one's own
    broadcast rebroadcast.
  - A periodic tick resends due packets. A due record with no attempts left is removed and
    a nak with `MaxRetransmit` is sent to its sender.
  - The tick returns the sleep until the nearest remaining deadline.
- **The routing plugin** (`routing_plugin.dfy`, module `RoutingPlugin`).
  - It builds ack/nak control packets.
  - It lets the router sniff every routing message before deciding whether to hand it to
    the phone.
  - It never claims a message for itself.
  - It offers no reply.

`mesh_types.dfy` (module `MeshTypes`) holds the shared values: fixed-width integers
(as subset types), node numbers, priorities, routing errors and the packet fields that the
core reads or writes.

## How the model is built

- **Classes and their state.** Each object whose fields the firmware updates in place is a
  class: `NodeDB.NodeDB`, `ReliableRouter.Router` and `RoutingPlugin.RoutingPlugin`.
  - The node table is an `array<NodeInfo>`. Its capacity is the array length.
  - The router's pending table is a `map`.
  - Calls to collaborators are appended to event logs: observer notifications, power-state
    triggers, flooding-router send/filter/sniff, ack/nak sends, local sends and phone
    delivery.
- **Specification functions.** Each state-changing method is specified against pure
  functions of its old state:
  - `WithNode` / `CreateAll` for get-or-create;
  - `MergePosition` for position updates;
  - `StepRecord` / `TickPending` / `TickEvents` for a retransmission tick;
  - `FirstAcceptable` for choosing the node number;
  - `AckNakPacket` for the control packet.

  The properties the firmware relies on are lemmas about those functions. Each lemma covers
  any number of calls:
  - uniqueness and stability of record indices;
  - the full history of position merges;
  - resends then nak for a record;
  - the per-key projection of a whole run of ticks.
- **Collaborators.**
  - The clocks (`millis()`, `getTime()`) are parameters.
  - The transport's retransmission delay is an arbitrary function of the packet.
  - The results of the underlying flooding router are parameters.
  - The packet the allocator returns is a parameter.
  - `random()` is a caller-given sequence of draws.
  - The iteration order of the router's `unordered_map` is a caller-given sequence that
    lists each key exactly once.
- **Failed assertions and comments.**
  - `getOrCreateNode` asserts that the table has room before appending, so a free slot
    (or a key already present) is a precondition of `GetOrCreateNode`.
  - `allocReply`'s `assert(0)` on a request from the routing port is likewise a
    precondition.
  - `NUM_ONLINE_SECS` is `60 * 2`, that is 120 seconds, as written, although the comment
    beside it says two hours.
  - `pickNewNodeNum`'s loop has no bound in the code. Here it runs over finite draws, and
    the result `None` means that every draw collided, so the loop would still be running.

## Model

| member | source | states |
|---|---|---|
| NodeDB.GetFrom | src/mesh/NodeDB.cpp:73-75 | sender 0 (the local phone) is read as our node number, any other sender is returned unchanged; the result is 0 only if both are 0 |
| NodeDB.AsInt32 | src/mesh/NodeDB.cpp:337 | the (int) cast of a uint32: congruent to it modulo 2^32, negative exactly when the top bit is set |
| NodeDB.SubU32 | src/mesh/NodeDB.cpp:337 | uint32 subtraction: b plus the result is a modulo 2^32, and it is the plain difference when b <= a |
| NodeDB.SinceLastSeen | src/mesh/NodeDB.cpp:332-342 | seconds since last heard are below 2^31, equal now - time when no wrap occurs, and are clamped to 0 when the stored time is up to 2^31 ahead of now |
| NodeDB.IsOnline | src/mesh/NodeDB.cpp:352 | a record is online when it was heard less than NUM_ONLINE_SECS (120) seconds ago |
| NodeDB.CountOnline | src/mesh/NodeDB.cpp:351-353 | the number of online records, at most the number of records |
| NodeDB.CountOnlineIsCardinality | src/mesh/NodeDB.cpp:344-356 | the online count equals the number of record indices heard less than NUM_ONLINE_SECS (120) seconds ago |
| NodeDB.CountWhereIsCardinality | src/mesh/NodeDB.cpp:351-353 | a front-to-back counting scan counts exactly the indices whose element passes the test |
| NodeDB.Lookup | src/mesh/NodeDB.cpp:430-437 | the first index whose record has number n, with no earlier match; None exactly when no record has number n |
| NodeDB.EmptyNode | src/mesh/NodeDB.cpp:449-451 | the record get-or-create installs: every field zero, every has_ flag false, except the node number |
| NodeDB.WithNode | src/mesh/NodeDB.cpp:440-455 | after get-or-create, n is present; when it was present nothing changes, otherwise exactly one zeroed record with number n is appended; earlier records and key uniqueness are preserved |
| NodeDB.LookupInPrefix | src/mesh/NodeDB.cpp:432-434 | a lookup that succeeds keeps its index when records are appended |
| NodeDB.CreateAllProperties | src/mesh/NodeDB.cpp:440-455 | over any series of get-or-create calls: keys stay unique, existing records keep index and contents, every requested number is present, and at most one record is added per call |
| NodeDB.CreateAllSplit | src/mesh/NodeDB.cpp:440-455 | a series of get-or-create calls splits at any point into the calls before and the calls after |
| NodeDB.LookupIsStable | src/mesh/NodeDB.cpp:440-455 | the index a node number got when it was first requested is the index every later lookup returns, and that record's number is the key |
| NodeDB.MergePosition | src/mesh/NodeDB.cpp:371-378 | a stored time is never replaced and a zero stored time takes the incoming one; a zero battery level is ignored; latitude and longitude are replaced together exactly when either incoming one is nonzero |
| NodeDB.MergeAllHistory | src/mesh/NodeDB.cpp:362-382 | after any series of position updates, the time is the first nonzero time ever seen, the battery level is the last nonzero one, and latitude/longitude are the last pair that had a fix |
| NodeDB.MacNodeNum | src/mesh/NodeDB.cpp:228 | the number built from address bytes 2..5 holds them most significant first: byte 2 is its top byte, bytes 3 and 4 the middle ones and byte 5 its low byte |
| NodeDB.InitialCandidate | src/mesh/NodeDB.cpp:224-231 | the first candidate is never broadcast or reserved; a valid configured number is kept and an invalid nonzero one becomes NUM_RESERVED; with no configured number a valid address number is taken, an invalid one becomes NUM_RESERVED |
| NodeDB.FirstAcceptableIsFirst | src/mesh/NodeDB.cpp:233-238 | the chosen number is acceptable (free, or held by a record with the owner's address) and every earlier candidate is not; there is no choice exactly when no candidate is acceptable |
| NodeDB.FirstAcceptableSkip | src/mesh/NodeDB.cpp:234-237 | a colliding candidate is skipped without changing the eventual choice |
| NodeDB.NodeDB.constructor | src/mesh/NodeDB.cpp:67 | an empty database of the given capacity, cursor at 0, no notifications |
| NodeDB.NodeDB.GetNode | src/mesh/NodeDB.cpp:430-437 | the linear scan returns Lookup of the records in use and changes nothing |
| NodeDB.NodeDB.GetOrCreateNode | src/mesh/NodeDB.cpp:440-455 | with a free slot or a present key, the records become WithNode of the old ones and the returned index holds number n |
| NodeDB.NodeDB.UpdatePosition | src/mesh/NodeDB.cpp:362-382 | the node's record (created if needed) gets MergePosition of its position and has_position; it becomes the record to redraw; observers are notified with force |
| NodeDB.NodeDB.UpdateUser | src/mesh/NodeDB.cpp:386-408 | the node's user block is replaced and has_user set; redraw, power-state event and forced notification happen exactly when the block changed |
| NodeDB.NodeDB.UpdateFrom | src/mesh/NodeDB.cpp:412-426 | a decoded packet stamps its sender's record (created if needed) with a nonzero rx_time as position time and always with rx_snr; an encrypted packet changes nothing |
| NodeDB.NodeDB.ReadNextInfo | src/mesh/NodeDB.cpp:323-329 | returns the record under the cursor and advances it, or None with the cursor unchanged once every record was read |
| NodeDB.NodeDB.GetNumOnlineNodes | src/mesh/NodeDB.cpp:346-356 | the loop's count equals CountOnline of the records in use, at most their number |
| NodeDB.NodeDB.PickNewNodeNum | src/mesh/NodeDB.cpp:222-241 | the number picked is FirstAcceptable of the initial candidate followed by the draws, and becomes the local node number; when none is acceptable the number is unchanged |
| ReliableRouter.KeyOf | src/mesh/ReliableRouter.cpp:137-140 | the key a packet is filed under: its sender as getFrom reads it, and its id |
| ReliableRouter.NewPendingPacket | src/mesh/ReliableRouter.cpp:95-101 | a new record holds the packet with NUM_RETRANSMISSIONS - 1 = 2 attempts left |
| ReliableRouter.SetNextTx | src/mesh/ReliableRouter.cpp:199-207 | the deadline becomes now plus the transport's delay for the packet; packet and attempts are untouched |
| ReliableRouter.AckNakIds | src/mesh/ReliableRouter.cpp:73-77 | at most one of ackId and nakId is nonzero; a packet without a routing message, or with ErrorNone, acks its request id; any other error naks it; a nonzero request id is always one of the two |
| ReliableRouter.StepRecord | src/mesh/ReliableRouter.cpp:160-193 | a record not yet due is left alone with no events; a due one with attempts left sends its packet once and is kept with one attempt fewer and the deadline now plus the delay; a due one with none left sends one MaxRetransmit nak to its sender; it is dropped exactly in that last case |
| ReliableRouter.TickPending | src/mesh/ReliableRouter.cpp:151-197 | after a tick, exactly the keys whose records StepRecord keeps remain, holding the stepped records, and every record is still filed under its own key |
| ReliableRouter.ProjectTick | src/mesh/ReliableRouter.cpp:158-194 | whatever order the tick visits keys in, the events it logs about key k are exactly those k's own record produces |
| ReliableRouter.RunRecordSafety | src/mesh/ReliableRouter.cpp:160-193 | under any tick times, a record produces a prefix of "its remaining resends, then one nak", and it is removed exactly when it has produced all of it |
| ReliableRouter.RunRecordExhausts | src/mesh/ReliableRouter.cpp:165-185 | ticked no earlier than each deadline and at least once more than its remaining attempts, a record with no answer produces all its resends, then the nak, and is removed |
| ReliableRouter.FreshRecordAttempts | src/mesh/ReliableRouter.cpp:97-101 | a record from a reliable send owes exactly two resends of its packet and then a MaxRetransmit nak to its sender |
| ReliableRouter.RunTicksProjection | src/mesh/ReliableRouter.cpp:151-197 | over any series of ticks, the log's events about key k are those k's record alone produces, and k stays in the table exactly as long as that run keeps it; a key with no record is never mentioned |
| ReliableRouter.ReliableSendExhausts | src/mesh/ReliableRouter.cpp:151-197 | with no ack or nak, punctual ticks make a reliable packet's key appear in the log exactly as two resends and one MaxRetransmit nak, and leave no record under it |
| ReliableRouter.Router.constructor | src/mesh/ReliableRouter.cpp:7 | a new router has no pending records and has logged nothing |
| ReliableRouter.Router.FindPendingPacket | src/mesh/ReliableRouter.cpp:103-110 | Some exactly when the key has a record, and then that record |
| ReliableRouter.Router.StopRetransmissionKey | src/mesh/ReliableRouter.cpp:120-130 | true exactly when the key had a record; afterwards exactly that key is gone |
| ReliableRouter.Router.StopRetransmission | src/mesh/ReliableRouter.cpp:114-118 | the same for the key (from, id) |
| ReliableRouter.Router.StartRetransmission | src/mesh/ReliableRouter.cpp:135-146 | any stale record under the packet's key is replaced by a fresh one whose deadline is set from now |
| ReliableRouter.Router.Send | src/mesh/ReliableRouter.cpp:13-26 | a want_ack broadcast with hop limit 0 goes out with hop limit 1 and no other change; a want_ack packet gets a pending record; the packet is handed to the flooding router and its result returned |
| ReliableRouter.Router.ShouldFilterReceived | src/mesh/ReliableRouter.cpp:28-46 | hearing our own broadcast cancels its record and sends one ErrorNone ack only if a record was there; the verdict is the flooding router's |
| ReliableRouter.Router.SniffReceived | src/mesh/ReliableRouter.cpp:60-93 | a packet to us is acked if it wants an ack and no reply was made; a nonzero request id cancels (us, request id); then the flooding router sniffs it |
| ReliableRouter.Router.RetransmitOne | src/mesh/ReliableRouter.cpp:160-193 | one visited record's table change and logged events are StepRecord's |
| ReliableRouter.Router.VisitKey | src/mesh/ReliableRouter.cpp:158-194 | one loop iteration extends the partly ticked table, the log and the sleep bound by one key |
| ReliableRouter.Router.DoRetransmissions | src/mesh/ReliableRouter.cpp:151-197 | the table becomes TickPending, the log gains TickEvents in visit order, and the result is the smallest time to a remaining deadline, INT32_MAX when none remains |
| RoutingPlugin.ShouldDeliver | src/plugins/RoutingPlugin.cpp:17-20 | the delivery rule: a packet goes to the phone when it is for everyone or for us and its sender is not 0 (the phone itself) |
| RoutingPlugin.AllocReply | src/plugins/RoutingPlugin.cpp:26-36 | for a request not on the routing port there is no reply |
| RoutingPlugin.AckNakPacket | src/plugins/RoutingPlugin.cpp:38-53 | the control packet carries Routing(err) on the routing port, at Ack priority with hop limit 0, addressed to `to` and answering idFrom; sender, id and want_ack are the allocator's |
| RoutingPlugin.AckNakAnswersOwnPacket | src/plugins/RoutingPlugin.cpp:44-49 | the ack/nak for a packet we sent, heard back by us, names exactly the key the router filed it under, and is read as an ack when err is ErrorNone and as a nak otherwise |
| RoutingPlugin.RoutingPlugin.constructor | src/plugins/RoutingPlugin.cpp:55-59 | the plugin is created promiscuous |
| RoutingPlugin.RoutingPlugin.SendAckNak | src/plugins/RoutingPlugin.cpp:38-53 | the packet built field by field is AckNakPacket, and it goes out on the local send path |
| RoutingPlugin.RoutingPlugin.HandleReceivedProtobuf | src/plugins/RoutingPlugin.cpp:10-23 | the router sniffs the packet first (its table and log change as SniffReceived says), then the packet goes to the phone exactly when the delivery rule holds; the result is always false |

## Left out

- Loading and saving the database: the file system, protobuf encoding and the rule that
  resets an older saved database (`NodeDB.cpp`, around line 264). These are I/O and
  encoding, not database logic.
- `resetRadioConfig`, `installDefaultDeviceState` and `init`: configuration defaults,
  string formatting and channel setup.
- `recordCriticalError`, the screen, and `DEBUG_MSG`/`printPacket` logging. They are output
  only.
- The packet pool: allocation, copies and release. Packets are values, so ownership and
  aliasing are not modelled. Releasing a packet when its record is cancelled is not modelled
  either.
- The flooding router underneath, `sendLocal`, the phone service and the transport
  (`getRetransmissionMsec`, `setReceivedMessage`). That code is not part of this model.
  Calls to it are logged, and its results are parameters or an arbitrary function.
- `ReliableRouter::sendAckNak`'s own body is not part of this model. The router logs an `AckNakSent`
  event, and `RoutingPlugin.AckNakPacket` builds the packet that event stands for. Delivery
  of that packet back through the router is not modelled as a re-entrant call.
- `MeshPlugin.h` dispatch. `currentReply` enters only as a boolean input.
- `GlobalPacketId`'s constructor from a packet is not part of this model. It is taken to be
  (getFrom(p), p.id), the key `startRetransmission` itself cancels before filing.
- `MAX_NUM_NODES` has its value in a generated header, so the capacity is a constructor
  parameter.
- ReliableRouter.Router.DoRetransmissions: millisecond times are unbounded naturals. This
  leaves out three things:
  - the 32-bit rollover of `millis()`, which the source flags;
  - the 32-bit wrap of `nextTxMsec`;
  - the `int32_t` cast of `nextTxMsec - now`, which in the source turns a gap above
    INT32_MAX into a negative sleep.

  The model caps the sleep at INT32_MAX instead.
- ReliableRouter.NewPendingPacket: the deadline starts at 0. `setNextTx` always sets the
  deadline before the record is filed, so the source's initial value never shows.
- NodeDB.MacNodeNum: the source shifts `uint8_t` bytes promoted to `int`, so a byte of 128 or
  more shifted by 24 overflows a signed int. The model gives the intended unsigned value.
- NodeDB.NodeDB.PickNewNodeNum: termination of the random loop is not modelled. The model
  covers finitely many draws, and the draws must lie in [NUM_RESERVED, NODENUM_BROADCAST),
  the range `random(NUM_RESERVED, NODENUM_BROADCAST)` returns.
- NodeDB.NodeDB.UpdateFrom: the SNR is a `real`, not a `float`, so floating point is not
  modelled.
- NodeDB.NodeDB.UpdateUser: `changed` compares the stored and the new block with `memcmp`
  over `sizeof(User)`. The model compares the user's field values, with strings of any
  length. Bytes after a string's terminator and the fixed widths of the character arrays are
  not modelled.
- One clock value per call. `sinceLastSeen` calls `getTime()` again for every record that
  `getNumOnlineNodes` visits. `setNextTx` reads `millis()` again after `doRetransmissions`
  has read it. The model takes one `now` for the whole call in
  NodeDB.NodeDB.GetNumOnlineNodes and ReliableRouter.Router.DoRetransmissions. So a new deadline is exactly the tick's time plus the delay,
  and a record ticked at exactly that time counts as due.
- Concurrency: `getNode` may be called from an interrupt handler. Interleaving is not
  modelled.
