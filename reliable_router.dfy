/**
  The reliable router: a table of pending retransmissions keyed by (sender, packet id), filled
  by reliable sends, emptied by acks, naks, implicit acks (hearing one's own broadcast relayed)
  and exhaustion, and driven by a periodic tick that resends what is due.

  The flooding router underneath, the ack/nak sender and the transport are collaborators whose
  calls are appended to an event log; what they return is passed in.  The clock is a parameter
  and the transport's retransmission delay an arbitrary function of the packet.
 */
module ReliableRouter {
  import opened MeshTypes
  import NodeDB

  /** Total transmission attempts of a reliable packet, the first send included. */
  const NUM_RETRANSMISSIONS: nat := 3

  type ErrorCode = int

  /** GlobalPacketId: a packet's identity across the mesh. */
  datatype GlobalPacketId = GlobalPacketId(node: NodeNum, id: PacketId)

  /** The key a packet is tracked under: its sender (0 meaning the local node) and its id. */
  function KeyOf(p: MeshPacket, ourNode: NodeNum): GlobalPacketId
  {
    GlobalPacketId(NodeDB.GetFrom(p, ourNode), p.id)
  }

  /** A buffered copy of a reliable packet with its remaining attempts and next deadline. */
  datatype PendingPacket = PendingPacket(packet: MeshPacket, numRetransmissions: nat, nextTxMsec: nat)

  /** A new pending record: the caller has just made the first attempt, so two remain. */
  function NewPendingPacket(p: MeshPacket): (r: PendingPacket)
    ensures r.packet == p
    ensures r.numRetransmissions == NUM_RETRANSMISSIONS - 1 == 2
  {
    PendingPacket(p, NUM_RETRANSMISSIONS - 1, 0)
  }

  /** setNextTx: the deadline becomes now plus the transport's delay for this packet; nothing else changes. */
  function SetNextTx(rec: PendingPacket, now: nat, delay: MeshPacket -> nat): (r: PendingPacket)
    ensures r.packet == rec.packet && r.numRetransmissions == rec.numRetransmissions
    ensures r.nextTxMsec == now + delay(rec.packet) >= now
  {
    rec.(nextTxMsec := now + delay(rec.packet))
  }

  /** Calls the router makes to its collaborators, in order. */
  datatype RouterEvent =
    | FloodSend(p: MeshPacket)                                      // FloodingRouter::send
    | FloodFilter(p: MeshPacket)                                    // FloodingRouter::shouldFilterReceived
    | FloodSniff(p: MeshPacket, c: Option<Routing>)                 // FloodingRouter::sniffReceived
    | AckNakSent(err: RoutingError, to: NodeNum, idFrom: PacketId)  // sendAckNak

  /** Every record is filed under its own packet's key and has at most two attempts left. */
  ghost predicate WellKeyed(m: map<GlobalPacketId, PendingPacket>, ourNode: NodeNum)
  {
    forall k :: k in m ==> KeyOf(m[k].packet, ourNode) == k && m[k].numRetransmissions < NUM_RETRANSMISSIONS
  }

  ghost predicate NoDuplicates<T>(s: seq<T>)
  {
    forall i, j :: 0 <= i < j < |s| ==> s[i] != s[j]
  }

  // ---------------------------------------------------------------------------------------
  // Ack / nak classification of a sniffed packet

  /**
    The (ackId, nakId) pair of a packet addressed to us: a packet without a routing message,
    or with error ErrorNone, acks its request id; one with any other error naks it.
   */
  function AckNakIds(p: MeshPacket, c: Option<Routing>): (ids: (PacketId, PacketId))
    ensures ids.0 == 0 || ids.1 == 0
    ensures ids.0 != 0 ==> ids.0 == p.decoded.request_id && (c.None? || c.value.error_reason == ErrorNone)
    ensures ids.1 != 0 ==> ids.1 == p.decoded.request_id && c.Some? && c.value.error_reason != ErrorNone
    ensures p.decoded.request_id != 0 ==> ids.0 != 0 || ids.1 != 0
  {
    var ackId := if (c.Some? && c.value.error_reason == ErrorNone) || c.None? then p.decoded.request_id else 0;
    var nakId := if c.Some? && c.value.error_reason != ErrorNone then p.decoded.request_id else 0;
    (ackId, nakId)
  }

  // ---------------------------------------------------------------------------------------
  // One retransmission tick, as functions of the table

  datatype StepOutcome = StepOutcome(kept: Option<PendingPacket>, events: seq<RouterEvent>)

  /**
    What a tick at time now does to one record: nothing when it is not due; when due, a nak
    and removal if no attempt is left, otherwise a resend, one attempt fewer and a new deadline.
   */
  function StepRecord(rec: PendingPacket, now: nat, ourNode: NodeNum, delay: MeshPacket -> nat): (o: StepOutcome)
    ensures rec.nextTxMsec > now ==> o == StepOutcome(Some(rec), [])
    ensures o.kept.Some? ==> o.kept.value.packet == rec.packet && o.kept.value.nextTxMsec >= now
    ensures o.kept.Some? ==> o.kept.value.numRetransmissions <= rec.numRetransmissions
    ensures o.kept.None? <==> rec.nextTxMsec <= now && rec.numRetransmissions == 0
    ensures rec.nextTxMsec <= now && rec.numRetransmissions == 0 ==>
              o.events == [AckNakSent(MaxRetransmit, NodeDB.GetFrom(rec.packet, ourNode), rec.packet.id)]
    ensures rec.nextTxMsec <= now && rec.numRetransmissions > 0 ==>
              && o.events == [FloodSend(rec.packet)]
              && o.kept.value.numRetransmissions == rec.numRetransmissions - 1
              && o.kept.value.nextTxMsec == now + delay(rec.packet)
  {
    if rec.nextTxMsec <= now then
      if rec.numRetransmissions == 0 then
        StepOutcome(None, [AckNakSent(MaxRetransmit, NodeDB.GetFrom(rec.packet, ourNode), rec.packet.id)])
      else
        StepOutcome(Some(SetNextTx(rec.(numRetransmissions := rec.numRetransmissions - 1), now, delay)),
                    [FloodSend(rec.packet)])
    else
      StepOutcome(Some(rec), [])
  }

  /** The table after a tick has treated the keys in done (and not yet the others). */
  function TickPendingOn(m: map<GlobalPacketId, PendingPacket>, done: seq<GlobalPacketId>, now: nat,
                         ourNode: NodeNum, delay: MeshPacket -> nat): map<GlobalPacketId, PendingPacket>
  {
    map k | k in m && (k in done ==> StepRecord(m[k], now, ourNode, delay).kept.Some?) ::
      if k in done then StepRecord(m[k], now, ourNode, delay).kept.value else m[k]
  }

  /** The table after a whole tick. */
  function TickPending(m: map<GlobalPacketId, PendingPacket>, now: nat, ourNode: NodeNum,
                       delay: MeshPacket -> nat): (r: map<GlobalPacketId, PendingPacket>)
    ensures r.Keys <= m.Keys
    ensures forall k :: k in m ==> (k in r <==> StepRecord(m[k], now, ourNode, delay).kept.Some?)
    ensures forall k :: k in r ==> r[k] == StepRecord(m[k], now, ourNode, delay).kept.value
    ensures WellKeyed(m, ourNode) ==> WellKeyed(r, ourNode)
  {
    map k | k in m && StepRecord(m[k], now, ourNode, delay).kept.Some? ::
      StepRecord(m[k], now, ourNode, delay).kept.value
  }

  /** The collaborator calls of a tick that visits the keys in order. */
  function TickEvents(m: map<GlobalPacketId, PendingPacket>, order: seq<GlobalPacketId>, now: nat,
                      ourNode: NodeNum, delay: MeshPacket -> nat): seq<RouterEvent>
  {
    if order == [] then []
    else
      var k := order[|order| - 1];
      TickEvents(m, order[..|order| - 1], now, ourNode, delay) +
      (if k in m then StepRecord(m[k], now, ourNode, delay).events else [])
  }

  lemma TickPendingOnNone(m: map<GlobalPacketId, PendingPacket>, now: nat, ourNode: NodeNum, delay: MeshPacket -> nat)
    ensures TickPendingOn(m, [], now, ourNode, delay) == m
  {
  }

  lemma TickPendingOnAll(m: map<GlobalPacketId, PendingPacket>, order: seq<GlobalPacketId>, now: nat,
                         ourNode: NodeNum, delay: MeshPacket -> nat)
    requires forall k :: k in m ==> k in order
    ensures TickPendingOn(m, order, now, ourNode, delay) == TickPending(m, now, ourNode, delay)
  {
  }

  // ---------------------------------------------------------------------------------------
  // The events that concern one key

  /** The pending-table key an event is about, if any. */
  function EventKey(e: RouterEvent, ourNode: NodeNum): Option<GlobalPacketId>
  {
    match e
    case FloodSend(p) => Some(KeyOf(p, ourNode))
    case AckNakSent(_, to, idFrom) => Some(GlobalPacketId(to, idFrom))
    case _ => None
  }

  /** The subsequence of events about key k. */
  function Project(evs: seq<RouterEvent>, k: GlobalPacketId, ourNode: NodeNum): (r: seq<RouterEvent>)
    ensures |r| <= |evs|
    ensures forall i :: 0 <= i < |r| ==> EventKey(r[i], ourNode) == Some(k)
  {
    if evs == [] then []
    else (if EventKey(evs[0], ourNode) == Some(k) then [evs[0]] else []) + Project(evs[1..], k, ourNode)
  }

  lemma {:induction false} ProjectAppend(a: seq<RouterEvent>, b: seq<RouterEvent>, k: GlobalPacketId, ourNode: NodeNum)
    ensures Project(a + b, k, ourNode) == Project(a, k, ourNode) + Project(b, k, ourNode)
  {
    if a != [] {
      assert (a + b)[1..] == a[1..] + b;
      ProjectAppend(a[1..], b, k, ourNode);
    } else {
      assert a + b == b;
    }
  }

  /** Every event a record's step produces is about that record's key. */
  lemma StepEventsKeyed(rec: PendingPacket, now: nat, ourNode: NodeNum, delay: MeshPacket -> nat)
    ensures forall i :: 0 <= i < |StepRecord(rec, now, ourNode, delay).events| ==>
              EventKey(StepRecord(rec, now, ourNode, delay).events[i], ourNode) == Some(KeyOf(rec.packet, ourNode))
  {
  }

  lemma {:induction false} ProjectAllKeyed(evs: seq<RouterEvent>, k: GlobalPacketId, ourNode: NodeNum)
    requires forall i :: 0 <= i < |evs| ==> EventKey(evs[i], ourNode) == Some(k)
    ensures Project(evs, k, ourNode) == evs
  {
    if evs != [] {
      ProjectAllKeyed(evs[1..], k, ourNode);
    }
  }

  lemma {:induction false} ProjectNoneKeyed(evs: seq<RouterEvent>, k: GlobalPacketId, ourNode: NodeNum)
    requires forall i :: 0 <= i < |evs| ==> EventKey(evs[i], ourNode) != Some(k)
    ensures Project(evs, k, ourNode) == []
  {
    if evs != [] {
      ProjectNoneKeyed(evs[1..], k, ourNode);
    }
  }

  /**
    Whatever order a tick visits the keys in, the events it produces about key k are exactly
    the ones k's own record produces, and none at all when k has no record.
   */
  lemma {:induction false} ProjectTick(m: map<GlobalPacketId, PendingPacket>, order: seq<GlobalPacketId>, now: nat,
                                       ourNode: NodeNum, delay: MeshPacket -> nat, k: GlobalPacketId)
    requires WellKeyed(m, ourNode) && NoDuplicates(order)
    ensures Project(TickEvents(m, order, now, ourNode, delay), k, ourNode) ==
            if k in m && k in order then StepRecord(m[k], now, ourNode, delay).events else []
  {
    if order != [] {
      var init := order[..|order| - 1];
      var last := order[|order| - 1];
      var lastEvents := if last in m then StepRecord(m[last], now, ourNode, delay).events else [];
      assert NoDuplicates(init);
      ProjectAppend(TickEvents(m, init, now, ourNode, delay), lastEvents, k, ourNode);
      if last in m {
        StepEventsKeyed(m[last], now, ourNode, delay);
      }
      if last == k {
        assert k !in init;
        ProjectTick(m, init, now, ourNode, delay, k);
        if k in m {
          ProjectAllKeyed(lastEvents, k, ourNode);
        } else {
          assert lastEvents == [];
        }
      } else {
        assert k in order <==> k in init;
        ProjectTick(m, init, now, ourNode, delay, k);
        ProjectNoneKeyed(lastEvents, k, ourNode);
      }
    }
  }

  // ---------------------------------------------------------------------------------------
  // The life of one record under repeated ticks

  /** The resends a record still owes: one per remaining attempt. */
  function Resends(p: MeshPacket, n: nat): (r: seq<RouterEvent>)
    ensures |r| == n && forall i :: 0 <= i < n ==> r[i] == FloodSend(p)
  {
    if n == 0 then [] else [FloodSend(p)] + Resends(p, n - 1)
  }

  /** Everything a record will produce if no ack or nak ever arrives: its resends, then a nak. */
  function Attempts(rec: PendingPacket, ourNode: NodeNum): seq<RouterEvent>
  {
    Resends(rec.packet, rec.numRetransmissions) +
    [AckNakSent(MaxRetransmit, NodeDB.GetFrom(rec.packet, ourNode), rec.packet.id)]
  }

  /** A record ticked at each of the given times, until it is removed. */
  function RunRecord(rec: PendingPacket, times: seq<nat>, ourNode: NodeNum, delay: MeshPacket -> nat): StepOutcome
    decreases |times|
  {
    if times == [] then StepOutcome(Some(rec), [])
    else
      var o := StepRecord(rec, times[0], ourNode, delay);
      match o.kept
      case None => o
      case Some(next) =>
        var rest := RunRecord(next, times[1..], ourNode, delay);
        StepOutcome(rest.kept, o.events + rest.events)
  }

  ghost predicate IsPrefix<T>(a: seq<T>, b: seq<T>)
  {
    |a| <= |b| && a == b[..|a|]
  }

  /**
    Safety, for any tick times: a record produces a prefix of its resends-then-nak sequence,
    keeps its packet, and is removed exactly when it has produced all of it (the nak last).
   */
  lemma {:induction false} RunRecordSafety(rec: PendingPacket, times: seq<nat>, ourNode: NodeNum, delay: MeshPacket -> nat)
    ensures IsPrefix(RunRecord(rec, times, ourNode, delay).events, Attempts(rec, ourNode))
    ensures RunRecord(rec, times, ourNode, delay).kept.None? <==>
            RunRecord(rec, times, ourNode, delay).events == Attempts(rec, ourNode)
    ensures RunRecord(rec, times, ourNode, delay).kept.Some? ==>
            RunRecord(rec, times, ourNode, delay).kept.value.packet == rec.packet
    decreases |times|
  {
    var out := RunRecord(rec, times, ourNode, delay);
    if times != [] {
      var o := StepRecord(rec, times[0], ourNode, delay);
      if o.kept.Some? {
        var next := o.kept.value;
        RunRecordSafety(next, times[1..], ourNode, delay);
        var rest := RunRecord(next, times[1..], ourNode, delay);
        assert out.events == o.events + rest.events;
        if rec.nextTxMsec <= times[0] {
          assert next.numRetransmissions == rec.numRetransmissions - 1;
          assert Attempts(rec, ourNode) == [FloodSend(rec.packet)] + Attempts(next, ourNode) by {
            assert Resends(rec.packet, rec.numRetransmissions) ==
                   [FloodSend(rec.packet)] + Resends(rec.packet, next.numRetransmissions);
          }
        } else {
          assert next == rec && o.events == [];
          assert out.events == rest.events;
        }
      } else {
        assert Resends(rec.packet, rec.numRetransmissions) == [];
      }
    } else {
      assert |Attempts(rec, ourNode)| > 0;
    }
  }

  /** Ticks that are never early: the first at the deadline or later, each later one at least one delay after the previous. */
  ghost predicate Punctual(rec: PendingPacket, times: seq<nat>, delay: MeshPacket -> nat)
  {
    (|times| > 0 ==> times[0] >= rec.nextTxMsec) &&
    forall i :: 0 <= i < |times| - 1 ==> times[i + 1] >= times[i] + delay(rec.packet)
  }

  /**
    Liveness: ticked punctually at least once per remaining attempt plus once more, a record
    with no ack or nak produces all its resends and then the nak, and is removed.
   */
  lemma {:induction false} RunRecordExhausts(rec: PendingPacket, times: seq<nat>, ourNode: NodeNum, delay: MeshPacket -> nat)
    requires Punctual(rec, times, delay)
    requires |times| > rec.numRetransmissions
    ensures RunRecord(rec, times, ourNode, delay).events == Attempts(rec, ourNode)
    ensures RunRecord(rec, times, ourNode, delay).kept.None?
    decreases |times|
  {
    var o := StepRecord(rec, times[0], ourNode, delay);
    if rec.numRetransmissions == 0 {
      assert Resends(rec.packet, 0) == [];
    } else {
      var next := o.kept.value;
      assert next.nextTxMsec == times[0] + delay(rec.packet);
      assert Punctual(next, times[1..], delay) by {
        assert times[1..][0] == times[1];
        forall i | 0 <= i < |times[1..]| - 1
          ensures times[1..][i + 1] >= times[1..][i] + delay(next.packet)
        {
          assert times[1..][i + 1] == times[i + 2] && times[1..][i] == times[i + 1];
        }
      }
      RunRecordExhausts(next, times[1..], ourNode, delay);
      assert Attempts(rec, ourNode) == [FloodSend(rec.packet)] + Attempts(next, ourNode) by {
        assert Resends(rec.packet, rec.numRetransmissions) ==
               [FloodSend(rec.packet)] + Resends(rec.packet, next.numRetransmissions);
      }
    }
  }

  /** A record fresh from a reliable send owes exactly two resends of its packet and then one nak. */
  lemma FreshRecordAttempts(p: MeshPacket, now: nat, ourNode: NodeNum, delay: MeshPacket -> nat)
    ensures Attempts(SetNextTx(NewPendingPacket(p), now, delay), ourNode) ==
            [FloodSend(p), FloodSend(p), AckNakSent(MaxRetransmit, NodeDB.GetFrom(p, ourNode), p.id)]
  {
    assert Resends(p, 2) == [FloodSend(p), FloodSend(p)];
  }

  // ---------------------------------------------------------------------------------------
  // The whole table under repeated ticks

  datatype RunResult = RunResult(pending: map<GlobalPacketId, PendingPacket>, events: seq<RouterEvent>)

  /** The table ticked at each of the given times, visiting keys in order each time. */
  function RunTicks(m: map<GlobalPacketId, PendingPacket>, order: seq<GlobalPacketId>, times: seq<nat>,
                    ourNode: NodeNum, delay: MeshPacket -> nat): RunResult
    decreases |times|
  {
    if times == [] then RunResult(m, [])
    else
      var rest := RunTicks(TickPending(m, times[0], ourNode, delay), order, times[1..], ourNode, delay);
      RunResult(rest.pending, TickEvents(m, order, times[0], ourNode, delay) + rest.events)
  }

  /**
    Under any series of ticks (and no acks or naks), what the log says about key k is what
    k's record alone produces, and k's record survives exactly as long as that run keeps it;
    a key without a record stays without one and is never mentioned.
   */
  lemma {:induction false} RunTicksProjection(m: map<GlobalPacketId, PendingPacket>, order: seq<GlobalPacketId>,
                                              times: seq<nat>, ourNode: NodeNum, delay: MeshPacket -> nat,
                                              k: GlobalPacketId)
    requires WellKeyed(m, ourNode) && NoDuplicates(order)
    requires forall k' :: k' in m ==> k' in order
    ensures k in m ==> Project(RunTicks(m, order, times, ourNode, delay).events, k, ourNode) ==
                       RunRecord(m[k], times, ourNode, delay).events
    ensures k in m ==> (k in RunTicks(m, order, times, ourNode, delay).pending <==>
                        RunRecord(m[k], times, ourNode, delay).kept.Some?)
    ensures k !in m ==> Project(RunTicks(m, order, times, ourNode, delay).events, k, ourNode) == [] &&
                        k !in RunTicks(m, order, times, ourNode, delay).pending
    decreases |times|
  {
    if times != [] {
      var m1 := TickPending(m, times[0], ourNode, delay);
      var tick := TickEvents(m, order, times[0], ourNode, delay);
      var rest := RunTicks(m1, order, times[1..], ourNode, delay);
      RunTicksProjection(m1, order, times[1..], ourNode, delay, k);
      ProjectTick(m, order, times[0], ourNode, delay, k);
      ProjectAppend(tick, rest.events, k, ourNode);
    }
  }

  /**
    The whole protocol for one reliable send, with no ack or nak: once the record is in the
    table, punctual ticks make the log mention its key exactly three times, two resends of the
    packet and then one nak with error MaxRetransmit, and leave no record under the key.
   */
  lemma ReliableSendExhausts(m: map<GlobalPacketId, PendingPacket>, p: MeshPacket, sentAt: nat,
                             order: seq<GlobalPacketId>, times: seq<nat>, ourNode: NodeNum, delay: MeshPacket -> nat)
    requires WellKeyed(m, ourNode) && NoDuplicates(order)
    requires forall k' :: k' in m ==> k' in order
    requires KeyOf(p, ourNode) in m && m[KeyOf(p, ourNode)] == SetNextTx(NewPendingPacket(p), sentAt, delay)
    requires Punctual(m[KeyOf(p, ourNode)], times, delay) && |times| >= NUM_RETRANSMISSIONS
    ensures Project(RunTicks(m, order, times, ourNode, delay).events, KeyOf(p, ourNode), ourNode) ==
            [FloodSend(p), FloodSend(p), AckNakSent(MaxRetransmit, NodeDB.GetFrom(p, ourNode), p.id)]
    ensures KeyOf(p, ourNode) !in RunTicks(m, order, times, ourNode, delay).pending
  {
    var k := KeyOf(p, ourNode);
    RunTicksProjection(m, order, times, ourNode, delay, k);
    RunRecordExhausts(m[k], times, ourNode, delay);
    FreshRecordAttempts(p, sentAt, ourNode, delay);
  }

  // ---------------------------------------------------------------------------------------
  // The router object

  class Router {
    /** getNodeNum(): the local node's number. */
    const ourNode: NodeNum
    /** iface->getRetransmissionMsec: the transport's retransmission delay for a packet. */
    const retransmissionMsec: MeshPacket -> nat
    /** The pending retransmissions, at most one per key. */
    var pending: map<GlobalPacketId, PendingPacket>
    /** Calls made to the collaborators so far. */
    var log: seq<RouterEvent>

    ghost predicate Valid()
      reads this
    {
      WellKeyed(pending, ourNode)
    }

    constructor (ourNode: NodeNum, retransmissionMsec: MeshPacket -> nat)
      ensures Valid()
      ensures this.ourNode == ourNode && this.retransmissionMsec == retransmissionMsec
      ensures pending == map[] && log == []
    {
      this.ourNode := ourNode;
      this.retransmissionMsec := retransmissionMsec;
      pending := map[];
      log := [];
    }

    /** The pending record under key, if there is one. */
    function FindPendingPacket(key: GlobalPacketId): (r: Option<PendingPacket>)
      reads this
      ensures r.Some? <==> key in pending
      ensures r.Some? ==> r.value == pending[key]
    {
      if key in pending then Some(pending[key]) else None
    }

    /** Cancel the record under key: true iff there was one, and then exactly that record is gone. */
    method StopRetransmissionKey(key: GlobalPacketId) returns (found: bool)
      requires Valid()
      modifies this`pending
      ensures Valid()
      ensures found == (key in old(pending))
      ensures pending == old(pending) - {key}
    {
      var existing := FindPendingPacket(key);
      if existing.Some? {
        pending := pending - {key};
        found := true;
      } else {
        found := false;
      }
    }

    /** Cancel the record of packet id sent by node from. */
    method StopRetransmission(from: NodeNum, id: PacketId) returns (found: bool)
      requires Valid()
      modifies this`pending
      ensures Valid()
      ensures found == (GlobalPacketId(from, id) in old(pending))
      ensures pending == old(pending) - {GlobalPacketId(from, id)}
    {
      found := StopRetransmissionKey(GlobalPacketId(from, id));
    }

    /** Track p for retransmission, replacing any stale record under the same key. */
    method StartRetransmission(p: MeshPacket, now: nat) returns (rec: PendingPacket)
      requires Valid()
      modifies this`pending
      ensures Valid()
      ensures rec == SetNextTx(NewPendingPacket(p), now, retransmissionMsec)
      ensures pending == old(pending)[KeyOf(p, ourNode) := rec]
    {
      var id := KeyOf(p, ourNode);
      rec := NewPendingPacket(p);
      var stale := StopRetransmission(NodeDB.GetFrom(p, ourNode), p.id);
      rec := SetNextTx(rec, now, retransmissionMsec);
      pending := pending[id := rec];
    }

    /**
      Send p; a packet that wants an ack gets hop limit at least 1 when broadcast and a pending
      copy.  Returns the packet as handed to the flooding router, and that router's result.
     */
    method Send(p: MeshPacket, now: nat, floodResult: ErrorCode) returns (sent: MeshPacket, r: ErrorCode)
      requires Valid()
      modifies this`pending, this`log
      ensures Valid()
      ensures r == floodResult
      ensures sent == p.(hop_limit := sent.hop_limit)
      ensures p.want_ack && p.to == NODENUM_BROADCAST && p.hop_limit == 0 ==> sent.hop_limit == 1
      ensures sent.hop_limit != p.hop_limit ==> p.want_ack && p.to == NODENUM_BROADCAST && p.hop_limit == 0
      ensures p.want_ack ==>
                pending == old(pending)[KeyOf(sent, ourNode) := SetNextTx(NewPendingPacket(sent), now, retransmissionMsec)]
      ensures !p.want_ack ==> pending == old(pending)
      ensures log == old(log) + [FloodSend(sent)]
    {
      sent := p;
      if sent.want_ack {
        if sent.to == NODENUM_BROADCAST && sent.hop_limit == 0 {
          sent := sent.(hop_limit := 1);
        }
        var copy := sent;
        var rec := StartRetransmission(copy, now);
      }
      log := log + [FloodSend(sent)];
      r := floodResult;
    }

    /**
      Hearing our own broadcast relayed is an implicit ack: its record, if any, is cancelled and
      one ack with ErrorNone is sent.  The verdict is the flooding router's.
     */
    method ShouldFilterReceived(p: MeshPacket, floodFiltered: bool) returns (filtered: bool)
      requires Valid()
      modifies this`pending, this`log
      ensures Valid()
      ensures filtered == floodFiltered
      ensures var relayed := p.to == NODENUM_BROADCAST && p.from == ourNode;
              var key := GlobalPacketId(NodeDB.GetFrom(p, ourNode), p.id);
              pending == (if relayed then old(pending) - {key} else old(pending)) &&
              log == old(log) +
                     (if relayed && key in old(pending) then [AckNakSent(ErrorNone, NodeDB.GetFrom(p, ourNode), p.id)] else []) +
                     [FloodFilter(p)]
    {
      if p.to == NODENUM_BROADCAST && p.from == ourNode {
        var stopped := StopRetransmission(NodeDB.GetFrom(p, ourNode), p.id);
        if stopped {
          log := log + [AckNakSent(ErrorNone, NodeDB.GetFrom(p, ourNode), p.id)];
        }
      }
      log := log + [FloodFilter(p)];
      filtered := floodFiltered;
    }

    /**
      A packet addressed to us: ack it if it wants an ack and nobody replied yet, and if it is
      an ack or a nak, cancel the record it answers.  Then the flooding router sniffs it.
     */
    method SniffReceived(p: MeshPacket, c: Option<Routing>, currentReply: bool)
      requires Valid()
      modifies this`pending, this`log
      ensures Valid()
      ensures pending == if p.to == ourNode && p.decoded.request_id != 0
                         then old(pending) - {GlobalPacketId(p.to, p.decoded.request_id)}
                         else old(pending)
      ensures log == old(log) +
                     (if p.to == ourNode && p.want_ack && !currentReply
                      then [AckNakSent(ErrorNone, NodeDB.GetFrom(p, ourNode), p.id)] else []) +
                     [FloodSniff(p, c)]
    {
      if p.to == ourNode {
        if p.want_ack {
          if !currentReply {
            log := log + [AckNakSent(ErrorNone, NodeDB.GetFrom(p, ourNode), p.id)];
          }
        }
        var (ackId, nakId) := AckNakIds(p, c);
        if ackId != 0 || nakId != 0 {
          if ackId != 0 {
            var stopped := StopRetransmission(p.to, ackId);
          } else {
            var stopped := StopRetransmission(p.to, nakId);
          }
        }
      }
      log := log + [FloodSniff(p, c)];
    }

    /**
      The body of a tick for one due-or-not record: a due record with attempts left is resent and
      rescheduled, a due record with none left is nak'ed to its sender and dropped, and a record
      not yet due is left alone.  Returns whether a record remains under key.
     */
    method RetransmitOne(key: GlobalPacketId, now: nat) returns (stillValid: bool)
      requires Valid() && key in pending
      modifies this`pending, this`log
      ensures Valid()
      ensures var o := StepRecord(old(pending)[key], now, ourNode, retransmissionMsec);
              && stillValid == o.kept.Some?
              && pending == (if o.kept.Some? then old(pending)[key := o.kept.value] else old(pending) - {key})
              && log == old(log) + o.events
    {
      var p := pending[key];
      stillValid := true;
      if p.nextTxMsec <= now {
        if p.numRetransmissions == 0 {
          log := log + [AckNakSent(MaxRetransmit, NodeDB.GetFrom(p.packet, ourNode), p.packet.id)];
          var stopped := StopRetransmissionKey(key);
          stillValid := false;
        } else {
          log := log + [FloodSend(p.packet)];
          p := p.(numRetransmissions := p.numRetransmissions - 1);
          p := SetNextTx(p, now, retransmissionMsec);
          pending := pending[key := p];
        }
      } else {
        assert pending == pending[key := p];
      }
    }

    /** One iteration of a tick: visit order[i], then fold its remaining deadline into the sleep. */
    method VisitKey(ghost m: map<GlobalPacketId, PendingPacket>, order: seq<GlobalPacketId>, i: nat, now: nat,
                    d: int, ghost w: GlobalPacketId, ghost log0: seq<RouterEvent>)
      returns (d': int, ghost w': GlobalPacketId)
      requires Valid()
      requires NoDuplicates(order) && i < |order| && (forall k :: k in m <==> k in order)
      requires pending == TickPendingOn(m, order[..i], now, ourNode, retransmissionMsec)
      requires log == log0 + TickEvents(m, order[..i], now, ourNode, retransmissionMsec)
      requires WakeBound(pending, order[..i], now, d, w)
      modifies this`pending, this`log
      ensures Valid()
      ensures pending == TickPendingOn(m, order[..i + 1], now, ourNode, retransmissionMsec)
      ensures log == log0 + TickEvents(m, order[..i + 1], now, ourNode, retransmissionMsec)
      ensures WakeBound(pending, order[..i + 1], now, d', w')
    {
      var key := order[i];
      ghost var before := pending;
      TickPendingOnStep(m, order, i, now, ourNode, retransmissionMsec);
      ghost var o := StepRecord(m[key], now, ourNode, retransmissionMsec);
      var stillValid := RetransmitOne(key, now);
      assert pending == (if o.kept.Some? then before[key := o.kept.value] else before - {key});
      assert stillValid == o.kept.Some? && log == old(log) + o.events;
      d' := d;
      if stillValid {
        var t := pending[key].nextTxMsec - now;
        d' := if t < d then t else d;
      }
      TickEventsSnoc(m, order, i, now, ourNode, retransmissionMsec);
      AppendStep(log0, TickEvents(m, order[..i], now, ourNode, retransmissionMsec), o.events,
                 TickEvents(m, order[..i + 1], now, ourNode, retransmissionMsec));
      w' := WakeBoundStep(before, o.kept, order, i, now, d, d', w);
    }

    /**
      One retransmission tick at time now, visiting the records in the given order (the table's
      iteration order).  Returns the sleep until the nearest remaining deadline, INT32_MAX when
      no record remains.
     */
    method DoRetransmissions(now: nat, order: seq<GlobalPacketId>) returns (d: int)
      requires Valid()
      requires NoDuplicates(order) && forall k :: k in pending <==> k in order
      modifies this`pending, this`log
      ensures Valid()
      ensures pending == TickPending(old(pending), now, ourNode, retransmissionMsec)
      ensures log == old(log) + TickEvents(old(pending), order, now, ourNode, retransmissionMsec)
      ensures 0 <= d <= INT32_MAX
      ensures forall k :: k in pending ==> d <= pending[k].nextTxMsec - now
      ensures d == INT32_MAX || exists k :: k in pending && d == pending[k].nextTxMsec - now
      ensures pending == map[] ==> d == INT32_MAX
    {
      ghost var m := pending;
      d := INT32_MAX;
      ghost var w: GlobalPacketId := GlobalPacketId(0, 0);
      var i := 0;
      assert order[..0] == [];
      TickPendingOnNone(m, now, ourNode, retransmissionMsec);
      while i < |order|
        invariant 0 <= i <= |order|
        invariant WellKeyed(pending, ourNode)
        invariant pending == TickPendingOn(m, order[..i], now, ourNode, retransmissionMsec)
        invariant log == old(log) + TickEvents(m, order[..i], now, ourNode, retransmissionMsec)
        invariant WakeBound(pending, order[..i], now, d, w)
      {
        d, w := VisitKey(m, order, i, now, d, w, old(log));
        i := i + 1;
      }
      assert order[..|order|] == order;
      TickFinish(m, order, now, ourNode, retransmissionMsec, pending, d, w);
    }
  }

  /**
    d is the sleep a tick has computed after visiting the keys in done: INT32_MAX or the
    smallest time to a deadline among the visited records that remain.
   */
  ghost predicate WakeBound(pm: map<GlobalPacketId, PendingPacket>, done: seq<GlobalPacketId>, now: nat, d: int,
                            w: GlobalPacketId)
  {
    && 0 <= d <= INT32_MAX
    && (forall k :: k in pm && k in done ==> d <= pm[k].nextTxMsec - now)
    && (d == INT32_MAX || (w in pm && w in done && d == pm[w].nextTxMsec - now))
  }

  /**
    Visiting one more key keeps WakeBound, whether its record was rescheduled, kept or removed;
    w' is the key the new bound is attained at.
   */
  lemma WakeBoundStep(before: map<GlobalPacketId, PendingPacket>, kept: Option<PendingPacket>,
                      order: seq<GlobalPacketId>, i: nat, now: nat, d: int, d': int, w: GlobalPacketId)
      returns (w': GlobalPacketId)
    requires NoDuplicates(order) && i < |order|
    requires WakeBound(before, order[..i], now, d, w)
    requires kept.Some? ==> kept.value.nextTxMsec >= now &&
                            d' == if kept.value.nextTxMsec - now < d then kept.value.nextTxMsec - now else d
    requires kept.None? ==> d' == d
    ensures var after := if kept.Some? then before[order[i] := kept.value] else before - {order[i]};
            WakeBound(after, order[..i + 1], now, d', w')
  {
    var key := order[i];
    var after := if kept.Some? then before[key := kept.value] else before - {key};
    assert key !in order[..i];
    assert forall k' :: k' in order[..i + 1] <==> k' in order[..i] || k' == key;
    if kept.Some? && d' != d {
      w' := key;
    } else {
      w' := w;
      if d' != INT32_MAX {
        assert w != key;
        assert w in after && after[w] == before[w];
      }
    }
  }

  /** A tick that has visited every key has computed the whole new table and the nearest deadline. */
  lemma TickFinish(m: map<GlobalPacketId, PendingPacket>, order: seq<GlobalPacketId>, now: nat,
                   ourNode: NodeNum, delay: MeshPacket -> nat, pm: map<GlobalPacketId, PendingPacket>,
                   d: int, w: GlobalPacketId)
    requires forall k :: k in m <==> k in order
    requires pm == TickPendingOn(m, order[..|order|], now, ourNode, delay)
    requires WakeBound(pm, order[..|order|], now, d, w)
    ensures pm == TickPending(m, now, ourNode, delay)
    ensures 0 <= d <= INT32_MAX
    ensures forall k :: k in pm ==> d <= pm[k].nextTxMsec - now
    ensures d == INT32_MAX || exists k :: k in pm && d == pm[k].nextTxMsec - now
    ensures pm == map[] ==> d == INT32_MAX
  {
    assert order[..|order|] == order;
    TickPendingOnAll(m, order, now, ourNode, delay);
  }

  /** The events of a tick that has visited one more key. */
  lemma TickEventsSnoc(m: map<GlobalPacketId, PendingPacket>, order: seq<GlobalPacketId>, i: nat, now: nat,
                       ourNode: NodeNum, delay: MeshPacket -> nat)
    requires i < |order| && order[i] in m
    ensures TickEvents(m, order[..i + 1], now, ourNode, delay) ==
            TickEvents(m, order[..i], now, ourNode, delay) + StepRecord(m[order[i]], now, ourNode, delay).events
  {
    assert order[..i + 1][..i] == order[..i];
  }

  /** Appending one step's events to a log that already holds the steps before it. */
  lemma AppendStep<T>(log0: seq<T>, done: seq<T>, step: seq<T>, doneAfter: seq<T>)
    requires doneAfter == done + step
    ensures log0 + doneAfter == (log0 + done) + step
  {
  }

  /** How one visited key moves the table of a tick in progress from done-before to done-after. */
  lemma TickPendingOnStep(m: map<GlobalPacketId, PendingPacket>, order: seq<GlobalPacketId>, i: nat, now: nat,
                          ourNode: NodeNum, delay: MeshPacket -> nat)
    requires NoDuplicates(order) && i < |order| && order[i] in m
    ensures var before := TickPendingOn(m, order[..i], now, ourNode, delay);
            var after := TickPendingOn(m, order[..i + 1], now, ourNode, delay);
            var o := StepRecord(m[order[i]], now, ourNode, delay);
            order[i] in before && before[order[i]] == m[order[i]] &&
            after == if o.kept.Some? then before[order[i] := o.kept.value] else before - {order[i]}
  {
    var k := order[i];
    assert k !in order[..i];
    assert forall k' :: k' in order[..i + 1] <==> k' in order[..i] || k' == k;
  }
}
