/**
  The routing plugin: the protobuf plugin on the routing port.  It lets the reliable router
  sniff every routing message, hands packets meant for this node (or for everyone) to the
  phone unless they came from the phone, never claims a message for itself, and builds the
  ack / nak control packets the router asks for.

  The packet allocator, the local send path and the phone service are collaborators: the
  allocator's packet is a parameter, and what is sent or delivered is appended to a trace.
 */
module RoutingPlugin {
  import opened MeshTypes
  import NodeDB
  import ReliableRouter

  /** Calls the plugin makes, in order. */
  datatype PluginEvent =
    | SniffedByRouter(p: MeshPacket)   // router->sniffReceived
    | DeliveredToPhone(p: MeshPacket)  // service.handleFromRadio
    | SentLocal(p: MeshPacket)         // router->sendLocal

  /**
    The delivery rule of handleReceivedProtobuf: a packet for everyone or for this node goes to
    the phone, except one whose sender is 0, which started at the phone.
   */
  predicate ShouldDeliver(mp: MeshPacket, ourNode: NodeNum)
  {
    (mp.to == NODENUM_BROADCAST || mp.to == ourNode) && mp.from != 0
  }

  /**
    allocReply: the plugin offers no reply.  A request on the routing port itself is a
    failed assertion in the source, so callers must not make one.
   */
  function AllocReply(currentRequest: MeshPacket): (reply: Option<MeshPacket>)
    requires currentRequest.decoded.portnum != RoutingApp
    ensures reply.None?
  {
    None
  }

  /**
    The control packet sendAckNak sends: the allocator's packet carrying a routing message
    with the given error on the routing port, at Ack priority, for immediate neighbours only
    (hop limit 0), addressed to `to` and answering request idFrom.
   */
  function AckNakPacket(err: RoutingError, to: NodeNum, idFrom: PacketId, blank: MeshPacket): (p: MeshPacket)
    ensures p.decoded.payload == RoutingPayload(Routing(err)) && p.decoded.portnum == RoutingApp
    ensures p.which_payloadVariant == DecodedTag
    ensures p.priority == Ack && p.hop_limit == 0
    ensures p.to == to && p.decoded.request_id == idFrom
    ensures p.from == blank.from && p.id == blank.id && p.want_ack == blank.want_ack
  {
    blank.(which_payloadVariant := DecodedTag, decoded := Data(RoutingApp, idFrom, RoutingPayload(Routing(err))),
           priority := Ack, hop_limit := 0, to := to)
  }

  /**
    An ack or nak for a packet this node sent, once it comes back to this node, cancels
    exactly the record the router keeps for that packet, and is read as an ack precisely
    when its error is ErrorNone.
   */
  lemma AckNakAnswersOwnPacket(p: MeshPacket, ourNode: NodeNum, err: RoutingError, blank: MeshPacket)
    requires p.id != 0
    requires NodeDB.GetFrom(p, ourNode) == ourNode
    ensures var a := AckNakPacket(err, NodeDB.GetFrom(p, ourNode), p.id, blank);
            var ids := ReliableRouter.AckNakIds(a, Some(a.decoded.payload.routing));
            && a.to == ourNode
            && ReliableRouter.GlobalPacketId(a.to, a.decoded.request_id) == ReliableRouter.KeyOf(p, ourNode)
            && (err == ErrorNone ==> ids == (p.id, 0))
            && (err != ErrorNone ==> ids == (0, p.id))
  {
    var a := AckNakPacket(err, NodeDB.GetFrom(p, ourNode), p.id, blank);
    var ids := ReliableRouter.AckNakIds(a, Some(a.decoded.payload.routing));
    assert a.decoded.request_id == p.id != 0;
    if err == ErrorNone {
      assert ids.0 != 0;
    } else {
      assert ids.1 != 0;
    }
  }

  class RoutingPlugin {
    /** The router this plugin feeds; its local node number is nodeDB.getNodeNum(). */
    const router: ReliableRouter.Router
    /** Set by the constructor: the plugin sees routing messages not addressed to it. */
    var isPromiscuous: bool
    /** Calls made to the collaborators so far. */
    var trace: seq<PluginEvent>

    constructor (router: ReliableRouter.Router)
      ensures this.router == router && isPromiscuous && trace == []
    {
      this.router := router;
      isPromiscuous := true;
      trace := [];
    }

    /**
      Build the ack / nak packet field by field from the allocator's packet and send it on
      the local path.
     */
    method SendAckNak(err: RoutingError, to: NodeNum, idFrom: PacketId, blank: MeshPacket)
      modifies this`trace
      ensures trace == old(trace) + [SentLocal(AckNakPacket(err, to, idFrom, blank))]
    {
      var c := Routing(err);
      var p := blank.(which_payloadVariant := DecodedTag,
                          decoded := Data(RoutingApp, 0, RoutingPayload(c)));
      p := p.(priority := Ack);
      p := p.(hop_limit := 0);
      p := p.(to := to);
      p := p.(decoded := p.decoded.(request_id := idFrom));
      trace := trace + [SentLocal(p)];
    }

    /**
      A received routing message: the router sniffs it first, then it goes to the phone when
      ShouldDeliver holds.  The result is always false, so other plugins still see it.
     */
    method HandleReceivedProtobuf(mp: MeshPacket, r: Option<Routing>, currentReply: bool) returns (handled: bool)
      requires router.Valid()
      modifies this`trace, router`pending, router`log
      ensures router.Valid()
      ensures !handled
      ensures trace == old(trace) + [SniffedByRouter(mp)] +
                       (if ShouldDeliver(mp, router.ourNode) then [DeliveredToPhone(mp)] else [])
      ensures router.pending ==
                if mp.to == router.ourNode && mp.decoded.request_id != 0
                then old(router.pending) - {ReliableRouter.GlobalPacketId(mp.to, mp.decoded.request_id)}
                else old(router.pending)
      ensures router.log == old(router.log) +
                (if mp.to == router.ourNode && mp.want_ack && !currentReply
                 then [ReliableRouter.AckNakSent(ErrorNone, NodeDB.GetFrom(mp, router.ourNode), mp.id)] else []) +
                [ReliableRouter.FloodSniff(mp, r)]
    {
      router.SniffReceived(mp, r, currentReply);
      trace := trace + [SniffedByRouter(mp)];
      if (mp.to == NODENUM_BROADCAST || mp.to == router.ourNode) && mp.from != 0 {
        trace := trace + [DeliveredToPhone(mp)];
      }
      handled := false;
    }
  }
}
