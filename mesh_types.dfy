/**
  Value types shared by the node database, the reliable router and the routing plugin:
  fixed-width integers, node numbers, and the fields of a mesh packet that the core reads
  or writes.  The wire encoding of packets is not modelled; a packet is a record of values.
 */
module MeshTypes {

  type uint32 = x: int | 0 <= x < 0x1_0000_0000
  type int32 = x: int | -0x8000_0000 <= x < 0x8000_0000
  type byte = x: int | 0 <= x < 0x100

  /** A mesh participant's address. 0 means "the local phone / unset". */
  type NodeNum = uint32
  type PacketId = uint32

  /** The "all nodes" destination. */
  const NODENUM_BROADCAST: NodeNum := 0xFFFF_FFFF

  const INT32_MAX: int := 0x7FFF_FFFF

  datatype Option<T> = None | Some(value: T)

  /** Transmission priority of a packet; only Ack is set by the core. */
  datatype Priority = Unset | Min | Background | Default | Reliable | Ack | Max

  /** Application port of a decoded payload; only the routing port matters to the core. */
  datatype PortNum = RoutingApp | OtherPort(code: nat)

  /** Routing_Error: ErrorNone marks an ack, any other value a nak. */
  datatype RoutingError = ErrorNone | MaxRetransmit | OtherError(code: nat)

  /** The routing control message carried by acks and naks. */
  datatype Routing = Routing(error_reason: RoutingError)

  /** What a decoded payload carries: an encoded routing message or opaque application bytes. */
  datatype Body = RoutingPayload(routing: Routing) | AppPayload(bytes: seq<byte>)

  datatype Data = Data(portnum: PortNum, request_id: PacketId, payload: Body)

  /** which_payloadVariant of a packet. */
  datatype PayloadVariant = DecodedTag | EncryptedTag

  datatype MeshPacket = MeshPacket(
    from: NodeNum,
    to: NodeNum,
    id: PacketId,
    want_ack: bool,
    hop_limit: uint32,
    priority: Priority,
    rx_time: uint32,
    rx_snr: real,
    which_payloadVariant: PayloadVariant,
    decoded: Data)
}
