/**
  The node database: a fixed-capacity table of peer records (NodeInfo) with a manually
  maintained count, looked up by linear scan, appended to by get-or-create and updated in place
  from received position, user and packet metadata.
 */
module NodeDB {
  import opened MeshTypes

  /** Node numbers below NUM_RESERVED are never picked for the local node. */
  const NUM_RESERVED: NodeNum := 4

  /** A node is online when it was heard less than this many seconds ago (60 * 2: two minutes). */
  const NUM_ONLINE_SECS: nat := 60 * 2

  type MacAddr = s: seq<byte> | |s| == 6 witness [0, 0, 0, 0, 0, 0]

  datatype User = User(id: string, long_name: string, short_name: string, macaddr: MacAddr)

  datatype Position = Position(latitude_i: int32, longitude_i: int32, battery_level: int32, time: uint32)

  datatype NodeInfo = NodeInfo(
    num: NodeNum,
    user: User,
    has_user: bool,
    position: Position,
    has_position: bool,
    snr: real)

  /** A NodeInfo after memset(0): every field zero, every has_ flag false. */
  const ZERO_NODE: NodeInfo :=
    NodeInfo(0, User("", "", "", [0, 0, 0, 0, 0, 0]), false, Position(0, 0, 0, 0), false, 0.0)

  /** The record get-or-create installs: all zero except the node number. */
  function EmptyNode(n: NodeNum): NodeInfo
  {
    ZERO_NODE.(num := n)
  }

  /** The sender of p, where a packet from 0 (the local phone) counts as sent by the local node. */
  function GetFrom(p: MeshPacket, ourNode: NodeNum): (r: NodeNum)
    ensures p.from != 0 ==> r == p.from
    ensures p.from == 0 ==> r == ourNode
    ensures r == 0 <==> p.from == 0 && ourNode == 0
  {
    if p.from == 0 then ourNode else p.from
  }

  // ---------------------------------------------------------------------------------------
  // Time since last heard

  /** (int) of a uint32: the two's-complement reinterpretation of its bits. */
  function AsInt32(x: uint32): (r: int32)
    ensures r % 0x1_0000_0000 == x
    ensures r < 0 <==> x >= 0x8000_0000
  {
    if x < 0x8000_0000 then x else x - 0x1_0000_0000
  }

  /** uint32 subtraction, which wraps around modulo 2^32. */
  function SubU32(a: uint32, b: uint32): (r: uint32)
    ensures (b + r) % 0x1_0000_0000 == a
    ensures b <= a ==> r == a - b
  {
    (a - b) % 0x1_0000_0000
  }

  /**
    Seconds since n was last heard, at clock value now: the wrapped difference reinterpreted
    as a signed value, with a negative delta (a clock not yet set) clamped to 0.
   */
  function SinceLastSeen(n: NodeInfo, now: uint32): (r: uint32)
    ensures r < 0x8000_0000
    ensures n.position.time <= now && now - n.position.time < 0x8000_0000 ==> r == now - n.position.time
    ensures now < n.position.time && n.position.time - now <= 0x8000_0000 ==> r == 0
  {
    var delta := AsInt32(SubU32(now, n.position.time));
    if delta < 0 then 0 else delta
  }

  predicate IsOnline(n: NodeInfo, now: uint32)
  {
    SinceLastSeen(n, now) < NUM_ONLINE_SECS
  }

  /** Number of elements of xs that satisfy keep, counted from the front as a scan does. */
  function CountWhere<T>(xs: seq<T>, keep: T -> bool): (r: nat)
    ensures r <= |xs|
  {
    if xs == [] then 0
    else CountWhere(xs[..|xs| - 1], keep) + (if keep(xs[|xs| - 1]) then 1 else 0)
  }

  /** The indices of xs whose element satisfies keep. */
  function IndicesWhere<T>(xs: seq<T>, keep: T -> bool): set<int>
  {
    set i | 0 <= i < |xs| && keep(xs[i])
  }

  /** The count is the number of indices whose element satisfies keep. */
  lemma {:induction false} CountWhereIsCardinality<T>(xs: seq<T>, keep: T -> bool)
    ensures CountWhere(xs, keep) == |IndicesWhere(xs, keep)|
  {
    if xs != [] {
      var ys := xs[..|xs| - 1];
      var last := |xs| - 1;
      CountWhereIsCardinality(ys, keep);
      var small := set i | 0 <= i < |ys| && keep(ys[i]);
      var big := set i | 0 <= i < |xs| && keep(xs[i]);
      assert forall i :: 0 <= i < |ys| ==> ys[i] == xs[i];
      assert last !in small;
      if keep(xs[last]) {
        assert big == small + {last};
      } else {
        assert big == small;
      }
    }
  }

  /** Number of online records in s. */
  function CountOnline(s: seq<NodeInfo>, now: uint32): (r: nat)
    ensures r <= |s|
  {
    CountWhere(s, OnlineAt(now))
  }

  /** IsOnline at a fixed clock value, as a predicate on records. */
  function OnlineAt(now: uint32): NodeInfo -> bool
  {
    n => IsOnline(n, now)
  }

  /** The online count is the number of indices whose record is online. */
  lemma CountOnlineIsCardinality(s: seq<NodeInfo>, now: uint32)
    ensures CountOnline(s, now) == |set i | 0 <= i < |s| && IsOnline(s[i], now)|
  {
    CountWhereIsCardinality(s, OnlineAt(now));
    assert IndicesWhere(s, OnlineAt(now)) == set i | 0 <= i < |s| && IsOnline(s[i], now);
  }

  // ---------------------------------------------------------------------------------------
  // The table as a sequence of records

  /** Node numbers are unique among the records. */
  ghost predicate Unique(s: seq<NodeInfo>)
  {
    forall i, j :: 0 <= i < j < |s| ==> s[i].num != s[j].num
  }

  /** The index of the first record with number n, as the linear scan finds it. */
  function Lookup(s: seq<NodeInfo>, n: NodeNum): (r: Option<nat>)
    ensures r.Some? ==> r.value < |s| && s[r.value].num == n
    ensures r.Some? ==> forall j :: 0 <= j < r.value ==> s[j].num != n
    ensures r.None? <==> forall j :: 0 <= j < |s| ==> s[j].num != n
  {
    if s == [] then None
    else if s[0].num == n then Some(0)
    else match Lookup(s[1..], n)
      case None => None
      case Some(i) => Some(i + 1)
  }

  /** Every record of old keeps its node number at its index in new. */
  ghost predicate KeepsKeys(before: seq<NodeInfo>, after: seq<NodeInfo>)
  {
    |before| <= |after| && forall i :: 0 <= i < |before| ==> after[i].num == before[i].num
  }

  /** The table after get-or-create of n: unchanged if n is present, else one empty record appended. */
  function WithNode(s: seq<NodeInfo>, n: NodeNum): (r: seq<NodeInfo>)
    ensures Lookup(r, n).Some?
    ensures KeepsKeys(s, r) && s == r[..|s|]
    ensures Lookup(s, n).Some? ==> r == s
    ensures Lookup(s, n).None? ==> |r| == |s| + 1 && r[|s|] == EmptyNode(n)
    ensures Unique(s) ==> Unique(r)
  {
    if Lookup(s, n).Some? then s
    else
      var r := s + [EmptyNode(n)];
      assert r[|s|].num == n;
      r
  }

  /** A lookup that succeeds in s succeeds at the same index in any extension of s. */
  lemma {:induction false} LookupInPrefix(s: seq<NodeInfo>, t: seq<NodeInfo>, n: NodeNum)
    requires Lookup(s, n).Some?
    ensures Lookup(s + t, n) == Lookup(s, n)
  {
    if s[0].num != n {
      assert (s + t)[1..] == s[1..] + t;
      LookupInPrefix(s[1..], t, n);
    }
  }

  /** The state after applying step once per element of xs, in order. */
  function Iterate<A, X>(step: (A, X) -> A, a: A, xs: seq<X>): A
    decreases |xs|
  {
    if xs == [] then a else Iterate(step, step(a, xs[0]), xs[1..])
  }

  /** Iterating over xs is iterating over its first j elements, then over the rest. */
  lemma {:induction false} IterateSplit<A, X>(step: (A, X) -> A, a: A, xs: seq<X>, j: nat)
    requires j <= |xs|
    ensures Iterate(step, a, xs) == Iterate(step, Iterate(step, a, xs[..j]), xs[j..])
    decreases j
  {
    if j > 0 {
      assert xs[..j][0] == xs[0] && xs[..j][1..] == xs[1..][..j - 1];
      assert xs[j..] == xs[1..][j - 1..];
      IterateSplit(step, step(a, xs[0]), xs[1..], j - 1);
    }
  }

  /** The table after a series of get-or-create calls, one per number in ns, in order. */
  function CreateAll(s: seq<NodeInfo>, ns: seq<NodeNum>): seq<NodeInfo>
  {
    Iterate(WithNode, s, ns)
  }

  /**
    Over any series of get-or-create calls: keys stay unique, records keep their index and
    number, every requested number is present, and at most one record is added per call.
   */
  lemma {:induction false} CreateAllProperties(s: seq<NodeInfo>, ns: seq<NodeNum>)
    requires Unique(s)
    ensures |s| <= |CreateAll(s, ns)| <= |s| + |ns|
    ensures Unique(CreateAll(s, ns))
    ensures s == CreateAll(s, ns)[..|s|]
    ensures forall n :: n in ns ==> Lookup(CreateAll(s, ns), n).Some?
    ensures forall n :: Lookup(s, n).Some? ==> Lookup(CreateAll(s, ns), n) == Lookup(s, n)
    decreases |ns|
  {
    if ns != [] {
      var s1 := WithNode(s, ns[0]);
      CreateAllProperties(s1, ns[1..]);
      var r := CreateAll(s, ns);
      assert r == CreateAll(s1, ns[1..]);
      forall n | Lookup(s, n).Some?
        ensures Lookup(r, n) == Lookup(s, n)
      {
        if s1 != s {
          LookupInPrefix(s, [EmptyNode(ns[0])], n);
        }
      }
      forall n | n in ns
        ensures Lookup(r, n).Some?
      {
        if n != ns[0] {
          assert n in ns[1..];
        }
      }
    }
  }

  /** Splitting a series of get-or-create calls after call j. */
  lemma CreateAllSplit(s: seq<NodeInfo>, ns: seq<NodeNum>, j: nat)
    requires j <= |ns|
    ensures CreateAll(s, ns) == CreateAll(CreateAll(s, ns[..j]), ns[j..])
  {
    IterateSplit(WithNode, s, ns, j);
  }

  /**
    Repeated lookup of a node number yields the record created (or found) when it was first
    requested: its index does not move under later get-or-create calls, and its number is the key.
   */
  lemma LookupIsStable(s: seq<NodeInfo>, ns: seq<NodeNum>, j: nat)
    requires Unique(s) && j < |ns|
    ensures var first := CreateAll(s, ns[..j + 1]);
            Lookup(first, ns[j]).Some? &&
            Lookup(CreateAll(s, ns), ns[j]) == Lookup(first, ns[j]) &&
            CreateAll(s, ns)[Lookup(first, ns[j]).value].num == ns[j]
  {
    var first := CreateAll(s, ns[..j + 1]);
    CreateAllProperties(s, ns[..j + 1]);
    assert ns[j] in ns[..j + 1];
    CreateAllSplit(s, ns, j + 1);
    CreateAllProperties(first, ns[j + 1..]);
  }

  // ---------------------------------------------------------------------------------------
  // Merge rules for received data

  /**
    updatePosition's field-by-field merge of an incoming position p into the stored one:
    a stored time is never replaced, a zero battery level is ignored, and latitude and longitude
    are replaced together, only when at least one of them is nonzero.
   */
  function MergePosition(stored: Position, p: Position): (r: Position)
    ensures stored.time != 0 ==> r.time == stored.time
    ensures stored.time == 0 ==> r.time == p.time
    ensures p.battery_level == 0 ==> r.battery_level == stored.battery_level
    ensures p.battery_level != 0 ==> r.battery_level == p.battery_level
    ensures p.latitude_i == 0 && p.longitude_i == 0 ==>
              r.latitude_i == stored.latitude_i && r.longitude_i == stored.longitude_i
    ensures p.latitude_i != 0 || p.longitude_i != 0 ==>
              r.latitude_i == p.latitude_i && r.longitude_i == p.longitude_i
  {
    var t := if stored.time == 0 && p.time != 0 then p.time else stored.time;
    var b := if p.battery_level != 0 then p.battery_level else stored.battery_level;
    var fix := p.latitude_i != 0 || p.longitude_i != 0;
    Position(if fix then p.latitude_i else stored.latitude_i,
             if fix then p.longitude_i else stored.longitude_i,
             b, t)
  }

  /** The stored position after merging a series of incoming positions, in order. */
  function MergeAll(stored: Position, ps: seq<Position>): Position
    decreases |ps|
  {
    if ps == [] then stored else MergeAll(MergePosition(stored, ps[0]), ps[1..])
  }

  /** The first nonzero time in ts, or 0 when there is none. */
  function FirstNonzero(ts: seq<uint32>): (r: uint32)
  {
    if ts == [] then 0 else if ts[0] != 0 then ts[0] else FirstNonzero(ts[1..])
  }

  /** The last element of xs that keep selects, or dflt when none does. */
  function LastWhere<T>(xs: seq<T>, keep: T -> bool, dflt: T): T
  {
    if xs == [] then dflt
    else if keep(xs[|xs| - 1]) then xs[|xs| - 1]
    else LastWhere(xs[..|xs| - 1], keep, dflt)
  }

  lemma {:induction false} LastWhereSnoc<T>(xs: seq<T>, x: T, keep: T -> bool, dflt: T)
    ensures LastWhere(xs + [x], keep, dflt) == if keep(x) then x else LastWhere(xs, keep, dflt)
  {
    assert (xs + [x])[..|xs + [x]| - 1] == xs;
  }

  /** LastWhere over a concatenation: the second part wins, falling back to the first. */
  lemma {:induction false} LastWhereAppend<T>(xs: seq<T>, ys: seq<T>, keep: T -> bool, dflt: T)
    ensures LastWhere(xs + ys, keep, dflt) == LastWhere(ys, keep, LastWhere(xs, keep, dflt))
    decreases |ys|
  {
    if ys != [] {
      var ys' := ys[..|ys| - 1];
      var y := ys[|ys| - 1];
      assert xs + ys == (xs + ys') + [y];
      LastWhereSnoc(xs + ys', y, keep, dflt);
      LastWhereAppend(xs, ys', keep, dflt);
      assert ys == ys' + [y];
      LastWhereSnoc(ys', y, keep, LastWhere(xs, keep, dflt));
    } else {
      assert xs + ys == xs;
    }
  }

  function Times(ps: seq<Position>): (ts: seq<uint32>)
    ensures |ts| == |ps| && forall i :: 0 <= i < |ps| ==> ts[i] == ps[i].time
  {
    if ps == [] then [] else [ps[0].time] + Times(ps[1..])
  }

  predicate HasBattery(p: Position) { p.battery_level != 0 }

  predicate HasFix(p: Position) { p.latitude_i != 0 || p.longitude_i != 0 }

  /**
    After any series of position merges: the stored time is the first nonzero time ever seen
    (so it is never overwritten once set, and never by 0), the battery level is the last nonzero
    one reported, and latitude/longitude are the last pair that carried a fix.
   */
  lemma {:induction false} MergeAllHistory(stored: Position, ps: seq<Position>)
    ensures MergeAll(stored, ps).time == FirstNonzero([stored.time] + Times(ps))
    ensures MergeAll(stored, ps).battery_level == LastWhere(ps, HasBattery, stored).battery_level
    ensures MergeAll(stored, ps).latitude_i == LastWhere(ps, HasFix, stored).latitude_i
    ensures MergeAll(stored, ps).longitude_i == LastWhere(ps, HasFix, stored).longitude_i
    decreases |ps|
  {
    if ps != [] {
      var m := MergePosition(stored, ps[0]);
      MergeAllHistory(m, ps[1..]);
      assert ps == [ps[0]] + ps[1..];
      LastWhereAppend([ps[0]], ps[1..], HasBattery, stored);
      LastWhereAppend([ps[0]], ps[1..], HasFix, stored);
      assert LastWhere([ps[0]], HasBattery, stored).battery_level == m.battery_level by {
        assert [ps[0]][..0] == [];
      }
      assert LastWhere([ps[0]], HasFix, stored).latitude_i == m.latitude_i by {
        assert [ps[0]][..0] == [];
      }
      assert LastWhere([ps[0]], HasFix, stored).longitude_i == m.longitude_i by {
        assert [ps[0]][..0] == [];
      }
      BatteryFallback(ps[1..], [ps[0]], stored, m);
      FixFallback(ps[1..], [ps[0]], stored, m);
      assert Times(ps) == [ps[0].time] + Times(ps[1..]);
      if stored.time == 0 {
        assert [stored.time] + Times(ps) == [0] + ([ps[0].time] + Times(ps[1..]));
        assert ([stored.time] + Times(ps))[1..] == [ps[0].time] + Times(ps[1..]);
        if ps[0].time == 0 {
          assert ([m.time] + Times(ps[1..])) == [0] + Times(ps[1..]);
        }
      }
    }
  }

  /** LastWhere with HasBattery only depends on the fallback's battery level. */
  lemma {:induction false} BatteryFallback(ys: seq<Position>, xs: seq<Position>, stored: Position, m: Position)
    requires LastWhere(xs, HasBattery, stored).battery_level == m.battery_level
    ensures LastWhere(ys, HasBattery, LastWhere(xs, HasBattery, stored)).battery_level
            == LastWhere(ys, HasBattery, m).battery_level
    decreases |ys|
  {
    if ys != [] && !HasBattery(ys[|ys| - 1]) {
      BatteryFallback(ys[..|ys| - 1], xs, stored, m);
    }
  }

  /** LastWhere with HasFix only depends on the fallback's latitude and longitude. */
  lemma {:induction false} FixFallback(ys: seq<Position>, xs: seq<Position>, stored: Position, m: Position)
    requires LastWhere(xs, HasFix, stored).latitude_i == m.latitude_i
    requires LastWhere(xs, HasFix, stored).longitude_i == m.longitude_i
    ensures LastWhere(ys, HasFix, LastWhere(xs, HasFix, stored)).latitude_i
            == LastWhere(ys, HasFix, m).latitude_i
    ensures LastWhere(ys, HasFix, LastWhere(xs, HasFix, stored)).longitude_i
            == LastWhere(ys, HasFix, m).longitude_i
    decreases |ys|
  {
    if ys != [] && !HasFix(ys[|ys| - 1]) {
      FixFallback(ys[..|ys| - 1], xs, stored, m);
    }
  }

  // ---------------------------------------------------------------------------------------
  // Choosing the local node number

  /** The node number derived from bytes 2..5 of the hardware address, most significant first. */
  function MacNodeNum(mac: MacAddr): (r: NodeNum)
    ensures r / 0x100_0000 == mac[2] && (r / 0x1_0000) % 0x100 == mac[3]
    ensures (r / 0x100) % 0x100 == mac[4] && r % 0x100 == mac[5]
  {
    var b2, b3, b4, b5 := mac[2] as int, mac[3] as int, mac[4] as int, mac[5] as int;
    var high := b2 * 0x100 + b3;
    var mid := high * 0x100 + b4;
    DivModByte(mid, b5);
    DivModByte(high, b4);
    DivModByte(b2, b3);
    DivModHalf(high, b4 * 0x100 + b5);
    DivModTop(b2, b3 * 0x1_0000 + b4 * 0x100 + b5);
    mid * 0x100 + b5
  }

  /** Splitting off the low byte of q * 2^8 + b. */
  lemma DivModByte(q: int, b: int)
    requires 0 <= b < 0x100
    ensures (q * 0x100 + b) / 0x100 == q && (q * 0x100 + b) % 0x100 == b
  {
  }

  /** Splitting off the low two bytes of q * 2^16 + b. */
  lemma DivModHalf(q: int, b: int)
    requires 0 <= b < 0x1_0000
    ensures (q * 0x1_0000 + b) / 0x1_0000 == q
  {
  }

  /** Splitting off the low three bytes of q * 2^24 + b. */
  lemma DivModTop(q: int, b: int)
    requires 0 <= b < 0x100_0000
    ensures (q * 0x100_0000 + b) / 0x100_0000 == q
  {
  }

  /**
    pickNewNodeNum's first candidate: the configured number, or the hardware-address number
    when none is configured, moved to NUM_RESERVED when it is broadcast or reserved.
   */
  function InitialCandidate(configured: NodeNum, mac: MacAddr): (r: NodeNum)
    ensures r != NODENUM_BROADCAST && r >= NUM_RESERVED
    ensures configured != 0 && configured != NODENUM_BROADCAST && configured >= NUM_RESERVED ==> r == configured
    ensures configured != 0 && (configured == NODENUM_BROADCAST || configured < NUM_RESERVED) ==> r == NUM_RESERVED
    ensures configured == 0 && MacNodeNum(mac) != NODENUM_BROADCAST && MacNodeNum(mac) >= NUM_RESERVED ==>
              r == MacNodeNum(mac)
    ensures configured == 0 && (MacNodeNum(mac) == NODENUM_BROADCAST || MacNodeNum(mac) < NUM_RESERVED) ==>
              r == NUM_RESERVED
  {
    var r := if configured == 0 then MacNodeNum(mac) else configured;
    if r == NODENUM_BROADCAST || r < NUM_RESERVED then NUM_RESERVED else r
  }

  /**
    A number the local node may take: not broadcast, not reserved, and either unused or used by
    a record whose hardware address is the local owner's.
   */
  ghost predicate Acceptable(s: seq<NodeInfo>, ownerMac: MacAddr, r: NodeNum)
  {
    r != NODENUM_BROADCAST && r >= NUM_RESERVED &&
    match Lookup(s, r)
    case None => true
    case Some(i) => s[i].user.macaddr == ownerMac
  }

  /** Acceptability read off a lookup already made. */
  lemma AcceptableAt(s: seq<NodeInfo>, ownerMac: MacAddr, r: NodeNum, found: Option<nat>)
    requires found == Lookup(s, r) && r != NODENUM_BROADCAST && r >= NUM_RESERVED
    ensures Acceptable(s, ownerMac, r) <==> found.None? || s[found.value].user.macaddr == ownerMac
  {
  }

  /** The first acceptable candidate, in order. */
  ghost function FirstAcceptable(s: seq<NodeInfo>, ownerMac: MacAddr, cands: seq<NodeNum>): Option<NodeNum>
  {
    if cands == [] then None
    else if Acceptable(s, ownerMac, cands[0]) then Some(cands[0])
    else FirstAcceptable(s, ownerMac, cands[1..])
  }

  /**
    The choice is acceptable and every earlier candidate is not; there is no choice exactly
    when no candidate is acceptable.
   */
  lemma {:induction false} FirstAcceptableIsFirst(s: seq<NodeInfo>, ownerMac: MacAddr, cands: seq<NodeNum>)
    ensures var r := FirstAcceptable(s, ownerMac, cands);
            && (r.Some? ==> Acceptable(s, ownerMac, r.value))
            && (r.Some? ==> exists j :: 0 <= j < |cands| && cands[j] == r.value &&
                                        forall k :: 0 <= k < j ==> !Acceptable(s, ownerMac, cands[k]))
            && (r.None? <==> forall k :: 0 <= k < |cands| ==> !Acceptable(s, ownerMac, cands[k]))
  {
    if cands != [] && !Acceptable(s, ownerMac, cands[0]) {
      var r := FirstAcceptable(s, ownerMac, cands[1..]);
      FirstAcceptableIsFirst(s, ownerMac, cands[1..]);
      assert forall k :: 0 < k < |cands| ==> cands[k] == cands[1..][k - 1];
      if r.Some? {
        var j :| 0 <= j < |cands| - 1 && cands[1..][j] == r.value &&
                 forall k :: 0 <= k < j ==> !Acceptable(s, ownerMac, cands[1..][k]);
        assert cands[j + 1] == r.value;
      }
    }
  }

  /** Skipping a leading candidate that is not acceptable does not change the choice. */
  lemma FirstAcceptableSkip(s: seq<NodeInfo>, ownerMac: MacAddr, cands: seq<NodeNum>, k: nat)
    requires k < |cands| && !Acceptable(s, ownerMac, cands[k])
    ensures FirstAcceptable(s, ownerMac, cands[k..]) == FirstAcceptable(s, ownerMac, cands[k + 1..])
  {
    assert cands[k..][0] == cands[k] && cands[k..][1..] == cands[k + 1..];
  }

  // ---------------------------------------------------------------------------------------
  // The database object

  /** Notifications the database sends to observers and to the power state machine. */
  datatype DbEvent = ObserversNotified(forced: bool) | PowerFsmNodeDbUpdated

  class NodeDB {
    /** The record slots; their number is MAX_NUM_NODES. */
    const nodes: array<NodeInfo>
    /** How many slots hold records. */
    var numNodes: nat
    /** Cursor of readNextInfo. */
    var readPointer: nat
    /** The local node's own number (myNodeInfo.my_node_num). */
    var myNodeNum: NodeNum
    /** The local owner's identity. */
    var owner: User
    /** The record the screen should redraw (updateGUIforNode), as an index into nodes. */
    var updateGUIforNode: Option<nat>
    /** Observer and power-state notifications sent so far. */
    var events: seq<DbEvent>

    ghost predicate Valid()
      reads this, nodes
    {
      numNodes <= nodes.Length && readPointer <= numNodes && Unique(nodes[..numNodes])
    }

    ghost function Records(): seq<NodeInfo>
      reads this, nodes
      requires numNodes <= nodes.Length
    {
      nodes[..numNodes]
    }

    /** A database with room for capacity records and none stored yet. */
    constructor (capacity: nat, myNodeNum: NodeNum, owner: User)
      ensures Valid() && fresh(nodes) && nodes.Length == capacity
      ensures Records() == [] && readPointer == 0
      ensures this.myNodeNum == myNodeNum && this.owner == owner
      ensures updateGUIforNode == None && events == []
    {
      nodes := new NodeInfo[capacity](_ => ZERO_NODE);
      numNodes := 0;
      readPointer := 0;
      this.myNodeNum := myNodeNum;
      this.owner := owner;
      updateGUIforNode := None;
      events := [];
    }

    /** The index of the record with number n, or None; changes nothing. */
    method GetNode(n: NodeNum) returns (r: Option<nat>)
      requires Valid()
      ensures r == Lookup(Records(), n)
    {
      var i := 0;
      while i < numNodes
        invariant 0 <= i <= numNodes
        invariant forall j :: 0 <= j < i ==> nodes[j].num != n
      {
        if nodes[i].num == n {
          return Some(i);
        }
        i := i + 1;
      }
      return None;
    }

    /**
      The index of the record with number n, appending an empty record for n when there is none.
      Appending needs a free slot (the source asserts this).
     */
    method GetOrCreateNode(n: NodeNum) returns (i: nat)
      requires Valid()
      requires Lookup(Records(), n).Some? || numNodes < nodes.Length
      modifies this`numNodes, nodes
      ensures Valid() && readPointer == old(readPointer)
      ensures Records() == WithNode(old(Records()), n)
      ensures Lookup(Records(), n) == Some(i)
    {
      var info := GetNode(n);
      if info.None? {
        i := numNodes;
        numNodes := numNodes + 1;
        nodes[i] := ZERO_NODE;
        nodes[i] := nodes[i].(num := n);
        assert Records() == old(Records()) + [EmptyNode(n)];
      } else {
        i := info.value;
      }
    }

    /** Merge a received position into node nodeId's record, creating the record if needed. */
    method UpdatePosition(nodeId: NodeNum, p: Position)
      requires Valid()
      requires Lookup(Records(), nodeId).Some? || numNodes < nodes.Length
      modifies this`numNodes, this`updateGUIforNode, this`events, nodes
      ensures Valid() && readPointer == old(readPointer)
      ensures var s := WithNode(old(Records()), nodeId);
              var i := Lookup(s, nodeId).value;
              Records() == s[i := s[i].(position := MergePosition(s[i].position, p), has_position := true)] &&
              updateGUIforNode == Some(i)
      ensures events == old(events) + [ObserversNotified(true)]
    {
      var i := GetOrCreateNode(nodeId);
      ghost var s := Records();
      var info := nodes[i];
      var pos := info.position;
      if pos.time == 0 && p.time != 0 {
        pos := pos.(time := p.time);
      }
      if p.battery_level != 0 {
        pos := pos.(battery_level := p.battery_level);
      }
      if p.latitude_i != 0 || p.longitude_i != 0 {
        pos := pos.(latitude_i := p.latitude_i, longitude_i := p.longitude_i);
      }
      nodes[i] := info.(position := pos, has_position := true);
      assert Records() == s[i := nodes[i]];
      updateGUIforNode := Some(i);
      events := events + [ObserversNotified(true)];
    }

    /**
      Replace node nodeId's user block wholesale, creating the record if needed; the redraw,
      power-state and observer notifications happen exactly when the block changed.
     */
    method UpdateUser(nodeId: NodeNum, p: User)
      requires Valid()
      requires Lookup(Records(), nodeId).Some? || numNodes < nodes.Length
      modifies this`numNodes, this`updateGUIforNode, this`events, nodes
      ensures Valid() && readPointer == old(readPointer)
      ensures var s := WithNode(old(Records()), nodeId);
              var i := Lookup(s, nodeId).value;
              Records() == s[i := s[i].(user := p, has_user := true)] &&
              (s[i].user != p ==> updateGUIforNode == Some(i) &&
                                  events == old(events) + [PowerFsmNodeDbUpdated, ObserversNotified(true)]) &&
              (s[i].user == p ==> updateGUIforNode == old(updateGUIforNode) && events == old(events))
    {
      var i := GetOrCreateNode(nodeId);
      ghost var s := Records();
      var info := nodes[i];
      var changed := info.user != p;
      nodes[i] := info.(user := p, has_user := true);
      assert Records() == s[i := nodes[i]];
      if changed {
        updateGUIforNode := Some(i);
        events := events + [PowerFsmNodeDbUpdated];
        events := events + [ObserversNotified(true)];
      }
    }

    /**
      Record the metadata of a received decoded packet on its sender's record: a valid receive
      time becomes the position time, and the SNR is always overwritten.  Encrypted packets are
      ignored.
     */
    method UpdateFrom(mp: MeshPacket)
      requires Valid()
      requires mp.which_payloadVariant == DecodedTag ==>
                 Lookup(Records(), GetFrom(mp, myNodeNum)).Some? || numNodes < nodes.Length
      modifies this`numNodes, nodes
      ensures Valid() && readPointer == old(readPointer)
      ensures mp.which_payloadVariant != DecodedTag ==> numNodes == old(numNodes) && nodes[..] == old(nodes[..])
      ensures mp.which_payloadVariant == DecodedTag ==>
                var s := WithNode(old(Records()), GetFrom(mp, myNodeNum));
                var i := Lookup(s, GetFrom(mp, myNodeNum)).value;
                var stamped := if mp.rx_time != 0
                               then s[i].(has_position := true, position := s[i].position.(time := mp.rx_time))
                               else s[i];
                Records() == s[i := stamped.(snr := mp.rx_snr)]
    {
      if mp.which_payloadVariant == DecodedTag {
        var i := GetOrCreateNode(GetFrom(mp, myNodeNum));
        ghost var s := Records();
        var info := nodes[i];
        if mp.rx_time != 0 {
          info := info.(has_position := true);
          info := info.(position := info.position.(time := mp.rx_time));
        }
        info := info.(snr := mp.rx_snr);
        nodes[i] := info;
        assert Records() == s[i := nodes[i]];
      }
    }

    /** The record under the cursor, advancing the cursor; None once every record was read. */
    method ReadNextInfo() returns (r: Option<NodeInfo>)
      requires Valid()
      modifies this`readPointer
      ensures Valid()
      ensures old(readPointer) < numNodes ==>
                r == Some(Records()[old(readPointer)]) && readPointer == old(readPointer) + 1
      ensures old(readPointer) >= numNodes ==> r == None && readPointer == old(readPointer)
    {
      if readPointer < numNodes {
        r := Some(nodes[readPointer]);
        readPointer := readPointer + 1;
      } else {
        r := None;
      }
    }

    /** How many records were heard less than NUM_ONLINE_SECS seconds before now. */
    method GetNumOnlineNodes(now: uint32) returns (numseen: nat)
      requires Valid()
      ensures numseen == CountOnline(Records(), now)
      ensures numseen <= numNodes
    {
      numseen := 0;
      for i := 0 to numNodes
        invariant numseen == CountOnline(nodes[..i], now)
      {
        assert nodes[..i + 1][..i] == nodes[..i];
        if SinceLastSeen(nodes[i], now) < NUM_ONLINE_SECS {
          numseen := numseen + 1;
        }
      }
      assert nodes[..numNodes] == Records();
    }

    /**
      Choose the local node number: the first acceptable one among the initial candidate and
      the random draws, in order.  None means every candidate collided with a record owned by
      someone else, so the source's loop would still be drawing.
     */
    method PickNewNodeNum(ourMacAddr: MacAddr, draws: seq<NodeNum>) returns (picked: Option<NodeNum>)
      requires Valid()
      requires forall k :: 0 <= k < |draws| ==> NUM_RESERVED <= draws[k] < NODENUM_BROADCAST
      modifies this`myNodeNum
      ensures Valid()
      ensures picked == FirstAcceptable(Records(), owner.macaddr,
                                        [InitialCandidate(old(myNodeNum), ourMacAddr)] + draws)
      ensures picked.Some? ==> myNodeNum == picked.value
      ensures picked.None? ==> myNodeNum == old(myNodeNum)
    {
      ghost var cands := [InitialCandidate(myNodeNum, ourMacAddr)] + draws;
      ghost var s := Records();
      ghost var mac := owner.macaddr;
      var r := InitialCandidate(myNodeNum, ourMacAddr);
      var k := 0;
      var found := GetNode(r);
      while found.Some? && nodes[found.value].user.macaddr != owner.macaddr && k < |draws|
        invariant 0 <= k <= |draws| && r == cands[k]
        invariant found == Lookup(s, r) && myNodeNum == old(myNodeNum)
        invariant FirstAcceptable(s, mac, cands) == FirstAcceptable(s, mac, cands[k..])
        decreases |draws| - k
      {
        AcceptableAt(s, mac, r, found);
        FirstAcceptableSkip(s, mac, cands, k);
        r := draws[k];
        k := k + 1;
        found := GetNode(r);
      }
      AcceptableAt(s, mac, r, found);
      if found.Some? && nodes[found.value].user.macaddr != owner.macaddr {
        assert cands[k..] == [r];
        picked := None;
      } else {
        myNodeNum := r;
        picked := Some(r);
      }
    }
  }
}
