/** Keys, legs and entries of the connection tracking map shared by the TC programs
    (felix/bpf-gpl/conntrack_types.h). Flag words are sets of named bits; the union in
    the value struct is a datatype with one constructor per layout. */
module ConntrackTypes {

  type U32 = x: nat | x < 0x1_0000_0000
  type U64 = x: nat | x < 0x1_0000_0000_0000_0000
  type Port = x: nat | x < 0x1_0000
  type Addr = U32

  const TCP: U32 := 6
  const UDP: U32 := 17
  const ICMP: U32 := 1

  /** CT_INVALID_IFINDEX */
  const INVALID_IFINDEX: U32 := 0

  function Sub64(a: U64, b: U64): U64 {
    (a - b) % 0x1_0000_0000_0000_0000
  }

  // ---------- Tuples and keys ----------

  datatype Tuple = Tuple(proto: U32, src: Addr, sport: Port, dst: Addr, dport: Port) {
    function Reverse(): Tuple {
      Tuple(proto, dst, dport, src, sport)
    }

    predicate SelfPaired() {
      src == dst && sport == dport
    }
  }

  datatype Key = Key(proto: U32, addrA: Addr, addrB: Addr, portA: Port, portB: Port)

  predicate SrcLtDest(src: Addr, dst: Addr, sport: Port, dport: Port) {
    src < dst || (src == dst && sport < dport)
  }

  function FillKey(sltd: bool, proto: U32, ipa: Addr, ipb: Addr, pta: Port, ptb: Port): Key {
    if sltd then Key(proto, ipa, ipb, pta, ptb) else Key(proto, ipb, ipa, ptb, pta)
  }

  predicate Sltd(t: Tuple) {
    SrcLtDest(t.src, t.dst, t.sport, t.dport)
  }

  function KeyOf(t: Tuple): Key {
    FillKey(Sltd(t), t.proto, t.src, t.dst, t.sport, t.dport)
  }

  /** The tuple seen when side A (or side B) of a key is the sender. */
  function TupleOf(k: Key, fromA: bool): Tuple {
    if fromA then Tuple(k.proto, k.addrA, k.portA, k.addrB, k.portB)
    else Tuple(k.proto, k.addrB, k.portB, k.addrA, k.portA)
  }

  /** Both directions of a flow share one key, the two directions are told apart by
      the order test, and the key together with the direction gives the tuple back. */
  lemma KeyIsDirectionless(t: Tuple)
    ensures KeyOf(t.Reverse()) == KeyOf(t)
    ensures !t.SelfPaired() ==> Sltd(t.Reverse()) == !Sltd(t)
    ensures TupleOf(KeyOf(t), Sltd(t)) == t
  {
  }

  /** Two tuples have the same key only if they are the same flow, one way or the other. */
  lemma KeyIdentifiesFlow(t: Tuple, u: Tuple)
    ensures KeyOf(t) == KeyOf(u) <==> u == t || u == t.Reverse()
  {
    KeyIsDirectionless(t);
    KeyIsDirectionless(u);
  }

  // ---------- Legs and entries ----------

  datatype LegFlag = SynSeen | AckSeen | FinSeen | RstSeen | Approved | Opener | Workload

  datatype Leg = Leg(flags: set<LegFlag>, seqno: U32, ifindex: U32, packets: U32, bytes: U64) {
    function Set(fs: set<LegFlag>): Leg { this.(flags := flags + fs) }
    function Clear(fs: set<LegFlag>): Leg { this.(flags := flags - fs) }
    predicate Closed() { FinSeen in flags || RstSeen in flags }
  }

  const NO_LEG := Leg({}, 0, INVALID_IFINDEX, 0, 0)

  datatype EntryFlag =
    | NatOut | SkipFib | Ba | SetDscp | SkipRedirPeer | HostOrigin
    | ConnIngress | ConnIngressRejected | ConnEgress | ConnDec

  datatype Kind = Normal | NatRev

  datatype Entry =
    | Fwd(lastSeen: U64, revKey: Key, natSport: Port)
    | Track(lastSeen: U64, rstSeen: U64, kind: Kind, flags: set<EntryFlag>, ab: Leg, ba: Leg,
            origIp: Addr, origPort: Port, origSip: Addr, origSport: Port)
  {
    /** The leg of packets sent by side A (fromA) or side B. */
    function LegFrom(fromA: bool): Leg
      requires Track?
    {
      if fromA then ab else ba
    }

    function WithLegs(fromA: bool, s2d: Leg, d2s: Leg): (e: Entry)
      requires Track?
      ensures e.Track? && e.LegFrom(fromA) == s2d && e.LegFrom(!fromA) == d2s
    {
      if fromA then this.(ab := s2d, ba := d2s) else this.(ab := d2s, ba := s2d)
    }

    function Stamped(now: U64): (e: Entry)
      ensures e.Track? == Track?
    {
      match this
      case Fwd(_, rk, sp) => Fwd(now, rk, sp)
      case Track(_, rst, kd, fl, a, b, oi, op, os, osp) => Track(now, rst, kd, fl, a, b, oi, op, os, osp)
    }

    predicate BothApproved()
      requires Track?
    {
      Approved in ab.flags && Approved in ba.flags
    }
  }

  type Table = map<Key, Entry>

  /** A forward entry names a reverse entry, so whatever it still finds under that key
      is a tracking entry. */
  ghost predicate WellLinked(t: Table) {
    forall k :: k in t && t[k].Fwd? && t[k].revKey in t ==> t[t[k].revKey].Track?
  }

  // ---------- Packets and programs ----------

  /** The four attach points; the direction names are the program's, not the tc hook's. */
  datatype Prog = FromWep | ToWep | FromHep | ToHep {
    predicate ToHost() { FromWep? || FromHep? }
    predicate FromHost() { !ToHost() }
    predicate Wep() { FromWep? || ToWep? }
    predicate Hep() { !Wep() }
  }

  datatype Tcp = Tcp(syn: bool, ack: bool, fin: bool, rst: bool, seqno: U32, ackSeq: U32)

  datatype TcpHeader = NoTcp | HasTcp(h: Tcp)

  /** ifindex is the interface compared with the leg: the host side of the program's own
      interface towards the host, the ingress interface away from it. */
  datatype Packet = Packet(tuple: Tuple, tcp: TcpHeader, len: U32, seen: bool, ifindex: U32) {
    /** An initial SYN, not a SYN-ACK. */
    predicate Syn() { tcp.HasTcp? && tcp.h.syn && !tcp.h.ack }
  }

  /** One connection-limit counter: which interface, and ingress or egress. */
  datatype LimitKey = LimitKey(ifindex: U32, ingress: bool)
}
