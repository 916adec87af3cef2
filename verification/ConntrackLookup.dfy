/** calico_ct_lookup: one packet against the shared map (felix/bpf-gpl/conntrack.h:554-1290),
    for packets that are not ICMP errors and did not come through a tunnel. */
module ConntrackLookup {
  import opened ConntrackTypes

  datatype Rpf = RpfFail | RpfStrict | RpfLoose | RpfDisabled

  /** What the kernel supplies: the clock, the reverse path check, the Linux conntrack mark
      and whether this is the ingress side of an encapsulating device. */
  datatype Env = Env(now: U64, rpf: Rpf, linuxEstablished: bool, encapIngress: bool)

  datatype Rc = RcNew | RcMidFlowMiss | RcEstablished | RcBypass | RcSnat | RcDnat | RcInvalid

  datatype Nat = Nat(ip: Addr, port: Port, sip: Addr, sport: Port)

  const NO_NAT := Nat(0, 0, 0, 0)

  datatype Result = Result(rc: Rc, confirmed: bool, rpfFailed: bool, syn: bool, toWorkload: bool,
                           xlate: Nat, flags: set<EntryFlag>, ifindexFwd: U32)

  function Plain(rc: Rc): Result {
    Result(rc, false, false, false, false, NO_NAT, {}, INVALID_IFINDEX)
  }

  // ---------- TCP state ----------

  predicate Acks(leg: Leg, h: Tcp) {
    SynSeen in leg.flags && (leg.seqno + 1) % 0x1_0000_0000 == h.ackSeq
  }

  /** ct_tcp_entry_update, on the leg of the packet and the opposite leg. */
  function TcpUpdate(s2d0: Leg, d2s: Leg, h: Tcp): (Leg, Leg) {
    var s2d := if h.fin then s2d0.Set({FinSeen}) else s2d0;
    if h.syn && h.ack then
      if Acks(d2s, h) then (s2d.Set({SynSeen, AckSeen}).(seqno := h.seqno), d2s) else (s2d, d2s)
    else if h.ack && AckSeen !in s2d.flags && SynSeen in s2d.flags then
      if Acks(d2s, h) then (s2d.Set({AckSeen}), d2s) else (s2d, d2s)
    else if AckSeen !in d2s.flags then (s2d, d2s)
    else (s2d.Clear({RstSeen}), d2s.Clear({RstSeen}))
  }

  predicate Recycled(p: Packet, e: Entry)
    requires e.Track?
  {
    p.Syn() && e.ab.Closed() && e.ba.Closed()
  }

  // ---------- Connection limit release ----------

  /** The counters an entry with these flags and legs gives back. */
  function Releases(flags: set<EntryFlag>, ab: Leg, ba: Leg): seq<LimitKey> {
    var opener := if Opener in ab.flags then ab else ba;
    var responder := if Opener in ab.flags then ba else ab;
    (if ConnIngress in flags && ConnIngressRejected !in flags && responder.ifindex != INVALID_IFINDEX
     then [LimitKey(responder.ifindex, true)] else []) +
    (if ConnEgress in flags && opener.ifindex != INVALID_IFINDEX
     then [LimitKey(opener.ifindex, false)] else [])
  }

  /** qos_connlimit_decrement_for_ct without interference: claim, then release. */
  function Release(e: Entry): (r: (Entry, seq<LimitKey>))
    requires e.Track?
    ensures r.0.Track?
  {
    if ConnIngress !in e.flags && ConnEgress !in e.flags then (e, [])
    else if ConnDec in e.flags then (e, [])
    else (e.(flags := e.flags + {ConnDec}), Releases(e.flags, e.ab, e.ba))
  }

  // ---------- The lookup as a function ----------

  const TWO_MINUTES: U64 := 120_000_000_000

  predicate RstExpired(e: Entry, now: U64)
    requires e.Track?
  {
    e.rstSeen != 0 && (Sub64(now, e.rstSeen) > TWO_MINUTES || Sub64(now, e.rstSeen) > 0x8000_0000_0000_0000)
  }

  /** What the first part of the lookup finds. Found carries the key of the tracking entry and
      whether the packet's leg is that of side A, and the verdict before the approval check. */
  datatype Hit =
    | Miss(rc: Rc)
    | Dangling
    | Recycle(tracking: Key)
    | Found(tracking: Key, fromA: bool, rc: Rc, confirmed: bool, xlate: Nat)

  function MissRc(prog: Prog, p: Packet, linuxEstablished: bool): Rc {
    if p.Syn() || p.tcp.NoTcp? then RcNew
    else if prog.FromHost() && linuxEstablished then RcEstablished
    else RcMidFlowMiss
  }

  /** Where a forward entry sends the packet: the post-NAT tuple, read off the reverse key. */
  function FwdNat(f: Entry, e: Entry, icmp: bool): Nat
    requires f.Fwd? && e.Track?
  {
    var post := TupleOf(f.revKey, Ba !in e.flags);
    Nat(if icmp then e.origIp else post.dst, post.dport, post.src,
        if f.natSport != 0 then f.natSport else post.sport)
  }

  function OrigNat(e: Entry): Nat
    requires e.Track?
  {
    Nat(e.origIp, e.origPort, e.origSip, e.origSport)
  }

  function ClassifyTracking(k: Key, e: Entry, prog: Prog, p: Packet): Hit
    requires e.Track?
  {
    var fromA := Sltd(p.tuple);
    if e.kind == NatRev then
      if p.tuple.proto == ICMP then Found(k, fromA, RcSnat, false, OrigNat(e))
      else if prog.FromHost() && Opener in e.LegFrom(!fromA).flags then
        Found(k, fromA, RcSnat, e.BothApproved(), OrigNat(e))
      else Found(k, fromA, RcEstablished, e.BothApproved(), NO_NAT)
    else if Recycled(p, e) then Recycle(k)
    else Found(k, fromA, if e.BothApproved() then RcBypass else RcEstablished, e.BothApproved(), NO_NAT)
  }

  function Classify(t: Table, prog: Prog, p: Packet, linuxEstablished: bool): Hit
    requires WellLinked(t)
  {
    var k := KeyOf(p.tuple);
    if k !in t then Miss(MissRc(prog, p, linuxEstablished))
    else if t[k].Track? then ClassifyTracking(k, t[k], prog, p)
    else
      var f := t[k];
      if f.revKey !in t then Dangling
      else
        var e := t[f.revKey];
        if Recycled(p, e) then Recycle(f.revKey)
        else
          Found(f.revKey, Ba !in e.flags,
                if p.tuple.proto == ICMP || prog.ToHost() then RcDnat else RcEstablished,
                e.BothApproved(), FwdNat(f, e, p.tuple.proto == ICMP))
  }

  /** This program's endpoint has approved the flow: the source leg towards the host,
      the opposite leg away from it. */
  predicate OwnLegApproved(e: Entry, fromA: bool, prog: Prog)
    requires e.Track?
  {
    Approved in e.LegFrom(if prog.ToHost() then fromA else !fromA).flags
  }

  /** TCP bookkeeping on the tracking entry: RST, the stale RST, the handshake, the close. */
  function AfterTcp(e: Entry, fromA: bool, h: Tcp, now: U64, viaFwd: bool): (r: (Entry, seq<LimitKey>))
    requires e.Track?
    ensures r.0.Track?
  {
    var e1 :=
      if h.rst then e.(rstSeen := now).WithLegs(fromA, e.LegFrom(fromA).Set({RstSeen}), e.LegFrom(!fromA))
      else if RstExpired(e, now) then e.(rstSeen := 0, flags := if viaFwd then e.flags else e.flags - {ConnDec})
      else e;
    var legs := TcpUpdate(e1.LegFrom(fromA), e1.LegFrom(!fromA), h);
    var e2 := e1.WithLegs(fromA, legs.0, legs.1);
    if FinSeen in legs.0.flags && FinSeen in legs.1.flags then Release(e2) else (e2, [])
  }

  /** The interface recorded for the packet's leg after the reverse path check. */
  function AfterRpf(s2d: Leg, d2s: Leg, prog: Prog, ifindex: U32, rpf: Rpf): Leg {
    if s2d.ifindex == ifindex || prog.FromHost() then s2d
    else if s2d.ifindex == INVALID_IFINDEX && d2s.ifindex == ifindex then s2d.(ifindex := ifindex)
    else if rpf == RpfStrict then s2d.(ifindex := ifindex)
    else s2d.(ifindex := INVALID_IFINDEX)
  }

  predicate RpfFailed(s2d: Leg, d2s: Leg, prog: Prog, ifindex: U32, rpf: Rpf) {
    && s2d.ifindex != ifindex && prog.ToHost() && rpf == RpfFail
    && !(s2d.ifindex == INVALID_IFINDEX && d2s.ifindex == ifindex)
  }

  function Count(leg: Leg, len: U32): Leg {
    leg.(packets := (leg.packets + 1) % 0x1_0000_0000,
         bytes := (leg.bytes + len) % 0x1_0000_0000_0000_0000)
  }

  predicate Counted(p: Packet, env: Env, flags: set<EntryFlag>) {
    env.encapIngress || !p.seen || NatOut in flags
  }

  /** The tracking entry stamped and with the packet's TCP flags booked. */
  function Booked(e: Entry, fromA: bool, p: Packet, now: U64, viaFwd: bool): (r: (Entry, seq<LimitKey>))
    requires e.Track?
    ensures r.0.Track?
  {
    var e0 := e.Stamped(now);
    if p.tcp.HasTcp? then AfterTcp(e0, fromA, p.tcp.h, now, viaFwd) else (e0, [])
  }

  /** The interface and the byte counts, on the packet's leg of a booked entry. */
  function Accounted(e: Entry, fromA: bool, prog: Prog, p: Packet, env: Env, flags: set<EntryFlag>): Entry
    requires e.Track?
  {
    var leg := AfterRpf(e.LegFrom(fromA), e.LegFrom(!fromA), prog, p.ifindex, env.rpf);
    e.WithLegs(fromA, if Counted(p, env, flags) then Count(leg, p.len) else leg, e.LegFrom(!fromA))
  }

  /** What the program is told about a found entry e that was booked as b. */
  function FoundResult(e: Entry, b: Entry, h: Hit, prog: Prog, p: Packet, env: Env): Result
    requires e.Track? && b.Track? && h.Found?
  {
    var approved := OwnLegApproved(e, h.fromA, prog);
    var rc := if approved then h.rc else if p.tcp.HasTcp? && !p.Syn() then RcInvalid else RcNew;
    var s2d, d2s := b.LegFrom(h.fromA), b.LegFrom(!h.fromA);
    Result(rc, h.confirmed && approved, RpfFailed(s2d, d2s, prog, p.ifindex, env.rpf), p.Syn(),
           prog.ToHost() && Workload in d2s.flags, h.xlate, e.flags,
           if prog.ToHost() then d2s.ifindex else INVALID_IFINDEX)
  }

  /** The whole lookup: the new table, the verdict, and the limit counters given back. */
  function Lookup(t: Table, prog: Prog, p: Packet, env: Env): (Table, Result, seq<LimitKey>)
    requires WellLinked(t)
  {
    var k := KeyOf(p.tuple);
    var h := Classify(t, prog, p, env.linuxEstablished);
    match h
    case Miss(rc) => (t, Plain(rc), [])
    case Dangling => (t - {k}, Plain(RcNew), [])
    case Recycle(tk) => (t - {k, tk}, Plain(RcNew), Release(t[tk]).1)
    case Found(tk, fromA, _, _, _) =>
      var e := t[tk];
      var (b, released) := Booked(e, fromA, p, env.now, t[k].Fwd?);
      (t[k := t[k].Stamped(env.now)][tk := Accounted(b, fromA, prog, p, env, e.flags)],
       FoundResult(e, b, h, prog, p, env), released)
  }

  /** Stamping the entry before the rest of the work is the same as stamping it with it. */
  lemma StampFirst(e: Entry, h: Hit, prog: Prog, p: Packet, env: Env, viaFwd: bool)
    requires e.Track? && h.Found?
    ensures var s := e.Stamped(env.now);
            var b := Booked(e, h.fromA, p, env.now, viaFwd);
            && Booked(s, h.fromA, p, env.now, viaFwd) == b
            && FoundResult(s, b.0, h, prog, p, env) == FoundResult(e, b.0, h, prog, p, env)
            && s.flags == e.flags
  {
    assert e.Stamped(env.now).Stamped(env.now) == e.Stamped(env.now);
  }

  // ---------- What a lookup keeps and what its verdict means ----------

  ghost predicate SameRole(l: Leg, l': Leg) {
    && (Approved in l.flags <==> Approved in l'.flags)
    && (Opener in l.flags <==> Opener in l'.flags)
    && (Workload in l.flags <==> Workload in l'.flags)
  }

  /** The part of a tracking entry that no packet changes: who opened and who approved the
      flow, its orientation, and the addresses it translates. */
  ghost predicate SameFlow(e: Entry, e': Entry) {
    && e.Track? && e'.Track? && e.kind == e'.kind
    && (Ba in e.flags <==> Ba in e'.flags)
    && SameRole(e.ab, e'.ab) && SameRole(e.ba, e'.ba)
    && e.origIp == e'.origIp && e.origPort == e'.origPort
    && e.origSip == e'.origSip && e.origSport == e'.origSport
  }

  lemma ReleaseKeepsFlow(e: Entry)
    requires e.Track?
    ensures SameFlow(e, Release(e).0)
  {
  }

  lemma TcpUpdateKeepsRoles(s2d: Leg, d2s: Leg, h: Tcp)
    ensures SameRole(s2d, TcpUpdate(s2d, d2s, h).0)
    ensures SameRole(d2s, TcpUpdate(s2d, d2s, h).1)
  {
  }

  lemma AfterTcpKeepsFlow(e: Entry, fromA: bool, h: Tcp, now: U64, viaFwd: bool)
    requires e.Track?
    ensures SameFlow(e, AfterTcp(e, fromA, h, now, viaFwd).0)
  {
    var e1 :=
      if h.rst then e.(rstSeen := now).WithLegs(fromA, e.LegFrom(fromA).Set({RstSeen}), e.LegFrom(!fromA))
      else if RstExpired(e, now) then e.(rstSeen := 0, flags := if viaFwd then e.flags else e.flags - {ConnDec})
      else e;
    TcpUpdateKeepsRoles(e1.LegFrom(fromA), e1.LegFrom(!fromA), h);
    var legs := TcpUpdate(e1.LegFrom(fromA), e1.LegFrom(!fromA), h);
    ReleaseKeepsFlow(e1.WithLegs(fromA, legs.0, legs.1));
  }

  lemma PacketKeepsFlow(e: Entry, fromA: bool, prog: Prog, p: Packet, env: Env, viaFwd: bool)
    requires e.Track?
    ensures SameFlow(e, Accounted(Booked(e, fromA, p, env.now, viaFwd).0, fromA, prog, p, env, e.flags))
  {
    var e0 := e.Stamped(env.now);
    if p.tcp.HasTcp? { AfterTcpKeepsFlow(e0, fromA, p.tcp.h, env.now, viaFwd); }
    assert SameFlow(e, Booked(e, fromA, p, env.now, viaFwd).0);
  }

  /** t' has no new entry, and every surviving one is still the same flow. */
  ghost predicate FlowsKept(t: Table, t': Table) {
    && t'.Keys <= t.Keys
    && (forall k :: k in t' && t'[k].Track? ==> SameFlow(t[k], t'[k]))
    && (forall k :: k in t' && t'[k].Fwd? ==>
          t[k].Fwd? && t'[k].revKey == t[k].revKey && t'[k].natSport == t[k].natSport)
  }

  lemma KeptIsWellLinked(t: Table, t': Table)
    requires WellLinked(t) && FlowsKept(t, t')
    ensures WellLinked(t')
  {
  }

  /** No lookup creates an entry, or changes who approved, who opened or what a surviving
      entry translates. */
  lemma LookupKeepsFlows(t: Table, prog: Prog, p: Packet, env: Env)
    requires WellLinked(t)
    ensures FlowsKept(t, Lookup(t, prog, p, env).0) && WellLinked(Lookup(t, prog, p, env).0)
  {
    var t' := Lookup(t, prog, p, env).0;
    var h := Classify(t, prog, p, env.linuxEstablished);
    if h.Found? {
      var k := KeyOf(p.tuple);
      var e, b := t[h.tracking], Booked(t[h.tracking], h.fromA, p, env.now, t[k].Fwd?).0;
      PacketKeepsFlow(e, h.fromA, prog, p, env, t[k].Fwd?);
      assert t' == t[k := t[k].Stamped(env.now)][h.tracking := Accounted(b, h.fromA, prog, p, env, e.flags)];
    }
    KeptIsWellLinked(t, t');
  }

  /** On a hit the flow is let through exactly if this program's own endpoint has approved
      it; a bypass or confirmed verdict means that both ends have. */
  lemma VerdictMeansApproval(t: Table, prog: Prog, p: Packet, env: Env)
    requires WellLinked(t)
    requires Classify(t, prog, p, env.linuxEstablished).Found?
    ensures var h := Classify(t, prog, p, env.linuxEstablished);
            var r := Lookup(t, prog, p, env).1;
            var e := t[h.tracking];
            && (r.rc !in {RcNew, RcInvalid, RcMidFlowMiss} <==> OwnLegApproved(e, h.fromA, prog))
            && (r.rc == RcBypass ==> e.kind == Normal && e.BothApproved())
            && (r.confirmed ==> e.BothApproved())
            && (e.BothApproved() && p.tuple.proto != ICMP ==> r.confirmed)
  {
  }

  /** A TCP packet that does not open a connection is answered NEW, and so sent to policy as
      if it did, exactly when it hits a forward entry whose reverse entry is gone. */
  lemma MidFlowIsNewOnlyIfDangling(t: Table, prog: Prog, p: Packet, env: Env)
    requires WellLinked(t)
    requires p.tcp.HasTcp? && !p.Syn()
    ensures var k := KeyOf(p.tuple);
            Lookup(t, prog, p, env).1.rc == RcNew <==> k in t && t[k].Fwd? && t[k].revKey !in t
  {
  }
}
