/** What the lookup answers, read off the table and the packet
    (felix/bpf-gpl/conntrack.h:790-1100). */
module ConntrackVerdicts {
  import opened ConntrackTypes
  import opened ConntrackLookup

  // ---------- The flow a packet belongs to ----------

  /** A packet that can open a flow: an initial SYN, or no TCP at all. */
  predicate CanOpen(p: Packet) {
    p.tcp.NoTcp? || (p.tcp.h.syn && !p.tcp.h.ack)
  }

  /** The packet hits a forward entry whose reverse entry is gone. */
  predicate IsDangling(t: Table, p: Packet) {
    var k := KeyOf(p.tuple);
    k in t && t[k].Fwd? && t[k].revKey !in t
  }

  /** The packet's flow is tracked: under its own key, or under the key that its forward entry names. */
  predicate IsTracked(t: Table, p: Packet) {
    KeyOf(p.tuple) in t && !IsDangling(t, p)
  }

  function TrackedUnder(t: Table, p: Packet): Key
    requires IsTracked(t, p)
  {
    var k := KeyOf(p.tuple);
    if t[k].Fwd? then t[k].revKey else k
  }

  function FlowOf(t: Table, p: Packet): (e: Entry)
    requires WellLinked(t) && IsTracked(t, p)
    ensures e.Track?
  {
    t[TrackedUnder(t, p)]
  }

  /** Whether the sender is side A: as the addresses say, or, through a forward entry, as the flow
      was laid out. */
  predicate FromSideA(t: Table, p: Packet)
    requires WellLinked(t) && IsTracked(t, p)
  {
    var tu := p.tuple;
    if t[KeyOf(tu)].Fwd? then Ba !in FlowOf(t, p).flags else SrcLtDest(tu.src, tu.dst, tu.sport, tu.dport)
  }

  /** The leg of packets like this one, and the leg of the answers. */
  function SenderLeg(t: Table, p: Packet): Leg
    requires WellLinked(t) && IsTracked(t, p)
  {
    if FromSideA(t, p) then FlowOf(t, p).ab else FlowOf(t, p).ba
  }

  function AnswerLeg(t: Table, p: Packet): Leg
    requires WellLinked(t) && IsTracked(t, p)
  {
    if FromSideA(t, p) then FlowOf(t, p).ba else FlowOf(t, p).ab
  }

  /** The program's own end has approved the flow: the sender towards the host, the receiver away
      from it. */
  predicate OwnEndApproved(t: Table, prog: Prog, p: Packet)
    requires WellLinked(t) && IsTracked(t, p)
  {
    Approved in (if prog.FromWep? || prog.FromHep? then SenderLeg(t, p) else AnswerLeg(t, p)).flags
  }

  /** A SYN for a flow that both ends have closed starts it afresh, except at its reverse entry. */
  predicate StartsAfresh(t: Table, p: Packet)
    requires WellLinked(t) && IsTracked(t, p)
  {
    var e := FlowOf(t, p);
    && p.tcp.HasTcp? && p.tcp.h.syn && !p.tcp.h.ack
    && (FinSeen in e.ab.flags || RstSeen in e.ab.flags) && (FinSeen in e.ba.flags || RstSeen in e.ba.flags)
    && (t[KeyOf(p.tuple)].Fwd? || e.kind == Normal)
  }

  /** The packet is one of a tracked flow that goes on. */
  predicate GoesOn(t: Table, p: Packet)
    requires WellLinked(t)
  {
    IsTracked(t, p) && !StartsAfresh(t, p)
  }

  // ---------- The verdict ----------

  /** The first half of the lookup finds the flow exactly if it goes on. */
  lemma FoundExactly(t: Table, prog: Prog, p: Packet, env: Env)
    requires WellLinked(t)
    ensures var h := Classify(t, prog, p, env.linuxEstablished);
            && (h.Found? <==> GoesOn(t, p)) && (h.Dangling? <==> IsDangling(t, p))
            && (h.Recycle? <==> IsTracked(t, p) && StartsAfresh(t, p)) && (h.Miss? <==> KeyOf(p.tuple) !in t)
            && (h.Found? ==> h.tracking == TrackedUnder(t, p) && h.fromA == FromSideA(t, p))
  {
  }

  lemma FoundVerdict(t: Table, prog: Prog, p: Packet, env: Env)
    requires WellLinked(t) && GoesOn(t, p)
    ensures var h, r := Classify(t, prog, p, env.linuxEstablished), Lookup(t, prog, p, env).1;
            && h.Found?
            && r.rc == if OwnEndApproved(t, prog, p) then h.rc else if CanOpen(p) then RcNew else RcInvalid
  {
    FoundExactly(t, prog, p, env);
  }

  /** And the kind of hit says what the packet needs. */
  lemma FoundKind(t: Table, prog: Prog, p: Packet, env: Env)
    requires WellLinked(t) && GoesOn(t, p)
    ensures var h, fwd, e := Classify(t, prog, p, env.linuxEstablished), t[KeyOf(p.tuple)].Fwd?, FlowOf(t, p);
            var away, icmp := prog.ToWep? || prog.ToHep?, p.tuple.proto == ICMP;
            && h.Found? && h.rc in {RcDnat, RcSnat, RcBypass, RcEstablished}
            && (h.rc == RcDnat <==> fwd && (!away || icmp))
            && (h.rc == RcSnat <==> !fwd && e.kind == NatRev && (icmp || (away && Opener in AnswerLeg(t, p).flags)))
            && (h.rc == RcBypass <==> !fwd && e.kind == Normal && Approved in e.ab.flags && Approved in e.ba.flags)
  {
    FoundExactly(t, prog, p, env);
  }

  /** NEW: a dangling hit, or a packet that can open a flow which is not tracked, starts afresh, or
      that the program's own end has not approved. */
  lemma NewExactly(t: Table, prog: Prog, p: Packet, env: Env)
    requires WellLinked(t)
    ensures Lookup(t, prog, p, env).1.rc == RcNew <==>
            || IsDangling(t, p)
            || (CanOpen(p) && (!IsTracked(t, p) || StartsAfresh(t, p) || !OwnEndApproved(t, prog, p)))
  {
    FoundExactly(t, prog, p, env);
    if GoesOn(t, p) { FoundVerdict(t, prog, p, env); FoundKind(t, prog, p, env); }
  }

  /** A mid-flow miss: TCP without SYN and without an entry, towards the host or unknown to Linux. */
  lemma MidFlowMissExactly(t: Table, prog: Prog, p: Packet, env: Env)
    requires WellLinked(t)
    ensures Lookup(t, prog, p, env).1.rc == RcMidFlowMiss <==>
            KeyOf(p.tuple) !in t && !CanOpen(p) && (prog.FromWep? || prog.FromHep? || !env.linuxEstablished)
  {
    FoundExactly(t, prog, p, env);
    if GoesOn(t, p) { FoundVerdict(t, prog, p, env); FoundKind(t, prog, p, env); }
  }

  /** Invalid: TCP without SYN of a flow that goes on and that the own end has not approved. */
  lemma InvalidExactly(t: Table, prog: Prog, p: Packet, env: Env)
    requires WellLinked(t)
    ensures Lookup(t, prog, p, env).1.rc == RcInvalid <==>
            GoesOn(t, p) && !CanOpen(p) && !OwnEndApproved(t, prog, p)
  {
    FoundExactly(t, prog, p, env);
    if GoesOn(t, p) { FoundVerdict(t, prog, p, env); FoundKind(t, prog, p, env); }
  }

  /** Destination NAT: through a forward entry, towards the host, or for ICMP in either direction. */
  lemma DnatExactly(t: Table, prog: Prog, p: Packet, env: Env)
    requires WellLinked(t)
    ensures Lookup(t, prog, p, env).1.rc == RcDnat <==>
            && GoesOn(t, p) && OwnEndApproved(t, prog, p) && t[KeyOf(p.tuple)].Fwd?
            && (prog.FromWep? || prog.FromHep? || p.tuple.proto == ICMP)
  {
    FoundExactly(t, prog, p, env);
    if GoesOn(t, p) { FoundVerdict(t, prog, p, env); FoundKind(t, prog, p, env); }
  }

  /** Source NAT: at the reverse entry itself, away from the host and towards the opener, or for
      ICMP. */
  lemma SnatExactly(t: Table, prog: Prog, p: Packet, env: Env)
    requires WellLinked(t)
    ensures Lookup(t, prog, p, env).1.rc == RcSnat <==>
            && GoesOn(t, p) && OwnEndApproved(t, prog, p) && t[KeyOf(p.tuple)].Track? && FlowOf(t, p).kind == NatRev
            && (p.tuple.proto == ICMP || ((prog.ToWep? || prog.ToHep?) && Opener in AnswerLeg(t, p).flags))
  {
    FoundExactly(t, prog, p, env);
    if GoesOn(t, p) { FoundVerdict(t, prog, p, env); FoundKind(t, prog, p, env); }
  }

  /** Bypass: a flow without NAT that both ends have approved. */
  lemma BypassExactly(t: Table, prog: Prog, p: Packet, env: Env)
    requires WellLinked(t)
    ensures Lookup(t, prog, p, env).1.rc == RcBypass <==>
            && GoesOn(t, p) && t[KeyOf(p.tuple)].Track? && FlowOf(t, p).kind == Normal
            && Approved in FlowOf(t, p).ab.flags && Approved in FlowOf(t, p).ba.flags
  {
    FoundExactly(t, prog, p, env);
    if GoesOn(t, p) { FoundVerdict(t, prog, p, env); FoundKind(t, prog, p, env); }
  }

  /** Established otherwise: a flow that goes on with the own end's approval, or one that only Linux
      knows, away from the host. */
  lemma EstablishedExactly(t: Table, prog: Prog, p: Packet, env: Env)
    requires WellLinked(t)
    ensures var rc := Lookup(t, prog, p, env).1.rc;
            rc == RcEstablished <==>
            || (GoesOn(t, p) && OwnEndApproved(t, prog, p) && rc !in {RcDnat, RcSnat, RcBypass})
            || (KeyOf(p.tuple) !in t && !CanOpen(p) && (prog.ToWep? || prog.ToHep?) && env.linuxEstablished)
  {
    FoundExactly(t, prog, p, env);
    if GoesOn(t, p) { FoundVerdict(t, prog, p, env); FoundKind(t, prog, p, env); }
  }

  /** Booking a packet on an entry changes neither the interfaces nor who is a workload. */
  lemma BookedKeepsEnds(e: Entry, fromA: bool, p: Packet, now: U64, viaFwd: bool, sideA: bool)
    requires e.Track?
    ensures var b := Booked(e, fromA, p, now, viaFwd).0;
            && b.LegFrom(sideA).ifindex == e.LegFrom(sideA).ifindex
            && (Workload in b.LegFrom(sideA).flags <==> Workload in e.LegFrom(sideA).flags)
  {
    var e0 := e.Stamped(now);
    if p.tcp.HasTcp? { AfterTcpKeepsFlow(e0, fromA, p.tcp.h, now, viaFwd); }
  }

  /** The other findings about a flow that goes on: a SYN, a workload at the other end, a failed
      reverse path check. */
  lemma FindingsExactly(t: Table, prog: Prog, p: Packet, env: Env)
    requires WellLinked(t) && GoesOn(t, p)
    ensures var r, toHost := Lookup(t, prog, p, env).1, prog.FromWep? || prog.FromHep?;
            && r.flags == FlowOf(t, p).flags && (r.syn <==> p.tcp.HasTcp? && CanOpen(p))
            && (r.toWorkload <==> toHost && Workload in AnswerLeg(t, p).flags)
            && r.ifindexFwd == (if toHost then AnswerLeg(t, p).ifindex else 0)
            && (r.rpfFailed <==>
                  && toHost && env.rpf == RpfFail && SenderLeg(t, p).ifindex != p.ifindex
                  && !(SenderLeg(t, p).ifindex == 0 && AnswerLeg(t, p).ifindex == p.ifindex))
  {
    FoundExactly(t, prog, p, env);
    var e, fromA, viaFwd := FlowOf(t, p), FromSideA(t, p), t[KeyOf(p.tuple)].Fwd?;
    BookedKeepsEnds(e, fromA, p, env.now, viaFwd, fromA);
    BookedKeepsEnds(e, fromA, p, env.now, viaFwd, !fromA);
  }

  /** About any other packet there are none. */
  lemma NoFindings(t: Table, prog: Prog, p: Packet, env: Env)
    requires WellLinked(t) && !GoesOn(t, p)
    ensures var r := Lookup(t, prog, p, env).1;
            !r.syn && !r.toWorkload && !r.rpfFailed && !r.confirmed && r.flags == {}
  {
    FoundExactly(t, prog, p, env);
  }
}
