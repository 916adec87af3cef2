/** What packets leave in the table: TCP state, stamps, counts, interfaces, new entries, and the
    connection limits given back (felix/bpf-gpl/conntrack.h:104-319, 554-687 and 1100-1260). */
module ConntrackBooks {
  import opened ConntrackTypes
  import opened ConntrackLookup
  import opened ConntrackCreate
  import opened ConntrackRuns
  import opened ConntrackVerdicts

  // ---------- TCP state ----------

  /** The header answers the SYN of the other side. */
  predicate Answers(h: Tcp, other: Leg) {
    h.ack && SynSeen in other.flags && h.ackSeq == (other.seqno + 1) % 0x1_0000_0000
  }

  /** The handshake as the two legs see it: a SYN-ACK that answers sets both flags of its leg and its
      sequence number; an ACK that answers completes a leg with a SYN. A FIN is remembered. The other
      leg loses at most its memory of a reset. */
  lemma TcpFlagsExactly(s2d: Leg, d2s: Leg, h: Tcp)
    ensures var (a, b) := TcpUpdate(s2d, d2s, h);
            && (FinSeen in a.flags <==> FinSeen in s2d.flags || h.fin)
            && (SynSeen in a.flags <==> SynSeen in s2d.flags || (h.syn && Answers(h, d2s)))
            && (AckSeen in a.flags <==>
                  AckSeen in s2d.flags || (Answers(h, d2s) && (h.syn || SynSeen in s2d.flags)))
            && a.seqno == (if h.syn && Answers(h, d2s) then h.seqno else s2d.seqno)
            && (RstSeen !in s2d.flags ==> RstSeen !in a.flags) && (RstSeen !in d2s.flags ==> RstSeen !in b.flags)
            && b.flags + {RstSeen} == d2s.flags + {RstSeen} && b == d2s.(flags := b.flags)
            && a == s2d.(flags := a.flags, seqno := a.seqno)
  {
  }

  /** A reset is forgotten by a plain packet once the other side has acknowledged, and only then. */
  lemma RstForgottenExactly(s2d: Leg, d2s: Leg, h: Tcp)
    requires RstSeen in s2d.flags && RstSeen in d2s.flags
    ensures var (a, b) := TcpUpdate(s2d, d2s, h);
            var handshake := h.ack && (h.syn || (SynSeen in s2d.flags && AckSeen !in s2d.flags));
            && (RstSeen !in a.flags <==> !handshake && AckSeen in d2s.flags)
            && (RstSeen in a.flags <==> RstSeen in b.flags)
  {
  }

  /** From a fresh SYN, the second and third packet complete both legs exactly if each acknowledges
      the other's sequence number. */
  lemma HandshakeExactly(opener: Leg, x: U32, synAck: Tcp, ack: Tcp)
    requires SynSeen in opener.flags && AckSeen !in opener.flags && opener.seqno == x
    requires synAck.syn && synAck.ack && ack.ack && !ack.syn
    ensures var (b1, a1) := TcpUpdate(NO_LEG, opener, synAck);
            var (a2, b2) := TcpUpdate(a1, b1, ack);
            AckSeen in a2.flags && AckSeen in b2.flags <==>
            synAck.ackSeq == (x + 1) % 0x1_0000_0000 && ack.ackSeq == (synAck.seqno + 1) % 0x1_0000_0000
  {
  }

  // ---------- Limits given back ----------

  /** The leg of the side that opened the flow, and of the side that answers it. */
  function OpenerLeg(e: Entry): Leg
    requires e.Track?
  {
    if Opener in e.ab.flags then e.ab else e.ba
  }

  function ResponderLeg(e: Entry): Leg
    requires e.Track?
  {
    if Opener in e.ab.flags then e.ba else e.ab
  }

  /** The entry was counted in that counter: in at the responder's interface unless rejected there,
      out at the opener's. */
  predicate Holds(e: Entry, limit: LimitKey)
    requires e.Track?
  {
    && limit.ifindex != 0
    && if limit.ingress
       then ConnIngress in e.flags && ConnIngressRejected !in e.flags && ResponderLeg(e).ifindex == limit.ifindex
       else ConnEgress in e.flags && OpenerLeg(e).ifindex == limit.ifindex
  }

  /** An entry gives back, once, exactly the slots it holds. */
  lemma ReleaseExactly(e: Entry, limit: LimitKey)
    requires e.Track?
    ensures var (e', given) := Release(e);
            && (limit in given <==> ConnDec !in e.flags && Holds(e, limit)) && multiset(given)[limit] <= 1
            && Release(e').1 == [] && e'.Track? && e' == e.(flags := e'.flags)
            && e'.flags - {ConnDec} == e.flags - {ConnDec}
  {
  }

  // ---------- A lookup ----------

  /** The entry that a flow which goes on is left with. */
  function EntryAfter(t: Table, prog: Prog, p: Packet, env: Env): (e: Entry)
    requires WellLinked(t) && GoesOn(t, p)
    ensures e.Track?
  {
    FoundExactly(t, prog, p, env);
    Lookup(t, prog, p, env).0[TrackedUnder(t, p)]
  }

  function LegIn(e: Entry, fromA: bool): Leg
    requires e.Track?
  {
    if fromA then e.ab else e.ba
  }

  /** A lookup stamps the flow's entry and the forward entry it went through, and touches no other. */
  lemma LookupTouches(t: Table, prog: Prog, p: Packet, env: Env)
    requires WellLinked(t)
    ensures var t', k := Lookup(t, prog, p, env).0, KeyOf(p.tuple);
            && (k !in t ==> t' == t) && (IsDangling(t, p) ==> t' == t - {k})
            && (IsTracked(t, p) && StartsAfresh(t, p) ==> t' == t - {k, TrackedUnder(t, p)})
            && (GoesOn(t, p) ==>
                  && t'.Keys == t.Keys && t'[k].lastSeen == env.now && t'[TrackedUnder(t, p)].lastSeen == env.now
                  && forall x :: x in t && x != k && x != TrackedUnder(t, p) ==> t'[x] == t[x])
  {
    FoundExactly(t, prog, p, env);
    if GoesOn(t, p) {
      StampOfBooked(t[TrackedUnder(t, p)], FromSideA(t, p), p, env.now, t[KeyOf(p.tuple)].Fwd?);
    }
  }

  lemma StampOfBooked(e: Entry, fromA: bool, p: Packet, now: U64, viaFwd: bool)
    requires e.Track?
    ensures Booked(e, fromA, p, now, viaFwd).0.lastSeen == now
  {
  }

  lemma EntryAfterIs(t: Table, prog: Prog, p: Packet, env: Env)
    requires WellLinked(t) && GoesOn(t, p)
    ensures var e, a := FlowOf(t, p), FromSideA(t, p);
            EntryAfter(t, prog, p, env) ==
            Accounted(Booked(e, a, p, env.now, t[KeyOf(p.tuple)].Fwd?).0, a, prog, p, env, e.flags)
  {
    FoundExactly(t, prog, p, env);
  }

  /** The packet is counted once on its way: where no program has seen it, where it enters an
      encapsulating device, or on an entry for outgoing NAT. */
  predicate CountsHere(t: Table, p: Packet, env: Env)
    requires WellLinked(t) && GoesOn(t, p)
  {
    !p.seen || env.encapIngress || NatOut in FlowOf(t, p).flags
  }

  /** The sender's leg counts the packet, and the other leg never does. */
  lemma CountsExactly(t: Table, prog: Prog, p: Packet, env: Env)
    requires WellLinked(t) && GoesOn(t, p)
    ensures var a, now := FromSideA(t, p), EntryAfter(t, prog, p, env);
            var sender, answer, n := LegIn(now, a), LegIn(now, !a), if CountsHere(t, p, env) then 1 else 0;
            && sender.packets == (SenderLeg(t, p).packets + n) % 0x1_0000_0000
            && sender.bytes == (SenderLeg(t, p).bytes + n * p.len) % 0x1_0000_0000_0000_0000
            && answer.packets == AnswerLeg(t, p).packets && answer.bytes == AnswerLeg(t, p).bytes
  {
    EntryAfterIs(t, prog, p, env);
    var e, a, viaFwd := FlowOf(t, p), FromSideA(t, p), t[KeyOf(p.tuple)].Fwd?;
    BookedKeepsCounts(e, a, p, env.now, viaFwd, a);
    BookedKeepsCounts(e, a, p, env.now, viaFwd, !a);
    AccountedLegs(Booked(e, a, p, env.now, viaFwd).0, a, prog, p, env, e.flags);
  }

  lemma AccountedLegs(b: Entry, a: bool, prog: Prog, p: Packet, env: Env, flags: set<EntryFlag>)
    requires b.Track?
    ensures var now := Accounted(b, a, prog, p, env, flags);
            var n := if !p.seen || env.encapIngress || NatOut in flags then 1 else 0;
            var was := b.LegFrom(a).ifindex;
            && now.Track? && LegIn(now, !a) == b.LegFrom(!a)
            && LegIn(now, a).packets == (b.LegFrom(a).packets + n) % 0x1_0000_0000
            && LegIn(now, a).bytes == (b.LegFrom(a).bytes + n * p.len) % 0x1_0000_0000_0000_0000
            && LegIn(now, a).ifindex ==
               (if prog.ToWep? || prog.ToHep? || was == p.ifindex then was
                else if env.rpf == RpfStrict || (was == 0 && b.LegFrom(!a).ifindex == p.ifindex) then p.ifindex
                else 0)
  {
  }

  lemma BookedKeepsCounts(e: Entry, fromA: bool, p: Packet, now: U64, viaFwd: bool, sideA: bool)
    requires e.Track?
    ensures var b := Booked(e, fromA, p, now, viaFwd).0;
            b.LegFrom(sideA).packets == e.LegFrom(sideA).packets && b.LegFrom(sideA).bytes == e.LegFrom(sideA).bytes
  {
    if p.tcp.HasTcp? {
      var e1 := AfterReset(e.Stamped(now), fromA, p.tcp.h, now, viaFwd);
      TcpFlagsExactly(e1.LegFrom(fromA), e1.LegFrom(!fromA), p.tcp.h);
    }
  }

  /** The interface of the sender's leg: kept away from the host or if it fits; taken over if the route
      back is strict or the answers go there; forgotten otherwise. The other leg's is kept. */
  lemma InterfacesExactly(t: Table, prog: Prog, p: Packet, env: Env)
    requires WellLinked(t) && GoesOn(t, p)
    ensures var a, now, was := FromSideA(t, p), EntryAfter(t, prog, p, env), SenderLeg(t, p).ifindex;
            && LegIn(now, !a).ifindex == AnswerLeg(t, p).ifindex
            && LegIn(now, a).ifindex ==
               (if prog.ToWep? || prog.ToHep? || was == p.ifindex then was
                else if env.rpf == RpfStrict || (was == 0 && AnswerLeg(t, p).ifindex == p.ifindex) then p.ifindex
                else 0)
  {
    EntryAfterIs(t, prog, p, env);
    var e, a, viaFwd := FlowOf(t, p), FromSideA(t, p), t[KeyOf(p.tuple)].Fwd?;
    BookedKeepsEnds(e, a, p, env.now, viaFwd, a);
    BookedKeepsEnds(e, a, p, env.now, viaFwd, !a);
    AccountedLegs(Booked(e, a, p, env.now, viaFwd).0, a, prog, p, env, e.flags);
  }

  // ---------- Resets and closes ----------

  /** The entry once a reset is noted, or an old one is forgotten. */
  function AfterReset(e: Entry, fromA: bool, h: Tcp, now: U64, viaFwd: bool): (r: Entry)
    requires e.Track?
    ensures r.Track?
  {
    if h.rst then e.(rstSeen := now).WithLegs(fromA, e.LegFrom(fromA).Set({RstSeen}), e.LegFrom(!fromA))
    else if RstExpired(e, now) then e.(rstSeen := 0, flags := if viaFwd then e.flags else e.flags - {ConnDec})
    else e
  }

  /** The time since, on a clock that wraps. */
  function Since(start: U64, now: U64): nat {
    if start <= now then now - start else now + 0x1_0000_0000_0000_0000 - start
  }

  /** A reset is old two minutes later. */
  lemma ResetIsOldExactly(e: Entry, now: U64)
    requires e.Track?
    ensures RstExpired(e, now) <==> e.rstSeen != 0 && Since(e.rstSeen, now) > 120_000_000_000
  {
    assert Sub64(now, e.rstSeen) == Since(e.rstSeen, now);
  }

  lemma BookedResetTime(e: Entry, a: bool, p: Packet, now: U64, viaFwd: bool)
    requires e.Track? && p.tcp.HasTcp?
    ensures Booked(e, a, p, now, viaFwd).0.rstSeen ==
            if p.tcp.h.rst then now else if RstExpired(e, now) then 0 else e.rstSeen
  {
    var e1 := AfterReset(e.Stamped(now), a, p.tcp.h, now, viaFwd);
    var legs := TcpUpdate(e1.LegFrom(a), e1.LegFrom(!a), p.tcp.h);
    assert Release(e1.WithLegs(a, legs.0, legs.1)).0.rstSeen == e1.rstSeen;
  }

  /** The time of a reset: that of the last one, forgotten two minutes later. */
  lemma ResetTimeExactly(t: Table, prog: Prog, p: Packet, env: Env)
    requires WellLinked(t) && GoesOn(t, p) && p.tcp.HasTcp?
    ensures var was := FlowOf(t, p).rstSeen;
            EntryAfter(t, prog, p, env).rstSeen ==
            if p.tcp.h.rst then env.now else if Since(was, env.now) > 120_000_000_000 then 0 else was
  {
    EntryAfterIs(t, prog, p, env);
    BookedResetTime(FlowOf(t, p), FromSideA(t, p), p, env.now, t[KeyOf(p.tuple)].Fwd?);
    ResetIsOldExactly(FlowOf(t, p), env.now);
  }

  /** Both ends have sent a FIN, counting this packet. */
  predicate BothFins(t: Table, p: Packet)
    requires WellLinked(t) && GoesOn(t, p) && p.tcp.HasTcp?
  {
    (FinSeen in SenderLeg(t, p).flags || p.tcp.h.fin) && FinSeen in AnswerLeg(t, p).flags
  }

  /** The flow may give back its slots: it has not yet, or it has and a reset that proved wrong is
      forgotten here, at its own entry. */
  predicate MayGiveBack(t: Table, p: Packet, now: U64)
    requires WellLinked(t) && GoesOn(t, p) && p.tcp.HasTcp?
  {
    || ConnDec !in FlowOf(t, p).flags
    || (FlowOf(t, p).rstSeen != 0 && Since(FlowOf(t, p).rstSeen, now) > 120_000_000_000 && !p.tcp.h.rst &&
        t[KeyOf(p.tuple)].Track?)
  }

  /** A flow gives back its slots when both its FINs are seen, or when it starts afresh; a packet gives
      back nothing otherwise. */
  lemma GivenBackExactly(t: Table, prog: Prog, p: Packet, env: Env, limit: LimitKey)
    requires WellLinked(t)
    ensures limit in Lookup(t, prog, p, env).2 <==>
            || (IsTracked(t, p) && StartsAfresh(t, p) && ConnDec !in FlowOf(t, p).flags && Holds(FlowOf(t, p), limit))
            || (GoesOn(t, p) && p.tcp.HasTcp? && BothFins(t, p) && MayGiveBack(t, p, env.now) &&
                Holds(FlowOf(t, p), limit))
  {
    FoundExactly(t, prog, p, env);
    if GoesOn(t, p) {
      if p.tcp.HasTcp? {
        ResetIsOldExactly(FlowOf(t, p), env.now);
        BookedGivesBack(FlowOf(t, p), FromSideA(t, p), p, env.now, t[KeyOf(p.tuple)].Fwd?, limit);
      }
    } else if IsTracked(t, p) {
      ReleaseExactly(FlowOf(t, p), limit);
    }
  }

  lemma BookedGivesBack(e: Entry, a: bool, p: Packet, now: U64, viaFwd: bool, limit: LimitKey)
    requires e.Track? && p.tcp.HasTcp?
    ensures limit in Booked(e, a, p, now, viaFwd).1 <==>
            && (FinSeen in e.LegFrom(a).flags || p.tcp.h.fin) && FinSeen in e.LegFrom(!a).flags
            && (ConnDec !in e.flags || (RstExpired(e, now) && !p.tcp.h.rst && !viaFwd)) && Holds(e, limit)
  {
    var e1 := AfterReset(e.Stamped(now), a, p.tcp.h, now, viaFwd);
    ResetKeepsHeld(e, a, p.tcp.h, now, viaFwd, limit);
    UpdateKeepsHeld(e1, a, p.tcp.h, limit);
    var legs := TcpUpdate(e1.LegFrom(a), e1.LegFrom(!a), p.tcp.h);
    ReleaseExactly(e1.WithLegs(a, legs.0, legs.1), limit);
    BookedReleases(e, a, p, now, viaFwd);
  }

  lemma BookedReleases(e: Entry, a: bool, p: Packet, now: U64, viaFwd: bool)
    requires e.Track? && p.tcp.HasTcp?
    ensures var e1 := AfterReset(e.Stamped(now), a, p.tcp.h, now, viaFwd);
            var legs := TcpUpdate(e1.LegFrom(a), e1.LegFrom(!a), p.tcp.h);
            Booked(e, a, p, now, viaFwd).1 ==
            if FinSeen in legs.0.flags && FinSeen in legs.1.flags then Release(e1.WithLegs(a, legs.0, legs.1)).1 else []
  {
  }

  lemma ResetKeepsHeld(e: Entry, a: bool, h: Tcp, now: U64, viaFwd: bool, limit: LimitKey)
    requires e.Track?
    ensures var e1 := AfterReset(e.Stamped(now), a, h, now, viaFwd);
            && (Holds(e1, limit) <==> Holds(e, limit))
            && (ConnDec !in e1.flags <==> ConnDec !in e.flags || (RstExpired(e, now) && !h.rst && !viaFwd))
            && (FinSeen in e1.LegFrom(a).flags <==> FinSeen in e.LegFrom(a).flags)
            && (FinSeen in e1.LegFrom(!a).flags <==> FinSeen in e.LegFrom(!a).flags)
  {
  }

  lemma UpdateKeepsHeld(e: Entry, a: bool, h: Tcp, limit: LimitKey)
    requires e.Track?
    ensures var legs := TcpUpdate(e.LegFrom(a), e.LegFrom(!a), h);
            && (Holds(e.WithLegs(a, legs.0, legs.1), limit) <==> Holds(e, limit))
            && (FinSeen in legs.0.flags <==> FinSeen in e.LegFrom(a).flags || h.fin)
            && (FinSeen in legs.1.flags <==> FinSeen in e.LegFrom(!a).flags)
  {
    TcpFlagsExactly(e.LegFrom(a), e.LegFrom(!a), h);
    TcpUpdateKeepsRoles(e.LegFrom(a), e.LegFrom(!a), h);
  }

  // ---------- New entries ----------

  /** A new entry: the sender is its opener and has one packet, with its SYN, sequence number and
      length; the sender's interface is known towards the host only; nothing is known of the other
      side. The sender is a workload only if it is seen leaving one. */
  lemma NewEntryExactly(prog: Prog, c: Flow, p: Packet, now: U64)
    ensures var e := NewEntry(prog, c, p, now);
            var a := SrcLtDest(c.tuple.src, c.tuple.dst, c.tuple.sport, c.tuple.dport);
            var toHost := prog.FromWep? || prog.FromHep?;
            var sender, other := LegIn(e, a), LegIn(e, !a);
            && e.lastSeen == now && e.rstSeen == 0 && e.kind == c.kind
            && e.flags - {Ba} == c.flags - {Ba} && (Ba !in c.flags ==> (Ba in e.flags <==> !a))
            && Opener in sender.flags && sender.packets == 1 && sender.bytes == p.len
            && sender.ifindex == (if toHost then p.ifindex else 0)
            && (Workload in sender.flags <==> prog.FromWep?)
            && (SynSeen in sender.flags <==> p.tcp.HasTcp? && p.tcp.h.syn)
            && sender.seqno == (if p.tcp.HasTcp? then p.tcp.h.seqno else 0)
            && (Approved in sender.flags <==> toHost || (prog.ToHep? && !p.seen && c.kind == NatRev))
            && sender.flags <= {Opener, Workload, SynSeen, Approved}
            && other == NO_LEG.(flags := other.flags) && other.flags <= {Approved}
            && (Approved in other.flags <==> !toHost || (prog.FromHep? && c.allowReturn))
            && e.origIp == c.orig.dst && e.origPort == c.orig.dport
            && e.origSip == c.orig.src && e.origSport == c.orig.sport
  {
  }

  /** Approving an earlier program's entry: its own end is approved, and known as a workload at one;
      the sender's SYN and sequence number are noted; nothing else changes. */
  lemma ApproveSeenExactly(e: Entry, fromA: bool, prog: Prog, p: Packet)
    requires e.Track?
    ensures var e' := ApproveSeen(e, fromA, prog, p);
            var own := if prog.FromWep? || prog.FromHep? then fromA else !fromA;
            var before, after := LegIn(e, own), LegIn(e', own);
            && Approved in after.flags && LegIn(e', !own).flags <= LegIn(e, !own).flags + {SynSeen}
            && after.flags - {Approved, Workload, SynSeen} == before.flags - {Approved, Workload, SynSeen}
            && LegIn(e, !own).flags <= LegIn(e', !own).flags
            && (Workload in after.flags <==> Workload in before.flags || prog.FromWep? || prog.ToWep?)
            && (SynSeen in LegIn(e', fromA).flags <==>
                  SynSeen in LegIn(e, fromA).flags || (p.tcp.HasTcp? && p.tcp.h.syn))
            && LegIn(e', fromA).seqno == (if p.tcp.HasTcp? then p.tcp.h.seqno else 0)
            && LegIn(e', !fromA).seqno == LegIn(e, !fromA).seqno
            && e' == e.(ab := e'.ab, ba := e'.ba)
            && e'.ab == e.ab.(flags := e'.ab.flags, seqno := e'.ab.seqno)
            && e'.ba == e.ba.(flags := e'.ba.flags, seqno := e'.ba.seqno)
  {
  }

  /** The flow a packet opens: to the backend if one was looked up, which is done towards the host and
      for packets not seen before, with the client's tuple kept; and counted out at a limited workload. */
  lemma NewFlowExactly(i: Input)
    ensures var c, looksUp := NewFlow(i), i.prog.FromWep? || i.prog.FromHep? || !i.p.seen;
            && (c.kind == NatRev <==> looksUp && i.backend.Backend?)
            && c.tuple == (if c.kind == NatRev then i.p.tuple.(dst := i.backend.ip, dport := i.backend.port)
                           else i.p.tuple)
            && (c.kind == NatRev ==> c.orig == i.p.tuple)
            && c.flags - {ConnEgress} == i.flags - {ConnEgress}
            && (ConnEgress in c.flags <==>
                  ConnEgress in i.flags || (i.prog.FromWep? && i.p.tcp.HasTcp? && i.egressLimit))
  {
  }

  /** The n-th drawn port is the first whose key is free. */
  predicate FreePort(t: Table, c: Tuple, ports: seq<Port>, n: nat) {
    && n < |ports| && KeyOf(c.(sport := ports[n])) !in t
    && forall m :: 0 <= m < n ==> KeyOf(c.(sport := ports[m])) in t
  }

  /** Where a flow is filed. Under its own key if that is free. Under the key of the first drawn source
      port with a free one if not, at a host endpoint, and the entry keeps the port that was replaced.
      Nowhere, and the packet fails, if there is none or at a workload. Under its own key, approved, if
      an earlier program has filed it there. */
  lemma FiledExactly(t: Table, prog: Prog, c: Flow, p: Packet, env: CreateEnv, n: nat)
    requires p.seen && KeyOf(c.tuple) in t ==> t[KeyOf(c.tuple)].Track?
    ensures var made, k, e := Tracking(t, prog, c, p, env), KeyOf(c.tuple), NewEntry(prog, c, p, env.now);
            && (k !in t && !(p.seen && env.allowSource) ==> made == Created(t[k := e], false, c.tuple))
            && (k !in t && p.seen && env.allowSource ==> made == Created(t, false, c.tuple))
            && (k in t && p.seen ==>
                  !made.failed && made.tuple == c.tuple && made.table == t[k := made.table[k]] &&
                  SameFlowUpToApproval(t[k], made.table[k]))
            && (k in t && !p.seen && (prog.FromWep? || prog.ToWep?) ==> made == Created(t, true, c.tuple))
            && (k in t && !p.seen && (prog.FromHep? || prog.ToHep?) && FreePort(t, c.tuple, env.ports, n) ==>
                  var tuple := c.tuple.(sport := env.ports[n]);
                  made == Created(t[KeyOf(tuple) := e.(origSport := c.tuple.sport)], false, tuple))
  {
    if FreePort(t, c.tuple, env.ports, n) { FreePortIsFirst(t, c.tuple, env.ports, n); }
  }

  lemma {:induction false} FreePortIsFirst(t: Table, c: Tuple, ports: seq<Port>, n: nat)
    requires FreePort(t, c, ports, n)
    ensures FirstFree(t, c, ports) == n
    decreases n
  {
    if n > 0 {
      assert KeyOf(c.(sport := ports[0])) in t;
      assert forall m :: 0 <= m < n - 1 ==> ports[1..][m] == ports[m + 1];
      FreePortIsFirst(t, c, ports[1..], n - 1);
    }
  }

  ghost predicate SameFlowUpToApproval(e: Entry, e': Entry) {
    e.Track? && e'.Track? && e' == e.(ab := e'.ab, ba := e'.ba)
  }

  /** The forward entry of a NATted flow: under the client's tuple, or under source port 0 if the host's
      own connection had its port replaced; naming the reverse entry, and the port if it was replaced. */
  lemma ForwardExactly(t: Table, prog: Prog, c: Flow, p: Packet, env: CreateEnv)
    requires (p.seen && KeyOf(c.tuple) in t ==> t[KeyOf(c.tuple)].Track?) && c.kind == NatRev
    requires !Tracking(t, prog, c, p, env).failed
    ensures var made := Tracking(t, prog, c, p, env);
            var moved := c.orig.sport != made.tuple.sport;
            var k := KeyOf(if prog.ToHep? && moved && !p.seen then c.orig.(sport := 0) else c.orig);
            var fwd := Fwd(env.now, KeyOf(made.tuple), if moved then made.tuple.sport else 0);
            Create(t, prog, c, p, env, false) == made.(table := made.table[k := fwd])
  {
  }

  // ---------- The ingress limit ----------

  /** A SYN that policy allows into a limited workload is checked, unless its flow is counted. */
  predicate IsChecked(i: Input, r: Result) {
    i.prog.ToWep? && i.policy.PolicyAllow? && i.ingressLimit && r.syn && ConnIngress !in r.flags
  }

  /** Under the limit the flow is counted, and no longer rejected if the lookup found it so. Over it the
      flow is rejected, and the workload's end approved, so that a reset can leave. Nothing else of the
      entry changes. */
  lemma IngressMarksExactly(t: Table, i: Input, r: Result)
    requires KeyOf(i.p.tuple) in t && t[KeyOf(i.p.tuple)].Track?
    ensures var k, toB := KeyOf(i.p.tuple), Sltd(i.p.tuple);
            var e, e' := t[k], AfterIngressLimit(t, i, r)[k];
            && e'.Track? && e' == e.(flags := e'.flags, ab := e'.ab, ba := e'.ba)
            && e'.flags - {ConnIngress, ConnIngressRejected} == e.flags - {ConnIngress, ConnIngressRejected}
            && (ConnIngress in e'.flags <==> ConnIngress in e.flags || i.underLimit)
            && (ConnIngressRejected in e'.flags <==>
                  !i.underLimit || (ConnIngressRejected in e.flags && ConnIngressRejected !in r.flags))
            && LegIn(e', toB) == LegIn(e, toB)
            && LegIn(e', !toB) == LegIn(e, !toB).(flags := LegIn(e', !toB).flags)
            && LegIn(e', !toB).flags == LegIn(e, !toB).flags + (if i.underLimit then {} else {Approved})
  {
  }

  /** Only a packet that is checked marks an entry, and only that of its own key. */
  lemma IngressChecksExactly(t: Table, i: Input, r: Result)
    ensures !IsChecked(i, r) ==> AdmitIngress(t, i, r) == t && !OverIngress(i, r)
    ensures IsChecked(i, r) ==>
              AdmitIngress(t, i, r) == AfterIngressLimit(t, i, r) && (OverIngress(i, r) <==> !i.underLimit)
    ensures forall x :: x in t && x != KeyOf(i.p.tuple) ==>
              x in AdmitIngress(t, i, r) && AdmitIngress(t, i, r)[x] == t[x]
    ensures AdmitIngress(t, i, r).Keys == t.Keys
  {
  }
}
