/** What becomes of a packet, read off the table, the packet and the decisions taken about it
    (felix/bpf-gpl/tc.c:364-863, 1397-1549 and 1568-1793). */
module ConntrackFates {
  import opened ConntrackTypes
  import opened ConntrackLookup
  import opened ConntrackCreate
  import opened ConntrackRuns
  import opened ConntrackVerdicts
  import opened ConntrackNat

  ghost function FateOf(t: Table, i: Input): Fate
    requires WellLinked(t) && Creatable(Looked(t, PacketIn(i)), i)
  {
    Act(Looked(t, PacketIn(i)), VerdictOf(t, i), i).fate
  }

  // ---------- The cases ----------

  predicate TowardsHost(prog: Prog) { prog.FromWep? || prog.FromHep? }

  /** The packet starts something: it is put to policy as a new flow. */
  predicate StartsFlow(t: Table, i: Input)
    requires WellLinked(t)
  {
    || IsDangling(t, i.p)
    || (CanOpen(i.p) && (!IsTracked(t, i.p) || StartsAfresh(t, i.p) || !OwnEndApproved(t, i.prog, i.p)))
  }

  /** The packet belongs to a flow that its own end has approved. */
  predicate Continues(t: Table, i: Input)
    requires WellLinked(t)
  {
    GoesOn(t, i.p) && OwnEndApproved(t, i.prog, i.p)
  }

  /** TCP without SYN and without an entry; LinuxKnows, if the host's own tracking has the flow. */
  predicate Stray(t: Table, i: Input) {
    KeyOf(i.p.tuple) !in t && !CanOpen(i.p)
  }

  predicate LinuxKnows(i: Input) {
    !TowardsHost(i.prog) && i.env.linuxEstablished
  }

  /** Towards the host, the packet came in by another interface than its flow does and by none that
      leads back to its sender. */
  predicate WrongWayIn(t: Table, i: Input)
    requires WellLinked(t)
  {
    && GoesOn(t, i.p) && TowardsHost(i.prog) && i.env.rpf == RpfFail
    && SenderLeg(t, i.p).ifindex != i.p.ifindex
    && !(SenderLeg(t, i.p).ifindex == 0 && AnswerLeg(t, i.p).ifindex == i.p.ifindex)
  }

  /** A SYN that policy allows into a limited workload, of a flow not counted yet, finds no room. */
  predicate NoRoomIn(t: Table, i: Input)
    requires WellLinked(t)
  {
    && i.prog.ToWep? && i.policy.PolicyAllow? && i.ingressLimit && !i.underLimit
    && GoesOn(t, i.p) && i.p.tcp.HasTcp? && CanOpen(i.p) && ConnIngress !in FlowOf(t, i.p).flags
  }

  /** A new TCP flow out of a limited workload finds no room. */
  predicate NoRoomOut(i: Input) {
    i.prog.FromWep? && i.p.tcp.HasTcp? && i.egressLimit && !i.underLimit && !i.suppress
  }

  /** Every key that the new flow could have is taken: its own and, at a host endpoint, those of the
      ports drawn. */
  predicate NoKeyLeft(t: Table, i: Input) {
    var c := NewFlow(i).tuple;
    && !i.p.seen && !i.suppress && KeyOf(c) in t
    && (i.prog.FromWep? || i.prog.ToWep? ||
        forall n :: 0 <= n < |i.cenv.ports| ==> KeyOf(c.(sport := i.cenv.ports[n])) in t)
  }

  /** A host endpoint with a policy drops what may have no entry. */
  predicate UntrackedAtPolicy(i: Input) {
    (i.prog.FromHep? || i.prog.ToHep?) && i.suppress && !i.policy.PolicySkip?
  }

  lemma StoppedExactly(t: Table, i: Input)
    requires WellLinked(t)
    ensures VerdictOf(t, i).rpfFailed <==> WrongWayIn(t, i)
    ensures OverIngress(i, VerdictOf(t, i)) <==> NoRoomIn(t, i)
    ensures PolicyRuns(VerdictOf(t, i)) <==>
            StartsFlow(t, i) || (GoesOn(t, i.p) && i.p.tcp.HasTcp? && CanOpen(i.p))
  {
    NewExactly(t, i.prog, i.p, i.env);
    if GoesOn(t, i.p) {
      FindingsExactly(t, i.prog, i.p, i.env);
    } else {
      NoFindings(t, i.prog, i.p, i.env);
    }
  }

  lemma NoKeyLeftExactly(t: Table, i: Input)
    requires Creatable(t, i) && !i.suppress
    ensures Tracking(t, i.prog, NewFlow(i), i.p, i.cenv).failed <==> NoKeyLeft(t, i)
  {
    var c, ports := NewFlow(i).tuple, i.cenv.ports;
    var f := FirstFree(t, c, ports);
    assert f < |ports| ==> KeyOf(c.(sport := ports[f])) !in t;
    assert f == |ports| ==> forall n :: 0 <= n < |ports| ==> KeyOf(WithPort(c, ports[n])) in t;
  }

  // ---------- New flows ----------

  /** A packet that starts a flow is sent on, to the tuple tracked for it, exactly if it came the
      right way, policy does not deny it, there is room for it in and out, and an entry can be made;
      otherwise it is dropped. */
  lemma NewFlowFate(t: Table, i: Input)
    requires WellLinked(t) && Creatable(Looked(t, PacketIn(i)), i) && StartsFlow(t, i)
    ensures var t' := Looked(t, PacketIn(i));
            FateOf(t, i) ==
            if WrongWayIn(t, i) || i.policy.PolicyDeny? || NoRoomIn(t, i) || NoRoomOut(i) || UntrackedAtPolicy(i) ||
               NoKeyLeft(t', i)
            then Dropped
            else Forwarded(if i.suppress then NewFlow(i).tuple
                           else Tracking(t', i.prog, NewFlow(i), i.p, i.cenv).tuple)
  {
    var t', r := Looked(t, PacketIn(i)), VerdictOf(t, i);
    StoppedExactly(t, i);
    NewExactly(t, i.prog, i.p, i.env);
    LookedKeeps(t, PacketIn(i));
    if !i.suppress { NoKeyLeftExactly(t', i); }
    if ChecksIngress(i, r) && !OverIngress(i, r) {
      assert AfterIngressLimit(t', i, r).Keys == t'.Keys;
      SameKeysSameTuple(t', AfterIngressLimit(t', i, r), i);
    }
  }

  /** Which tuple is tracked depends on the keys in the map alone. */
  lemma SameKeysSameTuple(t: Table, t': Table, i: Input)
    requires Creatable(t, i) && t'.Keys == t.Keys
    requires forall k :: k in t ==> (t[k].Track? <==> t'[k].Track?)
    ensures Creatable(t', i)
    ensures Tracking(t', i.prog, NewFlow(i), i.p, i.cenv).tuple == Tracking(t, i.prog, NewFlow(i), i.p, i.cenv).tuple
    ensures Tracking(t', i.prog, NewFlow(i), i.p, i.cenv).failed == Tracking(t, i.prog, NewFlow(i), i.p, i.cenv).failed
  {
    SameFirstFree(t, t', NewFlow(i).tuple, i.cenv.ports);
  }

  lemma {:induction false} SameFirstFree(t: Table, t': Table, tuple: Tuple, ports: seq<Port>)
    requires t'.Keys == t.Keys
    ensures FirstFree(t', tuple, ports) == FirstFree(t, tuple, ports)
  {
    if ports != [] { SameFirstFree(t, t', tuple, ports[1..]); }
  }

  // ---------- Flows that go on ----------

  /** A packet of an approved flow is sent on, translated as the flow says, exactly if it came the
      right way, a SYN is not denied by policy, and there is room for it; otherwise it is dropped. */
  lemma ContinuingFate(t: Table, i: Input)
    requires WellLinked(t) && Creatable(Looked(t, PacketIn(i)), i) && Continues(t, i)
    ensures FateOf(t, i) ==
            if WrongWayIn(t, i) || NoRoomIn(t, i) || (i.p.tcp.HasTcp? && CanOpen(i.p) && i.policy.PolicyDeny?)
            then Dropped
            else Forwarded(Translate(i.p.tuple, VerdictOf(t, i)))
  {
    StoppedExactly(t, i);
    FoundVerdict(t, i.prog, i.p, i.env);
    FoundKind(t, i.prog, i.p, i.env);
  }

  /** Without NAT it is sent on as it is. */
  lemma PlainTuple(t: Table, i: Input)
    requires WellLinked(t) && Continues(t, i) && t[KeyOf(i.p.tuple)].Track? && FlowOf(t, i.p).kind == Normal
    ensures Translate(i.p.tuple, VerdictOf(t, i)) == i.p.tuple
  {
    FoundVerdict(t, i.prog, i.p, i.env);
    FoundKind(t, i.prog, i.p, i.env);
  }

  // ---------- All others ----------

  /** A stray packet is sent on if Linux knows its flow, or at the way out of a host endpoint without
      policy; towards the host it falls through to the host's own rules; otherwise it is dropped. */
  lemma StrayFate(t: Table, i: Input)
    requires WellLinked(t) && Creatable(Looked(t, PacketIn(i)), i) && Stray(t, i)
    ensures FateOf(t, i) ==
            if LinuxKnows(i) then Forwarded(i.p.tuple)
            else if TowardsHost(i.prog) then FellThrough
            else if i.prog.ToHep? && i.policy.PolicySkip? then Forwarded(NewFlow(i).tuple)
            else Dropped
  {
    StoppedExactly(t, i);
    MidFlowMissExactly(t, i.prog, i.p, i.env);
    NewExactly(t, i.prog, i.p, i.env);
    EstablishedExactly(t, i.prog, i.p, i.env);
  }

  /** TCP without SYN of a flow that its own end has not approved: dropped, or left to the host's own
      rules where it comes in from a host endpoint the right way. */
  lemma UnapprovedFate(t: Table, i: Input)
    requires WellLinked(t) && Creatable(Looked(t, PacketIn(i)), i)
    requires GoesOn(t, i.p) && !CanOpen(i.p) && !OwnEndApproved(t, i.prog, i.p)
    ensures FateOf(t, i) == if i.prog.FromHep? && !WrongWayIn(t, i) then FellThrough else Dropped
  {
    StoppedExactly(t, i);
    InvalidExactly(t, i.prog, i.p, i.env);
  }

  /** Every packet is in exactly one of the four cases. */
  lemma OneCase(t: Table, i: Input)
    requires WellLinked(t)
    ensures var unapproved := GoesOn(t, i.p) && !CanOpen(i.p) && !OwnEndApproved(t, i.prog, i.p);
            && (StartsFlow(t, i) || Continues(t, i) || Stray(t, i) || unapproved)
            && !(StartsFlow(t, i) && (Continues(t, i) || Stray(t, i) || unapproved))
            && !(Continues(t, i) && (Stray(t, i) || unapproved)) && !(Stray(t, i) && unapproved)
  {
  }

  /** So a packet leaves the program only if it came the right way, was not denied, found room, and
      either starts a flow that gets an entry or is let go without, belongs to a flow that its own end
      has approved, or is known to Linux or met by no policy. */
  lemma ForwardedExactly(t: Table, i: Input)
    requires WellLinked(t) && Creatable(Looked(t, PacketIn(i)), i)
    ensures FateOf(t, i).Forwarded? <==>
            && !WrongWayIn(t, i) && !NoRoomIn(t, i)
            && (|| (&& StartsFlow(t, i) && !i.policy.PolicyDeny? && !NoRoomOut(i) && !UntrackedAtPolicy(i)
                    && !NoKeyLeft(Looked(t, PacketIn(i)), i))
                || (Continues(t, i) && !(i.p.tcp.HasTcp? && CanOpen(i.p) && i.policy.PolicyDeny?))
                || (Stray(t, i) && (LinuxKnows(i) || (i.prog.ToHep? && i.policy.PolicySkip?))))
  {
    OneCase(t, i);
    if StartsFlow(t, i) {
      NewFlowFate(t, i);
    } else if Continues(t, i) {
      ContinuingFate(t, i);
    } else if Stray(t, i) {
      StrayFate(t, i);
    } else {
      UnapprovedFate(t, i);
    }
  }

  // ---------- The fates of a round trip ----------

  /** Nothing stops the packet of an approved flow. */
  predicate Unstopped(t: Table, i: Input)
    requires WellLinked(t)
  {
    !WrongWayIn(t, i) && !NoRoomIn(t, i) && !(i.p.tcp.HasTcp? && CanOpen(i.p) && i.policy.PolicyDeny?)
  }

  /** The packet that sets up a flow to a backend leaves for the backend. */
  lemma SetUpFate(t: Table, i: Input)
    requires ValidStep(t, PacketIn(i)) && SetsUp(t, i)
    ensures FateOf(t, i) == Forwarded(PostOf(t, i))
  {
    NewExactly(t, i.prog, i.p, i.env);
    StoppedExactly(t, i);
    NewFlowFate(t, i);
    NoKeyLeftExactly(Looked(t, PacketIn(i)), i);
  }

  lemma CarriedRequest(t: Table, orig: Tuple, post: Tuple, i: Input)
    requires WellLinked(t) && Carries(t, orig, post, Sltd(post)) && orig.proto == post.proto && post.proto != ICMP
    requires orig.sport != 0 && post.sport != 0
    requires i.prog.ToHost() && i.p.tuple == orig && !Recycled(i.p, t[KeyOf(post)])
    requires Creatable(Looked(t, PacketIn(i)), i) && Unstopped(t, i)
    ensures FateOf(t, i) == Forwarded(post)
  {
    RequestReachesBackend(t, orig, post, Sltd(post), i.prog, i.p, i.env);
    DnatExactly(t, i.prog, i.p, i.env);
    ContinuingFate(t, i);
  }

  lemma CarriedInner(t: Table, orig: Tuple, post: Tuple, i: Input)
    requires WellLinked(t) && Carries(t, orig, post, Sltd(post)) && post.proto != ICMP
    requires i.prog.FromHost() && i.p.tuple == post && OwnEndApproved(t, i.prog, i.p)
    requires Creatable(Looked(t, PacketIn(i)), i) && Unstopped(t, i)
    ensures FateOf(t, i) == Forwarded(post)
  {
    RequestNotTurnedBack(t, orig, post, Sltd(post), i.prog, i.p, i.env);
    DnatExactly(t, i.prog, i.p, i.env);
    ContinuingFate(t, i);
  }

  lemma CarriedReply(t: Table, orig: Tuple, post: Tuple, i: Input)
    requires WellLinked(t) && Carries(t, orig, post, Sltd(post)) && orig.proto == post.proto && post.proto != ICMP
    requires orig.sport != 0 && !post.SelfPaired()
    requires i.prog.FromHost() && i.p.tuple == post.Reverse()
    requires Creatable(Looked(t, PacketIn(i)), i) && Unstopped(t, i)
    ensures FateOf(t, i) == Forwarded(orig.Reverse())
  {
    ReplyReachesClient(t, orig, post, Sltd(post), i.prog, i.p, i.env);
    SnatExactly(t, i.prog, i.p, i.env);
    ContinuingFate(t, i);
  }

  /** The whole round trip in fates: after the flow was set up and any run that leaves the pair in the
      map, what nothing stops reaches the backend and comes back to the client. */
  lemma RoundTripFates(t: Table, i: Input, steps: seq<Step>, request: Input, inner: Input, reply: Input)
    requires ValidStep(t, PacketIn(i)) && SetsUp(t, i)
    requires i.p.tuple.src != i.backend.ip && i.p.tuple.sport != 0 && 0 !in i.cenv.ports
    requires ValidRun(Next(t, PacketIn(i)), steps)
    requires Undisturbed(Next(t, PacketIn(i)), steps, KeyOf(i.p.tuple), KeyOf(PostOf(t, i)))
    requires request.prog.ToHost() && request.p.tuple == i.p.tuple
    requires inner.prog.FromHost() && inner.p.tuple == PostOf(t, i)
    requires reply.prog.FromHost() && reply.p.tuple == PostOf(t, i).Reverse()
    ensures FateOf(t, i) == Forwarded(PostOf(t, i))
    ensures var s, post := After(Next(t, PacketIn(i)), steps), PostOf(t, i);
            && WellLinked(s) && IsTracked(s, request.p) && IsTracked(s, inner.p)
            && (GoesOn(s, request.p) && Creatable(Looked(s, PacketIn(request)), request) && Unstopped(s, request) ==>
                  FateOf(s, request) == Forwarded(post))
            && (OwnEndApproved(s, inner.prog, inner.p) ==>
                  Creatable(Looked(s, PacketIn(inner)), inner) && Unstopped(s, inner) ==>
                    FateOf(s, inner) == Forwarded(post))
            && (Creatable(Looked(s, PacketIn(reply)), reply) && Unstopped(s, reply) ==>
                  FateOf(s, reply) == Forwarded(i.p.tuple.Reverse()))
  {
    var t1, post, orig := Next(t, PacketIn(i)), PostOf(t, i), i.p.tuple;
    SetUpFate(t, i);
    SetUpCarries(t, i);
    CarriesRun(t1, steps, orig, post, Sltd(post));
    var s := After(t1, steps);
    if GoesOn(s, request.p) && Creatable(Looked(s, PacketIn(request)), request) && Unstopped(s, request) {
      CarriedRequest(s, orig, post, request);
    }
    if Creatable(Looked(s, PacketIn(inner)), inner) && Unstopped(s, inner) && OwnEndApproved(s, inner.prog, inner.p) {
      CarriedInner(s, orig, post, inner);
    }
    if Creatable(Looked(s, PacketIn(reply)), reply) && Unstopped(s, reply) { CarriedReply(s, orig, post, reply); }
  }
}
