/** Destination NAT and its reverse: a forward entry and the reverse entry it names translate
    requests to the backend and replies back to the client
    (felix/bpf-gpl/conntrack.h:176-366 and 838-998, felix/bpf-gpl/tc.c:1010-1034 and 1148-1175). */
module ConntrackNat {
  import opened ConntrackTypes
  import opened ConntrackLookup
  import opened ConntrackCreate
  import opened ConntrackRuns

  /** The table translates orig, the tuple the client sends, to and from post, the tuple the
      backend sees. sltd is the order of addresses and ports that the legs were laid out with. */
  ghost predicate Carries(t: Table, orig: Tuple, post: Tuple, sltd: bool) {
    var kf, kr := KeyOf(orig), KeyOf(post);
    && kf in t && t[kf].Fwd? && t[kf].revKey == kr
    && t[kf].natSport == (if orig.sport != post.sport then post.sport else 0)
    && kr in t && t[kr].Track? && t[kr].kind == NatRev
    && (Ba in t[kr].flags <==> !sltd)
    && {Opener, Approved} <= t[kr].LegFrom(sltd).flags && Opener !in t[kr].LegFrom(!sltd).flags
    && OrigNat(t[kr]) == Nat(orig.dst, orig.dport, orig.src, orig.sport)
  }

  /** A flow that a program towards the host sets up for a service: same sender, new
      destination. */
  ghost predicate PlainDnat(c: Flow) {
    && c.kind == NatRev && c.tuple.proto == c.orig.proto && c.tuple.proto in {TCP, UDP}
    && c.tuple.src == c.orig.src && c.tuple.sport == c.orig.sport && Ba !in c.flags
  }

  /** Creating the pair, with or without a new source port, leaves a table that carries it. */
  lemma CreateCarries(t: Table, prog: Prog, c: Flow, p: Packet, env: CreateEnv)
    requires PlainDnat(c) && prog.ToHost() && !p.seen && !Create(t, prog, c, p, env, false).failed
    requires KeyOf(c.orig) != KeyOf(Create(t, prog, c, p, env, false).tuple)
    ensures var made := Create(t, prog, c, p, env, false);
            && Carries(made.table, c.orig, made.tuple, Sltd(c.tuple))
            && made.tuple == c.tuple.(sport := made.tuple.sport)
  {
  }

  // ---------- Translation ----------

  /** The request reaches the backend exactly if the legs still match the key's order, or
      there is nothing to mix up, and the port is not the one that means "keep". */
  lemma RequestReachesBackend(t: Table, orig: Tuple, post: Tuple, sltd: bool, prog: Prog, q: Packet, env: Env)
    requires WellLinked(t) && Carries(t, orig, post, sltd) && orig.proto == post.proto && post.proto != ICMP
    requires sltd != Sltd(post) ==> post.src == post.dst && orig.sport != post.sport
    requires prog.ToHost() && q.tuple == orig && !Recycled(q, t[KeyOf(post)])
    ensures var r := Lookup(t, prog, q, env).1;
            && r.rc == RcDnat
            && (Translate(q.tuple, r) == post <==>
                (sltd == Sltd(post) || post.sport == post.dport) && (post.sport != 0 || orig.sport == 0))
  {
    KeyIsDirectionless(post);
    var e := t[KeyOf(post)];
    assert Classify(t, prog, q, env.linuxEstablished).Found?;
    assert OwnLegApproved(e, sltd, prog);
    assert TupleOf(KeyOf(post), sltd) == if sltd == Sltd(post) then post else post.Reverse();
  }

  /** The backend's reply is turned back exactly if the legs match the key's order, and then
      into the client's own tuple reversed, unless the client's port reads as "keep". */
  lemma ReplyReachesClient(t: Table, orig: Tuple, post: Tuple, sltd: bool, prog: Prog, q: Packet, env: Env)
    requires WellLinked(t) && Carries(t, orig, post, sltd) && orig.proto == post.proto && post.proto != ICMP
    requires prog.FromHost() && q.tuple == post.Reverse() && !post.SelfPaired()
    ensures var r := Lookup(t, prog, q, env).1;
            && (r.rc == RcSnat <==> sltd == Sltd(post))
            && (sltd == Sltd(post) ==>
                (Translate(q.tuple, r) == orig.Reverse() <==> orig.sport != 0 || post.sport == 0))
  {
    KeyIsDirectionless(post);
  }

  /** A request that meets the reverse entry again on its way into the backend is left alone
      exactly if the legs match the key's order. */
  lemma RequestNotTurnedBack(t: Table, orig: Tuple, post: Tuple, sltd: bool, prog: Prog, q: Packet, env: Env)
    requires WellLinked(t) && Carries(t, orig, post, sltd) && post.proto != ICMP
    requires prog.FromHost() && q.tuple == post
    ensures Lookup(t, prog, q, env).1.rc != RcSnat <==> sltd == Sltd(post)
  {
    KeyIsDirectionless(post);
  }

  // ---------- The pair over a run ----------

  /** Lookups, and entries going, change neither entry in a way that matters. */
  lemma CarriesLooked(t: Table, step: Step, orig: Tuple, post: Tuple, sltd: bool)
    requires WellLinked(t) && Carries(t, orig, post, sltd) && {KeyOf(orig), KeyOf(post)} <= Looked(t, step).Keys
    ensures Carries(Looked(t, step), orig, post, sltd)
  {
    var t' := Looked(t, step);
    LookedKeeps(t, step);
    assert t'[KeyOf(orig)].Track? ==> SameFlow(t[KeyOf(orig)], t'[KeyOf(orig)]);
    assert SameFlow(t[KeyOf(post)], t'[KeyOf(post)]);
  }

  /** A SYN over the limit, under the forward entry's own key and from its side B, writes the approval
      bit into the source port that the entry keeps. */
  ghost predicate Smudges(t: Table, i: Input, r: Result, k: Key) {
    && OverIngress(i, r) && KeyOf(i.p.tuple) == k && !Sltd(i.p.tuple)
    && k in t && t[k].Fwd? && WithApprovedBit(t[k].natSport) != t[k].natSport
  }

  lemma CarriesIngressLimit(t: Table, i: Input, r: Result, orig: Tuple, post: Tuple, sltd: bool)
    requires ChecksIngress(i, r) && Carries(t, orig, post, sltd)
    ensures Carries(AfterIngressLimit(t, i, r), orig, post, sltd) <==> !Smudges(t, i, r, KeyOf(orig))
  {
  }

  /** Neither a new entry, which takes a free key, nor another end's approval undoes the pair. */
  lemma CarriesTracking(t: Table, i: Input, orig: Tuple, post: Tuple, sltd: bool)
    requires Creatable(t, i) && Carries(t, orig, post, sltd)
    ensures Carries(Tracking(t, i.prog, NewFlow(i), i.p, i.cenv).table, orig, post, sltd)
  {
  }

  lemma CarriesOpen(t: Table, i: Input, suppress: bool, orig: Tuple, post: Tuple, sltd: bool)
    requires ValidInput(t, i) && Carries(t, orig, post, sltd)
    requires NewFlow(i).kind == NatRev ==> FiledUnder(t, i) != KeyOf(orig)
    ensures Carries(Open(t, i, suppress).table, orig, post, sltd)
  {
    CarriesTracking(t, i, orig, post, sltd);
    assert NewFlow(i).kind == NatRev ==> FiledUnder(t, i) != KeyOf(post) by {
      assert KeyOf(orig) in t && t[KeyOf(orig)].revKey == KeyOf(post);
    }
  }

  lemma CarriesAct(t: Table, r: Result, i: Input, orig: Tuple, post: Tuple, sltd: bool)
    requires WellLinked(t) && ValidInput(t, i) && Carries(t, orig, post, sltd)
    requires r.rc == RcNew && NewFlow(i).kind == NatRev ==> FiledUnder(t, i) != KeyOf(orig)
    requires i.prog.FromHost() ==> !r.rpfFailed && (r.syn ==> r.rc !in {RcMidFlowMiss, RcInvalid})
    ensures Carries(Act(t, r, i).table, orig, post, sltd) <==> !Smudges(t, i, r, KeyOf(orig))
  {
    if ChecksIngress(i, r) {
      CarriesIngressLimit(t, i, r, orig, post, sltd);
      IngressLimitKeepsValid(t, i, r);
    }
    var path := Dispatch(i, r);
    if path.Opens? && !OverIngress(i, r) && r.rc == RcNew {
      CarriesOpen(AdmitIngress(t, i, r), i, path.suppress, orig, post, sltd);
    }
  }

  lemma SynVerdict(t: Table, prog: Prog, p: Packet, env: Env)
    requires WellLinked(t) && prog.FromHost()
    ensures var r := Lookup(t, prog, p, env).1;
            !r.rpfFailed && (r.syn ==> r.rc !in {RcMidFlowMiss, RcInvalid})
  {
  }

  /** Every step of a run leaves a carried pair carried, whichever program handles whatever packet,
      while both of its entries last and nothing is filed over its forward entry, if and only if no
      rejection smudges that entry. */
  lemma CarriesStep(t: Table, step: Step, orig: Tuple, post: Tuple, sltd: bool)
    requires ValidStep(t, step) && Carries(t, orig, post, sltd)
    requires {KeyOf(orig), KeyOf(post)} <= Looked(t, step).Keys && !Refiles(t, step, KeyOf(orig))
    ensures Carries(Next(t, step), orig, post, sltd) <==>
            !(step.PacketIn? && Smudges(t, step.i, VerdictOf(t, step.i), KeyOf(orig)))
  {
    CarriesLooked(t, step, orig, post, sltd);
    LookedKeeps(t, step);
    if step.PacketIn? {
      var i := step.i;
      if i.prog.FromHost() { SynVerdict(t, i.prog, i.p, i.env); }
      CarriesAct(Looked(t, step), VerdictOf(t, i), i, orig, post, sltd);
    }
  }

  /** What the smudge does: requests leave with another source port than the backend's replies go
      back to. */
  lemma SmudgedRequest(t: Table, orig: Tuple, post: Tuple, prog: Prog, q: Packet, env: Env)
    requires WellLinked(t) && Carries(t, orig, post, Sltd(post)) && orig.proto == post.proto && post.proto != ICMP
    requires WithApprovedBit(t[KeyOf(orig)].natSport) != t[KeyOf(orig)].natSport
    requires prog.ToHost() && q.tuple == orig && !Recycled(q, t[KeyOf(post)])
    ensures var f := t[KeyOf(orig)];
            var t' := t[KeyOf(orig) := f.(natSport := f.natSport + 16)];
            && WellLinked(t') && Lookup(t', prog, q, env).1.rc == RcDnat
            && Translate(orig, Lookup(t', prog, q, env).1) == post.(sport := f.natSport + 16)
  {
    KeyIsDirectionless(post);
    var f, e := t[KeyOf(orig)], t[KeyOf(post)];
    var t' := t[KeyOf(orig) := f.(natSport := f.natSport + 16)];
    assert WellLinked(t');
    assert Classify(t', prog, q, env.linuxEstablished).Found?;
    assert OwnLegApproved(e, Sltd(post), prog);
    assert TupleOf(KeyOf(post), Sltd(post)) == post;
  }

  /** Over a whole run both entries last, through every lookup and every disappearance, nothing is
      filed over the forward one, and no rejection smudges it. */
  ghost predicate Undisturbed(t: Table, steps: seq<Step>, kf: Key, kr: Key)
    requires ValidRun(t, steps)
    decreases |steps|
  {
    steps != [] ==>
      && {kf, kr} <= Looked(t, steps[0]).Keys && !Refiles(t, steps[0], kf)
      && (steps[0].PacketIn? ==> !Smudges(t, steps[0].i, VerdictOf(t, steps[0].i), kf))
      && Undisturbed(Next(t, steps[0]), steps[1..], kf, kr)
  }

  lemma {:induction false} CarriesRun(t: Table, steps: seq<Step>, orig: Tuple, post: Tuple, sltd: bool)
    requires WellLinked(t) && ValidRun(t, steps) && Carries(t, orig, post, sltd)
    requires Undisturbed(t, steps, KeyOf(orig), KeyOf(post))
    ensures WellLinked(After(t, steps)) && Carries(After(t, steps), orig, post, sltd)
    decreases |steps|
  {
    if steps != [] {
      CarriesStep(t, steps[0], orig, post, sltd);
      StepApproves(t, steps[0], KeyOf(orig), true);
      CarriesRun(Next(t, steps[0]), steps[1..], orig, post, sltd);
    }
  }

  // ---------- The round trip ----------

  /** A carried pair whose legs match its key translates in both directions. */
  lemma CarriedBothWays(t: Table, orig: Tuple, post: Tuple, out: Prog, back: Prog,
                        request: Packet, inner: Packet, reply: Packet, env: Env)
    requires WellLinked(t) && Carries(t, orig, post, Sltd(post)) && orig.proto == post.proto && post.proto != ICMP
    requires orig.sport != 0 && post.sport != 0 && !post.SelfPaired()
    requires out.ToHost() && request.tuple == orig
    requires back.FromHost() && inner.tuple == post && reply.tuple == post.Reverse()
    ensures !Recycled(request, t[KeyOf(post)]) ==> Translate(orig, Lookup(t, out, request, env).1) == post
    ensures Translate(post, Lookup(t, back, inner, env).1) == post
    ensures Translate(post.Reverse(), Lookup(t, back, reply, env).1) == orig.Reverse()
  {
    if !Recycled(request, t[KeyOf(post)]) {
      RequestReachesBackend(t, orig, post, Sltd(post), out, request, env);
    }
    RequestNotTurnedBack(t, orig, post, Sltd(post), back, inner, env);
    ReplyReachesClient(t, orig, post, Sltd(post), back, reply, env);
    assert t[KeyOf(post)].Track?;
    assert Lookup(t, back, inner, env).1.rc != RcDnat;
  }

  /** The packet, which no earlier program has seen, sets up a flow to a backend: it is answered
      NEW, policy lets it in, and an entry can be made. */
  ghost predicate SetsUp(t: Table, i: Input)
    requires ValidStep(t, PacketIn(i))
  {
    var r := VerdictOf(t, i);
    && i.prog.ToHost() && !i.p.seen && i.backend.Backend? && i.p.tuple.proto in {TCP, UDP} && Ba !in i.flags
    && r.rc == RcNew && !r.rpfFailed && LetIn(i)
    && !Tracking(Looked(t, PacketIn(i)), i.prog, NewFlow(i), i.p, i.cenv).failed
  }

  /** The tuple that the backend sees. */
  ghost function PostOf(t: Table, i: Input): Tuple
    requires ValidStep(t, PacketIn(i))
  {
    Tracking(Looked(t, PacketIn(i)), i.prog, NewFlow(i), i.p, i.cenv).tuple
  }

  /** Setting up the flow leaves a pair that is carried. */
  lemma SetUpCarries(t: Table, i: Input)
    requires ValidStep(t, PacketIn(i)) && SetsUp(t, i)
    ensures Carries(Next(t, PacketIn(i)), i.p.tuple, PostOf(t, i), Sltd(NewFlow(i).tuple))
    ensures WellLinked(Next(t, PacketIn(i)))
    ensures var p, post := i.p.tuple, PostOf(t, i);
            post == Tuple(p.proto, p.src, post.sport, i.backend.ip, i.backend.port) &&
            post.sport in [p.sport] + i.cenv.ports
  {
    TrackedTuple(Looked(t, PacketIn(i)), i);
    var t', c := Looked(t, PacketIn(i)), NewFlow(i);
    assert Next(t, PacketIn(i)) == Create(t', i.prog, c, i.p, i.cenv, false).table;
    assert FiledUnder(t', i) == KeyOf(c.orig);
    CreateCarries(t', i.prog, c, i.p, i.cenv);
    StepApproves(t, PacketIn(i), KeyOf(c.orig), true);
  }

  lemma LookupAtBackend(t: Table, post: Tuple, sltd: bool, j: Input)
    requires WellLinked(t) && KeyOf(post) in t && t[KeyOf(post)].Track? && t[KeyOf(post)].kind == NatRev
    requires j.prog.ToWep? && j.p.tuple == post && (j.p.Syn() || j.p.tcp.NoTcp?) && post.proto != ICMP &&
            sltd == Sltd(post)
    ensures Looked(t, PacketIn(j)).Keys == t.Keys && !VerdictOf(t, j).rpfFailed
    ensures !OwnLegApproved(t[KeyOf(post)], sltd, j.prog) ==> VerdictOf(t, j).rc == RcNew
  {
    var h := Classify(t, j.prog, j.p, j.env.linuxEstablished);
    assert h.Found? && h.tracking == KeyOf(post) && h.fromA == sltd;
  }

  /** The ordinary next step: the opening packet goes on to the backend's own program, whose
      policy allows it. It disturbs nothing, and then both ends have approved the flow. */
  lemma BackendApproves(t: Table, orig: Tuple, post: Tuple, sltd: bool, j: Input)
    requires ValidStep(t, PacketIn(j)) && Carries(t, orig, post, sltd) && sltd == Sltd(post)
    requires j.prog.ToWep? && j.p.tuple == post && j.p.seen && (j.p.Syn() || j.p.tcp.NoTcp?)
    requires j.policy.PolicyAllow? && !j.ingressLimit && !j.suppress && post.proto != ICMP
    ensures Undisturbed(t, [PacketIn(j)], KeyOf(orig), KeyOf(post))
    ensures Next(t, PacketIn(j))[KeyOf(post)].BothApproved()
  {
    var kr, t' := KeyOf(post), Looked(t, PacketIn(j));
    LookupAtBackend(t, post, sltd, j);
    LookedKeeps(t, PacketIn(j));
    CarriesLooked(t, PacketIn(j), orig, post, sltd);
    assert SameFlow(t[kr], t'[kr]);
    ActAtBackend(t', VerdictOf(t, j), orig, post, sltd, j);
  }

  lemma ActAtBackend(t: Table, r: Result, orig: Tuple, post: Tuple, sltd: bool, j: Input)
    requires Creatable(t, j) && Carries(t, orig, post, sltd) && sltd == Sltd(post)
    requires j.prog.ToWep? && j.p.tuple == post && j.p.seen && j.policy.PolicyAllow? && !j.ingressLimit && !j.suppress
    requires !r.rpfFailed && (OwnLegApproved(t[KeyOf(post)], sltd, j.prog) || r.rc == RcNew)
    ensures KeyOf(post) in Act(t, r, j).table && Act(t, r, j).table[KeyOf(post)].Track?
    ensures Act(t, r, j).table[KeyOf(post)].BothApproved()
  {
    assert NewFlow(j).kind == Normal && NewFlow(j).tuple == post;
  }

  /** Reverse NAT undoes forward NAT. A client's packet sets up a flow to a service's backend, with
      its own source port or with a replacement. Then any packets of any flows go through any of
      the programs, the backend's approval among them. For as long as the two entries last and
      nothing is filed over the forward one: requests go to the backend, the backend's replies
      come back as answers from the service to the client, and a request is not turned back on its
      way in. */
  lemma NatRoundTrip(t: Table, i: Input, steps: seq<Step>, out: Prog, back: Prog,
                     request: Packet, inner: Packet, reply: Packet, env: Env)
    requires ValidStep(t, PacketIn(i)) && SetsUp(t, i)
    requires i.p.tuple.src != i.backend.ip && i.p.tuple.sport != 0 && 0 !in i.cenv.ports
    requires ValidRun(Next(t, PacketIn(i)), steps)
    requires Undisturbed(Next(t, PacketIn(i)), steps, KeyOf(i.p.tuple), KeyOf(PostOf(t, i)))
    requires out.ToHost() && request.tuple == i.p.tuple
    requires back.FromHost() && inner.tuple == PostOf(t, i) && reply.tuple == PostOf(t, i).Reverse()
    ensures var s, post := After(Next(t, PacketIn(i)), steps), PostOf(t, i);
            && WellLinked(s) && KeyOf(post) in s && s[KeyOf(post)].Track?
            && post == Tuple(i.p.tuple.proto, i.p.tuple.src, post.sport, i.backend.ip, i.backend.port)
            && (!Recycled(request, s[KeyOf(post)]) ==> Translate(i.p.tuple, Lookup(s, out, request, env).1) == post)
            && Translate(post, Lookup(s, back, inner, env).1) == post
            && Translate(post.Reverse(), Lookup(s, back, reply, env).1) == i.p.tuple.Reverse()
  {
    var t1, post := Next(t, PacketIn(i)), PostOf(t, i);
    SetUpCarries(t, i);
    CarriesRun(t1, steps, i.p.tuple, post, Sltd(post));
    CarriedBothWays(After(t1, steps), i.p.tuple, post, out, back, request, inner, reply, env);
  }
}
