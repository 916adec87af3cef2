/** Concrete runs on which properties of the connection tracker that one might expect fail
    (felix/bpf-gpl/conntrack.h:104-366 and 839-850). */
module ConntrackExamples {
  import opened ConntrackTypes
  import opened ConntrackLookup
  import opened ConntrackCreate
  import opened ConntrackRuns

  const ENV := Env(100, RpfStrict, false, false)
  const CENV := CreateEnv(100, [3000, 3001, 3002], false)

  const SYN := HasTcp(Tcp(true, false, false, false, 7, 0))
  const ACK := HasTcp(Tcp(false, true, false, false, 8, 1))

  /** A packet that policy allows, with no limits configured. */
  function Allowed(prog: Prog, tuple: Tuple, tcp: TcpHeader, seen: bool, backend: Backend): Input {
    Input(prog, Packet(tuple, tcp, 60, seen, 4), ENV, CENV, PolicyAllow, backend, {}, false, false, false, true)
  }

  // ---------- An approval without a SYN ----------

  const CLIENT := Tuple(TCP, 1, 1000, 2, 80)
  const POST := Tuple(TCP, 1, 1000, 3, 8080)

  /** The client's SYN sets up the pair, the reverse entry is evicted, and the client's next
      packet, which is no SYN, arrives. */
  const DANGLING_RUN := [
    PacketIn(Allowed(FromWep, CLIENT, SYN, false, Backend(3, 8080))),
    Gone({KeyOf(POST)}),
    PacketIn(Allowed(FromWep, CLIENT, ACK, false, Backend(3, 8080)))]

  const FORWARD := Fwd(100, KeyOf(POST), 0)

  lemma SetUp()
    ensures var step := DANGLING_RUN[0];
            && ValidStep(map[], step)
            && Next(map[], step) ==
               map[KeyOf(POST) := NewEntry(FromWep, NewFlow(step.i), step.i.p, 100), KeyOf(CLIENT) := FORWARD]
  {
    var i := DANGLING_RUN[0].i;
    assert Classify(map[], i.prog, i.p, false) == Miss(RcNew);
    assert Looked(map[], DANGLING_RUN[0]) == map[] && VerdictOf(map[], i) == Plain(RcNew);
    assert NewFlow(i) == Flow(POST, CLIENT, NatRev, {}, false);
  }

  lemma SendOn()
    ensures var step, t := DANGLING_RUN[2], map[KeyOf(CLIENT) := FORWARD];
            && ValidStep(t, step) && HitsDangling(t, step.i.p)
            && Next(t, step) ==
               map[KeyOf(POST) := NewEntry(FromWep, NewFlow(step.i), step.i.p, 100), KeyOf(CLIENT) := FORWARD]
  {
    var i, t: Table := DANGLING_RUN[2].i, map[KeyOf(CLIENT) := FORWARD];
    assert Classify(t, i.prog, i.p, false) == Dangling;
    assert Looked(t, DANGLING_RUN[2]) == map[] && VerdictOf(t, i) == Plain(RcNew);
    assert NewFlow(i) == Flow(POST, CLIENT, NatRev, {}, false);
  }

  /** A packet that opens nothing gets its flow approved. */
  lemma ApprovedWithoutSyn()
    ensures ValidRun(map[], DANGLING_RUN) && !DANGLING_RUN[2].i.p.Syn()
    ensures var before, after := TableAt(map[], DANGLING_RUN, 2), After(map[], DANGLING_RUN);
            !IsApproved(before, KeyOf(POST), true) && IsApproved(after, KeyOf(POST), true)
  {
    var s := DANGLING_RUN;
    SetUp();
    var t1 := Next(map[], s[0]);
    var t2: Table := map[KeyOf(CLIENT) := FORWARD];
    assert Next(t1, s[1]) == t2;
    SendOn();
    var t3 := Next(t2, s[2]);
    assert s[1..][0] == s[1] && s[1..][1..] == s[2..] && s[2..][0] == s[2] && s[2..][1..] == [];
    assert ValidRun(t3, []) && ValidRun(t2, s[2..]) && ValidRun(t1, s[1..]);
    assert TableAt(map[], s, 2) == TableAt(t1, s[1..], 1) == TableAt(t2, s[2..], 0) == t2;
    assert After(map[], s) == TableAt(t1, s[1..], 2) == TableAt(t2, s[2..], 1) == TableAt(t3, [], 0) == t3;
  }

  // ---------- A port draw that flips the ends ----------

  const LOOPED := Tuple(TCP, 9, 1000, 9, 2000)

  /** A host endpoint draws port 3000 for a colliding flow from port 1000 to port 2000 of the same
      address: the approval lands on the leg of the other end. */
  lemma ApprovedOnTheWrongLeg(other: Entry)
    ensures var t, i := map[KeyOf(LOOPED) := other], Allowed(FromHep, LOOPED, SYN, false, NoBackend);
            && Creatable(t, i) && Flips(t, i)
            && var made := Tracking(t, i.prog, NewFlow(i), i.p, i.cenv);
               && made.tuple == LOOPED.(sport := 3000)
               && !IsApproved(made.table, KeyOf(made.tuple), OwnSideA(made.tuple, FromHep))
               && IsApproved(made.table, KeyOf(made.tuple), !OwnSideA(made.tuple, FromHep))
  {
    assert FirstFree(map[KeyOf(LOOPED) := other], LOOPED, CENV.ports) == 0;
  }

  // ---------- The branch for packets seen before ----------

  const VIA_OTHER := Tuple(TCP, 1, 1000, 5, 80)
  const DRAWN := Tuple(TCP, 1, 3000, 3, 8080)

  /** The same client and source port reach one backend through two services, first at the backend's
      own program and then at a host endpoint, which draws port 3000. The second flow's reverse entry
      is evicted, and the client's next packet, which is no SYN, arrives as seen before. */
  const SEEN_RUN := [
    PacketIn(Allowed(ToWep, VIA_OTHER, SYN, false, Backend(3, 8080))),
    PacketIn(Allowed(FromHep, CLIENT, SYN, false, Backend(3, 8080))),
    Gone({KeyOf(DRAWN)}),
    PacketIn(Allowed(FromHep, CLIENT, ACK, true, Backend(3, 8080)))]

  const AT_BACKEND := NewEntry(ToWep, NewFlow(SEEN_RUN[0].i), SEEN_RUN[0].i.p, 100)

  /** The tables of the run. */
  const ONE: Table := map[KeyOf(POST) := AT_BACKEND, KeyOf(VIA_OTHER) := Fwd(100, KeyOf(POST), 0)]
  const THREE: Table := ONE[KeyOf(CLIENT) := Fwd(100, KeyOf(DRAWN), 3000)]

  lemma FirstService()
    ensures ValidStep(map[], SEEN_RUN[0]) && Next(map[], SEEN_RUN[0]) == ONE
    ensures AT_BACKEND.Track? && Approved !in AT_BACKEND.ab.flags && AT_BACKEND.kind == NatRev
  {
    var i := SEEN_RUN[0].i;
    assert Classify(map[], i.prog, i.p, false) == Miss(RcNew);
    assert Looked(map[], SEEN_RUN[0]) == map[] && VerdictOf(map[], i) == Plain(RcNew);
    assert NewFlow(i) == Flow(POST, VIA_OTHER, NatRev, {}, false);
  }

  lemma SecondService()
    ensures ValidStep(ONE, SEEN_RUN[1])
    ensures var t := Next(ONE, SEEN_RUN[1]); t.Keys == THREE.Keys + {KeyOf(DRAWN)} && t - {KeyOf(DRAWN)} == THREE
  {
    var i := SEEN_RUN[1].i;
    assert Classify(ONE, i.prog, i.p, false) == Miss(RcNew);
    assert Looked(ONE, SEEN_RUN[1]) == ONE && VerdictOf(ONE, i) == Plain(RcNew);
    assert NewFlow(i) == Flow(POST, CLIENT, NatRev, {}, false);
    assert FirstFree(ONE, POST, CENV.ports) == 0 && WithPort(POST, CENV.ports[0]) == DRAWN;
    assert Tracking(ONE, i.prog, NewFlow(i), i.p, i.cenv).tuple == DRAWN;
  }

  lemma SeenAck()
    ensures ValidStep(THREE, SEEN_RUN[3]) && Reapproves(Looked(THREE, SEEN_RUN[3]), SEEN_RUN[3].i)
    ensures !IsApproved(THREE, KeyOf(POST), true) && IsApproved(Next(THREE, SEEN_RUN[3]), KeyOf(POST), true)
  {
    FirstService();
    var i := SEEN_RUN[3].i;
    assert Classify(THREE, i.prog, i.p, false) == Dangling;
    assert Looked(THREE, SEEN_RUN[3]) == ONE && VerdictOf(THREE, i) == Plain(RcNew);
    assert NewFlow(i) == Flow(POST, CLIENT, NatRev, {}, false);
  }

  /** Towards the host a packet that is no SYN also reaches the branch that approves an earlier
      program's entry, and approves it. */
  lemma ReapprovedWithoutSyn()
    ensures ValidRun(map[], SEEN_RUN) && !SEEN_RUN[3].i.p.Syn()
    ensures var before, after := TableAt(map[], SEEN_RUN, 3), After(map[], SEEN_RUN);
            && WellLinked(before) && Reapproves(Looked(before, SEEN_RUN[3]), SEEN_RUN[3].i)
            && !IsApproved(before, KeyOf(POST), true) && IsApproved(after, KeyOf(POST), true)
  {
    var s := SEEN_RUN;
    FirstService();
    SecondService();
    var t2 := Next(ONE, s[1]);
    StepApproves(ONE, s[1], KeyOf(POST), true);
    assert Next(t2, s[2]) == THREE;
    SeenAck();
    var t4 := Next(THREE, s[3]);
    assert s[1..][1..] == s[2..] && s[2..][1..] == s[3..] && s[3..][1..] == [];
    assert ValidRun(t4, []) && ValidRun(THREE, s[3..]) && ValidRun(t2, s[2..]) && ValidRun(ONE, s[1..]);
    assert TableAt(map[], s, 3) == TableAt(ONE, s[1..], 2) == TableAt(t2, s[2..], 1) ==
        TableAt(THREE, s[3..], 0) == THREE;
    assert After(map[], s) == TableAt(ONE, s[1..], 3) == TableAt(t2, s[2..], 2) == TableAt(THREE, s[3..], 1) ==
           TableAt(t4, [], 0) == t4;
  }

  // ---------- A forward entry over a reverse one ----------

  const SECOND := Allowed(ToHep, POST, SYN, false, Backend(4, 9090))

  lemma HitsReverse(t: Table)
    requires t == map[KeyOf(POST) := NewEntry(FromWep, NewFlow(DANGLING_RUN[0].i), DANGLING_RUN[0].i.p, 100),
                      KeyOf(CLIENT) := FORWARD]
    ensures WellLinked(t) && VerdictOf(t, SECOND).rc == RcNew && !VerdictOf(t, SECOND).rpfFailed
    ensures var t' := Looked(t, PacketIn(SECOND)); WellLinked(t') && t'.Keys == t.Keys && t'[KeyOf(CLIENT)] == FORWARD
  {
    var h := Classify(t, ToHep, SECOND.p, false);
    assert h.Found? && h.tracking == KeyOf(POST);
    LookedKeeps(t, PacketIn(SECOND));
  }

  /** A frontend that is also the backend of another flow: filing the forward entry of the second flow
      replaces the reverse entry of the first, whose forward entry then names a forward entry. */
  lemma ForwardOverReverse(t: Table)
    requires t == Next(map[], DANGLING_RUN[0])
    ensures WellLinked(t) && VerdictOf(t, SECOND).rc == RcNew
    ensures var t' := Looked(t, PacketIn(SECOND));
            && Creatable(t', SECOND) && !Flips(t', SECOND) && !FwdKeyFree(t', SECOND)
            && !WellLinked(Act(t', VerdictOf(t, SECOND), SECOND).table)
  {
    SetUp();
    HitsReverse(t);
    var t' := Looked(t, PacketIn(SECOND));
    assert NewFlow(SECOND) == Flow(POST.(dst := 4, dport := 9090), POST, NatRev, {}, false);
    assert KeyOf(NewFlow(SECOND).tuple) !in t';
    assert FiledUnder(t', SECOND) == KeyOf(POST) == t'[KeyOf(CLIENT)].revKey;
    LinkedExactly(t', SECOND);
  }
}
