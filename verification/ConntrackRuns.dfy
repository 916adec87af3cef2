/** One packet through a TC program, from lookup to verdict, and whole runs of packets through
    the four kinds of program that share the conntrack map
    (felix/bpf-gpl/tc.c:364-863, 1397-1549, 1568-1793 and 1795-2014). */
module ConntrackRuns {
  import opened ConntrackTypes
  import opened ConntrackLookup
  import opened ConntrackCreate

  /** The policy program's verdict, or the decision not to run it (host to workload traffic,
      fail-safe ports, a host endpoint without policy). */
  datatype Policy = PolicyAllow | PolicyDeny | PolicySkip

  datatype Backend = NoBackend | Backend(ip: Addr, port: Port)

  /** One packet at one program together with every decision taken outside the map. */
  datatype Input = Input(prog: Prog, p: Packet, env: Env, cenv: CreateEnv, policy: Policy, backend: Backend,
                         flags: set<EntryFlag>, suppress: bool,
                         ingressLimit: bool, egressLimit: bool, underLimit: bool)

  datatype Fate = Forwarded(tuple: Tuple) | FellThrough | Dropped

  /** The backend that the NAT lookup finds; away from the host it is not made for a packet that
      an earlier program has seen. */
  function Dest(i: Input): Backend {
    if i.prog.ToHost() || !i.p.seen then i.backend else NoBackend
  }

  /** The flow that a packet opens if it is new: with a backend, to that backend. */
  function NewFlow(i: Input): Flow {
    var flags := i.flags + (if i.prog.FromWep? && i.p.tcp.HasTcp? && i.egressLimit then {ConnEgress} else {});
    match Dest(i)
    case NoBackend => Flow(i.p.tuple, NO_TUPLE, Normal, flags, false)
    case Backend(ip, port) => Flow(i.p.tuple.(dst := ip, dport := port), i.p.tuple, NatRev, flags, false)
  }

  /** How the dispatch after the lookup treats the packet. Opens is the NEW path with policy in
      its favour; Passes is a hit that needs no new entry. */
  datatype Path = Opens(suppress: bool) | Passes | Ends(fate: Fate)

  predicate PolicyRuns(r: Result) {
    r.rc == RcNew || r.syn
  }

  function Dispatch(i: Input, r: Result): Path {
    if r.rpfFailed then Ends(Dropped)
    else if r.rc == RcMidFlowMiss then
      if i.prog.ToHost() then Ends(FellThrough)
      else if i.prog.ToHep? && i.policy.PolicySkip? then Opens(true)
      else Ends(Dropped)
    else if PolicyRuns(r) && i.policy.PolicyDeny? then Ends(Dropped)
    else if r.rc == RcNew then
      if i.prog.Hep() && i.suppress && !i.policy.PolicySkip? then Ends(Dropped) else Opens(i.suppress)
    else if r.rc == RcInvalid then
      if i.prog.FromHep? then Ends(FellThrough) else Ends(Dropped)
    else Passes
  }

  /** do_nat on a hit: the tuple the packet leaves with. */
  function Translate(t: Tuple, r: Result): Tuple {
    match r.rc
    case RcDnat => Tuple(t.proto, r.xlate.sip, if r.xlate.sport != 0 then r.xlate.sport else t.sport,
                         r.xlate.ip, r.xlate.port)
    case RcSnat => Tuple(t.proto, r.xlate.ip, r.xlate.port, r.xlate.sip,
                         if r.xlate.sport != 0 then r.xlate.sport else t.dport)
    case _ => t
  }

  // ---------- The ingress connection limit ----------

  /** The limit is checked for a SYN that hit an entry not yet counted. */
  predicate ChecksIngress(i: Input, r: Result) {
    && i.prog.ToWep? && i.policy.PolicyAllow? && i.ingressLimit && r.syn && ConnIngress !in r.flags
  }

  /** The approval bit of the A-to-B leg lies over the source port of a forward entry
      (felix/bpf-gpl/conntrack_types.h:72-143, little-endian). */
  function WithApprovedBit(port: Port): (r: Port)
    ensures r == port <==> port / 16 % 2 == 1
  {
    if port / 16 % 2 == 1 then port else port + 16
  }

  /** Over the limit the entry is marked rejected and its own leg approved, so that the reset
      can leave; under it the entry is marked counted. The code does not look at the type: in a
      forward entry, whose flags mean nothing, the bit that would approve lands elsewhere. */
  function AfterIngressLimit(t: Table, i: Input, r: Result): Table {
    var k := KeyOf(i.p.tuple);
    if k !in t then t
    else if t[k].Fwd? then
      if i.underLimit || Sltd(i.p.tuple) then t else t[k := t[k].(natSport := WithApprovedBit(t[k].natSport))]
    else if i.underLimit then
      t[k := t[k].(flags := t[k].flags - (if ConnIngressRejected in r.flags then {ConnIngressRejected} else {})
                            + {ConnIngress})]
    else
      var e := t[k].(flags := t[k].flags + {ConnIngressRejected});
      var fromA := Sltd(i.p.tuple);
      t[k := e.WithLegs(fromA, e.LegFrom(fromA), e.LegFrom(!fromA).Set({Approved}))]
  }

  // ---------- One packet ----------

  datatype Handled = Handled(table: Table, fate: Fate)

  predicate OverIngress(i: Input, r: Result) {
    ChecksIngress(i, r) && !i.underLimit
  }

  predicate OverEgress(i: Input) {
    i.prog.FromWep? && i.p.tcp.HasTcp? && i.egressLimit && !i.underLimit
  }

  function AdmitIngress(t: Table, i: Input, r: Result): Table {
    if ChecksIngress(i, r) then AfterIngressLimit(t, i, r) else t
  }

  /** Creating the entry or the pair of entries. */
  function Open(t: Table, i: Input, suppress: bool): Handled
    requires Creatable(t, i)
  {
    var made := Create(t, i.prog, NewFlow(i), i.p, i.cenv, suppress);
    Handled(made.table, if made.failed then Dropped else Forwarded(made.tuple))
  }

  /** The whole program on a packet whose lookup gave table t and result r. */
  function Act(t: Table, r: Result, i: Input): Handled
    requires Creatable(t, i)
  {
    match Dispatch(i, r)
    case Ends(fate) => Handled(t, fate)
    case Passes =>
      if OverIngress(i, r) then Handled(AfterIngressLimit(t, i, r), Dropped)
      else Handled(AdmitIngress(t, i, r), Forwarded(Translate(i.p.tuple, r)))
    case Opens(suppress) =>
      if OverIngress(i, r) then Handled(AfterIngressLimit(t, i, r), Dropped)
      else if OverEgress(i) && !suppress then Handled(t, Dropped)
      else Open(AdmitIngress(t, i, r), i, suppress)
  }

  /** The key of the flow that a packet seen before would open is not a forward entry's. */
  ghost predicate Creatable(t: Table, i: Input) {
    var k := KeyOf(NewFlow(i).tuple);
    i.p.seen && k in t ==> t[k].Track?
  }

  /** A host endpoint replaces the source port of a colliding flow between equal addresses by
      one that is on the other side of the destination port. */
  predicate Flips(t: Table, i: Input) {
    var c, ports := NewFlow(i).tuple, i.cenv.ports;
    var f := FirstFree(t, c, ports);
    && i.prog.Hep() && !i.p.seen && KeyOf(c) in t && c.src == c.dst
    && f < |ports| && (ports[f] < c.dport) != (c.sport < c.dport)
  }

  /** The tuple a NATted client uses is not the one its backend sees, nor one that the backend of
      another flow sees. */
  ghost predicate FwdKeyFree(t: Table, i: Input)
    requires Creatable(t, i)
  {
    var c := NewFlow(i);
    var k := FiledUnder(t, i);
    c.kind == NatRev ==>
      k != KeyOf(Tracking(t, i.prog, c, i.p, i.cenv).tuple) && forall f :: f in t && t[f].Fwd? ==> t[f].revKey != k
  }

  /** The key of the forward entry that a NATted flow would get. */
  function FiledUnder(t: Table, i: Input): Key
    requires Creatable(t, i)
  {
    var c := NewFlow(i);
    KeyOf(FwdTuple(i.prog, c, Tracking(t, i.prog, c, i.p, i.cenv).tuple.sport, i.p.seen))
  }

  /** t is the table the lookup left. */
  ghost predicate ValidInput(t: Table, i: Input) {
    Creatable(t, i) && !Flips(t, i) && FwdKeyFree(t, i)
  }

  // ---------- Runs ----------

  /** A packet, or entries disappearing: aged out by the cleanup program or evicted. */
  datatype Step = PacketIn(i: Input) | Gone(keys: set<Key>)

  /** The table after the lookup of a step, before the program acts on it. */
  ghost function Looked(t: Table, step: Step): Table
    requires WellLinked(t)
  {
    match step
    case Gone(keys) => t - keys
    case PacketIn(i) => Lookup(t, i.prog, i.p, i.env).0
  }

  ghost function VerdictOf(t: Table, i: Input): Result
    requires WellLinked(t)
  {
    Lookup(t, i.prog, i.p, i.env).1
  }

  ghost predicate ValidStep(t: Table, step: Step) {
    WellLinked(t) && (step.PacketIn? ==> ValidInput(Looked(t, step), step.i))
  }

  ghost function Next(t: Table, step: Step): Table
    requires ValidStep(t, step)
  {
    match step
    case Gone(_) => Looked(t, step)
    case PacketIn(i) => Act(Looked(t, step), VerdictOf(t, i), i).table
  }

  /** A NATted flow answered NEW is filed under this key. */
  ghost predicate Refiles(t: Table, step: Step, k: Key)
    requires ValidStep(t, step)
  {
    step.PacketIn? && VerdictOf(t, step.i).rc == RcNew && NewFlow(step.i).kind == NatRev &&
    FiledUnder(Looked(t, step), step.i) == k
  }

  ghost predicate ValidRun(t: Table, steps: seq<Step>)
    decreases |steps|
  {
    steps != [] ==> ValidStep(t, steps[0]) && ValidRun(Next(t, steps[0]), steps[1..])
  }

  /** The table before step n of a run; after the run, for n == |steps|. */
  ghost function TableAt(t: Table, steps: seq<Step>, n: nat): Table
    requires ValidRun(t, steps) && n <= |steps|
    decreases n
  {
    if n == 0 then t else TableAt(Next(t, steps[0]), steps[1..], n - 1)
  }

  ghost function After(t: Table, steps: seq<Step>): Table
    requires ValidRun(t, steps)
  {
    TableAt(t, steps, |steps|)
  }

  // ---------- Which packets a leg's own endpoint has accepted ----------

  /** Which side of the flow's key is this program's own endpoint: the sender towards the
      host, the receiver away from it. */
  predicate OwnSideA(tuple: Tuple, prog: Prog) {
    if prog.ToHost() then Sltd(tuple) else !Sltd(tuple)
  }

  /** The packet belongs to the flow with key k, as it arrived, or translated to its backend and
      with its source port or a replacement; and this side of the flow is the end that the program
      guards, or the host as the sender of a NATted flow that first shows up leaving it. */
  ghost predicate IsEndOf(i: Input, k: Key, sideA: bool) {
    exists tuple: Tuple ::
      && KeyOf(tuple) == k
      && (tuple == i.p.tuple || exists sport: Port :: sport in [i.p.tuple.sport] + i.cenv.ports &&
                                                      tuple == WithPort(NewFlow(i).tuple, sport))
      && (sideA == OwnSideA(tuple, i.prog) || (i.prog.ToHep? && !i.p.seen && i.backend.Backend? &&
          sideA == Sltd(tuple)))
  }

  /** At this step, on table t, policy was asked or skipped for a packet of the flow at that end of
      it, and did not deny it. */
  ghost predicate Accepted(t: Table, step: Step, k: Key, sideA: bool)
    requires WellLinked(t)
  {
    && step.PacketIn? && step.i.policy != PolicyDeny
    && PolicyRuns(VerdictOf(t, step.i)) && !VerdictOf(t, step.i).rpfFailed
    && IsEndOf(step.i, k, sideA)
  }

  ghost predicate IsApproved(t: Table, k: Key, sideA: bool) {
    k in t && t[k].Track? && Approved in t[k].LegFrom(sideA).flags
  }

  lemma LookedKeeps(t: Table, step: Step)
    requires WellLinked(t)
    ensures FlowsKept(t, Looked(t, step)) && WellLinked(Looked(t, step))
    ensures forall k, sideA :: IsApproved(Looked(t, step), k, sideA) ==> IsApproved(t, k, sideA)
  {
    var t' := Looked(t, step);
    if step.PacketIn? { LookupKeepsFlows(t, step.i.prog, step.i.p, step.i.env); }
    KeptIsWellLinked(t, t');
    forall k, sideA | IsApproved(t', k, sideA) ensures IsApproved(t, k, sideA) {
      assert SameFlow(t[k], t'[k]);
    }
  }

  /** The order of the two ends changes exactly if the replacement port makes it so. */
  lemma FlipsExactly(t: Table, i: Input)
    requires Creatable(t, i)
    ensures Sltd(Tracking(t, i.prog, NewFlow(i), i.p, i.cenv).tuple) != Sltd(NewFlow(i).tuple) <==> Flips(t, i)
  {
  }

  lemma TrackedTuple(t: Table, i: Input)
    requires Creatable(t, i)
    ensures var tuple := Tracking(t, i.prog, NewFlow(i), i.p, i.cenv).tuple;
            tuple.sport in [i.p.tuple.sport] + i.cenv.ports && tuple == WithPort(NewFlow(i).tuple, tuple.sport)
  {
    var tuple := NewFlow(i).tuple;
    var f := FirstFree(t, tuple, i.cenv.ports);
    assert WithPort(tuple, tuple.sport) == tuple;
    assert tuple.sport in [i.p.tuple.sport];
    assert f < |i.cenv.ports| ==> i.cenv.ports[f] in i.cenv.ports;
  }

  /** The approvals of a new or re-approved entry are of ends that the packet belongs to. */
  lemma TrackingApproves(t: Table, i: Input, k: Key, sideA: bool)
    requires Creatable(t, i) && !Flips(t, i)
    requires IsApproved(Tracking(t, i.prog, NewFlow(i), i.p, i.cenv).table, k, sideA) && !IsApproved(t, k, sideA)
    ensures IsEndOf(i, k, sideA)
  {
    FlipsExactly(t, i);
    TrackedTuple(t, i);
    var tuple := Tracking(t, i.prog, NewFlow(i), i.p, i.cenv).tuple;
    assert KeyOf(tuple) == k;
  }

  lemma IngressLimitApproves(t: Table, i: Input, r: Result, k: Key, sideA: bool)
    requires i.prog.ToWep? && IsApproved(AfterIngressLimit(t, i, r), k, sideA) && !IsApproved(t, k, sideA)
    ensures IsEndOf(i, k, sideA) && !i.underLimit
  {
    assert k == KeyOf(i.p.tuple) && sideA == OwnSideA(i.p.tuple, i.prog);
  }

  /** Marking an entry as counted or rejected leaves every key as free or taken as it was. */
  lemma IngressLimitKeepsValid(t: Table, i: Input, r: Result)
    requires WellLinked(t) && ValidInput(t, i) && ChecksIngress(i, r)
    ensures WellLinked(AfterIngressLimit(t, i, r)) && ValidInput(AfterIngressLimit(t, i, r), i)
    ensures Tracking(AfterIngressLimit(t, i, r), i.prog, NewFlow(i), i.p, i.cenv).tuple ==
            Tracking(t, i.prog, NewFlow(i), i.p, i.cenv).tuple
  {
  }

  /** A program's own work after the lookup adds approvals only of ends that the packet belongs
      to, and only if the packet was put to policy and not denied. */
  lemma ActApproves(t: Table, r: Result, i: Input, k: Key, sideA: bool)
    requires WellLinked(t) && ValidInput(t, i)
    requires IsApproved(Act(t, r, i).table, k, sideA) && !IsApproved(t, k, sideA)
    ensures i.policy != PolicyDeny && PolicyRuns(r) && !r.rpfFailed && IsEndOf(i, k, sideA)
  {
    if ChecksIngress(i, r) {
      IngressLimitKeepsValid(t, i, r);
      if IsApproved(AfterIngressLimit(t, i, r), k, sideA) { IngressLimitApproves(t, i, r, k, sideA); }
    }
    if Dispatch(i, r).Opens? && !Dispatch(i, r).suppress && !OverIngress(i, r) && !OverEgress(i) {
      var t1 := AdmitIngress(t, i, r);
      if !IsApproved(t1, k, sideA) {
        assert IsApproved(Tracking(t1, i.prog, NewFlow(i), i.p, i.cenv).table, k, sideA);
        TrackingApproves(t1, i, k, sideA);
      }
    }
  }

  lemma ActLinked(t: Table, r: Result, i: Input)
    requires WellLinked(t) && ValidInput(t, i)
    ensures WellLinked(Act(t, r, i).table)
  {
    if ChecksIngress(i, r) { IngressLimitKeepsValid(t, i, r); }
    if Dispatch(i, r).Opens? && !OverIngress(i, r) { OpenLinked(AdmitIngress(t, i, r), i, Dispatch(i, r).suppress); }
  }

  /** Filing a forward entry over whatever is there leaves forward entries naming tracking entries
      if and only if its key is neither that of the flow's own tracking entry nor one that a forward
      entry names. */
  lemma LinkedExactly(t: Table, i: Input)
    requires WellLinked(t) && Creatable(t, i) && NewFlow(i).kind == NatRev
    requires !Tracking(t, i.prog, NewFlow(i), i.p, i.cenv).failed
    ensures WellLinked(Open(t, i, false).table) <==> FwdKeyFree(t, i)
  {
    var made, done := Tracking(t, i.prog, NewFlow(i), i.p, i.cenv), Open(t, i, false).table;
    var k := FiledUnder(t, i);
    assert done == made.table[k := FwdEntry(NewFlow(i), made.tuple, i.cenv.now)];
    if k == KeyOf(made.tuple) {
      assert done[k].Fwd? && done[k].revKey == k;
    } else if f :| f in t && t[f].Fwd? && t[f].revKey == k {
      assert f != k ==> done[f] == t[f];
    }
  }

  lemma OpenLinked(t: Table, i: Input, suppress: bool)
    requires WellLinked(t) && ValidInput(t, i)
    ensures WellLinked(Open(t, i, suppress).table)
  {
    var made := Tracking(t, i.prog, NewFlow(i), i.p, i.cenv);
    assert WellLinked(made.table);
  }

  /** One step approves a leg only if the leg's own end accepted the packet at that step. */
  lemma StepApproves(t: Table, step: Step, k: Key, sideA: bool)
    requires ValidStep(t, step)
    ensures WellLinked(Next(t, step))
    ensures IsApproved(Next(t, step), k, sideA) ==> IsApproved(t, k, sideA) || Accepted(t, step, k, sideA)
  {
    LookedKeeps(t, step);
    if step.PacketIn? {
      var t', r, i := Looked(t, step), VerdictOf(t, step.i), step.i;
      ActLinked(t', r, i);
      if IsApproved(Act(t', r, i).table, k, sideA) && !IsApproved(t', k, sideA) { ActApproves(t', r, i, k, sideA); }
    }
  }

  /** The last step at which an approved leg's own end accepted the flow; -1 if the leg was
      approved all along. */
  lemma {:induction false} ApprovedSince(t: Table, steps: seq<Step>, k: Key, sideA: bool) returns (n: int)
    requires ValidRun(t, steps) && IsApproved(After(t, steps), k, sideA)
    ensures -1 <= n < |steps|
    ensures n == -1 ==> IsApproved(t, k, sideA)
    ensures n >= 0 ==> WellLinked(TableAt(t, steps, n)) && Accepted(TableAt(t, steps, n), steps[n], k, sideA)
    ensures forall m: nat :: n < m <= |steps| ==> IsApproved(TableAt(t, steps, m), k, sideA)
    decreases |steps|
  {
    if steps == [] { return -1; }
    var t1, rest := Next(t, steps[0]), steps[1..];
    var n1 := ApprovedSince(t1, rest, k, sideA);
    if n1 >= 0 {
      n := n1 + 1;
    } else {
      StepApproves(t, steps[0], k, sideA);
      n := if IsApproved(t, k, sideA) then -1 else 0;
    }
    forall m: nat | n < m <= |steps| ensures IsApproved(TableAt(t, steps, m), k, sideA) {
      if m > 0 { assert TableAt(t, steps, m) == TableAt(t1, rest, m - 1); }
    }
  }

  /** Over every run of packets through any of the programs, from an empty map and with entries
      aging out at any time: a leg is approved only if at some step of the run the end it leaves
      from accepted a packet of the flow, or skipped its policy, and the leg has been in the map
      and approved ever since. */
  lemma ApprovedOnlyIfAccepted(steps: seq<Step>, k: Key, sideA: bool) returns (n: nat)
    requires ValidRun(map[], steps) && IsApproved(After(map[], steps), k, sideA)
    ensures n < |steps| && WellLinked(TableAt(map[], steps, n)) &&
            Accepted(TableAt(map[], steps, n), steps[n], k, sideA)
    ensures forall m: nat :: n < m <= |steps| ==> IsApproved(TableAt(map[], steps, m), k, sideA)
  {
    n := ApprovedSince(map[], steps, k, sideA);
  }

  /** That the order is kept is needed: the approval of a new entry is on the leg of the end that
      accepted the flow, and on no other, if and only if no replacement port flips the ends. */
  lemma OwnLegApprovedExactly(t: Table, i: Input)
    requires Creatable(t, i) && !i.p.seen && !(i.prog.ToHep? && i.backend.Backend?)
    requires !Tracking(t, i.prog, NewFlow(i), i.p, i.cenv).failed
    ensures var made := Tracking(t, i.prog, NewFlow(i), i.p, i.cenv);
            (forall sideA :: IsApproved(made.table, KeyOf(made.tuple), sideA) <==>
                sideA == OwnSideA(made.tuple, i.prog))
            <==> !Flips(t, i)
  {
    FlipsExactly(t, i);
    var c := NewFlow(i);
    var made := Tracking(t, i.prog, c, i.p, i.cenv);
    var k := KeyOf(made.tuple);
    assert IsApproved(made.table, k, OwnSideA(c.tuple, i.prog)) &&
        !IsApproved(made.table, k, !OwnSideA(c.tuple, i.prog));
  }

  // ---------- Packets that do not open a connection ----------

  ghost predicate HitsDangling(t: Table, p: Packet) {
    var k := KeyOf(p.tuple);
    k in t && t[k].Fwd? && t[k].revKey !in t
  }

  /** Without a SYN and without a NEW verdict the program touches the table no further. */
  lemma ActLeavesTable(t: Table, r: Result, i: Input)
    requires Creatable(t, i) && !r.syn && r.rc != RcNew
    ensures Act(t, r, i).table == t
  {
  }

  lemma LookupReportsSyn(t: Table, prog: Prog, p: Packet, env: Env)
    requires WellLinked(t) && !p.Syn()
    ensures !Lookup(t, prog, p, env).1.syn
  {
  }

  /** A TCP packet other than an initial SYN leaves the set of approvals as it was, or smaller,
      unless it hits a forward entry whose reverse entry is gone. */
  lemma MidFlowAddsNoApproval(t: Table, i: Input)
    requires ValidStep(t, PacketIn(i)) && i.p.tcp.HasTcp? && !i.p.Syn()
    requires !HitsDangling(t, i.p)
    ensures forall k, sideA :: IsApproved(Next(t, PacketIn(i)), k, sideA) ==> IsApproved(t, k, sideA)
  {
    LookedKeeps(t, PacketIn(i));
    MidFlowIsNewOnlyIfDangling(t, i.prog, i.p, i.env);
    LookupReportsSyn(t, i.prog, i.p, i.env);
    ActLeavesTable(Looked(t, PacketIn(i)), VerdictOf(t, i), i);
  }

  /** Policy lets a NEW packet go on to make an entry. */
  predicate LetIn(i: Input) {
    i.policy != PolicyDeny && !i.suppress && !OverEgress(i)
  }

  /** An earlier program's entry is approved again. */
  predicate Reapproves(t: Table, i: Input) {
    i.p.seen && KeyOf(NewFlow(i).tuple) in t
  }

  /** The flow gets a new entry: its own key is free, or that of a replacement port at a host
      endpoint. */
  predicate MakesEntry(t: Table, i: Input) {
    var c := NewFlow(i).tuple;
    !Reapproves(t, i) && !(i.p.seen && i.cenv.allowSource) &&
    (KeyOf(c) !in t || (i.prog.Hep() && FirstFree(t, c, i.cenv.ports) < |i.cenv.ports|))
  }

  /** What a let-in NEW packet does to the approvals. */
  lemma OpenApprovesExactly(t: Table, i: Input)
    requires WellLinked(t) && ValidInput(t, i)
    ensures (exists k, sideA :: IsApproved(Open(t, i, false).table, k, sideA) && !IsApproved(t, k, sideA)) <==>
            MakesEntry(t, i) ||
            (Reapproves(t, i) && !IsApproved(t, KeyOf(NewFlow(i).tuple), OwnSideA(NewFlow(i).tuple, i.prog)))
  {
    var c := NewFlow(i);
    var made, done := Tracking(t, i.prog, c, i.p, i.cenv), Open(t, i, false).table;
    var k := KeyOf(made.tuple);
    FlipsExactly(t, i);
    if MakesEntry(t, i) {
      assert IsApproved(done, k, OwnSideA(made.tuple, i.prog)) && !IsApproved(t, k, OwnSideA(made.tuple, i.prog));
    } else if Reapproves(t, i) {
      var own := OwnSideA(c.tuple, i.prog);
      assert IsApproved(done, k, own);
      assert forall x, sideA :: IsApproved(done, x, sideA) && (x != k || sideA != own) ==> IsApproved(t, x, sideA);
    } else {
      assert forall x, sideA :: IsApproved(done, x, sideA) ==> IsApproved(t, x, sideA);
    }
  }

  /** The exact condition for every TCP packet that opens nothing, with or without a backend and
      whoever has seen it: it adds an approval if and only if its hit is dangling, policy lets it
      in, and it gets a new entry or approves one that its endpoint had not. */
  lemma MidFlowApprovalExactly(t: Table, i: Input)
    requires ValidStep(t, PacketIn(i)) && i.p.tcp.HasTcp? && !i.p.Syn()
    ensures var left := t - {KeyOf(i.p.tuple)};
            (exists k, sideA :: IsApproved(Next(t, PacketIn(i)), k, sideA) && !IsApproved(t, k, sideA)) <==>
            HitsDangling(t, i.p) && LetIn(i) &&
            (MakesEntry(left, i) ||
             (Reapproves(left, i) && !IsApproved(left, KeyOf(NewFlow(i).tuple), OwnSideA(NewFlow(i).tuple, i.prog))))
  {
    if HitsDangling(t, i.p) {
      var left := t - {KeyOf(i.p.tuple)};
      assert Looked(t, PacketIn(i)) == left && VerdictOf(t, i) == Plain(RcNew);
      LookedKeeps(t, PacketIn(i));
      assert forall k, sideA :: IsApproved(left, k, sideA) <==> IsApproved(t, k, sideA);
      assert Next(t, PacketIn(i)) == if LetIn(i) then Open(left, i, false).table else left;
      if LetIn(i) { OpenApprovesExactly(left, i); }
    } else {
      MidFlowAddsNoApproval(t, i);
    }
  }

  /** The branch that approves an earlier program's entry is reached by such a packet only towards
      the host, for a backend whose entry exists. */
  lemma MidFlowReapprovesExactly(t: Table, i: Input)
    requires ValidStep(t, PacketIn(i)) && i.p.tcp.HasTcp? && !i.p.Syn() && HitsDangling(t, i.p)
    ensures Reapproves(Looked(t, PacketIn(i)), i) <==>
            && i.p.seen && i.prog.ToHost() && i.backend.Backend?
            && KeyOf(i.p.tuple.(dst := i.backend.ip, dport := i.backend.port)) in t - {KeyOf(i.p.tuple)}
  {
  }
}
