/** Connection limits under interference: CPUs admit connections and give their slots back
    when they close, are recycled or are purged (felix/bpf-gpl/conntrack.h:637-687,
    felix/bpf-gpl/qos.h:195-269, felix/bpf-gpl/tc.c:1446-1517 and 1579-1613).

    Looking at an entry, checking the limit, stamping the entry, claiming the release and each
    decrement are separate atomic steps of any number of CPUs. The release of a claim two minutes
    after a reset is not a step here. */
module ConnLimit {

  type Id = nat
  type Cpu = nat
  datatype Dir = Ingress | Egress

  datatype Slot = Slot(ifindex: nat, dir: Dir)

  /** A tracked connection: its flag bits and the counter of each direction, which is that of
      the interface recorded on the responder's or the opener's leg. */
  datatype Conn = Conn(counted: set<Dir>, rejected: bool, claimed: bool, ingressIf: nat, egressIf: nat) {
    function SlotOf(d: Dir): Slot {
      Slot(if d.Ingress? then ingressIf else egressIf, d)
    }
  }

  /** One success of the limit check, told apart from all others by its ticket. */
  datatype Admission = Admission(ticket: nat, id: Id, slot: Slot)

  datatype Pc =
    | Idle
      // A new connection from a workload that has passed the egress check, before its entry exists.
    | Opening(id: Id, ingressIf: nat, egressIf: nat, a: Admission)
      // A SYN at a limited workload: looked up, and then over or under the limit.
    | Looked(id: Id, wasRejected: bool)
    | Stamping(id: Id, wasRejected: bool, a: Admission)
    | Rejecting(id: Id)
      // Inside qos_connlimit_decrement_for_ct.
    | Loaded(id: Id, counted: set<Dir>, rejected: bool)
    | Releasing(id: Id, todo: set<Dir>)

  datatype Use = Use(id: Id, dir: Dir)

  /** limits and counts are the shared map. The rest is history: all admissions, those given back,
      the one that each counted flag stands for, and the next ticket. */
  datatype State = State(conns: map<Id, Conn>, cpus: map<Cpu, Pc>, limits: map<Slot, nat>, counts: map<Slot, nat>,
                         admitted: set<Admission>, released: set<Admission>, stands: map<Use, Admission>, next: nat)

  predicate Limited(s: State, slot: Slot) {
    slot in s.limits && s.limits[slot] > 0
  }

  function PcOf(s: State, cpu: Cpu): Pc {
    if cpu in s.cpus then s.cpus[cpu] else Idle
  }

  // ---------- Steps ----------

  /** qos_connlimit_check_and_increment: whether the slot had room, and the counts after. */
  function CheckAndIncrement(s: State, slot: Slot): (bool, map<Slot, nat>) {
    if !Limited(s, slot) || slot !in s.counts then (true, s.counts)
    else if s.counts[slot] >= s.limits[slot] then (false, s.counts)
    else (true, s.counts[slot := s.counts[slot] + 1])
  }

  function Decrement(s: State, slot: Slot): map<Slot, nat> {
    if !Limited(s, slot) || slot !in s.counts || s.counts[slot] == 0 then s.counts
    else s.counts[slot := s.counts[slot] - 1]
  }

  function At(s: State, cpu: Cpu, pc: Pc): State {
    s.(cpus := s.cpus[cpu := pc])
  }

  predicate HasRoom(s: State, slot: Slot) {
    CheckAndIncrement(s, slot).0
  }

  function NextAdmission(s: State, id: Id, slot: Slot): Admission {
    Admission(s.next, id, slot)
  }

  /** The shared map and the history after a successful check. */
  function Admit(s: State, id: Id, slot: Slot): State {
    s.(counts := CheckAndIncrement(s, slot).1, admitted := s.admitted + {NextAdmission(s, id, slot)},
        next := s.next + 1)
  }

  datatype Step =
    | Open(id: Id, ingressIf: nat, egressIf: nat)
    | OpenCheck(cpu: Cpu, id: Id, ingressIf: nat, egressIf: nat)
    | Create(cpu: Cpu)
    | Abandon(cpu: Cpu)
    | Look(cpu: Cpu, id: Id)
    | Check(cpu: Cpu)
    | CheckUntracked(id: Id, ifindex: nat)
    | Stamp(cpu: Cpu)
    | Load(cpu: Cpu, id: Id)
    | Claim(cpu: Cpu)
    | Give(cpu: Cpu)

  predicate Enabled(s: State, step: Step) {
    match step
    case Open(id, _, _) => id !in s.conns
    case OpenCheck(cpu, _, _, _) => PcOf(s, cpu).Idle?
    case Create(cpu) => PcOf(s, cpu).Opening?
    case Abandon(cpu) => PcOf(s, cpu).Opening?
    case Look(cpu, id) => PcOf(s, cpu).Idle? && id in s.conns && Ingress !in s.conns[id].counted
    case Check(cpu) => PcOf(s, cpu).Looked? && PcOf(s, cpu).id in s.conns
    case CheckUntracked(_, _) => true
    case Stamp(cpu) => (PcOf(s, cpu).Stamping? || PcOf(s, cpu).Rejecting?) && PcOf(s, cpu).id in s.conns
    case Load(cpu, id) => PcOf(s, cpu).Idle? && id in s.conns
    case Claim(cpu) => PcOf(s, cpu).Loaded? && PcOf(s, cpu).id in s.conns
    case Give(cpu) => PcOf(s, cpu).Releasing? && PcOf(s, cpu).id in s.conns
  }

  /** A new connection from a workload with an egress limit: refused over it. */
  function AfterOpenCheck(s: State, cpu: Cpu, id: Id, ingressIf: nat, egressIf: nat): State {
    var slot := Slot(egressIf, Egress);
    if !HasRoom(s, slot) then s
    else At(Admit(s, id, slot), cpu, Opening(id, ingressIf, egressIf, NextAdmission(s, id, slot)))
  }

  /** The entry is made with its egress flag, unless another CPU has made one. */
  function AfterCreate(s: State, cpu: Cpu): State
    requires PcOf(s, cpu).Opening?
  {
    var pc := PcOf(s, cpu);
    if pc.id in s.conns then At(s, cpu, Idle)
    else
      At(s, cpu, Idle).(conns := s.conns[pc.id := Conn({Egress}, false, false, pc.ingressIf, pc.egressIf)],
                        stands := s.stands[Use(pc.id, Egress) := pc.a])
  }

  function AfterCheck(s: State, cpu: Cpu): State
    requires PcOf(s, cpu).Looked? && PcOf(s, cpu).id in s.conns
  {
    var pc := PcOf(s, cpu);
    var slot := s.conns[pc.id].SlotOf(Ingress);
    if !HasRoom(s, slot) then At(s, cpu, Rejecting(pc.id))
    else At(Admit(s, pc.id, slot), cpu, Stamping(pc.id, pc.wasRejected, NextAdmission(s, pc.id, slot)))
  }

  function MarkRejected(s: State, id: Id, rejected: bool): State
    requires id in s.conns
  {
    s.(conns := s.conns[id := s.conns[id].(rejected := rejected)])
  }

  function MarkCounted(s: State, id: Id, a: Admission): State
    requires id in s.conns
  {
    var conn, u := s.conns[id], Use(id, Ingress);
    s.(conns := s.conns[id := conn.(counted := conn.counted + {Ingress})],
       stands := if u in s.stands then s.stands else s.stands[u := a])
  }

  /** Over the limit the entry is marked rejected. Under it the mark goes, if it was there when the
      entry was looked up, and the entry is marked counted; a flag that another CPU has set already
      goes on standing for that CPU's admission. */
  function AfterStamp(s: State, cpu: Cpu): State
    requires (PcOf(s, cpu).Stamping? || PcOf(s, cpu).Rejecting?) && PcOf(s, cpu).id in s.conns
  {
    var pc, s1 := PcOf(s, cpu), At(s, cpu, Idle);
    if pc.Rejecting? then MarkRejected(s1, pc.id, true)
    else MarkRejected(MarkCounted(s1, pc.id, pc.a), pc.id, if pc.wasRejected then false else s.conns[pc.id].rejected)
  }

  function ToGive(counted: set<Dir>, rejected: bool): set<Dir> {
    if rejected then counted - {Ingress} else counted
  }

  /** The atomic fetch-and-or: only the CPU that finds the bit clear goes on. */
  function AfterClaim(s: State, cpu: Cpu): State
    requires PcOf(s, cpu).Loaded? && PcOf(s, cpu).id in s.conns
  {
    var pc := PcOf(s, cpu);
    var conn := s.conns[pc.id];
    if pc.counted == {} || conn.claimed then At(s, cpu, Idle)
    else At(s.(conns := s.conns[pc.id := conn.(claimed := true)]), cpu,
            Releasing(pc.id, ToGive(pc.counted, pc.rejected)))
  }

  /** One decrement, ingress first, and then the end of the call. */
  function AfterGive(s: State, cpu: Cpu): State
    requires PcOf(s, cpu).Releasing? && PcOf(s, cpu).id in s.conns
  {
    var pc := PcOf(s, cpu);
    if pc.todo == {} then At(s, cpu, Idle)
    else
      var d := if Ingress in pc.todo then Ingress else Egress;
      var u := Use(pc.id, d);
      At(s, cpu, Releasing(pc.id, pc.todo - {d})).(
        counts := Decrement(s, s.conns[pc.id].SlotOf(d)),
        released := s.released + if u in s.stands then {s.stands[u]} else {})
  }

  function Next(s: State, step: Step): State
    requires Enabled(s, step)
  {
    match step
    case Open(id, i, e) => s.(conns := s.conns[id := Conn({}, false, false, i, e)])
    case OpenCheck(cpu, id, i, e) => AfterOpenCheck(s, cpu, id, i, e)
    case Create(cpu) => AfterCreate(s, cpu)
    case Abandon(cpu) => At(s, cpu, Idle)
    case Look(cpu, id) => At(s, cpu, Looked(id, s.conns[id].rejected))
    case Check(cpu) => AfterCheck(s, cpu)
    case CheckUntracked(id, i) => if HasRoom(s, Slot(i, Ingress)) then Admit(s, id, Slot(i, Ingress)) else s
    case Stamp(cpu) => AfterStamp(s, cpu)
    case Load(cpu, id) => At(s, cpu, Loaded(id, s.conns[id].counted, s.conns[id].rejected))
    case Claim(cpu) => AfterClaim(s, cpu)
    case Give(cpu) => AfterGive(s, cpu)
  }

  predicate ValidRun(s: State, steps: seq<Step>)
    decreases |steps|
  {
    steps != [] ==> Enabled(s, steps[0]) && ValidRun(Next(s, steps[0]), steps[1..])
  }

  function After(s: State, steps: seq<Step>): State
    requires ValidRun(s, steps)
    decreases |steps|
  {
    if steps == [] then s else After(Next(s, steps[0]), steps[1..])
  }

  // ---------- The invariant ----------

  /** Tickets tell admissions apart. */
  ghost predicate TicketsUnique(s: State) {
    && (forall a :: a in s.admitted ==> a.ticket < s.next)
    && (forall a, b :: a in s.admitted && b in s.admitted && a.ticket == b.ticket ==> a == b)
  }

  /** A flag stands for an admission of its own connection and counter. */
  ghost predicate FlagsStand(s: State) {
    && (forall id, d :: id in s.conns && d in s.conns[id].counted ==> Use(id, d) in s.stands)
    && (forall u :: u in s.stands ==>
          && u.id in s.conns && u.dir in s.conns[u.id].counted && s.stands[u] in s.admitted
          && s.stands[u].id == u.id && s.stands[u].slot == s.conns[u.id].SlotOf(u.dir))
  }

  /** An admission in a CPU's hands. */
  ghost predicate Held(s: State, a: Admission, id: Id, slot: Slot) {
    a in s.admitted && a.id == id && a.slot == slot
  }

  ghost predicate HandsFull(s: State) {
    && (forall c :: c in s.cpus && s.cpus[c].Opening? ==>
          Held(s, s.cpus[c].a, s.cpus[c].id, Slot(s.cpus[c].egressIf, Egress)))
    && (forall c :: c in s.cpus && s.cpus[c].Stamping? ==>
          s.cpus[c].id in s.conns && Held(s, s.cpus[c].a, s.cpus[c].id, s.conns[s.cpus[c].id].SlotOf(Ingress)))
  }

  /** What was given back was the admission that a claimed connection's flag stands for. */
  ghost predicate ReleasedStood(s: State) {
    forall a :: a in s.released ==>
      && Use(a.id, a.slot.dir) in s.stands && s.stands[Use(a.id, a.slot.dir)] == a
      && a.id in s.conns && s.conns[a.id].claimed
  }

  /** A CPU that is releasing a connection has claimed it, is the only one to have done so, and
      has yet to give back only directions that are counted and that nobody has given back. */
  ghost predicate ClaimsExclusive(s: State) {
    && (forall c :: c in s.cpus && s.cpus[c].Releasing? ==>
          s.cpus[c].id in s.conns && s.conns[s.cpus[c].id].claimed)
    && (forall c, c' :: c in s.cpus && c' in s.cpus && s.cpus[c].Releasing? && s.cpus[c'].Releasing? && c != c'
          ==> s.cpus[c].id != s.cpus[c'].id)
    && (forall c, d :: c in s.cpus && s.cpus[c].Releasing? && d in s.cpus[c].todo ==>
          Use(s.cpus[c].id, d) in s.stands && s.stands[Use(s.cpus[c].id, d)] !in s.released)
  }

  ghost predicate LoadsCounted(s: State) {
    forall c, d :: c in s.cpus && s.cpus[c].Loaded? && d in s.cpus[c].counted ==>
      s.cpus[c].id in s.conns && d in s.conns[s.cpus[c].id].counted
  }

  /** The admissions that hold a slot: those not given back. */
  ghost function Outstanding(s: State, slot: Slot): set<Admission> {
    set a | a in s.admitted && a !in s.released && a.slot == slot
  }

  ghost predicate CountsExact(s: State) {
    && s.counts.Keys == s.limits.Keys
    && (forall slot :: slot in s.counts && Limited(s, slot) ==>
          s.counts[slot] == |Outstanding(s, slot)| && s.counts[slot] <= s.limits[slot])
  }

  ghost predicate Books(s: State) {
    TicketsUnique(s) && FlagsStand(s) && HandsFull(s) && ReleasedStood(s)
  }

  ghost predicate Inv(s: State) {
    Books(s) && ClaimsExclusive(s) && LoadsCounted(s) && CountsExact(s)
  }

  // ---------- Every step keeps it ----------

  lemma SameOutstanding(s: State, s': State)
    requires CountsExact(s) && s'.admitted == s.admitted && s'.released == s.released
    requires s'.counts == s.counts && s'.limits == s.limits
    ensures CountsExact(s')
  {
    assert forall slot :: Outstanding(s', slot) == Outstanding(s, slot);
  }

  /** One more admission is one more outstanding, of its own slot. */
  lemma AdmitKeepsCounts(s: State, id: Id, slot: Slot)
    requires TicketsUnique(s) && s.released <= s.admitted && CountsExact(s) && HasRoom(s, slot)
    ensures CountsExact(Admit(s, id, slot))
  {
    var s', a := Admit(s, id, slot), NextAdmission(s, id, slot);
    assert a !in s.admitted && a !in s.released;
    forall x | x in s'.counts && Limited(s', x)
      ensures s'.counts[x] == |Outstanding(s', x)| && s'.counts[x] <= s'.limits[x]
    {
      assert x in s.counts && Limited(s, x);
      assert Outstanding(s', x) == if x == slot then Outstanding(s, x) + {a} else Outstanding(s, x);
    }
  }

  lemma AdmitKeeps(s: State, id: Id, slot: Slot)
    requires Inv(s) && HasRoom(s, slot)
    ensures Inv(Admit(s, id, slot)) && Held(Admit(s, id, slot), NextAdmission(s, id, slot), id, slot)
  {
    assert s.released <= s.admitted;
    AdmitKeepsCounts(s, id, slot);
  }

  /** What a CPU may take up at any time. */
  ghost predicate MayTakeUp(s: State, pc: Pc) {
    match pc
    case Opening(id, _, e, a) => Held(s, a, id, Slot(e, Egress))
    case Stamping(id, _, a) => id in s.conns && Held(s, a, id, s.conns[id].SlotOf(Ingress))
    case Loaded(id, counted, _) => id in s.conns && counted <= s.conns[id].counted
    case Releasing(_, _) => false
    case _ => true
  }

  lemma MoveKeepsBooks(s: State, cpu: Cpu, pc: Pc)
    requires Books(s) && MayTakeUp(s, pc)
    ensures Books(At(s, cpu, pc))
  {
  }

  lemma MoveKeeps(s: State, cpu: Cpu, pc: Pc)
    requires Inv(s) && MayTakeUp(s, pc)
    ensures Inv(At(s, cpu, pc))
  {
    MoveKeepsBooks(s, cpu, pc);
    SameOutstanding(s, At(s, cpu, pc));
  }

  /** A new entry, with its egress flag or without. */
  function Created(s: State, id: Id, conn: Conn, a: Admission): State {
    s.(conns := s.conns[id := conn],
       stands := if Egress in conn.counted then s.stands[Use(id, Egress) := a] else s.stands)
  }

  lemma CreateKeepsBooks(s: State, id: Id, conn: Conn, a: Admission)
    requires Books(s) && id !in s.conns && conn.counted <= {Egress}
    requires Egress in conn.counted ==> Held(s, a, id, conn.SlotOf(Egress))
    ensures Books(Created(s, id, conn, a))
  {
    assert FlagsStand(Created(s, id, conn, a));
  }

  lemma CreateKeeps(s: State, id: Id, conn: Conn, a: Admission)
    requires Inv(s) && id !in s.conns && conn.counted <= {Egress}
    requires Egress in conn.counted ==> Held(s, a, id, conn.SlotOf(Egress))
    ensures Inv(Created(s, id, conn, a))
  {
    var s' := Created(s, id, conn, a);
    CreateKeepsBooks(s, id, conn, a);
    SameOutstanding(s, s');
    assert ClaimsExclusive(s') by { assert FlagsStand(s); }
  }

  lemma RejectKeeps(s: State, id: Id, rejected: bool)
    requires Inv(s) && id in s.conns
    ensures Inv(MarkRejected(s, id, rejected))
  {
    SameOutstanding(s, MarkRejected(s, id, rejected));
  }

  lemma CountedKeepsBooks(s: State, id: Id, a: Admission)
    requires Books(s) && id in s.conns && Held(s, a, id, s.conns[id].SlotOf(Ingress))
    ensures Books(MarkCounted(s, id, a))
  {
    var s' := MarkCounted(s, id, a);
    assert FlagsStand(s');
    assert ReleasedStood(s');
  }

  lemma CountedKeeps(s: State, id: Id, a: Admission)
    requires Inv(s) && id in s.conns && Held(s, a, id, s.conns[id].SlotOf(Ingress))
    ensures Inv(MarkCounted(s, id, a))
  {
    CountedKeepsBooks(s, id, a);
    SameOutstanding(s, MarkCounted(s, id, a));
  }

  lemma StampKeeps(s: State, cpu: Cpu)
    requires Inv(s) && Enabled(s, Stamp(cpu))
    ensures Inv(AfterStamp(s, cpu))
  {
    var pc, s1 := PcOf(s, cpu), At(s, cpu, Idle);
    MoveKeeps(s, cpu, Idle);
    if pc.Rejecting? {
      RejectKeeps(s1, pc.id, true);
    } else {
      CountedKeeps(s1, pc.id, pc.a);
      RejectKeeps(MarkCounted(s1, pc.id, pc.a), pc.id, if pc.wasRejected then false else s.conns[pc.id].rejected);
    }
  }

  lemma ClaimKeepsBooks(s: State, id: Id)
    requires Inv(s) && id in s.conns
    ensures var s' := s.(conns := s.conns[id := s.conns[id].(claimed := true)]);
            Books(s') && LoadsCounted(s') && ClaimsExclusive(s') && CountsExact(s')
  {
    SameOutstanding(s, s.(conns := s.conns[id := s.conns[id].(claimed := true)]));
  }

  /** A CPU that found the claim free takes it, with nothing given back before. */
  lemma TakeKeeps(s: State, cpu: Cpu, id: Id, todo: set<Dir>)
    requires Inv(s) && id in s.conns && s.conns[id].claimed && todo <= s.conns[id].counted
    requires forall c :: c in s.cpus && s.cpus[c].Releasing? ==> s.cpus[c].id != id
    requires forall a :: a in s.released ==> a.id != id
    ensures Inv(At(s, cpu, Releasing(id, todo)))
  {
    var s' := At(s, cpu, Releasing(id, todo));
    SameOutstanding(s, s');
    assert Books(s') && LoadsCounted(s');
    forall d | d in todo ensures Use(id, d) in s.stands && s.stands[Use(id, d)] !in s.released {
      assert s.stands[Use(id, d)].id == id;
    }
  }

  lemma ClaimKeeps(s: State, cpu: Cpu)
    requires Inv(s) && Enabled(s, Claim(cpu))
    ensures Inv(AfterClaim(s, cpu))
  {
    var pc := PcOf(s, cpu);
    if pc.counted == {} || s.conns[pc.id].claimed {
      MoveKeeps(s, cpu, Idle);
    } else {
      var s1 := s.(conns := s.conns[pc.id := s.conns[pc.id].(claimed := true)]);
      ClaimKeepsBooks(s, pc.id);
      TakeKeeps(s1, cpu, pc.id, ToGive(pc.counted, pc.rejected));
    }
  }

  /** The admission that a CPU gives back next. */
  lemma NextToGive(s: State, cpu: Cpu) returns (d: Dir)
    requires Inv(s) && Enabled(s, Give(cpu)) && PcOf(s, cpu).todo != {}
    ensures d == (if Ingress in PcOf(s, cpu).todo then Ingress else Egress) && d in PcOf(s, cpu).todo
    ensures var u := Use(PcOf(s, cpu).id, d);
            && u in s.stands && s.stands[u] in s.admitted && s.stands[u] !in s.released
            && s.stands[u].slot == s.conns[u.id].SlotOf(d) && s.stands[u].id == u.id
  {
    var pc := PcOf(s, cpu);
    var x :| x in pc.todo;
    assert x == Ingress || x == Egress;
    d := if Ingress in pc.todo then Ingress else Egress;
  }

  /** Giving back one admission takes it from its own slot and from no other. */
  lemma GiveKeepsCounts(s: State, s': State, a: Admission)
    requires CountsExact(s) && a in s.admitted && a !in s.released
    requires s'.admitted == s.admitted && s'.released == s.released + {a} && s'.limits == s.limits
    requires s'.counts == Decrement(s, a.slot)
    ensures CountsExact(s')
  {
    forall slot | slot in s'.counts && Limited(s', slot)
      ensures s'.counts[slot] == |Outstanding(s', slot)| && s'.counts[slot] <= s'.limits[slot]
    {
      assert slot in s.counts && Limited(s, slot);
      assert Outstanding(s', slot) == if slot == a.slot then Outstanding(s, slot) - {a} else Outstanding(s, slot);
      if slot == a.slot { assert a in Outstanding(s, slot); }
    }
  }

  lemma GiveKeeps(s: State, cpu: Cpu)
    requires Inv(s) && Enabled(s, Give(cpu))
    ensures Inv(AfterGive(s, cpu))
  {
    if PcOf(s, cpu).todo == {} {
      MoveKeeps(s, cpu, Idle);
    } else {
      var d := NextToGive(s, cpu);
      var s', a := AfterGive(s, cpu), s.stands[Use(PcOf(s, cpu).id, d)];
      GiveKeepsCounts(s, s', a);
      assert Books(s');
      GiveKeepsClaims(s, cpu, d);
    }
  }

  lemma GiveKeepsClaims(s: State, cpu: Cpu, d: Dir)
    requires Inv(s) && Enabled(s, Give(cpu)) && d in PcOf(s, cpu).todo
    requires d == if Ingress in PcOf(s, cpu).todo then Ingress else Egress
    ensures ClaimsExclusive(AfterGive(s, cpu))
  {
    var s', a := AfterGive(s, cpu), s.stands[Use(PcOf(s, cpu).id, d)];
    forall c, x | c in s'.cpus && s'.cpus[c].Releasing? && x in s'.cpus[c].todo
      ensures Use(s'.cpus[c].id, x) in s'.stands && s'.stands[Use(s'.cpus[c].id, x)] !in s'.released
    {
      assert c in s.cpus && s.cpus[c].Releasing? && x in s.cpus[c].todo && s.cpus[c].id == s'.cpus[c].id;
      var b := s.stands[Use(s.cpus[c].id, x)];
      assert b.id == s.cpus[c].id && b.slot.dir == x;
      assert c == cpu ==> x != d;
    }
  }

  lemma StepKeeps(s: State, step: Step)
    requires Inv(s) && Enabled(s, step)
    ensures Inv(Next(s, step))
  {
    match step
    case Open(id, i, e) => CreateKeeps(s, id, Conn({}, false, false, i, e), Admission(0, id, Slot(e, Egress)));
    case OpenCheck(cpu, id, i, e) =>
      var slot := Slot(e, Egress);
      if HasRoom(s, slot) {
        AdmitKeeps(s, id, slot);
        MoveKeeps(Admit(s, id, slot), cpu, Opening(id, i, e, NextAdmission(s, id, slot)));
      }
    case Create(cpu) =>
      var pc := PcOf(s, cpu);
      MoveKeeps(s, cpu, Idle);
      if pc.id !in s.conns {
        CreateKeeps(At(s, cpu, Idle), pc.id, Conn({Egress}, false, false, pc.ingressIf, pc.egressIf), pc.a);
      }
    case Abandon(cpu) => MoveKeeps(s, cpu, Idle);
    case Look(cpu, id) => MoveKeeps(s, cpu, Looked(id, s.conns[id].rejected));
    case Check(cpu) =>
      var pc := PcOf(s, cpu);
      var slot := s.conns[pc.id].SlotOf(Ingress);
      if HasRoom(s, slot) {
        AdmitKeeps(s, pc.id, slot);
        MoveKeeps(Admit(s, pc.id, slot), cpu, Stamping(pc.id, pc.wasRejected, NextAdmission(s, pc.id, slot)));
      } else {
        MoveKeeps(s, cpu, Rejecting(pc.id));
      }
    case CheckUntracked(id, i) => if HasRoom(s, Slot(i, Ingress)) { AdmitKeeps(s, id, Slot(i, Ingress)); }
    case Stamp(cpu) => StampKeeps(s, cpu);
    case Load(cpu, id) => MoveKeeps(s, cpu, Loaded(id, s.conns[id].counted, s.conns[id].rejected));
    case Claim(cpu) => ClaimKeeps(s, cpu);
    case Give(cpu) => GiveKeeps(s, cpu);
  }

  ghost predicate Fresh(s: State) {
    && s.conns == map[] && s.cpus == map[] && s.admitted == {} && s.released == {} && s.stands == map[]
    && s.counts.Keys == s.limits.Keys && forall slot :: slot in s.counts ==> s.counts[slot] == 0
  }

  lemma {:induction false} RunKeeps(s: State, steps: seq<Step>)
    requires Inv(s) && ValidRun(s, steps)
    ensures Inv(After(s, steps))
    decreases |steps|
  {
    if steps != [] {
      StepKeeps(s, steps[0]);
      RunKeeps(Next(s, steps[0]), steps[1..]);
    }
  }

  lemma FreshRun(s: State, steps: seq<Step>)
    requires Fresh(s) && ValidRun(s, steps)
    ensures Inv(After(s, steps))
  {
    assert forall slot :: Outstanding(s, slot) == {};
    RunKeeps(s, steps);
  }

  // ---------- What holds of every run ----------

  /** Under every interleaving, checks and stamps included: each direction of each connection gives
      back at most one admission, which was its own and of its own counter, and every limited counter
      is exactly the number of admissions not yet given back, never above its limit. */
  lemma SlotsConserved(s: State, steps: seq<Step>, slot: Slot, a: Admission, b: Admission)
    requires Fresh(s) && ValidRun(s, steps)
    ensures var s' := After(s, steps);
            && (a in s'.released ==>
                  a in s'.admitted && a.id in s'.conns && a.slot == s'.conns[a.id].SlotOf(a.slot.dir))
            && (a in s'.released && b in s'.released && a.id == b.id && a.slot.dir == b.slot.dir ==> a == b)
            && (slot in s'.counts && Limited(s', slot) ==>
                  s'.counts[slot] == |Outstanding(s', slot)| && s'.counts[slot] <= s'.limits[slot])
  {
    FreshRun(s, steps);
  }

  /** After any run, a limited counter has room exactly if fewer admissions than its limit hold a slot
      of it. One without a limit always has. */
  lemma RoomExactly(s: State, steps: seq<Step>, slot: Slot)
    requires Fresh(s) && ValidRun(s, steps)
    ensures var s' := After(s, steps);
            HasRoom(s', slot) <==> !Limited(s', slot) || |Outstanding(s', slot)| < s'.limits[slot]
  {
    FreshRun(s, steps);
  }

  /** A check admits exactly if there is room: the SYN of a tracked connection at its workload, and a
      new connection at the workload that opens it. */
  lemma ChecksExactly(s: State, cpu: Cpu, id: Id, ingressIf: nat, egressIf: nat)
    ensures Enabled(s, Check(cpu)) ==>
              var slot := Slot(s.conns[PcOf(s, cpu).id].ingressIf, Ingress);
              var s' := Next(s, Check(cpu));
              if HasRoom(s, slot) then
                PcOf(s', cpu).Stamping? && s'.admitted == s.admitted + {Admission(s.next, PcOf(s, cpu).id, slot)}
              else PcOf(s', cpu) == Rejecting(PcOf(s, cpu).id) && s'.admitted == s.admitted && s'.counts == s.counts
    ensures Enabled(s, OpenCheck(cpu, id, ingressIf, egressIf)) ==>
              var slot := Slot(egressIf, Egress);
              var s' := Next(s, OpenCheck(cpu, id, ingressIf, egressIf));
              if HasRoom(s, slot) then
                PcOf(s', cpu).Opening? && s'.admitted == s.admitted + {Admission(s.next, id, slot)}
              else s' == s
  {
  }

  /** A CPU that finds a counted connection unclaimed goes on to give back every direction it is
      counted in, but for ingress if it was rejected there; a second one finds it claimed. */
  lemma ClaimExactly(s: State, cpu: Cpu, id: Id)
    requires PcOf(s, cpu).Idle? && id in s.conns
    ensures var loaded := Next(s, Load(cpu, id));
            && Enabled(s, Load(cpu, id)) && Enabled(loaded, Claim(cpu))
            && var s', c := Next(loaded, Claim(cpu)), s.conns[id];
               if c.counted != {} && !c.claimed then
                 && s'.conns[id].claimed && PcOf(s', cpu).Releasing? && PcOf(s', cpu).id == id
                 && forall d: Dir :: d in PcOf(s', cpu).todo <==> d in c.counted && (d == Ingress ==> !c.rejected)
               else PcOf(s', cpu).Idle? && s'.conns == s.conns
  {
  }

  /** And each turn gives back the admission that one direction stands for, until none is left. */
  lemma GiveExactly(s: State, cpu: Cpu)
    requires Inv(s) && Enabled(s, Give(cpu))
    ensures var pc, s' := PcOf(s, cpu), Next(s, Give(cpu));
            if pc.todo == {} then s' == At(s, cpu, Idle)
            else
              exists d: Dir :: d in pc.todo && PcOf(s', cpu) == Releasing(pc.id, pc.todo - {d}) &&
                               Use(pc.id, d) in s.stands && s.stands[Use(pc.id, d)] !in s.released &&
                               s'.released == s.released + {s.stands[Use(pc.id, d)]}
  {
    if PcOf(s, cpu).todo != {} {
      var d := NextToGive(s, cpu);
      assert PcOf(Next(s, Give(cpu)), cpu) == Releasing(PcOf(s, cpu).id, PcOf(s, cpu).todo - {d});
    }
  }

  /** The uses that hold a slot. */
  ghost function Holders(s: State, slot: Slot): set<Use> {
    set a | a in Outstanding(s, slot) :: Use(a.id, a.slot.dir)
  }

  /** No direction of any connection was admitted twice. */
  ghost predicate AdmittedOnce(s: State) {
    forall a, b :: a in s.admitted && b in s.admitted && a.id == b.id && a.slot.dir == b.slot.dir ==> a == b
  }

  /** So if no connection won the check twice, the counter is the number of connections that were
      admitted and have not given their slot back. */
  lemma CountsConnections(s: State, steps: seq<Step>, slot: Slot)
    requires Fresh(s) && ValidRun(s, steps) && AdmittedOnce(After(s, steps))
    ensures var s' := After(s, steps);
            slot in s'.counts && Limited(s', slot) ==> s'.counts[slot] == |Holders(s', slot)|
  {
    FreshRun(s, steps);
    var s' := After(s, steps);
    SameSize(Outstanding(s', slot), Holders(s', slot));
  }

  lemma {:induction false} SameSize(xs: set<Admission>, us: set<Use>)
    requires us == set a | a in xs :: Use(a.id, a.slot.dir)
    requires forall a, b :: a in xs && b in xs && a.id == b.id && a.slot.dir == b.slot.dir ==> a == b
    ensures |xs| == |us|
    decreases xs
  {
    if xs != {} {
      var x :| x in xs;
      var u := Use(x.id, x.slot.dir);
      assert us - {u} == set a | a in xs - {x} :: Use(a.id, a.slot.dir);
      SameSize(xs - {x}, us - {u});
    } else {
      assert us == {};
    }
  }

  // ---------- A counter that drifts ----------

  const BUSY := Slot(3, Ingress)

  /** The counter, the one connection and what the two CPUs are doing. */
  ghost predicate Looks(s: State, count: nat, conn: Conn, one: Pc, two: Pc) {
    && s.counts == map[BUSY := count] && s.limits == map[BUSY := 5] && s.conns == map[1 := conn]
    && PcOf(s, 10) == one && PcOf(s, 11) == two
  }

  /** Two CPUs look at the same connection's SYN and its retransmission and both win the check, both
      stamp the entry, and the connection closes and gives back one slot. */
  const WIN := [Look(10, 1), Look(11, 1), Check(10), Check(11)]
  const STAMP := [Stamp(10), Stamp(11)]
  const CLOSE := [Load(10, 1), Claim(10), Give(10), Give(10)]

  const NEW_CONN := Conn({}, false, false, 3, 4)
  const COUNTED_CONN := Conn({Ingress}, false, false, 3, 4)

  /** A run step by step. */
  lemma FirstStep(s: State, r: seq<Step>)
    requires r != [] && Enabled(s, r[0]) && ValidRun(Next(s, r[0]), r[1..])
    ensures ValidRun(s, r) && After(s, r) == After(Next(s, r[0]), r[1..])
  {
  }

  lemma BothLook(s: State)
    requires Looks(s, 0, NEW_CONN, Idle, Idle)
    ensures Enabled(s, Look(10, 1)) && Enabled(Next(s, Look(10, 1)), Look(11, 1))
    ensures Looks(Next(Next(s, Look(10, 1)), Look(11, 1)), 0, NEW_CONN, Looked(1, false), Looked(1, false))
  {
    assert Looks(Next(s, Look(10, 1)), 0, NEW_CONN, Looked(1, false), Idle);
  }

  lemma BothCheck(s: State)
    requires Looks(s, 0, NEW_CONN, Looked(1, false), Looked(1, false))
    ensures Enabled(s, Check(10)) && Enabled(Next(s, Check(10)), Check(11))
    ensures var e := Next(Next(s, Check(10)), Check(11));
            PcOf(e, 10).Stamping? && PcOf(e, 11).Stamping? &&
            Looks(e, 2, NEW_CONN, Stamping(1, false, PcOf(e, 10).a), Stamping(1, false, PcOf(e, 11).a))
  {
    var a := NextAdmission(s, 1, BUSY);
    assert Looks(Next(s, Check(10)), 1, NEW_CONN, Stamping(1, false, a), Looked(1, false));
  }

  lemma BothWin(s: State, r: seq<Step>)
    requires Looks(s, 0, NEW_CONN, Idle, Idle) && r == WIN
    ensures ValidRun(s, r)
    ensures var e := After(s, r);
            PcOf(e, 10).Stamping? && PcOf(e, 11).Stamping? &&
            Looks(e, 2, NEW_CONN, Stamping(1, false, PcOf(e, 10).a), Stamping(1, false, PcOf(e, 11).a))
  {
    BothLook(s);
    var s1 := Next(s, r[0]);
    var s2 := Next(s1, r[1]);
    BothCheck(s2);
    var s3 := Next(s2, r[2]);
    assert r[1..][1..] == r[2..] && r[2..][1..] == r[3..] && r[3..][1..] == [];
    FirstStep(s3, r[3..]);
    FirstStep(s2, r[2..]);
    FirstStep(s1, r[1..]);
    FirstStep(s, r);
  }

  lemma BothStamp(s: State, r: seq<Step>, a: Admission, b: Admission)
    requires Looks(s, 2, NEW_CONN, Stamping(1, false, a), Stamping(1, false, b)) && r == STAMP
    ensures ValidRun(s, r) && Looks(After(s, r), 2, COUNTED_CONN, Idle, Idle)
  {
    var s1 := Next(s, r[0]);
    assert NEW_CONN.counted + {Ingress} == {Ingress} && COUNTED_CONN.counted + {Ingress} == {Ingress};
    assert Looks(s1, 2, COUNTED_CONN, Idle, Stamping(1, false, b));
    var s2 := Next(s1, r[1]);
    assert Looks(s2, 2, COUNTED_CONN, Idle, Idle);
    assert r[1..][1..] == [];
    FirstStep(s1, r[1..]);
    FirstStep(s, r);
  }

  const CLOSED_CONN := COUNTED_CONN.(claimed := true)

  lemma LoadAndClaim(s: State)
    requires Looks(s, 2, COUNTED_CONN, Idle, Idle)
    ensures Enabled(s, Load(10, 1)) && Enabled(Next(s, Load(10, 1)), Claim(10))
    ensures Looks(Next(Next(s, Load(10, 1)), Claim(10)), 2, CLOSED_CONN, Releasing(1, {Ingress}), Idle)
  {
    assert Looks(Next(s, Load(10, 1)), 2, COUNTED_CONN, Loaded(1, {Ingress}, false), Idle);
  }

  lemma GiveAndEnd(s: State)
    requires Looks(s, 2, CLOSED_CONN, Releasing(1, {Ingress}), Idle)
    ensures Enabled(s, Give(10)) && Enabled(Next(s, Give(10)), Give(10))
    ensures Looks(Next(Next(s, Give(10)), Give(10)), 1, CLOSED_CONN, Idle, Idle)
  {
    assert {Ingress} - {Ingress} == {};
    assert Looks(Next(s, Give(10)), 1, CLOSED_CONN, Releasing(1, {}), Idle);
  }

  lemma Close(s: State, r: seq<Step>)
    requires Looks(s, 2, COUNTED_CONN, Idle, Idle) && r == CLOSE
    ensures ValidRun(s, r) && Looks(After(s, r), 1, CLOSED_CONN, Idle, Idle)
  {
    LoadAndClaim(s);
    var s1 := Next(s, r[0]);
    var s2 := Next(s1, r[1]);
    GiveAndEnd(s2);
    var s3 := Next(s2, r[2]);
    assert r[1..][1..] == r[2..] && r[2..][1..] == r[3..] && r[3..][1..] == [];
    FirstStep(s3, r[3..]);
    FirstStep(s2, r[2..]);
    FirstStep(s1, r[1..]);
    FirstStep(s, r);
  }

  /** The counter drifts: it stays at one when the only connection has closed. */
  lemma CounterDrifts(s: State, win: seq<Step>, stamp: seq<Step>, close: seq<Step>)
    requires Looks(s, 0, NEW_CONN, Idle, Idle) && win == WIN && stamp == STAMP && close == CLOSE
    ensures ValidRun(s, win) && ValidRun(After(s, win), stamp) && ValidRun(After(After(s, win), stamp), close)
    ensures Looks(After(After(After(s, win), stamp), close), 1, CLOSED_CONN, Idle, Idle)
  {
    BothWin(s, win);
    var e := After(s, win);
    BothStamp(e, stamp, PcOf(e, 10).a, PcOf(e, 11).a);
    Close(After(e, stamp), close);
  }
}
