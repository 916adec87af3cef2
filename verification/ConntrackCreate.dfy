/** Creating tracking entries and the forward entries of NATted flows
    (felix/bpf-gpl/conntrack.h:104-366 and 1293-1321). */
module ConntrackCreate {
  import opened ConntrackTypes

  const NO_TUPLE := Tuple(0, 0, 0, 0, 0)

  /** A flow to be tracked: tuple is what the backend sees, orig what the client sent (zero
      for a flow without NAT). */
  datatype Flow = Flow(tuple: Tuple, orig: Tuple, kind: Kind, flags: set<EntryFlag>, allowReturn: bool)

  /** ports are the replacement source ports drawn on a collision; allowSource is the
      lookup of the source in the spoofing allow list. */
  datatype CreateEnv = CreateEnv(now: U64, ports: seq<Port>, allowSource: bool)

  const PSNAT_RETRIES := 3

  function SynFlag(p: Packet): set<LegFlag> {
    if p.tcp.HasTcp? && p.tcp.h.syn then {SynSeen} else {}
  }

  function Seqno(p: Packet): U32 {
    if p.tcp.HasTcp? then p.tcp.h.seqno else 0
  }

  /** The legs a new entry gives the flow's source and its destination. */
  function SourceFlags(prog: Prog, c: Flow, p: Packet): set<LegFlag> {
    {Opener} + SynFlag(p) +
    (if prog.FromWep? then {Approved, Workload}
     else if prog.FromHep? || (prog.ToHep? && !p.seen && c.kind == NatRev) then {Approved}
     else {})
  }

  function DestFlags(prog: Prog, c: Flow, p: Packet): set<LegFlag> {
    if prog.FromHost() || (prog.FromHep? && c.allowReturn) then {Approved} else {}
  }

  function NewEntry(prog: Prog, c: Flow, p: Packet, now: U64): (e: Entry)
    ensures e.Track?
  {
    var fromA := Sltd(c.tuple);
    var s2d := Leg(SourceFlags(prog, c, p), Seqno(p), if prog.ToHost() then p.ifindex else INVALID_IFINDEX, 1, p.len);
    var d2s := NO_LEG.(flags := DestFlags(prog, c, p));
    Track(now, 0, c.kind, c.flags + (if fromA then {} else {Ba}),
          if fromA then s2d else d2s, if fromA then d2s else s2d,
          c.orig.dst, c.orig.dport, c.orig.src, c.orig.sport)
  }

  /** Approving an entry that an earlier program on the packet's path made. */
  function ApproveSeen(e: Entry, fromA: bool, prog: Prog, p: Packet): (e': Entry)
    requires e.Track?
    ensures e'.Track?
  {
    var approval := {Approved} + (if prog.Wep() then {Workload} else {});
    var s2d, d2s := e.LegFrom(fromA).(seqno := Seqno(p)).Set(SynFlag(p)), e.LegFrom(!fromA);
    if prog.ToHost() then e.WithLegs(fromA, s2d.Set(approval), d2s)
    else e.WithLegs(fromA, s2d, d2s.Set(approval))
  }

  // ---------- Source port collisions ----------

  function WithPort(tuple: Tuple, sport: Port): Tuple {
    tuple.(sport := sport)
  }

  /** Index of the first drawn port whose key is free, or |ports|. */
  function FirstFree(t: Table, tuple: Tuple, ports: seq<Port>): (i: nat)
    ensures i <= |ports|
    ensures i < |ports| ==> KeyOf(WithPort(tuple, ports[i])) !in t
    ensures forall j | 0 <= j < i :: KeyOf(WithPort(tuple, ports[j])) in t
  {
    if ports == [] then 0
    else if KeyOf(WithPort(tuple, ports[0])) !in t then 0
    else
      var i := FirstFree(t, tuple, ports[1..]);
      assert forall j | 1 <= j < i + 1 :: ports[j] == ports[1..][j - 1];
      i + 1
  }

  // ---------- The tracking entry ----------

  /** The table after the attempt, whether it failed, and the flow's tuple as tracked. */
  datatype Created = Created(table: Table, failed: bool, tuple: Tuple)

  function Tracking(t: Table, prog: Prog, c: Flow, p: Packet, env: CreateEnv): Created
    requires p.seen && KeyOf(c.tuple) in t ==> t[KeyOf(c.tuple)].Track?
  {
    var k := KeyOf(c.tuple);
    if p.seen && k in t then Created(t[k := ApproveSeen(t[k], Sltd(c.tuple), prog, p)], false, c.tuple)
    else if p.seen && env.allowSource then Created(t, false, c.tuple)
    else
      var e := NewEntry(prog, c, p, env.now);
      if k !in t then Created(t[k := e], false, c.tuple)
      else if prog.Wep() then Created(t, true, c.tuple)
      else
        var i := FirstFree(t, c.tuple, env.ports);
        if i == |env.ports| then Created(t, true, c.tuple)
        else
          var tuple := WithPort(c.tuple, env.ports[i]);
          Created(t[KeyOf(tuple) := e.(origSport := c.tuple.sport)], false, tuple)
  }

  // ---------- The forward entry ----------

  /** The tuple a forward entry is filed under. Port 0 marks a source port conflict of the
      host's own connection. */
  function FwdTuple(prog: Prog, c: Flow, sport: Port, seen: bool): Tuple {
    if prog.ToHep? && c.orig.sport != sport && !seen then c.orig.(sport := 0) else c.orig
  }

  function FwdEntry(c: Flow, tracked: Tuple, now: U64): Entry {
    Fwd(now, KeyOf(tracked), if c.orig.sport != tracked.sport then tracked.sport else 0)
  }

  /** conntrack_create for TCP and UDP. */
  function Create(t: Table, prog: Prog, c: Flow, p: Packet, env: CreateEnv, suppress: bool): Created
    requires p.seen && KeyOf(c.tuple) in t ==> t[KeyOf(c.tuple)].Track?
  {
    if suppress then Created(t, false, c.tuple)
    else
      var made := Tracking(t, prog, c, p, env);
      if made.failed || c.kind == Normal then made
      else
        var fwd := FwdTuple(prog, c, made.tuple.sport, p.seen);
        made.(table := made.table[KeyOf(fwd) := FwdEntry(c, made.tuple, env.now)])
  }
}
