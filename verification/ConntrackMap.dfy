/** The conntrack map as the programs update it: each method follows the C code step by step
    and is proved to do what the functions of the other modules say. */
module ConntrackMap {
  import opened ConntrackTypes
  import opened ConntrackLookup
  import opened ConntrackCreate

  /** The second half of the lookup, on the stamped entries, completes it. */
  lemma SettledIsLookup(t: Table, t': Table, prog: Prog, p: Packet, env: Env, h: Hit)
    requires WellLinked(t) && h == Classify(t, prog, p, env.linuxEstablished) && h.Found?
    requires var t1 := t[KeyOf(p.tuple) := t[KeyOf(p.tuple)].Stamped(env.now)];
             t' == t1[h.tracking := t1[h.tracking].Stamped(env.now)]
    ensures t'[h.tracking] == t[h.tracking].Stamped(env.now) && t'[KeyOf(p.tuple)].Fwd? == t[KeyOf(p.tuple)].Fwd?
    ensures var e := t'[h.tracking];
            var booked := Booked(e, h.fromA, p, env.now, t'[KeyOf(p.tuple)].Fwd?);
            Lookup(t, prog, p, env) == (t'[h.tracking := Accounted(booked.0, h.fromA, prog, p, env, e.flags)],
                                        FoundResult(e, booked.0, h, prog, p, env), booked.1)
  {
    var k, e := KeyOf(p.tuple), t[h.tracking];
    assert t'[h.tracking] == e.Stamped(env.now);
    StampFirst(e, h, prog, p, env, t[k].Fwd?);
    var a := Accounted(Booked(e, h.fromA, p, env.now, t[k].Fwd?).0, h.fromA, prog, p, env, e.flags);
    assert t'[h.tracking := a] == t[k := t[k].Stamped(env.now)][h.tracking := a];
  }

  /** Booking a packet on an entry that is stamped already. */
  lemma BookedNow(e: Entry, fromA: bool, p: Packet, now: U64, viaFwd: bool)
    requires e.Track? && e.lastSeen == now
    ensures Booked(e, fromA, p, now, viaFwd) ==
            if p.tcp.HasTcp? then AfterTcp(e, fromA, p.tcp.h, now, viaFwd) else (e, [])
  {
    assert e.Stamped(now) == e;
  }

  class CtMap {
    var table: Table

    constructor ()
      ensures table == map[]
    {
      table := map[];
    }

    /** calico_ct_lookup, updating the entries under their keys as it goes. */
    method CtLookup(prog: Prog, p: Packet, env: Env) returns (r: Result, released: seq<LimitKey>)
      requires WellLinked(table)
      modifies this
      ensures (table, r, released) == Lookup(old(table), prog, p, env)
    {
      var h;
      h, released := Find(prog, p, env);
      if !h.Found? {
        r := Plain(if h.Miss? then h.rc else RcNew);
        return;
      }
      SettledIsLookup(old(table), table, prog, p, env, h);
      r, released := Settle(KeyOf(p.tuple), h, prog, p, env);
    }

    /** The first half: hit or miss, and for a hit the kind of entry and the leg. */
    method Find(prog: Prog, p: Packet, env: Env) returns (h: Hit, released: seq<LimitKey>)
      requires WellLinked(table)
      modifies this
      ensures h == Classify(old(table), prog, p, env.linuxEstablished)
      ensures h.Miss? ==> table == old(table)
      ensures h.Dangling? ==> table == old(table) - {KeyOf(p.tuple)}
      ensures h.Recycle? ==> table == old(table) - {KeyOf(p.tuple), h.tracking}
      ensures h.Found? ==> var t1 := old(table)[KeyOf(p.tuple) := old(table)[KeyOf(p.tuple)].Stamped(env.now)];
                           table == t1[h.tracking := t1[h.tracking].Stamped(env.now)]
      ensures released == if h.Recycle? then Release(old(table)[h.tracking]).1 else []
    {
      released := [];
      var k := KeyOf(p.tuple);
      if k !in table {
        if p.Syn() { h := Miss(RcNew); return; }
        if prog.FromHost() && p.tcp.HasTcp? {
          h := Miss(if env.linuxEstablished then RcEstablished else RcMidFlowMiss);
          return;
        }
        h := Miss(if prog.ToHost() && p.tcp.HasTcp? then RcMidFlowMiss else RcNew);
        return;
      }

      // The entry under the packet's own key is stamped whatever happens next.
      table := table[k := table[k].Stamped(env.now)];
      if table[k].Fwd? {
        var tk := table[k].revKey;
        if tk !in table {
          table := table - {k};
          h := Dangling;
          return;
        }
        if Recycled(p, table[tk]) {
          released := Release(table[tk]).1;
          table := table - {k} - {tk};
          h := Recycle(tk);
          return;
        }
        table := table[tk := table[tk].Stamped(env.now)];
        var e := table[tk];
        var fromA := Ba !in e.flags;
        var post := TupleOf(tk, fromA);
        var xlate := Nat(post.dst, post.dport, post.src, post.sport);
        if table[k].natSport != 0 { xlate := xlate.(sport := table[k].natSport); }
        var rc := if prog.ToHost() then RcDnat else RcEstablished;
        if p.tuple.proto == ICMP { rc, xlate := RcDnat, xlate.(ip := e.origIp); }
        h := Found(tk, fromA, rc, e.BothApproved(), xlate);
      } else {
        h := FindTracking(k, table[k], prog, p);
        if h.Recycle? {
          released := Release(table[k]).1;
          table := table - {k};
        }
      }
    }

    /** A hit on a tracking entry e under the packet's own key. */
    method FindTracking(k: Key, e: Entry, prog: Prog, p: Packet) returns (h: Hit)
      requires e.Track?
      ensures h == ClassifyTracking(k, e, prog, p)
    {
      var fromA := Sltd(p.tuple);
      if e.kind == NatRev {
        if p.tuple.proto == ICMP {
          return Found(k, fromA, RcSnat, false, OrigNat(e));
        }
        if prog.FromHost() && Opener in e.LegFrom(!fromA).flags {
          h := Found(k, fromA, RcSnat, false, OrigNat(e));
        } else {
          h := Found(k, fromA, RcEstablished, false, NO_NAT);
        }
        if e.BothApproved() { h := h.(confirmed := true); }
      } else if Recycled(p, e) {
        h := Recycle(k);
      } else if e.BothApproved() {
        h := Found(k, fromA, RcBypass, true, NO_NAT);
      } else {
        h := Found(k, fromA, RcEstablished, false, NO_NAT);
      }
    }

    /** The second half: the approval check, then TCP state, interface and counts on the
        tracking entry. h is what the first half found. */
    method Settle(k: Key, h: Hit, prog: Prog, p: Packet, env: Env) returns (r: Result, released: seq<LimitKey>)
      requires h.Found? && k in table && h.tracking in table && table[h.tracking].Track?
      requires table[h.tracking].lastSeen == env.now
      modifies this
      ensures var e := old(table)[h.tracking];
              var booked := Booked(e, h.fromA, p, env.now, old(table)[k].Fwd?);
              && table == old(table)[h.tracking := Accounted(booked.0, h.fromA, prog, p, env, e.flags)]
              && r == FoundResult(e, booked.0, h, prog, p, env)
              && released == booked.1
    {
      var rc, confirmed, flags := h.rc, h.confirmed, table[h.tracking].flags;
      if !OwnLegApproved(table[h.tracking], h.fromA, prog) {
        rc, confirmed := if p.tcp.HasTcp? && !p.Syn() then RcInvalid else RcNew, false;
      }
      released := Book(k, h, p, env);
      r := Account(h, rc, confirmed, flags, prog, p, env);
    }

    /** The TCP flags of the packet, on a tracking entry that is stamped already. */
    method Book(k: Key, h: Hit, p: Packet, env: Env) returns (released: seq<LimitKey>)
      requires h.Found? && k in table && h.tracking in table && table[h.tracking].Track?
      requires table[h.tracking].lastSeen == env.now
      modifies this
      ensures var booked := Booked(old(table)[h.tracking], h.fromA, p, env.now, old(table)[k].Fwd?);
              table == old(table)[h.tracking := booked.0] && released == booked.1
    {
      released := [];
      BookedNow(table[h.tracking], h.fromA, p, env.now, table[k].Fwd?);
      if p.tcp.HasTcp? {
        var after := AfterTcp(table[h.tracking], h.fromA, p.tcp.h, env.now, table[k].Fwd?);
        table, released := table[h.tracking := after.0], after.1;
      } else {
        assert table == table[h.tracking := table[h.tracking]];
      }
    }

    method Account(h: Hit, rc: Rc, confirmed: bool, flags: set<EntryFlag>, prog: Prog, p: Packet, env: Env)
      returns (r: Result)
      requires h.Found? && h.tracking in table && table[h.tracking].Track?
      modifies this
      ensures var b := old(table)[h.tracking];
              var s2d, d2s := b.LegFrom(h.fromA), b.LegFrom(!h.fromA);
              && table == old(table)[h.tracking := Accounted(b, h.fromA, prog, p, env, flags)]
              && r == Result(rc, confirmed, RpfFailed(s2d, d2s, prog, p.ifindex, env.rpf), p.Syn(),
                             prog.ToHost() && Workload in d2s.flags, h.xlate, flags,
                             if prog.ToHost() then d2s.ifindex else INVALID_IFINDEX)
    {
      var e := table[h.tracking];
      var s2d, d2s := e.LegFrom(h.fromA), e.LegFrom(!h.fromA);
      var rpfFailed := RpfFailed(s2d, d2s, prog, p.ifindex, env.rpf);
      s2d := AfterRpf(s2d, d2s, prog, p.ifindex, env.rpf);
      var ifindexFwd, toWorkload := INVALID_IFINDEX, false;
      if prog.ToHost() {
        ifindexFwd, toWorkload := d2s.ifindex, Workload in d2s.flags;
      }
      if Counted(p, env, flags) { s2d := Count(s2d, p.len); }
      table := table[h.tracking := e.WithLegs(h.fromA, s2d, d2s)];
      r := Result(rc, confirmed, rpfFailed, p.Syn(), toWorkload, h.xlate, flags, ifindexFwd);
    }

    /** calico_ct_v4_create_tracking. failed is a negative return; tuple is the flow as it is
        tracked, with the source port that was found free. */
    method CreateTracking(prog: Prog, c: Flow, p: Packet, env: CreateEnv) returns (failed: bool, tuple: Tuple)
      requires p.seen && KeyOf(c.tuple) in table ==> table[KeyOf(c.tuple)].Track?
      requires |env.ports| == PSNAT_RETRIES
      modifies this
      ensures Created(table, failed, tuple) == Tracking(old(table), prog, c, p, env)
    {
      failed, tuple := false, c.tuple;
      var k := KeyOf(tuple);
      if p.seen {
        if k in table {
          table := table[k := ApproveSeen(table[k], Sltd(tuple), prog, p)];
          return;
        }
        if env.allowSource { return; }
      }

      var e := NewEntry(prog, c, p, env.now);
      if k !in table {
        table := table[k := e];
        return;
      }
      failed := true;
      if prog.Hep() {
        e := e.(origSport := c.tuple.sport);
        // The order of the key is fixed by the addresses unless they are equal.
        var sltd := c.tuple.src < c.tuple.dst;
        var i := 0;
        while i < PSNAT_RETRIES
          invariant 0 <= i <= PSNAT_RETRIES
          invariant table == old(table) && failed && tuple == c.tuple
          invariant c.tuple.src != c.tuple.dst ==> sltd == (c.tuple.src < c.tuple.dst)
          invariant forall j | 0 <= j < i :: KeyOf(WithPort(c.tuple, env.ports[j])) in table
        {
          var sport := env.ports[i];
          if c.tuple.src == c.tuple.dst {
            sltd := sport < c.tuple.dport;
          }
          k := FillKey(sltd, c.tuple.proto, c.tuple.src, c.tuple.dst, sport, c.tuple.dport);
          assert k == KeyOf(WithPort(c.tuple, sport));
          if k !in table {
            assert i == FirstFree(table, c.tuple, env.ports);
            table := table[k := e];
            failed, tuple := false, WithPort(c.tuple, sport);
            return;
          }
          i := i + 1;
        }
      }
    }

    /** conntrack_create. */
    method CtCreate(prog: Prog, c: Flow, p: Packet, env: CreateEnv, suppress: bool)
      returns (failed: bool, tuple: Tuple)
      requires p.seen && KeyOf(c.tuple) in table ==> table[KeyOf(c.tuple)].Track?
      requires |env.ports| == PSNAT_RETRIES
      modifies this
      ensures Created(table, failed, tuple) == Create(old(table), prog, c, p, env, suppress)
    {
      failed, tuple := false, c.tuple;
      if suppress { return; }
      failed, tuple := CreateTracking(prog, c, p, env);
      if !failed && c.kind == NatRev {
        var sport := c.orig.sport;
        if prog.ToHep? && sport != tuple.sport && !p.seen { sport := 0; }
        var k := KeyOf(c.orig.(sport := sport));
        var natSport := if c.orig.sport != tuple.sport then tuple.sport else 0;
        table := table[k := Fwd(env.now, KeyOf(tuple), natSport)];
      }
    }
  }
}
