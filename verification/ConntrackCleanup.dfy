/** The cleanup program: one pass over the queue of entries that userspace saw as expired
    (felix/bpf-gpl/conntrack_cleanup.c:35-79), by itself and with packets in between. */
module ConntrackCleanup {
  import opened ConntrackTypes
  import opened ConntrackLookup
  import opened ConntrackCreate
  import opened ConntrackRuns
  import ConntrackBooks

  /** What userspace noted about an entry: a forward entry carries the reverse key it named. */
  datatype Item =
    | Single(lastSeen: U64)
    | Pair(revKey: Key, revLastSeen: U64)

  type Queue = map<Key, Item>

  // ---------- A leg read as a key ----------

  /** A 16-bit word with its bytes exchanged. */
  function Swap16(x: Port): (y: Port)
    ensures x == (y % 256) * 256 + y / 256
  {
    (x % 256) * 256 + x / 256
  }

  /** A tracking entry keeps its A-to-B leg where a forward entry keeps its reverse key: the byte
      count lies under the protocol and the first address, the packet count under the second
      address, and the sequence number, in network order, under the ports
      (felix/bpf-gpl/conntrack_types.h:15-20, 72-84 and 126-143; IPv4, little-endian). */
  function LegAsKey(leg: Leg): Key {
    Key(leg.bytes % 0x1_0000_0000, leg.bytes / 0x1_0000_0000, leg.packets,
        Swap16(leg.seqno / 0x1_0000), Swap16(leg.seqno % 0x1_0000))
  }

  /** What a leg must have carried to read as a given key. */
  ghost predicate ReadsAs(leg: Leg, k: Key) {
    && leg.bytes == k.addrA * 0x1_0000_0000 + k.proto && leg.packets == k.addrB
    && leg.seqno == Swap16(k.portA) * 0x1_0000 + Swap16(k.portB)
  }

  lemma LegAsKeyExactly(leg: Leg, k: Key)
    ensures LegAsKey(leg) == k <==> ReadsAs(leg, k)
  {
    Halves32(leg.bytes, k.addrA, k.proto);
    Halves16(leg.seqno, Swap16(k.portA), Swap16(k.portB));
    SwapTwice(leg.seqno / 0x1_0000, k.portA);
    SwapTwice(leg.seqno % 0x1_0000, k.portB);
  }

  lemma Halves32(x: U64, high: U32, low: U32)
    ensures x == high * 0x1_0000_0000 + low <==> x / 0x1_0000_0000 == high && x % 0x1_0000_0000 == low
  {
  }

  lemma Halves16(x: U32, high: Port, low: Port)
    ensures x == high * 0x1_0000 + low <==> x / 0x1_0000 == high && x % 0x1_0000 == low
  {
  }

  lemma SwapTwice(x: Port, y: Port)
    ensures Swap16(x) == y <==> x == Swap16(y)
  {
  }

  /** Below four gigabytes a leg reads as no key with an address. */
  lemma ShortLegReadsAsNoKey(leg: Leg, k: Key)
    requires leg.bytes < 0x1_0000_0000 && k.addrA != 0
    ensures !ReadsAs(leg, k)
  {
  }

  /** The bytes at the place of a forward entry's reverse key. */
  function NamedKey(e: Entry): Key {
    if e.Fwd? then e.revKey else LegAsKey(e.ab)
  }

  // ---------- One item ----------

  /** The keys that processing one item removes. */
  function Doomed(t: Table, k: Key, item: Item): set<Key> {
    match item
    case Single(seen) => if k in t && t[k].lastSeen == seen then {k} else {}
    case Pair(rk, seen) =>
      if (k in t ==> NamedKey(t[k]) == rk) && rk in t && t[rk].lastSeen == seen then {rk} + ({k} * t.Keys)
      else {}
  }

  function ReleaseAny(e: Entry): seq<LimitKey> {
    if e.Fwd? then [] else Release(e).1
  }

  /** The counters given back: those of the single entry, or of the reverse entry of a pair. */
  function GivenBack(t: Table, k: Key, item: Item): seq<LimitKey> {
    var tracking := if item.Pair? then item.revKey else k;
    if tracking in Doomed(t, k, item) then ReleaseAny(t[tracking]) else []
  }

  // ---------- The program ----------

  class Cleaner {
    var table: Table
    var queue: Queue
    var numCleaned: nat
    ghost var released: seq<LimitKey>

    constructor (t: Table, q: Queue)
      ensures table == t && queue == q && numCleaned == 0 && released == []
    {
      table, queue, numCleaned, released := t, q, 0, [];
    }

    /** process_ccq_entry. */
    method Process(k: Key)
      requires k in queue
      modifies this
      ensures queue == old(queue) - {k}
      ensures table == old(table) - Doomed(old(table), k, old(queue)[k])
      ensures numCleaned == old(numCleaned) + |old(table)| - |table|
      ensures released == old(released) + GivenBack(old(table), k, old(queue)[k])
    {
      var item := queue[k];
      queue := queue - {k};
      if item.Single? {
        if k in table && table[k].lastSeen == item.lastSeen {
          released := released + ReleaseAny(table[k]);
          Delete(k);
        } else {
          assert table == table - {};
        }
      } else {
        ProcessPair(k, item);
      }
    }

    method ProcessPair(k: Key, item: Item)
      requires item.Pair?
      modifies this`table, this`numCleaned, this`released
      ensures table == old(table) - Doomed(old(table), k, item)
      ensures numCleaned == old(numCleaned) + |old(table)| - |table|
      ensures released == old(released) + GivenBack(old(table), k, item)
    {
      var rk := item.revKey;
      if k in table && NamedKey(table[k]) != rk {
        assert table == table - {};
        return;
      }
      if rk in table && table[rk].lastSeen == item.revLastSeen {
        released := released + ReleaseAny(table[rk]);
        Delete(rk);
        Delete(k);
        assert table == old(table) - ({rk} + ({k} * old(table).Keys));
      } else {
        assert table == table - {};
      }
    }

    /** A successful delete counts one cleaned entry. */
    method Delete(k: Key)
      modifies this`table, this`numCleaned
      ensures table == old(table) - {k}
      ensures numCleaned == old(numCleaned) + |old(table)| - |table|
    {
      if k in table {
        numCleaned := numCleaned + 1;
        assert table.Keys == {k} + (table - {k}).Keys;
      } else {
        assert table - {k} == table;
      }
      table := table - {k};
    }

    /** Where a pass over table t and queue q has got to, once the items of order are processed; n and r
        are what was counted and given back before. */
    ghost predicate Progress(t: Table, q: Queue, order: seq<Key>, n: nat, r: seq<LimitKey>)
      reads this
    {
      && Remaining(q, queue, order) && table == Swept(t, q, order)
      && numCleaned == n + |t| - |table| && released == r + Returned(t, q, order)
    }

    method ProcessNext(k: Key, ghost t: Table, ghost q: Queue, ghost order: seq<Key>, ghost n: nat,
                       ghost r: seq<LimitKey>)
      requires Progress(t, q, order, n, r) && k in queue
      modifies this
      ensures Progress(t, q, order + [k], n, r) && |queue| < |old(queue)|
    {
      RemainingStep(q, queue, order, k);
      SweptStep(t, q, order, k);
      OneFewer(queue, k);
      GivenInTurn(r, Returned(t, q, order), GivenBack(table, k, q[k]));
      Process(k);
    }

    /** The whole pass, in whatever order the map yields its items. */
    method Pass() returns (ghost order: seq<Key>)
      modifies this
      ensures Permutes(order, old(queue)) && queue == map[] && table == Swept(old(table), old(queue), order)
      ensures numCleaned == old(numCleaned) + |old(table)| - |table|
      ensures released == old(released) + Returned(old(table), old(queue), order)
    {
      order := [];
      while queue != map[]
        invariant Progress(old(table), old(queue), order, old(numCleaned), old(released))
        decreases |queue|
      {
        var k := Any(queue);
        ProcessNext(k, old(table), old(queue), order, old(numCleaned), old(released));
        order := order + [k];
      }
    }
  }

  method Any(q: Queue) returns (k: Key)
    requires q != map[]
    ensures k in q
  {
    assert q.Keys == {} ==> q == map[];
    k :| k in q.Keys;
  }

  // ---------- The whole pass ----------

  ghost predicate Permutes(order: seq<Key>, q: Queue) {
    && (forall k :: k in order <==> k in q)
    && (forall a, b :: 0 <= a < b < |order| ==> order[a] != order[b])
  }

  /** q' is what is left of q once the items of order have been processed. */
  ghost predicate Remaining(q: Queue, q': Queue, order: seq<Key>) {
    && (forall k :: k in order ==> k in q && k !in q')
    && (forall k :: k in q && k !in order ==> k in q')
    && (forall k :: k in q' ==> k in q && q'[k] == q[k])
    && (forall a, b :: 0 <= a < b < |order| ==> order[a] != order[b])
  }

  ghost predicate From(order: seq<Key>, q: Queue) {
    forall k :: k in order ==> k in q
  }

  ghost function Swept(t: Table, q: Queue, order: seq<Key>): (t': Table)
    requires From(order, q)
    ensures t'.Keys <= t.Keys && forall k :: k in t' ==> t'[k] == t[k]
  {
    if order == [] then t
    else
      var k := order[|order| - 1];
      var t1 := Swept(t, q, order[..|order| - 1]);
      t1 - Doomed(t1, k, q[k])
  }

  /** The counters given back along the way. */
  ghost function Returned(t: Table, q: Queue, order: seq<Key>): seq<LimitKey>
    requires From(order, q)
  {
    if order == [] then []
    else
      var front, k := order[..|order| - 1], order[|order| - 1];
      Returned(t, q, front) + GivenBack(Swept(t, q, front), k, q[k])
  }

  lemma GivenInTurn(before: seq<LimitKey>, sofar: seq<LimitKey>, more: seq<LimitKey>)
    ensures before + sofar + more == before + (sofar + more)
  {
  }

  lemma OneFewer(q: Queue, k: Key)
    requires k in q
    ensures |q - {k}| < |q|
  {
    assert q.Keys == {k} + (q - {k}).Keys;
  }

  lemma RemainingStep(q: Queue, q': Queue, order: seq<Key>, k: Key)
    requires Remaining(q, q', order) && k in q'
    ensures Remaining(q, q' - {k}, order + [k])
  {
  }

  lemma SweptStep(t: Table, q: Queue, order: seq<Key>, k: Key)
    requires From(order + [k], q)
    ensures From(order, q)
    ensures var t1 := Swept(t, q, order);
            && Swept(t, q, order + [k]) == t1 - Doomed(t1, k, q[k])
            && Returned(t, q, order + [k]) == Returned(t, q, order) + GivenBack(t1, k, q[k])
  {
    assert forall k' :: k' in order ==> k' in order + [k];
    assert (order + [k])[..|order|] == order;
  }

  /** Userspace noted that an entry under this key was last seen at this time. */
  ghost predicate Noted(q: Queue, x: Key, seen: U64) {
    (x in q && q[x] == Single(seen)) || exists k :: k in q && q[k] == Pair(x, seen)
  }

  /** Whatever the queue and its order: a pass removes an entry only if its stamp is one that
      userspace noted for it, so that it has not moved since, or together with the reverse entry
      that its bytes name, whose stamp has not moved. */
  lemma {:induction false} PassRemovesOnlyIdle(t: Table, q: Queue, order: seq<Key>, x: Key)
    requires From(order, q) && x in t && x !in Swept(t, q, order)
    ensures || Noted(q, x, t[x].lastSeen)
            || (&& x in q && q[x].Pair? && NamedKey(t[x]) == q[x].revKey && q[x].revKey in t
                && t[q[x].revKey].lastSeen == q[x].revLastSeen && q[x].revKey !in Swept(t, q, order))
  {
    var front, k := order[..|order| - 1], order[|order| - 1];
    var t1 := Swept(t, q, front);
    if x !in t1 { PassRemovesOnlyIdle(t, q, front, x); }
  }

  /** A forward entry that has moved goes only together with the reverse entry it names, and only
      if that has not moved. */
  lemma ForwardGoesWithReverse(t: Table, q: Queue, order: seq<Key>, x: Key)
    requires From(order, q) && x in t && t[x].Fwd? && x !in Swept(t, q, order) && !Noted(q, x, t[x].lastSeen)
    ensures t[x].revKey in t && t[x].revKey !in Swept(t, q, order) && Noted(q, t[x].revKey, t[t[x].revKey].lastSeen)
  {
    PassRemovesOnlyIdle(t, q, order, x);
  }

  /** The stamps of the snapshot are no later than its time. */
  ghost predicate TakenBy(q: Queue, time: U64) {
    forall k :: k in q ==> (match q[k] case Single(seen) => seen <= time case Pair(_, seen) => seen <= time)
  }

  /** The item at x would take the entry there for the forward entry it is about. */
  ghost predicate Mistaken(t: Table, q: Queue, x: Key) {
    x in t && t[x].Track? && x in q && q[x].Pair? && ReadsAs(t[x].ab, q[x].revKey)
  }

  /** When a pass removes a tracking entry that was used after the snapshot: exactly if its A-to-B
      leg has carried just what makes it read as the reverse key noted under its own key, and that
      key's idle entry is still there when the item's turn comes. */
  lemma {:induction false} UsedEntryLostExactly(t: Table, q: Queue, order: seq<Key>, time: U64, x: Key)
    requires From(order, q) && TakenBy(q, time) && x in t && t[x].Track? && t[x].lastSeen > time
    ensures x !in Swept(t, q, order) <==>
            Mistaken(t, q, x) && q[x].revKey in t && t[q[x].revKey].lastSeen == q[x].revLastSeen &&
            exists n :: 0 <= n < |order| && order[n] == x && Present(t, q, order, n, q[x].revKey)
  {
    if order != [] {
      var front, k := order[..|order| - 1], order[|order| - 1];
      var t1 := Swept(t, q, front);
      assert From(front, q);
      UsedEntryLostExactly(t, q, front, time, x);
      if x in q && q[x].Pair? { LegAsKeyExactly(t[x].ab, q[x].revKey); }
      forall n, y | 0 <= n < |front| ensures order[..n] == front[..n] && (Present(t, q, order, n, y) <==>
          Present(t, q, front, n, y)) {
        assert order[..n] == front[..n];
      }
      if x in t1 && k == x && x in Doomed(t1, k, q[k]) {
        assert Present(t, q, order, |order| - 1, q[x].revKey);
      }
    }
  }

  /** An entry is still there when item n of the order is reached. */
  ghost predicate Present(t: Table, q: Queue, order: seq<Key>, n: nat, y: Key)
    requires From(order, q) && n <= |order|
  {
    assert forall k :: k in order[..n] ==> k in order;
    y in Swept(t, q, order[..n])
  }

  // ---------- A pass with packets in between ----------

  /** One item of the queue, or a step of the data plane. */
  datatype Event = Clean(k: Key) | Data(step: Step)

  ghost predicate ValidEvent(t: Table, q: Queue, e: Event) {
    match e
    case Clean(k) => k in q
    case Data(step) => ValidStep(t, step)
  }

  ghost function AfterEvent(t: Table, q: Queue, e: Event): Table
    requires ValidEvent(t, q, e)
  {
    match e
    case Clean(k) => t - Doomed(t, k, q[k])
    case Data(step) => Next(t, step)
  }

  ghost predicate ValidEvents(t: Table, q: Queue, events: seq<Event>)
    decreases |events|
  {
    events != [] ==> ValidEvent(t, q, events[0]) && ValidEvents(AfterEvent(t, q, events[0]), q, events[1..])
  }

  ghost function AfterEvents(t: Table, q: Queue, events: seq<Event>): Table
    requires ValidEvents(t, q, events)
    decreases |events|
  {
    if events == [] then t else AfterEvents(AfterEvent(t, q, events[0]), q, events[1..])
  }

  /** The entry was used after the snapshot, and so was the reverse entry it names, if that is
      there. */
  ghost predicate Used(t: Table, x: Key, time: U64) {
    && x in t && t[x].lastSeen > time
    && (t[x].Fwd? && t[x].revKey in t ==> t[t[x].revKey].Track? && t[t[x].revKey].lastSeen > time)
  }

  /** The clock of the data plane has passed the snapshot, and the step neither drops the entry nor
      files another one over it. */
  ghost predicate Spares(t: Table, step: Step, x: Key, time: U64)
    requires ValidStep(t, step)
  {
    && x in Looked(t, step) && !Refiles(t, step, x)
    && (step.PacketIn? ==> step.i.env.now > time && step.i.cenv.now > time)
  }

  lemma LookedKeepsUsed(t: Table, step: Step, x: Key, time: U64)
    requires WellLinked(t) && Used(t, x, time) && x in Looked(t, step)
    requires step.PacketIn? ==> step.i.env.now > time
    ensures Used(Looked(t, step), x, time)
  {
    if step.PacketIn? {
      var i := step.i;
      LookupKeepsFlows(t, i.prog, i.p, i.env);
      var h := Classify(t, i.prog, i.p, i.env.linuxEstablished);
      if h.Found? { ConntrackBooks.StampOfBooked(t[h.tracking], h.fromA, i.p, i.env.now, t[KeyOf(i.p.tuple)].Fwd?); }
    }
  }

  lemma TrackingKeepsUsed(t: Table, i: Input, x: Key, time: U64)
    requires Creatable(t, i) && Used(t, x, time) && i.cenv.now > time
    ensures Used(Tracking(t, i.prog, NewFlow(i), i.p, i.cenv).table, x, time)
  {
  }

  lemma OpenKeepsUsed(t: Table, i: Input, suppress: bool, x: Key, time: U64)
    requires ValidInput(t, i) && Used(t, x, time) && i.cenv.now > time
    requires NewFlow(i).kind == NatRev ==> FiledUnder(t, i) != x
    ensures Used(Open(t, i, suppress).table, x, time)
  {
    TrackingKeepsUsed(t, i, x, time);
    assert t[x].Fwd? && NewFlow(i).kind == NatRev ==> FiledUnder(t, i) != t[x].revKey;
  }

  lemma IngressLimitKeepsUsed(t: Table, i: Input, r: Result, x: Key, time: U64)
    requires Used(t, x, time)
    ensures Used(AfterIngressLimit(t, i, r), x, time)
  {
  }

  lemma ActKeepsUsed(t: Table, r: Result, i: Input, x: Key, time: U64)
    requires WellLinked(t) && ValidInput(t, i) && Used(t, x, time) && i.cenv.now > time
    requires r.rc == RcNew && NewFlow(i).kind == NatRev ==> FiledUnder(t, i) != x
    ensures Used(Act(t, r, i).table, x, time)
  {
    IngressLimitKeepsUsed(t, i, r, x, time);
    if ChecksIngress(i, r) { IngressLimitKeepsValid(t, i, r); }
    var path := Dispatch(i, r);
    if path.Opens? && !OverIngress(i, r) && r.rc == RcNew {
      OpenKeepsUsed(AdmitIngress(t, i, r), i, path.suppress, x, time);
    }
  }

  lemma DataKeepsUsed(t: Table, step: Step, x: Key, time: U64)
    requires ValidStep(t, step) && Used(t, x, time) && Spares(t, step, x, time)
    ensures Used(Next(t, step), x, time)
  {
    LookedKeeps(t, step);
    LookedKeepsUsed(t, step, x, time);
    if step.PacketIn? { ActKeepsUsed(Looked(t, step), VerdictOf(t, step.i), step.i, x, time); }
  }

  lemma CleanKeepsUsed(t: Table, q: Queue, k: Key, x: Key, time: U64)
    requires k in q && TakenBy(q, time) && Used(t, x, time) && (k == x ==> !Mistaken(t, q, x))
    ensures Used(t - Doomed(t, k, q[k]), x, time)
  {
    if x in q && q[x].Pair? && t[x].Track? { LegAsKeyExactly(t[x].ab, q[x].revKey); }
  }

  /** Along the events the data plane spares the entry. */
  ghost predicate DataSpares(t: Table, q: Queue, events: seq<Event>, x: Key, time: U64)
    requires ValidEvents(t, q, events)
    decreases |events|
  {
    events != [] ==>
      && (events[0].Data? ==> Spares(t, events[0].step, x, time))
      && DataSpares(AfterEvent(t, q, events[0]), q, events[1..], x, time)
  }

  /** Whenever the item at the entry's own key is processed, it does not mistake the entry. */
  ghost predicate NeverMistaken(t: Table, q: Queue, events: seq<Event>, x: Key)
    requires ValidEvents(t, q, events)
    decreases |events|
  {
    events != [] ==>
      && (events[0] == Clean(x) ==> !Mistaken(t, q, x))
      && NeverMistaken(AfterEvent(t, q, events[0]), q, events[1..], x)
  }

  /** An entry, or a NAT pair, that was used after the snapshot outlives the cleanup, in whatever
      order the items are processed, whatever else the queue holds, and whatever packets go
      through the programs in between, as long as those spare it and its own item does not mistake
      it for the forward entry that was noted. */
  lemma {:induction false} UsedEntrySurvives(t: Table, q: Queue, events: seq<Event>, time: U64, x: Key)
    requires ValidEvents(t, q, events) && TakenBy(q, time) && Used(t, x, time)
    requires DataSpares(t, q, events, x, time) && NeverMistaken(t, q, events, x)
    ensures Used(AfterEvents(t, q, events), x, time)
    decreases |events|
  {
    if events != [] {
      match events[0] {
        case Clean(k) => CleanKeepsUsed(t, q, k, x, time);
        case Data(step) => DataKeepsUsed(t, step, x, time);
      }
      UsedEntrySurvives(AfterEvent(t, q, events[0]), q, events[1..], time, x);
    }
  }

  lemma OpenKeepsForward(t: Table, i: Input, suppress: bool, x: Key)
    requires Creatable(t, i) && x in t && t[x].Fwd?
    ensures x in Open(t, i, suppress).table && Open(t, i, suppress).table[x].Fwd?
  {
    assert Tracking(t, i.prog, NewFlow(i), i.p, i.cenv).table[x].Fwd?;
  }

  /** What the data plane leaves under a forward entry's key is a forward entry. */
  lemma DataKeepsForward(t: Table, step: Step, x: Key)
    requires ValidStep(t, step) && x in Looked(t, step) && t[x].Fwd?
    ensures x in Next(t, step) && Next(t, step)[x].Fwd?
  {
    LookedKeeps(t, step);
    var t' := Looked(t, step);
    assert t'[x].Track? ==> SameFlow(t[x], t'[x]);
    if step.PacketIn? {
      var i, r := step.i, VerdictOf(t, step.i);
      if ChecksIngress(i, r) { IngressLimitKeepsValid(t', i, r); }
      if Dispatch(i, r).Opens? && !OverIngress(i, r) {
        OpenKeepsForward(AdmitIngress(t', i, r), i, Dispatch(i, r).suppress, x);
      }
    }
  }

  /** A forward entry is never mistaken, so it survives whenever the data plane spares it. */
  lemma {:induction false} ForwardNeverMistaken(t: Table, q: Queue, events: seq<Event>, time: U64, x: Key)
    requires ValidEvents(t, q, events) && TakenBy(q, time) && Used(t, x, time) && t[x].Fwd?
    requires DataSpares(t, q, events, x, time)
    ensures NeverMistaken(t, q, events, x)
    decreases |events|
  {
    if events != [] {
      match events[0] {
        case Clean(k) => CleanKeepsUsed(t, q, k, x, time);
        case Data(step) =>
          DataKeepsUsed(t, step, x, time);
          DataKeepsForward(t, step, x);
      }
      ForwardNeverMistaken(AfterEvent(t, q, events[0]), q, events[1..], time, x);
    }
  }

  /** A request that hits a forward entry stamps both halves of its pair. */
  lemma HitPairIsUsed(t: Table, prog: Prog, p: Packet, env: Env, time: U64)
    requires WellLinked(t) && Classify(t, prog, p, env.linuxEstablished).Found? && t[KeyOf(p.tuple)].Fwd?
    requires env.now > time
    ensures var t' := Lookup(t, prog, p, env).0;
            Used(t', KeyOf(p.tuple), time) && Used(t', t[KeyOf(p.tuple)].revKey, time) && t'[KeyOf(p.tuple)].Fwd?
  {
    var kr := t[KeyOf(p.tuple)].revKey;
    ConntrackBooks.StampOfBooked(t[kr], Ba !in t[kr].flags, p, env.now, true);
    LookupKeepsFlows(t, prog, p, env);
  }

  /** So each half of the pair that the data plane spares outlives the cleanup of any snapshot taken
      before the hit: the forward half in every case, the reverse half unless its own key was noted
      for a pair that it reads as when that item is processed. */
  lemma HitPairOutlivesPass(t: Table, prog: Prog, p: Packet, env: Env, q: Queue, events: seq<Event>, time: U64)
    requires WellLinked(t) && Classify(t, prog, p, env.linuxEstablished).Found? && t[KeyOf(p.tuple)].Fwd?
    requires TakenBy(q, time) && env.now > time && ValidEvents(Lookup(t, prog, p, env).0, q, events)
    ensures var t', kf, kr := Lookup(t, prog, p, env).0, KeyOf(p.tuple), t[KeyOf(p.tuple)].revKey;
            var s := AfterEvents(t', q, events);
            && (DataSpares(t', q, events, kf, time) ==> kf in s)
            && (DataSpares(t', q, events, kr, time) && NeverMistaken(t', q, events, kr) ==> kr in s)
  {
    var t', kf, kr := Lookup(t, prog, p, env).0, KeyOf(p.tuple), t[KeyOf(p.tuple)].revKey;
    HitPairIsUsed(t, prog, p, env, time);
    if DataSpares(t', q, events, kf, time) {
      ForwardNeverMistaken(t', q, events, time, kf);
      UsedEntrySurvives(t', q, events, time, kf);
    }
    if DataSpares(t', q, events, kr, time) && NeverMistaken(t', q, events, kr) {
      UsedEntrySurvives(t', q, events, time, kr);
    }
  }

  // ---------- A used entry that is lost ----------

  /** A TCP flow past its handshake, with both ends' approval, as side A's program sees it. */
  ghost predicate Settled(e: Entry, ifindex: U32) {
    && e.Track? && e.kind == Normal && e.rstSeen == 0 && e.flags == {} && e.ab.ifindex == ifindex
    && e.ab.flags == {SynSeen, AckSeen, Approved, Opener, Workload} && e.ba.flags == {SynSeen, AckSeen, Approved}
  }

  ghost predicate PlainAck(p: Packet, k: Key) {
    && KeyOf(p.tuple) == k && Sltd(p.tuple) && !p.seen && p.tcp.HasTcp?
    && p.tcp.h.ack && !p.tcp.h.syn && !p.tcp.h.fin && !p.tcp.h.rst
  }

  /** The same packet n times. */
  ghost function Sent(t: Table, p: Packet, env: Env, n: nat): (t': Table)
    requires WellLinked(t)
    ensures WellLinked(t')
  {
    if n == 0 then t
    else
      var t1 := Sent(t, p, env, n - 1);
      LookupKeepsFlows(t1, FromWep, p, env);
      Lookup(t1, FromWep, p, env).0
  }

  /** The leg after n packets of a given length, while the counts do not wrap. */
  ghost function Carried(leg: Leg, n: nat, len: nat): Leg
    requires leg.packets + n < 0x1_0000_0000 && leg.bytes + n * len < 0x1_0000_0000_0000_0000
  {
    leg.(packets := leg.packets + n, bytes := leg.bytes + n * len)
  }

  lemma CarriedOneMore(leg: Leg, n: nat, len: U32)
    requires n > 0 && leg.packets + n < 0x1_0000_0000 && leg.bytes + n * len < 0x1_0000_0000_0000_0000
    ensures leg.bytes + (n - 1) * len < 0x1_0000_0000_0000_0000
    ensures Carried(leg, n, len) == Count(Carried(leg, n - 1, len), len)
  {
    assert n * len == (n - 1) * len + len;
  }

  /** Packets of a settled flow add to its counts and change nothing else. */
  lemma {:induction false} SentCounts(t: Table, k: Key, p: Packet, env: Env, n: nat)
    requires WellLinked(t) && k in t && Settled(t[k], p.ifindex) && PlainAck(p, k) && t[k].lastSeen == env.now
    requires t[k].ab.packets + n < 0x1_0000_0000 && t[k].ab.bytes + n * p.len < 0x1_0000_0000_0000_0000
    ensures Sent(t, p, env, n) == t[k := t[k].(ab := Carried(t[k].ab, n, p.len))]
  {
    var e := t[k];
    if n == 0 {
      assert t == t[k := e.(ab := Carried(e.ab, 0, p.len))];
    } else {
      CarriedOneMore(e.ab, n, p.len);
      SentCounts(t, k, p, env, n - 1);
      OneMoreSent(Sent(t, p, env, n - 1), k, p, env);
    }
  }

  lemma OneMoreSent(t: Table, k: Key, p: Packet, env: Env)
    requires WellLinked(t) && k in t && Settled(t[k], p.ifindex) && PlainAck(p, k) && t[k].lastSeen == env.now
    ensures Lookup(t, FromWep, p, env).0 == t[k := t[k].(ab := Count(t[k].ab, p.len))]
  {
    var e := t[k];
    assert Classify(t, FromWep, p, env.linuxEstablished).Found?;
    assert AfterTcp(e, true, p.tcp.h, env.now, false).0 == e;
  }

  const PACKETS: nat := 906_715_317

  /** It does happen. A connection from port 5000 of 10.1.0.0 opens with a SYN of 62 bytes, and its
      next packet, which ends the handshake, and 906715317 more have 1260 bytes. Its leg then reads
      as the key of a flow from the same port to port 40000 of 183.96.11.54. If its own key was that
      of a forward entry to that flow when userspace took its snapshot, the cleanup removes it,
      however recent its last packet. */
  lemma UsedEntryCanBeLost(k: Key, e: Entry, rev: Entry, p: Packet, env: Env, n: nat)
    requires n == PACKETS && k == Key(TCP, 266, 1290, 5000, 80) && PlainAck(p, k) && p.len == 1260
    requires Settled(e, p.ifindex) && e.lastSeen == env.now && rev.Track? && rev.lastSeen < env.now
    requires e.ab.bytes == 62 + 1260 && e.ab.packets == 2 && e.ab.seqno == 2_282_963_100
    ensures var rk := Key(TCP, 266, 906_715_319, 5000, 40000);
            var t, q := Sent(map[k := e, rk := rev], p, env, n), map[k := Pair(rk, rev.lastSeen)];
            k in t && t[k].lastSeen == env.now > rev.lastSeen && TakenBy(q, rev.lastSeen) && k !in Swept(t, q, [k])
  {
    var rk := Key(TCP, 266, 906_715_319, 5000, 40000);
    var t0 := map[k := e, rk := rev];
    SentCounts(t0, k, p, env, n);
    var leg := Carried(e.ab, n, p.len);
    LegAsKeyExactly(leg, rk);
    Lost(t0[k := e.(ab := leg)], k, rk, rev.lastSeen);
  }

  lemma Lost(t: Table, k: Key, rk: Key, seen: U64)
    requires k in t && t[k].Track? && LegAsKey(t[k].ab) == rk && rk in t && t[rk].lastSeen == seen
    ensures k !in Swept(t, map[k := Pair(rk, seen)], [k])
  {
    assert [k][..0] == [];
  }
}
