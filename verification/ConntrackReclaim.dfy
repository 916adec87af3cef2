/** Which entries a pass of the cleanup program removes, and what it gives back
    (felix/bpf-gpl/conntrack_cleanup.c:35-103). */
module ConntrackReclaim {
  import opened ConntrackTypes
  import opened ConntrackLookup
  import opened ConntrackBooks
  import opened ConntrackCleanup

  /** The entry names the reverse key: as a forward entry, or as a leg that reads as it. */
  ghost predicate Names(e: Entry, rk: Key) {
    if e.Fwd? then e.revKey == rk else ConntrackCleanup.ReadsAs(e.ab, rk)
  }

  lemma NamesExactly(e: Entry, rk: Key)
    ensures Names(e, rk) <==> NamedKey(e) == rk
  {
    if e.Track? { LegAsKeyExactly(e.ab, rk); }
  }

  /** At its turn the n-th item finds its pair idle: the reverse entry is there and has not moved, and
      the forward entry still names it, or is gone. */
  ghost predicate PairIdle(t: Table, q: Queue, order: seq<Key>, n: nat)
    requires From(order, q)
  {
    && n < |order| && q[order[n]].Pair?
    && var k, rk := order[n], q[order[n]].revKey;
       && Present(t, q, order, n, rk) && t[rk].lastSeen == q[k].revLastSeen
       && (Present(t, q, order, n, k) ==> Names(t[k], rk))
  }

  /** The n-th item noted the entry by itself, with the stamp it still has. */
  ghost predicate SingleIdle(t: Table, q: Queue, order: seq<Key>, n: nat)
    requires From(order, q)
  {
    n < |order| && order[n] in t && q[order[n]] == Single(t[order[n]].lastSeen)
  }

  /** The n-th item is about the entry and finds it idle. */
  ghost predicate Takes(t: Table, q: Queue, order: seq<Key>, n: nat, x: Key)
    requires From(order, q)
  {
    || (SingleIdle(t, q, order, n) && x == order[n])
    || (PairIdle(t, q, order, n) && (x == order[n] || x == q[order[n]].revKey))
  }

  /** Taking an item less changes nothing about the items before it. */
  lemma FrontAgrees(t: Table, q: Queue, order: seq<Key>, n: nat, x: Key)
    requires From(order, q) && n + 1 < |order|
    ensures From(order[..|order| - 1], q)
    ensures Takes(t, q, order[..|order| - 1], n, x) <==> Takes(t, q, order, n, x)
  {
    var front := order[..|order| - 1];
    assert forall k :: k in front ==> k in order;
    assert front[n] == order[n] && front[..n] == order[..n];
  }

  /** The last item takes what it removes. */
  lemma LastTakes(t: Table, q: Queue, order: seq<Key>, x: Key)
    requires From(order, q) && order != [] && x in t && Present(t, q, order, |order| - 1, x)
    ensures x !in Swept(t, q, order) <==> Takes(t, q, order, |order| - 1, x)
  {
    var k := order[|order| - 1];
    var t1 := Swept(t, q, order[..|order| - 1]);
    if q[k].Pair? && k in t1 { NamesExactly(t[k], q[k].revKey); }
  }

  /** Whatever the table, the queue and its order, a pass removes an entry exactly if some item is
      about it and finds it idle. */
  lemma {:induction false} RemovedExactly(t: Table, q: Queue, order: seq<Key>, x: Key)
    requires From(order, q) && x in t
    ensures x !in Swept(t, q, order) <==> exists n: nat :: n < |order| && Takes(t, q, order, n, x)
  {
    if order != [] {
      var front := order[..|order| - 1];
      assert forall k :: k in front ==> k in order;
      RemovedExactly(t, q, front, x);
      forall n: nat | n < |front|
        ensures Takes(t, q, front, n, x) <==> Takes(t, q, order, n, x)
      {
        FrontAgrees(t, q, order, n, x);
      }
      if x in Swept(t, q, front) {
        LastTakes(t, q, order, x);
      }
    }
  }

  /** An entry that was noted by itself and has not moved does not outlive the pass. */
  lemma IdleEntryGoes(t: Table, q: Queue, order: seq<Key>, x: Key)
    requires Permutes(order, q) && x in t && x in q && q[x] == Single(t[x].lastSeen)
    ensures x !in Swept(t, q, order)
  {
    var n: nat :| n < |order| && order[n] == x;
    assert Takes(t, q, order, n, x);
    RemovedExactly(t, q, order, x);
  }

  /** Nor does either half of a noted pair that is idle when its item is reached. */
  lemma IdlePairGoes(t: Table, q: Queue, order: seq<Key>, n: nat)
    requires Permutes(order, q) && PairIdle(t, q, order, n)
    ensures order[n] !in Swept(t, q, order) && q[order[n]].revKey !in Swept(t, q, order)
  {
    var k, rk := order[n], q[order[n]].revKey;
    assert Takes(t, q, order, n, k) && Takes(t, q, order, n, rk);
    RemovedExactly(t, q, order, rk);
    if k in t { RemovedExactly(t, q, order, k); }
  }

  /** No other item is about the entry. */
  ghost predicate OnlyItem(q: Queue, k: Key, x: Key) {
    && (x in q ==> x == k)
    && forall k' :: k' in q && k' != k && q[k'].Pair? ==> q[k'].revKey != x
  }

  /** A pair that only its own item is about goes exactly if its reverse entry has not moved and its
      forward entry still names it, or is gone: in every order, and both halves together. */
  lemma PairGoesExactly(t: Table, q: Queue, order: seq<Key>, k: Key, rk: Key)
    requires Permutes(order, q) && k in q && q[k].Pair? && q[k].revKey == rk != k && rk in t
    requires OnlyItem(q, k, k) && OnlyItem(q, k, rk)
    ensures var idle := t[rk].lastSeen == q[k].revLastSeen && (k in t ==> Names(t[k], rk));
            (rk !in Swept(t, q, order) <==> idle) && (k in t ==> (k !in Swept(t, q, order) <==> idle))
  {
    var n: nat :| n < |order| && order[n] == k;
    UntouchedBefore(t, q, order, n, k, rk);
    if k in t { UntouchedBefore(t, q, order, n, k, k); }
    TakenOnlyBy(t, q, order, n, rk);
    if k in t { TakenOnlyBy(t, q, order, n, k); }
  }

  lemma UntouchedBefore(t: Table, q: Queue, order: seq<Key>, n: nat, k: Key, x: Key)
    requires Permutes(order, q) && n < |order| && order[n] == k && x in t && OnlyItem(q, k, x)
    ensures Present(t, q, order, n, x)
  {
    var front := order[..n];
    assert forall y :: y in front ==> y in order;
    RemovedExactly(t, q, front, x);
    forall m: nat | m < n
      ensures !Takes(t, q, front, m, x)
    {
      assert front[m] == order[m] != order[n] && order[m] in order;
    }
  }

  lemma TakenOnlyBy(t: Table, q: Queue, order: seq<Key>, n: nat, x: Key)
    requires Permutes(order, q) && n < |order| && x in t && OnlyItem(q, order[n], x)
    ensures x !in Swept(t, q, order) <==> Takes(t, q, order, n, x)
  {
    RemovedExactly(t, q, order, x);
    forall m: nat | m < |order| && m != n
      ensures !Takes(t, q, order, m, x)
    {
      assert order[m] != order[n] && order[m] in order;
    }
  }

  // ---------- What is given back ----------

  /** The entry goes at the n-th item as the other half of its pair. */
  ghost predicate GoesAlong(t: Table, q: Queue, order: seq<Key>, n: nat, x: Key)
    requires From(order, q)
  {
    n < |order| && order[n] == x && PairIdle(t, q, order, n) && q[x].revKey != x && Present(t, q, order, n, x)
  }

  ghost predicate GoesAlongEver(t: Table, q: Queue, order: seq<Key>, x: Key)
    requires From(order, q)
  {
    exists n: nat :: GoesAlong(t, q, order, n, x)
  }

  /** The removed entries whose slots of this counter are given back: every tracking entry that holds
      one, but those that were taken for the forward half of a pair. */
  ghost function Givers(t: Table, q: Queue, order: seq<Key>, limit: LimitKey): set<Key>
    requires From(order, q)
  {
    set x | x in t && x !in Swept(t, q, order) && t[x].Track? && !GoesAlongEver(t, q, order, x) &&
            ConnDec !in t[x].flags && ConntrackBooks.Holds(t[x], limit)
  }

  ghost predicate Gives(e: Entry, limit: LimitKey) {
    e.Track? && ConnDec !in e.flags && ConntrackBooks.Holds(e, limit)
  }

  lemma GivesExactly(e: Entry, limit: LimitKey)
    ensures multiset(ReleaseAny(e))[limit] == if Gives(e, limit) then 1 else 0
  {
    if e.Track? { ReleaseExactly(e, limit); }
  }

  /** The entry that the last item gives back the slots of. */
  ghost function Target(q: Queue, k: Key): Key
    requires k in q
  {
    if q[k].Pair? then q[k].revKey else k
  }

  lemma {:induction false} AlongInFront(t: Table, q: Queue, order: seq<Key>, x: Key)
    requires From(order, q) && order != [] && From(order[..|order| - 1], q)
    ensures GoesAlongEver(t, q, order, x) <==>
            GoesAlongEver(t, q, order[..|order| - 1], x) || GoesAlong(t, q, order, |order| - 1, x)
  {
    var front := order[..|order| - 1];
    forall n: nat | n + 1 < |order|
      ensures GoesAlong(t, q, front, n, x) <==> GoesAlong(t, q, order, n, x)
    {
      FrontAgrees(t, q, order, n, x);
      assert front[n] == order[n] && front[..n] == order[..n];
    }
  }

  /** One item adds at most its target to the givers. */
  lemma GiversStep(t: Table, q: Queue, order: seq<Key>, limit: LimitKey)
    requires From(order, q) && order != [] && From(order[..|order| - 1], q)
    ensures var front, x := order[..|order| - 1], Target(q, order[|order| - 1]);
            |Givers(t, q, order, limit)| == |Givers(t, q, front, limit)| +
            if x in Swept(t, q, front) && x !in Swept(t, q, order) && Gives(t[x], limit) then 1 else 0
  {
    var front, k := order[..|order| - 1], order[|order| - 1];
    var x := Target(q, k);
    forall y | y in t
      ensures y in Givers(t, q, order, limit) <==>
              || y in Givers(t, q, front, limit)
              || (y == x && y in Swept(t, q, front) && y !in Swept(t, q, order) && Gives(t[y], limit))
    {
      AlongInFront(t, q, order, y);
      if y in Swept(t, q, front) {
        LastTakes(t, q, order, y);
        NotAlongWhilePresent(t, q, front, y);
      }
    }
    var one := x in Swept(t, q, front) && x !in Swept(t, q, order) && Gives(t[x], limit);
    assert Givers(t, q, order, limit) == Givers(t, q, front, limit) + if one then {x} else {};
    OneMoreGiver(Givers(t, q, front, limit), x, one);
  }

  lemma OneMoreGiver(givers: set<Key>, x: Key, one: bool)
    requires one ==> x !in givers
    ensures |givers + if one then {x} else {}| == |givers| + if one then 1 else 0
  {
    if !one { assert givers + {} == givers; }
  }

  lemma NotAlongWhilePresent(t: Table, q: Queue, order: seq<Key>, x: Key)
    requires From(order, q) && x in t && x in Swept(t, q, order)
    ensures !GoesAlongEver(t, q, order, x)
  {
    RemovedExactly(t, q, order, x);
    assert forall n: nat :: GoesAlong(t, q, order, n, x) ==> Takes(t, q, order, n, x);
  }

  /** An item gives back the slots of its target exactly if it removes it. */
  lemma GivenBackCount(t: Table, q: Queue, k: Key, limit: LimitKey)
    requires k in q
    ensures var x := Target(q, k);
            multiset(GivenBack(t, k, q[k]))[limit] ==
            if x in t && x !in t - Doomed(t, k, q[k]) && Gives(t[x], limit) then 1 else 0
  {
    var x := Target(q, k);
    if x in t { GivesExactly(t[x], limit); }
  }

  lemma CountBoth(a: seq<LimitKey>, b: seq<LimitKey>, limit: LimitKey)
    ensures multiset(a + b)[limit] == multiset(a)[limit] + multiset(b)[limit]
  {
  }

  lemma ReturnedStep(t: Table, q: Queue, order: seq<Key>, limit: LimitKey)
    requires From(order, q) && order != [] && From(order[..|order| - 1], q)
    ensures var front, x := order[..|order| - 1], Target(q, order[|order| - 1]);
            multiset(Returned(t, q, order))[limit] == multiset(Returned(t, q, front))[limit] +
            if x in Swept(t, q, front) && x !in Swept(t, q, order) && Gives(t[x], limit) then 1 else 0
  {
    var front, k := order[..|order| - 1], order[|order| - 1];
    GivenBackCount(Swept(t, q, front), q, k, limit);
    CountBoth(Returned(t, q, front), GivenBack(Swept(t, q, front), k, q[k]), limit);
  }

  /** A pass gives back, of every counter, one slot for each entry it removes that holds one, and
      nothing else. Only a tracking entry that was mistaken for a forward entry keeps its slots. */
  lemma {:induction false} ReturnedExactly(t: Table, q: Queue, order: seq<Key>, limit: LimitKey)
    requires From(order, q)
    ensures multiset(Returned(t, q, order))[limit] == |Givers(t, q, order, limit)|
  {
    if order == [] {
      assert Givers(t, q, order, limit) == {};
    } else {
      var front := order[..|order| - 1];
      assert forall y :: y in front ==> y in order;
      ReturnedExactly(t, q, front, limit);
      GiversStep(t, q, order, limit);
      ReturnedStep(t, q, order, limit);
    }
  }

  lemma AlongIsMistaken(t: Table, q: Queue, order: seq<Key>, x: Key)
    requires From(order, q) && x in t && t[x].Track? && GoesAlongEver(t, q, order, x)
    ensures Mistaken(t, q, x)
  {
  }
}
