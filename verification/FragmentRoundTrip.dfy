/** Fragmenting a payload any way RFC 791 allows, delivering the fragments in any order, with
    repeats and other traffic in between, and reassembling it (felix/bpf-gpl/ip_v4_fragment.h:84-322). */
module FragmentRoundTrip {
  import opened Fragments

  /** How a payload was cut: fragment j is payload[cuts[j]..cuts[j + 1]]. */
  type Cuts = seq<nat>

  /** A split of a payload: no gaps, no overlaps, no empty fragment, all but the last fragment
      ending on an eight-byte boundary, and none longer than can be stored. */
  ghost predicate ValidSplit(payload: seq<Byte>, cuts: Cuts) {
    && |payload| < 0x1_0000
    && |cuts| >= 2 && cuts[0] == 0 && cuts[|cuts| - 1] == |payload|
    && (forall i, j :: 0 <= i < j < |cuts| ==> cuts[i] < cuts[j])
    && (forall j :: 0 <= j < |cuts| - 1 ==> cuts[j] % 8 == 0)
    && (forall i, j :: 0 <= i < |cuts| - 1 && j == i + 1 ==> cuts[j] - cuts[i] <= MAX_FRAG * MAX_PIECES)
  }

  ghost function FragmentAt(d: Datagram, payload: seq<Byte>, cuts: Cuts, j: nat): Fragment
    requires ValidSplit(payload, cuts) && j < |cuts| - 1
  {
    Fragment(d, cuts[j], j + 1 < |cuts| - 1, payload[cuts[j]..cuts[j + 1]])
  }

  /** Every fragment of the split is in arrived. */
  ghost predicate Full(cuts: Cuts, arrived: set<nat>) {
    forall j: nat :: j < |cuts| - 1 ==> j in arrived
  }

  // ---------- Chunks ----------

  /** A chunk of fragment j starts at offset o. */
  ghost predicate Starts(cuts: Cuts, j: nat, o: nat) {
    j < |cuts| - 1 && cuts[j] <= o < cuts[j + 1] && (o - cuts[j]) % MAX_FRAG == 0
  }

  ghost function EndOf(cuts: Cuts, j: nat, o: nat): nat
    requires j < |cuts| - 1
  {
    Min(o + MAX_FRAG, cuts[j + 1])
  }

  ghost function ChunkAt(payload: seq<Byte>, cuts: Cuts, j: nat, o: nat): Chunk
    requires ValidSplit(payload, cuts) && Starts(cuts, j, o)
  {
    assert cuts[j + 1] <= |payload|;
    Chunk(EndOf(cuts, j, o) < |payload|, payload[o..EndOf(cuts, j, o)])
  }

  function Pieces(len: nat): nat {
    (len + MAX_FRAG - 1) / MAX_FRAG
  }

  /** The number of chunks of the fragments from j on. */
  ghost function PiecesFrom(cuts: Cuts, j: nat): nat
    requires forall a, b :: 0 <= a < b < |cuts| ==> cuts[a] < cuts[b]
    decreases |cuts| - j
  {
    if j + 1 >= |cuts| then 0 else Pieces(cuts[j + 1] - cuts[j]) + PiecesFrom(cuts, j + 1)
  }

  /** The number of chunks from offset o of fragment j on. */
  ghost function PiecesLeft(payload: seq<Byte>, cuts: Cuts, j: nat, o: nat): nat
    requires ValidSplit(payload, cuts) && Starts(cuts, j, o)
  {
    Pieces(cuts[j + 1] - o) + PiecesFrom(cuts, j + 1)
  }

  /** Where one chunk ends short of the payload's end, the next one starts. */
  lemma NextStart(payload: seq<Byte>, cuts: Cuts, j: nat, o: nat) returns (j': nat)
    requires ValidSplit(payload, cuts) && Starts(cuts, j, o) && EndOf(cuts, j, o) < |payload|
    ensures Starts(cuts, j', EndOf(cuts, j, o)) && j <= j' <= j + 1
  {
    if o + MAX_FRAG < cuts[j + 1] {
      j' := j;
    } else {
      j' := j + 1;
      assert cuts[j + 1] != cuts[|cuts| - 1];
      assert cuts[j'] < cuts[j' + 1];
    }
  }

  lemma NextPieces(payload: seq<Byte>, cuts: Cuts, j: nat, o: nat, j': nat)
    requires ValidSplit(payload, cuts) && Starts(cuts, j, o) && EndOf(cuts, j, o) < |payload|
    requires Starts(cuts, j', EndOf(cuts, j, o)) && j <= j' <= j + 1
    ensures PiecesLeft(payload, cuts, j, o) == 1 + PiecesLeft(payload, cuts, j', EndOf(cuts, j, o))
  {
    if j' == j {
      assert EndOf(cuts, j, o) == o + MAX_FRAG;
    } else {
      assert cuts[j'] == EndOf(cuts, j, o);
    }
  }

  /** A chunk start belongs to one fragment only. */
  lemma StartsOnce(payload: seq<Byte>, cuts: Cuts, j: nat, j': nat, o: nat)
    requires ValidSplit(payload, cuts) && Starts(cuts, j, o) && Starts(cuts, j', o)
    ensures j == j'
  {
  }

  /** The next chunk start after o is at or after the end of o's chunk. */
  lemma NoStartInside(payload: seq<Byte>, cuts: Cuts, j: nat, o: nat, j': nat, x: nat)
    requires ValidSplit(payload, cuts) && Starts(cuts, j, o) && Starts(cuts, j', x) && o < x
    ensures EndOf(cuts, j, o) <= x
  {
    if j' == j {
      assert (x - o) % MAX_FRAG == 0;
    } else if j < j' {
      assert cuts[j + 1] <= cuts[j'];
    }
  }

  lemma StartAfter(payload: seq<Byte>, cuts: Cuts, j: nat, o: nat, i: nat, x: nat)
    requires ValidSplit(payload, cuts) && Starts(cuts, j, o) && Starts(cuts, i, x) && o < x
    ensures EndOf(cuts, j, o) <= x < |payload|
  {
    NoStartInside(payload, cuts, j, o, i, x);
    assert x < cuts[i + 1] <= cuts[|cuts| - 1];
  }

  // ---------- What the store holds ----------

  /** At the chunk starts of the split, the store holds exactly the chunks of the fragments
      in arrived. */
  ghost predicate HoldsChunks(m: Store, d: Datagram, payload: seq<Byte>, cuts: Cuts, arrived: set<nat>)
    requires ValidSplit(payload, cuts)
  {
    forall j, o :: Starts(cuts, j, o) ==>
      && (Key(d, o) in m <==> j in arrived)
      && (j in arrived ==> m[Key(d, o)] == ChunkAt(payload, cuts, j, o))
  }

  ghost predicate IsStart(cuts: Cuts, o: nat) {
    exists j :: Starts(cuts, j, o)
  }

  /** Of this datagram, the store holds exactly the chunks of the fragments in arrived. */
  ghost predicate Holds(m: Store, d: Datagram, payload: seq<Byte>, cuts: Cuts, arrived: set<nat>)
    requires ValidSplit(payload, cuts)
  {
    && HoldsChunks(m, d, payload, cuts, arrived)
    && (forall o :: Key(d, o) in m ==> IsStart(cuts, o))
  }

  /** The next chunk of the same fragment. */
  lemma SameFragment(cuts: Cuts, j: nat, o: nat)
    requires Starts(cuts, j, o)
    ensures Pieces(cuts[j + 1] - o) > 0
    ensures var e := EndOf(cuts, j, o);
            o < e && (e < cuts[j + 1] ==> Starts(cuts, j, e) && Pieces(cuts[j + 1] - e) == Pieces(cuts[j + 1] - o) - 1)
  {
  }

  /** Storing the rest of fragment j from chunk start o on begins with the chunk at o. */
  lemma StoredFirst(m: Store, d: Datagram, payload: seq<Byte>, cuts: Cuts, j: nat, o: nat, n: nat)
    requires ValidSplit(payload, cuts) && Starts(cuts, j, o) && n > 0
    ensures var e, more := EndOf(cuts, j, o), j + 1 < |cuts| - 1;
            Stored(m, d, o, payload[o..cuts[j + 1]], more, n) ==
            Stored(m[Key(d, o) := ChunkAt(payload, cuts, j, o)], d, e, payload[e..cuts[j + 1]], more, n - 1)
  {
    var data, more, e := payload[o..cuts[j + 1]], j + 1 < |cuts| - 1, EndOf(cuts, j, o);
    assert cuts[j + 1] == |payload| <==> !more;
    StoredStep(m, d, o, data, 0, more, n);
    assert data[0..] == data && data[0..e - o] == payload[o..e] && data[e - o..] == payload[e..cuts[j + 1]];
    assert e <= |payload| && Advance(o, e - o) == e;
  }

  /** Storing the rest of fragment j from chunk start o on touches its own chunks only. */
  lemma {:induction false} StoredLeaves(m: Store, d: Datagram, payload: seq<Byte>, cuts: Cuts, j: nat, o: nat,
                                        n: nat, k: Key)
    requires ValidSplit(payload, cuts) && Starts(cuts, j, o) && Pieces(cuts[j + 1] - o) <= n
    requires !(k.dgram == d && o <= k.offset && Starts(cuts, j, k.offset))
    ensures var m' := Stored(m, d, o, payload[o..cuts[j + 1]], j + 1 < |cuts| - 1, n);
            (k in m' <==> k in m) && (k in m ==> m'[k] == m[k])
    decreases n
  {
    var e := EndOf(cuts, j, o);
    SameFragment(cuts, j, o);
    StoredFirst(m, d, payload, cuts, j, o, n);
    if e < cuts[j + 1] {
      StoredLeaves(m[Key(d, o) := ChunkAt(payload, cuts, j, o)], d, payload, cuts, j, e, n - 1, k);
    }
  }

  /** And it writes each of them. */
  lemma {:induction false} StoredWrites(m: Store, d: Datagram, payload: seq<Byte>, cuts: Cuts, j: nat, o: nat,
                                        n: nat, x: nat)
    requires ValidSplit(payload, cuts) && Starts(cuts, j, o) && Pieces(cuts[j + 1] - o) <= n
    requires o <= x && Starts(cuts, j, x)
    ensures var m' := Stored(m, d, o, payload[o..cuts[j + 1]], j + 1 < |cuts| - 1, n);
            Key(d, x) in m' && m'[Key(d, x)] == ChunkAt(payload, cuts, j, x)
    decreases n
  {
    var e := EndOf(cuts, j, o);
    var m1 := m[Key(d, o) := ChunkAt(payload, cuts, j, o)];
    SameFragment(cuts, j, o);
    StoredFirst(m, d, payload, cuts, j, o, n);
    if o == x {
      if e < cuts[j + 1] { StoredLeaves(m1, d, payload, cuts, j, e, n - 1, Key(d, x)); }
    } else {
      NoStartInside(payload, cuts, j, o, j, x);
      StoredWrites(m1, d, payload, cuts, j, e, n - 1, x);
    }
  }

  /** A fragment, new or repeated, adds its chunks and disturbs no other datagram. */
  lemma SavingAdds(m: Store, d: Datagram, payload: seq<Byte>, cuts: Cuts, arrived: set<nat>, j: nat, n: nat)
    requires ValidSplit(payload, cuts) && j < |cuts| - 1 && Holds(m, d, payload, cuts, arrived) && n == MAX_PIECES
    ensures var f := FragmentAt(d, payload, cuts, j);
            var m' := Stored(m, d, f.offset, f.data, f.more, n);
            && Holds(m', d, payload, cuts, arrived + {j})
            && (forall k: Key :: k.dgram != d ==> (k in m' <==> k in m) && (k in m ==> m'[k] == m[k]))
  {
    assert Starts(cuts, j, cuts[j]);
    var f := FragmentAt(d, payload, cuts, j);
    var m' := Stored(m, d, f.offset, f.data, f.more, n);
    forall j', o | Starts(cuts, j', o)
      ensures Key(d, o) in m' <==> j' in arrived + {j}
      ensures j' in arrived + {j} ==> m'[Key(d, o)] == ChunkAt(payload, cuts, j', o)
    {
      if Starts(cuts, j, o) {
        StartsOnce(payload, cuts, j, j', o);
        StoredWrites(m, d, payload, cuts, j, cuts[j], n, o);
      } else {
        StoredLeaves(m, d, payload, cuts, j, cuts[j], n, Key(d, o));
      }
    }
    forall k: Key | k.dgram != d || !IsStart(cuts, k.offset)
      ensures (k in m' <==> k in m) && (k in m ==> m'[k] == m[k])
    {
      StoredLeaves(m, d, payload, cuts, j, cuts[j], n, k);
    }
  }

  // ---------- Walking the chain ----------

  /** One step of the walk over a stored chunk of the split. */
  lemma ChainAt(m: Store, d: Datagram, payload: seq<Byte>, cuts: Cuts, j: nat, o: nat, n: nat)
    requires ValidSplit(payload, cuts) && Starts(cuts, j, o) && n > 0
    requires Key(d, o) in m && m[Key(d, o)] == ChunkAt(payload, cuts, j, o)
    ensures o < EndOf(cuts, j, o) <= |payload|
    ensures var e := EndOf(cuts, j, o);
            if e == |payload| then Chain(m, d, o, n) == Complete(payload[o..])
            else
              && Chain(m, d, o, n) == Join(payload[o..e], Chain(m, d, e, n - 1))
              && ChainKeys(m, d, o, n) == {Key(d, o)} + ChainKeys(m, d, e, n - 1)
  {
    var e := EndOf(cuts, j, o);
    assert e <= cuts[j + 1] <= cuts[|cuts| - 1];
    if e < |payload| { assert Advance(o, e - o) == e; }
  }

  /** The last chunk is the only one with nothing after it. */
  lemma LastPiece(payload: seq<Byte>, cuts: Cuts, j: nat, o: nat)
    requires ValidSplit(payload, cuts) && Starts(cuts, j, o)
    ensures PiecesLeft(payload, cuts, j, o) >= 1
    ensures EndOf(cuts, j, o) == |payload| ==> PiecesLeft(payload, cuts, j, o) == 1
  {
    if EndOf(cuts, j, o) == |payload| {
      assert cuts[j + 1] == cuts[|cuts| - 1];
      assert j + 1 == |cuts| - 1;
    }
  }

  /** With every fragment there, the chain from any chunk start yields the rest of the payload,
      exactly if there are no more chunks than the walk allows. */
  lemma {:induction false} WholeChain(m: Store, d: Datagram, payload: seq<Byte>, cuts: Cuts, arrived: set<nat>,
                                      j: nat, o: nat, n: nat)
    requires ValidSplit(payload, cuts) && HoldsChunks(m, d, payload, cuts, arrived) && Full(cuts, arrived)
    requires Starts(cuts, j, o)
    ensures Chain(m, d, o, n) == if PiecesLeft(payload, cuts, j, o) <= n then Complete(payload[o..]) else Missing
    decreases n
  {
    var e := EndOf(cuts, j, o);
    LastPiece(payload, cuts, j, o);
    if n > 0 {
      ChainAt(m, d, payload, cuts, j, o, n);
      if e < |payload| {
        var j' := NextStart(payload, cuts, j, o);
        NextPieces(payload, cuts, j, o, j');
        WholeChain(m, d, payload, cuts, arrived, j', e, n - 1);
        assert payload[o..e] + payload[e..] == payload[o..];
      }
    }
  }

  /** The walk moves on to the next chunk, and keeps the key of this one. */
  lemma NextKey(m: Store, d: Datagram, payload: seq<Byte>, cuts: Cuts, j: nat, o: nat, n: nat) returns (j': nat)
    requires ValidSplit(payload, cuts) && Starts(cuts, j, o) && EndOf(cuts, j, o) < |payload|
    requires PiecesLeft(payload, cuts, j, o) <= n && Key(d, o) in m && m[Key(d, o)] == ChunkAt(payload, cuts, j, o)
    ensures n > 0 && Starts(cuts, j', EndOf(cuts, j, o)) && PiecesLeft(payload, cuts, j', EndOf(cuts, j, o)) <= n - 1
    ensures ChainKeys(m, d, EndOf(cuts, j, o), n - 1) <= ChainKeys(m, d, o, n)
  {
    LastPiece(payload, cuts, j, o);
    ChainAt(m, d, payload, cuts, j, o, n);
    j' := NextStart(payload, cuts, j, o);
    NextPieces(payload, cuts, j, o, j');
  }

  lemma OwnKey(m: Store, d: Datagram, payload: seq<Byte>, cuts: Cuts, j: nat, o: nat, n: nat)
    requires ValidSplit(payload, cuts) && Starts(cuts, j, o) && PiecesLeft(payload, cuts, j, o) <= n && Key(d, o) in m
    ensures Key(d, o) in ChainKeys(m, d, o, n)
  {
    LastPiece(payload, cuts, j, o);
  }

  /** A complete chain uses up every stored chunk of the datagram. */
  lemma {:induction false} WholeChainKeys(m: Store, d: Datagram, payload: seq<Byte>, cuts: Cuts, arrived: set<nat>,
                                          j: nat, o: nat, n: nat, i: nat, x: nat)
    requires ValidSplit(payload, cuts) && HoldsChunks(m, d, payload, cuts, arrived) && Full(cuts, arrived)
    requires Starts(cuts, j, o) && PiecesLeft(payload, cuts, j, o) <= n && o <= x && Starts(cuts, i, x)
    ensures Key(d, x) in ChainKeys(m, d, o, n)
    decreases n
  {
    if o == x {
      OwnKey(m, d, payload, cuts, j, o, n);
    } else {
      StartAfter(payload, cuts, j, o, i, x);
      var j' := NextKey(m, d, payload, cuts, j, o, n);
      WholeChainKeys(m, d, payload, cuts, arrived, j', EndOf(cuts, j, o), n - 1, i, x);
    }
  }

  /** With a fragment missing, the chain from any earlier chunk start breaks off. */
  lemma {:induction false} BrokenChain(m: Store, d: Datagram, payload: seq<Byte>, cuts: Cuts, arrived: set<nat>,
                                       missing: nat, j: nat, o: nat, n: nat)
    requires ValidSplit(payload, cuts) && HoldsChunks(m, d, payload, cuts, arrived)
    requires missing < |cuts| - 1 && missing !in arrived && j <= missing && Starts(cuts, j, o)
    ensures Chain(m, d, o, n).Missing?
    decreases n
  {
    if n > 0 && Key(d, o) in m {
      var e := EndOf(cuts, j, o);
      ChainAt(m, d, payload, cuts, j, o, n);
      assert e <= cuts[j + 1] <= cuts[missing] < cuts[|cuts| - 1];
      var j' := NextStart(payload, cuts, j, o);
      BrokenChain(m, d, payload, cuts, arrived, missing, j', e, n - 1);
    }
  }

  // ---------- One fragment ----------

  /** Which fragments count as arrived after j: reassembly uses them all up. */
  ghost function Seen(cuts: Cuts, arrived: set<nat>, j: nat, grows: bool): set<nat>
    requires |cuts| >= 1
  {
    if Full(cuts, arrived + {j}) && grows then {} else arrived + {j}
  }

  lemma JoinWhole(m: Store, d: Datagram, payload: seq<Byte>, cuts: Cuts, arrived: set<nat>, n: nat)
    requires ValidSplit(payload, cuts) && Holds(m, d, payload, cuts, arrived) && Full(cuts, arrived)
    requires PiecesFrom(cuts, 0) <= n
    ensures Chain(m, d, 0, n) == Complete(payload)
    ensures Holds(m - ChainKeys(m, d, 0, n), d, payload, cuts, {})
    ensures forall k :: k in ChainKeys(m, d, 0, n) ==> k.dgram == d
  {
    assert Starts(cuts, 0, 0) by { assert cuts[0] < cuts[1]; }
    WholeChain(m, d, payload, cuts, arrived, 0, 0, n);
    assert payload[0..] == payload;
    ChainKeysOwn(m, d, 0, n);
    forall x: nat | Key(d, x) in m
      ensures Key(d, x) in ChainKeys(m, d, 0, n)
    {
      var i :| Starts(cuts, i, x);
      WholeChainKeys(m, d, payload, cuts, arrived, 0, 0, n, i, x);
    }
  }

  lemma JoinBroken(m: Store, d: Datagram, payload: seq<Byte>, cuts: Cuts, arrived: set<nat>, n: nat)
    requires ValidSplit(payload, cuts) && Holds(m, d, payload, cuts, arrived) && !Full(cuts, arrived)
    ensures Chain(m, d, 0, n) == Missing
  {
    assert Starts(cuts, 0, 0) by { assert cuts[0] < cuts[1]; }
    var missing: nat :| missing < |cuts| - 1 && missing !in arrived;
    BrokenChain(m, d, payload, cuts, arrived, missing, 0, 0, n);
  }

  lemma AcceptOurs(m: Store, d: Datagram, payload: seq<Byte>, cuts: Cuts, arrived: set<nat>, j: nat, n: nat,
                   pieces: nat)
    requires ValidSplit(payload, cuts) && j < |cuts| - 1
    requires Holds(m, d, payload, cuts, arrived) && PiecesFrom(cuts, 0) <= MAX_FRAGS
    requires n == MAX_FRAGS && pieces == MAX_PIECES
    ensures var f := FragmentAt(d, payload, cuts, j);
            var m1 := Stored(m, d, f.offset, f.data, f.more, pieces);
            var p := Chain(m1, d, 0, n);
            && p == (if Full(cuts, arrived + {j}) then Complete(payload) else Missing)
            && Holds(m1, d, payload, cuts, arrived + {j})
            && (p.Complete? ==> Holds(m1 - ChainKeys(m1, d, 0, n), d, payload, cuts, {}))
  {
    var f := FragmentAt(d, payload, cuts, j);
    var m1 := Stored(m, d, f.offset, f.data, f.more, pieces);
    SavingAdds(m, d, payload, cuts, arrived, j, pieces);
    if Full(cuts, arrived + {j}) {
      JoinWhole(m1, d, payload, cuts, arrived + {j}, n);
    } else {
      JoinBroken(m1, d, payload, cuts, arrived + {j}, n);
    }
  }

  // ---------- Every arrival order ----------

  /** One of this datagram's fragments at its interface, a fragment of some other datagram at any, or
      the record made once this datagram's first fragment is on its way. grows: the packet can be
      enlarged. */
  datatype Event = Ours(j: nat, grows: bool) | Other(f: Fragment, ifindex: nat, grows: bool) | Recorded

  ghost predicate ValidEvents(d: Datagram, cuts: Cuts, events: seq<Event>)
    requires |cuts| >= 1
  {
    forall e :: e in events ==> (e.Ours? ==> e.j < |cuts| - 1) && (e.Other? ==> e.f.dgram != d)
  }

  /** Where the datagram arrives, and how it was split. */
  datatype Sent = Sent(d: Datagram, ifindex: nat, payload: seq<Byte>, cuts: Cuts) {
    ghost predicate Valid() {
      ValidSplit(payload, cuts)
    }

    function FwdKey(): FwdKey {
      FwdKeyOf(d, ifindex)
    }
  }

  /** One event on a kernel that has bpf_loop. */
  ghost function Step(s: Maps, x: Sent, e: Event): (Maps, Outcome)
    requires x.Valid() && (e.Ours? ==> e.j < |x.cuts| - 1)
  {
    match e
    case Ours(j, grows) => Handled(s, FragmentAt(x.d, x.payload, x.cuts, j), x.ifindex, true, grows)
    case Other(f, ifindex, grows) => Handled(s, f, ifindex, true, grows)
    case Recorded => (s.(fwd := s.fwd[x.FwdKey() := false]), StoreOnly)
  }

  /** What becomes of this datagram's fragments, arrival by arrival. */
  ghost function Outcomes(s: Maps, x: Sent, events: seq<Event>): seq<Outcome>
    requires x.Valid() && ValidEvents(x.d, x.cuts, events)
    decreases |events|
  {
    if events == [] then []
    else
      var (s', r) := Step(s, x, events[0]);
      (if events[0].Ours? then [r] else []) + Outcomes(s', x, events[1..])
  }

  ghost function After(s: Maps, x: Sent, events: seq<Event>): Maps
    requires x.Valid() && ValidEvents(x.d, x.cuts, events)
    decreases |events|
  {
    if events == [] then s else After(Step(s, x, events[0]).0, x, events[1..])
  }

  /** The original payload each time the last missing fragment arrives in a packet that can grow; all
      else is stored. */
  ghost function Expected(payload: seq<Byte>, cuts: Cuts, arrived: set<nat>, events: seq<Event>): seq<Outcome>
    requires |cuts| >= 1
    decreases |events|
  {
    if events == [] then []
    else if !events[0].Ours? then Expected(payload, cuts, arrived, events[1..])
    else
      var j, grows := events[0].j, events[0].grows;
      [if Full(cuts, arrived + {j}) && grows then Reassembled(payload) else StoreOnly] +
      Expected(payload, cuts, Seen(cuts, arrived, j, grows), events[1..])
  }

  /** Other datagrams' chunks never touch this one's. */
  lemma {:induction false} StoredElsewhere(m: Store, d: Datagram, f: Datagram, off: nat, data: seq<Byte>,
                                           more: bool, n: nat)
    requires f != d
    ensures var m' := Stored(m, f, off, data, more, n);
            forall k: Key :: k.dgram == d ==> (k in m' <==> k in m) && (k in m ==> m'[k] == m[k])
    decreases n
  {
    if n > 0 && data != [] {
      var sz := Min(MAX_FRAG, |data|);
      StoredElsewhere(m[Key(f, off) := Chunk(more ||
          sz < |data|, data[..sz])], d, f, Advance(off, sz), data[sz..], more, n - 1);
    }
  }

  lemma {:induction false} ChainKeysOwn(m: Store, d: Datagram, off: nat, n: nat)
    ensures forall k :: k in ChainKeys(m, d, off, n) ==> k.dgram == d
    decreases n
  {
    if n > 0 && Key(d, off) in m { ChainKeysOwn(m, d, Advance(off, |m[Key(d, off)].data|), n - 1); }
  }

  lemma AcceptOther(m: Store, d: Datagram, f: Fragment)
    requires f.dgram != d
    ensures SameChunks(m, Accept(m, f).0, d)
    ensures SameChunks(m, Stored(m, f.dgram, f.offset, f.data, f.more, MAX_PIECES), d)
  {
    var n, pieces := MAX_FRAGS, MAX_PIECES;
    StoredElsewhere(m, d, f.dgram, f.offset, f.data, f.more, pieces);
    ChainKeysOwn(Stored(m, f.dgram, f.offset, f.data, f.more, pieces), f.dgram, 0, n);
  }

  /** Both stores hold the same of this datagram. */
  ghost predicate SameChunks(m: Store, m': Store, d: Datagram) {
    forall k: Key :: k.dgram == d ==> (k in m' <==> k in m) && (k in m ==> m'[k] == m[k])
  }

  /** What is known of this datagram's order. */
  ghost predicate SameRecord(s: Maps, s': Maps, k: FwdKey) {
    (k in s'.fwd <==> k in s.fwd) && (k in s.fwd ==> s'.fwd[k] == s.fwd[k])
  }

  /** Fragments of other datagrams change nothing about this one. */
  lemma OtherLeavesAlone(s: Maps, x: Sent, f: Fragment, ifindex: nat, grows: bool)
    requires x.Valid() && f.dgram != x.d
    ensures var s' := Step(s, x, Other(f, ifindex, grows)).0;
            SameChunks(s.frags, s'.frags, x.d) && SameRecord(s, s', x.FwdKey())
  {
    AcceptOther(s.frags, x.d, f);
  }

  lemma SameHolds(m: Store, m': Store, x: Sent, arrived: set<nat>)
    requires x.Valid() && Holds(m, x.d, x.payload, x.cuts, arrived) && SameChunks(m, m', x.d)
    ensures Holds(m', x.d, x.payload, x.cuts, arrived)
  {
  }

  /** One fragment of a datagram known to be out of order, or not known and not the first. */
  lemma StoreOurs(s: Maps, x: Sent, arrived: set<nat>, j: nat, grows: bool)
    requires x.Valid() && PiecesFrom(x.cuts, 0) <= MAX_FRAGS && j < |x.cuts| - 1
    requires Holds(s.frags, x.d, x.payload, x.cuts, arrived)
    requires if x.FwdKey() in s.fwd then s.fwd[x.FwdKey()] else j != 0
    ensures var (s', r) := Step(s, x, Ours(j, grows));
            && r == (if Full(x.cuts, arrived + {j}) && grows then Reassembled(x.payload) else StoreOnly)
            && Holds(s'.frags, x.d, x.payload, x.cuts, Seen(x.cuts, arrived, j, grows))
            && x.FwdKey() in s'.fwd && s'.fwd[x.FwdKey()]
  {
    var n, pieces := MAX_FRAGS, MAX_PIECES;
    assert x.cuts[j] < x.cuts[j + 1];
    assert j != 0 ==> x.cuts[0] < x.cuts[j];
    HandledStores(s, FragmentAt(x.d, x.payload, x.cuts, j), x.ifindex, grows, n, pieces);
    AcceptOurs(s.frags, x.d, x.payload, x.cuts, arrived, j, n, pieces);
  }

  lemma HandledStores(s: Maps, f: Fragment, ifindex: nat, grows: bool, n: nat, pieces: nat)
    requires n == MAX_FRAGS && pieces == MAX_PIECES && f.data != []
    requires var k := FwdKeyOf(f.dgram, ifindex); if k in s.fwd then s.fwd[k] else f.offset != 0
    ensures var m1 := Stored(s.frags, f.dgram, f.offset, f.data, f.more, pieces);
            var fwd := s.fwd[FwdKeyOf(f.dgram, ifindex) := true];
            var p := Chain(m1, f.dgram, 0, n);
            Handled(s, f, ifindex, true, grows) ==
            if p.Complete? && grows then (Maps(m1 - ChainKeys(m1, f.dgram, 0, n), fwd), Reassembled(p.data))
            else (Maps(m1, fwd), StoreOnly)
  {
  }

  /** Fragmentation and reassembly are a round trip. Once a datagram is known to be out of order, or if
      the first of its fragments to come is not the one at offset 0, then in whatever order they come,
      repeated and mixed with other datagrams, however the payload was split, every fragment is held
      back, but for the original payload exactly when the last missing one arrives. */
  lemma {:induction false} RoundTrip(s: Maps, x: Sent, arrived: set<nat>, events: seq<Event>)
    requires x.Valid() && PiecesFrom(x.cuts, 0) <= MAX_FRAGS && ValidEvents(x.d, x.cuts, events)
    requires Recorded !in events && Holds(s.frags, x.d, x.payload, x.cuts, arrived)
    requires if x.FwdKey() in s.fwd then s.fwd[x.FwdKey()] else FirstIsNotFirst(events)
    ensures Outcomes(s, x, events) == Expected(x.payload, x.cuts, arrived, events)
    decreases |events|
  {
    if events != [] {
      var e, s' := events[0], Step(s, x, events[0]).0;
      if e.Ours? {
        StoreOurs(s, x, arrived, e.j, e.grows);
        RoundTrip(s', x, Seen(x.cuts, arrived, e.j, e.grows), events[1..]);
      } else {
        assert e != Recorded;
        OtherLeavesAlone(s, x, e.f, e.ifindex, e.grows);
        SameHolds(s.frags, s'.frags, x, arrived);
        RoundTrip(s', x, arrived, events[1..]);
      }
    }
  }

  /** The first of our fragments to come, if any, is not the one at offset 0. */
  ghost predicate FirstIsNotFirst(events: seq<Event>)
    decreases |events|
  {
    events == [] || (if events[0].Ours? then events[0].j != 0 else FirstIsNotFirst(events[1..]))
  }

  /** The same from empty maps. */
  lemma RoundTripFromEmpty(x: Sent, events: seq<Event>)
    requires x.Valid() && PiecesFrom(x.cuts, 0) <= MAX_FRAGS && ValidEvents(x.d, x.cuts, events)
    requires Recorded !in events && FirstIsNotFirst(events)
    ensures Outcomes(Maps(map[], map[]), x, events) == Expected(x.payload, x.cuts, {}, events)
  {
    RoundTrip(Maps(map[], map[]), x, {}, events);
  }

  /** A datagram recorded as in order stays so: every fragment of it goes on, and of this datagram
      nothing is stored or removed. */
  lemma {:induction false} InOrderGoesOn(s: Maps, x: Sent, events: seq<Event>)
    requires x.Valid() && ValidEvents(x.d, x.cuts, events)
    requires x.FwdKey() in s.fwd && !s.fwd[x.FwdKey()]
    ensures forall r :: r in Outcomes(s, x, events) ==> r == FirstInOrder
    ensures SameChunks(s.frags, After(s, x, events).frags, x.d)
    decreases |events|
  {
    if events != [] {
      var e, s' := events[0], Step(s, x, events[0]).0;
      if e.Other? { OtherLeavesAlone(s, x, e.f, e.ifindex, e.grows); }
      InOrderGoesOn(s', x, events[1..]);
    }
  }

  /** From empty maps, with the fragment at offset 0 first: it goes on, and once that is recorded so do
      all the others, and nothing of the datagram is ever stored. */
  lemma InOrderFromEmpty(x: Sent, grows: bool, events: seq<Event>)
    requires x.Valid() && ValidEvents(x.d, x.cuts, events)
    ensures var s := Maps(map[], map[]);
            var run := [Ours(0, grows), Recorded] + events;
            && ValidEvents(x.d, x.cuts, run)
            && (forall r :: r in Outcomes(s, x, run) ==> r == FirstInOrder)
            && (forall k :: k in After(s, x, run).frags ==> k.dgram != x.d)
  {
    var s := Maps(map[], map[]);
    var run := [Ours(0, grows), Recorded] + events;
    var s1 := Step(s, x, run[0]).0;
    var s2 := Step(s1, x, run[1]).0;
    assert run[1..][1..] == events && s1 == s;
    InOrderGoesOn(s2, x, events);
    assert Outcomes(s, x, run) == [FirstInOrder] + Outcomes(s1, x, run[1..]);
    assert Outcomes(s1, x, run[1..]) == Outcomes(s2, x, events);
    assert After(s, x, run) == After(s1, x, run[1..]) == After(s2, x, events);
  }

  /** A kernel without bpf_loop lets the first fragment through, refuses the rest, and keeps nothing. */
  lemma WithoutLoop(s: Maps, f: Fragment, ifindex: nat, grows: bool)
    ensures var (s', r) := Handled(s, f, ifindex, false, grows);
            s' == s && r in {FirstInOrder, Unsupported} && (r == FirstInOrder <==> f.offset == 0)
  {
  }

  /** A datagram of more than MAX_FRAGS chunks is never handed on, even with every fragment
      stored. */
  lemma TooManyChunks(m: Store, d: Datagram, payload: seq<Byte>, cuts: Cuts, arrived: set<nat>, n: nat)
    requires ValidSplit(payload, cuts) && Holds(m, d, payload, cuts, arrived) && Full(cuts, arrived) && n == MAX_FRAGS
    ensures Chain(m, d, 0, n).Complete? <==> PiecesFrom(cuts, 0) <= MAX_FRAGS
  {
    assert Starts(cuts, 0, 0) by { assert cuts[0] < cuts[1]; }
    WholeChain(m, d, payload, cuts, arrived, 0, 0, n);
  }
}
