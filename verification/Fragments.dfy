/** Storing out-of-order IPv4 fragments and putting datagrams back together
    (felix/bpf-gpl/ip_v4_fragment.h:84-322; section 3.2 of RFC 791). */
module Fragments {

  type Byte = x: nat | x < 256

  const MAX_FRAGS := 16
  const MAX_FRAG := 1504
  const MAX_PIECES := 10

  /** What identifies a datagram: source, destination and identification. */
  datatype Datagram = Datagram(src: nat, dst: nat, id: nat)

  datatype Key = Key(dgram: Datagram, offset: nat)

  datatype Chunk = Chunk(more: bool, data: seq<Byte>)

  type Store = map<Key, Chunk>

  /** offset is in bytes, eight times the header field; more is the more-fragments bit. */
  datatype Fragment = Fragment(dgram: Datagram, offset: nat, more: bool, data: seq<Byte>)

  datatype Payload = Missing | Complete(data: seq<Byte>)

  /** Offsets are 16 bits wide. */
  function Advance(offset: nat, n: nat): nat {
    (offset + n) % 0x1_0000
  }

  function Min(a: nat, b: nat): nat {
    if a < b then a else b
  }

  /** Every stored chunk has between 1 and MAX_FRAG bytes. */
  ghost predicate ValidStore(m: Store) {
    forall k :: k in m ==> 0 < |m[k].data| <= MAX_FRAG
  }

  // ---------- What storing and joining do ----------

  /** The store after breaking data into at most n chunks. */
  function Stored(m: Store, d: Datagram, off: nat, data: seq<Byte>, more: bool, n: nat): Store
    decreases n
  {
    if n == 0 || data == [] then m
    else
      var sz := Min(MAX_FRAG, |data|);
      Stored(m[Key(d, off) := Chunk(more || sz < |data|, data[..sz])], d, Advance(off, sz), data[sz..], more, n - 1)
  }

  function Join(prefix: seq<Byte>, rest: Payload): Payload {
    if rest.Missing? then Missing else Complete(prefix + rest.data)
  }

  /** Following the chain of chunks from an offset for at most n chunks. */
  function Chain(m: Store, d: Datagram, off: nat, n: nat): Payload
    decreases n
  {
    if n == 0 || Key(d, off) !in m then Missing
    else
      var v := m[Key(d, off)];
      if !v.more then Complete(v.data) else Join(v.data, Chain(m, d, Advance(off, |v.data|), n - 1))
  }

  function ChainKeys(m: Store, d: Datagram, off: nat, n: nat): set<Key>
    decreases n
  {
    if n == 0 || Key(d, off) !in m then {}
    else
      var v := m[Key(d, off)];
      {Key(d, off)} + (if v.more then ChainKeys(m, d, Advance(off, |v.data|), n - 1) else {})
  }

  /** One fragment in store mode: the store after it, and the datagram if that completes it. */
  function Accept(m: Store, f: Fragment): (Store, Payload) {
    if f.data == [] then (m, Missing)
    else
      var m1 := Stored(m, f.dgram, f.offset, f.data, f.more, MAX_PIECES);
      var p := Chain(m1, f.dgram, 0, MAX_FRAGS);
      (if p.Complete? then m1 - ChainKeys(m1, f.dgram, 0, MAX_FRAGS) else m1, p)
  }

  lemma {:induction false} StoredValid(m: Store, d: Datagram, off: nat, data: seq<Byte>, more: bool, n: nat)
    requires ValidStore(m)
    ensures ValidStore(Stored(m, d, off, data, more, n))
    decreases n
  {
    if n > 0 && data != [] {
      var sz := Min(MAX_FRAG, |data|);
      StoredValid(m[Key(d, off) := Chunk(more ||
          sz < |data|, data[..sz])], d, Advance(off, sz), data[sz..], more, n - 1);
    }
  }

  /** Storing what is left of data after read bytes starts with one chunk. */
  lemma StoredStep(m: Store, d: Datagram, off: nat, data: seq<Byte>, read: nat, more: bool, n: nat)
    requires n > 0 && read < |data|
    ensures var sz := Min(MAX_FRAG, |data| - read);
            Stored(m, d, off, data[read..], more, n) ==
            Stored(m[Key(d, off) := Chunk(more || read + sz < |data|, data[read..read + sz])],
                   d, Advance(off, sz), data[read + sz..], more, n - 1)
  {
    var sz := Min(MAX_FRAG, |data| - read);
    assert data[read..][..sz] == data[read..read + sz] && data[read..][sz..] == data[read + sz..];
  }

  lemma {:induction false} ChainLength(m: Store, d: Datagram, off: nat, n: nat)
    requires ValidStore(m)
    ensures Chain(m, d, off, n).Complete? ==> 0 < |Chain(m, d, off, n).data| <= MAX_FRAG * n
    decreases n
  {
    if n > 0 && Key(d, off) in m && m[Key(d, off)].more {
      ChainLength(m, d, Advance(off, |m[Key(d, off)].data|), n - 1);
    }
  }

  // ---------- The program ----------

  datatype FwdKey = FwdKey(src: nat, dst: nat, ifindex: nat, id: nat)

  datatype Outcome = Unsupported | FirstInOrder | StoreOnly | Reassembled(data: seq<Byte>)

  /** The two maps: the stored chunks, and per datagram and interface whether its first fragment came
      out of order. */
  datatype Maps = Maps(frags: Store, fwd: map<FwdKey, bool>)

  function FwdKeyOf(d: Datagram, ifindex: nat): FwdKey {
    FwdKey(d.src, d.dst, ifindex, d.id)
  }

  /** One fragment against the maps: the maps after it, and what becomes of it. */
  function Handled(s: Maps, f: Fragment, ifindex: nat, supported: bool, grows: bool): (Maps, Outcome) {
    var k, first := FwdKeyOf(f.dgram, ifindex), f.offset == 0;
    if !supported then (s, if first then FirstInOrder else Unsupported)
    else if if k in s.fwd then !s.fwd[k] else first then (s, FirstInOrder)
    else
      var (m, p) := Accept(s.frags, f);
      var fwd := s.fwd[k := true];
      if p.Complete? && grows then (Maps(m, fwd), Reassembled(p.data))
      else (Maps(Stored(s.frags, f.dgram, f.offset, f.data, f.more, MAX_PIECES), fwd), StoreOnly)
  }

  class Reassembler {
    var frags: Store
    var fwd: map<FwdKey, bool>

    ghost function State(): Maps
      reads this
    {
      Maps(frags, fwd)
    }

    constructor ()
      ensures State() == Maps(map[], map[])
    {
      frags, fwd := map[], map[];
    }

    /** frags4_handle. supported: the kernel has bpf_loop; grows: the packet could be enlarged
        to hold the whole datagram. */
    method Handle(f: Fragment, ifindex: nat, supported: bool, grows: bool) returns (r: Outcome)
      requires ValidStore(frags)
      modifies this
      ensures ValidStore(frags) && (State(), r) == Handled(old(State()), f, ifindex, supported, grows)
    {
      var k := FwdKeyOf(f.dgram, ifindex);
      if !supported || k !in fwd {
        if f.offset == 0 { return FirstInOrder; }
        if !supported { return Unsupported; }
        fwd := fwd[k := true];
      } else if !fwd[k] {
        return FirstInOrder;
      }
      assert fwd == old(fwd)[k := true];
      if f.data == [] { return StoreOnly; }
      Save(f, MAX_PIECES);
      var p := TryAssemble(f.dgram, grows, MAX_FRAGS);
      r := if p.Missing? then StoreOnly else Reassembled(p.data);
    }

    /** frags4_record_ct, once a first fragment is on its way. */
    method RecordCt(d: Datagram, ifindex: nat, supported: bool)
      modifies this`fwd
      ensures fwd == if supported then old(fwd)[FwdKeyOf(d, ifindex) := false] else old(fwd)
    {
      if supported { fwd := fwd[FwdKeyOf(d, ifindex) := false]; }
    }

    /** The storing loop. */
    method Save(f: Fragment, pieces: nat)
      requires ValidStore(frags) && f.data != []
      modifies this`frags
      ensures frags == Stored(old(frags), f.dgram, f.offset, f.data, f.more, pieces) && ValidStore(frags)
    {
      var i, read, offset := 0, 0, f.offset;
      while i < pieces
        invariant 0 <= i <= pieces && 0 <= read < |f.data|
        invariant Stored(frags, f.dgram, offset, f.data[read..], f.more, pieces - i)
                  == Stored(old(frags), f.dgram, f.offset, f.data, f.more, pieces)
        invariant ValidStore(frags)
      {
        var sz := if read + MAX_FRAG >= |f.data| then |f.data| - read else MAX_FRAG;
        StoredStep(frags, f.dgram, offset, f.data, read, f.more, pieces - i);
        frags := frags[Key(f.dgram, offset) := Chunk(f.more || read + sz < |f.data|, f.data[read..read + sz])];
        read, offset, i := read + sz, Advance(offset, sz), i + 1;
        if read >= |f.data| {
          assert f.data[read..] == [];
          break;
        }
      }
    }

    /** frags4_try_assemble: measure the chain, then copy and delete chunk by chunk. */
    method TryAssemble(d: Datagram, grows: bool, n: nat) returns (p: Payload)
      requires ValidStore(frags) && MAX_FRAG * n < 0x1_0000
      modifies this`frags
      ensures ValidStore(frags)
      ensures p == (if grows then Chain(old(frags), d, 0, n) else Missing)
      ensures frags == if p.Complete? then old(frags) - ChainKeys(old(frags), d, 0, n) else old(frags)
    {
      var i, total, offset := 0, 0, 0;
      ghost var sofar: seq<Byte> := [];
      var found := false;
      while i < n
        invariant 0 <= i <= n && |sofar| == total && frags == old(frags)
        invariant Join(sofar, Chain(frags, d, offset, n - i)) == Chain(frags, d, 0, n)
      {
        if Key(d, offset) !in frags { return Missing; }
        var v := frags[Key(d, offset)];
        total := total + |v.data|;
        sofar := sofar + v.data;
        if !v.more {
          found := true;
          break;
        }
        assert Chain(frags, d, offset, n - i) ==
               Join(v.data, Chain(frags, d, Advance(offset, |v.data|), n - i - 1));
        offset, i := Advance(offset, |v.data|), i + 1;
      }
      if !found || !grows { return Missing; }
      assert Chain(frags, d, 0, n) == Complete(sofar);
      ChainLength(frags, d, 0, n);
      var buf := CopyOut(d, total, n);
      p := Complete(buf);
    }

    /** The copying loop, frag_to_skb called up to n times. */
    method CopyOut(d: Datagram, total: nat, n: nat) returns (data: seq<Byte>)
      requires ValidStore(frags)
      requires Chain(frags, d, 0, n).Complete? && |Chain(frags, d, 0, n).data| == total < 0x1_0000
      modifies this`frags
      ensures data == Chain(old(frags), d, 0, n).data
      ensures frags == old(frags) - ChainKeys(old(frags), d, 0, n)
    {
      var buf := new Byte[total](_ => 0);
      var i, offset := 0, 0;
      ghost var m, gone: set<Key> := frags, {};
      ghost var whole, all := Chain(m, d, 0, n).data, ChainKeys(m, d, 0, n);
      ghost var done: seq<Byte>, rest: seq<Byte>, keys := [], whole, all;
      while true
        invariant 0 <= i < n && |done| == offset && done + rest == whole && buf[..offset] == done
        invariant Chain(m, d, offset, n - i) == Complete(rest)
        invariant keys == ChainKeys(m, d, offset, n - i) && gone + keys == all
        invariant frags == m - gone && forall k :: k in gone ==> k.offset < offset
        decreases n - i
      {
        ChainStep(m, d, offset, n - i);
        var v := FragToSkb(buf, d, offset);
        Regroup(done, v.data, rest);
        DropOne(m, gone, Key(d, offset));
        done := done + v.data;
        gone := gone + {Key(d, offset)};
        if !v.more { break; }
        ghost var more := ChainKeys(m, d, offset + |v.data|, n - i - 1);
        assert gone + more == all;
        rest, keys := rest[|v.data|..], more;
        offset, i := offset + |v.data|, i + 1;
      }
      data := buf[..];
    }

    /** frag_to_skb: one chunk goes from the store to its place in the packet. */
    method FragToSkb(buf: array<Byte>, d: Datagram, offset: nat) returns (v: Chunk)
      requires Key(d, offset) in frags && offset + |frags[Key(d, offset)].data| <= buf.Length
      modifies this`frags, buf
      ensures v == old(frags)[Key(d, offset)] && frags == old(frags) - {Key(d, offset)}
      ensures buf[..offset + |v.data|] == old(buf[..offset]) + v.data
    {
      v := frags[Key(d, offset)];
      Write(buf, offset, v.data);
      frags := frags - {Key(d, offset)};
    }
  }

  lemma DropOne(m: Store, gone: set<Key>, k: Key)
    ensures m - gone - {k} == m - (gone + {k})
  {
  }

  lemma Regroup(done: seq<Byte>, piece: seq<Byte>, rest: seq<Byte>)
    requires piece <= rest
    ensures done + piece + rest[|piece|..] == done + rest && (piece == rest ==> done + piece == done + rest)
  {
    assert rest == piece + rest[|piece|..];
  }

  /** bpf_skb_store_bytes. */
  method Write(buf: array<Byte>, offset: nat, data: seq<Byte>)
    requires offset + |data| <= buf.Length
    modifies buf
    ensures buf[..offset + |data|] == old(buf[..offset]) + data
  {
    forall j | 0 <= j < |data| {
      buf[offset + j] := data[j];
    }
  }

  /** A complete chain starts with a stored chunk and goes on with a complete, shorter chain. */
  lemma ChainStep(m: Store, d: Datagram, off: nat, n: nat)
    requires ValidStore(m) && Chain(m, d, off, n).Complete?
    requires off + |Chain(m, d, off, n).data| < 0x1_0000
    ensures n > 0 && Key(d, off) in m
    ensures var v, all := m[Key(d, off)], Chain(m, d, off, n).data;
            && v.data <= all && (!v.more ==> v.data == all)
            && (v.more ==> n > 1 && Chain(m, d, off + |v.data|, n - 1) == Complete(all[|v.data|..])
                           && ChainKeys(m, d, off, n) == {Key(d, off)} + ChainKeys(m, d, off + |v.data|, n - 1))
            && (!v.more ==> ChainKeys(m, d, off, n) == {Key(d, off)})
  {
    var v := m[Key(d, off)];
    if v.more { assert Advance(off, |v.data|) == off + |v.data|; }
  }
}
