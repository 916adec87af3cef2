/** IP sets of CIDRs as the program keeps them: heap nodes updated in place
    (app-policy/policystore/ipset.go:121-314). */
module IpNetSet {
  import opened NetworkBitmap
  import opened IpTrie

  // ---------- Addresses ----------

  type Ip = seq<Byte>

  function BitOfByte(x: Byte, bi: nat): Byte
    requires bi < 8
  {
    (x & (1 << bi)) >> bi
  }

  /** getBitAt: bit depth of an address, counted from the front. */
  function GetBitAt(ip: Ip, depth: nat): Byte
    requires depth < 8 * |ip|
  {
    BitOfByte(ip[depth / 8], 7 - depth % 8)
  }

  predicate BitAt(ip: Ip, depth: nat)
    requires depth < 8 * |ip|
  {
    GetBitAt(ip, depth) != 0
  }

  function AddressBits(ip: Ip): (b: Bits)
    ensures |b| == 8 * |ip|
  {
    seq(8 * |ip|, d requires 0 <= d < 8 * |ip| => BitAt(ip, d))
  }

  /** Bit bi of a byte is its binary digit of that weight. */
  lemma BitsOfByte(x: Byte)
    ensures BitsOf(x) == [BitOfByte(x, 7) != 0, BitOfByte(x, 6) != 0, BitOfByte(x, 5) != 0, BitOfByte(x, 4) != 0,
                          BitOfByte(x, 3) != 0, BitOfByte(x, 2) != 0, BitOfByte(x, 1) != 0, BitOfByte(x, 0) != 0]
  {
  }

  lemma BitInLastByte(ip: Ip, c: nat)
    requires |ip| > 0 && c < 8
    ensures AddressBits(ip)[8 * |ip| - 8 + c] == (BitOfByte(ip[|ip| - 1], 7 - c) != 0)
  {
    var d := 8 * |ip| - 8 + c;
    assert d / 8 == |ip| - 1 && d % 8 == c;
  }

  lemma BitsOfByteAt(x: Byte, c: nat)
    requires c < 8
    ensures BitsOf(x)[c] == (BitOfByte(x, 7 - c) != 0)
  {
    BitsOfByte(x);
  }

  lemma AddressEndsInLastByte(ip: Ip)
    requires |ip| > 0
    ensures AddressBits(ip) == AddressBits(ip)[..8 * |ip| - 8] + BitsOf(ip[|ip| - 1])
  {
    var b, n, x := AddressBits(ip), 8 * |ip| - 8, ip[|ip| - 1];
    forall c | 0 <= c < 8
      ensures b[n + c] == BitsOf(x)[c]
    {
      BitInLastByte(ip, c);
      BitsOfByteAt(x, c);
    }
  }

  /** The bits of the last byte come last, most significant first. */
  lemma LastByteOfAddress(ip: Ip)
    requires |ip| > 0
    ensures LastByte(AddressBits(ip)) == ip[|ip| - 1]
  {
    AddressEndsInLastByte(ip);
    LastByteOf(AddressBits(ip)[..8 * |ip| - 8], ip[|ip| - 1]);
  }

  // ---------- Nodes ----------

  class TrieNode {
    var member: bool
    var bitmap: Slot
    var zero: TrieNode?
    var one: TrieNode?
    ghost var Repr: set<TrieNode>

    ghost predicate Valid()
      reads this, Repr
      decreases Repr
    {
      && this in Repr
      && (zero != null ==> zero in Repr && zero.Repr < Repr && this !in zero.Repr && zero.Valid())
      && (one != null ==> one in Repr && one.Repr < Repr && this !in one.Repr && one.Valid())
      && (zero != null && one != null ==> zero.Repr !! one.Repr)
    }

    /** The trie below this node as a value. */
    ghost function Model(): (t: Tree)
      requires Valid()
      reads this, Repr
      ensures t.Node?
      decreases Repr
    {
      Node(member, bitmap, if zero == null then Nil else zero.Model(), if one == null then Nil else one.Model())
    }

    constructor (bitmapped: bool)
      ensures Valid() && fresh(Repr) && Model() == NewNode(bitmapped)
    {
      member, zero, one := false, null, null;
      bitmap := if bitmapped then Bitmap(EMPTY) else NoBitmap;
      Repr := {this};
    }

    method Insert(ip: Ip, depth: nat, mask: nat, bd: nat)
      requires Valid() && Shaped(Model(), depth, bd) && mask <= 8 * |ip| == bd + 8
      requires Fits(AddressBits(ip)[..mask], depth, bd)
      modifies Repr
      ensures Valid() && fresh(Repr - old(Repr))
      ensures Model() == IpTrie.Insert(old(Model()), AddressBits(ip)[..mask], depth, bd)
      decreases mask - depth, 1
    {
      if depth == mask {
        member := true;
      } else if depth == bd && mask == bd + 8 {
        assert AddressBits(ip)[..mask] == AddressBits(ip);
        SetLast(ip, true);
      } else {
        assert AddressBits(ip)[..mask][depth] == BitAt(ip, depth);
        if GetBitAt(ip, depth) != 0 {
          if one == null { NewOne(depth + 1 == bd); }
          InsertOne(ip, depth, mask, bd);
        } else {
          if zero == null { NewZero(depth + 1 == bd); }
          InsertZero(ip, depth, mask, bd);
        }
      }
    }

    /** Sets or clears the last byte's bit in this node's bitmap. */
    method SetLast(ip: Ip, value: bool)
      requires Valid() && |ip| > 0 && bitmap.Bitmap?
      modifies this
      ensures Valid() && Repr == old(Repr)
      ensures old(Model()).Node? && Model() ==
              old(Model()).(bitmap := Bitmap(SetAt(old(bitmap).words, LastByte(AddressBits(ip)), value)))
    {
      LastByteOfAddress(ip);
      bitmap := Bitmap(SetAt(bitmap.words, ip[|ip| - 1], value));
    }

    /** Makes the child of the one bit. */
    method NewOne(bitmapped: bool)
      requires Valid() && one == null
      modifies this
      ensures Valid() && fresh(Repr - old(Repr)) && old(Repr) <= Repr && one != null
      ensures var m := old(Model()); m.Node? && Model() == m.(one := NewNode(bitmapped))
    {
      one := new TrieNode(bitmapped);
      Repr := Repr + one.Repr;
    }

    method InsertOne(ip: Ip, depth: nat, mask: nat, bd: nat)
      requires Valid() && one != null && Shaped(one.Model(), depth + 1, bd) && depth < mask <= 8 * |ip| == bd + 8
      requires Fits(AddressBits(ip)[..mask], depth + 1, bd)
      modifies Repr
      ensures Valid() && fresh(Repr - old(Repr))
      ensures var m := old(Model());
              Model() == m.(one := IpTrie.Insert(m.one, AddressBits(ip)[..mask], depth + 1, bd))
      decreases mask - depth, 0
    {
      one.Insert(ip, depth + 1, mask, bd);
      Repr := Repr + one.Repr;
    }

    /** Makes the child of the zero bit. */
    method NewZero(bitmapped: bool)
      requires Valid() && zero == null
      modifies this
      ensures Valid() && fresh(Repr - old(Repr)) && old(Repr) <= Repr && zero != null
      ensures var m := old(Model()); m.Node? && Model() == m.(zero := NewNode(bitmapped))
    {
      zero := new TrieNode(bitmapped);
      Repr := Repr + zero.Repr;
    }

    method InsertZero(ip: Ip, depth: nat, mask: nat, bd: nat)
      requires Valid() && zero != null && Shaped(zero.Model(), depth + 1, bd) && depth < mask <= 8 * |ip| == bd + 8
      requires Fits(AddressBits(ip)[..mask], depth + 1, bd)
      modifies Repr
      ensures Valid() && fresh(Repr - old(Repr))
      ensures var m := old(Model());
              Model() == m.(zero := IpTrie.Insert(m.zero, AddressBits(ip)[..mask], depth + 1, bd))
      decreases mask - depth, 0
    {
      zero.Insert(ip, depth + 1, mask, bd);
      Repr := Repr + zero.Repr;
    }

    method OkToRemove() returns (ok: bool)
      requires Valid()
      ensures ok == Dead(Model())
    {
      if member { return false; }
      if zero != null || one != null { return false; }
      if bitmap.NoBitmap? { return true; }
      ok := IsEmpty(bitmap.words);
    }

    method Remove(ip: Ip, depth: nat, mask: nat, ghost bd: nat)
      requires Valid() && Shaped(Model(), depth, bd) && mask <= 8 * |ip| == bd + 8
      requires Fits(AddressBits(ip)[..mask], depth, bd)
      modifies Repr
      ensures Valid() && Repr == old(Repr)
      ensures Model() == IpTrie.Remove(old(Model()), AddressBits(ip)[..mask], depth)
      decreases mask - depth, 1
    {
      if depth == mask {
        member := false;
      } else if bitmap.Bitmap? && mask == depth + 8 {
        assert AddressBits(ip)[..mask] == AddressBits(ip);
        SetLast(ip, false);
      } else {
        assert AddressBits(ip)[..mask][depth] == BitAt(ip, depth);
        if GetBitAt(ip, depth) != 0 {
          if one != null { RemoveOne(ip, depth, mask, bd); }
        } else {
          if zero != null { RemoveZero(ip, depth, mask, bd); }
        }
      }
    }

    method RemoveOne(ip: Ip, depth: nat, mask: nat, ghost bd: nat)
      requires Valid() && Shaped(Model(), depth, bd) && depth < mask <= 8 * |ip| == bd + 8 && one != null
      requires Fits(AddressBits(ip)[..mask], depth + 1, bd)
      modifies Repr
      ensures Valid() && Repr == old(Repr)
      ensures var c := old(Model()).one;
              Model() == old(Model()).(one := Prune(IpTrie.Remove(c, AddressBits(ip)[..mask], depth + 1)))
      decreases mask - depth, 0
    {
      one.Remove(ip, depth + 1, mask, bd);
      var dead := one.OkToRemove();
      if dead { one := null; }
    }

    method RemoveZero(ip: Ip, depth: nat, mask: nat, ghost bd: nat)
      requires Valid() && Shaped(Model(), depth, bd) && depth < mask <= 8 * |ip| == bd + 8 && zero != null
      requires Fits(AddressBits(ip)[..mask], depth + 1, bd)
      modifies Repr
      ensures Valid() && Repr == old(Repr)
      ensures var c := old(Model()).zero;
              Model() == old(Model()).(zero := Prune(IpTrie.Remove(c, AddressBits(ip)[..mask], depth + 1)))
      decreases mask - depth, 0
    {
      zero.Remove(ip, depth + 1, mask, bd);
      var dead := zero.OkToRemove();
      if dead { zero := null; }
    }

    method ContainsIP(ip: Ip, depth: nat, ghost bd: nat) returns (found: bool)
      requires Valid() && Shaped(Model(), depth, bd) && depth <= bd && 8 * |ip| == bd + 8
      ensures found == IpTrie.ContainsIP(Model(), AddressBits(ip), depth)
      decreases 8 * |ip| - depth
    {
      if member { return true; }
      if bitmap.Bitmap? {
        LastByteOfAddress(ip);
        return Contains(bitmap.words, ip[|ip| - 1]);
      }
      assert AddressBits(ip)[depth] == BitAt(ip, depth);
      var next := if GetBitAt(ip, depth) != 0 then one else zero;
      if next != null {
        found := next.ContainsIP(ip, depth + 1, bd);
      } else {
        found := false;
      }
    }
  }

  // ---------- The set ----------

  const V4_BITMAP_DEPTH := 24
  const V6_BITMAP_DEPTH := 120

  /** A parsed address. Go keeps an IPv4 address, also one written in its IPv6-mapped form, as
      something that converts to four bytes. */
  datatype Parsed = V4(ip4: Ip) | V6(ip16: Ip)

  const MAPPED: Ip := [0, 0, 0, 0, 0, 0, 0, 0, 0, 0, 0xff, 0xff]

  ghost predicate ValidParsed(a: Parsed) {
    match a
    case V4(ip) => |ip| == 4
    case V6(ip) => |ip| == 16 && ip[..12] != MAPPED
  }

  /** The sixteen-byte form. */
  function Long(a: Parsed): Ip {
    match a
    case V4(ip) => MAPPED + ip
    case V6(ip) => ip
  }

  predicate GoesToV4(a: Parsed, mask: nat) {
    a.V4? && mask <= 32
  }

  /** The prefix that a CIDR stands for in the trie it is filed in. */
  function PrefixOf(a: Parsed, mask: nat): (p: Bits)
    requires ValidParsed(a) && mask <= 128
    ensures |p| == mask
  {
    if GoesToV4(a, mask) then AddressBits(a.ip4)[..mask] else AddressBits(Long(a))[..mask]
  }

  class NetSet {
    const v4: TrieNode
    const v6: TrieNode

    /** Every operation so far. */
    ghost var history: seq<CidrOp>

    ghost predicate Separate()
      reads v4, v6, v4.Repr, v6.Repr
    {
      v4.Valid() && v6.Valid() && v4.Repr !! v6.Repr
    }

    /** The tries hold what the history filed in them. */
    ghost predicate Valid()
      reads this, v4, v6, v4.Repr, v6.Repr
    {
      Separate() && ValidCidrs(history) && Models() == Tries(history)
    }

    ghost function Models(): (Tree, Tree)
      requires v4.Valid() && v6.Valid()
      reads v4, v6, v4.Repr, v6.Repr
    {
      (v4.Model(), v6.Model())
    }

    constructor ()
      ensures Valid() && fresh(v4.Repr) && fresh(v6.Repr) && history == []
    {
      v4 := new TrieNode(false);
      v6 := new TrieNode(false);
      history := [];
    }

    method Insert(a: Parsed, mask: nat)
      requires Separate() && BothShaped(Models()) && ValidParsed(a) && mask <= 128
      modifies v4.Repr, v6.Repr
      ensures Separate() && fresh(v4.Repr - old(v4.Repr)) && fresh(v6.Repr - old(v6.Repr))
      ensures Models() == Applied(old(Models()), AddCidr(a, mask))
    {
      ghost var p := PrefixOf(a, mask);
      if GoesToV4(a, mask) {
        ApplyShaped(v4.Model(), IpTrie.Add(p), V4_BITMAP_DEPTH);
        v4.Insert(a.ip4, 0, mask, V4_BITMAP_DEPTH);
      } else {
        ApplyShaped(v6.Model(), IpTrie.Add(p), V6_BITMAP_DEPTH);
        v6.Insert(Long(a), 0, mask, V6_BITMAP_DEPTH);
      }
    }

    method Delete(a: Parsed, mask: nat)
      requires Separate() && BothShaped(Models()) && ValidParsed(a) && mask <= 128
      modifies v4.Repr, v6.Repr
      ensures Separate() && v4.Repr == old(v4.Repr) && v6.Repr == old(v6.Repr)
      ensures Models() == Applied(old(Models()), DelCidr(a, mask))
    {
      ghost var p := PrefixOf(a, mask);
      if GoesToV4(a, mask) {
        ApplyShaped(v4.Model(), IpTrie.Del(p), V4_BITMAP_DEPTH);
        v4.Remove(a.ip4, 0, mask, V4_BITMAP_DEPTH);
      } else {
        ApplyShaped(v6.Model(), IpTrie.Del(p), V6_BITMAP_DEPTH);
        v6.Remove(Long(a), 0, mask, V6_BITMAP_DEPTH);
      }
    }

    /** AddString: the CIDR joins the trie of its family. */
    method Add(a: Parsed, mask: nat)
      requires Valid() && ValidParsed(a) && mask <= 128
      modifies this`history, v4.Repr, v6.Repr
      ensures Valid() && fresh(v4.Repr - old(v4.Repr)) && fresh(v6.Repr - old(v6.Repr))
      ensures history == old(history) + [AddCidr(a, mask)]
    {
      ghost var now := history + [AddCidr(a, mask)];
      TriesMore(history, AddCidr(a, mask));
      Insert(a, mask);
      assert Models() == Tries(now);
      history := now;
    }

    /** RemoveString */
    method Remove(a: Parsed, mask: nat)
      requires Valid() && ValidParsed(a) && mask <= 128
      modifies this`history, v4.Repr, v6.Repr
      ensures Valid() && v4.Repr == old(v4.Repr) && v6.Repr == old(v6.Repr)
      ensures history == old(history) + [DelCidr(a, mask)]
    {
      ghost var now := history + [DelCidr(a, mask)];
      TriesMore(history, DelCidr(a, mask));
      Delete(a, mask);
      assert Models() == Tries(now);
      history := now;
    }

    /** Contains: whatever was added and removed before, exactly the addresses that a live CIDR of
        their own family covers, if it is a whole address or leaves eight bits. */
    method Contains(a: Parsed) returns (found: bool)
      requires Valid() && ValidParsed(a)
      ensures found <==> Covered(LiveCidrs(history), a)
    {
      if a.V4? {
        found := v4.ContainsIP(a.ip4, 0, V4_BITMAP_DEPTH);
      } else {
        found := v6.ContainsIP(a.ip16, 0, V6_BITMAP_DEPTH);
      }
      SetMembershipExactly(history, a);
    }
  }

  // ---------- Whole runs ----------

  datatype CidrOp = AddCidr(a: Parsed, mask: nat) | DelCidr(a: Parsed, mask: nat)

  ghost predicate ValidCidrs(ops: seq<CidrOp>) {
    forall op :: op in ops ==> ValidParsed(op.a) && op.mask <= 128
  }

  function Depth(v4: bool): nat { if v4 then V4_BITMAP_DEPTH else V6_BITMAP_DEPTH }

  function AsOp(op: CidrOp): (r: Op)
    requires ValidParsed(op.a) && op.mask <= 128
    ensures |r.p| == op.mask && r.Add? == op.AddCidr?
  {
    if op.AddCidr? then IpTrie.Add(PrefixOf(op.a, op.mask)) else IpTrie.Del(PrefixOf(op.a, op.mask))
  }

  /** The operations that go to one of the tries. */
  ghost function Filed(ops: seq<CidrOp>, v4: bool): (r: seq<Op>)
    requires ValidCidrs(ops)
    ensures ValidOps(r, Depth(v4))
  {
    if ops == [] then []
    else
      var op := ops[|ops| - 1];
      assert op in ops;
      Filed(ops[..|ops| - 1], v4) + if GoesToV4(op.a, op.mask) == v4 then [AsOp(op)] else []
  }

  lemma FiledMore(ops: seq<CidrOp>, op: CidrOp, v4: bool)
    requires ValidCidrs(ops) && ValidParsed(op.a) && op.mask <= 128
    ensures ValidCidrs(ops + [op])
    ensures Filed(ops + [op], v4) == if GoesToV4(op.a, op.mask) == v4 then Filed(ops, v4) + [AsOp(op)]
        else Filed(ops, v4)
  {
    assert (ops + [op])[..|ops|] == ops;
    assert Filed(ops, v4) + [] == Filed(ops, v4);
  }

  lemma FiledStep(ops: seq<CidrOp>, op: CidrOp, v4: bool)
    requires ValidCidrs(ops) && ValidParsed(op.a) && op.mask <= 128
    ensures ValidCidrs(ops + [op])
    ensures Replay(Filed(ops + [op], v4), Depth(v4)) ==
            if GoesToV4(op.a, op.mask) == v4 then Apply(Replay(Filed(ops, v4), Depth(v4)), AsOp(op), Depth(v4))
            else Replay(Filed(ops, v4), Depth(v4))
  {
    FiledMore(ops, op, v4);
    if GoesToV4(op.a, op.mask) == v4 { ReplayMore(Filed(ops, v4), AsOp(op), Depth(v4)); }
  }

  /** The two tries that a run of operations leaves. */
  ghost function Tries(ops: seq<CidrOp>): (Tree, Tree)
    requires ValidCidrs(ops)
  {
    (Replay(Filed(ops, true), V4_BITMAP_DEPTH), Replay(Filed(ops, false), V6_BITMAP_DEPTH))
  }

  ghost predicate BothShaped(ts: (Tree, Tree)) {
    ts.0.Node? && ts.1.Node? && Shaped(ts.0, 0, V4_BITMAP_DEPTH) && Shaped(ts.1, 0, V6_BITMAP_DEPTH)
  }

  ghost function Applied(ts: (Tree, Tree), op: CidrOp): (Tree, Tree)
    requires BothShaped(ts) && ValidParsed(op.a) && op.mask <= 128
  {
    if GoesToV4(op.a, op.mask) then (Apply(ts.0, AsOp(op), V4_BITMAP_DEPTH), ts.1)
    else (ts.0, Apply(ts.1, AsOp(op), V6_BITMAP_DEPTH))
  }

  lemma TriesMore(ops: seq<CidrOp>, op: CidrOp)
    requires ValidCidrs(ops) && ValidParsed(op.a) && op.mask <= 128
    ensures ValidCidrs(ops + [op]) && BothShaped(Tries(ops)) && Tries(ops + [op]) == Applied(Tries(ops), op)
  {
    FiledStep(ops, op, true);
    FiledStep(ops, op, false);
  }

  /** The live CIDRs: the family each is filed under, and its prefix. */
  ghost function LiveCidrs(ops: seq<CidrOp>): set<(bool, Bits)>
    requires ValidCidrs(ops)
  {
    if ops == [] then {}
    else
      var op := ops[|ops| - 1];
      assert op in ops;
      var before, cidr := LiveCidrs(ops[..|ops| - 1]), (GoesToV4(op.a, op.mask), PrefixOf(op.a, op.mask));
      if op.AddCidr? then before + {cidr} else before - {cidr}
  }

  lemma {:induction false} LiveOfFamily(ops: seq<CidrOp>, v4: bool, p: Bits)
    requires ValidCidrs(ops)
    ensures p in LivePrefixes(Filed(ops, v4)) <==> (v4, p) in LiveCidrs(ops)
    decreases |ops|
  {
    if ops != [] {
      var front, op := ops[..|ops| - 1], ops[|ops| - 1];
      assert op in ops && ops == front + [op];
      LiveOfFamily(front, v4, p);
      FiledMore(front, op, v4);
      if GoesToV4(op.a, op.mask) == v4 { ReplayMore(Filed(front, v4), AsOp(op), Depth(v4)); }
    }
  }

  function BitsOfParsed(a: Parsed): Bits {
    if a.V4? then AddressBits(a.ip4) else AddressBits(a.ip16)
  }

  /** What Contains answers after a run. */
  ghost predicate Member(ops: seq<CidrOp>, a: Parsed)
    requires ValidCidrs(ops) && ValidParsed(a)
  {
    IpTrie.ContainsIP(Replay(Filed(ops, a.V4?), Depth(a.V4?)), BitsOfParsed(a), 0)
  }

  /** A live CIDR of the address's own family covers it, and is a whole address or leaves eight
      bits. */
  ghost predicate Covered(live: set<(bool, Bits)>, a: Parsed)
    requires ValidParsed(a)
  {
    exists n :: (0 <= n <= Depth(a.V4?) || n == |BitsOfParsed(a)|) && (a.V4?, BitsOfParsed(a)[..n]) in live
  }

  lemma SetMembershipExactly(ops: seq<CidrOp>, a: Parsed)
    requires ValidCidrs(ops) && ValidParsed(a)
    ensures Member(ops, a) <==> Covered(LiveCidrs(ops), a)
  {
    var bits, f := BitsOfParsed(a), a.V4?;
    MembershipExactly(Filed(ops, f), Depth(f), bits);
    assert bits[..|bits|] == bits;
    forall n | 0 <= n <= |bits| ensures bits[..n] in LivePrefixes(Filed(ops, f)) <==> (f, bits[..n]) in LiveCidrs(ops) {
      LiveOfFamily(ops, f, bits[..n]);
    }
  }

  /** The first mask bits of both addresses are the same. */
  predicate Agree(a: Parsed, x: Parsed, mask: nat) {
    mask <= |BitsOfParsed(a)| == |BitsOfParsed(x)| && BitsOfParsed(a)[..mask] == BitsOfParsed(x)[..mask]
  }

  /** Adding a CIDR of a family adds exactly the addresses of that family which share its first bits, if
      it is a whole address or leaves eight bits. */
  lemma AddedExactly(ops: seq<CidrOp>, a: Parsed, mask: nat, x: Parsed)
    requires ValidCidrs(ops) && ValidParsed(a) && ValidParsed(x) && mask <= if a.V4? then 32 else 128
    ensures ValidCidrs(ops + [AddCidr(a, mask)])
    ensures Covered(LiveCidrs(ops + [AddCidr(a, mask)]), x) <==>
            || Covered(LiveCidrs(ops), x)
            || (a.V4? == x.V4? && Agree(a, x, mask) &&
                (if a.V4? then mask <= 24 || mask == 32 else mask <= 120 || mask == 128))
  {
    var now, bits := ops + [AddCidr(a, mask)], BitsOfParsed(x);
    assert now[..|ops|] == ops;
    assert LiveCidrs(now) == LiveCidrs(ops) + {(a.V4?, BitsOfParsed(a)[..mask])};
    if a.V4? == x.V4? && Agree(a, x, mask) && (mask <= Depth(a.V4?) || mask == |bits|) {
      assert (x.V4?, bits[..mask]) in LiveCidrs(now);
    }
  }

  /** Byte by byte, the most significant bit of each first. */
  lemma AddressByBytes(ip: Ip, i: nat)
    requires i < |ip|
    ensures AddressBits(ip)[8 * i..8 * i + 8] == BitsOf(ip[i])
  {
    forall c | 0 <= c < 8
      ensures AddressBits(ip)[8 * i + c] == BitsOf(ip[i])[c]
    {
      BitInByte(ip, i, c);
    }
  }

  lemma BitInByte(ip: Ip, i: nat, c: nat)
    requires i < |ip| && c < 8
    ensures AddressBits(ip)[8 * i + c] == BitsOf(ip[i])[c]
  {
    var d := 8 * i + c;
    assert d / 8 == i && d % 8 == c;
    BitsOfByteAt(ip[i], c);
  }

  /** A CIDR with a mask over 32 is filed under IPv6, also one of an IPv4-mapped address, and no IPv4
      address is ever looked for there, not even those that it covers. */
  lemma MappedCidrIgnored(ops: seq<CidrOp>, a: Parsed, mask: nat, x: Parsed)
    requires ValidCidrs(ops) && ValidParsed(a) && 32 < mask <= 128 && x.V4? && ValidParsed(x)
    ensures ValidCidrs(ops + [AddCidr(a, mask)])
    ensures Covered(LiveCidrs(ops + [AddCidr(a, mask)]), x) <==> Covered(LiveCidrs(ops), x)
  {
    FiledStep(ops, AddCidr(a, mask), true);
    SetMembershipExactly(ops, x);
    SetMembershipExactly(ops + [AddCidr(a, mask)], x);
  }
}
