/** The trie behind IP sets of CIDRs: a bit trie with a bitmap for the last byte of full-length
    addresses (app-policy/policystore/ipset.go:121-300). Prefixes are bit strings. */
module IpTrie {
  import opened NetworkBitmap

  /** A prefix, or a whole address. */
  type Bits = seq<bool>

  datatype Slot = NoBitmap | Bitmap(words: Words)

  /** The value of a trie; Nil is a nil child pointer. */
  datatype Tree = Nil | Node(member: bool, bitmap: Slot, zero: Tree, one: Tree) {
    function Child(b: bool): Tree
      requires Node?
    {
      if b then one else zero
    }

    function WithChild(b: bool, c: Tree): Tree
      requires Node?
    {
      if b then this.(one := c) else this.(zero := c)
    }
  }

  const EMPTY_ROOT := Node(false, NoBitmap, Nil, Nil)

  // ---------- The last byte ----------

  function BitValue(b: bool, value: Byte): Byte {
    if b then value else 0
  }

  /** The byte made of the last eight bits. */
  function LastByte(p: Bits): Byte
    requires |p| >= 8
  {
    var n := |p|;
    BitValue(p[n - 8], 128) | BitValue(p[n - 7], 64) | BitValue(p[n - 6], 32) | BitValue(p[n - 5], 16)
    | BitValue(p[n - 4], 8) | BitValue(p[n - 3], 4) | BitValue(p[n - 2], 2) | BitValue(p[n - 1], 1)
  }

  function BitsOf(x: Byte): Bits {
    [x & 128 != 0, x & 64 != 0, x & 32 != 0, x & 16 != 0, x & 8 != 0, x & 4 != 0, x & 2 != 0, x & 1 != 0]
  }

  lemma LastByteBits(p: Bits)
    requires |p| >= 8
    ensures BitsOf(LastByte(p)) == p[|p| - 8..]
  {
  }

  lemma LastByteOf(p: Bits, x: Byte)
    ensures LastByte(p + BitsOf(x)) == x
  {
  }

  /** Two addresses that agree before the last byte are equal exactly if their last bytes are. */
  lemma LastByteDecides(p: Bits, q: Bits, n: nat)
    requires |p| == |q| == n + 8 && p[..n] == q[..n]
    ensures p == q <==> LastByte(p) == LastByte(q)
  {
    LastByteBits(p);
    LastByteBits(q);
    assert p == p[..n] + p[n..] && q == q[..n] + q[n..];
  }

  /** Bitmaps sit at depth bd and nowhere else, nothing lies as deep as a whole address, and no
      child is dead. */
  ghost predicate Shaped(t: Tree, depth: nat, bd: nat) {
    t.Node? ==>
      && depth < bd + 8 && (t.bitmap.Bitmap? <==> depth == bd)
      && Shaped(t.zero, depth + 1, bd) && Shaped(t.one, depth + 1, bd)
      && (t.zero.Node? ==> !Dead(t.zero)) && (t.one.Node? ==> !Dead(t.one))
  }

  /** A prefix that can be looked for at this depth: whole addresses end in a bitmap. */
  predicate Fits(p: Bits, depth: nat, bd: nat) {
    depth <= |p| <= bd + 8 && (depth > bd ==> |p| < bd + 8)
  }

  function NewNode(bitmapped: bool): Tree {
    Node(false, if bitmapped then Bitmap(EMPTY) else NoBitmap, Nil, Nil)
  }

  // ---------- The operations on values ----------

  /** insert, for the prefix p at depth; bd is the depth of bitmap nodes. */
  function Insert(t: Tree, p: Bits, depth: nat, bd: nat): (r: Tree)
    requires t.Node? && Shaped(t, depth, bd) && Fits(p, depth, bd)
    ensures r.Node? && r.bitmap.Bitmap? == t.bitmap.Bitmap?
    decreases |p| - depth
  {
    if depth == |p| then t.(member := true)
    else if depth == bd && |p| == bd + 8 then t.(bitmap := Bitmap(SetAt(t.bitmap.words, LastByte(p), true)))
    else
      var c := t.Child(p[depth]);
      var next := if c.Nil? then NewNode(depth + 1 == bd) else c;
      t.WithChild(p[depth], Insert(next, p, depth + 1, bd))
  }

  /** okToRemove */
  predicate Dead(t: Tree)
    requires t.Node?
  {
    !t.member && t.zero.Nil? && t.one.Nil? && (t.bitmap.NoBitmap? || IsEmpty(t.bitmap.words))
  }

  function Prune(t: Tree): Tree {
    if t.Node? && Dead(t) then Nil else t
  }

  /** remove */
  function Remove(t: Tree, p: Bits, depth: nat): (r: Tree)
    requires t.Node? && depth <= |p|
    ensures r.Node? && r.bitmap.Bitmap? == t.bitmap.Bitmap?
    decreases |p| - depth
  {
    if depth == |p| then t.(member := false)
    else if t.bitmap.Bitmap? && |p| == depth + 8 then
      t.(bitmap := Bitmap(SetAt(t.bitmap.words, LastByte(p), false)))
    else
      var c := t.Child(p[depth]);
      if c.Nil? then t else t.WithChild(p[depth], Prune(Remove(c, p, depth + 1)))
  }

  /** containsIP, for the whole address a */
  predicate ContainsIP(t: Tree, a: Bits, depth: nat)
    requires t.Node? && depth <= |a| && |a| >= 8
    decreases |a| - depth
  {
    || t.member
    || if t.bitmap.Bitmap? then Contains(t.bitmap.words, LastByte(a))
       else depth < |a| && t.Child(a[depth]).Node? && ContainsIP(t.Child(a[depth]), a, depth + 1)
  }

  // ---------- Contents ----------

  /** Prefix p is stored. */
  predicate Stored(t: Tree, p: Bits, depth: nat)
    requires depth <= |p|
    decreases |p| - depth
  {
    && t.Node?
    && if depth == |p| then t.member
       else if t.bitmap.Bitmap? && |p| == depth + 8 then Contains(t.bitmap.words, LastByte(p))
       else Stored(t.Child(p[depth]), p, depth + 1)
  }

  /** Nothing is stored in a dead node. */
  lemma DeadStoresNothing(t: Tree, p: Bits, depth: nat)
    requires t.Node? && Dead(t) && depth <= |p|
    ensures !Stored(t, p, depth)
  {
    if t.bitmap.Bitmap? && |p| == depth + 8 { EmptyContainsNothing(t.bitmap.words, LastByte(p)); }
  }

  lemma {:induction false} InsertShaped(t: Tree, p: Bits, depth: nat, bd: nat)
    requires Shaped(t, depth, bd) && t.Node? && Fits(p, depth, bd)
    ensures Shaped(Insert(t, p, depth, bd), depth, bd) && !Dead(Insert(t, p, depth, bd))
    decreases |p| - depth
  {
    if depth == |p| {
    } else if depth == bd && |p| == bd + 8 {
      SetAtContains(t.bitmap.words, LastByte(p), true, LastByte(p));
      EmptyExactly(SetAt(t.bitmap.words, LastByte(p), true));
    } else {
      var c := t.Child(p[depth]);
      var next := if c.Nil? then NewNode(depth + 1 == bd) else c;
      InsertShaped(next, p, depth + 1, bd);
    }
  }

  /** Inserting stores the prefix and changes nothing else. */
  lemma {:induction false} InsertStores(t: Tree, p: Bits, q: Bits, depth: nat, bd: nat)
    requires Shaped(t, depth, bd) && t.Node? && Fits(p, depth, bd) && Fits(q, depth, bd)
    requires p[..depth] == q[..depth]
    ensures Stored(Insert(t, p, depth, bd), q, depth) <==> q == p || Stored(t, q, depth)
    decreases |p| - depth
  {
    if depth == |p| {
      assert |q| == depth ==> q == p;
    } else if depth == bd && |p| == bd + 8 {
      if |q| == bd + 8 {
        LastByteDecides(p, q, bd);
        SetAtContains(t.bitmap.words, LastByte(p), true, LastByte(q));
      }
    } else {
      var c := t.Child(p[depth]);
      var next := if c.Nil? then NewNode(depth + 1 == bd) else c;
      if |q| > depth && q[depth] == p[depth] && !(depth == bd && |q| == bd + 8) {
        InsertStores(next, p, q, depth + 1, bd);
        assert p[..depth + 1] == q[..depth + 1];
        if c.Nil? { DeadStoresNothing(next, q, depth + 1); }
      }
    }
  }

  lemma {:induction false} RemoveShaped(t: Tree, p: Bits, depth: nat, bd: nat)
    requires Shaped(t, depth, bd) && t.Node? && Fits(p, depth, bd)
    ensures Shaped(Remove(t, p, depth), depth, bd)
    decreases |p| - depth
  {
    if depth < |p| && !(t.bitmap.Bitmap? && |p| == depth + 8) && t.Child(p[depth]).Node? {
      RemoveShaped(t.Child(p[depth]), p, depth + 1, bd);
    }
  }

  /** Removing forgets the prefix and changes nothing else. */
  lemma {:induction false} RemoveStores(t: Tree, p: Bits, q: Bits, depth: nat, bd: nat)
    requires Shaped(t, depth, bd) && t.Node? && Fits(p, depth, bd) && Fits(q, depth, bd)
    requires p[..depth] == q[..depth]
    ensures Stored(Remove(t, p, depth), q, depth) <==> q != p && Stored(t, q, depth)
    decreases |p| - depth
  {
    if depth == |p| {
      assert |q| == depth ==> q == p;
    } else if depth == bd && |p| == bd + 8 {
      if |q| == bd + 8 {
        LastByteDecides(p, q, bd);
        SetAtContains(t.bitmap.words, LastByte(p), false, LastByte(q));
      }
    } else if t.Child(p[depth]).Node? {
      var c := t.Child(p[depth]);
      if |q| > depth && q[depth] == p[depth] && !(depth == bd && |q| == bd + 8) {
        assert p[..depth + 1] == q[..depth + 1];
        RemoveStores(c, p, q, depth + 1, bd);
        var c' := Remove(c, p, depth + 1);
        if Dead(c') { DeadStoresNothing(c', q, depth + 1); }
      }
    }
  }

  // ---------- Lookup ----------

  /** Lookup consults prefixes down to the bitmap, and the whole address. */
  predicate Consulted(n: nat, bd: nat) {
    n <= bd || n == bd + 8
  }

  /** An address is found exactly if some consulted prefix of it is stored. */
  lemma {:induction false} ContainsExactly(t: Tree, a: Bits, depth: nat, bd: nat)
    requires Shaped(t, depth, bd) && t.Node? && depth <= bd && |a| == bd + 8
    ensures ContainsIP(t, a, depth) <==>
              exists n :: depth <= n <= |a| && Consulted(n, bd) && Stored(t, a[..n], depth)
    decreases |a| - depth
  {
    assert a[..|a|] == a;
    if t.member {
      assert Stored(t, a[..depth], depth);
    } else if depth == bd {
      forall n | depth <= n <= |a| && Consulted(n, bd) && Stored(t, a[..n], depth)
        ensures Contains(t.bitmap.words, LastByte(a))
      {
      }
      if Contains(t.bitmap.words, LastByte(a)) { assert Stored(t, a[..|a|], depth); }
    } else {
      var c := t.Child(a[depth]);
      forall n | depth <= n <= |a| && Stored(t, a[..n], depth)
        ensures n > depth && Stored(c, a[..n], depth + 1)
      {
      }
      if c.Node? {
        ContainsExactly(c, a, depth + 1, bd);
        forall n | depth + 1 <= n <= |a| && Stored(c, a[..n], depth + 1)
          ensures Stored(t, a[..n], depth)
        {
        }
      }
    }
  }

  // ---------- Canonical form ----------

  /** A live node stores something. */
  lemma {:induction false} LiveStoresSomething(t: Tree, base: Bits, depth: nat, bd: nat) returns (p: Bits)
    requires Shaped(t, depth, bd) && t.Node? && !Dead(t) && |base| == depth
    ensures Fits(p, depth, bd) && p[..depth] == base && Stored(t, p, depth)
    decreases bd + 8 - depth
  {
    if t.member {
      p := base;
    } else if t.zero.Node? || t.one.Node? {
      var b := t.one.Node?;
      p := LiveStoresSomething(t.Child(b), base + [b], depth + 1, bd);
      assert p[..depth] == p[..depth + 1][..depth] && p[depth] == p[..depth + 1][depth];
    } else {
      EmptyExactly(t.bitmap.words);
      var x: Byte :| Contains(t.bitmap.words, x);
      p := base + BitsOf(x);
      LastByteOf(base, x);
    }
  }

  /** Both trees store the same prefixes below base. */
  ghost predicate SameStored(t: Tree, u: Tree, base: Bits, bd: nat) {
    forall p :: Fits(p, |base|, bd) && p[..|base|] == base ==> (Stored(t, p, |base|) <==> Stored(u, p, |base|))
  }

  lemma ChildSameStored(t: Tree, u: Tree, base: Bits, b: bool, bd: nat)
    requires Shaped(t, |base|, bd) && Shaped(u, |base|, bd) && t.Node? && u.Node? && SameStored(t, u, base, bd)
    ensures SameStored(t.Child(b), u.Child(b), base + [b], bd)
  {
    var d, e := |base|, |base| + 1;
    forall p | Fits(p, e, bd) && p[..e] == base + [b]
      ensures Stored(t.Child(b), p, e) <==> Stored(u.Child(b), p, e)
    {
      assert p[..d] == p[..e][..d] == base && p[d] == p[..e][d] == b;
      assert Stored(t, p, d) <==> Stored(u, p, d);
    }
  }

  lemma SameStoredSameBitmap(t: Tree, u: Tree, base: Bits, bd: nat)
    requires Shaped(t, |base|, bd) && Shaped(u, |base|, bd) && t.Node? && u.Node? && SameStored(t, u, base, bd)
    requires |base| == bd
    ensures t.bitmap == u.bitmap
  {
    forall x: Byte
      ensures Contains(t.bitmap.words, x) == Contains(u.bitmap.words, x)
    {
      LastByteOf(base, x);
      var p := base + BitsOf(x);
      assert Stored(t, p, bd) <==> Stored(u, p, bd);
    }
    SameContentsSameBitmap(t.bitmap.words, u.bitmap.words);
  }

  /** The trie is canonical: two tries of the proper shape that store the same prefixes are the
      same trie, node for node and bitmap word for bitmap word. */
  lemma {:induction false} Canonical(t: Tree, u: Tree, base: Bits, bd: nat)
    requires Shaped(t, |base|, bd) && Shaped(u, |base|, bd) && SameStored(t, u, base, bd)
    requires (t.Node? && u.Node?) || ((t.Node? ==> !Dead(t)) && (u.Node? ==> !Dead(u)))
    ensures t == u
    decreases t, u
  {
    if t.Node? && u.Node? {
      ChildSameStored(t, u, base, false, bd);
      ChildSameStored(t, u, base, true, bd);
      Canonical(t.zero, u.zero, base + [false], bd);
      Canonical(t.one, u.one, base + [true], bd);
      assert Stored(t, base, |base|) <==> Stored(u, base, |base|);
      if |base| == bd { SameStoredSameBitmap(t, u, base, bd); }
    } else if t.Node? {
      var p := LiveStoresSomething(t, base, |base|, bd);
    } else if u.Node? {
      var p := LiveStoresSomething(u, base, |base|, bd);
    }
  }

  // ---------- Runs ----------

  datatype Op = Add(p: Bits) | Del(p: Bits)

  ghost predicate ValidOps(ops: seq<Op>, bd: nat) {
    forall op :: op in ops ==> |op.p| <= bd + 8
  }

  /** The prefixes that are live after the operations. */
  function LivePrefixes(ops: seq<Op>): set<Bits> {
    if ops == [] then {}
    else
      var before := LivePrefixes(ops[..|ops| - 1]);
      match ops[|ops| - 1]
      case Add(p) => before + {p}
      case Del(p) => before - {p}
  }

  function Apply(t: Tree, op: Op, bd: nat): Tree
    requires t.Node? && Shaped(t, 0, bd) && |op.p| <= bd + 8
  {
    match op
    case Add(p) => Insert(t, p, 0, bd)
    case Del(p) => Remove(t, p, 0)
  }

  /** The root after the operations, from an empty trie. */
  ghost function Replay(ops: seq<Op>, bd: nat): (t: Tree)
    requires ValidOps(ops, bd) && bd > 0
    ensures t.Node? && Shaped(t, 0, bd)
  {
    if ops == [] then EMPTY_ROOT
    else
      var before := Replay(ops[..|ops| - 1], bd);
      var op := ops[|ops| - 1];
      assert op in ops;
      ApplyShaped(before, op, bd);
      Apply(before, op, bd)
  }

  lemma ReplayMore(ops: seq<Op>, op: Op, bd: nat)
    requires ValidOps(ops, bd) && |op.p| <= bd + 8 && bd > 0
    ensures ValidOps(ops + [op], bd) && Replay(ops + [op], bd) == Apply(Replay(ops, bd), op, bd)
    ensures LivePrefixes(ops + [op]) == if op.Add? then LivePrefixes(ops) + {op.p} else LivePrefixes(ops) - {op.p}
  {
    assert (ops + [op])[..|ops|] == ops;
  }

  lemma ApplyShaped(t: Tree, op: Op, bd: nat)
    requires t.Node? && Shaped(t, 0, bd) && |op.p| <= bd + 8 && bd > 0
    ensures Apply(t, op, bd).Node? && Shaped(Apply(t, op, bd), 0, bd)
  {
    if op.Add? { InsertShaped(t, op.p, 0, bd); } else { RemoveShaped(t, op.p, 0, bd); }
  }

  /** After any run of adds and removes, exactly the live prefixes are stored. */
  lemma {:induction false} ReplayStores(ops: seq<Op>, bd: nat, q: Bits)
    requires ValidOps(ops, bd) && bd > 0 && |q| <= bd + 8
    ensures Stored(Replay(ops, bd), q, 0) <==> q in LivePrefixes(ops)
    decreases |ops|
  {
    if ops == [] {
      DeadStoresNothing(EMPTY_ROOT, q, 0);
    } else {
      var rest, op := ops[..|ops| - 1], ops[|ops| - 1];
      assert op in ops;
      ReplayStores(rest, bd, q);
      if op.Add? {
        InsertStores(Replay(rest, bd), op.p, q, 0, bd);
      } else {
        RemoveStores(Replay(rest, bd), op.p, q, 0, bd);
      }
    }
  }

  /** After any run, an address is in the set exactly if it is live itself or covered by a live
      prefix that leaves at least eight bits. */
  lemma MembershipExactly(ops: seq<Op>, bd: nat, a: Bits)
    requires ValidOps(ops, bd) && bd > 0 && |a| == bd + 8
    ensures ContainsIP(Replay(ops, bd), a, 0) <==>
              a in LivePrefixes(ops) || exists n :: 0 <= n <= bd && a[..n] in LivePrefixes(ops)
  {
    var t := Replay(ops, bd);
    ContainsExactly(t, a, 0, bd);
    assert a[..|a|] == a;
    ReplayStores(ops, bd, a);
    forall n | 0 <= n <= |a|
      ensures Stored(t, a[..n], 0) <==> a[..n] in LivePrefixes(ops)
    {
      ReplayStores(ops, bd, a[..n]);
    }
  }

  /** A prefix that leaves between one and seven bits is stored, and no address is found for it, not
      even those it covers. */
  lemma NarrowPrefixIgnored(p: Bits, bd: nat, a: Bits)
    requires bd > 0 && bd < |p| < bd + 8 && |a| == bd + 8
    ensures Stored(Replay([Add(p)], bd), p, 0) && !ContainsIP(Replay([Add(p)], bd), a, 0)
  {
    assert [Add(p)][..0] == [];
    assert LivePrefixes([Add(p)]) == {p};
    ReplayStores([Add(p)], bd, p);
    MembershipExactly([Add(p)], bd, a);
  }

  /** For one: a set that holds just 0.0.0.0/28 does not contain 0.0.0.0. */
  lemma SlashTwentyEightIgnored()
    ensures var p, a: Bits := seq(28, _ => false), seq(32, _ => false);
            Stored(Replay([Add(p)], 24), p, 0) && p <= a && !ContainsIP(Replay([Add(p)], 24), a, 0)
  {
    NarrowPrefixIgnored(seq(28, _ => false), 24, seq(32, _ => false));
  }

  /** The trie depends on the live prefixes alone, not on how they came to be. */
  lemma ShapeOfLivePrefixes(ops: seq<Op>, ops': seq<Op>, bd: nat)
    requires ValidOps(ops, bd) && ValidOps(ops', bd) && bd > 0
    requires LivePrefixes(ops) == LivePrefixes(ops')
    ensures Replay(ops, bd) == Replay(ops', bd)
  {
    var t, u := Replay(ops, bd), Replay(ops', bd);
    forall p | Fits(p, 0, bd)
      ensures Stored(t, p, 0) <==> Stored(u, p, 0)
    {
      ReplayStores(ops, bd, p);
      ReplayStores(ops', bd, p);
    }
    Canonical(t, u, [], bd);
  }

  /** Adding a prefix that was not live and removing it again restores the same trie, and once
      nothing is live only the empty root is left. */
  lemma AddRemoveRestores(ops: seq<Op>, bd: nat, p: Bits)
    requires ValidOps(ops, bd) && bd > 0 && |p| <= bd + 8
    ensures p !in LivePrefixes(ops) ==> Replay(ops + [Add(p), Del(p)], bd) == Replay(ops, bd)
    ensures LivePrefixes(ops) == {} ==> Replay(ops, bd) == EMPTY_ROOT
  {
    var more := ops + [Add(p), Del(p)];
    assert more[..|more| - 1][..|ops|] == ops && more[..|more| - 1] == ops + [Add(p)];
    assert (ops + [Add(p)])[..|ops|] == ops;
    if p !in LivePrefixes(ops) { ShapeOfLivePrefixes(more, ops, bd); }
    if LivePrefixes(ops) == {} { ShapeOfLivePrefixes(ops, [], bd); }
  }
}
