/** The 256-bit bitmap that holds the last byte of full-length addresses
    (app-policy/policystore/ipset.go:144-146 and 270-294). */
module NetworkBitmap {

  type Byte = bv8

  /** Four 64-bit words. */
  type Words = w: seq<bv64> | |w| == 4 witness [0, 0, 0, 0]

  const EMPTY: Words := [0, 0, 0, 0]

  function Word(index: Byte): (i: nat)
    ensures i < 4
  {
    if index < 64 then 0 else if index < 128 then 1 else if index < 192 then 2 else 3
  }

  function Mask(index: Byte): bv64 {
    1 << (index % 64)
  }

  function SetWord(w: bv64, mask: bv64, value: bool): bv64 {
    if value then w | mask else w & !mask
  }

  function SetAt(bm: Words, index: Byte, value: bool): Words {
    bm[Word(index) := SetWord(bm[Word(index)], Mask(index), value)]
  }

  predicate Contains(bm: Words, index: Byte) {
    bm[Word(index)] & Mask(index) != 0
  }

  predicate IsEmpty(bm: Words) {
    forall i | 0 <= i < 4 :: bm[i] == 0
  }

  // ---------- One word ----------

  lemma SetWordHits(w: bv64, mask: bv64, value: bool)
    requires mask != 0
    ensures SetWord(w, mask, value) & mask != 0 <==> value
  {
  }

  lemma SetWordMisses(w: bv64, mask: bv64, value: bool, other: bv64)
    requires mask & other == 0
    ensures SetWord(w, mask, value) & other == w & other
  {
  }

  lemma MaskIsBit(i: Byte)
    ensures Mask(i) != 0
  {
  }

  lemma MasksDiffer(i: Byte, j: Byte)
    requires Word(i) == Word(j) && i != j
    ensures Mask(i) & Mask(j) == 0
  {
    assert i % 64 != j % 64;
  }

  lemma SetAtSelf(bm: Words, i: Byte, value: bool)
    ensures Contains(SetAt(bm, i, value), i) == value
  {
    MaskIsBit(i);
    SetWordHits(bm[Word(i)], Mask(i), value);
  }

  lemma SetAtOther(bm: Words, i: Byte, value: bool, j: Byte)
    requires i != j
    ensures Contains(SetAt(bm, i, value), j) == Contains(bm, j)
  {
    if Word(i) == Word(j) {
      MasksDiffer(i, j);
      SetWordMisses(bm[Word(i)], Mask(i), value, Mask(j));
    }
  }

  /** Setting one index changes that index and no other. */
  lemma SetAtContains(bm: Words, i: Byte, value: bool, j: Byte)
    ensures Contains(SetAt(bm, i, value), j) == if i == j then value else Contains(bm, j)
  {
    if i == j { SetAtSelf(bm, i, value); } else { SetAtOther(bm, i, value, j); }
  }

  // ---------- Whole words ----------

  /** Bit i or one above it is set. */
  predicate SetFrom(x: bv64, i: Byte)
  {
    i < 64 && x >> i != 0
  }

  lemma ShiftPastClearBit(x: bv64, i: Byte)
    requires SetFrom(x, i) && x & Mask(i) == 0
    ensures i < 63 && SetFrom(x, i + 1)
  {
  }

  /** A word that is not zero has a bit set. */
  lemma {:induction false} SomeBit(x: bv64, i: Byte, n: nat) returns (j: Byte)
    requires SetFrom(x, i) && (i as nat) + n == 64
    ensures j < 64 && x & Mask(j) != 0
    decreases n
  {
    j := i;
    if x & Mask(i) == 0 {
      ShiftPastClearBit(x, i);
      NextByte(i);
      j := SomeBit(x, i + 1, n - 1);
    }
  }

  lemma NextByte(i: Byte)
    requires i < 63
    ensures (i + 1) as nat == i as nat + 1
  {
  }

  lemma MaskOfXor(a: bv64, b: bv64, m: bv64)
    requires (a ^ b) & m != 0
    ensures a & m != b & m
  {
  }

  lemma XorZero(a: bv64, b: bv64)
    requires a ^ b == 0
    ensures a == b
  {
  }

  lemma DifferingBit(x: bv64) returns (j: Byte)
    requires x != 0
    ensures j < 64 && x & Mask(j) != 0
  {
    assert x >> (0 as bv8) == x;
    j := SomeBit(x, 0, 64);
  }

  /** Equal bits make equal words. */
  lemma SameBitsSameWord(a: bv64, b: bv64)
    requires forall i: Byte :: i < 64 ==> a & Mask(i) == b & Mask(i)
    ensures a == b
  {
    if a ^ b != 0 {
      var i := DifferingBit(a ^ b);
      MaskOfXor(a, b, Mask(i));
    } else {
      XorZero(a, b);
    }
  }

  lemma EmptyContainsNothing(bm: Words, i: Byte)
    requires IsEmpty(bm)
    ensures !Contains(bm, i)
  {
    assert bm[Word(i)] == 0;
  }

  /** The index of bit j of word n. */
  function IndexOf(n: nat, j: Byte): (i: Byte)
    requires n < 4 && j < 64
    ensures Word(i) == n && Mask(i) == Mask(j)
  {
    if n == 0 then j else if n == 1 then j + 64 else if n == 2 then j + 128 else j + 192
  }

  lemma BitAgrees(a: Words, b: Words, n: nat, j: Byte)
    requires n < 4 && j < 64 && Contains(a, IndexOf(n, j)) == Contains(b, IndexOf(n, j))
    ensures a[n] & Mask(j) == b[n] & Mask(j)
  {
    SingleBit(a[n], b[n], j);
  }

  lemma WordAgrees(a: Words, b: Words, n: nat)
    requires n < 4 && forall i: Byte :: Contains(a, i) == Contains(b, i)
    ensures a[n] == b[n]
  {
    forall j: Byte | j < 64
      ensures a[n] & Mask(j) == b[n] & Mask(j)
    {
      BitAgrees(a, b, n, j);
    }
    SameBitsSameWord(a[n], b[n]);
  }

  /** A bitmap is its contents. */
  lemma SameContentsSameBitmap(a: Words, b: Words)
    requires forall i: Byte :: Contains(a, i) == Contains(b, i)
    ensures a == b
  {
    WordAgrees(a, b, 0);
    WordAgrees(a, b, 1);
    WordAgrees(a, b, 2);
    WordAgrees(a, b, 3);
  }

  lemma SingleBit(a: bv64, b: bv64, j: Byte)
    requires (a & Mask(j) != 0) == (b & Mask(j) != 0)
    ensures a & Mask(j) == b & Mask(j)
  {
  }

  /** A bitmap is empty exactly if it contains nothing. */
  lemma EmptyExactly(bm: Words)
    ensures IsEmpty(bm) <==> forall i: Byte :: !Contains(bm, i)
  {
    if IsEmpty(bm) {
      forall i: Byte ensures !Contains(bm, i) { EmptyContainsNothing(bm, i); }
    }
    if forall i: Byte :: !Contains(bm, i) {
      forall i: Byte ensures !Contains(EMPTY, i) { EmptyContainsNothing(EMPTY, i); }
      SameContentsSameBitmap(bm, EMPTY);
    }
  }
}
