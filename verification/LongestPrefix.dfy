/** The lookup of network sets by address (felix/calc/iplpm.go:30-237): keys filed under the
    binary form of their CIDR, and a search that prefers the caller's own namespace. */
module LongestPrefix {

  datatype Option<T> = None | Some(value: T)

  type Bits = seq<bool>

  /** An address, or the first bits of one. */
  datatype Cidr = Cidr(v6: bool, bits: Bits)

  datatype Key = NetworkSet(name: string) | OtherKey(text: string)

  // ---------- Keys ----------

  function Text(k: Key): string {
    match k
    case NetworkSet(name) => "NetworkSet(name=" + name + ")"
    case OtherKey(text) => text
  }

  function UpToSlash(s: string): string {
    if s == "" || s[0] == '/' then "" else [s[0]] + UpToSlash(s[1..])
  }

  /** GetNamespace: the part before the first slash; empty for a global set. */
  function NamespaceOf(name: string): string {
    if '/' in name then UpToSlash(name) else ""
  }

  datatype Rank = Preferred | Global | Other | NotASet

  function RankOf(k: Key, preferred: string): Rank {
    match k
    case OtherKey(_) => NotASet
    case NetworkSet(name) =>
      var ns := NamespaceOf(name);
      if preferred != "" && ns == preferred then Preferred else if ns == "" then Global else Other
  }

  function Order(r: Rank): nat {
    match r case Preferred => 0 case Global => 1 case Other => 2 case NotASet => 3
  }

  lemma {:induction false} UpToSlashExactly(name: string, ns: string)
    requires '/' in name
    ensures UpToSlash(name) == ns <==> '/' !in ns && ns + "/" <= name
  {
    if name[0] == '/' {
      if ns + "/" <= name && ns != "" { assert (ns + "/")[0] == ns[0]; }
    } else {
      assert [name[0]] + name[1..] == name;
      if ns != "" {
        UpToSlashExactly(name[1..], ns[1..]);
        assert [ns[0]] + ns[1..] == ns;
        assert (ns + "/")[1..] == ns[1..] + "/";
        assert ns + "/" <= name <==> ns[0] == name[0] && ns[1..] + "/" <= name[1..];
      }
    }
  }

  /** A set is of the preferred namespace if its name starts with that and a slash; it is global if its
      name has no slash, or starts with one. */
  lemma RankExactly(name: string, preferred: string)
    ensures var r := RankOf(NetworkSet(name), preferred);
            && (r == Preferred <==> preferred != "" && '/' !in preferred && preferred + "/" <= name)
            && (r == Global <==> '/' !in name || "/" <= name)
            && r != NotASet
  {
    if '/' in name {
      UpToSlashExactly(name, preferred);
      UpToSlashExactly(name, "");
    } else {
      var start := preferred + "/";
      assert start[|preferred|] == '/';
      assert |start| <= |name| ==> name[|preferred|] != '/';
    }
  }

  // ---------- The order of strings ----------

  predicate Leq(a: string, b: string) {
    a == "" || (b != "" && (a[0] < b[0] || (a[0] == b[0] && Leq(a[1..], b[1..]))))
  }

  lemma {:induction false} LeqTotal(a: string, b: string)
    ensures Leq(a, b) || Leq(b, a)
  {
    if a != "" && b != "" { LeqTotal(a[1..], b[1..]); }
  }

  lemma {:induction false} LeqTransitive(a: string, b: string, c: string)
    requires Leq(a, b) && Leq(b, c)
    ensures Leq(a, c)
  {
    if a != "" && a[0] == b[0] == c[0] { LeqTransitive(a[1..], b[1..], c[1..]); }
  }

  lemma {:induction false} LeqAntisymmetric(a: string, b: string)
    requires Leq(a, b) && Leq(b, a)
    ensures a == b
  {
    if a != "" {
      LeqAntisymmetric(a[1..], b[1..]);
      assert a == [a[0]] + a[1..] && b == [b[0]] + b[1..];
    }
  }

  /** The order of strings is that of a dictionary. */
  lemma {:induction false} LeqExactly(a: string, b: string)
    ensures Leq(a, b) <==> a <= b || exists i :: FirstDiffers(a, b, i) && a[i] < b[i]
  {
    if a != "" && b != "" {
      if a[0] == b[0] {
        LeqExactly(a[1..], b[1..]);
        assert a == [a[0]] + a[1..] && b == [b[0]] + b[1..];
        if i :| FirstDiffers(a, b, i) && a[i] < b[i] {
          assert a[1..][..i - 1] == a[..i][1..] && b[1..][..i - 1] == b[..i][1..];
          assert FirstDiffers(a[1..], b[1..], i - 1);
        }
        if i :| FirstDiffers(a[1..], b[1..], i) && a[1..][i] < b[1..][i] {
          assert a[..i + 1] == [a[0]] + a[1..][..i] && b[..i + 1] == [b[0]] + b[1..][..i];
          assert FirstDiffers(a, b, i + 1);
        }
      } else if a[0] < b[0] {
        assert FirstDiffers(a, b, 0);
      } else {
        assert forall i :: FirstDiffers(a, b, i) && i > 0 ==> a[..i][0] == b[..i][0];
      }
    }
  }

  predicate FirstDiffers(a: string, b: string, i: int) {
    0 <= i < |a| && i < |b| && a[..i] == b[..i] && a[i] != b[i]
  }

  /** getLowestSortingKey */
  method LowestSortingKey(keys: seq<Key>) returns (r: Option<Key>)
    ensures r.None? <==> keys == []
    ensures r.Some? ==> r.value in keys && forall k :: k in keys ==> Leq(Text(r.value), Text(k))
  {
    if keys == [] { return None; }
    var lowest := keys[0];
    LeqTotal(Text(lowest), Text(lowest));
    for i := 1 to |keys|
      invariant lowest in keys && forall j :: 0 <= j < i ==> Leq(Text(lowest), Text(keys[j]))
    {
      LeqTotal(Text(keys[i]), Text(lowest));
      LeqTotal(Text(keys[i]), Text(keys[i]));
      if Leq(Text(keys[i]), Text(lowest)) && Text(keys[i]) != Text(lowest) {
        forall j | 0 <= j < i ensures Leq(Text(keys[i]), Text(keys[j])) {
          LeqTransitive(Text(keys[i]), Text(lowest), Text(keys[j]));
        }
        lowest := keys[i];
      }
    }
    return Some(lowest);
  }

  // ---------- Addresses ----------

  /** AsBinary: four bits for the version, and then the bits. */
  function Binary(c: Cidr): (b: Bits)
    ensures |b| == |c.bits| + 4
  {
    (if c.v6 then [false, true, true, false] else [false, true, false, false]) + c.bits
  }

  /** The binary form of one is a prefix of the other's exactly when it covers it. */
  lemma CoversExactly(c: Cidr, a: Cidr)
    ensures Binary(c) <= Binary(a) <==> c.v6 == a.v6 && c.bits <= a.bits
  {
    var x, y := Binary(c), Binary(a);
    assert x[4..] == c.bits && y[4..] == a.bits;
    assert x[2] == c.v6 && y[2] == a.v6;
    if x <= y {
      assert x == y[..|x|];
      assert y[..|x|][4..] == a.bits[..|c.bits|];
      assert y[..|x|][2] == y[2];
    }
  }

  // ---------- What a lookup should find ----------

  type Filed = (Bits, Key)

  ghost predicate Candidate(f: Filed, addr: Bits, preferred: string) {
    f.0 <= addr && RankOf(f.1, preferred) != NotASet
  }

  /** Namespace class first, then length of prefix, then the key's name. */
  ghost predicate AtLeastAsGood(f: Filed, g: Filed, preferred: string) {
    var x, y := Order(RankOf(f.1, preferred)), Order(RankOf(g.1, preferred));
    x < y || (x == y && (|g.0| < |f.0| || (|g.0| == |f.0| && Leq(Text(f.1), Text(g.1)))))
  }

  ghost predicate BestFiled(pairs: set<Filed>, addr: Bits, preferred: string, f: Filed) {
    f in pairs && Candidate(f, addr, preferred) &&
    forall g :: g in pairs && Candidate(g, addr, preferred) ==> AtLeastAsGood(f, g, preferred)
  }

  ghost predicate IsAnswer(pairs: set<Filed>, addr: Bits, preferred: string, r: Option<Key>) {
    match r
    case None => forall g :: g in pairs ==> !Candidate(g, addr, preferred)
    case Some(k) => exists p: Bits :: BestFiled(pairs, addr, preferred, (p, k))
  }

  /** There is only one right answer. */
  lemma AnswerUnique(pairs: set<Filed>, addr: Bits, preferred: string, r: Option<Key>, s: Option<Key>)
    requires IsAnswer(pairs, addr, preferred, r) && IsAnswer(pairs, addr, preferred, s)
    ensures r == s
  {
    if r.Some? && s.Some? {
      var p: Bits :| BestFiled(pairs, addr, preferred, (p, r.value));
      var q: Bits :| BestFiled(pairs, addr, preferred, (q, s.value));
      assert AtLeastAsGood((p, r.value), (q, s.value), preferred);
      assert AtLeastAsGood((q, s.value), (p, r.value), preferred);
      LeqAntisymmetric(Text(r.value), Text(s.value));
      var head := "NetworkSet(name=";
      assert r.value.name == Text(r.value)[|head|..|Text(r.value)| - 1];
      assert s.value.name == Text(s.value)[|head|..|Text(s.value)| - 1];
    }
  }

  // ---------- The best of one class so far ----------

  /** The keys kept for a class, and the length of the prefix they were found at. */
  datatype Best = Best(len: nat, keys: seq<Key>)

  ghost predicate Keeps(b: Best, rank: Rank, preferred: string, seen: set<(nat, Key)>) {
    && (b.keys == [] ==> b.len == 0)
    && (forall k :: k in b.keys ==> (b.len, k) in seen && RankOf(k, preferred) == rank)
    && (forall l: nat, k :: (l, k) in seen && RankOf(k, preferred) == rank ==>
          b.keys != [] && (l < b.len || (l == b.len && k in b.keys)))
  }

  function UpdateBest(b: Best, len: nat, k: Key): Best {
    if len > b.len then Best(len, [k])
    else if len == b.len then Best(len, b.keys + [k])
    else b
  }

  lemma UpdateKeeps(b: Best, rank: Rank, preferred: string, seen: set<(nat, Key)>, len: nat, k: Key)
    requires Keeps(b, rank, preferred, seen) && len > 0
    ensures Keeps(if RankOf(k, preferred) == rank then UpdateBest(b, len, k) else b, rank, preferred, seen + {(len, k)})
  {
    if RankOf(k, preferred) == rank {
      var now := UpdateBest(b, len, k);
      assert k in now.keys || len < b.len;
      forall l: nat, j | (l, j) in seen + {(len, k)} && RankOf(j, preferred) == rank
        ensures now.keys != [] && (l < now.len || (l == now.len && j in now.keys))
      {
        if (l, j) in seen { assert b.keys != []; }
      }
    }
  }

  datatype Bests = Bests(preferred: Best, global: Best, other: Best)

  const NOTHING := Bests(Best(0, []), Best(0, []), Best(0, []))

  ghost predicate KeepsAll(b: Bests, preferred: string, seen: set<(nat, Key)>) {
    && Keeps(b.preferred, Preferred, preferred, seen)
    && Keeps(b.global, Global, preferred, seen)
    && Keeps(b.other, Other, preferred, seen)
  }

  ghost function SeenAt(cache: map<Bits, seq<Key>>, addr: Bits, n: nat): set<(nat, Key)> {
    set l: nat, k | l < n && l <= |addr| && addr[..l] in cache && k in cache[addr[..l]] :: (l, k)
  }

  lemma SeenMore(cache: map<Bits, seq<Key>>, addr: Bits, n: nat)
    requires n <= |addr|
    ensures SeenAt(cache, addr, n + 1) ==
            if addr[..n] in cache then SeenAt(cache, addr, n) + set k | k in cache[addr[..n]] :: (n, k)
            else SeenAt(cache, addr, n)
  {
  }

  function Delete(keys: seq<Key>, key: Key): seq<Key> {
    if keys == [] then []
    else if keys[0] == key then Delete(keys[1..], key)
    else [keys[0]] + Delete(keys[1..], key)
  }

  predicate Distinct(keys: seq<Key>) {
    forall i, j :: 0 <= i < j < |keys| ==> keys[i] != keys[j]
  }

  lemma {:induction false} DeleteKeeps(keys: seq<Key>, key: Key)
    requires Distinct(keys)
    ensures forall k :: k in Delete(keys, key) <==> k in keys && k != key
    ensures Distinct(Delete(keys, key)) && |Delete(keys, key)| >= |keys| - 1
    ensures key !in keys ==> Delete(keys, key) == keys
  {
    if keys != [] {
      DeleteKeeps(keys[1..], key);
      assert keys == [keys[0]] + keys[1..];
      assert forall k :: k in keys[1..] ==> k != keys[0];
      var rest := Delete(keys[1..], key);
      forall j | 0 <= j < |rest| ensures rest[j] != keys[0] {
        assert rest[j] in rest;
        assert rest[j] in keys[1..];
      }
    }
  }

  datatype Op = Insert(cidr: Cidr, key: Key) | Remove(cidr: Cidr, key: Key)

  ghost function After(pairs: set<Filed>, op: Op): set<Filed> {
    if op.Insert? then pairs + {(Binary(op.cidr), op.key)} else pairs - {(Binary(op.cidr), op.key)}
  }

  ghost function Live(ops: seq<Op>): set<Filed> {
    if ops == [] then {}
    else After(Live(ops[..|ops| - 1]), ops[|ops| - 1])
  }

  ghost predicate DeletesLive(ops: seq<Op>) {
    forall i :: 0 <= i < |ops| && ops[i].Remove? ==> (Binary(ops[i].cidr), ops[i].key) in Live(ops[..i])
  }

  ghost predicate LongestFiled(pairs: set<Filed>, addr: Bits, p: Bits, k: Key) {
    && (p, k) in pairs && p <= addr
    && forall f :: f in pairs && f.0 <= addr ==> |f.0| <= |p| && (|f.0| == |p| ==> Leq(Text(k), Text(f.1)))
  }

  class IpTrie {
    /** The patricia trie: the keys of each stored prefix. */
    var cache: map<Bits, seq<Key>>
    var existingCidrs: set<Cidr>

    ghost predicate Valid()
      reads this
    {
      && (forall p :: p in cache ==> |p| >= 4 && cache[p] != [] && Distinct(cache[p]))
      && (forall c :: c in existingCidrs <==> Binary(c) in cache)
    }

    ghost function Pairs(): set<Filed>
      reads `cache
    {
      set p, k | p in cache && k in cache[p] :: (p, k)
    }

    constructor ()
      ensures Valid() && Pairs() == {}
    {
      cache, existingCidrs := map[], {};
    }

    /** InsertKey */
    method InsertKey(cidr: Cidr, key: Key)
      requires Valid()
      modifies this
      ensures Valid() && Pairs() == old(Pairs()) + {(Binary(cidr), key)}
    {
      var p := Binary(cidr);
      BinaryInjective();
      existingCidrs := existingCidrs + {cidr};
      if p !in cache {
        cache := cache[p := [key]];
      } else if key !in cache[p] {
        cache := cache[p := cache[p] + [key]];
      }
    }

    /** DeleteKey: a CIDR with a single key is dropped without looking at the key, so the delete
        is exact just when that key is the one asked for. */
    method DeleteKey(cidr: Cidr, key: Key)
      requires Valid()
      modifies this
      ensures Valid()
      ensures Pairs() == old(Pairs()) - {(Binary(cidr), key)} <==>
              old(Binary(cidr) in cache && |cache[Binary(cidr)]| == 1 ==> cache[Binary(cidr)][0] == key)
      ensures forall f: Filed :: f.0 != Binary(cidr) ==> (f in Pairs() <==> f in old(Pairs()))
      ensures old(Binary(cidr) in cache && |cache[Binary(cidr)]| == 1) ==> forall k :: (Binary(cidr), k) !in Pairs()
    {
      var p := Binary(cidr);
      BinaryInjective();
      if p !in cache { return; }
      if |cache[p]| == 1 {
        ghost var only: Filed := (p, cache[p][0]);
        assert only in Pairs();
        existingCidrs := existingCidrs - {cidr};
        cache := cache - {p};
        assert Pairs() == old(Pairs()) - {only};
      } else {
        DeleteKeeps(cache[p], key);
        cache := cache[p := Delete(cache[p], key)];
      }
    }

    method Apply(op: Op)
      requires Valid() && (op.Remove? ==> (Binary(op.cidr), op.key) in Pairs())
      modifies this
      ensures Valid() && Pairs() == After(old(Pairs()), op)
    {
      match op
      case Insert(cidr, key) => InsertKey(cidr, key);
      case Remove(cidr, key) => DeleteKey(cidr, key);
    }

    /** Any run of inserts, and of deletes of what was inserted, leaves exactly what is live. */
    method Replay(ops: seq<Op>)
      requires Valid() && Pairs() == {} && DeletesLive(ops)
      modifies this
      ensures Valid() && Pairs() == Live(ops)
    {
      for i := 0 to |ops|
        invariant Valid() && Pairs() == Live(ops[..i])
      {
        assert ops[..i + 1][..i] == ops[..i];
        Apply(ops[i]);
      }
      assert ops[..|ops|] == ops;
    }

    /** GetLongestPrefixCidr: the lowest key of the longest prefix, whatever its namespace. */
    method Lookup(addr: Bits) returns (r: Option<Key>)
      requires Valid()
      ensures r.None? ==> forall f :: f in Pairs() ==> !(f.0 <= addr)
      ensures r.Some? ==> exists p: Bits :: LongestFiled(Pairs(), addr, p, r.value)
    {
      var longest: Bits := [];
      for n := 0 to |addr| + 1
        invariant longest != [] ==> longest in cache && longest <= addr
        invariant forall l: nat :: l < n && addr[..l] in cache ==> longest != [] && l <= |longest|
      {
        if addr[..n] in cache && n > |longest| {
          longest := addr[..n];
        }
      }
      assert forall f :: f in Pairs() && f.0 <= addr ==> addr[..|f.0|] == f.0;
      if longest == [] { return None; }
      r := LowestSortingKey(cache[longest]);
      assert LongestFiled(Pairs(), addr, longest, r.value);
    }

    /** The visit of every stored prefix of the address, shortest first. */
    method Visit(addr: Bits, preferred: string) returns (b: Bests)
      requires Valid()
      ensures KeepsAll(b, preferred, SeenAt(cache, addr, |addr| + 1))
    {
      b := NOTHING;
      for n := 0 to |addr| + 1
        invariant KeepsAll(b, preferred, SeenAt(cache, addr, n))
      {
        var p := addr[..n];
        if p in cache {
          ghost var before := SeenAt(cache, addr, n);
          b := VisitKeys(b, cache[p], n, preferred, before);
        }
        SeenMore(cache, addr, n);
      }
    }

    /** GetLongestPrefixCidrWithNamespaceIsolation */
    method LookupIsolated(addr: Bits, preferred: string) returns (r: Option<Key>)
      requires Valid()
      ensures IsAnswer(Pairs(), addr, preferred, r)
    {
      var b := Visit(addr, preferred);
      if b.preferred.keys != [] {
        r := LowestSortingKey(b.preferred.keys);
        Found(addr, preferred, b.preferred, Preferred, r.value);
      } else if b.global.keys != [] {
        r := LowestSortingKey(b.global.keys);
        Found(addr, preferred, b.global, Global, r.value);
      } else if b.other.keys != [] {
        r := LowestSortingKey(b.other.keys);
        Found(addr, preferred, b.other, Other, r.value);
      } else {
        r := None;
        forall g | g in Pairs() ensures !Candidate(g, addr, preferred) {
          if Candidate(g, addr, preferred) { SeenCandidate(addr, preferred, g); }
        }
      }
    }

    lemma SeenCandidate(addr: Bits, preferred: string, g: Filed)
      requires g in Pairs() && Candidate(g, addr, preferred)
      ensures (|g.0|, g.1) in SeenAt(cache, addr, |addr| + 1)
    {
      assert addr[..|g.0|] == g.0;
    }

    /** The lowest key of the first class that has any is the answer. */
    lemma Found(addr: Bits, preferred: string, b: Best, rank: Rank, k: Key)
      requires Keeps(b, rank, preferred, SeenAt(cache, addr, |addr| + 1)) && rank != NotASet
      requires forall l: nat, j :: (l, j) in SeenAt(cache, addr, |addr| + 1) ==>
              Order(rank) <= Order(RankOf(j, preferred))
      requires k in b.keys && forall j :: j in b.keys ==> Leq(Text(k), Text(j))
      ensures IsAnswer(Pairs(), addr, preferred, Some(k))
    {
      var f: Filed := (addr[..b.len], k);
      assert (b.len, k) in SeenAt(cache, addr, |addr| + 1);
      forall g | g in Pairs() && Candidate(g, addr, preferred) ensures AtLeastAsGood(f, g, preferred) {
        SeenCandidate(addr, preferred, g);
      }
      assert BestFiled(Pairs(), addr, preferred, f);
    }
  }

  lemma BinaryInjective()
    ensures forall c, d :: Binary(c) == Binary(d) ==> c == d
  {
    forall c, d | Binary(c) == Binary(d) ensures c == d {
      assert Binary(c)[4..] == c.bits && Binary(d)[4..] == d.bits;
      assert Binary(c)[2] == c.v6 && Binary(d)[2] == d.v6;
    }
  }

  /** One node's keys, each into the best of its class. */
  method VisitKeys(b0: Bests, keys: seq<Key>, n: nat, preferred: string, ghost seen: set<(nat, Key)>) returns (b: Bests)
    requires KeepsAll(b0, preferred, seen) && n > 0
    ensures KeepsAll(b, preferred, seen + set k | k in keys :: (n, k))
  {
    b := b0;
    ghost var done := seen;
    for i := 0 to |keys|
      invariant KeepsAll(b, preferred, done)
      invariant done == seen + set k | k in keys[..i] :: (n, k)
    {
      UpdateKeeps(b.preferred, Preferred, preferred, done, n, keys[i]);
      UpdateKeeps(b.global, Global, preferred, done, n, keys[i]);
      UpdateKeeps(b.other, Other, preferred, done, n, keys[i]);
      done := done + {(n, keys[i])};
      assert keys[..i + 1] == keys[..i] + [keys[i]];
      match RankOf(keys[i], preferred)
      case Preferred => b := b.(preferred := UpdateBest(b.preferred, n, keys[i]));
      case Global => b := b.(global := UpdateBest(b.global, n, keys[i]));
      case Other => b := b.(other := UpdateBest(b.other, n, keys[i]));
      case NotASet =>
    }
    assert keys[..|keys|] == keys;
  }

  /** Deleting one network set's key takes away another's: what is left of a CIDR after one insert
      and the delete of a different key is nothing. */
  method DeleteOfAnotherKey(cidr: Cidr, key: Key, other: Key) returns (trie: IpTrie)
    requires key != other
    ensures trie.Valid() && trie.Pairs() == {}
  {
    trie := new IpTrie();
    trie.InsertKey(cidr, key);
    assert trie.Pairs() == {(Binary(cidr), key)};
    OnlyKey(trie, cidr, key);
    trie.DeleteKey(cidr, other);
  }

  lemma OnlyKey(trie: IpTrie, cidr: Cidr, key: Key)
    requires trie.Valid() && trie.Pairs() == {(Binary(cidr), key)}
    ensures Binary(cidr) in trie.cache && trie.cache[Binary(cidr)] == [key]
  {
    var p := Binary(cidr);
    assert (p, key) in trie.Pairs();
    var keys := trie.cache[p];
    forall i | 0 <= i < |keys| ensures keys[i] == key {
      assert (p, keys[i]) in trie.Pairs();
    }
    assert keys[|keys| - 1] == keys[0];
  }
}
