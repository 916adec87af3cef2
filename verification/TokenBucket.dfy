/** The packet-rate token bucket (felix/bpf-gpl/qos.h:33-43 and 102-147): 16-bit tokens, 64-bit
    clock, refilled from the time since the last refill. */
module TokenBucket {

  const SECOND := 1_000_000_000
  const U64 := 0x1_0000_0000_0000_0000

  /** Not yet initialised. */
  const UNSET := -1

  function ToS16(x: int): (r: int)
    ensures -32768 <= r <= 32767
    ensures x >= 0 ==> r <= x
    ensures -32768 <= x <= 32767 <==> r == x
  {
    (x + 32768) % 65536 - 32768
  }

  datatype Config = Config(rate: int, burst: int)

  predicate Sensible(c: Config) { 0 <= c.rate <= 32767 && 0 <= c.burst <= 32767 }

  datatype Bucket = Bucket(tokens: int, last: nat)

  function Increment(c: Config, last: nat, now: nat): int {
    ToS16((((now - last) % U64) * c.rate) % U64 / SECOND)
  }

  function Initialised(c: Config, b: Bucket, now: nat): Bucket {
    if b.tokens == UNSET then Bucket(c.burst, now) else b
  }

  function Refilled(c: Config, b: Bucket, now: nat): Bucket {
    var inc := Increment(c, b.last, now);
    if inc <= 0 then b
    else var t := ToS16(b.tokens + inc); Bucket(if t > c.burst then c.burst else t, now)
  }

  /** The bucket after one packet, and whether the packet is let through. */
  function Pass(c: Config, b: Bucket, now: nat): (Bucket, bool) {
    var r := Refilled(c, Initialised(c, b, now), now);
    if r.tokens > 0 then (r.(tokens := r.tokens - 1), true) else (r, false)
  }

  class Qos {
    const config: Config
    var tokens: int
    var last: nat

    constructor (config: Config)
      ensures this.config == config && tokens == UNSET
    {
      this.config := config;
      tokens, last := UNSET, 0;
    }

    /** qos_enforce_packet_rate, under the entry's lock. */
    method Enforce(now: nat) returns (accept: bool)
      modifies this
      ensures (Bucket(tokens, last), accept) == Pass(config, old(Bucket(tokens, last)), now)
    {
      if tokens == UNSET {
        tokens := config.burst;
        last := now;
      }
      var inc := Increment(config, last, now);
      if inc > 0 {
        tokens := ToS16(tokens + inc);
        if tokens > config.burst {
          tokens := config.burst;
        }
        last := now;
      }
      accept := false;
      if tokens > 0 {
        tokens := tokens - 1;
        accept := true;
      }
    }
  }

  // ---------- Runs ----------

  predicate Nondecreasing(times: seq<nat>) {
    && (forall i :: 0 <= i < |times| ==> times[i] < U64)
    && (forall i, j :: 0 <= i <= j < |times| ==> times[i] <= times[j])
  }

  function Accepted(c: Config, b: Bucket, times: seq<nat>): nat
    decreases |times|
  {
    if times == [] then 0
    else
      var (next, accept) := Pass(c, b, times[0]);
      (if accept then 1 else 0) + Accepted(c, next, times[1..])
  }

  /** Packets a perfect bucket would have granted by a given time, the burst aside. */
  function Earned(c: Config, start: nat, now: nat): int {
    (now - start) * c.rate / SECOND
  }

  lemma EarnedAdds(c: Config, start: nat, mid: nat, now: nat)
    requires Sensible(c) && start <= mid <= now
    ensures 0 <= Earned(c, mid, now)
    ensures Earned(c, start, mid) + Earned(c, mid, now) <= Earned(c, start, now)
  {
    var x, y := (mid - start) * c.rate, (now - mid) * c.rate;
    assert x + y == (now - start) * c.rate;
    assert y >= 0;
  }

  /** Whatever the widths lose, a refill never gives more than was earned. */
  lemma IncrementEarned(c: Config, last: nat, now: nat)
    requires Sensible(c) && last <= now < U64
    ensures Increment(c, last, now) <= Earned(c, last, now)
  {
    var d, x := now - last, (now - last) * c.rate;
    assert d % U64 == d && x >= 0;
    NarrowedDiv(x);
  }

  lemma NarrowedDiv(x: nat)
    ensures 0 <= x % U64 / SECOND <= x / SECOND
  {
    var y := x % U64;
    assert y <= x;
  }

  /** What has been let through and what may still be. A bucket that wrapped below zero has lost
      65536 tokens, more than its next initialisation can give back. */
  ghost predicate WithinBudget(c: Config, b: Bucket, start: nat, accepted: nat) {
    && start <= b.last && b.tokens <= c.burst && -32768 <= b.tokens
    && accepted + b.tokens + (if b.tokens < 0 then 65536 else 0) <= c.burst + Earned(c, start, b.last)
  }

  lemma InitialisedWithin(c: Config, b: Bucket, start: nat, accepted: nat, now: nat)
    requires Sensible(c) && WithinBudget(c, b, start, accepted) && b.last <= now < U64
    ensures WithinBudget(c, Initialised(c, b, now), start, accepted) && Initialised(c, b, now).last <= now
  {
    EarnedAdds(c, start, b.last, now);
  }

  lemma RefilledWithin(c: Config, b: Bucket, start: nat, accepted: nat, now: nat)
    requires Sensible(c) && WithinBudget(c, b, start, accepted) && b.last <= now < U64
    ensures WithinBudget(c, Refilled(c, b, now), start, accepted) && Refilled(c, b, now).last <= now
  {
    EarnedAdds(c, start, b.last, now);
    IncrementEarned(c, b.last, now);
    var inc := Increment(c, b.last, now);
    var sum := b.tokens + inc;
    assert inc > 0 && sum > 32767 ==> ToS16(sum) == sum - 65536;
  }

  lemma PassWithin(c: Config, b: Bucket, start: nat, accepted: nat, now: nat)
    requires Sensible(c) && WithinBudget(c, b, start, accepted) && b.last <= now < U64
    ensures var (next, ok) := Pass(c, b, now);
            WithinBudget(c, next, start, accepted + if ok then 1 else 0) && next.last <= now
  {
    InitialisedWithin(c, b, start, accepted, now);
    RefilledWithin(c, Initialised(c, b, now), start, accepted, now);
  }

  lemma {:induction false} RunWithin(c: Config, b: Bucket, start: nat, accepted: nat, times: seq<nat>, end: nat)
    requires Sensible(c) && WithinBudget(c, b, start, accepted) && Nondecreasing(times) && b.last <= end
    requires times != [] ==> b.last <= times[0] && end == times[|times| - 1]
    ensures accepted + Accepted(c, b, times) <= c.burst + Earned(c, start, end)
    decreases |times|
  {
    EarnedAdds(c, start, b.last, end);
    if times != [] {
      PassWithin(c, b, start, accepted, times[0]);
      var (next, ok) := Pass(c, b, times[0]);
      EarnedAdds(c, start, next.last, end);
      RunWithin(c, next, start, accepted + if ok then 1 else 0, times[1..], end);
    }
  }

  /** However the packets arrive, those let through since initialisation number at most the burst
      plus what the rate earned since: also when the 16-bit or 64-bit arithmetic overflows. */
  lemma AcceptedAtMostEarned(c: Config, times: seq<nat>, unset: nat)
    requires Sensible(c) && times != [] && Nondecreasing(times)
    ensures Accepted(c, Bucket(UNSET, unset), times) <= c.burst + Earned(c, times[0], times[|times| - 1])
  {
    var start := times[0];
    var started := Bucket(c.burst, start);
    assert Pass(c, Bucket(UNSET, unset), start) == Pass(c, started, start);
    assert Accepted(c, Bucket(UNSET, unset), times) == Accepted(c, started, times);
    RunWithin(c, started, start, 0, times, times[|times| - 1]);
  }

  // ---------- Packets that are let through ----------

  /** The refill fits the widths, so that what is earned is what is added. */
  predicate Fits(c: Config, b: Bucket, now: nat) {
    b.last <= now < U64 && (now - b.last) * c.rate < U64 && b.tokens + Earned(c, b.last, now) <= 32767
  }

  lemma IncrementExactly(c: Config, last: nat, now: nat)
    requires Sensible(c) && last <= now < U64 && (now - last) * c.rate < U64 && Earned(c, last, now) <= 32767
    ensures Increment(c, last, now) == Earned(c, last, now) >= 0
  {
    var d, x := now - last, (now - last) * c.rate;
    assert x >= 0;
    assert d % U64 == d && x % U64 == x;
    assert x / SECOND >= 0;
  }

  /** A bucket in range that fits is filled by what was earned, up to the burst. It lets a packet
      through exactly if it then has a token, and takes one. Time that earns nothing is kept. */
  lemma PassExactly(c: Config, b: Bucket, now: nat)
    requires Sensible(c) && 0 <= b.tokens <= c.burst && Fits(c, b, now)
    ensures var (next, ok) := Pass(c, b, now);
            var earned := Earned(c, b.last, now);
            var level := if b.tokens + earned > c.burst then c.burst else b.tokens + earned;
            && (ok <==> level > 0) && next.tokens == level - (if ok then 1 else 0)
            && next.last == if earned > 0 then now else b.last
  {
    IncrementExactly(c, b.last, now);
  }

  /** A bucket not yet initialised starts full. */
  lemma FirstPassExactly(c: Config, unset: nat, now: nat)
    requires Sensible(c) && now < U64
    ensures Pass(c, Bucket(UNSET, unset), now) == if c.burst > 0 then (Bucket(c.burst - 1, now), true)
                                                  else (Bucket(0, now), false)
  {
    assert Pass(c, Bucket(UNSET, unset), now) == Pass(c, Bucket(c.burst, now), now);
    PassExactly(c, Bucket(c.burst, now), now);
  }

  /** The whole run fits the widths. */
  predicate RunFits(c: Config, start: nat, times: seq<nat>) {
    && Nondecreasing(times)
    && forall i :: 0 <= i < |times| ==>
         start <= times[i] && (times[i] - start) * c.rate < U64 && c.burst + Earned(c, start, times[i]) <= 32767
  }

  lemma RunFitsLater(c: Config, start: nat, later: nat, times: seq<nat>)
    requires Sensible(c) && RunFits(c, start, times) && times != [] && start <= later <= times[0]
    ensures RunFits(c, later, times[1..]) && forall b: Bucket :: b.last == later && b.tokens <= c.burst ==>
                                                                Fits(c, b, times[0])
  {
    forall i | 0 <= i < |times|
      ensures (times[i] - later) * c.rate <= (times[i] - start) * c.rate
      ensures Earned(c, later, times[i]) <= Earned(c, start, times[i])
    {
      assert times[0] <= times[i];
      assert (times[i] - start) * c.rate == (times[i] - later) * c.rate + (later - start) * c.rate;
      EarnedAdds(c, start, later, times[i]);
      EarnedAdds(c, start, start, later);
    }
    forall i | 0 <= i < |times[1..]|
      ensures times[1..][i] == times[i + 1] && later <= times[1..][i]
    {
      assert times[0] <= times[i + 1];
    }
  }

  /** While tokens last, every packet is let through, however close together. */
  lemma {:induction false} BurstAccepted(c: Config, b: Bucket, times: seq<nat>)
    requires Sensible(c) && |times| <= b.tokens <= c.burst && RunFits(c, b.last, times)
    ensures Accepted(c, b, times) == |times|
    decreases |times|
  {
    if times != [] {
      RunFitsLater(c, b.last, b.last, times);
      PassExactly(c, b, times[0]);
      EarnedAdds(c, b.last, b.last, times[0]);
      var (next, _) := Pass(c, b, times[0]);
      RunFitsLater(c, b.last, next.last, times);
      BurstAccepted(c, next, times[1..]);
    }
  }

  /** Each packet comes at least one token's time after the one before. */
  predicate Spaced(c: Config, start: nat, times: seq<nat>) {
    && (times != [] ==> Earned(c, start, times[0]) > 0)
    && forall i :: 0 <= i < |times| - 1 ==> times[i] <= times[i + 1] && Earned(c, times[i], times[i + 1]) > 0
  }

  /** Packets spaced at the rate are all let through, by any bucket with room for one. */
  lemma {:induction false} SpacedAccepted(c: Config, b: Bucket, times: seq<nat>)
    requires Sensible(c) && 0 <= b.tokens <= c.burst && c.burst > 0
    requires RunFits(c, b.last, times) && Spaced(c, b.last, times)
    ensures Accepted(c, b, times) == |times|
    decreases |times|
  {
    if times != [] {
      RunFitsLater(c, b.last, b.last, times);
      PassExactly(c, b, times[0]);
      var (next, _) := Pass(c, b, times[0]);
      RunFitsLater(c, b.last, next.last, times);
      assert forall i :: 0 <= i < |times| - 1 ==> times[1..][i] == times[i + 1];
      SpacedAccepted(c, next, times[1..]);
    }
  }

  // ---------- Overflow ----------

  /** The tokens stay between zero and the burst exactly when they and the refill, as narrowed to 16
      bits, add up to no more than 16 bits hold. */
  lemma TokensInRangeExactly(c: Config, b: Bucket, now: nat)
    requires Sensible(c) && 0 <= b.tokens <= c.burst
    ensures var inc := Increment(c, b.last, now);
            0 <= Pass(c, b, now).0.tokens <= c.burst <==> (inc > 0 ==> b.tokens + inc <= 32767)
  {
  }

  /** For one: after three seconds at a rate of 10000, a bucket that held 10000 tokens goes below zero, and drops
      the packet. */
  lemma RefillCanWrap()
    ensures var c, b := Config(10000, 30000), Bucket(10000, 0);
            Sensible(c) && Pass(c, b, 3 * SECOND) == (Bucket(-25536, 3 * SECOND), false)
  {
    var c := Config(10000, 30000);
    assert Increment(c, 0, 3 * SECOND) == 30000;
    assert ToS16(40000) == -25536;
  }
}
