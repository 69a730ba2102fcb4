/** The 64-bit highest-random-weight score behind the `consistent_hash` selector. */
module Rendezvous {
  import opened Words
  import opened Bits
  import opened Counting

  const M64: int := 0x1_0000_0000_0000_0000
  const MIX1: int := 0xbf58_476d_1ce4_e5b9
  const MIX2: int := 0x94d0_49bb_1331_11eb
  const FNV64: int := 0x0000_0100_0000_01b3

  function Xor64(a: u64, b: u64): (r: u64) {
    Pow2Widths();
    XorBound(a, b, 64);
    Xor(a, b)
  }

  function XorShift64(x: u64, k: nat): (r: u64) {
    Xor64(x, Shr(x, k))
  }

  /** `mix64`. */
  function Mix64(x: u64): (r: u64) {
    var a: u64 := XorShift64(x, 30) * MIX1 % M64;
    var b: u64 := XorShift64(a, 27) * MIX2 % M64;
    XorShift64(b, 31)
  }

  /** `hash_step64`. */
  function HashStep64(hash: u64, value: u64): (r: u64) {
    Xor64(hash * FNV64 % M64, value)
  }

  lemma MulMix1Injective(x: u64, y: u64)
    requires x * MIX1 % M64 == y * MIX1 % M64
    ensures x == y
  {
    // MIX1 * INVERSE == quotient * 2^64 + 1
    var d, k := x - y, x * MIX1 / M64 - y * MIX1 / M64;
    assert d * MIX1 == k * M64;
    assert d == (k * 0x96de1b173f119089 - d * 0x70c3bca78f27f46c) * M64;
  }

  lemma MulMix2Injective(x: u64, y: u64)
    requires x * MIX2 % M64 == y * MIX2 % M64
    ensures x == y
  {
    // MIX2 * INVERSE == quotient * 2^64 + 1
    var d, k := x - y, x * MIX2 / M64 - y * MIX2 / M64;
    assert d * MIX2 == k * M64;
    assert d == (k * 0x319642b2d24d8ec3 - d * 0x1cd336eda85f1453) * M64;
  }

  /** `mix64` is injective, hence a bijection on the 64-bit words. */
  lemma Mix64Injective(x: u64, y: u64)
    requires Mix64(x) == Mix64(y)
    ensures x == y
  {
    var xa: u64 := XorShift64(x, 30) * MIX1 % M64;
    var ya: u64 := XorShift64(y, 30) * MIX1 % M64;
    XorShiftInjective(XorShift64(xa, 27) * MIX2 % M64, XorShift64(ya, 27) * MIX2 % M64, 31);
    MulMix2Injective(XorShift64(xa, 27), XorShift64(ya, 27));
    XorShiftInjective(xa, ya, 27);
    MulMix1Injective(XorShift64(x, 30), XorShift64(y, 30));
    XorShiftInjective(x, y, 30);
  }

  /** Two words that share their high 32 bits cannot be multiplied onto words that share their high 48. */
  lemma StepKeepsApart(u: u64, v: u64)
    requires -M32 < u - v < M32
    requires -0x1_0000 < u * FNV64 % M64 - v * FNV64 % M64 < 0x1_0000
    ensures u == v
  {
    var d, e := u - v, u * FNV64 % M64 - v * FNV64 % M64;
    var k := u * FNV64 / M64 - v * FNV64 / M64;
    assert d * FNV64 == e + k * M64;
    // Reduce modulo 2^40, then look at what is left.
    var m := k * 0x100_0000 - d;
    assert d * 435 == e + m * 0x100_0000_0000;
    assert -2 < m < 2;
  }

  /** Addresses and ports that differ leave different hashes behind, whatever the bucket prefix was. */
  lemma TwoStepsInjective(h: u64, a1: u32, p1: u16, a2: u32, p2: u16)
    requires HashStep64(HashStep64(h, a1), p1) == HashStep64(HashStep64(h, a2), p2)
    ensures a1 == a2 && p1 == p2
  {
    Pow2Widths();
    var x: u64 := h * FNV64 % M64;
    var u, v := HashStep64(h, a1), HashStep64(h, a2);
    ShrXor(x, a1, 32); ShrXor(x, a2, 32);
    ShrSmall(a1, 32); ShrSmall(a2, 32);
    SameHighPart(u, v, 32);
    var s, t := u * FNV64 % M64, v * FNV64 % M64;
    ShrXor(s, p1, 16); ShrXor(t, p2, 16);
    ShrSmall(p1, 16); ShrSmall(p2, 16);
    XorZero(Shr(s, 16)); XorZero(Shr(t, 16));
    SameHighPart(s, t, 16);
    StepKeepsApart(u, v);
    XorCancel(x, a1, a2);
    XorCancel(s, p1, p2);
  }

  /** `native_consistent_bucket_score`. */
  function Score(bucket: u32, address: u32, port: u16): (r: u64) {
    Mix64(HashStep64(HashStep64(HashStep64(0xcbf2_9ce4_8422_2325, bucket), address), port))
  }

  /** For a fixed bucket no two backends tie. */
  lemma ScoreInjective(bucket: u32, a1: u32, p1: u16, a2: u32, p2: u16)
    requires Score(bucket, a1, p1) == Score(bucket, a2, p2)
    ensures a1 == a2 && p1 == p2
  {
    var h := HashStep64(0xcbf2_9ce4_8422_2325, bucket);
    Mix64Injective(HashStep64(HashStep64(h, a1), p1), HashStep64(HashStep64(h, a2), p2));
    TwoStepsInjective(h, a1, p1, a2, p2);
  }

  lemma MulFnv64Injective(x: u64, y: u64)
    requires x * FNV64 % M64 == y * FNV64 % M64
    ensures x == y
  {
    // FNV64 * INVERSE == quotient * 2^64 + 1
    var d, k := x - y, x * FNV64 / M64 - y * FNV64 / M64;
    assert d * FNV64 == k * M64;
    assert d == (k * 0xce96_5057_aff6_957b - d * 0xce_9650_590f) * M64;
  }

  lemma HashStepInjective64(g: u64, h: u64, value: u64)
    requires HashStep64(g, value) == HashStep64(h, value)
    ensures g == h
  {
    XorSymmetric(g * FNV64 % M64, value);
    XorSymmetric(h * FNV64 % M64, value);
    XorCancel(value, g * FNV64 % M64, h * FNV64 % M64);
    MulFnv64Injective(g, h);
  }

  lemma ScoreStepsTellBucket(seed: u64, b: u32, c: u32, address: u32, port: u16)
    requires Mix64(HashStep64(HashStep64(HashStep64(seed, b), address), port))
          == Mix64(HashStep64(HashStep64(HashStep64(seed, c), address), port))
    ensures b == c
  {
    var g, h := HashStep64(seed, b), HashStep64(seed, c);
    Mix64Injective(HashStep64(HashStep64(g, address), port), HashStep64(HashStep64(h, address), port));
    HashStepInjective64(HashStep64(g, address), HashStep64(h, address), port);
    HashStepInjective64(g, h, address);
    XorCancel(seed * FNV64 % M64, b, c);
  }

  /** A backend scores differently in every bucket. */
  lemma ScoreTellsBucket(b: u32, c: u32, address: u32, port: u16)
    requires Score(b, address, port) == Score(c, address, port)
    ensures b == c
  {
    ScoreStepsTellBucket(0xcbf2_9ce4_8422_2325, b, c, address, port);
  }

  // ---- Bucket of a flow ------------------------------------------------------------------------

  const FNV32: int := 0x0100_0193

  function Xor32(a: u32, b: u32): (r: u32) {
    Pow2Widths();
    XorBound(a, b, 32);
    Xor(a, b)
  }

  /** `mix32`. */
  function Mix32(x: u32): (r: u32) {
    var a: u32 := Xor32(x, Shr(x, 16)) * 0x7feb_352d % M32;
    var b: u32 := Xor32(a, Shr(a, 15)) * 0x846c_a68b % M32;
    Xor32(b, Shr(b, 16))
  }

  /** `hash_step`. */
  function HashStep32(hash: u32, value: u32): (r: u32) {
    Xor32(hash * FNV32 % M32, value)
  }

  /** `native_consistent_flow_hash`, from a seed. */
  function FlowHash(seed: u32, src: u32, ports: u32, proto: u8): (hash: u32) {
    Mix32(HashStep32(HashStep32(HashStep32(seed, src), ports), proto))
  }

  /** `native_consistent_flow_bucket`: client address and port, listener port and protocol, but not the VIP. */
  function FlowBucket(src: u32, sport: u16, dport: u16, proto: u8): (bucket: u32)
    ensures bucket < 1024
  {
    FlowHash(0x811c_9dc5, src, sport * 0x1_0000 + dport, proto) % 1024
  }

  /** Multiplication by an odd constant loses nothing; `inverse` and `quotient` witness that it is invertible. */
  lemma MulInjective32(x: u32, y: u32, m: int, inverse: int, quotient: int)
    requires m * inverse == quotient * M32 + 1 && x * m % M32 == y * m % M32
    ensures x == y
  {
    var d, k := x - y, x * m / M32 - y * m / M32;
    assert d * m == k * M32;
    assert d * (m * inverse) == k * inverse * M32 by {
      assert d * (m * inverse) == d * m * inverse;
    }
    assert d * (m * inverse) == d * quotient * M32 + d;
    assert d == (k * inverse - d * quotient) * M32;
  }

  lemma Mix32Injective(x: u32, y: u32)
    requires Mix32(x) == Mix32(y)
    ensures x == y
  {
    var xa: u32 := Xor32(x, Shr(x, 16)) * 0x7feb_352d % M32;
    var ya: u32 := Xor32(y, Shr(y, 16)) * 0x7feb_352d % M32;
    XorShiftInjective(Xor32(xa, Shr(xa, 15)) * 0x846c_a68b % M32, Xor32(ya, Shr(ya, 15)) * 0x846c_a68b % M32, 16);
    MulInjective32(Xor32(xa, Shr(xa, 15)), Xor32(ya, Shr(ya, 15)), 0x846c_a68b, 0x4302_1123, 0x22a9_814d);
    XorShiftInjective(xa, ya, 15);
    MulInjective32(Xor32(x, Shr(x, 16)), Xor32(y, Shr(y, 16)), 0x7feb_352d, 0x1d69_e2a5, 0xeb2_8dbf);
    XorShiftInjective(x, y, 16);
  }

  lemma HashStepInjective32(g: u32, h: u32, value: u32)
    requires HashStep32(g, value) == HashStep32(h, value)
    ensures g == h
  {
    XorSymmetric(g * FNV32 % M32, value);
    XorSymmetric(h * FNV32 % M32, value);
    XorCancel(value, g * FNV32 % M32, h * FNV32 % M32);
    MulInjective32(g, h, FNV32, 0x359c_449b, 0x35_9c99);
  }

  /** Two clients with the same ports and protocol never share the 32-bit hash. */
  lemma FlowHashInjective(seed: u32, a: u32, b: u32, ports: u32, proto: u8)
    requires FlowHash(seed, a, ports, proto) == FlowHash(seed, b, ports, proto)
    ensures a == b
  {
    var g, h := HashStep32(seed, a), HashStep32(seed, b);
    Mix32Injective(HashStep32(HashStep32(g, ports), proto), HashStep32(HashStep32(h, ports), proto));
    HashStepInjective32(HashStep32(g, ports), HashStep32(h, ports), proto);
    HashStepInjective32(g, h, ports);
    XorCancel(seed * FNV32 % M32, a, b);
  }

  /** Two flows of one client that differ in their ports never share it either. */
  lemma FlowHashTellsPorts(seed: u32, src: u32, a: u32, b: u32, proto: u8)
    requires FlowHash(seed, src, a, proto) == FlowHash(seed, src, b, proto)
    ensures a == b
  {
    var h := HashStep32(seed, src);
    Mix32Injective(HashStep32(HashStep32(h, a), proto), HashStep32(HashStep32(h, b), proto));
    HashStepInjective32(HashStep32(h, a), HashStep32(h, b), proto);
    XorCancel(h * FNV32 % M32, a, b);
  }

  /** Of the 2^32 clients, exactly 2^22 fall into each bucket, whatever the ports. */
  lemma ClientsBalanced(seed: u32, ports: u32, proto: u8, bucket: u32, clients: set<int>)
    requires bucket < 1024
    requires forall x :: x in clients <==> 0 <= x < M32 && FlowHash(seed, x, ports, proto) % 1024 == bucket
    ensures |clients| == 0x40_0000
  {
    var f := x => if 0 <= x < M32 then FlowHash(seed, x, ports, proto) else 0;
    forall x, y | 0 <= x < M32 && 0 <= y < M32 && f(x) == f(y)
      ensures x == y
    {
      FlowHashInjective(seed, x, y, ports, proto);
    }
    BalancedBy(f, 0x40_0000, 1024, bucket, clients);
  }

  /** Of the 2^32 pairs of ports, exactly 2^22 fall into each bucket, whatever the client. */
  lemma PortsBalanced(seed: u32, src: u32, proto: u8, bucket: u32, pairs: set<int>)
    requires bucket < 1024
    requires forall x :: x in pairs <==> 0 <= x < M32 && FlowHash(seed, src, x, proto) % 1024 == bucket
    ensures |pairs| == 0x40_0000
  {
    var f := x => if 0 <= x < M32 then FlowHash(seed, src, x, proto) else 0;
    forall x, y | 0 <= x < M32 && 0 <= y < M32 && f(x) == f(y)
      ensures x == y
    {
      FlowHashTellsPorts(seed, src, x, y, proto);
    }
    BalancedBy(f, 0x40_0000, 1024, bucket, pairs);
  }

  /** A permutation of `periods * n` numbers sends equally many to each remainder modulo `n`. */
  lemma BalancedBy(f: int -> int, periods: nat, n: nat, b: nat, pre: set<int>)
    requires b < n && forall x :: 0 <= x < periods * n ==> 0 <= f(x) < periods * n
    requires forall x, y :: 0 <= x < periods * n && 0 <= y < periods * n && f(x) == f(y) ==> x == y
    requires forall x :: x in pre <==> 0 <= x < periods * n && f(x) % n == b
    ensures |pre| == periods
  {
    var all := Range(periods * n);
    var part := set y | y in all && y % n == b;
    ResidueClassSize(periods, n, b, part);
    PartOf(f, all, part, n, b, pre);
  }

  lemma PartOf(f: int -> int, all: set<int>, part: set<int>, n: nat, b: nat, pre: set<int>)
    requires n > 0 && InjectiveOn(f, all) && forall x :: x in all ==> f(x) in all
    requires part == set y | y in all && y % n == b
    requires forall x :: x in pre <==> x in all && f(x) % n == b
    ensures |pre| == |part|
  {
    PreimageSize(f, all, part, pre);
  }
}
