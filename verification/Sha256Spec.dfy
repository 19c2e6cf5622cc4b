/** SHA-256 as FIPS 180-4 defines it: one message, one fold. */
module Sha256Spec {
  import opened Machine

  type state = s: seq<bv32> | |s| == 8 witness [0, 0, 0, 0, 0, 0, 0, 0]

  const ROUNDS: nat := 64

  type constants = k: seq<word> | |k| == 64 witness seq(64, _ => 0)

  /** Section 4.2.2: the round constants. */
  const K: constants :=
    [0x428a2f98, 0x71374491, 0xb5c0fbcf, 0xe9b5dba5, 0x3956c25b, 0x59f111f1, 0x923f82a4, 0xab1c5ed5] +
    [0xd807aa98, 0x12835b01, 0x243185be, 0x550c7dc3, 0x72be5d74, 0x80deb1fe, 0x9bdc06a7, 0xc19bf174] +
    [0xe49b69c1, 0xefbe4786, 0x0fc19dc6, 0x240ca1cc, 0x2de92c6f, 0x4a7484aa, 0x5cb0a9dc, 0x76f988da] +
    [0x983e5152, 0xa831c66d, 0xb00327c8, 0xbf597fc7, 0xc6e00bf3, 0xd5a79147, 0x06ca6351, 0x14292967] +
    [0x27b70a85, 0x2e1b2138, 0x4d2c6dfc, 0x53380d13, 0x650a7354, 0x766a0abb, 0x81c2c92e, 0x92722c85] +
    [0xa2bfe8a1, 0xa81a664b, 0xc24b8b70, 0xc76c51a3, 0xd192e819, 0xd6990624, 0xf40e3585, 0x106aa070] +
    [0x19a4c116, 0x1e376c08, 0x2748774c, 0x34b0bcb5, 0x391c0cb3, 0x4ed8aa4a, 0x5b9cca4f, 0x682e6ff3] +
    [0x748f82ee, 0x78a5636f, 0x84c87814, 0x8cc70208, 0x90befffa, 0xa4506ceb, 0xbef9a3f7, 0xc67178f2]

  /** Section 5.3.3: the initial hash value. */
  const H0: seq<word> := [
    0x6a09e667, 0xbb67ae85, 0x3c6ef372, 0xa54ff53a, 0x510e527f, 0x9b05688c, 0x1f83d9ab, 0x5be0cd19]

  type block = b: seq<byte> | |b| == 64 witness seq(64, _ => 0)

  // ---- section 4.1.2: the six logical functions ----

  function Rotr(x: bv32, n: bv32): bv32
    requires n < 32
  {
    (x >> n) | (x << (32 - n))
  }

  /** Addition modulo 2^32. */
  function Add(x: bv32, y: bv32): bv32 { x + y }

  function Add4(x: bv32, y: bv32, z: bv32, u: bv32): bv32 { x + y + z + u }

  function Xor2(x: bv32, y: bv32): bv32 { x ^ y }
  function Xor3(x: bv32, y: bv32, z: bv32): bv32 { Xor2(Xor2(x, y), z) }

  function Shr(x: bv32, n: bv32): bv32
    requires n < 32
  {
    x >> n
  }

  function Ch(x: bv32, y: bv32, z: bv32): bv32 { (x & y) ^ (!x & z) }
  function Maj(x: bv32, y: bv32, z: bv32): bv32 { (x & y) ^ (x & z) ^ (y & z) }
  function BigSigma0(x: bv32): bv32 { Xor3(Rotr(x, 2), Rotr(x, 13), Rotr(x, 22)) }
  function BigSigma1(x: bv32): bv32 { Xor3(Rotr(x, 6), Rotr(x, 11), Rotr(x, 25)) }
  function SmallSigma0(x: bv32): bv32 { Xor3(Rotr(x, 7), Rotr(x, 18), Shr(x, 3)) }
  function SmallSigma1(x: bv32): bv32 { Xor3(Rotr(x, 17), Rotr(x, 19), Shr(x, 10)) }

  function WordAt(b: block, i: nat): bv32
    requires i < 16
  {
    (b[4 * i] as bv32 << 24) | (b[4 * i + 1] as bv32 << 16) | (b[4 * i + 2] as bv32 << 8) | b[4 * i + 3] as bv32
  }

  function Mix(w2: bv32, w7: bv32, w15: bv32, w16: bv32): bv32
  {
    Add4(SmallSigma1(w2), w7, SmallSigma0(w15), w16)
  }

  /** Section 6.2.2, step 1: the message schedule. */
  function Schedule(b: block, t: nat): bv32
    requires t < 64
  {
    if t < 16 then WordAt(b, t)
    else Mix(Schedule(b, t - 2), Schedule(b, t - 7), Schedule(b, t - 15), Schedule(b, t - 16))
  }

  function T1(e: bv32, f: bv32, g: bv32, h: bv32, k: bv32, w: bv32): bv32
  {
    Add(Add(Add(Add(h, BigSigma1(e)), Ch(e, f, g)), k), w)
  }

  function T2(a: bv32, b: bv32, c: bv32): bv32
  {
    Add(BigSigma0(a), Maj(a, b, c))
  }

  /** Section 6.2.2, step 3: one round on the working variables a to h. */
  function Round(v: state, k: bv32, w: bv32): state
  {
    hide *;
    var t1, t2 := T1(v[4], v[5], v[6], v[7], k, w), T2(v[0], v[1], v[2]);
    [Add(t1, t2), v[0], v[1], v[2], Add(v[3], t1), v[4], v[5], v[6]]
  }

  /** The working variables after `t` rounds. */
  function Rounds(h: state, b: block, t: nat): state
    requires t <= 64
  {
    if t == 0 then h else Round(Rounds(h, b, t - 1), K[t - 1] as bv32, Schedule(b, t - 1))
  }

  /** Section 6.2.2, step 4. */
  function Compress(h: state, b: block): state
  {
    var v := Rounds(h, b, ROUNDS);
    [Add(h[0], v[0]), Add(h[1], v[1]), Add(h[2], v[2]), Add(h[3], v[3]),
     Add(h[4], v[4]), Add(h[5], v[5]), Add(h[6], v[6]), Add(h[7], v[7])]
  }

  function Fold(h: state, m: seq<byte>): state
    requires |m| % 64 == 0
  {
    if m == [] then h
    else
      var n := |m| - 64;
      assert n % 64 == 0 && 0 <= n < |m| by { hide *; }
      var before := Fold(h, m[..n]);
      var last: block := m[n..];
      Compress(before, last)
  }

  // ---- section 5.1.1: padding ----

  function Zeros(n: nat): (z: seq<byte>)
    ensures |z| == n && forall i :: 0 <= i < n ==> z[i] == 0
  {
    seq(n, _ => 0)
  }

  /** A 64-bit number, most significant byte first. */
  function Length64(v: nat): (r: seq<byte>)
    ensures |r| == 8
  {
    [(v / 0x100_0000_0000_0000) % 256, (v / 0x1_0000_0000_0000) % 256, (v / 0x100_0000_0000) % 256,
     (v / 0x1_0000_0000) % 256, (v / 0x100_0000) % 256, (v / 0x1_0000) % 256, (v / 0x100) % 256, v % 256]
  }

  function ZeroCount(n: nat): (k: nat)
    ensures k < 64 && (n + 1 + k) % 64 == 56
  {
    (55 - n) % 64
  }

  lemma WholeBlocks(n: nat)
    requires n % 64 == 56
    ensures (n + 8) % 64 == 0
  {
  }

  function Pad(m: seq<byte>): (p: seq<byte>)
    ensures |p| % 64 == 0
  {
    hide *;
    WholeBlocks(|m| + 1 + ZeroCount(|m|));
    m + [0x80] + Zeros(ZeroCount(|m|)) + Length64(8 * |m|)
  }

  function StateBytes(s: seq<bv32>): (r: seq<byte>)
    ensures |r| == 4 * |s|
  {
    if s == [] then [] else StateBytes(s[..|s| - 1]) + WordBytes(s[|s| - 1])
  }

  /** Byte `i` of a word, most significant first. */
  function ByteOf(x: bv32, i: nat): byte
    requires i < 4
  {
    if i == 0 then ((x >> 24) & 0xFF) as byte
    else if i == 1 then ((x >> 16) & 0xFF) as byte
    else if i == 2 then ((x >> 8) & 0xFF) as byte
    else (x & 0xFF) as byte
  }

  function WordBytes(x: bv32): (r: seq<byte>)
    ensures |r| == 4
  {
    [ByteOf(x, 0), ByteOf(x, 1), ByteOf(x, 2), ByteOf(x, 3)]
  }

  function H0State(): state { seq(8, i requires 0 <= i < 8 => H0[i] as bv32) }

  /** Section 6.2: the digest of a whole message. */
  function Digest(m: seq<byte>): (d: seq<byte>)
    ensures |d| == 32
  {
    StateBytes(Fold(H0State(), Pad(m)))
  }

  // ---- facts about the definition ----

  lemma FoldEmpty(h: state)
    ensures Fold(h, []) == h
  {
    hide Compress;
  }

  lemma FoldBlock(h: state, a: seq<byte>, b: block)
    requires |a| % 64 == 0
    ensures |a + b| % 64 == 0
    ensures Fold(h, a + b) == Compress(Fold(h, a), b)
  {
    hide Compress;
    assert (a + b)[..|a + b| - 64] == a && (a + b)[|a + b| - 64..] == b;
  }

  lemma {:induction false} StateBytesAt(s: seq<bv32>, j: nat, i: nat)
    requires j < |s| && i < 4
    ensures StateBytes(s)[4 * j + i] == ByteOf(s[j], i)
  {
    hide ByteOf;
    var n := |s| - 1;
    if j < n {
      StateBytesAt(s[..n], j, i);
    }
  }

  lemma DigitWraps(v: nat, d: nat, c: nat)
    requires d > 0 && d * (256 * c) == LONG_BASE
    ensures (v % LONG_BASE) / d % 256 == v / d % 256
  {
    var q, r := v / LONG_BASE, v % LONG_BASE;
    var e := 256 * c * q;
    assert v == d * e + r by { assert d * (256 * c) * q == d * e; }
    assert v / d == e + r / d by { QuotientShift(d, e, r); }
    assert (256 * (c * q) + r / d) % 256 == r / d % 256 by { RemainderShift(c * q, r / d); }
    assert e == 256 * (c * q);
  }

  lemma QuotientShift(d: nat, e: nat, r: nat)
    requires d > 0
    ensures (d * e + r) / d == e + r / d
  {
    var n, q := d * e + r, r / d;
    assert r == d * q + r % d;
    assert n == d * (e + q) + r % d;
    QuotientUnique(n, d, e + q, r % d);
  }

  lemma RemainderShift(k: int, r: int)
    ensures (256 * k + r) % 256 == r % 256
  {
  }

  /** Only the low 64 bits of the length are stored. */
  lemma Length64Wraps(v: nat)
    ensures Length64(v % LONG_BASE) == Length64(v)
  {
    var w := v % LONG_BASE;
    DigitWraps(v, 0x100_0000_0000_0000, 1);
    DigitWraps(v, 0x1_0000_0000_0000, 0x100);
    DigitWraps(v, 0x100_0000_0000, 0x1_0000);
    DigitWraps(v, 0x1_0000_0000, 0x100_0000);
    DigitWraps(v, 0x100_0000, 0x1_0000_0000);
    DigitWraps(v, 0x1_0000, 0x100_0000_0000);
    DigitWraps(v, 0x100, 0x1_0000_0000_0000);
    DigitWraps(v, 1, 0x100_0000_0000_0000);
  }

  /** Short tails are padded within their block, long ones into a second block. */
  lemma PadShort(whole: seq<byte>, tail: seq<byte>)
    requires |whole| % 64 == 0 && |tail| < 56
    ensures Pad(whole + tail) == whole + (tail + [0x80] + Zeros(55 - |tail|)) + Length64(8 * |whole + tail|)
  {
    hide Length64;
    assert ZeroCount(|whole + tail|) == 55 - |tail|;
  }

  lemma PadLong(whole: seq<byte>, tail: seq<byte>)
    requires |whole| % 64 == 0 && 56 <= |tail| < 64
    ensures Pad(whole + tail)
         == (whole + (tail + [0x80] + Zeros(63 - |tail|))) + Zeros(56) + Length64(8 * |whole + tail|)
  {
    hide Length64;
    assert ZeroCount(|whole + tail|) == 63 - |tail| + 56;
    assert Zeros(63 - |tail|) + Zeros(56) == Zeros(63 - |tail| + 56);
  }

  /** Different messages are padded differently: the last non-zero byte before the length marks the end. */
  lemma PadInjective(a: seq<byte>, b: seq<byte>)
    requires Pad(a) == Pad(b)
    ensures a == b
  {
    hide Length64;
    if |a| < |b| {
      MarkerMoves(a, b);
    } else if |b| < |a| {
      MarkerMoves(b, a);
    } else {
      assert Pad(a)[..|a|] == a && Pad(b)[..|b|] == b;
    }
  }

  lemma MarkerMoves(a: seq<byte>, b: seq<byte>)
    requires |a| < |b|
    ensures Pad(a) != Pad(b)
  {
    hide Length64;
    assert Pad(b)[|b|] == 0x80;
    if |Pad(a)| == |Pad(b)| {
      assert |b| < |Pad(a)| - 8;
      assert Pad(a)[|b|] == Zeros(ZeroCount(|a|))[|b| - |a| - 1];
    }
  }

  /**
   * The two sequences behind the eight registers: each round makes one new `a` and one new `e`,
   * and b, c, d and f, g, h are the three values before them.
   */
  function NewA(h: state, b: block, t: int): bv32
    requires -3 <= t <= 64
    decreases t + 3, 1
  {
    if t <= 0 then h[-t]
    else Add(RoundT1(h, b, t), T2(NewA(h, b, t - 1), NewA(h, b, t - 2), NewA(h, b, t - 3)))
  }

  function NewE(h: state, b: block, t: int): bv32
    requires -3 <= t <= 64
    decreases t + 3, 1
  {
    if t <= 0 then h[4 - t] else Add(NewA(h, b, t - 4), RoundT1(h, b, t))
  }

  function RoundT1(h: state, b: block, t: int): bv32
    requires 1 <= t <= 64
    decreases t + 3, 0
  {
    T1(NewE(h, b, t - 1), NewE(h, b, t - 2), NewE(h, b, t - 3), NewE(h, b, t - 4), K[t - 1] as bv32, Schedule(b, t - 1))
  }

  lemma RoundStep(h: state, b: block, t: nat)
    requires t < 64
    ensures Rounds(h, b, 0) == h
    ensures Rounds(h, b, t + 1) == Round(Rounds(h, b, t), K[t] as bv32, Schedule(b, t))
  {
    hide Round, K, Schedule;
  }

  lemma DelayStep(h: state, b: block, t: int)
    requires -3 <= t <= 64
    ensures t <= 0 ==> NewA(h, b, t) == h[-t] && NewE(h, b, t) == h[4 - t]
    ensures t > 0 ==>
              var t1 := T1(NewE(h, b, t - 1), NewE(h, b, t - 2), NewE(h, b, t - 3), NewE(h, b, t - 4),
                           K[t - 1] as bv32, Schedule(b, t - 1));
              && NewA(h, b, t) == Add(t1, T2(NewA(h, b, t - 1), NewA(h, b, t - 2), NewA(h, b, t - 3)))
              && NewE(h, b, t) == Add(NewA(h, b, t - 4), t1)
  {
    hide K, Schedule, T1, T2, Add;
  }

  lemma EightWords(s: state)
    ensures s == [s[0], s[1], s[2], s[3], s[4], s[5], s[6], s[7]]
  {
  }

  lemma RoundShifts(a: bv32, b: bv32, c: bv32, d: bv32, e: bv32, f: bv32, g: bv32, h: bv32, k: bv32, w: bv32)
    ensures Round([a, b, c, d, e, f, g, h], k, w)
         == [Add(T1(e, f, g, h, k, w), T2(a, b, c)), a, b, c, Add(d, T1(e, f, g, h, k, w)), e, f, g]
  {
    hide T1, T2, Add;
  }

  lemma {:induction false} RegistersAreDelays(h: state, b: block, t: nat)
    requires t <= 64
    ensures Rounds(h, b, t) ==
            [NewA(h, b, t), NewA(h, b, t - 1), NewA(h, b, t - 2), NewA(h, b, t - 3),
             NewE(h, b, t), NewE(h, b, t - 1), NewE(h, b, t - 2), NewE(h, b, t - 3)]
  {
    hide K, Schedule, T1, T2, Add, Rounds, Round, NewA, NewE, RoundT1;
    EightWords(h);
    if t == 0 {
      RoundStep(h, b, 0);
      DelayStep(h, b, 0);
      DelayStep(h, b, -1);
      DelayStep(h, b, -2);
      DelayStep(h, b, -3);
    } else {
      RegistersAreDelays(h, b, t - 1);
      RoundStep(h, b, t - 1);
      DelayStep(h, b, t);
      RoundShifts(NewA(h, b, t - 1), NewA(h, b, t - 2), NewA(h, b, t - 3), NewA(h, b, t - 4),
                  NewE(h, b, t - 1), NewE(h, b, t - 2), NewE(h, b, t - 3), NewE(h, b, t - 4),
                  K[t - 1] as bv32, Schedule(b, t - 1));
      assert t - 1 - 1 == t - 2 && t - 1 - 2 == t - 3 && t - 1 - 3 == t - 4;
    }
  }
}
