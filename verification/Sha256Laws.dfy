/**
 * The parts of SHA-256 that FIPS 180-4 describes by other means than the code: the logical functions bit by bit,
 * the constants as roots of primes, and the order of bytes.
 */
module Sha256Laws {
  import opened Machine
  import opened Sha256Spec

  // ---- section 3.2 and section 4.1.2, bit by bit ----

  function BitAt(x: bv32, i: bv32): bv32
    requires i < 32
  {
    (x >> i) & 1
  }

  /** The place `n` above `i`, around the end of the word. */
  function Around(i: bv32, n: bv32): (j: bv32)
    ensures j < 32
  {
    (i + n) & 31
  }

  lemma AroundExactly(i: bv32, n: bv32)
    requires i < 32 && n < 32
    ensures Around(i, n) == if i + n < 32 then i + n else i + n - 32
  {
  }

  /** Exclusive or works on each bit alone. */
  lemma Xor3Bit(x: bv32, y: bv32, z: bv32, i: bv32)
    requires i < 32
    ensures BitAt(Xor3(x, y, z), i) == Xor3(BitAt(x, i), BitAt(y, i), BitAt(z, i))
  {
    hide BitAt, Xor2;
    Xor2Bit(x, y, i);
    Xor2Bit(Xor2(x, y), z, i);
  }

  lemma Xor2Bit(x: bv32, y: bv32, i: bv32)
    requires i < 32
    ensures BitAt(Xor2(x, y), i) == Xor2(BitAt(x, i), BitAt(y, i))
  {
  }

  lemma Xor3Law(x: bv32, y: bv32, z: bv32)
    ensures Xor2(x, y) == x ^ y && Xor3(x, y, z) == Xor2(Xor2(x, y), z)
  {
  }

  // A rotation moves every bit down, around the end of the word; a shift brings in zeros.

  lemma Rotr2Bit(x: bv32, i: bv32)
    requires i < 32
    ensures BitAt(Rotr(x, 2), i) == BitAt(x, Around(i, 2))
  {
  }

  lemma Rotr6Bit(x: bv32, i: bv32)
    requires i < 32
    ensures BitAt(Rotr(x, 6), i) == BitAt(x, Around(i, 6))
  {
  }

  lemma Rotr7Bit(x: bv32, i: bv32)
    requires i < 32
    ensures BitAt(Rotr(x, 7), i) == BitAt(x, Around(i, 7))
  {
  }

  lemma Rotr11Bit(x: bv32, i: bv32)
    requires i < 32
    ensures BitAt(Rotr(x, 11), i) == BitAt(x, Around(i, 11))
  {
  }

  lemma Rotr13Bit(x: bv32, i: bv32)
    requires i < 32
    ensures BitAt(Rotr(x, 13), i) == BitAt(x, Around(i, 13))
  {
  }

  lemma Rotr17Bit(x: bv32, i: bv32)
    requires i < 32
    ensures BitAt(Rotr(x, 17), i) == BitAt(x, Around(i, 17))
  {
  }

  lemma Rotr18Bit(x: bv32, i: bv32)
    requires i < 32
    ensures BitAt(Rotr(x, 18), i) == BitAt(x, Around(i, 18))
  {
  }

  lemma Rotr19Bit(x: bv32, i: bv32)
    requires i < 32
    ensures BitAt(Rotr(x, 19), i) == BitAt(x, Around(i, 19))
  {
  }

  lemma Rotr22Bit(x: bv32, i: bv32)
    requires i < 32
    ensures BitAt(Rotr(x, 22), i) == BitAt(x, Around(i, 22))
  {
  }

  lemma Rotr25Bit(x: bv32, i: bv32)
    requires i < 32
    ensures BitAt(Rotr(x, 25), i) == BitAt(x, Around(i, 25))
  {
  }

  lemma Shr3Bit(x: bv32, i: bv32)
    requires i < 32
    ensures BitAt(Shr(x, 3), i) == if i < 29 then BitAt(x, i + 3) else 0
  {
  }

  lemma Shr10Bit(x: bv32, i: bv32)
    requires i < 32
    ensures BitAt(Shr(x, 10), i) == if i < 22 then BitAt(x, i + 10) else 0
  {
  }

  lemma BigSigma0Bit(x: bv32, i: bv32)
    requires i < 32
    ensures BitAt(BigSigma0(x), i) == Xor3(BitAt(x, Around(i, 2)), BitAt(x, Around(i, 13)), BitAt(x, Around(i, 22)))
  {
    hide Rotr, BitAt, Around, Xor3;
    Xor3Bit(Rotr(x, 2), Rotr(x, 13), Rotr(x, 22), i);
    Rotr2Bit(x, i);
    Rotr13Bit(x, i);
    Rotr22Bit(x, i);
  }

  lemma BigSigma1Bit(x: bv32, i: bv32)
    requires i < 32
    ensures BitAt(BigSigma1(x), i) == Xor3(BitAt(x, Around(i, 6)), BitAt(x, Around(i, 11)), BitAt(x, Around(i, 25)))
  {
    hide Rotr, BitAt, Around, Xor3;
    Xor3Bit(Rotr(x, 6), Rotr(x, 11), Rotr(x, 25), i);
    Rotr6Bit(x, i);
    Rotr11Bit(x, i);
    Rotr25Bit(x, i);
  }

  lemma SmallSigma0Bit(x: bv32, i: bv32)
    requires i < 32
    ensures BitAt(SmallSigma0(x), i)
         == Xor3(BitAt(x, Around(i, 7)), BitAt(x, Around(i, 18)), if i < 29 then BitAt(x, i + 3) else 0)
  {
    hide Rotr, BitAt, Around, Xor3, Shr;
    Xor3Bit(Rotr(x, 7), Rotr(x, 18), Shr(x, 3), i);
    Rotr7Bit(x, i);
    Rotr18Bit(x, i);
    Shr3Bit(x, i);
  }

  lemma SmallSigma1Bit(x: bv32, i: bv32)
    requires i < 32
    ensures BitAt(SmallSigma1(x), i)
         == Xor3(BitAt(x, Around(i, 17)), BitAt(x, Around(i, 19)), if i < 22 then BitAt(x, i + 10) else 0)
  {
    hide Rotr, BitAt, Around, Xor3, Shr;
    Xor3Bit(Rotr(x, 17), Rotr(x, 19), Shr(x, 10), i);
    Rotr17Bit(x, i);
    Rotr19Bit(x, i);
    Shr10Bit(x, i);
  }

  /** Ch takes each bit from `y` where `x` is one and from `z` where it is zero. */
  lemma ChChooses(x: bv32, y: bv32, z: bv32)
    ensures Ch(x, y, z) & x == y & x && Ch(x, y, z) & !x == z & !x
  {
  }

  /** Maj takes the common bit of `x` and `y` where they agree, and the bit of `z` where they do not. */
  lemma MajDecides(x: bv32, y: bv32, z: bv32)
    ensures Maj(x, y, z) & !(x ^ y) == x & !(x ^ y) && Maj(x, y, z) & (x ^ y) == z & (x ^ y)
  {
  }

  // ---- section 4.2.2 and section 5.3.3: the constants ----

  /** The 32 bits after the point of the cube root of `p`, whose whole part is `c`. */
  predicate CubeRoot(k: word, p: nat, c: nat)
  {
    var r := c * 0x1_0000_0000 + k;
    r * r * r <= p * 0x1_0000_0000_0000_0000_0000_0000 < (r + 1) * (r + 1) * (r + 1) && k < 0x1_0000_0000
  }

  predicate SquareRoot(h: word, p: nat, c: nat)
  {
    var r := c * 0x1_0000_0000 + h;
    r * r <= p * 0x1_0000_0000_0000_0000 < (r + 1) * (r + 1)
  }

  lemma Entries0()
    ensures K[0] == 0x428a2f98 && K[1] == 0x71374491 && K[2] == 0xb5c0fbcf && K[3] == 0xe9b5dba5
    ensures K[4] == 0x3956c25b && K[5] == 0x59f111f1 && K[6] == 0x923f82a4 && K[7] == 0xab1c5ed5
  {
  }

  lemma Entries1()
    ensures K[8] == 0xd807aa98 && K[9] == 0x12835b01 && K[10] == 0x243185be && K[11] == 0x550c7dc3
    ensures K[12] == 0x72be5d74 && K[13] == 0x80deb1fe && K[14] == 0x9bdc06a7 && K[15] == 0xc19bf174
  {
  }

  lemma Entries2()
    ensures K[16] == 0xe49b69c1 && K[17] == 0xefbe4786 && K[18] == 0x0fc19dc6 && K[19] == 0x240ca1cc
    ensures K[20] == 0x2de92c6f && K[21] == 0x4a7484aa && K[22] == 0x5cb0a9dc && K[23] == 0x76f988da
  {
  }

  lemma Entries3()
    ensures K[24] == 0x983e5152 && K[25] == 0xa831c66d && K[26] == 0xb00327c8 && K[27] == 0xbf597fc7
    ensures K[28] == 0xc6e00bf3 && K[29] == 0xd5a79147 && K[30] == 0x06ca6351 && K[31] == 0x14292967
  {
  }

  lemma Entries4()
    ensures K[32] == 0x27b70a85 && K[33] == 0x2e1b2138 && K[34] == 0x4d2c6dfc && K[35] == 0x53380d13
    ensures K[36] == 0x650a7354 && K[37] == 0x766a0abb && K[38] == 0x81c2c92e && K[39] == 0x92722c85
  {
  }

  lemma Entries5()
    ensures K[40] == 0xa2bfe8a1 && K[41] == 0xa81a664b && K[42] == 0xc24b8b70 && K[43] == 0xc76c51a3
    ensures K[44] == 0xd192e819 && K[45] == 0xd6990624 && K[46] == 0xf40e3585 && K[47] == 0x106aa070
  {
  }

  lemma Entries6()
    ensures K[48] == 0x19a4c116 && K[49] == 0x1e376c08 && K[50] == 0x2748774c && K[51] == 0x34b0bcb5
    ensures K[52] == 0x391c0cb3 && K[53] == 0x4ed8aa4a && K[54] == 0x5b9cca4f && K[55] == 0x682e6ff3
  {
  }

  lemma Entries7()
    ensures K[56] == 0x748f82ee && K[57] == 0x78a5636f && K[58] == 0x84c87814 && K[59] == 0x8cc70208
    ensures K[60] == 0x90befffa && K[61] == 0xa4506ceb && K[62] == 0xbef9a3f7 && K[63] == 0xc67178f2
  {
  }

  /** The round constants come from the first sixty-four primes. */
  lemma K0()
    ensures CubeRoot(K[0], 2, 1) && CubeRoot(K[1], 3, 1) && CubeRoot(K[2], 5, 1) && CubeRoot(K[3], 7, 1)
    ensures CubeRoot(K[4], 11, 2) && CubeRoot(K[5], 13, 2) && CubeRoot(K[6], 17, 2) && CubeRoot(K[7], 19, 2)
  {
    Entries0();
  }

  lemma K1()
    ensures CubeRoot(K[8], 23, 2) && CubeRoot(K[9], 29, 3) && CubeRoot(K[10], 31, 3) && CubeRoot(K[11], 37, 3)
    ensures CubeRoot(K[12], 41, 3) && CubeRoot(K[13], 43, 3) && CubeRoot(K[14], 47, 3) && CubeRoot(K[15], 53, 3)
  {
    Entries1();
  }

  lemma K2()
    ensures CubeRoot(K[16], 59, 3) && CubeRoot(K[17], 61, 3) && CubeRoot(K[18], 67, 4) && CubeRoot(K[19], 71, 4)
    ensures CubeRoot(K[20], 73, 4) && CubeRoot(K[21], 79, 4) && CubeRoot(K[22], 83, 4) && CubeRoot(K[23], 89, 4)
  {
    Entries2();
  }

  lemma K3()
    ensures CubeRoot(K[24], 97, 4) && CubeRoot(K[25], 101, 4) && CubeRoot(K[26], 103, 4) && CubeRoot(K[27], 107, 4)
    ensures CubeRoot(K[28], 109, 4) && CubeRoot(K[29], 113, 4) && CubeRoot(K[30], 127, 5) && CubeRoot(K[31], 131, 5)
  {
    Entries3();
  }

  lemma K4()
    ensures CubeRoot(K[32], 137, 5) && CubeRoot(K[33], 139, 5) && CubeRoot(K[34], 149, 5) && CubeRoot(K[35], 151, 5)
    ensures CubeRoot(K[36], 157, 5) && CubeRoot(K[37], 163, 5) && CubeRoot(K[38], 167, 5) && CubeRoot(K[39], 173, 5)
  {
    Entries4();
  }

  lemma K5()
    ensures CubeRoot(K[40], 179, 5) && CubeRoot(K[41], 181, 5) && CubeRoot(K[42], 191, 5) && CubeRoot(K[43], 193, 5)
    ensures CubeRoot(K[44], 197, 5) && CubeRoot(K[45], 199, 5) && CubeRoot(K[46], 211, 5) && CubeRoot(K[47], 223, 6)
  {
    Entries5();
  }

  lemma K6()
    ensures CubeRoot(K[48], 227, 6) && CubeRoot(K[49], 229, 6) && CubeRoot(K[50], 233, 6) && CubeRoot(K[51], 239, 6)
    ensures CubeRoot(K[52], 241, 6) && CubeRoot(K[53], 251, 6) && CubeRoot(K[54], 257, 6) && CubeRoot(K[55], 263, 6)
  {
    Entries6();
  }

  lemma K7()
    ensures CubeRoot(K[56], 269, 6) && CubeRoot(K[57], 271, 6) && CubeRoot(K[58], 277, 6) && CubeRoot(K[59], 281, 6)
    ensures CubeRoot(K[60], 283, 6) && CubeRoot(K[61], 293, 6) && CubeRoot(K[62], 307, 6) && CubeRoot(K[63], 311, 6)
  {
    Entries7();
  }

  /** The initial hash value comes from the first eight primes. */
  lemma H0Roots()
    ensures SquareRoot(H0[0], 2, 1) && SquareRoot(H0[1], 3, 1) && SquareRoot(H0[2], 5, 2) && SquareRoot(H0[3], 7, 2)
    ensures SquareRoot(H0[4], 11, 3) && SquareRoot(H0[5], 13, 3) && SquareRoot(H0[6], 17, 4) && SquareRoot(H0[7], 19, 4)
  {
  }


  // ---- section 6.2.2 in terms of these ----

  /** The message schedule: a word of the block, or the sum over four earlier words. */
  lemma ScheduleLaw(b: block, t: nat)
    requires t < 64
    ensures t < 16 ==> Schedule(b, t) == WordAt(b, t)
    ensures t >= 16 ==>
              Schedule(b, t) == Add4(SmallSigma1(Schedule(b, t - 2)), Schedule(b, t - 7),
                                     SmallSigma0(Schedule(b, t - 15)), Schedule(b, t - 16))
  {
    hide WordAt, Add4, SmallSigma0, SmallSigma1;
  }

  lemma SumLaw(x: bv32, y: bv32, z: bv32, u: bv32)
    ensures Add(x, y) == x + y && Add4(x, y, z, u) == x + y + z + u
  {
  }

  /** One round: two new registers, six moved along. */
  lemma RoundLaw(v: state, k: bv32, w: bv32)
    ensures var t1 := Add(Add(Add(Add(v[7], BigSigma1(v[4])), Ch(v[4], v[5], v[6])), k), w);
            var t2 := Add(BigSigma0(v[0]), Maj(v[0], v[1], v[2]));
            Round(v, k, w) == [Add(t1, t2), v[0], v[1], v[2], Add(v[3], t1), v[4], v[5], v[6]]
  {
    hide Add, BigSigma0, BigSigma1, Ch, Maj;
  }

  /** Sixty-four rounds, added to the hash value; `RoundStep` gives each its constant and its schedule word. */
  lemma CompressLaw(h: state, b: block)
    ensures var v, r := Rounds(h, b, 64), Compress(h, b);
            && r[0] == Add(h[0], v[0]) && r[1] == Add(h[1], v[1]) && r[2] == Add(h[2], v[2]) && r[3] == Add(h[3], v[3])
            && r[4] == Add(h[4], v[4]) && r[5] == Add(h[5], v[5]) && r[6] == Add(h[6], v[6]) && r[7] == Add(h[7], v[7])
  {
    hide Add, Rounds;
  }

  // ---- the order of bytes and the padding ----

  lemma ByteMask(x: byte)
    ensures (x as bv32) & 0xFF == x as bv32
  {
  }

  /** A block word holds its four bytes, the first one on top. */
  lemma WordAtBytes(b: block, i: nat)
    requires i < 16
    ensures var w := WordAt(b, i);
            && w >> 24 == b[4 * i] as bv32 && (w >> 16) & 0xFF == b[4 * i + 1] as bv32
            && (w >> 8) & 0xFF == b[4 * i + 2] as bv32 && w & 0xFF == b[4 * i + 3] as bv32
  {
    WordParts(b[4 * i] as bv32, b[4 * i + 1] as bv32, b[4 * i + 2] as bv32, b[4 * i + 3] as bv32);
    ByteMask(b[4 * i]);
    ByteMask(b[4 * i + 1]);
    ByteMask(b[4 * i + 2]);
    ByteMask(b[4 * i + 3]);
  }

  lemma WordParts(p: bv32, q: bv32, r: bv32, s: bv32)
    ensures p & 0xFF == p && q & 0xFF == q && r & 0xFF == r && s & 0xFF == s ==>
              var w := (p << 24) | (q << 16) | (r << 8) | s;
              w >> 24 == p && (w >> 16) & 0xFF == q && (w >> 8) & 0xFF == r && w & 0xFF == s
  {
  }

  /** And the digest gives the state words byte by byte, the top byte first. */
  lemma WordBytesOrder(x: bv32)
    ensures WordBytes(x)
         == [(x >> 24) as int, ((x >> 16) & 0xFF) as int, ((x >> 8) & 0xFF) as int, (x & 0xFF) as int]
  {
    TopByte(x);
  }

  lemma TopByte(x: bv32)
    ensures (x >> 24) & 0xFF == x >> 24
  {
  }

  /** The stored length is the number modulo 2^64, most significant byte first. */
  lemma Length64Value(v: nat)
    ensures BigEndian(Length64(v)) == v % LONG_BASE
  {
    hide Length64, ToBytes, BigEndian, Pow;
    Length64Digits(v);
    ToBytesWraps(v, 8);
    LongBase();
  }

  lemma LongBase()
    ensures Pow(0x100, 8) == LONG_BASE
  {
  }

  lemma Length64Digits(v: nat)
    ensures Length64(v) == ToBytes(v, 8)
  {
    hide ToBytes, Pow;
    SmallPowers();
    ToBytesAt(v, 8, 0);
    ToBytesAt(v, 8, 1);
    ToBytesAt(v, 8, 2);
    ToBytesAt(v, 8, 3);
    ToBytesAt(v, 8, 4);
    ToBytesAt(v, 8, 5);
    ToBytesAt(v, 8, 6);
    ToBytesAt(v, 8, 7);
  }

  lemma SmallPowers()
    ensures Pow(0x100, 0) == 1 && Pow(0x100, 1) == 0x100 && Pow(0x100, 2) == 0x1_0000 && Pow(0x100, 3) == 0x100_0000
    ensures Pow(0x100, 4) == 0x1_0000_0000 && Pow(0x100, 5) == 0x100_0000_0000
    ensures Pow(0x100, 6) == 0x1_0000_0000_0000 && Pow(0x100, 7) == 0x100_0000_0000_0000
  {
  }

  /** The padding of section 5.1.1, place by place; it is the shortest that ends a block. */
  lemma PadLaw(m: seq<byte>)
    ensures var p, n := Pad(m), |m|;
            && |p| % 64 == 0 && n + 9 <= |p| < n + 9 + 64
            && p[..n] == m && p[n] == 0x80
            && (forall i :: n < i < |p| - 8 ==> p[i] == 0)
            && BigEndian(p[|p| - 8..]) == 8 * n % LONG_BASE
  {
    hide Length64, BigEndian;
    Length64Value(8 * |m|);
    var p := Pad(m);
    assert p[|p| - 8..] == Length64(8 * |m|);
  }

  lemma DigestLaw(m: seq<byte>)
    ensures |m| < 56 ==> |Pad(m)| == 64 && Digest(m) == StateBytes(Compress(H0State(), Pad(m)))
    ensures forall i :: 0 <= i < 8 ==> H0State()[i] == H0[i] as bv32
  {
    hide Compress, StateBytes, Length64, H0;
    if |m| < 56 {
      FoldEmpty(H0State());
      FoldBlock(H0State(), [], Pad(m));
      assert [] + Pad(m) == Pad(m);
    }
  }
}
