/**
 * src/freedos_micro_python/port/libssh2_axtls.c: AES in counter mode (section 4 of RFC 4344).
 * The block function is a parameter: everything here holds for every one.
 */
module AesCtr {
  import opened Machine
  import opened Bits

  /** Four big-endian words, as `AES_encrypt` takes and returns them. */
  datatype Block = Block(w0: word, w1: word, w2: word, w3: word)

  type cipher = Block -> Block

  // ---- byte order on a little-endian host ----

  function LoadWord(s: seq<byte>): word
    requires |s| == 4
  {
    s[0] as int + 0x100 * s[1] as int + 0x1_0000 * s[2] as int + 0x100_0000 * s[3] as int
  }

  function StoreWord(w: word): (s: seq<byte>)
    ensures |s| == 4
  {
    [w % 0x100, w / 0x100 % 0x100, w / 0x1_0000 % 0x100, w / 0x100_0000]
  }

  /** ntohl and htonl */
  function SwapBytes(w: word): word
  {
    LoadWord([w / 0x100_0000, w / 0x1_0000 % 0x100, w / 0x100 % 0x100, w % 0x100])
  }

  function NetworkWord(s: seq<byte>): word
    requires |s| == 4
  {
    0x100_0000 * s[0] as int + 0x1_0000 * s[1] as int + 0x100 * s[2] as int + s[3] as int
  }

  function NetworkBytes(w: word): (s: seq<byte>)
    ensures |s| == 4
  {
    [w / 0x100_0000, w / 0x1_0000 % 0x100, w / 0x100 % 0x100, w % 0x100]
  }

  lemma Digits(w: int, b0: byte, b1: byte, b2: byte, b3: byte)
    requires w == b0 as int + 0x100 * b1 as int + 0x1_0000 * b2 as int + 0x100_0000 * b3 as int
    ensures w % 0x100 == b0 && w / 0x100 % 0x100 == b1 && w / 0x1_0000 % 0x100 == b2 && w / 0x100_0000 == b3
  {
    QuotientUnique(w, 0x100, b1 as int + 0x100 * b2 as int + 0x1_0000 * b3 as int, b0);
    QuotientUnique(w / 0x100, 0x100, b2 as int + 0x100 * b3 as int, b1);
    QuotientUnique(w, 0x1_0000, b2 as int + 0x100 * b3 as int, b0 as int + 0x100 * b1 as int);
    QuotientUnique(w / 0x1_0000, 0x100, b3, b2);
    QuotientUnique(w, 0x100_0000, b3, b0 as int + 0x100 * b1 as int + 0x1_0000 * b2 as int);
  }

  lemma LoadSwapped(s: seq<byte>)
    requires |s| == 4
    ensures SwapBytes(LoadWord(s)) == NetworkWord(s)
  {
    Digits(LoadWord(s), s[0], s[1], s[2], s[3]);
  }

  lemma StoreSwapped(w: word)
    ensures StoreWord(SwapBytes(w)) == NetworkBytes(w)
  {
    hide *;
    var b := NetworkBytes(w);
    SwapDigits(w);
    Digits(SwapBytes(w), b[0], b[1], b[2], b[3]);
    StoreDigits(SwapBytes(w), b);
  }

  lemma SwapDigits(w: word)
    ensures var b := NetworkBytes(w);
            SwapBytes(w) == b[0] as int + 0x100 * b[1] as int + 0x1_0000 * b[2] as int + 0x100_0000 * b[3] as int
  {
  }

  lemma StoreDigits(w: word, b: seq<byte>)
    requires |b| == 4
    requires w % 0x100 == b[0] && w / 0x100 % 0x100 == b[1] && w / 0x1_0000 % 0x100 == b[2] && w / 0x100_0000 == b[3]
    ensures StoreWord(w) == b
  {
  }

  // ---- the 128-bit counter ----

  function Period(): (p: nat)
    ensures p > 0
  {
    Pow(0x100, 16)
  }

  /** Big-endian increment: a byte that overflows carries into the one before it. */
  function Increment(s: seq<byte>): (r: seq<byte>)
    ensures |r| == |s|
  {
    if s == [] then []
    else
      var n := |s| - 1;
      if s[n] == 0xFF then Increment(s[..n]) + [0] else s[..n] + [s[n] + 1]
  }

  lemma IncrementLast(s: seq<byte>)
    ensures s == [] ==> Increment(s) == []
    ensures s != [] ==>
              var n := |s| - 1;
              Increment(s) == if s[n] == 0xFF then Increment(s[..n]) + [0] else s[..n] + [s[n] + 1]
  {
  }

  lemma {:induction false} IncrementAdds(s: seq<byte>)
    ensures BigEndian(Increment(s)) == (BigEndian(s) + 1) % Pow(0x100, |s|)
  {
    if s != [] {
      var n := |s| - 1;
      var p, r := Pow(0x100, n), Increment(s);
      BigEndianBound(s);
      BigEndianBound(s[..n]);
      assert Pow(0x100, |s|) == 0x100 * p;
      if s[n] == 0xFF {
        IncrementAdds(s[..n]);
        assert r[..n] == Increment(s[..n]) && r[n] == 0;
        Carry(BigEndian(s[..n]), p);
      } else {
        assert r[..n] == s[..n] && r[n] == s[n] + 1;
        NoCarry(BigEndian(s[..n]), s[n], p);
      }
    }
  }

  lemma Carry(v: nat, p: nat)
    requires v < p
    ensures (v + 1) % p * 0x100 == (v * 0x100 + 0xFF + 1) % (0x100 * p)
  {
    if v + 1 < p {
      QuotientUnique(v + 1, p, 0, v + 1);
      QuotientUnique(v * 0x100 + 0x100, 0x100 * p, 0, v * 0x100 + 0x100);
    } else {
      QuotientUnique(v + 1, p, 1, 0);
      QuotientUnique(v * 0x100 + 0x100, 0x100 * p, 1, 0);
    }
  }

  lemma NoCarry(v: nat, d: nat, p: nat)
    requires v < p && d < 0xFF
    ensures v * 0x100 + d + 1 == (v * 0x100 + d + 1) % (0x100 * p)
  {
    QuotientUnique(v * 0x100 + d + 1, 0x100 * p, 0, v * 0x100 + d + 1);
  }

  // ---- section 4 of RFC 4344 ----

  function ToBlock(c: seq<byte>): Block
    requires |c| == 16
  {
    Block(NetworkWord(c[..4]), NetworkWord(c[4..8]), NetworkWord(c[8..12]), NetworkWord(c[12..]))
  }

  function BlockBytes(b: Block): (s: seq<byte>)
    ensures |s| == 16
  {
    NetworkBytes(b.w0) + NetworkBytes(b.w1) + NetworkBytes(b.w2) + NetworkBytes(b.w3)
  }

  /** The key stream block for counter value `x`, taken modulo 2^128. */
  function KeyBlock(e: cipher, x: nat): (s: seq<byte>)
    ensures |s| == 16
  {
    BlockBytes(e(ToBlock(ToBytes(x % Period(), 16))))
  }

  function KeyByte(e: cipher, x: nat, i: nat): byte
  {
    KeyBlock(e, x + i / 16)[i % 16]
  }

  function Ctr(e: cipher, x: nat, m: seq<byte>): (c: seq<byte>)
    ensures |c| == |m|
  {
    seq(|m|, i requires 0 <= i < |m| => XorByte(m[i], KeyByte(e, x, i)))
  }

  /** Counter blocks a call consumes. */
  function BlocksOf(n: nat): nat { (n + 15) / 16 }

  // ---- the context ----

  class Context {
    const e: cipher
    const iv: array<byte>

    ghost predicate Valid()
      reads this
    {
      iv.Length == 16
    }

    /** The counter as a number. */
    ghost function Counter(): nat
      requires Valid()
      reads this, iv
    {
      BigEndian(iv[..])
    }

    constructor (block: cipher, start: seq<byte>)
      requires |start| == 16
      ensures Valid() && fresh(iv) && e == block && iv[..] == start
    {
      e := block;
      iv := new byte[16](i requires 0 <= i < 16 => start[i]);
    }

    /** One key stream block: load, swap, encrypt, swap, store. */
    method NextKeyBlock() returns (stream: seq<byte>)
      requires Valid()
      ensures stream == KeyBlock(e, Counter())
    {
      hide SwapBytes, LoadWord, StoreWord, NetworkWord, NetworkBytes, ToBytes, BigEndian;
      ghost var c := iv[..];
      var k0, k1 := LoadWord(iv[..4]), LoadWord(iv[4..8]);
      var k2, k3 := LoadWord(iv[8..12]), LoadWord(iv[12..]);
      k0, k1, k2, k3 := SwapBytes(k0), SwapBytes(k1), SwapBytes(k2), SwapBytes(k3);
      LoadSwapped(iv[..4]);
      LoadSwapped(iv[4..8]);
      LoadSwapped(iv[8..12]);
      LoadSwapped(iv[12..]);
      assert c[..4] == iv[..4] && c[4..8] == iv[4..8] && c[8..12] == iv[8..12] && c[12..] == iv[12..];
      assert Block(k0, k1, k2, k3) == ToBlock(c);
      var out := e(Block(k0, k1, k2, k3));
      StoreSwapped(out.w0);
      StoreSwapped(out.w1);
      StoreSwapped(out.w2);
      StoreSwapped(out.w3);
      stream := StoreWord(SwapBytes(out.w0)) + StoreWord(SwapBytes(out.w1))
              + StoreWord(SwapBytes(out.w2)) + StoreWord(SwapBytes(out.w3));
      CounterBytes(c);
    }

    /** The byte-carry loop. */
    method Bump()
      requires Valid()
      modifies iv
      ensures Counter() == (old(Counter()) + 1) % Period()
    {
      hide BigEndian, Pow, Increment;
      ghost var c := iv[..];
      var k := 15;
      assert c[..k + 1] == c && iv[k + 1..] == [];
      IncrementLast([]);
      while k >= 0
        invariant -1 <= k <= 15
        invariant iv[..k + 1] == c[..k + 1]
        invariant Increment(c) == Increment(c[..k + 1]) + iv[k + 1..]
      {
        ghost var rest := iv[k + 1..];
        IncrementLast(c[..k + 1]);
        assert c[..k + 1][..k] == c[..k] && iv[k] == iv[..k + 1][k];
        iv[k] := (iv[k] as int + 1) % 256;
        assert iv[k..] == [iv[k]] + rest && iv[..k] == c[..k];
        if iv[k] != 0 {
          assert iv[..] == iv[..k] + iv[k..];
          break;
        }
        Concats(Increment(c[..k]), [0], rest);
        k := k - 1;
      }
      assert iv[..] == Increment(c);
      IncrementAdds(c);
    }

    method XorInto(block: array<byte>, i: nat, take: nat, stream: seq<byte>)
      requires i + take <= block.Length && take <= |stream|
      modifies block
      ensures block[..] == XorAt(old(block[..]), i, take, stream)
    {
      hide XorByte;
      var j := 0;
      while j < take
        invariant 0 <= j <= take
        invariant block[..] == XorAt(old(block[..]), i, j, stream)
      {
        ghost var was := block[..];
        block[i + j] := XorByte(block[i + j], stream[j]);
        assert block[..] == was[i + j := XorByte(was[i + j], stream[j])];
        j := j + 1;
      }
    }

    /** `_libssh2_axtls_cipher_crypt` in counter mode; the same in both directions. */
    method Crypt(block: array<byte>, len: nat)
      requires Valid() && block != iv && len <= block.Length
      modifies block, iv
      ensures block[..len] == Ctr(e, old(Counter()), old(block[..len]))
      ensures block[len..] == old(block[len..])
      ensures Counter() == (old(Counter()) + BlocksOf(len)) % Period()
    {
      hide BigEndian, Period, KeyBlock, XorByte, CryptedTo, Ctr, XorAt;
      ghost var m, x := block[..], Counter();
      CounterBytes(iv[..]);
      CryptStart(m, e, x);
      assert x % Period() == x by { QuotientUnique(x, Period(), 0, x); }
      ghost var b := 0;
      var i := 0;
      while i < len
        invariant i == 16 * b
        invariant b <= BlocksOf(len) && (i >= len ==> b == BlocksOf(len))
        invariant Counter() == (x + b) % Period()
        invariant CryptedTo(block[..], m, e, x, if i < len then i else len)
      {
        var stream := NextKeyBlock();
        KeyBlockWraps(e, x + b);
        var take := if len - i < 16 then len - i else 16;
        CryptStep(block[..], m, e, x, b, take);
        XorInto(block, i, take, stream);
        Bump();
        WrapNext(x + b, Period());
        b := b + 1;
        i := i + 16;
      }
      CryptDone(block[..], m, e, x, len);
      assert block[..][..len] == block[..len] && block[..][len..] == block[len..];
      assert m[..len] == old(block[..len]) && m[len..] == old(block[len..]);
    }
  }

  /** `take` bytes from position `i` on, combined with the key stream. */
  function XorAt(was: seq<byte>, i: nat, take: nat, stream: seq<byte>): (now: seq<byte>)
    requires take <= |stream|
    ensures |now| == |was|
  {
    seq(|was|, k requires 0 <= k < |was| => if i <= k < i + take then XorByte(was[k], stream[k - i]) else was[k])
  }

  /** The first `done` bytes are processed, the others untouched. */
  ghost predicate CryptedTo(now: seq<byte>, m: seq<byte>, e: cipher, x: nat, done: nat)
  {
    && |now| == |m| && done <= |m|
    && forall i :: 0 <= i < |m| ==> now[i] == if i < done then XorByte(m[i], KeyByte(e, x, i)) else m[i]
  }

  lemma CryptStart(m: seq<byte>, e: cipher, x: nat)
    ensures CryptedTo(m, m, e, x, 0)
  {
  }

  lemma CryptStep(was: seq<byte>, m: seq<byte>, e: cipher, x: nat, b: nat, take: nat)
    requires CryptedTo(was, m, e, x, 16 * b)
    requires take <= 16 && 16 * b + take <= |m|
    ensures CryptedTo(XorAt(was, 16 * b, take, KeyBlock(e, x + b)), m, e, x, 16 * b + take)
  {
    hide XorByte, KeyBlock;
    var now := XorAt(was, 16 * b, take, KeyBlock(e, x + b));
    forall i | 16 * b <= i < 16 * b + take ensures now[i] == XorByte(m[i], KeyByte(e, x, i)) {
      QuotientUnique(i, 16, b, i - 16 * b);
    }
  }

  lemma CryptDone(now: seq<byte>, m: seq<byte>, e: cipher, x: nat, len: nat)
    requires CryptedTo(now, m, e, x, len)
    ensures |now| == |m| && len <= |m|
    ensures now[..len] == Ctr(e, x, m[..len]) && now[len..] == m[len..]
  {
    hide XorByte, KeyByte;
  }

  lemma WrapNext(n: nat, p: nat)
    requires p > 0
    ensures (n % p + 1) % p == (n + 1) % p && n % p % p == n % p
  {
    var q, r := n / p, n % p;
    assert n == p * q + r;
    QuotientUnique(r, p, 0, r);
    if r + 1 < p {
      QuotientUnique(r + 1, p, 0, r + 1);
      QuotientUnique(n + 1, p, q, r + 1);
    } else {
      QuotientUnique(r + 1, p, 1, 0);
      assert n + 1 == p * (q + 1) + 0;
      QuotientUnique(n + 1, p, q + 1, 0);
    }
  }

  lemma KeyBlockWraps(e: cipher, x: nat)
    ensures KeyBlock(e, x % Period()) == KeyBlock(e, x)
  {
    hide Period, ToBytes, ToBlock, BlockBytes;
    WrapNext(x, Period());
  }

  lemma CounterBytes(c: seq<byte>)
    requires |c| == 16
    ensures BigEndian(c) < Period() && ToBytes(BigEndian(c) % Period(), 16) == c
  {
    hide BigEndian, ToBytes, Pow;
    BigEndianBound(c);
    ToBytesInverts(c);
    QuotientUnique(BigEndian(c), Period(), 0, BigEndian(c));
  }

  // ---- which block the cipher sees ----

  /** The 128-bit number of a block, its first word on top. */
  function BlockNumber(b: Block): nat
  {
    ((b.w0 as int * WORD_BASE + b.w1) * WORD_BASE + b.w2) * WORD_BASE + b.w3
  }

  lemma NetworkWordValue(s: seq<byte>)
    requires |s| == 4
    ensures NetworkWord(s) == BigEndian(s)
  {
    hide BigEndian;
    BigEndianSnoc([], s[0]);
    BigEndianSnoc([] + [s[0]], s[1]);
    BigEndianSnoc([] + [s[0]] + [s[1]], s[2]);
    BigEndianSnoc([] + [s[0]] + [s[1]] + [s[2]], s[3]);
    assert s == [] + [s[0]] + [s[1]] + [s[2]] + [s[3]];
  }

  lemma NetworkBytesValue(w: word)
    ensures BigEndian(NetworkBytes(w)) == w
  {
    hide BigEndian;
    NetworkWordValue(NetworkBytes(w));
    NetworkRound(w);
  }

  lemma NetworkRound(w: word)
    ensures NetworkWord(NetworkBytes(w)) == w
  {
    QuotientTwice(w, 0x100);
    QuotientTwice(w, 0x1_0000);
    var a, b, c := w / 0x100, w / 0x1_0000, w / 0x100_0000;
    assert w == 0x100 * a + w % 0x100 && a == 0x100 * b + a % 0x100;
    QuotientTwice(a, 0x100);
    assert b == 0x100 * c + b % 0x100;
  }

  /** Four more bytes are one more word. */
  lemma BigEndianWord(a: seq<byte>, b: seq<byte>)
    requires |b| == 4
    ensures BigEndian(a + b) == BigEndian(a) * WORD_BASE + BigEndian(b)
  {
    BigEndianConcat(a, b);
    assert Pow(0x100, 4) == WORD_BASE;
  }

  /** The block function is applied to the words of the counter, most significant first. */
  lemma ToBlockNumber(c: seq<byte>)
    requires |c| == 16
    ensures BlockNumber(ToBlock(c)) == BigEndian(c)
  {
    hide BigEndian, NetworkWord;
    NetworkWordValue(c[..4]);
    NetworkWordValue(c[4..8]);
    NetworkWordValue(c[8..12]);
    NetworkWordValue(c[12..]);
    BigEndianWord(c[..4], c[4..8]);
    BigEndianWord(c[..8], c[8..12]);
    BigEndianWord(c[..12], c[12..]);
    assert c[..4] + c[4..8] == c[..8] && c[..8] + c[8..12] == c[..12] && c[..12] + c[12..] == c;
  }

  lemma BlockBytesNumber(b: Block)
    ensures BigEndian(BlockBytes(b)) == BlockNumber(b)
  {
    hide BigEndian, NetworkBytes;
    NetworkBytesValue(b.w0);
    NetworkBytesValue(b.w1);
    NetworkBytesValue(b.w2);
    NetworkBytesValue(b.w3);
    var n0, n1 := NetworkBytes(b.w0), NetworkBytes(b.w1);
    BigEndianWord(n0, n1);
    BigEndianWord(n0 + n1, NetworkBytes(b.w2));
    BigEndianWord(n0 + n1 + NetworkBytes(b.w2), NetworkBytes(b.w3));
  }

  /**
   * The key stream block for counter `x`: the cipher is given the block whose number is x modulo 2^128, and the
   * sixteen bytes are the number of its answer, most significant first.
   */
  lemma KeyBlockNumber(e: cipher, x: nat)
    ensures Period() == 0x1_0000_0000_0000_0000_0000_0000_0000_0000
    ensures BlockNumber(CounterBlock(x)) == x % Period()
    ensures BigEndian(KeyBlock(e, x)) == BlockNumber(e(CounterBlock(x)))
  {
    hide BigEndian, ToBytes, ToBlock, BlockBytes, BlockNumber;
    PeriodValue();
    ToBlockNumber(ToBytes(x % Period(), 16));
    BlockBytesNumber(e(CounterBlock(x)));
    ToBytesValue(x % Period(), 16);
  }

  lemma PeriodValue()
    ensures Period() == Pow(0x100, 16) == 0x1_0000_0000_0000_0000_0000_0000_0000_0000
  {
    PowAdd(0x100, 8, 8);
    assert Pow(0x100, 8) == LONG_BASE;
  }

  /** A block is known by its number. */
  lemma BlockNumberInjective(a: Block, b: Block)
    requires BlockNumber(a) == BlockNumber(b)
    ensures a == b
  {
    var am, bm := a.w0 as int * WORD_BASE + a.w1, b.w0 as int * WORD_BASE + b.w1;
    LastWord(am * WORD_BASE + a.w2, a.w3, bm * WORD_BASE + b.w2, b.w3);
    LastWord(am, a.w2, bm, b.w2);
    LastWord(a.w0, a.w1, b.w0, b.w1);
  }

  lemma LastWord(x: nat, v: word, y: nat, w: word)
    requires x * WORD_BASE + v == y * WORD_BASE + w
    ensures x == y && v == w
  {
  }

  /** Byte by byte: place `i` of a message meets place i mod 16 of the key stream block i / 16 further on. */
  lemma CtrAt(e: cipher, x: nat, m: seq<byte>, i: nat)
    requires i < |m|
    ensures Ctr(e, x, m)[i] == XorByte(m[i], KeyBlock(e, x + i / 16)[i % 16])
  {
    hide XorByte, KeyBlock;
  }

  lemma BlocksExactly(n: nat)
    ensures 16 * BlocksOf(n) >= n && (n > 0 ==> 16 * (BlocksOf(n) - 1) < n) && BlocksOf(0) == 0
  {
  }

  // ---- what counter mode promises ----

  /** Decrypting with the same key and counter gives the message back. */
  lemma CtrUndo(e: cipher, x: nat, m: seq<byte>)
    ensures Ctr(e, x, Ctr(e, x, m)) == m
  {
    hide Xor, KeyByte;
    forall i | 0 <= i < |m| ensures Ctr(e, x, Ctr(e, x, m))[i] == m[i] {
      XorUndo(m[i], KeyByte(e, x, i));
    }
  }

  /** Two calls in a row, the second starting at the counter the first left. */
  function TwoCalls(e: cipher, x: nat, a: seq<byte>, b: seq<byte>): seq<byte>
  {
    Ctr(e, x, a) + Ctr(e, (x + BlocksOf(|a|)) % Period(), b)
  }

  lemma CtrSplit(e: cipher, x: nat, a: seq<byte>, b: seq<byte>)
    requires |a| % 16 == 0
    ensures TwoCalls(e, x, a, b) == Ctr(e, x, a + b)
  {
    hide XorByte, KeyByte, Period;
    var n := |a| / 16;
    forall k | |a| <= k < |a| + |b| ensures KeyByte(e, x, k) == KeyByte(e, (x + n) % Period(), k - |a|) {
      LaterKeyByte(e, x, n, k - |a|);
    }
    assert BlocksOf(|a|) == n;
  }

  /** Whole blocks further on, the key stream is that of a larger counter. */
  lemma LaterKeyByte(e: cipher, x: nat, n: nat, i: nat)
    ensures KeyByte(e, x, 16 * n + i) == KeyByte(e, (x + n) % Period(), i)
  {
    hide *;
    var q := i / 16;
    QuotientUnique(16 * n + i, 16, n + q, i % 16);
    KeyByteIs(e, x, 16 * n + i);
    KeyByteIs(e, (x + n) % Period(), i);
    LaterKeyBlock(e, x + n, q);
    assert x + (n + q) == x + n + q;
  }

  lemma LaterKeyBlock(e: cipher, y: nat, q: nat)
    ensures KeyBlock(e, y % Period() + q) == KeyBlock(e, y + q)
  {
    hide *;
    WrapAdd(y, q, Period());
    KeyBlockWraps(e, y % Period() + q);
    KeyBlockWraps(e, y + q);
  }

  lemma KeyByteIs(e: cipher, x: nat, i: nat)
    ensures KeyByte(e, x, i) == KeyBlock(e, x + i / 16)[i % 16]
  {
    hide KeyBlock;
  }

  /** A block function that answers ones for one counter value and zeros for the rest. */
  function Probe(target: Block): cipher
  {
    b => if b == target then Block(0x0101_0101, 0x0101_0101, 0x0101_0101, 0x0101_0101) else Block(0, 0, 0, 0)
  }

  function CounterBlock(v: nat): Block { ToBlock(ToBytes(v % Period(), 16)) }

  lemma NetworkWordInjective(s: seq<byte>, t: seq<byte>)
    requires |s| == |t| == 4 && NetworkWord(s) == NetworkWord(t)
    ensures s == t
  {
    Digits(NetworkWord(s), s[3], s[2], s[1], s[0]);
    Digits(NetworkWord(t), t[3], t[2], t[1], t[0]);
  }

  lemma CounterBlockInjective(u: nat, v: nat)
    requires CounterBlock(u) == CounterBlock(v)
    ensures u % Period() == v % Period()
  {
    hide NetworkWord, ToBytes, BigEndian, Pow;
    var s, t := ToBytes(u % Period(), 16), ToBytes(v % Period(), 16);
    NetworkWordInjective(s[..4], t[..4]);
    NetworkWordInjective(s[4..8], t[4..8]);
    NetworkWordInjective(s[8..12], t[8..12]);
    NetworkWordInjective(s[12..], t[12..]);
    assert s == s[..4] + s[4..8] + s[8..12] + s[12..] && t == t[..4] + t[4..8] + t[8..12] + t[12..];
    ToBytesValue(u % Period(), 16);
    ToBytesValue(v % Period(), 16);
  }

  lemma ProbeBytes(target: Block, v: nat, i: nat)
    requires i < 16
    ensures KeyBlock(Probe(target), v)[i] == if CounterBlock(v) == target then 1 else 0
  {
    hide ToBytes, ToBlock, Period;
    assert NetworkBytes(0x0101_0101) == [1, 1, 1, 1] && NetworkBytes(0) == [0, 0, 0, 0];
  }

  /**
   * The code drops the rest of a key stream block at the end of a call. So cutting a message in two
   * leaves the result alone, for every block function, exactly when the cut is at a block boundary
   * or the second part is empty.
   */
  lemma CtrSplitExactly(x: nat, a: seq<byte>, b: seq<byte>)
    ensures (forall e: cipher :: TwoCalls(e, x, a, b) == Ctr(e, x, a + b)) <==> (|a| % 16 == 0 || b == [])
  {
    hide TwoCalls, Ctr;
    if |a| % 16 == 0 {
      forall e: cipher ensures TwoCalls(e, x, a, b) == Ctr(e, x, a + b) {
        CtrSplit(e, x, a, b);
      }
    } else if b == [] {
      forall e: cipher ensures TwoCalls(e, x, a, b) == Ctr(e, x, a + b) {
        EmptySecondCall(e, x, a);
      }
    } else {
      CtrSplitFails(x, a, b);
    }
  }

  lemma EmptySecondCall(e: cipher, x: nat, a: seq<byte>)
    ensures TwoCalls(e, x, a, []) == Ctr(e, x, a + [])
  {
  }

  lemma CtrSplitFails(x: nat, a: seq<byte>, b: seq<byte>)
    requires |a| % 16 != 0 && b != []
    ensures var e := Probe(CounterBlock(x + |a| / 16)); TwoCalls(e, x, a, b) != Ctr(e, x, a + b)
  {
    hide Xor, KeyBlock, CounterBlock, Probe, Pow, Period;
    var n := |a| / 16;
    var e := Probe(CounterBlock(x + n));
    var k, y := |a|, (x + BlocksOf(|a|)) % Period();
    assert BlocksOf(|a|) == n + 1;
    ProbeBytes(CounterBlock(x + n), x + n, k % 16);
    ProbeBytes(CounterBlock(x + n), y, 0);
    WrapNext(x + n, Period());
    WrapNext(x + n + 1, Period());
    OneApart(x + n, Period());
    if CounterBlock(y) == CounterBlock(x + n) {
      CounterBlockInjective(y, x + n);
    }
    assert KeyByte(e, x, k) == 1 && KeyByte(e, y, 0) == 0;
    assert Ctr(e, x, a + b)[k] == XorByte(b[0], 1) && TwoCalls(e, x, a, b)[k] == XorByte(b[0], 0);
    if Xor(b[0], 1) == Xor(b[0], 0) {
      XorCancels(b[0], 1, 0);
    }
  }

  lemma OneApart(n: nat, p: nat)
    ensures p > 1 ==> n % p != (n + 1) % p
    ensures Period() > 1
  {
    hide Pow;
    PowStep(0x100, 15);
    if p > 1 {
      WrapNext(n, p);
      var r := n % p;
      if r + 1 < p {
        QuotientUnique(r + 1, p, 0, r + 1);
      } else {
        QuotientUnique(r + 1, p, 1, 0);
      }
    }
  }

  // ---- a connection: any number of calls each way ----

  function CtrCalls(e: cipher, x: nat, calls: seq<seq<byte>>): (r: seq<seq<byte>>)
    ensures |r| == |calls|
    decreases |calls|
  {
    if calls == [] then []
    else [Ctr(e, x, calls[0])] + CtrCalls(e, (x + BlocksOf(|calls[0]|)) % Period(), calls[1..])
  }

  /** A receiver with the sender's key and starting counter recovers every call, whatever their lengths. */
  lemma {:induction false} CallsUndo(e: cipher, x: nat, calls: seq<seq<byte>>)
    ensures CtrCalls(e, x, CtrCalls(e, x, calls)) == calls
    decreases |calls|
  {
    if calls != [] {
      hide Ctr, Period;
      CtrUndo(e, x, calls[0]);
      CallsUndo(e, (x + BlocksOf(|calls[0]|)) % Period(), calls[1..]);
      var sent := CtrCalls(e, x, calls);
      assert sent[1..] == CtrCalls(e, (x + BlocksOf(|calls[0]|)) % Period(), calls[1..]);
      assert calls == [calls[0]] + calls[1..];
    }
  }

  /** Key stream blocks a list of calls consumes. */
  function TotalBlocks(calls: seq<seq<byte>>): nat
    decreases |calls|
  {
    if calls == [] then 0 else BlocksOf(|calls[0]|) + TotalBlocks(calls[1..])
  }

  lemma CallsStep(e: cipher, x: nat, calls: seq<seq<byte>>, i: nat)
    requires i <= |calls|
    ensures i == |calls| ==> CtrCalls(e, x, calls[i..]) == [] && TotalBlocks(calls[i..]) == 0
    ensures i < |calls| ==>
              && CtrCalls(e, x, calls[i..])
                 == [Ctr(e, x, calls[i])] + CtrCalls(e, (x + BlocksOf(|calls[i]|)) % Period(), calls[i + 1..])
              && TotalBlocks(calls[i..]) == BlocksOf(|calls[i]|) + TotalBlocks(calls[i + 1..])
  {
    hide Ctr, Period, BlocksOf;
    if i < |calls| {
      assert calls[i..][1..] == calls[i + 1..];
    }
  }

  lemma CounterSmall(ctx: Context)
    requires ctx.Valid()
    ensures ctx.Counter() == ctx.Counter() % Period()
  {
    hide BigEndian, Period;
    CounterBytes(ctx.iv[..]);
    QuotientUnique(ctx.Counter(), Period(), 0, ctx.Counter());
  }

  lemma StreamAppend(a: seq<seq<byte>>, b: seq<byte>, c: seq<seq<byte>>)
    ensures a + ([b] + c) == a + [b] + c
  {
  }

  /**
   * The same on the code: what is sent is counter mode of every call, the receiver recovers it,
   * and both counters advance by the blocks of all calls.
   */
  method Exchange(send: Context, recv: Context, calls: seq<seq<byte>>)
    returns (sent: seq<seq<byte>>, received: seq<seq<byte>>)
    requires send.Valid() && recv.Valid() && send.iv != recv.iv
    requires send.e == recv.e && send.Counter() == recv.Counter()
    modifies send.iv, recv.iv
    ensures sent == CtrCalls(send.e, old(send.Counter()), calls)
    ensures received == CtrCalls(recv.e, old(recv.Counter()), sent) && received == calls
    ensures send.Counter() == recv.Counter() == (old(send.Counter()) + TotalBlocks(calls)) % Period()
  {
    hide *;
    ghost var x0 := send.Counter();
    sent, received := [], [];
    var i := 0;
    ghost var blocks: nat := 0;
    assert calls[0..] == calls;
    CounterSmall(send);
    while i < |calls|
      invariant 0 <= i <= |calls| && received == calls[..i]
      invariant send.Counter() == recv.Counter() == (x0 + blocks) % Period()
      invariant blocks + TotalBlocks(calls[i..]) == TotalBlocks(calls)
      invariant sent + CtrCalls(send.e, send.Counter(), calls[i..]) == CtrCalls(send.e, x0, calls)
    {
      ghost var x := send.Counter();
      CallsStep(send.e, x, calls, i);
      var c := SendCall(send, calls[i]);
      var m := SendCall(recv, c);
      CtrUndo(send.e, x, calls[i]);
      WrapAdd(x0 + blocks, BlocksOf(|calls[i]|), Period());
      StreamAppend(sent, c, CtrCalls(send.e, send.Counter(), calls[i + 1..]));
      blocks := blocks + BlocksOf(|calls[i]|);
      sent, received := sent + [c], received + [m];
      i := i + 1;
    }
    CallsStep(send.e, send.Counter(), calls, i);
    assert calls[..i] == calls && sent + [] == sent;
    CallsUndo(send.e, x0, calls);
  }

  /** One call on a copy of the message. */
  method SendCall(ctx: Context, m: seq<byte>) returns (c: seq<byte>)
    requires ctx.Valid()
    modifies ctx.iv
    ensures c == Ctr(ctx.e, old(ctx.Counter()), m)
    ensures ctx.Counter() == (old(ctx.Counter()) + BlocksOf(|m|)) % Period()
  {
    hide BigEndian, Ctr, Period, BlocksOf;
    var buf := new byte[|m|](k requires 0 <= k < |m| => m[k]);
    assert buf[..|m|] == m;
    ctx.Crypt(buf, |m|);
    c := buf[..|m|];
  }

  // ---- cipher selection ----

  const AES128: int := 1
  const AES192: int := 2
  const AES256: int := 3
  const AES128_CTR: int := 4
  const AES192_CTR: int := 5
  const AES256_CTR: int := 6

  /** AES_set_key, and AES_convert_key where `inverse`; the key schedule itself is the library's. */
  type keying = (seq<byte>, int, bool) -> cipher

  /** `_libssh2_axtls_cipher_init`: null for the algorithms the backend refuses. */
  method CipherInit(algo: int, iv: seq<byte>, secret: seq<byte>, encrypt: bool, setKey: keying)
    returns (rc: int, ctx: Context?)
    requires |iv| == 16
    ensures rc == 0 <==> algo in {1, 3, 4, 6}
    ensures rc == 0 || rc == -1
    ensures ctx == null <==> rc != 0
    ensures rc == 0 ==> fresh(ctx) && fresh(ctx.iv) && ctx.Valid() && ctx.iv[..] == iv
    ensures rc == 0 ==> ctx.e == setKey(secret, if algo in {AES128, AES128_CTR} then 128 else 256,
                                        !encrypt && algo in {AES128, AES256})
  {
    var mode;
    if algo == AES128 || algo == AES128_CTR {
      mode := 128;
    } else if algo == AES192 || algo == AES192_CTR {
      return -1, null;
    } else if algo == AES256 || algo == AES256_CTR {
      mode := 256;
    } else {
      return -1, null;
    }
    var isCtr := AES128_CTR <= algo <= AES256_CTR;
    var inverse := !encrypt && !isCtr;
    ctx := new Context(setKey(secret, mode, inverse), iv);
    rc := 0;
  }
}
