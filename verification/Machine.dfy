/** Fixed-width integers of the 32-bit target, and the positional values of byte and word strings. */
module Machine {

  const WORD_BASE: int := 0x1_0000_0000
  const LONG_BASE: int := 0x1_0000_0000_0000_0000

  type byte = x: int | 0 <= x < 0x100
  type word = x: int | 0 <= x < 0x1_0000_0000
  type dword = x: int | 0 <= x < 0x1_0000_0000_0000_0000

  /** Reinterprets a mathematical integer as a signed 32-bit `long` (two's complement). */
  function ToLong(x: int): (r: int)
    ensures -0x8000_0000 <= r < 0x8000_0000
    ensures (r - x) % WORD_BASE == 0
    ensures -0x8000_0000 <= x < 0x8000_0000 ==> r == x
  {
    (x + 0x8000_0000) % WORD_BASE - 0x8000_0000
  }

  function Pow(base: nat, e: nat): (r: nat)
    ensures base > 0 ==> r > 0
  {
    if e == 0 then 1 else base * Pow(base, e - 1)
  }

  lemma PowStep(base: nat, e: nat)
    ensures Pow(base, e + 1) == base * Pow(base, e)
  {
  }

  lemma {:induction false} PowAdd(base: nat, a: nat, b: nat)
    ensures Pow(base, a + b) == Pow(base, a) * Pow(base, b)
  {
    if a == 0 {
    } else {
      PowAdd(base, a - 1, b);
      MulAssociates(base, Pow(base, a - 1), Pow(base, b));
      assert a + b - 1 == (a - 1) + b;
    }
  }

  lemma MulAssociates(a: int, b: int, c: int)
    ensures a * (b * c) == (a * b) * c
  {
  }

  lemma MulMonotone(a: int, b: int, p: nat)
    requires a <= b
    ensures a * p <= b * p
    ensures (a + 1) * p == a * p + p
  {
  }

  lemma MultipleBetween(d: int, k: int)
    requires -d < d * k < d
    ensures k == 0
  {
  }

  /** Quotient and remainder are determined by the division equation. */
  lemma QuotientUnique(n: int, d: int, q: int, r: int)
    requires d > 0 && 0 <= r < d && n == d * q + r
    ensures n / d == q && n % d == r
  {
    assert n == d * (n / d) + n % d;
    assert d * (q - n / d) == n % d - r;
    MultipleBetween(d, q - n / d);
  }

  lemma WrapAdd(n: nat, k: nat, p: nat)
    requires p > 0
    ensures (n % p + k) % p == (n + k) % p
  {
    var q, r := n / p, n % p;
    var u, v := (r + k) / p, (r + k) % p;
    assert n == p * q + r && r + k == p * u + v;
    assert n + k == p * (q + u) + v;
    QuotientUnique(n + k, p, q + u, v);
  }

  /** The number a byte string denotes, most significant byte first. */
  function BigEndian(s: seq<byte>): nat
  {
    if s == [] then 0 else BigEndian(s[..|s| - 1]) * 0x100 + s[|s| - 1]
  }

  lemma BigEndianSnoc(s: seq<byte>, b: byte)
    ensures BigEndian(s + [b]) == BigEndian(s) * 0x100 + b && BigEndian([]) == 0
  {
    assert (s + [b])[..|s|] == s;
  }

  /** The low `n` bytes of a number, most significant first. */
  function ToBytes(v: nat, n: nat): (s: seq<byte>)
    ensures |s| == n
  {
    if n == 0 then [] else ToBytes(v / 0x100, n - 1) + [v % 0x100]
  }

  lemma {:induction false} ToBytesInverts(s: seq<byte>)
    ensures ToBytes(BigEndian(s), |s|) == s
  {
    if s != [] {
      var n := |s| - 1;
      ToBytesInverts(s[..n]);
      assert BigEndian(s) / 0x100 == BigEndian(s[..n]) && BigEndian(s) % 0x100 == s[n];
    }
  }

  lemma {:induction false} ToBytesValue(v: nat, n: nat)
    requires v < Pow(0x100, n)
    ensures BigEndian(ToBytes(v, n)) == v
  {
    if n > 0 {
      ToBytesValue(v / 0x100, n - 1);
      assert ToBytes(v, n)[..n - 1] == ToBytes(v / 0x100, n - 1);
    }
  }

  lemma {:induction false} BigEndianConcat(a: seq<byte>, b: seq<byte>)
    ensures BigEndian(a + b) == BigEndian(a) * Pow(0x100, |b|) + BigEndian(b)
  {
    if b == [] {
      assert a + b == a;
    } else {
      var n := |b| - 1;
      BigEndianConcat(a, b[..n]);
      assert (a + b)[..|a + b| - 1] == a + b[..n];
      MulAssociates(BigEndian(a), Pow(0x100, n), 0x100);
    }
  }

  /** Digits of a number too large are those of its remainder. */
  lemma {:induction false} ToBytesWraps(v: nat, n: nat)
    ensures BigEndian(ToBytes(v, n)) == v % Pow(0x100, n)
  {
    if n > 0 {
      var p := Pow(0x100, n - 1);
      ToBytesWraps(v / 0x100, n - 1);
      assert ToBytes(v, n)[..n - 1] == ToBytes(v / 0x100, n - 1);
      SplitRemainder(v, p);
    }
  }

  lemma SplitRemainder(v: nat, p: nat)
    requires p > 0
    ensures v / 0x100 % p * 0x100 + v % 0x100 == v % (0x100 * p)
  {
    var h, b := v / 0x100, v % 0x100;
    var q, r := h / p, h % p;
    assert h == p * q + r;
    assert v == (0x100 * p) * q + (0x100 * r + b) by { assert 0x100 * (p * q) == (0x100 * p) * q; }
    QuotientUnique(v, 0x100 * p, q, 0x100 * r + b);
  }

  lemma {:induction false} ToBytesAt(v: nat, n: nat, j: nat)
    requires j < n
    ensures ToBytes(v, n)[j] == v / Pow(0x100, n - 1 - j) % 0x100
  {
    if j < n - 1 {
      ToBytesAt(v / 0x100, n - 1, j);
      QuotientTwice(v, Pow(0x100, n - 2 - j));
    }
  }

  lemma QuotientTwice(v: nat, p: nat)
    requires p > 0
    ensures v / 0x100 / p == v / (0x100 * p)
  {
    var h, b := v / 0x100, v % 0x100;
    var q, r := h / p, h % p;
    assert h == p * q + r;
    assert v == (0x100 * p) * q + (0x100 * r + b) by { assert 0x100 * (p * q) == (0x100 * p) * q; }
    QuotientUnique(v, 0x100 * p, q, 0x100 * r + b);
  }

  lemma {:induction false} BigEndianBound(s: seq<byte>)
    ensures BigEndian(s) < Pow(0x100, |s|)
  {
    if s != [] {
      BigEndianBound(s[..|s| - 1]);
    }
  }

  lemma Concats(a: seq<byte>, b: seq<byte>, c: seq<byte>)
    ensures a + b + c == a + (b + c) && [] + b + c == b + c
  {
  }

  /** memcpy(dst + at, src, n) */
  method Memcpy(dst: array<byte>, at: nat, src: seq<byte>)
    requires at + |src| <= dst.Length
    modifies dst
    ensures dst[..at] == old(dst[..at]) && dst[at..at + |src|] == src && dst[at + |src|..] == old(dst[at + |src|..])
    ensures forall k :: 0 <= k < dst.Length ==> dst[k] == if at <= k < at + |src| then src[k - at] else old(dst[k])
  {
    var i := 0;
    while i < |src|
      invariant 0 <= i <= |src|
      invariant forall k :: 0 <= k < dst.Length ==> dst[k] == if at <= k < at + i then src[k - at] else old(dst[k])
    {
      dst[at + i] := src[i];
      i := i + 1;
    }
  }
}
