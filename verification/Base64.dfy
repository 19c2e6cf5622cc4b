/** src/freedos_micro_python/port/base64_uc386dos.c: base64 and base16 (sections 4 and 8 of RFC 4648). */
module Base64 {
  import opened Machine
  import UrlCodec

  type sextet = x: int | 0 <= x < 64
  type text = seq<byte>

  datatype Result = Ok(value: text) | ValueError

  const PAD: byte := 0x3D

  /** -1 for a byte outside the alphabet, the padding included. */
  function DecodeChar(c: byte): (v: int)
    ensures -1 <= v < 64
    ensures v >= 0 ==> c != PAD && !IsSpace(c)
  {
    if 0x41 <= c <= 0x5A then c - 0x41
    else if 0x61 <= c <= 0x7A then c - 0x61 + 26
    else if 0x30 <= c <= 0x39 then c - 0x30 + 52
    else if c == 0x2B then 62
    else if c == 0x2F then 63
    else -1
  }

  /** The alphabet string, A-Z a-z 0-9 + / */
  function Symbol(n: sextet): (c: byte)
    ensures DecodeChar(c) == n
  {
    if n < 26 then 0x41 + n
    else if n < 52 then 0x61 + n - 26
    else if n < 62 then 0x30 + n - 52
    else if n == 62 then 0x2B else 0x2F
  }

  /** The table of section 4 of RFC 4648. */
  lemma SymbolTable()
    ensures Symbol(0) == 'A' as int && Symbol(1) == 'B' as int && Symbol(2) == 'C' as int && Symbol(3) == 'D' as int
    ensures Symbol(4) == 'E' as int && Symbol(5) == 'F' as int && Symbol(6) == 'G' as int && Symbol(7) == 'H' as int
    ensures Symbol(8) == 'I' as int && Symbol(9) == 'J' as int && Symbol(10) == 'K' as int && Symbol(11) == 'L' as int
    ensures Symbol(12) == 'M' as int && Symbol(13) == 'N' as int && Symbol(14) == 'O' as int && Symbol(15) == 'P' as int
    ensures Symbol(16) == 'Q' as int && Symbol(17) == 'R' as int && Symbol(18) == 'S' as int && Symbol(19) == 'T' as int
    ensures Symbol(20) == 'U' as int && Symbol(21) == 'V' as int && Symbol(22) == 'W' as int && Symbol(23) == 'X' as int
    ensures Symbol(24) == 'Y' as int && Symbol(25) == 'Z' as int && Symbol(26) == 'a' as int && Symbol(27) == 'b' as int
    ensures Symbol(28) == 'c' as int && Symbol(29) == 'd' as int && Symbol(30) == 'e' as int && Symbol(31) == 'f' as int
    ensures Symbol(32) == 'g' as int && Symbol(33) == 'h' as int && Symbol(34) == 'i' as int && Symbol(35) == 'j' as int
    ensures Symbol(36) == 'k' as int && Symbol(37) == 'l' as int && Symbol(38) == 'm' as int && Symbol(39) == 'n' as int
    ensures Symbol(40) == 'o' as int && Symbol(41) == 'p' as int && Symbol(42) == 'q' as int && Symbol(43) == 'r' as int
    ensures Symbol(44) == 's' as int && Symbol(45) == 't' as int && Symbol(46) == 'u' as int && Symbol(47) == 'v' as int
    ensures Symbol(48) == 'w' as int && Symbol(49) == 'x' as int && Symbol(50) == 'y' as int && Symbol(51) == 'z' as int
    ensures Symbol(52) == '0' as int && Symbol(53) == '1' as int && Symbol(54) == '2' as int && Symbol(55) == '3' as int
    ensures Symbol(56) == '4' as int && Symbol(57) == '5' as int && Symbol(58) == '6' as int && Symbol(59) == '7' as int
    ensures Symbol(60) == '8' as int && Symbol(61) == '9' as int && Symbol(62) == '+' as int && Symbol(63) == '/' as int
  {
  }

  /** Reading is exact: a byte is a symbol only if it is the symbol of its value. */
  lemma SymbolExactly(c: byte)
    ensures DecodeChar(c) >= 0 ==> Symbol(DecodeChar(c)) == c
    ensures DecodeChar(c) < 0 ==> forall n: sextet :: Symbol(n) != c
  {
  }

  lemma SpaceExactly(c: byte)
    ensures IsSpace(c) <==> c as char in "\r\n \t"
    ensures PAD == '=' as int
  {
  }

  predicate IsSpace(c: byte) { c == 0x0D || c == 0x0A || c == 0x20 || c == 0x09 }

  /** Three bytes and their four groups are the same number, most significant first; a rest has zeros below it. */
  lemma SextetsValue(a: byte, b: byte, c: byte)
    ensures var v := Sextets([a, b, c]);
            |v| == 4 && ((a as int * 256 + b) * 256 + c) == ((v[0] as int * 64 + v[1]) * 64 + v[2]) * 64 + v[3]
    ensures var v := Sextets([a, b]); |v| == 3 && (a as int * 256 + b) * 4 == (v[0] as int * 64 + v[1]) * 64 + v[2]
    ensures var v := Sextets([a]); |v| == 2 && a as int * 16 == v[0] as int * 64 + v[1]
  {
    assert [a, b, c][3..] == [];
  }

  /** Section 10 of RFC 4648: "f" is "Zg==", "fo" is "Zm8=" and "foo" is "Zm9v". */
  lemma Vectors()
    ensures Encode(['f' as int]) == ['Z' as int, 'g' as int, '=' as int, '=' as int]
    ensures Encode(['f' as int, 'o' as int]) == ['Z' as int, 'm' as int, '8' as int, '=' as int]
    ensures Encode(['f' as int, 'o' as int, 'o' as int]) == ['Z' as int, 'm' as int, '9' as int, 'v' as int]
  {
    var foo: text := ['f' as int, 'o' as int, 'o' as int];
    assert foo[3..] == [] && Sextets(foo[3..]) == [];
    assert Sextets(foo) == [25, 38, 61, 47];
    SymbolTable();
  }

  // ---- bytes and sextets, bit by bit ----

  /** The six-bit groups of a byte string, the last one filled up with zero bits. */
  function Sextets(x: text): seq<sextet>
  {
    if x == [] then []
    else if |x| == 1 then [x[0] / 4, x[0] % 4 * 16]
    else if |x| == 2 then [x[0] / 4, x[0] % 4 * 16 + x[1] / 16, x[1] % 16 * 4]
    else [x[0] / 4, x[0] % 4 * 16 + x[1] / 16, x[1] % 16 * 4 + x[2] / 64, x[2] % 64] + Sextets(x[3..])
  }

  /** What a group `b` completes after `n` groups, the last of which is `a`: three bytes in every four groups. */
  function Completes(n: nat, a: sextet, b: sextet): text
  {
    if n % 4 == 0 then [] else if n % 4 == 1 then [Byte0(a, b)] else if n % 4 == 2 then [Byte1(a, b)] else [Byte2(a, b)]
  }

  function Last(v: seq<sextet>): sextet { if v == [] then 0 else v[|v| - 1] }

  /** The whole bytes in a run of six-bit groups; leftover bits are dropped. */
  function Pack(v: seq<sextet>): text
  {
    if v == [] then []
    else
      var n := |v| - 1;
      Pack(v[..n]) + Completes(n, Last(v[..n]), v[n])
  }

  function Byte0(a: sextet, b: sextet): byte { a as int * 4 + b as int / 16 }
  function Byte1(a: sextet, b: sextet): byte { a as int % 16 * 16 + b as int / 4 }
  function Byte2(a: sextet, b: sextet): byte { a as int % 4 * 64 + b as int }

  lemma Recombine(a: byte, b: byte, c: byte)
    ensures Byte0(a / 4, a % 4 * 16 + b / 16) == a && Byte0(a / 4, a % 4 * 16) == a
    ensures Byte1(a % 4 * 16 + b / 16, b % 16 * 4 + c / 64) == b && Byte1(a % 4 * 16 + b / 16, b % 16 * 4) == b
    ensures Byte2(b % 16 * 4 + c / 64, c % 64) == c
  {
  }

  lemma PackSnoc(v: seq<sextet>, s: sextet)
    ensures Pack(v + [s]) == Pack(v) + Completes(|v|, Last(v), s)
  {
  }

  /** Whole quads are packed on their own. */
  lemma {:induction false} PackQuads(q: seq<sextet>, w: seq<sextet>)
    requires |q| % 4 == 0
    ensures Pack(q + w) == Pack(q) + Pack(w)
    decreases |w|
  {
    hide Pack, Completes, Last;
    if w == [] {
      assert q + w == q;
      PackNone();
    } else {
      var n := |w| - 1;
      PackQuads(q, w[..n]);
      PackSnoc(q + w[..n], w[n]);
      PackSnoc(w[..n], w[n]);
      assert w == w[..n] + [w[n]];
      assert q + w == q + w[..n] + [w[n]];
      SamePlace(q, w[..n], w[n]);
    }
  }

  lemma SamePlace(q: seq<sextet>, w: seq<sextet>, s: sextet)
    requires |q| % 4 == 0
    ensures Completes(|q + w|, Last(q + w), s) == Completes(|w|, Last(w), s)
  {
    hide Byte0, Byte1, Byte2;
    assert |q + w| % 4 == |w| % 4;
  }

  lemma PackUpTo4(a: sextet, b: sextet, c: sextet, d: sextet)
    ensures Pack([a, b]) == [Byte0(a, b)]
    ensures Pack([a, b, c]) == [Byte0(a, b), Byte1(b, c)]
    ensures Pack([a, b, c, d]) == [Byte0(a, b), Byte1(b, c), Byte2(c, d)]
  {
    hide Byte0, Byte1, Byte2, Pack;
    PackTwo(a, b);
    PackSnoc([a, b], c);
    assert [a, b] + [c] == [a, b, c];
    PackSnoc([a, b, c], d);
    assert [a, b, c] + [d] == [a, b, c, d];
  }

  lemma PackTwo(a: sextet, b: sextet)
    ensures Pack([a, b]) == [Byte0(a, b)]
  {
    hide Byte0, Byte1, Byte2, Pack;
    PackNone();
    PackSnoc([], a);
    assert [] + [a] == [a];
    PackSnoc([a], b);
    assert [a] + [b] == [a, b];
  }

  lemma PackNone()
    ensures Pack([]) == []
  {
  }

  lemma {:induction false} PackSextets(x: text)
    ensures Pack(Sextets(x)) == x
    decreases |x|
  {
    hide Byte0, Byte1, Byte2, Pack;
    if x == [] {
      PackNone();
    } else if |x| == 1 {
      Recombine(x[0], 0, 0);
      PackUpTo4(x[0] / 4, x[0] % 4 * 16, 0, 0);
    } else if |x| == 2 {
      Recombine(x[0], x[1], 0);
      PackUpTo4(x[0] / 4, x[0] % 4 * 16 + x[1] / 16, x[1] % 16 * 4, 0);
    } else {
      PackSextets(x[3..]);
      Recombine(x[0], x[1], x[2]);
      var a, b, c, d: sextet := x[0] / 4, x[0] % 4 * 16 + x[1] / 16, x[1] % 16 * 4 + x[2] / 64, x[2] % 64;
      PackUpTo4(a, b, c, d);
      PackQuads([a, b, c, d], Sextets(x[3..]));
      assert x == [x[0], x[1], x[2]] + x[3..];
    }
  }

  // ---- encoding ----

  function Symbols(v: seq<sextet>): (s: text)
    ensures |s| == |v|
  {
    seq(|v|, i requires 0 <= i < |v| => Symbol(v[i]))
  }

  function Padding(n: nat): text { if n % 3 == 0 then [] else if n % 3 == 1 then [PAD, PAD] else [PAD] }

  function Encode(x: text): text { Symbols(Sextets(x)) + Padding(|x|) }

  lemma SplitDigits(v: int, a1: int, a0: int, b1: int, b0: int, c1: int, c0: int)
    requires 0 <= a1 < 64 && 0 <= a0 < 4 && 0 <= b1 < 16 && 0 <= b0 < 16 && 0 <= c1 < 4 && 0 <= c0 < 64
    requires v == (4 * a1 + a0) * 0x1_0000 + (16 * b1 + b0) * 0x100 + 64 * c1 + c0
    ensures v / 0x4_0000 % 64 == a1 && v / 0x1000 % 64 == a0 * 16 + b1
    ensures v / 64 % 64 == b0 * 4 + c1 && v % 64 == c0
  {
    QuotientUnique(v, 0x4_0000, a1, a0 * 0x1_0000 + (16 * b1 + b0) * 0x100 + 64 * c1 + c0);
    QuotientUnique(v, 0x1000, a1 * 64 + a0 * 16 + b1, b0 * 0x100 + 64 * c1 + c0);
    QuotientUnique(v / 0x1000, 64, a1, a0 * 16 + b1);
    QuotientUnique(v, 64, a1 * 0x1000 + a0 * 0x400 + b1 * 64 + b0 * 4 + c1, c0);
    QuotientUnique(v / 64, 64, a1 * 64 + a0 * 16 + b1, b0 * 4 + c1);
  }

  /** The four characters of a full group, as the code shifts them out of a word. */
  function Quad(a: byte, b: byte, c: byte): (q: text)
    ensures |q| == 4
  {
    var v := a as int * 0x1_0000 + b as int * 0x100 + c as int;
    [Symbol(v / 0x4_0000 % 64), Symbol(v / 0x1000 % 64), Symbol(v / 64 % 64), Symbol(v % 64)]
  }

  lemma QuadSymbols(a: byte, b: byte, c: byte)
    ensures Quad(a, b, c) == Symbols([a / 4, a % 4 * 16 + b / 16, b % 16 * 4 + c / 64, c % 64])
  {
    hide Symbol;
    SplitDigits(a as int * 0x1_0000 + b as int * 0x100 + c as int, a / 4, a % 4, b / 16, b % 16, c / 64, c % 64);
  }

  lemma SymbolsConcat(v: seq<sextet>, w: seq<sextet>)
    ensures Symbols(v + w) == Symbols(v) + Symbols(w)
  {
  }

  lemma EncodeFull(x: text)
    requires |x| >= 3
    ensures Encode(x) == Quad(x[0], x[1], x[2]) + Encode(x[3..])
  {
    hide Symbol, Quad, Symbols, Padding;
    QuadSymbols(x[0], x[1], x[2]);
    SymbolsConcat([x[0] / 4, x[0] % 4 * 16 + x[1] / 16, x[1] % 16 * 4 + x[2] / 64, x[2] % 64], Sextets(x[3..]));
    PaddingStep(|x|);
  }

  lemma EncodeRest(x: text)
    requires |x| < 3
    ensures Encode(x) == if |x| == 0 then [] else if |x| == 1 then Quad(x[0], 0, 0)[..2] + [PAD, PAD]
                         else Quad(x[0], x[1], 0)[..3] + [PAD]
  {
    hide Symbol, Quad;
    if |x| == 1 {
      QuadSymbols(x[0], 0, 0);
    } else if |x| == 2 {
      QuadSymbols(x[0], x[1], 0);
    }
  }

  lemma PaddingStep(n: nat)
    requires n >= 3
    ensures Padding(n) == Padding(n - 3)
  {
  }

  lemma {:induction false} EncodeLength(x: text)
    ensures |Encode(x)| == (|x| + 2) / 3 * 4
    decreases |x|
  {
    hide Encode, Quad;
    if |x| >= 3 {
      EncodeFull(x);
      EncodeLength(x[3..]);
    } else {
      EncodeRest(x);
    }
  }

  /** Four times `*out++ = ...`. */
  method PutFour(out: array<byte>, o: nat, q: text)
    requires |q| == 4 && o + 4 <= out.Length
    modifies out
    ensures out[..o + 4] == old(out[..o]) + q
  {
    out[o] := q[0];
    out[o + 1] := q[1];
    out[o + 2] := q[2];
    out[o + 3] := q[3];
  }

  method B64Encode(src: text) returns (out: array<byte>)
    ensures fresh(out) && out[..] == Encode(src)
  {
    hide Encode, Quad;
    var n := |src|;
    EncodeLength(src);
    out := new byte[(n + 2) / 3 * 4];
    var i, o := 0, 0;
    assert src[0..] == src;
    while i + 3 <= n
      invariant 0 <= i <= n && o + |Encode(src[i..])| == out.Length
      invariant out[..o] + Encode(src[i..]) == Encode(src)
    {
      EncodeFull(src[i..]);
      assert src[i..][3..] == src[i + 3..];
      var q := Quad(src[i], src[i + 1], src[i + 2]);
      PutFour(out, o, q);
      i, o := i + 3, o + 4;
    }
    EncodeRest(src[i..]);
    var rem := n - i;
    if rem == 1 {
      var q := Quad(src[i], 0, 0);
      PutFour(out, o, q[..2] + [PAD, PAD]);
      assert out[..] == out[..o + 4];
    } else if rem == 2 {
      var q := Quad(src[i], src[i + 1], 0);
      PutFour(out, o, q[..3] + [PAD]);
      assert out[..] == out[..o + 4];
    } else {
      assert out[..] == out[..o];
    }
  }

  // ---- decoding ----

  datatype Groups = Invalid | Groups(v: seq<sextet>)

  /** The groups before the first "=", whitespace left out; invalid when another byte comes up. */
  function Collect(s: text): Groups
  {
    if s == [] then Groups([])
    else if IsSpace(s[0]) then Collect(s[1..])
    else if s[0] == PAD then Groups([])
    else if DecodeChar(s[0]) < 0 then Invalid
    else Prefixed([DecodeChar(s[0])], Collect(s[1..]))
  }

  function Decode(s: text): Result
  {
    match Collect(s) case Invalid => ValueError case Groups(v) => Ok(Pack(v))
  }

  /** The loop's accumulator: a signed 32-bit int, shifted left and never masked. */
  function ShiftIn(bits: int, v: sextet): int { ToLong(bits * 64 + v) }

  /** Bits still waiting for the rest of their byte after `n` groups. */
  function Waiting(n: nat): (w: nat)
    ensures w <= 6 && w % 2 == 0
  {
    if n % 4 == 0 then 0 else 8 - 2 * (n % 4)
  }

  function Pow2(n: nat): (p: nat)
    requires n <= 6 && n % 2 == 0
    ensures p > 0
  {
    if n == 0 then 1 else if n == 2 then 4 else if n == 4 then 16 else 64
  }

  /** The low bits of the accumulator are the waiting bits; the others do not matter. */
  ghost predicate Tracks(bits: int, v: seq<sextet>)
  {
    bits % Pow2(Waiting(|v|)) == Last(v) as int % Pow2(Waiting(|v|))
  }

  /** Wrapping at 32 bits leaves everything below alone. */
  lemma ShiftInForm(bits: int, s: sextet) returns (j: int)
    ensures ShiftIn(bits, s) == 64 * bits + s as int + WORD_BASE * j
  {
    j := (ShiftIn(bits, s) - (bits * 64 + s as int)) / WORD_BASE;
  }

  lemma Field(x: int, d: int, k: int, t: int)
    requires d > 0 && x == 256 * (d * k) + t && 0 <= t < 256 * d
    ensures x / d % 256 == t / d && x % d == t % d
  {
    var u, r := t / d, t % d;
    assert t == d * u + r;
    assert x == d * (256 * k + u) + r by { assert d * (256 * k + u) == 256 * (d * k) + d * u; }
    QuotientUnique(x, d, 256 * k + u, r);
    if u >= 256 {
      MulMonotone(256, u, d);
    }
    QuotientUnique(256 * k + u, 256, k, u);
  }

  lemma Shift64(bits: int, s: sextet)
    ensures ShiftIn(bits, s) % 64 == s
  {
  }

  lemma Shift16(bits: int, a: sextet, s: sextet)
    requires bits % 64 == a
    ensures ShiftIn(bits, s) / 16 % 256 == Byte0(a, s) && ShiftIn(bits, s) % 16 == s as int % 16
  {
    var j := ShiftInForm(bits, s);
    var q, t := bits / 64, 64 * a as int + s as int;
    Field(ShiftIn(bits, s), 16, q + 0x10_0000 * j, t);
    QuotientUnique(t, 16, 4 * a as int + s as int / 16, s as int % 16);
  }

  lemma Shift4(bits: int, a: sextet, s: sextet)
    requires bits % 16 == a as int % 16
    ensures ShiftIn(bits, s) / 4 % 256 == Byte1(a, s) && ShiftIn(bits, s) % 4 == s as int % 4
  {
    var j := ShiftInForm(bits, s);
    var q, t := bits / 16, 64 * (a as int % 16) + s as int;
    Field(ShiftIn(bits, s), 4, q + 0x40_0000 * j, t);
    QuotientUnique(t, 4, 16 * (a as int % 16) + s as int / 4, s as int % 4);
  }

  lemma Shift1(bits: int, a: sextet, s: sextet)
    requires bits % 4 == a as int % 4
    ensures ShiftIn(bits, s) % 256 == Byte2(a, s)
  {
  }

  /** One more group: the accumulator keeps tracking, and the byte it yields is the one the groups complete. */
  lemma TrackStep(bits: int, v: seq<sextet>, s: sextet)
    requires Tracks(bits, v)
    ensures Tracks(ShiftIn(bits, s), v + [s])
    ensures |v| % 4 != 0 ==>
              Completes(|v|, Last(v), s) == [ShiftIn(bits, s) / Pow2(Waiting(|v| + 1)) % 256]
  {
    hide ShiftIn, Byte0, Byte1, Byte2;
    assert Last(v + [s]) == s;
    if |v| % 4 == 0 {
      Shift64(bits, s);
      assert (|v| + 1) % 4 == 1;
    } else if |v| % 4 == 1 {
      Shift16(bits, Last(v), s);
      assert (|v| + 1) % 4 == 2;
    } else if |v| % 4 == 2 {
      Shift4(bits, Last(v), s);
      assert (|v| + 1) % 4 == 3;
    } else {
      Shift1(bits, Last(v), s);
      assert (|v| + 1) % 4 == 0;
    }
  }

  /** `base64_b64decode`. */
  method B64Decode(src: text) returns (r: Result)
    ensures r == Decode(src)
  {
    hide Pack, Tracks, ShiftIn, Completes, Last, DecodeChar;
    var vstr: text := [];
    var bits, collected := 0, 0;
    ghost var v: seq<sextet> := [];
    NothingYet();
    var i := 0;
    assert src[0..] == src;
    while i < |src|
      invariant 0 <= i <= |src|
      invariant Prefixed(v, Collect(src[i..])) == Collect(src)
      invariant vstr == Pack(v) && collected == Waiting(|v|) && Tracks(bits, v)
    {
      var c := src[i];
      assert src[i..][1..] == src[i + 1..];
      i := i + 1;
      if IsSpace(c) {
        continue;
      }
      if c == PAD {
        assert v + [] == v;
        return Ok(vstr);
      }
      var d := DecodeChar(c);
      if d < 0 {
        return ValueError;
      }
      TrackStep(bits, v, d);
      PackSnoc(v, d);
      PrefixedStep(v, d, Collect(src[i..]));
      CompletesNone(|v|, Last(v), d);
      bits := ShiftIn(bits, d);
      collected := collected + 6;
      if collected >= 8 {
        collected := collected - 8;
        vstr := vstr + [bits / Pow2(collected) % 256];
      }
      v := v + [d];
    }
    assert src[i..] == [] && v + [] == v;
    return Ok(vstr);
  }

  lemma NothingYet()
    ensures Pack([]) == [] && Tracks(0, [])
  {
  }

  lemma CompletesNone(n: nat, a: sextet, b: sextet)
    ensures n % 4 == 0 ==> Completes(n, a, b) == []
  {
  }

  function Prefixed(v: seq<sextet>, g: Groups): Groups
  {
    match g case Invalid => Invalid case Groups(w) => Groups(v + w)
  }

  lemma PrefixedStep(v: seq<sextet>, d: sextet, g: Groups)
    ensures Prefixed(v, Prefixed([d], g)) == Prefixed(v + [d], g)
  {
  }

  // ---- the round trip ----

  function StripSpace(s: text): text
  {
    if s == [] then [] else (if IsSpace(s[0]) then [] else [s[0]]) + StripSpace(s[1..])
  }

  lemma {:induction false} CollectStripped(s: text)
    ensures Collect(StripSpace(s)) == Collect(s)
  {
    if s != [] {
      CollectStripped(s[1..]);
      if IsSpace(s[0]) {
        assert StripSpace(s) == StripSpace(s[1..]);
      } else {
        assert StripSpace(s)[1..] == StripSpace(s[1..]);
      }
    }
  }

  lemma {:induction false} CollectSymbols(v: seq<sextet>, pad: text)
    requires pad == [] || pad[0] == PAD
    ensures Collect(Symbols(v) + pad) == Groups(v)
  {
    if v == [] {
      assert Symbols(v) + pad == pad;
    } else {
      hide Symbol, DecodeChar;
      var t := Symbols(v) + pad;
      assert t[0] == Symbol(v[0]);
      assert t[1..] == Symbols(v[1..]) + pad;
      CollectSymbols(v[1..], pad);
      assert v == [v[0]] + v[1..];
    }
  }

  /** Every byte string comes back, with whitespace inserted anywhere in its encoding. */
  lemma DecodeEncode(x: text, t: text)
    requires StripSpace(t) == Encode(x)
    ensures Decode(t) == Ok(x)
  {
    hide Pack, Sextets, Symbols, Collect, StripSpace;
    CollectStripped(t);
    CollectSymbols(Sextets(x), Padding(|x|));
    PackSextets(x);
  }

  lemma {:induction false} EncodeUnspaced(x: text)
    ensures StripSpace(Encode(x)) == Encode(x)
  {
    hide Sextets;
    NoSpaces(Encode(x));
  }

  lemma {:induction false} NoSpaces(s: text)
    requires forall i :: 0 <= i < |s| ==> !IsSpace(s[i])
    ensures StripSpace(s) == s
  {
    if s != [] {
      NoSpaces(s[1..]);
      assert s == [s[0]] + s[1..];
    }
  }

  // ---- base16 ----

  /** The two digits of a byte, which read as the byte. */
  function HexPair(b: byte): (p: text)
    ensures |p| == 2 && UrlCodec.HexValue(p[0]) >= 0 && UrlCodec.HexValue(p[1]) >= 0
    ensures UrlCodec.HexValue(p[0]) * 16 + UrlCodec.HexValue(p[1]) == b
  {
    [UrlCodec.HexDigit(b / 16), UrlCodec.HexDigit(b % 16)]
  }

  function Encode16(x: text): text
  {
    if x == [] then [] else HexPair(x[0]) + Encode16(x[1..])
  }

  /** Pairs of hexadecimal digits of either case; anything else is an error. */
  function Decode16(s: text): Result
  {
    if |s| % 2 == 1 then ValueError
    else if s == [] then Ok([])
    else
      var hi, lo := UrlCodec.HexValue(s[0]), UrlCodec.HexValue(s[1]);
      if hi < 0 || lo < 0 then ValueError
      else Prefixed16([hi * 16 + lo], Decode16(s[2..]))
  }

  function Prefixed16(x: text, r: Result): Result
  {
    match r case ValueError => ValueError case Ok(v) => Ok(x + v)
  }

  method PutTwo(out: array<byte>, o: nat, pair: text)
    requires |pair| == 2 && o + 2 <= out.Length
    modifies out
    ensures out[..o + 2] == old(out[..o]) + pair
  {
    out[o] := pair[0];
    out[o + 1] := pair[1];
  }

  method B16Encode(src: text) returns (out: array<byte>)
    ensures fresh(out) && out[..] == Encode16(src)
  {
    hide *;
    out := new byte[2 * |src|];
    var i, o := 0, 0;
    Encode16Step(src, |src|);
    EncodeStart(src, out[..0]);
    while i < |src|
      invariant 0 <= i <= |src| && o == 2 * i
      invariant out[..o] + Encode16(src[i..]) == Encode16(src)
    {
      Encode16Step(src, i);
      Concats(out[..o], HexPair(src[i]), Encode16(src[i + 1..]));
      PutTwo(out, o, HexPair(src[i]));
      i, o := i + 1, o + 2;
    }
    assert out[..o] == out[..];
  }

  lemma EncodeStart(src: text, none: text)
    requires none == []
    ensures none + Encode16(src[0..]) == Encode16(src)
  {
  }

  lemma Encode16Step(x: text, i: nat)
    requires i <= |x|
    ensures Encode16(x[i..]) == if i == |x| then [] else HexPair(x[i]) + Encode16(x[i + 1..])
  {
  }

  lemma Decode16Step(s: text, i: nat, left: nat)
    requires |s| == i + 2 * left
    ensures Decode16(s[i..]) ==
            if i == |s| then Ok([])
            else if UrlCodec.HexValue(s[i]) < 0 || UrlCodec.HexValue(s[i + 1]) < 0 then ValueError
            else Prefixed16([UrlCodec.HexValue(s[i]) * 16 + UrlCodec.HexValue(s[i + 1])], Decode16(s[i + 2..]))
  {
  }

  lemma Prefixed16Step(x: text, y: text, r: Result)
    ensures Prefixed16(x, Prefixed16(y, r)) == Prefixed16(x + y, r) && Prefixed16([], r) == r
    ensures Prefixed16(x, Ok([])) == Ok(x) && Prefixed16(x, ValueError) == ValueError
  {
  }

  method B16Decode(src: text) returns (r: Result)
    ensures r == Decode16(src)
  {
    hide *;
    DecodeStart(src);
    if |src| % 2 == 1 {
      return ValueError;
    }
    var out: text := [];
    var i := 0;
    ghost var left := |src| / 2;
    assert |src| == 2 * left;
    while i < |src|
      invariant 0 <= i && 0 <= left && |src| == i + 2 * left
      invariant Decode16(src) == Prefixed16(out, Decode16(src[i..]))
    {
      Decode16Step(src, i, left);
      var hi := UrlCodec.HexValue(src[i]);
      var lo := UrlCodec.HexValue(src[i + 1]);
      if hi < 0 || lo < 0 {
        Prefixed16Step(out, [], ValueError);
        return ValueError;
      }
      Prefixed16Step(out, [hi * 16 + lo], Decode16(src[i + 2..]));
      out := out + [hi * 16 + lo];
      i, left := i + 2, left - 1;
    }
    Decode16Step(src, i, left);
    Prefixed16Step(out, [], Ok([]));
    return Ok(out);
  }

  lemma DecodeStart(src: text)
    ensures Decode16(src) == Prefixed16([], Decode16(src[0..]))
    ensures |src| % 2 == 1 ==> Decode16(src) == ValueError
  {
  }

  /** A pair of digits of either case is one byte; a pair with another byte in it is an error. */
  lemma Decode16Pair(hi: byte, lo: byte, rest: text)
    requires |rest| % 2 == 0
    ensures Decode16([hi, lo] + rest) ==
            if UrlCodec.HexValue(hi) < 0 || UrlCodec.HexValue(lo) < 0 then ValueError
            else Prefixed16([UrlCodec.HexValue(hi) * 16 + UrlCodec.HexValue(lo)], Decode16(rest))
  {
    hide *;
    var s := [hi, lo] + rest;
    assert |s| == 0 + 2 * (1 + |rest| / 2);
    Decode16Step(s, 0, 1 + |rest| / 2);
    assert s[0..] == s && s[2..] == rest;
  }

  /** Half a pair is an error, whatever comes before it. */
  lemma Decode16Odd(s: text)
    ensures |s| % 2 == 1 ==> Decode16(s) == ValueError
    ensures Decode16([]) == Ok([])
  {
  }

  /** "ff" and "FF" are both the byte 255. */
  lemma Decode16Cases()
    ensures Decode16(['f' as int, 'f' as int]) == Ok([255]) && Decode16(['F' as int, 'F' as int]) == Ok([255])
  {
    Decode16Pair('f' as int, 'f' as int, []);
    Decode16Pair('F' as int, 'F' as int, []);
    Decode16Odd([]);
    assert ['f' as int, 'f' as int] + [] == ['f' as int, 'f' as int];
    assert ['F' as int, 'F' as int] + [] == ['F' as int, 'F' as int];
  }

  /** Encoding writes the two upper-case digits of each byte. */
  lemma {:induction false} Encode16At(x: text, i: nat)
    requires i < |x|
    ensures |UrlCodec.UPPER| == 16 && |Encode16(x)| == 2 * |x|
    ensures Encode16(x)[2 * i] == UrlCodec.UPPER[x[i] / 16] as int
    ensures Encode16(x)[2 * i + 1] == UrlCodec.UPPER[x[i] % 16] as int
  {
    hide Encode16, UrlCodec.HexDigit, UrlCodec.UPPER;
    Encode16Even(x);
    assert x[0..] == x;
    Encode16Step(x, 0);
    UrlCodec.HexDigitUpper(x[0] / 16);
    UrlCodec.HexDigitUpper(x[0] % 16);
    if i > 0 {
      Encode16At(x[1..], i - 1);
    }
  }

  lemma {:induction false} Decode16Encode16(x: text)
    ensures Decode16(Encode16(x)) == Ok(x)
  {
    hide *;
    assert x[0..] == x;
    Encode16Step(x, 0);
    if x == [] {
      Decode16Odd([]);
    } else {
      var pair, rest := HexPair(x[0]), Encode16(x[1..]);
      Decode16Encode16(x[1..]);
      Encode16Even(x[1..]);
      assert pair == [pair[0], pair[1]];
      Decode16Pair(pair[0], pair[1], rest);
      PrefixedOk([x[0]], x[1..]);
      assert x == [x[0]] + x[1..];
    }
  }

  lemma PrefixedOk(x: text, y: text)
    ensures Prefixed16(x, Ok(y)) == Ok(x + y)
  {
  }

  lemma {:induction false} Encode16Even(x: text)
    ensures |Encode16(x)| == 2 * |x|
  {
    if x != [] {
      Encode16Even(x[1..]);
    }
  }
}
