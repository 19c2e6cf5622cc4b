/** src/freedos_micro_python/port/libssh2_axtls.c: the byte-array bignum and its bit length. */
module ByteNumber {
  import opened Machine

  /** No leading zero byte. */
  predicate Minimal(s: seq<byte>) { s == [] || s[0] != 0 }

  // ---- values of byte strings ----

  lemma {:induction false} LeadingByte(s: seq<byte>)
    requires s != []
    ensures BigEndian(s) == s[0] * Pow(0x100, |s| - 1) + BigEndian(s[1..])
  {
    var n := |s| - 1;
    if n == 0 {
      assert s[..0] == [] && s[1..] == [];
    } else {
      LeadingByte(s[..n]);
      assert s[..n][1..] == s[1..][..n - 1] && s[1..][n - 1] == s[n];
      PowStep(0x100, n - 1);
      Scale(s[0], Pow(0x100, n - 1), BigEndian(s[1..n]));
      assert s[..n][1..] == s[1..n];
    }
  }

  lemma Scale(a: nat, p: nat, r: nat)
    ensures (a * p + r) * 0x100 == a * (0x100 * p) + r * 0x100
  {
  }

  lemma StripZero(s: seq<byte>)
    requires s != [] && s[0] == 0
    ensures BigEndian(s[1..]) == BigEndian(s)
  {
    LeadingByte(s);
  }

  /** A minimal string of n bytes denotes a number of at least 256^(n-1). */
  lemma {:induction false} MinimalBounds(s: seq<byte>)
    requires s != [] && Minimal(s)
    ensures Pow(0x100, |s| - 1) <= BigEndian(s) < Pow(0x100, |s|)
  {
    LeadingByte(s);
    BigEndianBound(s);
    MulMonotone(1, s[0], Pow(0x100, |s| - 1));
  }

  lemma {:induction false} PowGrows(base: nat, a: nat, b: nat)
    requires base > 0 && a <= b
    ensures Pow(base, a) <= Pow(base, b)
    decreases b - a
  {
    if a < b {
      PowGrows(base, a, b - 1);
      PowStep(base, b - 1);
      MulMonotone(1, base, Pow(base, b - 1));
    }
  }

  /** Each number has one minimal form. */
  lemma {:induction false} MinimalUnique(s: seq<byte>, t: seq<byte>)
    requires Minimal(s) && Minimal(t) && BigEndian(s) == BigEndian(t)
    ensures s == t
  {
    if |s| < |t| {
      SizesDiffer(s, t);
    } else if |t| < |s| {
      SizesDiffer(t, s);
    } else {
      ToBytesInverts(s);
      ToBytesInverts(t);
    }
  }

  lemma {:induction false} SizesDiffer(s: seq<byte>, t: seq<byte>)
    requires Minimal(t) && |s| < |t|
    ensures BigEndian(s) < BigEndian(t)
  {
    BigEndianBound(s);
    MinimalBounds(t);
    PowGrows(0x100, |s|, |t| - 1);
  }

  /** The minimal form of a number. */
  function MinimalBytes(v: nat): (s: seq<byte>)
    ensures Minimal(s) && BigEndian(s) == v
  {
    if v == 0 then []
    else
      var high := MinimalBytes(v / 0x100);
      assert (high + [v % 0x100])[..|high|] == high;
      high + [v % 0x100]
  }

  /** A string without leading zeros is the minimal form of its value. */
  lemma MinimalForm(s: seq<byte>)
    requires Minimal(s)
    ensures s == MinimalBytes(BigEndian(s))
  {
    hide MinimalBytes, BigEndian;
    MinimalUnique(s, MinimalBytes(BigEndian(s)));
  }

  /** A number and the capacity of its buffer. */
  datatype Holding = Holding(value: nat, cap: nat)

  predicate Fits(h: Holding, v: nat, malloc: bool) { |MinimalBytes(v)| <= h.cap || malloc }

  /** Setting `v`; `failed` is left when its digits do not fit and there is no memory for a larger buffer. */
  function AfterSet(h: Holding, v: nat, malloc: bool, failed: nat): Holding
  {
    var need := |MinimalBytes(v)|;
    if need <= h.cap then Holding(v, h.cap) else if malloc then Holding(v, need) else Holding(failed, h.cap)
  }

  // ---- the object ----

  class Number {
    var len: nat
    var cap: nat
    var data: array?<byte>

    ghost predicate Room()
      reads this
    {
      len <= cap && (if data == null then cap == 0 else data.Length == cap)
    }

    ghost predicate Valid()
      reads this, data
    {
      Room() && Minimal(Bytes())
    }

    ghost function Bytes(): seq<byte>
      requires Room()
      reads this, data
    {
      if data == null then [] else data[..len]
    }

    ghost function Value(): nat
      requires Room()
      reads this, data
    {
      BigEndian(Bytes())
    }

    ghost function State(): Holding
      requires Room()
      reads this, data
    {
      Holding(Value(), cap)
    }

    constructor ()
      ensures Valid() && State() == Holding(0, 0) && data == null
    {
      len, cap, data := 0, 0, null;
    }

    /** `_bn_ensure`: a larger buffer replaces the old one without its contents, if malloc gives it. */
    method Ensure(need: nat, malloc: bool) returns (ok: bool)
      requires Room()
      modifies this`cap, this`data
      ensures ok <==> need <= old(cap) || malloc
      ensures cap == if ok && need > old(cap) then need else old(cap)
      ensures if data == null then cap == 0 else data.Length == cap
      ensures need <= old(cap) || !malloc ==> data == old(data)
      ensures need > old(cap) && malloc ==> fresh(data)
    {
      if cap >= need {
        return true;
      }
      var newCap := if need > 0 then need else 1;
      if !malloc {
        return false;
      }
      data := new byte[newCap];
      cap := newCap;
      return true;
    }

    /** memcpy of the new digits over the buffer, and their number. */
    method Put(s: seq<byte>)
      requires |s| <= cap && (if data == null then cap == 0 else data.Length == cap) && Minimal(s)
      modifies this`len, data
      ensures Valid() && Bytes() == s && data == old(data) && cap == old(cap)
    {
      if data != null {
        var i := 0;
        while i < |s|
          invariant 0 <= i <= |s| && data != null && data == old(data) && data.Length == cap == old(cap)
          invariant data[..i] == s[..i]
          modifies data
        {
          data[i] := s[i];
          i := i + 1;
        }
      }
      len := |s|;
    }

    /** `bn_set_word`: zero when the digits do not fit and malloc has no larger buffer. */
    method SetWord(val: word, malloc: bool)
      requires Valid()
      modifies this, data
      ensures Valid() && State() == AfterSet(old(State()), val, malloc, 0)
      ensures data == old(data) || fresh(data)
    {
      hide BigEndian, MinimalBytes;
      var digits := Digits(val);
      MinimalForm(digits);
      var e := Ensure(|digits|, malloc);
      if !e {
        len := 0;
        NoBytes();
        return;
      }
      Put(digits);
    }

    /** `bn_from_bin`: 0, or -1 for a negative length or no memory, which leave the number alone. */
    method FromBin(n: int, val: seq<byte>, malloc: bool) returns (r: int)
      requires Valid() && n <= |val|
      modifies this, data
      ensures Valid() && (r == 0 || r == -1)
      ensures r == 0 <==> n >= 0 && Fits(old(State()), BigEndian(val[..n]), malloc)
      ensures State() == if n < 0 then old(State())
                         else AfterSet(old(State()), BigEndian(val[..n]), malloc, old(Value()))
      ensures data == old(data) || fresh(data)
    {
      hide BigEndian, MinimalBytes;
      if n < 0 {
        return -1;
      }
      var i := 0;
      assert val[..n][0..] == val[..n];
      while i < n && val[i] == 0
        invariant 0 <= i <= n
        invariant BigEndian(val[..n][i..]) == BigEndian(val[..n])
        modifies {}
      {
        StripZero(val[..n][i..]);
        assert val[..n][i..][1..] == val[..n][i + 1..];
        i := i + 1;
      }
      var digits := val[i..n];
      assert digits == val[..n][i..];
      MinimalForm(digits);
      var e := Ensure(n - i, malloc);
      if !e {
        return -1;
      }
      Put(digits);
      return 0;
    }

    /** `bn_to_bin`. */
    method ToBin(out: array<byte>) returns (n: nat)
      requires Valid() && len <= out.Length && out != data
      modifies out
      ensures n == len && out[..n] == Bytes() && BigEndian(out[..n]) == Value()
      ensures out[n..] == old(out[n..])
    {
      n := len;
      if len > 0 {
        var i := 0;
        while i < len
          invariant 0 <= i <= len
          invariant forall k :: 0 <= k < out.Length ==> out[k] == if k < i then data[k] else old(out[k])
        {
          out[i] := data[i];
          i := i + 1;
        }
      }
      assert out[..n] == Bytes();
    }

    /** `bn_bits`: the position of the highest one bit. */
    method Bits() returns (bits: nat)
      requires Valid()
      ensures Value() == 0 <==> bits == 0
      ensures Value() > 0 ==> Pow(2, bits - 1) <= Value() < Pow(2, bits)
      ensures len == (bits + 7) / 8
    {
      hide BigEndian;
      if len == 0 {
        NoBytes();
        return 0;
      }
      bits := 8 * (len - 1);
      var msb := data[0];
      ghost var top, k := msb, 0;
      assert Pow(2, 0) == 1;
      while msb != 0
        invariant bits == 8 * (len - 1) + k && k <= 8
        invariant msb as int * Pow(2, k) <= top as int < (msb as int + 1) * Pow(2, k)
        invariant msb == 0 ==> k > 0 && Pow(2, k - 1) <= top
        invariant k == 0 ==> msb == top
        decreases msb
      {
        HalfStep(msb, k, top);
        bits := bits + 1;
        msb := msb / 2;
        k := k + 1;
      }
      TopBits(Bytes(), k);
    }
  }

  lemma NoBytes()
    ensures BigEndian([]) == 0
  {
  }

  /** One shift of the most significant byte. */
  lemma HalfStep(msb: byte, k: nat, top: byte)
    requires msb != 0 && msb as int * Pow(2, k) <= top as int < (msb as int + 1) * Pow(2, k)
    ensures k < 8
    ensures (msb as int / 2) * Pow(2, k + 1) <= top as int < (msb as int / 2 + 1) * Pow(2, k + 1)
    ensures msb / 2 == 0 ==> Pow(2, k) <= top
  {
    var p, h := Pow(2, k), msb as int / 2;
    PowStep(2, k);
    MulMonotone(1, msb, p);
    MulMonotone(2 * h, msb, p);
    MulMonotone(msb as int + 1, 2 * h + 2, p);
    MulAssociates(h, 2, p);
    MulAssociates(h + 1, 2, p);
    assert Pow(2, 8) == 256;
    if k >= 8 {
      PowGrows(2, 8, k);
    }
  }

  lemma TopBits(s: seq<byte>, k: nat)
    requires s != [] && Minimal(s) && 0 < k <= 8
    requires Pow(2, k - 1) <= s[0] as int < Pow(2, k)
    ensures var bits := 8 * (|s| - 1) + k; Pow(2, bits - 1) <= BigEndian(s) < Pow(2, bits) && BigEndian(s) > 0
  {
    hide BigEndian, Pow;
    var n := |s| - 1;
    var p := Pow(0x100, n);
    LeadingByte(s);
    BigEndianBound(s[1..]);
    ByteBits(n);
    PowAdd(2, k - 1, 8 * n);
    PowAdd(2, k, 8 * n);
    assert k - 1 + 8 * n == 8 * n + k - 1 && k + 8 * n == 8 * n + k;
    MulMonotone(Pow(2, k - 1), s[0], p);
    MulMonotone(s[0], s[0] as int + 1, p);
    MulMonotone(s[0] as int + 1, Pow(2, k), p);
  }

  lemma {:induction false} ByteBits(n: nat)
    ensures Pow(0x100, n) == Pow(2, 8 * n)
  {
    if n > 0 {
      ByteBits(n - 1);
      PowAdd(2, 8, 8 * (n - 1));
      assert Pow(2, 8) == 256;
      assert 8 + 8 * (n - 1) == 8 * n;
    }
  }

  /** The loop of `bn_set_word`: big-endian digits of a word, leading zeros skipped. */
  method Digits(val: word) returns (s: seq<byte>)
    ensures Minimal(s) && |s| <= 4 && BigEndian(s) == val
  {
    hide BigEndian, Pow;
    var tmp := new byte[4];
    var n := 0;
    var i := 3;
    StartDigits(val);
    while i >= 0
      invariant -1 <= i <= 3 && 0 <= n <= 3 - i
      invariant BigEndian(tmp[..n]) == val / Pow(0x100, i + 1)
      invariant n > 0 ==> tmp[0] != 0
      invariant n == 0 ==> val / Pow(0x100, i + 1) == 0
    {
      NextDigit(val, i);
      var b := val / Pow(0x100, i) % 0x100;
      i := i - 1;
      if n == 0 && b == 0 {
        continue;
      }
      ghost var done := tmp[..n];
      tmp[n] := b;
      BigEndianSnoc(done, b);
      assert tmp[..n + 1] == done + [b];
      n := n + 1;
    }
    s := tmp[..n];
    LastDigits(val);
  }

  lemma StartDigits(val: word)
    ensures val / Pow(0x100, 4) == 0 && BigEndian([]) == 0
  {
  }

  lemma LastDigits(val: word)
    ensures val / Pow(0x100, 0) == val
  {
  }

  lemma NextDigit(val: nat, i: nat)
    ensures val / Pow(0x100, i) == val / Pow(0x100, i + 1) * 0x100 + val / Pow(0x100, i) % 0x100
  {
    hide Pow;
    PowStep(0x100, i);
    var p := Pow(0x100, i);
    var w := val / p;
    var q, d := w / 0x100, w % 0x100;
    assert val == p * w + val % p;
    assert p * w == 0x100 * p * q + p * d by { assert w == 0x100 * q + d; }
    RestFits(p, d, val % p);
    QuotientUnique(val, 0x100 * p, q, p * d + val % p);
  }

  lemma RestFits(p: nat, d: nat, r: nat)
    requires r < p && d < 0x100
    ensures 0 <= p * d + r < 0x100 * p
  {
  }

  // ---- every run ----

  datatype Op = SetWordOp(val: word) | FromBinOp(n: int, bytes: seq<byte>)

  /** What an operation asks for; a negative length asks for nothing. */
  function Asked(op: Op): (v: nat)
    requires op.FromBinOp? ==> 0 <= op.n <= |op.bytes|
  {
    match op case SetWordOp(val) => val case FromBinOp(n, bytes) => BigEndian(bytes[..n])
  }

  predicate Legal(op: Op) { op.FromBinOp? ==> op.n <= |op.bytes| }

  predicate Void(op: Op) { op.FromBinOp? && op.n < 0 }

  function AfterOp(h: Holding, op: Op, malloc: bool): Holding
    requires Legal(op)
  {
    if Void(op) then h else AfterSet(h, Asked(op), malloc, if op.SetWordOp? then 0 else h.value)
  }

  /** The number and capacity after a run in which allocation `i` succeeds if `mallocs[i]`. */
  function AfterOps(ops: seq<Op>, mallocs: seq<bool>): Holding
    requires |ops| == |mallocs| && forall i :: 0 <= i < |ops| ==> Legal(ops[i])
  {
    if ops == [] then Holding(0, 0)
    else var n := |ops| - 1; AfterOp(AfterOps(ops[..n], mallocs[..n]), ops[n], mallocs[n])
  }

  /** What each operation does to the number and its capacity. */
  lemma OpExactly(h: Holding, op: Op, malloc: bool)
    ensures op.FromBinOp? ==> (Legal(op) <==> op.n <= |op.bytes|)
    ensures op.SetWordOp? ==>
              var need := |MinimalBytes(op.val)|;
              AfterOp(h, op, malloc) == if need <= h.cap then Holding(op.val, h.cap)
                                        else if malloc then Holding(op.val, need) else Holding(0, h.cap)
    ensures op.FromBinOp? && op.n < 0 ==> Legal(op) && AfterOp(h, op, malloc) == h
    ensures op.FromBinOp? && 0 <= op.n <= |op.bytes| ==>
              var v := BigEndian(op.bytes[..op.n]); var need := |MinimalBytes(v)|;
              AfterOp(h, op, malloc) == if need <= h.cap then Holding(v, h.cap)
                                        else if malloc then Holding(v, need) else h
    ensures AfterOps([], []) == Holding(0, 0)
  {
    hide BigEndian, MinimalBytes;
  }

  /**
   * The last value asked for is held exactly when it fits the capacity or memory is to be had
   * (or, by chance, it is what a failure leaves).
   */
  lemma LastHeld(ops: seq<Op>, mallocs: seq<bool>)
    requires |ops| == |mallocs| && forall i :: 0 <= i < |ops| ==> Legal(ops[i])
    requires ops != [] && Legal(ops[|ops| - 1]) && !Void(ops[|ops| - 1])
    ensures var n := |ops| - 1; var before, v := AfterOps(ops[..n], mallocs[..n]), Asked(ops[n]);
            AfterOps(ops, mallocs).value == v <==>
            Fits(before, v, mallocs[n]) || (ops[n].FromBinOp? && before.value == v)
  {
    hide BigEndian;
    var n := |ops| - 1;
    assert Asked(ops[n]) == 0 ==> MinimalBytes(Asked(ops[n])) == [];
  }

  /** When allocation never fails, the number is the last value asked for. */
  lemma AlwaysHeld(ops: seq<Op>, mallocs: seq<bool>)
    requires |ops| == |mallocs| && forall i :: 0 <= i < |ops| ==> Legal(ops[i]) && mallocs[i] && !Void(ops[i])
    ensures AfterOps(ops, mallocs).value == if ops == [] then 0 else Asked(ops[|ops| - 1])
  {
    hide BigEndian, MinimalBytes;
  }

  /** Numbers held always fit, and the capacity never shrinks. */
  lemma {:induction false} HeldFits(ops: seq<Op>, mallocs: seq<bool>)
    requires |ops| == |mallocs| && forall i :: 0 <= i < |ops| ==> Legal(ops[i])
    ensures var h := AfterOps(ops, mallocs); |MinimalBytes(h.value)| <= h.cap
    ensures ops != [] ==> AfterOps(ops[..|ops| - 1], mallocs[..|ops| - 1]).cap <= AfterOps(ops, mallocs).cap
  {
    hide BigEndian;
    if ops != [] {
      HeldFits(ops[..|ops| - 1], mallocs[..|ops| - 1]);
    }
  }

  /** Any sequence of assignments leaves the minimal form of what that says, within that capacity. */
  method Run(b: Number, ops: seq<Op>, mallocs: seq<bool>)
    requires b.Valid() && b.State() == Holding(0, 0) && b.data == null
    requires |ops| == |mallocs| && forall i :: 0 <= i < |ops| ==> Legal(ops[i])
    modifies b
    ensures b.Valid() && b.State() == AfterOps(ops, mallocs)
    ensures b.Bytes() == MinimalBytes(AfterOps(ops, mallocs).value)
  {
    hide BigEndian, MinimalBytes;
    var i := 0;
    while i < |ops|
      invariant 0 <= i <= |ops|
      invariant b.Valid() && b.State() == AfterOps(ops[..i], mallocs[..i])
      invariant b.data == null || fresh(b.data)
    {
      assert ops[..i + 1][..i] == ops[..i] && mallocs[..i + 1][..i] == mallocs[..i];
      match ops[i] {
        case SetWordOp(val) =>
          b.SetWord(val, mallocs[i]);
        case FromBinOp(n, bytes) =>
          var r := b.FromBin(n, bytes, mallocs[i]);
      }
      i := i + 1;
    }
    assert ops[..i] == ops && mallocs[..i] == mallocs;
    MinimalForm(b.Bytes());
  }
}
