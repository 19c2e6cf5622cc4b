/** rigs/tls-smoke/patches/sha256.c: the streaming context, proved to compute the one-shot digest. */
module Sha256 {
  import opened Machine
  import opened Sha256Spec

  lemma ScheduleStep(b: block, t: nat)
    requires t < 64
    ensures t < 16 ==> Schedule(b, t) == WordAt(b, t)
    ensures t >= 16 ==>
              Schedule(b, t) == Mix(Schedule(b, t - 2), Schedule(b, t - 7), Schedule(b, t - 15), Schedule(b, t - 16))
  {
  }

  /** `rotr` of the code. */
  function RotateRight(x: bv32, n: bv32): bv32
    requires n < 32
  {
    (x >> n) | (x << (32 - n))
  }

  lemma SameRotation(x: bv32, n: bv32)
    requires n < 32
    ensures RotateRight(x, n) == Rotr(x, n)
  {
  }

  lemma SameSmallSigma0(x: bv32)
    ensures RotateRight(x, 7) ^ RotateRight(x, 18) ^ (x >> 3) == SmallSigma0(x)
  {
    hide RotateRight, Rotr;
    SameRotation(x, 7);
    SameRotation(x, 18);
  }

  lemma SameSmallSigma1(x: bv32)
    ensures RotateRight(x, 17) ^ RotateRight(x, 19) ^ (x >> 10) == SmallSigma1(x)
  {
    hide RotateRight, Rotr;
    SameRotation(x, 17);
    SameRotation(x, 19);
  }

  lemma SameBigSigma0(x: bv32)
    ensures RotateRight(x, 2) ^ RotateRight(x, 13) ^ RotateRight(x, 22) == BigSigma0(x)
  {
    hide RotateRight, Rotr;
    SameRotation(x, 2);
    SameRotation(x, 13);
    SameRotation(x, 22);
  }

  lemma SameBigSigma1(x: bv32)
    ensures RotateRight(x, 6) ^ RotateRight(x, 11) ^ RotateRight(x, 25) == BigSigma1(x)
  {
    hide RotateRight, Rotr;
    SameRotation(x, 6);
    SameRotation(x, 11);
    SameRotation(x, 25);
  }

  /** The code adds in another order than the standard. */
  lemma SameSum(w16: bv32, s0: bv32, w7: bv32, s1: bv32)
    ensures Add4(w16, s0, w7, s1) == Add4(s1, w7, s0, w16)
  {
  }

  /** One step of the second loop; `Add` and `Add4` are `+` on a WORD. */
  method NextWord(w16: bv32, w15: bv32, w7: bv32, w2: bv32) returns (w: bv32)
    ensures w == Mix(w2, w7, w15, w16)
  {
    hide SmallSigma0, SmallSigma1, RotateRight, Add4;
    SameSmallSigma0(w15);
    SameSmallSigma1(w2);
    var s0 := RotateRight(w15, 7) ^ RotateRight(w15, 18) ^ (w15 >> 3);
    var s1 := RotateRight(w2, 17) ^ RotateRight(w2, 19) ^ (w2 >> 10);
    SameSum(w16, s0, w7, s1);
    w := Add4(w16, s0, w7, s1);
  }

  /** The first temporary of a round. */
  method FirstTemporary(e2: bv32, f: bv32, g: bv32, h: bv32, k: bv32, w: bv32) returns (t1: bv32)
    ensures t1 == T1(e2, f, g, h, k, w)
  {
    hide BigSigma1, RotateRight, Add;
    SameBigSigma1(e2);
    var bigS1 := RotateRight(e2, 6) ^ RotateRight(e2, 11) ^ RotateRight(e2, 25);
    var ch := (e2 & f) ^ ((!e2) & g);
    t1 := Add(Add(Add(Add(h, bigS1), ch), k), w);
  }

  method SecondTemporary(a: bv32, b: bv32, c: bv32) returns (t2: bv32)
    ensures t2 == T2(a, b, c)
  {
    hide BigSigma0, RotateRight, Add;
    SameBigSigma0(a);
    var bigS0 := RotateRight(a, 2) ^ RotateRight(a, 13) ^ RotateRight(a, 22);
    var mj := (a & b) ^ (a & c) ^ (b & c);
    t2 := Add(bigS0, mj);
  }

  /** Four bytes of the block, most significant first. */
  method LoadWord(d: seq<byte>, i: nat) returns (w: bv32)
    requires |d| == 64 && i < 16
    ensures w == WordAt(d, i)
  {
    var j := 4 * i;
    w := (d[j] as bv32 << 24) | (d[j + 1] as bv32 << 16) | (d[j + 2] as bv32 << 8) | d[j + 3] as bv32;
  }

  /** The first loops of `sha256_transform`: the message schedule of a block, filled in place. */
  method ExpandSchedule(d: seq<byte>) returns (m: array<bv32>)
    requires |d| == 64
    ensures fresh(m) && m.Length == 64
    ensures forall t :: 0 <= t < 64 ==> m[t] == Schedule(d, t)
  {
    hide *;
    m := new bv32[64];
    var i := 0;
    while i < 16
      invariant 0 <= i <= 16
      invariant forall t :: 0 <= t < i ==> m[t] == Schedule(d, t)
    {
      m[i] := LoadWord(d, i);
      ScheduleStep(d, i);
      i := i + 1;
    }
    while i < 64
      invariant 16 <= i <= 64
      invariant forall t :: 0 <= t < i ==> m[t] == Schedule(d, t)
    {
      m[i] := NextWord(m[i - 16], m[i - 15], m[i - 7], m[i - 2]);
      ScheduleStep(d, i);
      i := i + 1;
    }
  }

  /** The round loop of `sha256_transform`: eight locals rotated in place. */
  method RunRounds(s: state, d: seq<byte>, m: array<bv32>) returns (v: seq<bv32>)
    requires |d| == 64 && m.Length == 64
    requires forall t :: 0 <= t < 64 ==> m[t] == Schedule(d, t)
    ensures |v| == 8 && v == Rounds(s, d, ROUNDS)
  {
    hide K, Schedule, Rounds, Round, T1, T2, Add;
    var a, b, c, d2, e2, f, g, h := s[0], s[1], s[2], s[3], s[4], s[5], s[6], s[7];
    var i := 0;
    RoundStep(s, d, 0);
    EightWords(s);
    while i < 64
      invariant 0 <= i <= 64
      invariant [a, b, c, d2, e2, f, g, h] == Rounds(s, d, i)
    {
      RoundStep(s, d, i);
      RoundShifts(a, b, c, d2, e2, f, g, h, K[i] as bv32, m[i]);
      var t1 := FirstTemporary(e2, f, g, h, K[i] as bv32, m[i]);
      var t2 := SecondTemporary(a, b, c);
      h := g;
      g := f;
      f := e2;
      e2 := Add(d2, t1);
      d2 := c;
      c := b;
      b := a;
      a := Add(t1, t2);
      i := i + 1;
    }
    v := [a, b, c, d2, e2, f, g, h];
  }

  /** Bytes `0..i` of each word are in place. */
  ghost predicate ColumnsDone(out: seq<byte>, s: state, i: nat)
    requires |out| == 32 && i <= 4
  {
    forall n :: 0 <= n < 32 && n % 4 < i ==> out[n] == ByteOf(s[n / 4], n % 4)
  }

  /** One pass of the output loop writes byte `i` of all eight words. */
  function PutColumn(out: seq<byte>, s: state, i: nat): (r: seq<byte>)
    requires |out| == 32 && i < 4
    ensures |r| == 32
  {
    seq(32, n requires 0 <= n < 32 => if n % 4 == i then ByteOf(s[n / 4], i) else out[n])
  }

  lemma ColumnStep(out: seq<byte>, s: state, i: nat)
    requires |out| == 32 && i < 4 && ColumnsDone(out, s, i)
    ensures ColumnsDone(PutColumn(out, s, i), s, i + 1)
  {
  }

  lemma NoColumns(out: seq<byte>, s: state)
    requires |out| == 32
    ensures ColumnsDone(out, s, 0)
  {
  }

  lemma ColumnsAreBytes(out: seq<byte>, s: state)
    requires |out| == 32 && ColumnsDone(out, s, 4)
    ensures out == StateBytes(s)
  {
    hide ByteOf, StateBytes;
    forall n | 0 <= n < 32 ensures out[n] == StateBytes(s)[n] {
      StateBytesAt(s, n / 4, n % 4);
    }
  }

  /** The buffer holds the tail of the message, `st` the fold of the whole blocks before it. */
  ghost predicate Holds(data: seq<byte>, datalen: nat, bitlen: dword, st: state, msg: seq<byte>)
  {
    && |data| == 64 && datalen < 64 && datalen <= |msg|
    && (|msg| - datalen) % 64 == 0
    && data[..datalen] == msg[|msg| - datalen..]
    && st == Fold(H0State(), msg[..|msg| - datalen])
    && bitlen == 8 * (|msg| - datalen) % LONG_BASE
  }

  lemma HoldsSplit(data: seq<byte>, datalen: nat, bitlen: dword, st: state, msg: seq<byte>) returns (whole: seq<byte>)
    requires Holds(data, datalen, bitlen, st, msg)
    ensures datalen < 64 && |whole| % 64 == 0 && msg == whole + data[..datalen] && st == Fold(H0State(), whole)
  {
    hide Fold, H0State;
    whole := msg[..|msg| - datalen];
  }

  lemma HoldsLength(data: seq<byte>, datalen: nat, bitlen: dword, st: state, msg: seq<byte>)
    requires Holds(data, datalen, bitlen, st, msg)
    ensures (bitlen + datalen * 8) % LONG_BASE == 8 * |msg| % LONG_BASE
  {
    hide Fold, H0State;
    WrapAdd(8 * (|msg| - datalen), datalen * 8, LONG_BASE);
  }

  /** A byte that leaves room in the block. */
  lemma HoldsMore(data: seq<byte>, datalen: nat, bitlen: dword, st: state, msg: seq<byte>, b: byte)
    requires Holds(data, datalen, bitlen, st, msg) && datalen + 1 < 64
    ensures Holds(data[datalen := b], datalen + 1, bitlen, st, msg + [b])
  {
    hide Fold;
    assert (msg + [b])[..|msg + [b]| - (datalen + 1)] == msg[..|msg| - datalen];
    assert (msg + [b])[|msg + [b]| - (datalen + 1)..] == msg[|msg| - datalen..] + [b];
    assert data[datalen := b][..datalen + 1] == data[..datalen] + [b];
  }

  /** A byte that completes the block. */
  lemma HoldsBlock(data: seq<byte>, datalen: nat, bitlen: dword, st: state, msg: seq<byte>, b: byte)
    requires Holds(data, datalen, bitlen, st, msg) && datalen + 1 == 64
    ensures Holds(data[datalen := b], 0, (bitlen + 512) % LONG_BASE, Compress(st, data[datalen := b]), msg + [b])
  {
    hide Fold, Compress, H0State;
    var whole, full := msg[..|msg| - datalen], data[datalen := b];
    assert full == data[..datalen] + [b];
    assert msg + [b] == whole + full by { assert msg == whole + msg[|msg| - datalen..]; }
    FoldBlock(H0State(), whole, full);
    assert (msg + [b])[..|msg + [b]|] == msg + [b];
    assert (bitlen + 512) % LONG_BASE == (8 * |whole| + 512) % LONG_BASE;
  }

  /** `CRYAL_SHA256_CTX`, with the bytes absorbed so far as a ghost. */
  class Context {
    const data: array<byte>
    var datalen: nat
    var bitlen: dword
    var st: state
    ghost var msg: seq<byte>

    ghost predicate Valid()
      reads this, data
    {
      data.Length == 64 && Holds(data[..], datalen, bitlen, st, msg)
    }

    constructor ()
      ensures fresh(data)
      ensures Valid() && msg == []
    {
      hide Compress, H0State, Fold;
      data := new byte[64];
      datalen, bitlen := 0, 0;
      st := H0State();
      msg := [];
      FoldEmpty(H0State());
    }

    /** `sha256_transform` on the buffer. */
    method Transform()
      requires data.Length == 64
      modifies this`st
      ensures st == Compress(old(st), data[..])
    {
      hide K, Schedule, Rounds, Add;
      var m := ExpandSchedule(data[..]);
      var v := RunRounds(st, data[..], m);
      st := [Add(st[0], v[0]), Add(st[1], v[1]), Add(st[2], v[2]), Add(st[3], v[3]),
             Add(st[4], v[4]), Add(st[5], v[5]), Add(st[6], v[6]), Add(st[7], v[7])];
    }

    /** Absorbs one byte: the body of the loop in `sha256_update`. */
    method Absorb(b: byte)
      requires Valid()
      modifies this, data
      ensures Valid() && msg == old(msg) + [b]
    {
      hide Compress, Fold;
      ghost var was := data[..];
      data[datalen] := b;
      assert data[..] == was[datalen := b];
      if datalen + 1 < 64 {
        HoldsMore(was, datalen, bitlen, st, msg, b);
      } else {
        HoldsBlock(was, datalen, bitlen, st, msg, b);
      }
      datalen := datalen + 1;
      if datalen == 64 {
        Transform();
        bitlen := (bitlen + 512) % LONG_BASE;
        datalen := 0;
      }
      msg := msg + [b];
    }

    method Update(input: seq<byte>)
      requires Valid()
      modifies this, data
      ensures Valid() && msg == old(msg) + input
    {
      hide *;
      var i := 0;
      while i < |input|
        invariant 0 <= i <= |input|
        invariant Valid() && msg == old(msg) + input[..i]
      {
        Absorb(input[i]);
        i := i + 1;
      }
    }

    /** The 0x80 byte at `i`, then zeros up to `n`. */
    method Mark(i: nat, n: nat)
      requires i < n <= data.Length
      modifies data
      ensures data[..n] == old(data[..i]) + [0x80] + Zeros(n - i - 1)
    {
      data[i] := 0x80;
      var j := i + 1;
      while j < n
        invariant i < j <= n
        invariant forall k :: 0 <= k < j ==> data[k] == if k < i then old(data[k]) else if k == i then 0x80 else 0
      {
        data[j] := 0;
        j := j + 1;
      }
    }

    /** The first half of `sha256_final`: the marker and the zeros, closing a block if the length does not fit. */
    method PadBuffer() returns (ghost before: seq<byte>)
      requires Valid()
      modifies this`st, data
      ensures data.Length == 64 && |before| % 64 == 0
      ensures st == Fold(H0State(), before)
      ensures before + data[..56] + Length64(8 * |msg|) == Pad(msg)
    {
      hide Compress, H0State, Fold, Pad, Length64, Holds;
      before := HoldsSplit(data[..], datalen, bitlen, st, msg);
      ghost var tail := data[..datalen];
      if datalen < 56 {
        Mark(datalen, 56);
        PadShort(before, tail);
      } else {
        Mark(datalen, 64);
        assert data[..64] == data[..];
        Transform();
        FoldBlock(H0State(), before, data[..]);
        PadLong(before, tail);
        before := before + data[..];
        ClearData(56);
      }
    }

    /** memset(data, 0, n) */
    method ClearData(n: nat)
      requires n <= data.Length
      modifies data
      ensures data[..n] == Zeros(n)
    {
      var i := 0;
      while i < n
        invariant 0 <= i <= n
        invariant forall k :: 0 <= k < i ==> data[k] == 0
      {
        data[i] := 0;
        i := i + 1;
      }
    }

    method PutLength()
      requires data.Length == 64
      modifies data
      ensures data[56..] == Length64(bitlen) && data[..56] == old(data[..56])
    {
      data[63] := bitlen % 256;
      data[62] := (bitlen / 0x100) % 256;
      data[61] := (bitlen / 0x1_0000) % 256;
      data[60] := (bitlen / 0x100_0000) % 256;
      data[59] := (bitlen / 0x1_0000_0000) % 256;
      data[58] := (bitlen / 0x100_0000_0000) % 256;
      data[57] := (bitlen / 0x1_0000_0000_0000) % 256;
      data[56] := (bitlen / 0x100_0000_0000_0000) % 256;
    }

    method PutColumnAt(hash: array<byte>, i: nat)
      requires hash.Length >= 32 && i < 4
      modifies hash
      ensures hash[..32] == PutColumn(old(hash[..32]), st, i)
      ensures hash[32..] == old(hash[32..])
    {
      hide ByteOf;
      ghost var out := hash[..];
      var j := 0;
      while j < 8
        invariant 0 <= j <= 8
        invariant forall n :: 0 <= n < 32 ==>
                    hash[n] == if n % 4 == i && n / 4 < j then ByteOf(st[n / 4], i) else out[n]
        invariant hash[32..] == out[32..]
      {
        hash[i + 4 * j] := ByteOf(st[j], i);
        j := j + 1;
      }
    }

    method PutDigest(hash: array<byte>)
      requires hash.Length >= 32
      modifies hash
      ensures hash[..32] == StateBytes(st)
      ensures hash[32..] == old(hash[32..])
    {
      hide ByteOf, StateBytes, ColumnsDone;
      var i := 0;
      NoColumns(hash[..32], st);
      while i < 4
        invariant 0 <= i <= 4
        invariant ColumnsDone(hash[..32], st, i)
        invariant hash[32..] == old(hash[32..])
      {
        ColumnStep(hash[..32], st, i);
        PutColumnAt(hash, i);
        i := i + 1;
      }
      ColumnsAreBytes(hash[..32], st);
    }

    /** `sha256_final`. */
    method Final(hash: array<byte>)
      requires Valid() && hash.Length >= 32 && hash != data
      modifies this, data, hash
      ensures hash[..32] == Digest(old(msg))
      ensures hash[32..] == old(hash[32..])
    {
      hide Compress, H0State, Fold, Pad, Length64, StateBytes, Holds;
      HoldsLength(data[..], datalen, bitlen, st, msg);
      ghost var before := PadBuffer();
      bitlen := (bitlen + datalen * 8) % LONG_BASE;
      PutLength();
      Length64Wraps(8 * |msg|);
      assert data[..] == data[..56] + data[56..];
      Concats(before, data[..56], data[56..]);
      Transform();
      FoldBlock(H0State(), before, data[..]);
      PutDigest(hash);
    }
  }

  function Flatten(chunks: seq<seq<byte>>): seq<byte>
  {
    if chunks == [] then [] else Flatten(chunks[..|chunks| - 1]) + chunks[|chunks| - 1]
  }

  /** Init, any number of updates, final: only the concatenation of the pieces matters. */
  method HashPieces(chunks: seq<seq<byte>>) returns (digest: seq<byte>)
    ensures digest == Digest(Flatten(chunks))
  {
    hide Digest;
    var ctx := new Context();
    var i := 0;
    while i < |chunks|
      invariant 0 <= i <= |chunks|
      invariant fresh(ctx) && fresh(ctx.data) && ctx.Valid() && ctx.msg == Flatten(chunks[..i])
    {
      assert chunks[..i + 1][..i] == chunks[..i];
      ctx.Update(chunks[i]);
      i := i + 1;
    }
    assert chunks[..i] == chunks;
    var hash := new byte[32];
    ctx.Final(hash);
    digest := hash[..32];
  }
}
