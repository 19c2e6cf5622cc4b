/** rigs/bigint-bench/main.c: the schoolbook multiply of two little-endian word arrays. */
module WideMultiply {
  import opened Machine

  /** The number a word string denotes, least significant word first. */
  function Value(s: seq<word>): nat
  {
    if s == [] then 0 else Value(s[..|s| - 1]) + s[|s| - 1] * Pow(WORD_BASE, |s| - 1)
  }

  lemma {:induction false} ValueConcat(a: seq<word>, b: seq<word>)
    ensures Value(a + b) == Value(a) + Value(b) * Pow(WORD_BASE, |a|)
  {
    if b == [] {
      assert a + b == a;
    } else {
      var n := |b| - 1;
      ValueConcat(a, b[..n]);
      assert (a + b)[..|a + b| - 1] == a + b[..n];
      PowAdd(WORD_BASE, n, |a|);
      Distribute(Value(b[..n]), b[n], Pow(WORD_BASE, n), Pow(WORD_BASE, |a|));
    }
  }

  lemma Distribute(v: int, d: int, p: int, q: int)
    ensures (v + d * p) * q == v * q + d * (p * q)
  {
  }

  lemma {:induction false} ValueBound(s: seq<word>)
    ensures Value(s) < Pow(WORD_BASE, |s|)
  {
    if s != [] {
      var n := |s| - 1;
      ValueBound(s[..n]);
      var p := Pow(WORD_BASE, n);
      assert s[n] * p <= (WORD_BASE - 1) * p by { MulMonotone(s[n], WORD_BASE - 1, p); }
      assert (WORD_BASE - 1) * p + p == WORD_BASE * p;
    }
  }

  /** A number below BASE^n has exactly one n-word form: equal values mean equal words. */
  lemma {:induction false} ValueInjective(a: seq<word>, b: seq<word>)
    requires |a| == |b|
    requires Value(a) == Value(b)
    ensures a == b
  {
    if a != [] {
      var n := |a| - 1;
      ValueBound(a[..n]);
      ValueBound(b[..n]);
      var p := Pow(WORD_BASE, n);
      TopDigit(Value(a[..n]), a[n], Value(b[..n]), b[n], p);
      ValueInjective(a[..n], b[..n]);
      assert a == a[..n] + [a[n]] && b == b[..n] + [b[n]];
    }
  }

  lemma TopDigit(u: nat, x: nat, v: nat, y: nat, p: nat)
    requires u < p && v < p && u + x * p == v + y * p
    ensures x == y && u == v
  {
    if x < y {
      MulMonotone(x, y, p);
      MulMonotone(x + 1, y, p);
    } else if y < x {
      MulMonotone(y, x, p);
      MulMonotone(y + 1, x, p);
    }
  }

  /** One column: adding a product and a carry to a word never leaves 64 bits. */
  lemma ColumnFits(r: word, a: word, b: word, carry: word)
    ensures 0 <= r + a * b + carry < LONG_BASE
  {
    assert a * b <= (WORD_BASE - 1) * (WORD_BASE - 1) by {
      MulMonotone(a, WORD_BASE - 1, b);
      MulMonotone(b, WORD_BASE - 1, WORD_BASE - 1);
    }
    assert 0 <= a * b by { MulMonotone(0, a, b); }
  }

  /** Words `lo..lo+j` of `now`, with `carry` above them, are those of `was` plus `b` times the low `j` words of `a`. */
  ghost predicate RowSoFar(now: seq<word>, was: seq<word>, a: seq<word>, b: word, carry: word, lo: nat, j: nat)
    requires lo + j <= |now| == |was| && j <= |a|
  {
    Value(now[lo..lo + j]) + carry * Pow(WORD_BASE, j) == Value(was[lo..lo + j]) + Value(a[..j]) * b
  }

  lemma RowStart(was: seq<word>, a: seq<word>, b: word, lo: nat)
    requires lo <= |was|
    ensures RowSoFar(was, was, a, b, 0, lo, 0)
  {
  }

  /** One more column keeps the row equation. */
  lemma ColumnArithmetic(v: int, carry: int, w: int, x: int, b: int, p: int, r: int, a: int, tmp: int)
    requires v + carry * p == w + x * b
    requires tmp == r + a * b + carry
    ensures v + (tmp % WORD_BASE) * p + (tmp / WORD_BASE) * (WORD_BASE * p) == w + r * p + (x + a * p) * b
  {
  }

  lemma ColumnStep(now: seq<word>, was: seq<word>, a: seq<word>, b: word, carry: word, lo: nat, j: nat, tmp: dword)
    requires lo + j < |now| == |was| && j < |a|
    requires RowSoFar(now, was, a, b, carry, lo, j)
    requires now[lo + j] == was[lo + j]
    requires tmp == now[lo + j] + a[j] * b + carry
    ensures RowSoFar(now[lo + j := tmp % WORD_BASE], was, a, b, tmp / WORD_BASE, lo, j + 1)
  {
    hide Value, Pow;
    var next := now[lo + j := tmp % WORD_BASE];
    ValueAppend(now[lo..lo + j], tmp % WORD_BASE);
    assert next[lo..lo + j + 1] == now[lo..lo + j] + [tmp % WORD_BASE];
    ValueAppend(was[lo..lo + j], was[lo + j]);
    assert was[lo..lo + j + 1] == was[lo..lo + j] + [was[lo + j]];
    ValueAppend(a[..j], a[j]);
    assert a[..j + 1] == a[..j] + [a[j]];
    PowStep(WORD_BASE, j);
    ColumnArithmetic(Value(now[lo..lo + j]), carry, Value(was[lo..lo + j]), Value(a[..j]), b,
                     Pow(WORD_BASE, j), now[lo + j], a[j], tmp);
  }

  /** `now` holds the old low half plus `a` times the low `i` words of `b`. */
  ghost predicate RowsSoFar(now: seq<word>, start: seq<word>, a: seq<word>, b: seq<word>, n: nat, i: nat)
    requires n + i <= |now| == |start| && i <= |b| && n <= |a|
  {
    Value(now[..n + i]) == Value(start[..n]) + Value(a[..n]) * Value(b[..i])
  }

  lemma RowArithmetic(low: int, mid: int, row: int, carry: int, a: int, b: int, p: int, q: int, s: int, done: int)
    requires row + carry * p == mid + a * b
    requires low + mid * q == s + a * done
    ensures low + (row + carry * p) * q == s + a * (done + b * q)
  {
  }

  lemma RowStep(now: seq<word>, was: seq<word>, start: seq<word>, a: seq<word>, b: seq<word>,
                carry: word, n: nat, i: nat)
    requires n + i < |now| == |was| == |start| && i < |b| && n <= |a|
    requires RowsSoFar(was, start, a, b, n, i)
    requires RowSoFar(now, was, a, b[i], carry, i, n)
    requires now[..i] == was[..i]
    ensures RowsSoFar(now[i + n := carry], start, a, b, n, i + 1)
  {
    hide Value, Pow;
    var row, low, mid := now[i..i + n], was[..i], was[i..i + n];
    ValueConcat(low, mid);
    assert was[..n + i] == low + mid;
    ValueConcat(low, row + [carry]);
    assert now[i + n := carry][..n + i + 1] == low + (row + [carry]);
    ValueAppend(row, carry);
    ValueAppend(b[..i], b[i]);
    assert b[..i + 1] == b[..i] + [b[i]];
    RowArithmetic(Value(low), Value(mid), Value(row), carry, Value(a[..n]), b[i],
                  Pow(WORD_BASE, n), Pow(WORD_BASE, i), Value(start[..n]), Value(b[..i]));
  }

  lemma ValueAppend(s: seq<word>, w: word)
    ensures Value(s + [w]) == Value(s) + w * Pow(WORD_BASE, |s|)
  {
  }

  /**
   * The inner loop: adds `b` times `sa` to the words of `sr` from `i` on and returns the carry.
   * `tmp` is the 64-bit intermediate, truncated to 64 bits as C does.
   */
  method MultiplyRow(sr: array<word>, sa: array<word>, b: word, i: nat, n: nat) returns (carry: word)
    requires sr != sa && n <= sa.Length && i + n <= sr.Length
    modifies sr
    ensures RowSoFar(sr[..], old(sr[..]), sa[..], b, carry, i, n)
    ensures sr[..i] == old(sr[..i]) && sr[i + n..] == old(sr[i + n..])
  {
    hide Value, Pow, RowSoFar;
    ghost var before := sr[..];
    carry := 0;
    RowStart(before, sa[..], b, i);
    var j := 0;
    while j < n
      invariant 0 <= j <= n
      invariant sr[..i] == before[..i] && sr[i + j..] == before[i + j..]
      invariant RowSoFar(sr[..], before, sa[..], b, carry, i, j)
    {
      var r := i + j;
      ColumnFits(sr[r], sa[j], b, carry);
      var tmp: dword := (sr[r] + sa[j] * b + carry) % LONG_BASE;
      assert sr[i + j..][0] == before[i + j..][0];
      ColumnStep(sr[..], before, sa[..], b, carry, i, j, tmp);
      ghost var now := sr[..];
      sr[r] := tmp % WORD_BASE;
      carry := tmp / WORD_BASE;
      assert sr[..] == now[r := tmp % WORD_BASE];
      assert sr[i + j + 1..] == now[i + j..][1..];
      j := j + 1;
    }
  }

  /**
   * Adds the product of `sa` and `sb` to the low half of `sr`. The upper half is
   * overwritten: the result does not depend on what it held.
   */
  method RegularMultiply(sr: array<word>, sa: array<word>, sb: array<word>, n: nat)
    requires sr != sa && sr != sb
    requires n <= sa.Length && n <= sb.Length && 2 * n <= sr.Length
    modifies sr
    ensures Value(sr[..2 * n]) == Value(old(sr[..n])) + Value(sa[..n]) * Value(sb[..n])
    ensures sr[2 * n..] == old(sr[2 * n..])
  {
    ghost var start := sr[..];
    var i := 0;
    while i < n
      invariant 0 <= i <= n
      invariant sr[i + n..] == start[i + n..]
      invariant RowsSoFar(sr[..], start, sa[..], sb[..], n, i)
    {
      ghost var before := sr[..];
      var carry := MultiplyRow(sr, sa, sb[i], i, n);
      RowStep(sr[..], before, start, sa[..], sb[..], carry, n, i);
      ghost var now := sr[..];
      sr[i + n] := carry;
      assert sr[..] == now[i + n := carry];
      assert sr[i + n + 1..] == now[i + n..][1..];
      i := i + 1;
    }
    assert sr[..][..n + n] == sr[..2 * n] && start[..n] == old(sr[..n]);
    assert sa[..][..n] == sa[..n] && sb[..][..n] == sb[..n];
  }

  /** The product never needs more than the `2n` words: nothing is lost at the top. */
  lemma ProductFits(a: seq<word>, b: seq<word>, low: seq<word>)
    requires |a| == |b| == |low|
    ensures Value(low) + Value(a) * Value(b) < Pow(WORD_BASE, 2 * |a|)
  {
    ValueBound(a);
    ValueBound(b);
    ValueBound(low);
    PowAdd(WORD_BASE, |a|, |a|);
    assert |a| + |a| == 2 * |a|;
    BelowSquare(Value(low), Value(a), Value(b), Pow(WORD_BASE, |a|));
  }

  lemma BelowSquare(c: nat, a: nat, b: nat, p: nat)
    requires a < p && b < p && c < p
    ensures c + a * b < p * p
  {
    MulMonotone(a, p - 1, b);
    MulMonotone(b, p - 1, p - 1);
    assert (p - 1) * (p - 1) == p * p - 2 * p + 1;
    assert b * (p - 1) == (p - 1) * b;
  }
}
