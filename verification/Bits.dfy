/** Exclusive or on numbers of any size, defined bit by bit. */
module Bits {
  import opened Machine

  function Xor(a: nat, b: nat): nat
    decreases a + b
  {
    if a == 0 && b == 0 then 0 else (a + b) % 2 + 2 * Xor(a / 2, b / 2)
  }

  lemma {:induction false} XorParts(a: nat, b: nat)
    ensures Xor(a, b) % 2 == (a + b) % 2 && Xor(a, b) / 2 == Xor(a / 2, b / 2)
  {
    if a == 0 && b == 0 {
      assert a / 2 == 0 && b / 2 == 0;
    } else {
      QuotientUnique(Xor(a, b), 2, Xor(a / 2, b / 2), (a + b) % 2);
    }
  }

  lemma {:induction false} XorUndo(a: nat, b: nat)
    ensures Xor(Xor(a, b), b) == a
    decreases a + b
  {
    if a + b > 0 {
      hide Xor;
      XorUndo(a / 2, b / 2);
      XorParts(a, b);
      XorParts(Xor(a, b), b);
      SameBits(Xor(Xor(a, b), b), Xor(a, b), a, b);
    }
  }

  lemma SameBits(y: nat, x: nat, a: nat, b: nat)
    requires x % 2 == (a + b) % 2 && y % 2 == (x + b) % 2 && y / 2 == a / 2
    ensures y == a
  {
  }

  /** Truncating to `k` bits commutes with exclusive or. */
  lemma {:induction false} XorTruncates(a: nat, b: nat, k: nat)
    ensures Xor(a, b) % Pow(2, k) == Xor(a % Pow(2, k), b % Pow(2, k))
    decreases k
  {
    if k > 0 {
      hide Xor;
      var p := Pow(2, k - 1);
      XorTruncates(a / 2, b / 2, k - 1);
      HalveMod(a, p);
      HalveMod(b, p);
      HalveMod(Xor(a, b), p);
      XorParts(a, b);
      XorParts(a % (2 * p), b % (2 * p));
      SameParity(a, b, a % (2 * p), b % (2 * p));
      assert Pow(2, k) == 2 * p;
      Recompose(Xor(a, b) % (2 * p), Xor(a % (2 * p), b % (2 * p)));
    }
  }

  lemma Recompose(x: nat, y: nat)
    requires x % 2 == y % 2 && x / 2 == y / 2
    ensures x == y
  {
  }

  lemma SameParity(a: nat, b: nat, c: nat, d: nat)
    requires a % 2 == c % 2 && b % 2 == d % 2
    ensures (a + b) % 2 == (c + d) % 2
  {
  }

  lemma HalveMod(n: nat, p: nat)
    requires p > 0
    ensures n % (2 * p) / 2 == n / 2 % p && n % (2 * p) % 2 == n % 2
    ensures n % (2 * p) == n % 2 + 2 * (n / 2 % p)
  {
    var h, b := n / 2, n % 2;
    var q, r := h / p, h % p;
    assert h == p * q + r;
    assert n == (2 * p) * q + (2 * r + b) by { assert 2 * (p * q) == (2 * p) * q; }
    QuotientUnique(n, 2 * p, q, 2 * r + b);
  }

  /** Bit `k` of a number. */
  function Bit(n: nat, k: nat): nat { n / Pow(2, k) % 2 }

  lemma BitHalf(n: nat, k: nat)
    ensures Bit(n, 0) == n % 2 && Bit(n, k + 1) == Bit(n / 2, k)
  {
    HalveQuotient(n, Pow(2, k));
    PowStep(2, k);
  }

  /** Every bit of the result is the sum modulo 2 of the two bits. */
  lemma {:induction false} XorBit(a: nat, b: nat, k: nat)
    ensures Bit(Xor(a, b), k) == (Bit(a, k) + Bit(b, k)) % 2
    decreases k
  {
    hide *;
    XorParts(a, b);
    if k > 0 {
      XorBit(a / 2, b / 2, k - 1);
      BitHalf(a, k - 1);
      BitHalf(b, k - 1);
      BitHalf(Xor(a, b), k - 1);
    } else {
      BitHalf(a, 0);
      BitHalf(b, 0);
      BitHalf(Xor(a, b), 0);
      SameParity(a, b, a % 2, b % 2);
    }
  }

  lemma HalveQuotient(n: nat, p: nat)
    requires p > 0
    ensures n / 2 / p == n / (2 * p)
  {
    var h, b := n / 2, n % 2;
    var q, r := h / p, h % p;
    assert h == p * q + r;
    assert n == (2 * p) * q + (2 * r + b) by { assert 2 * (p * q) == (2 * p) * q; }
    QuotientUnique(n, 2 * p, q, 2 * r + b);
  }

  lemma XorBelow(a: nat, b: nat, k: nat)
    requires a < Pow(2, k) && b < Pow(2, k)
    ensures Xor(a, b) < Pow(2, k)
  {
  }

  function XorByte(a: byte, b: byte): byte
  {
    assert Pow(2, 8) == 256;
    XorBelow(a, b, 8);
    Xor(a, b)
  }

  /** A byte is changed bit by bit. */
  lemma XorByteBit(a: byte, b: byte, k: nat)
    requires k < 8
    ensures XorByte(a, b) / Pow(2, k) % 2 == (a / Pow(2, k) % 2 + b / Pow(2, k) % 2) % 2
  {
    hide Xor, Pow;
    XorBit(a, b, k);
  }

  lemma {:induction false} XorCommutes(a: nat, b: nat)
    ensures Xor(a, b) == Xor(b, a)
    decreases a + b
  {
    if a + b > 0 {
      XorCommutes(a / 2, b / 2);
    }
  }

  lemma XorCancels(m: nat, a: nat, b: nat)
    requires Xor(m, a) == Xor(m, b)
    ensures a == b
  {
    hide Xor;
    XorCommutes(m, a);
    XorCommutes(m, b);
    XorUndo(a, m);
    XorUndo(b, m);
  }
}
