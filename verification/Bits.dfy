/** The bits of a number. */
module Bits {

  function Power(n: nat): nat { if n == 0 then 1 else 2 * Power(n - 1) }

  /** Bit i of a number. */
  predicate Bit(n: nat, i: nat) {
    if i == 0 then n % 2 == 1 else Bit(n / 2, i - 1)
  }

  lemma {:induction false} NoBits(i: nat)
    ensures !Bit(0, i)
  {
    if i > 0 { NoBits(i - 1); }
  }

  /** A number is its bits. */
  lemma {:induction false} BitsAreTheNumber(m: nat, n: nat)
    requires forall i: nat :: Bit(m, i) <==> Bit(n, i)
    ensures m == n
    decreases m + n
  {
    assert Bit(m, 0) <==> Bit(n, 0);
    if m > 0 || n > 0 {
      forall i: nat ensures Bit(m / 2, i) <==> Bit(n / 2, i) { assert Bit(m, i + 1) <==> Bit(n, i + 1); }
      BitsAreTheNumber(m / 2, n / 2);
    }
  }

  /** The lower k bits and those above them. */
  lemma {:induction false} TwoParts(q: nat, r: nat, k: nat, i: nat)
    requires r < Power(k)
    ensures Bit(q * Power(k) + r, i) <==> if i < k then Bit(r, i) else Bit(q, i - k)
    decreases k
  {
    if k == 0 {
      assert q * Power(0) + r == q;
    } else {
      var u, n := q * Power(k - 1), q * Power(k) + r;
      assert n == 2 * u + r;
      assert n % 2 == r % 2 && n / 2 == u + r / 2;
      if i > 0 { TwoParts(q, r / 2, k - 1, i - 1); }
    }
  }

  /** Bitwise exclusive or. */
  function Xor(x: nat, y: nat): nat {
    if x == 0 && y == 0 then 0 else (x + y) % 2 + 2 * Xor(x / 2, y / 2)
  }

  lemma XorStep(x: nat, y: nat)
    ensures Xor(x, y) % 2 == (x + y) % 2 && Xor(x, y) / 2 == Xor(x / 2, y / 2)
  {
    if x > 0 || y > 0 { LowestBit((x + y) % 2, Xor(x / 2, y / 2)); }
  }

  lemma LowestBit(b: nat, z: nat)
    requires b < 2
    ensures (b + 2 * z) % 2 == b && (b + 2 * z) / 2 == z
  {
  }

  lemma Parity(x: nat, y: nat)
    ensures (x + y) % 2 == 1 <==> (x % 2 == 1) != (y % 2 == 1)
  {
  }

  lemma {:induction false} XorBits(x: nat, y: nat, i: nat)
    ensures Bit(Xor(x, y), i) <==> Bit(x, i) != Bit(y, i)
    decreases i
  {
    XorStep(x, y);
    if i == 0 { Parity(x, y); } else { XorBits(x / 2, y / 2, i - 1); }
  }

  lemma {:induction false} XorFits(x: nat, y: nat, k: nat)
    requires x < Power(k) && y < Power(k)
    ensures Xor(x, y) < Power(k)
    decreases k
  {
    if x > 0 || y > 0 { XorFits(x / 2, y / 2, k - 1); }
  }
}
