/** Natural numbers bit by bit. */
module Bits {
  /** Bitwise exclusive or. */
  function Xor(a: nat, b: nat): nat {
    if a == 0 then b
    else if b == 0 then a
    else (a % 2 + b % 2) % 2 + 2 * Xor(a / 2, b / 2)
  }

  /** The bit of weight 2^k. */
  function Bit(n: nat, k: nat): nat {
    if k == 0 then n % 2 else Bit(n / 2, k - 1)
  }

  /** Two bits give 1 exactly if they differ. */
  lemma {:induction false} XorBits(a: nat, b: nat, k: nat)
    ensures Bit(Xor(a, b), k) == if Bit(a, k) == Bit(b, k) then 0 else 1
    decreases k
  {
    if a == 0 || b == 0 {
      ZeroBits(k);
      BitIsBinary(a, k);
      BitIsBinary(b, k);
    } else {
      var low, high := (a % 2 + b % 2) % 2, Xor(a / 2, b / 2);
      assert Xor(a, b) == low + 2 * high && (low + 2 * high) % 2 == low && (low + 2 * high) / 2 == high;
      if k > 0 {
        XorBits(a / 2, b / 2, k - 1);
      }
    }
  }

  lemma {:induction false} ZeroBits(k: nat)
    ensures Bit(0, k) == 0
  {
    if k > 0 {
      ZeroBits(k - 1);
    }
  }

  lemma {:induction false} BitIsBinary(n: nat, k: nat)
    ensures Bit(n, k) == 0 || Bit(n, k) == 1
    decreases k
  {
    if k > 0 {
      BitIsBinary(n / 2, k - 1);
    }
  }

  function Power(k: nat): (p: nat)
    ensures p > 0
  {
    if k == 0 then 1 else 2 * Power(k - 1)
  }

  function Halved(n: nat, m: nat): nat {
    if m == 0 then n else Halved(n / 2, m - 1)
  }

  /** Halving moves the bits down. */
  lemma {:induction false} BitBehind(n: nat, m: nat, k: nat)
    ensures Bit(Halved(n, m), k) == Bit(n, m + k)
    decreases m
  {
    if m > 0 {
      BitBehind(n / 2, m - 1, k);
    }
  }

  lemma {:induction false} HalvedAgain(n: nat, a: nat, b: nat)
    ensures Halved(Halved(n, a), b) == Halved(n, a + b)
    decreases a
  {
    if a > 0 {
      HalvedAgain(n / 2, a - 1, b);
    }
  }

  lemma HalvedNibble(n: nat)
    ensures Halved(n, 4) == n / 16
  {
    var half := n / 2;
    var quarter := half / 2;
    var eighth := quarter / 2;
    assert Halved(half, 3) == Halved(quarter, 2) == Halved(eighth, 1) == Halved(eighth / 2, 0);
  }

  lemma HalvedByte(n: nat)
    ensures Halved(n, 8) == n / 0x100
  {
    HalvedAgain(n, 4, 4);
    HalvedNibble(n);
    HalvedNibble(n / 16);
  }

  lemma HalvedTwoBytes(n: nat)
    ensures Halved(n, 16) == n / 0x1_0000
  {
    HalvedAgain(n, 8, 8);
    HalvedByte(n);
    HalvedByte(n / 0x100);
  }

  lemma HalvedWord(n: nat)
    ensures Halved(n, 32) == n / 0x1_0000_0000
  {
    HalvedAgain(n, 16, 16);
    HalvedTwoBytes(n);
    HalvedTwoBytes(n / 0x1_0000);
  }

  lemma Multiple(d: nat, e: int)
    requires d > 0 && e != 0
    ensures d * e >= d || d * e <= 0 - d
  {}

  lemma Quotient(n: nat, d: nat, q: nat, r: nat)
    requires d > 0 && n == d * q + r && r < d
    ensures n / d == q && n % d == r
  {
    var e := n / d - q;
    assert d * e == r - n % d;
    if e != 0 {
      Multiple(d, e);
    }
  }

  /** A remainder by a power of two keeps the bits below it. */
  lemma {:induction false} LowBits(n: nat, m: nat, k: nat)
    requires k < m
    ensures Bit(n % Power(m), k) == Bit(n, k)
    decreases m
  {
    var p := Power(m - 1);
    var q, r := n / 2 / p, n / 2 % p;
    assert n / 2 == p * q + r;
    assert n == (2 * p) * q + (2 * r + n % 2);
    Quotient(n, 2 * p, q, 2 * r + n % 2);
    if k > 0 {
      LowBits(n / 2, m - 1, k - 1);
    }
  }
}
