/**
 * Bit-level views of unsigned integers: the single-bit test, bitwise AND and OR, and
 * the masks the flag fields of the map format use. Integers stay `nat` so that the
 * surrounding arithmetic (indices, counts) stays cheap; a bit is read by halving.
 */
module Bits {

  function Pow2(k: nat): (r: nat)
    ensures r >= 1
  {
    if k == 0 then 1 else 2 * Pow2(k - 1)
  }

  /** Bit k of x is set. */
  predicate Bit(x: nat, k: nat)
  {
    if k == 0 then x % 2 == 1 else Bit(x / 2, k - 1)
  }

  /** Bitwise AND of two unsigned integers. */
  function And(x: nat, y: nat): (r: nat)
    ensures r <= x && r <= y
  {
    if x == 0 || y == 0 then 0
    else 2 * And(x / 2, y / 2) + (if x % 2 == 1 && y % 2 == 1 then 1 else 0)
  }

  /** Bitwise OR of two unsigned integers. */
  function Or(x: nat, y: nat): (r: nat)
    ensures x <= r && y <= r
    ensures r <= x + y
  {
    if x == 0 then y
    else if y == 0 then x
    else 2 * Or(x / 2, y / 2) + (if x % 2 == 1 || y % 2 == 1 then 1 else 0)
  }

  /** The `(value & mask) != 0` test every flag predicate of the program uses. */
  predicate HasAny(x: nat, mask: nat)
  {
    And(x, mask) != 0
  }

  lemma {:induction false} NoBitOfZero(k: nat)
    ensures !Bit(0, k)
  {
    if k > 0 {
      NoBitOfZero(k - 1);
    }
  }

  /** A non-zero value has some bit set. */
  lemma {:induction false} NonZeroHasBit(x: nat) returns (k: nat)
    requires x != 0
    ensures Bit(x, k)
    decreases x
  {
    if x % 2 == 1 {
      k := 0;
    } else {
      var j := NonZeroHasBit(x / 2);
      k := j + 1;
    }
  }

  /** Bit k of a power of two is set exactly at its exponent. */
  lemma {:induction false} BitOfPow2(n: nat, k: nat)
    ensures Bit(Pow2(n), k) <==> k == n
  {
    if k == 0 {
      if n > 0 {
        assert Pow2(n) % 2 == 0;
      }
    } else if n == 0 {
      assert Pow2(0) / 2 == 0;
      NoBitOfZero(k - 1);
    } else {
      assert Pow2(n) / 2 == Pow2(n - 1);
      BitOfPow2(n - 1, k - 1);
    }
  }

  /** The bits of x & y are the bits set in both. */
  lemma {:induction false} AndBits(x: nat, y: nat, k: nat)
    ensures Bit(And(x, y), k) <==> Bit(x, k) && Bit(y, k)
  {
    if x == 0 || y == 0 {
      NoBitOfZero(k);
    } else {
      var r := And(x / 2, y / 2);
      var b := if x % 2 == 1 && y % 2 == 1 then 1 else 0;
      assert And(x, y) == 2 * r + b;
      if k == 0 {
        assert And(x, y) % 2 == b;
      } else {
        assert And(x, y) / 2 == r;
        AndBits(x / 2, y / 2, k - 1);
      }
    }
  }

  /** The bits of x | y are the bits set in either. */
  lemma {:induction false} OrBits(x: nat, y: nat, k: nat)
    ensures Bit(Or(x, y), k) <==> Bit(x, k) || Bit(y, k)
  {
    if x == 0 || y == 0 {
      NoBitOfZero(k);
    } else {
      var r := Or(x / 2, y / 2);
      var b := if x % 2 == 1 || y % 2 == 1 then 1 else 0;
      assert Or(x, y) == 2 * r + b;
      if k == 0 {
        assert Or(x, y) % 2 == b;
      } else {
        assert Or(x, y) / 2 == r;
        OrBits(x / 2, y / 2, k - 1);
      }
    }
  }

  /** `(x & mask) != 0` holds exactly when x and mask share a set bit. */
  lemma HasAnyShared(x: nat, mask: nat)
    ensures HasAny(x, mask) <==> exists k: nat :: Bit(x, k) && Bit(mask, k)
  {
    if HasAny(x, mask) {
      var k := NonZeroHasBit(And(x, mask));
      AndBits(x, mask, k);
    }
    forall k: nat | Bit(x, k) && Bit(mask, k) ensures HasAny(x, mask) {
      AndBits(x, mask, k);
      NoBitOfZero(k);
    }
  }

  /** A single-bit mask tests that one bit. */
  lemma HasAnyPow2(x: nat, n: nat)
    ensures HasAny(x, Pow2(n)) <==> Bit(x, n)
  {
    HasAnyShared(x, Pow2(n));
    if Bit(x, n) {
      BitOfPow2(n, n);
    }
    forall k: nat | Bit(x, k) && Bit(Pow2(n), k) ensures k == n {
      BitOfPow2(n, k);
    }
  }

  /** The mask of the low n bits, 2^n - 1. */
  function LowMask(n: nat): (r: nat)
  {
    Pow2(n) - 1
  }

  /** The low-bits mask has exactly the bits below n set. */
  lemma {:induction false} LowMaskBits(n: nat, k: nat)
    ensures Bit(LowMask(n), k) <==> k < n
  {
    if n == 0 {
      NoBitOfZero(k);
    } else if k > 0 {
      assert LowMask(n) / 2 == LowMask(n - 1);
      LowMaskBits(n - 1, k - 1);
    }
  }

  /** Exponents add: 2^(a+b) = 2^a * 2^b. */
  lemma {:induction false} Pow2Add(a: nat, b: nat)
    ensures Pow2(a + b) == Pow2(a) * Pow2(b)
  {
    if a > 0 {
      Pow2Add(a - 1, b);
      assert Pow2(a + b) == 2 * Pow2(a - 1 + b);
    }
  }

  /** The powers of two that the program writes as hexadecimal literals. */
  lemma Pow2Values()
    ensures Pow2(15) == 0x8000 && Pow2(16) == 0x1_0000
    ensures Pow2(31) == 0x8000_0000 && Pow2(32) == 0x1_0000_0000
  {
    Pow2Add(5, 10);
    Pow2Add(5, 5);
    Pow2Add(1, 15);
    Pow2Add(15, 16);
    Pow2Add(1, 31);
  }

  /** Setting bit n of a value below 2^n adds 2^n. */
  lemma {:induction false} OrHighBit(a: nat, n: nat)
    requires a < Pow2(n)
    ensures Or(a, Pow2(n)) == a + Pow2(n)
  {
    if n > 0 && a != 0 {
      assert Pow2(n) % 2 == 0 && Pow2(n) / 2 == Pow2(n - 1);
      OrHighBit(a / 2, n - 1);
    }
  }

  /**
   * For a value below 2^n with bit n added: the bit-n test sees it, and masking with the
   * low-bits mask gives the value back.
   */
  lemma {:induction false} AndHighBit(a: nat, n: nat)
    requires a < Pow2(n)
    ensures And(a + Pow2(n), Pow2(n)) != 0
    ensures And(a + Pow2(n), LowMask(n)) == a
    ensures And(a, Pow2(n)) == 0
  {
    if n == 0 {
    } else {
      assert Pow2(n) % 2 == 0 && Pow2(n) / 2 == Pow2(n - 1);
      assert LowMask(n) % 2 == 1 && LowMask(n) / 2 == LowMask(n - 1);
      assert (a + Pow2(n)) / 2 == a / 2 + Pow2(n - 1);
      AndHighBit(a / 2, n - 1);
    }
  }
}
