/** 32-bit words.  A word is a number below 2^32 and the wrap-around of `uint32_t`
    arithmetic is written out with `Wrap`.  Shifts by a constant are divisions and
    (wrapped) multiplications by a power of two, a mask of k low bits is a remainder by
    2^k, and the operators &, | and ^ on arbitrary operands are defined bit by bit. */
module Words {

  type uint32 = x: int | 0 <= x < 0x1_0000_0000

  /** The `uint32_t` result of a computation whose exact result is x. */
  function Wrap(x: int): uint32 {
    x % 0x1_0000_0000
  }

  function BitAnd(a: nat, b: nat): (r: nat)
    ensures r <= a && r <= b
  {
    if a == 0 || b == 0 then 0
    else 2 * BitAnd(a / 2, b / 2) + (if a % 2 == 1 && b % 2 == 1 then 1 else 0)
  }

  function BitOr(a: nat, b: nat): (r: nat)
    ensures a <= r && b <= r <= a + b
    decreases a + b
  {
    if a == 0 && b == 0 then 0
    else 2 * BitOr(a / 2, b / 2) + (if a % 2 == 1 || b % 2 == 1 then 1 else 0)
  }

  function BitXor(a: nat, b: nat): (r: nat)
    ensures r <= a + b
    decreases a + b
  {
    if a == 0 && b == 0 then 0
    else 2 * BitXor(a / 2, b / 2) + (if a % 2 != b % 2 then 1 else 0)
  }

  /** The complement ~x of a word. */
  function BitNot(x: uint32): uint32 {
    0xFFFF_FFFF - x
  }

  function Pow2(k: nat): (p: nat)
    ensures p > 0
  {
    if k == 0 then 1 else 2 * Pow2(k - 1)
  }

  lemma {:induction false} Pow2Values()
    ensures Pow2(3) == 8 && Pow2(6) == 0x40 && Pow2(7) == 0x80 && Pow2(9) == 0x200 && Pow2(10) == 0x400
           && Pow2(11) == 0x800
    ensures Pow2(12) == 0x1000 && Pow2(16) == 0x1_0000 && Pow2(19) == 0x8_0000
    ensures Pow2(31) == 0x8000_0000 && Pow2(32) == 0x1_0000_0000
  {
    assert Pow2(5) == 0x20;
    assert Pow2(10) == 0x400;
    assert Pow2(15) == 0x8000;
    assert Pow2(20) == 0x10_0000;
    assert Pow2(25) == 0x200_0000;
    assert Pow2(30) == 0x4000_0000;
  }

  // ---- Halving: one step of each bitwise operator, valid for zero operands too.

  lemma {:induction false} HalveAnd(a: nat, b: nat)
    ensures BitAnd(a, b) / 2 == BitAnd(a / 2, b / 2)
    ensures BitAnd(a, b) % 2 == (if a % 2 == 1 && b % 2 == 1 then 1 else 0)
  {
  }

  lemma {:induction false} HalveOr(a: nat, b: nat)
    ensures BitOr(a, b) / 2 == BitOr(a / 2, b / 2)
    ensures BitOr(a, b) % 2 == (if a % 2 == 1 || b % 2 == 1 then 1 else 0)
  {
  }

  lemma {:induction false} HalveXor(a: nat, b: nat)
    ensures BitXor(a, b) / 2 == BitXor(a / 2, b / 2)
    ensures BitXor(a, b) % 2 == (if a % 2 != b % 2 then 1 else 0)
  {
  }

  // ---- Or as addition.

  /** Or and And together make the sum. */
  lemma {:induction false} OrPlusAnd(a: nat, b: nat)
    ensures BitOr(a, b) + BitAnd(a, b) == a + b
    decreases a + b
  {
    if a + b > 0 {
      HalveAnd(a, b);
      HalveOr(a, b);
      OrPlusAnd(a / 2, b / 2);
    }
  }

  lemma {:induction false} AndSelf(a: nat)
    ensures BitAnd(a, a) == a
  {
    if a > 0 {
      HalveAnd(a, a);
      AndSelf(a / 2);
    }
  }

  /** A multiple of p = 2^k and a number below p have no common bit. */
  lemma {:induction false} AndOfFields(x: nat, b: nat, k: nat, p: nat, xp: nat)
    requires p == Pow2(k) && xp == x * p && b < p
    ensures BitAnd(xp, b) == 0
  {
    if k > 0 {
      var q := Pow2(k - 1);
      DoubleProduct(x, q);
      AndOfFields(x, b / 2, k - 1, q, xp / 2);
      HalveAnd(xp, b);
    }
  }

  lemma {:induction false} DoubleProduct(x: nat, p: nat)
    ensures x * (2 * p) == 2 * (x * p)
    ensures x * (2 * p) / 2 == x * p && x * (2 * p) % 2 == 0
  {
    assert x * (2 * p) == 2 * (x * p);
  }

  /** Packing a field above k low bits with `|` adds it. */
  lemma {:induction false} OrOfFields(x: nat, b: nat, k: nat, p: nat, xp: nat)
    requires p == Pow2(k) && xp == x * p && b < p
    ensures BitOr(xp, b) == xp + b
  {
    AndOfFields(x, b, k, p, xp);
    OrPlusAnd(xp, b);
  }

  /** Or commutes with a shift to the left. */
  lemma {:induction false} OrOfShifted(a: nat, b: nat, k: nat, p: nat, ap: nat, bp: nat)
    requires p == Pow2(k) && ap == a * p && bp == b * p
    ensures BitOr(ap, bp) == BitOr(a, b) * p
  {
    hide BitOr;
    if k > 0 {
      var q := Pow2(k - 1);
      DoubleProduct(a, q);
      DoubleProduct(b, q);
      OrOfShifted(a, b, k - 1, q, ap / 2, bp / 2);
      HalveOr(ap, bp);
      DoubleProduct(BitOr(a, b), q);
    }
  }

  // ---- And with masks.

  function ShiftRight(a: nat, k: nat): nat {
    if k == 0 then a else ShiftRight(a / 2, k - 1)
  }

  lemma {:induction false} ShiftRightDivides(a: nat, k: nat, p: nat)
    requires p == Pow2(k)
    ensures ShiftRight(a, k) == a / p
  {
    if k > 0 {
      DivHalf(a, Pow2(k - 1));
      ShiftRightDivides(a / 2, k - 1, Pow2(k - 1));
    }
  }

  /** Bits outside a mask stay outside any part of the mask. */
  lemma {:induction false} AndOfPart(a: nat, b: nat, mask: nat)
    requires BitAnd(a, mask) == 0
    ensures BitAnd(a, BitAnd(b, mask)) == 0
  {
    if a > 0 {
      HalveAnd(a, mask);
      HalveAnd(b, mask);
      AndOfPart(a / 2, b / 2, mask / 2);
      HalveAnd(a, BitAnd(b, mask));
    }
  }

  /** Masking with (m << k) | (2^k - 1) keeps the k low bits and masks the others with m. */
  lemma {:induction false} AndWithLowOnes(h: nat, m: nat, mask: nat, k: nat, p: nat)
    requires p == Pow2(k) && mask == m * p + (p - 1)
    ensures BitAnd(h, mask) == BitAnd(ShiftRight(h, k), m) * p + h % p
  {
    if k > 0 {
      var q := Pow2(k - 1);
      DoubleProduct(m, q);
      assert mask == 2 * (m * q + (q - 1)) + 1;
      AndWithLowOnes(h / 2, m, mask / 2, k - 1, q);
      DoubleProduct(BitAnd(ShiftRight(h, k), m), q);
      ModHalf(h, q);
      HalveAnd(h, mask);
    }
  }

  /** Mask bits above the operand do not matter. */
  lemma {:induction false} AndIgnoresHighBits(x: nat, m: nat, k: nat, p: nat)
    requires p == Pow2(k) && x < p
    ensures BitAnd(x, m) == BitAnd(x, m % p)
  {
    if k > 0 {
      var q := Pow2(k - 1);
      ModHalf(m, q);
      AndIgnoresHighBits(x / 2, m / 2, k - 1, q);
      HalveAnd(x, m);
      HalveAnd(x, m % p);
    }
  }

  /** A mask of all bits below n keeps a number below 2^n. */
  lemma {:induction false} AndWithOnes(x: nat, n: nat, mask: nat)
    requires x < Pow2(n) && mask == Pow2(n) - 1
    ensures BitAnd(x, mask) == x
  {
    if n > 0 {
      AndWithOnes(x / 2, n - 1, mask / 2);
      HalveAnd(x, mask);
    }
  }

  /** A mask of the bits from k up to n clears the k low bits. */
  lemma {:induction false} AndWithHighOnes(x: nat, n: nat, k: nat, p: nat, mask: nat)
    requires k <= n && x < Pow2(n) && p == Pow2(k) && mask == Pow2(n) - p
    ensures BitAnd(x, mask) == x - x % p
  {
    if k == 0 {
      AndWithOnes(x, n, mask);
    } else {
      var q := Pow2(k - 1);
      AndWithHighOnes(x / 2, n - 1, k - 1, q, mask / 2);
      ModHalf(x, q);
      HalveAnd(x, mask);
    }
  }

  /** A mask and its complement split a number. */
  lemma {:induction false} AndSplits(x: nat, m: nat, k: nat, p: nat)
    requires p == Pow2(k) && x < p && m < p
    ensures BitAnd(x, p - 1 - m) + BitAnd(x, m) == x
  {
    hide BitAnd;
    if k > 0 {
      var q := Pow2(k - 1);
      HalveAnd(x, m);
      HalveAnd(x, p - 1 - m);
      HalfComplement(m, q);
      AndSplits(x / 2, m / 2, k - 1, q);
    }
  }

  // ---- Exclusive or.

  lemma {:induction false} XorBound(a: nat, b: nat, k: nat)
    requires a < Pow2(k) && b < Pow2(k)
    ensures BitXor(a, b) < Pow2(k)
  {
    if k > 0 {
      XorBound(a / 2, b / 2, k - 1);
      HalveXor(a, b);
    }
  }

  /** The k low bits of a ^ b and of a determine the k low bits of b. */
  lemma {:induction false} XorCancels(a: nat, b: nat, c: nat, k: nat, p: nat)
    requires p == Pow2(k) && BitXor(a, b) % p == BitXor(a, c) % p
    ensures b % p == c % p
  {
    if k > 0 {
      var q := Pow2(k - 1);
      ModHalf(BitXor(a, b), q);
      ModHalf(BitXor(a, c), q);
      HalveXor(a, b);
      HalveXor(a, c);
      XorCancels(a / 2, b / 2, c / 2, k - 1, q);
      ModHalf(b, q);
      ModHalf(c, q);
    }
  }

  /** Xor with the same operand twice is the identity. */
  lemma {:induction false} XorTwice(a: nat, b: nat)
    ensures BitXor(BitXor(a, b), b) == a
    decreases a + b
  {
    hide BitXor;
    HalveXor(a, b);
    HalveXor(BitXor(a, b), b);
    if a + b > 0 {
      XorTwice(a / 2, b / 2);
    } else {
      XorZero(0);
    }
  }

  lemma {:induction false} XorZero(a: nat)
    ensures BitXor(a, 0) == a
  {
    if a > 0 {
      XorZero(a / 2);
    }
  }

  /** The k low bits of a ^ b are those of the operands' k low bits. */
  lemma {:induction false} XorLowBits(a: nat, b: nat, k: nat, p: nat)
    requires p == Pow2(k)
    ensures BitXor(a, b) % p == BitXor(a % p, b % p)
  {
    if k == 0 {
      XorZero(0);
    } else {
      hide BitXor;
      var q := Pow2(k - 1);
      ModHalf(a, q);
      ModHalf(b, q);
      ModHalf(BitXor(a, b), q);
      HalveXor(a, b);
      HalveXor(a % p, b % p);
      XorLowBits(a / 2, b / 2, k - 1, q);
    }
  }

  /** Complementing the k bits of one operand complements the result. */
  lemma {:induction false} XorComplement(a: nat, b: nat, k: nat, p: nat)
    requires p == Pow2(k) && a < p && b < p
    ensures BitXor(a, b) < p && BitXor(p - 1 - a, b) == p - 1 - BitXor(a, b)
  {
    hide BitXor;
    if k == 0 {
      XorZero(0);
    } else {
      var q := Pow2(k - 1);
      HalveXor(a, b);
      HalveXor(p - 1 - a, b);
      HalfComplement(a, q);
      XorComplement(a / 2, b / 2, k - 1, q);
    }
  }

  lemma {:induction false} HalfComplement(a: nat, q: nat)
    requires a < 2 * q
    ensures a / 2 < q && (2 * q - 1 - a) / 2 == q - 1 - a / 2 && (2 * q - 1 - a) % 2 == 1 - a % 2
  {
    DivModUnique(2 * q - 1 - a, 2, q - 1 - a / 2, 1 - a % 2);
  }

  /** Exclusive or commutes with a shift to the right. */
  lemma {:induction false} XorOfShifted(a: nat, b: nat, k: nat)
    ensures ShiftRight(BitXor(a, b), k) == BitXor(ShiftRight(a, k), ShiftRight(b, k))
  {
    if k > 0 {
      HalveXor(a, b);
      XorOfShifted(a / 2, b / 2, k - 1);
    }
  }

  /** An operand whose k low bits are zero leaves the k low bits alone. */
  lemma {:induction false} XorAbove(a: nat, b: nat, k: nat, p: nat)
    requires p == Pow2(k) && b % p == 0
    ensures BitXor(a, b) % p == a % p
  {
    if k > 0 {
      var q := Pow2(k - 1);
      ModHalf(a, q);
      ModHalf(b, q);
      ModHalf(BitXor(a, b), q);
      HalveXor(a, b);
      XorAbove(a / 2, b / 2, k - 1, q);
    }
  }

  // ---- Division.

  lemma {:induction false} DivModUnique(n: int, d: int, q: int, r: int)
    requires d > 0 && n == d * q + r && 0 <= r < d
    ensures n / d == q && n % d == r
  {
    var q', r' := n / d, n % d;
    assert n == d * q' + r';
    assert d * (q - q') == d * q - d * q';
    SmallMultiple(d, q - q');
  }

  lemma {:induction false} SmallMultiple(d: int, x: int)
    requires -d < d * x < d
    ensures x == 0
  {
    assert x >= 1 ==> d * x >= d * 1;
    assert x <= -1 ==> d * x <= d * -1;
  }

  lemma {:induction false} WrapSmall(x: int)
    requires 0 <= x < 0x1_0000_0000
    ensures Wrap(x) == x
  {
  }

  lemma {:induction false} WrapSum(a: int, b: int)
    ensures Wrap(a + Wrap(b)) == Wrap(a + b)
  {
    DivModUnique(a + b, 0x1_0000_0000, (a + Wrap(b)) / 0x1_0000_0000 + b / 0x1_0000_0000, Wrap(a + Wrap(b)));
  }

  lemma {:induction false} DivHalf(n: nat, p: nat)
    requires p > 0
    ensures n / (2 * p) == n / 2 / p
  {
    var q, r := (n / 2) / p, (n / 2) % p;
    assert n / 2 == p * q + r;
    DoubleProduct(q, p);
    DivModUnique(n, 2 * p, q, 2 * r + n % 2);
  }

  /** The half and the parity of a remainder by 2p. */
  lemma {:induction false} ModHalf(n: nat, p: nat)
    requires p > 0
    ensures n % (2 * p) / 2 == (n / 2) % p && n % (2 * p) % 2 == n % 2
  {
    var q, r := (n / 2) / p, (n / 2) % p;
    assert n / 2 == p * q + r;
    DoubleProduct(q, p);
    DivModUnique(n, 2 * p, q, 2 * r + n % 2);
  }
}
