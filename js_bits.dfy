/** JavaScript's bitwise operators on 32-bit integers, stated on unbounded
    integers. Every operand the codec feeds them lies between -1 and 255, so
    no 32-bit wrap-around can occur; `x >> k`, `x & (2^k - 1)` and `a | b`
    below are exact for every 32-bit operand, `x << k` for operands whose
    shifted value stays below 2^31 in magnitude. */
module JsBits {

  /** 2 to the power k. */
  function Pow2(k: nat): (r: nat)
    ensures r >= 1
  {
    if k == 0 then 1 else 2 * Pow2(k - 1)
  }

  /** `x >> k`: the sign-propagating shift rounds toward negative infinity,
      which is Dafny's division by a positive divisor. */
  function Shr(x: int, k: nat): int
  {
    x / Pow2(k)
  }

  /** `x << k` while the result fits in 32 bits. */
  function Shl(x: int, k: nat): int
  {
    x * Pow2(k)
  }

  /** `x & (2^k - 1)`: the low k bits of the two's-complement value. */
  function LowBits(x: int, k: nat): (r: int)
    ensures 0 <= r < Pow2(k)
  {
    x % Pow2(k)
  }

  function Abs(x: int): nat
  {
    if x < 0 then -x else x
  }

  /** `a | b` on two's-complement integers: 0 and -1 are the all-zeros and
      all-ones words; otherwise the lowest bits are combined and the rest
      is shifted down. */
  function Or(a: int, b: int): int
    decreases Abs(a) + Abs(b)
  {
    if (a == 0 || a == -1) && (b == 0 || b == -1) then
      (if a == -1 || b == -1 then -1 else 0)
    else
      2 * Or(a / 2, b / 2) + (if a % 2 == 1 || b % 2 == 1 then 1 else 0)
  }

  /** Converts a 32-bit result to the byte a Uint8Array stores after
      `String.fromCharCode`: first ToUint16, then ToUint8. */
  function ToUint8(x: int): (r: int)
    ensures 0 <= r < 256
    ensures 0 <= x < 256 ==> r == x
  {
    x % 0x1_0000 % 0x100
  }

  lemma {:induction false} OrZero(a: int)
    ensures Or(a, 0) == a
    decreases Abs(a)
  {
    if a != 0 && a != -1 {
      OrZero(a / 2);
    }
  }

  /** When the bits of `b` all sit below bit k and those of `a` all at or
      above it (`a` is m shifted left by k), `a | b` is `a + b`. */
  lemma {:induction false} OrDisjoint(m: int, b: int, k: nat)
    requires 0 <= b < Pow2(k)
    ensures Or(m * Pow2(k), b) == m * Pow2(k) + b
  {
    var a := m * Pow2(k);
    if k == 0 {
      OrZero(a);
    } else {
      var half := m * Pow2(k - 1);
      assert a == 2 * half;
      if (a == 0 || a == -1) && (b == 0 || b == -1) {
      } else {
        assert a / 2 == half && a % 2 == 0;
        OrDisjoint(m, b / 2, k - 1);
      }
    }
  }

  /** Or-ing with -1 (all bits set) gives -1. */
  lemma {:induction false} OrAllOnes(a: int)
    ensures Or(a, -1) == -1
    decreases Abs(a)
  {
    if a != 0 && a != -1 {
      OrAllOnes(a / 2);
    }
  }

  /** `(hi << k) | lo` where lo is either -1 or fits below bit k. */
  lemma ShlOr(hi: int, k: nat, lo: int)
    requires -1 <= lo < Pow2(k)
    ensures 0 <= lo ==> Or(Shl(hi, k), lo) == hi * Pow2(k) + lo
    ensures lo == -1 ==> Or(Shl(hi, k), lo) == -1
  {
    if 0 <= lo {
      OrDisjoint(hi, lo, k);
    } else {
      OrAllOnes(Shl(hi, k));
    }
  }
}
