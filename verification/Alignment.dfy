/** Rounding a 32-bit size up to a power of two, as the bit mask of ALIGN_AS does it. */
module Alignment {

  import opened Integers

  const TWO_32 := 0x1_0000_0000

  /** Bitwise "and" of two natural numbers. */
  function And(a: nat, b: nat): nat {
    if a == 0 || b == 0 then 0
    else 2 * And(a / 2, b / 2) + (if a % 2 == 1 && b % 2 == 1 then 1 else 0)
  }

  function Pow2(k: nat): (p: nat)
    ensures p > 0
  {
    if k == 0 then 1 else 2 * Pow2(k - 1)
  }

  /** The complement of a 32-bit word. */
  function Not(a: u32): u32 { TWO_32 - 1 - a }

  /** The macro, with its 32-bit wrap-around. */
  function AlignAs(num: u32, align: u32): nat
    requires align > 0
  {
    And((num + (align - 1)) % TWO_32, Not(align - 1))
  }

  /** The least multiple of align that is no less than num. */
  function RoundUp(num: nat, align: nat): nat
    requires align > 0
  {
    if num % align == 0 then num else num + (align - num % align)
  }

  lemma {:induction false} AndOnes(x: nat, bits: nat)
    requires x < Pow2(bits)
    ensures And(x, Pow2(bits) - 1) == x
  {
    if bits > 0 {
      assert Pow2(bits) - 1 == 2 * (Pow2(bits - 1) - 1) + 1;
      AndOnes(x / 2, bits - 1);
    }
  }

  lemma ModDouble(x: nat, p: nat)
    requires p > 0
    ensures x % (2 * p) == 2 * ((x / 2) % p) + x % 2
  {
    var q, r := (x / 2) / p, (x / 2) % p;
    assert x == 2 * (x / 2) + x % 2 && x / 2 == q * p + r;
    assert x == q * (2 * p) + (2 * r + x % 2) by {
      assert 2 * (q * p) == q * (2 * p);
    }
    ModUnique(x, 2 * p, q, 2 * r + x % 2);
  }

  lemma ModUnique(x: nat, m: nat, q: nat, r: nat)
    requires 0 <= r < m && x == q * m + r
    ensures x % m == r && x / m == q
  {
    var d := x / m - q;
    assert d * m == r - x % m by {
      assert d * m == (x / m) * m - q * m;
    }
    Multiple(d, m);
  }

  lemma Multiple(d: int, m: int)
    requires m > 0
    ensures d > 0 ==> d * m >= m
    ensures d < 0 ==> d * m <= 0 - m
  {}

  lemma AndEven(x: nat, m: nat)
    ensures And(x, 2 * m) == 2 * And(x / 2, m)
  {
    assert (2 * m) / 2 == m && (2 * m) % 2 == 0;
  }

  lemma AndOdd(x: nat, m: nat)
    ensures And(x, 2 * m + 1) == 2 * And(x / 2, m) + x % 2
  {
    assert (2 * m + 1) / 2 == m && (2 * m + 1) % 2 == 1;
  }

  lemma {:induction false} Pow2Grows(k: nat, bits: nat)
    requires k <= bits
    ensures Pow2(k) <= Pow2(bits)
  {
    if k < bits { Pow2Grows(k, bits - 1); }
  }

  lemma MaskDoubled(x: nat, p: nat, mask: nat)
    requires p > 0 && And(x / 2, mask) == x / 2 - (x / 2) % p
    ensures And(x, 2 * mask) == x - x % (2 * p)
  {
    ModDouble(x, p);
    AndEven(x, mask);
  }

  /** Masking off the low k bits subtracts the remainder modulo 2^k. */
  lemma {:induction false} AndHighBits(x: nat, k: nat, bits: nat)
    requires x < Pow2(bits) && k <= bits
    ensures Pow2(k) <= Pow2(bits) && And(x, Pow2(bits) - Pow2(k)) == x - x % Pow2(k)
  {
    hide And;
    Pow2Grows(k, bits);
    if k == 0 {
      AndOnes(x, bits);
    } else {
      var (p, b) := (Pow2(k - 1), Pow2(bits - 1));
      AndHighBits(x / 2, k - 1, bits - 1);
      assert Pow2(bits) - Pow2(k) == 2 * (b - p);
      MaskDoubled(x, p, b - p);
    }
  }

  /** Masking with ones keeps the remainder modulo 2^k. */
  lemma {:induction false} AndLowBits(x: nat, k: nat)
    ensures And(x, Pow2(k) - 1) == x % Pow2(k)
  {
    if k > 0 {
      AndLowBits(x / 2, k - 1);
      ModDouble(x, Pow2(k - 1));
      AndOdd(x, Pow2(k - 1) - 1);
    }
  }

  lemma WordSize()
    ensures Pow2(32) == TWO_32
  {
    assert Pow2(8) == 0x100 && Pow2(16) == 0x1_0000 && Pow2(24) == 0x100_0000;
  }

  /** The greatest multiple of align that is no more than x. */
  function RoundDown(x: nat, align: nat): int
    requires align > 0
  {
    x - x % align
  }

  lemma MaskRoundsDown(x: u32, align: u32, k: nat)
    requires k < 32 && align == Pow2(k)
    ensures And(x, Not(align - 1)) == RoundDown(x, align)
  {
    WordSize();
    AndHighBits(x, k, 32);
    assert Not(align - 1) == Pow2(32) - Pow2(k);
  }

  lemma RoundUpBySubtracting(num: nat, align: nat)
    requires align > 0
    ensures RoundDown(num + (align - 1), align) == RoundUp(num, align)
  {
    var x := num + (align - 1);
    var q, r := num / align, num % align;
    assert num == q * align + r;
    if r == 0 {
      ModUnique(x, align, q, align - 1);
    } else {
      assert x == (q + 1) * align + (r - 1);
      ModUnique(x, align, q + 1, r - 1);
    }
  }

  lemma RoundDownSmall(x: nat, align: nat)
    requires x < align
    ensures RoundDown(x, align) == 0
  {}

  lemma WrapOnce(x: nat)
    requires x < 2 * TWO_32
    ensures x % TWO_32 == if x < TWO_32 then x else x - TWO_32
  {}

  /** The mask computes the next multiple, for every power of two, unless the sum
      with the alignment wraps: then it computes zero. */
  lemma AlignAsRoundsUp(num: u32, align: u32, k: nat)
    requires k < 32 && align == Pow2(k)
    ensures AlignAs(num, align) == if num + (align - 1) < TWO_32 then RoundUp(num, align) else 0
  {
    var x := num + (align - 1);
    WrapOnce(x);
    MaskRoundsDown(x % TWO_32, align, k);
    if x < TWO_32 {
      RoundUpBySubtracting(num, align);
    } else {
      RoundDownSmall(x - TWO_32, align);
    }
  }
}
