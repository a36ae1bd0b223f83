/** Arithmetic of machine words: powers of two, and the bit operations whose
    masks are powers of two minus one. */
module Words {
  type byte = x: int | 0 <= x < 256

  const UINT_MAX: nat := 0xffff_ffff
  const TWO32: nat := 0x1_0000_0000

  function Pow2(n: nat): (r: nat)
    ensures r >= 1
  {
    if n == 0 then 1 else 2 * Pow2(n - 1)
  }

  function Mul(a: nat, b: nat): nat { a * b }

  /** `u & (size - 1)` */
  function LowBits(u: nat, size: nat): (r: nat)
    requires size > 0
    ensures r < size
  {
    u % size
  }

  /** `u >> log2(size)` */
  function Shr(u: nat, size: nat): nat
    requires size > 0
  {
    u / size
  }

  /** `u & ~(size - 1)` */
  function HighBits(u: nat, size: nat): (r: nat)
    requires size > 0
    ensures r <= u
  {
    u - u % size
  }

  /** Truncation to an `unsigned`. */
  function U32(x: nat): nat { x % TWO32 }

  // ------------------------------------------------ multiplication and division

  lemma MulSucc(a: nat, b: nat)
    ensures Mul(a + 1, b) == Mul(a, b) + b
  {}

  lemma MulMono(a: nat, b: nat, d: nat)
    requires a <= b
    ensures Mul(a, d) <= Mul(b, d)
  {}

  lemma MulTwice(a: nat, h: nat)
    ensures Mul(a, 2 * h) == Mul(2 * a, h) == 2 * Mul(a, h)
  {}

  lemma BitsOf(q: nat, d: nat, r: nat)
    requires r < d
    ensures Shr(Mul(q, d) + r, d) == q
    ensures LowBits(Mul(q, d) + r, d) == r
    ensures HighBits(Mul(q, d) + r, d) == Mul(q, d)
  {
    var n := q * d + r;
    var e := n / d - q;
    assert n == d * (n / d) + n % d;
    assert d * e == d * (n / d) - d * q == r - n % d;
    MulPick(d, e);
  }

  /** `-d < d * e < d` leaves only `e == 0`. */
  lemma MulPick(d: nat, e: int)
    requires 0 < d * e + d < 2 * d
    ensures e == 0
  {
    assert e <= -1 ==> d * e <= d * -1;
    assert e >= 1 ==> d * e >= d * 1;
  }

  lemma Split(n: nat, d: nat) returns (q: nat, r: nat)
    requires d > 0
    ensures n == Mul(q, d) + r && r < d
  {
    q, r := n / d, n % d;
  }

  lemma {:induction false} Pow2Add(a: nat, b: nat)
    ensures Pow2(a + b) == Mul(Pow2(a), Pow2(b))
  {
    if a > 0 {
      Pow2Add(a - 1, b);
      assert Pow2(a + b) == 2 * Pow2(a - 1 + b);
    }
  }

  lemma Pow2Of32()
    ensures Pow2(32) == TWO32
  {
    assert Pow2(8) == 256;
    Pow2Add(8, 8);
    Pow2Add(16, 16);
  }
}
