/** Machine words: bytes, 64-bit integers, and the bitwise operators the library uses on them.
    Words are natural numbers below a power of two; wrap-around is written out with `%`. */
module Words {

  type Byte = x: int | 0 <= x < 256

  const TWO_TO_THE_64: int := 0x1_0000_0000_0000_0000

  type Int64 = x: int | -0x8000_0000_0000_0000 <= x < 0x8000_0000_0000_0000
  type Uint64 = x: int | 0 <= x < 0x1_0000_0000_0000_0000

  /** The bits of a signed word read as an unsigned one (two's complement). */
  function AsUnsigned(i: Int64): (u: Uint64) {
    if i < 0 then i + 0x1_0000_0000_0000_0000 else i
  }

  function Pow2(k: nat): (p: nat)
    ensures p >= 1
  {
    if k == 0 then 1 else 2 * Pow2(k - 1)
  }

  /** Bitwise exclusive or, `a ^ b`. */
  function Xor(a: nat, b: nat): nat
    decreases a + b
  {
    if a == 0 && b == 0 then 0
    else 2 * Xor(a / 2, b / 2) + (a + b) % 2
  }

  lemma {:induction false} XorZero(a: nat)
    ensures Xor(a, 0) == a && Xor(0, a) == a
  {
    if a != 0 {
      XorZero(a / 2);
    }
  }

  lemma {:induction false} XorSelf(a: nat)
    ensures Xor(a, a) == 0
  {
    if a != 0 {
      XorSelf(a / 2);
    }
  }

  lemma {:induction false} XorCommutes(a: nat, b: nat)
    ensures Xor(a, b) == Xor(b, a)
    decreases a + b
  {
    if a != 0 || b != 0 {
      XorCommutes(a / 2, b / 2);
    }
  }

  lemma {:induction false} XorAssociates(a: nat, b: nat, c: nat)
    ensures Xor(Xor(a, b), c) == Xor(a, Xor(b, c))
    decreases a + b + c
  {
    if a != 0 || b != 0 || c != 0 {
      var ab, bc := Xor(a, b), Xor(b, c);
      XorAssociates(a / 2, b / 2, c / 2);
      XorOf(a, b, ab);
      XorOf(b, c, bc);
      XorOf(ab, c, Xor(ab, c));
      XorOf(a, bc, Xor(a, bc));
      ParityAssociates(a, b, c, ab, bc);
      SameHalves(Xor(ab, c), Xor(a, bc));
    }
  }

  lemma XorOf(a: nat, b: nat, r: nat)
    requires r == Xor(a, b)
    ensures r / 2 == Xor(a / 2, b / 2) && r % 2 == (a + b) % 2
  {
  }

  lemma ParityAssociates(a: nat, b: nat, c: nat, ab: nat, bc: nat)
    requires ab % 2 == (a + b) % 2 && bc % 2 == (b + c) % 2
    ensures (ab + c) % 2 == (a + bc) % 2
  {
  }

  lemma SameHalves(x: nat, y: nat)
    requires x / 2 == y / 2 && x % 2 == y % 2
    ensures x == y
  {
  }

  /** The two 64-bit operands of an exclusive or give a 64-bit result. */
  lemma {:induction false} XorStaysBelow(a: nat, b: nat, k: nat)
    requires a < Pow2(k) && b < Pow2(k)
    ensures Xor(a, b) < Pow2(k)
    decreases k
  {
    if k != 0 && (a != 0 || b != 0) {
      XorStaysBelow(a / 2, b / 2, k - 1);
    }
  }

  lemma Pow2Of64()
    ensures Pow2(64) == 0x1_0000_0000_0000_0000
  {
    assert Pow2(4) == 16;
    DoubleExponent(4, 16);
    DoubleExponent(8, 0x100);
    DoubleExponent(16, 0x1_0000);
    DoubleExponent(32, 0x1_0000_0000);
  }

  lemma DoubleExponent(k: nat, p: nat)
    requires Pow2(k) == p
    ensures Pow2(2 * k) == p * p
  {
    Pow2Adds(k, k);
  }

  lemma {:induction false} Pow2Adds(j: nat, k: nat)
    ensures Pow2(j + k) == Pow2(j) * Pow2(k)
  {
    if j != 0 {
      Pow2Adds(j - 1, k);
      assert 2 * (Pow2(j - 1) * Pow2(k)) == (2 * Pow2(j - 1)) * Pow2(k);
    }
  }

  /** Exclusive or on 64-bit words. */
  function Xor64(a: Uint64, b: Uint64): (r: Uint64) {
    Pow2Of64();
    XorStaysBelow(a, b, 64);
    Xor(a, b)
  }

  /** Bitwise `x & ~mask`: the bits of `x` where `mask` has none. */
  function AndNot(x: nat, mask: nat): nat {
    if x == 0 then 0
    else 2 * AndNot(x / 2, mask / 2) + (if mask % 2 == 1 then 0 else x % 2)
  }

  /** Clearing the low `k` bits rounds down to a multiple of 2^k. */
  lemma {:induction false} AndNotLowBits(x: nat, k: nat)
    ensures AndNot(x, Pow2(k) - 1) == x / Pow2(k) * Pow2(k)
    decreases k
  {
    if k == 0 {
      AndNotZero(x);
      assert Pow2(0) == 1;
    } else {
      var p := Pow2(k - 1);
      AndNotLowBits(x / 2, k - 1);
      HalveTwice(x, p);
      AndNotOddMask(x, p);
      RegroupTwo(x / (2 * p), p);
    }
  }

  lemma AndNotOddMask(x: nat, p: nat)
    requires p >= 1
    ensures AndNot(x, 2 * p - 1) == 2 * AndNot(x / 2, p - 1)
  {
    assert (2 * p - 1) / 2 == p - 1 && (2 * p - 1) % 2 == 1;
    if x == 0 {
      assert AndNot(0, p - 1) == 0;
    }
  }

  lemma RegroupTwo(q: nat, p: nat)
    ensures 2 * (q * p) == q * (2 * p)
  {
  }

  lemma {:induction false} AndNotZero(x: nat)
    ensures AndNot(x, 0) == x
  {
    if x != 0 {
      AndNotZero(x / 2);
    }
  }

  lemma HalveTwice(x: nat, p: nat)
    requires p >= 1
    ensures x / 2 / p == x / (2 * p)
  {
    var q, r := x / (2 * p), x % (2 * p);
    assert x == 2 * p * q + r;
    assert x / 2 == p * q + r / 2;
    assert 0 <= r / 2 < p;
    DivUnique(x / 2, p, q, r / 2);
  }

  lemma DivUnique(n: int, d: int, q: int, r: int)
    requires d > 0 && 0 <= r < d && n == d * q + r
    ensures n / d == q && n % d == r
  {
    MulGap(d, n / d - q);
    assert n == d * (n / d) + n % d;
    assert d * (n / d - q) == r - n % d;
  }

  lemma MulGap(d: int, k: int)
    requires d > 0
    ensures k >= 1 ==> d * k >= d
    ensures k <= -1 ==> d * k <= -d
    ensures k >= 0 ==> d * k >= 0
  {
    if k >= 1 {
      assert d * k == d + d * (k - 1);
      assert d * (k - 1) >= 0;
    } else if k <= -1 {
      assert d * -k == d + d * (-k - 1);
      assert d * (-k - 1) >= 0;
    }
  }

  /** Rounding up to a multiple of `y`, for any positive `y`. */
  function RoundUp(x: nat, y: nat): nat
    requires y > 0
  {
    (x + (y - 1)) / y * y
  }

  /** Rounding up by masking, for `y` a power of two. */
  function RoundUp2(x: nat, y: nat): nat
    requires y > 0
  {
    AndNot(x + (y - 1), y - 1)
  }

  lemma RoundUp2IsRoundUp(x: nat, k: nat)
    ensures RoundUp2(x, Pow2(k)) == RoundUp(x, Pow2(k))
  {
    AndNotLowBits(x + (Pow2(k) - 1), k);
  }

  /** Rounding up gives the least multiple that is not below. */
  lemma RoundUpIsLeastMultiple(x: nat, y: nat)
    requires y > 0
    ensures RoundUp(x, y) % y == 0
    ensures x <= RoundUp(x, y) < x + y
    ensures forall m: nat :: m % y == 0 && x <= m ==> RoundUp(x, y) <= m
  {
    var q, r := (x + (y - 1)) / y, (x + (y - 1)) % y;
    assert x + (y - 1) == y * q + r;
    assert RoundUp(x, y) == q * y == y * q;
    DivUnique(y * q, y, q, 0);
    forall m: nat | m % y == 0 && x <= m
      ensures RoundUp(x, y) <= m
    {
      var k := m / y;
      assert m == y * k;
      MulGap(y, k - q);
      assert m - y * q == y * (k - q);
    }
  }
}
