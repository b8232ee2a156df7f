/**
 * Arithmetic on w-bit two's-complement integers, as LLVM's `APInt` and the
 * integer instructions compute it. A w-bit value is kept as its unsigned bit
 * pattern, an integer in [0, 2^w); `ToSigned` gives its signed reading.
 */
module TwosComplement {

  function Pow2(n: nat): (r: nat)
    ensures r >= 1
  {
    if n == 0 then 1 else 2 * Pow2(n - 1)
  }

  lemma {:induction false} Pow2Add(a: nat, b: nat)
    ensures Pow2(a + b) == Pow2(a) * Pow2(b)
  {
    if a > 0 {
      Pow2Add(a - 1, b);
    }
  }

  lemma {:induction false} Pow2Monotone(a: nat, b: nat)
    requires a <= b
    ensures Pow2(a) <= Pow2(b)
    ensures a < b ==> 2 * Pow2(a) <= Pow2(b)
  {
    if a < b {
      Pow2Monotone(a, b - 1);
    }
  }

  lemma {:induction false} LessThanPow2(n: nat)
    ensures n < Pow2(n)
  {
    if n > 0 {
      LessThanPow2(n - 1);
    }
  }

  /** Reduction modulo 2^w: the bit pattern an unbounded integer leaves in w bits. */
  function Wrap(w: nat, x: int): (r: nat)
    ensures r < Pow2(w)
  {
    x % Pow2(w)
  }

  /** The signed reading of a w-bit pattern. */
  function ToSigned(w: nat, x: int): (s: int)
    requires w >= 1
  {
    var u := Wrap(w, x);
    if u < Pow2(w - 1) then u else u - Pow2(w)
  }

  /** `APInt::isNegative`: the sign bit is set. */
  predicate IsNegative(w: nat, x: int)
    requires w >= 1
  {
    Wrap(w, x) >= Pow2(w - 1)
  }

  /** `APInt::abs`: the bit pattern of minus x when x is negative, of x otherwise. */
  function Abs(w: nat, x: int): (r: nat)
    requires w >= 1
    ensures r < Pow2(w)
  {
    if IsNegative(w, x) then Wrap(w, -x) else Wrap(w, x)
  }

  /** `APInt::isPowerOf2` on an unsigned bit pattern. */
  predicate IsPowerOf2(x: nat)
    decreases x
  {
    x == 1 || (x > 1 && x % 2 == 0 && IsPowerOf2(x / 2))
  }

  /** `APInt::logBase2`: the index of the highest set bit (0 for 0 and 1). */
  function Log2(x: nat): (r: nat)
    decreases x
  {
    if x <= 1 then 0 else 1 + Log2(x / 2)
  }

  /** C-style integer division: the quotient is truncated toward zero. */
  function TruncDiv(a: int, b: int): int
    requires b != 0
  {
    var q := (if a < 0 then -a else a) / (if b < 0 then -b else b);
    if (a < 0) == (b < 0) then q else -q
  }

  /** C-style remainder: it takes the sign of the dividend. */
  function TruncRem(a: int, b: int): int
    requires b != 0
  {
    a - b * TruncDiv(a, b)
  }

  /** Bitwise and of two unsigned bit patterns. */
  function BitAnd(a: nat, b: nat): nat
    decreases a
  {
    if a == 0 || b == 0 then 0
    else 2 * BitAnd(a / 2, b / 2) + (if a % 2 == 1 && b % 2 == 1 then 1 else 0)
  }

  /** Bitwise or of two unsigned bit patterns. */
  function BitOr(a: nat, b: nat): nat
    decreases a + b
  {
    if a == 0 then b
    else if b == 0 then a
    else 2 * BitOr(a / 2, b / 2) + (if a % 2 == 1 || b % 2 == 1 then 1 else 0)
  }

  /** Bitwise exclusive or of two unsigned bit patterns. */
  function BitXor(a: nat, b: nat): nat
    decreases a + b
  {
    if a == 0 then b
    else if b == 0 then a
    else 2 * BitXor(a / 2, b / 2) + (if a % 2 != b % 2 then 1 else 0)
  }

  // ---------------------------------------------------------------------
  // Division and remainder facts

  lemma {:induction false} MulAtLeast(a: int, n: int)
    requires a >= 1 && n >= 1
    ensures a * n >= n
    decreases a
  {
    if a > 1 {
      MulAtLeast(a - 1, n);
      assert a * n == (a - 1) * n + n;
    }
  }

  lemma {:induction false} DivModUnique(x: int, n: int, q: int, r: int)
    requires n > 0
    requires x == q * n + r
    requires 0 <= r < n
    ensures x / n == q && x % n == r
  {
    var q', r' := x / n, x % n;
    assert x == q' * n + r';
    assert (q - q') * n == r' - r by {
      assert (q - q') * n == q * n - q' * n;
    }
    if q > q' {
      MulAtLeast(q - q', n);
    } else if q < q' {
      MulAtLeast(q' - q, n);
    }
  }

  lemma {:induction false} DivAtMost(a: int, b: int)
    requires 0 <= a && b >= 1
    ensures 0 <= a / b <= a
  {
    if a / b > a {
      MulAtLeast(b, a / b);
    }
  }

  lemma {:induction false} WrapShift(w: nat, x: int, k: int)
    ensures Wrap(w, x + k * Pow2(w)) == Wrap(w, x)
  {
    var n := Pow2(w);
    DivModUnique(x + k * n, n, x / n + k, x % n);
  }

  lemma {:induction false} WrapSmall(w: nat, x: int)
    requires 0 <= x < Pow2(w)
    ensures Wrap(w, x) == x
  {
    DivModUnique(x, Pow2(w), 0, x);
  }

  /** Reducing one summand first does not change the sum modulo 2^w. */
  lemma {:induction false} WrapAdd(w: nat, a: int, b: int)
    ensures Wrap(w, Wrap(w, a) + b) == Wrap(w, a + b)
  {
    var n := Pow2(w);
    assert a == (a / n) * n + Wrap(w, a);
    assert Wrap(w, a) + b == (a + b) + (-(a / n)) * n;
    WrapShift(w, a + b, -(a / n));
  }

  /** Reducing the subtrahend first does not change the difference modulo 2^w. */
  lemma {:induction false} WrapSub(w: nat, a: int, b: int)
    ensures Wrap(w, a - Wrap(w, b)) == Wrap(w, a - b)
  {
    var n := Pow2(w);
    assert a - Wrap(w, b) == (a - b) + (b / n) * n;
    WrapShift(w, a - b, b / n);
  }

  /** Reducing one factor first does not change the product modulo 2^w. */
  lemma {:induction false} WrapMul(w: nat, a: int, b: int)
    ensures Wrap(w, Wrap(w, a) * b) == Wrap(w, a * b)
  {
    var n := Pow2(w);
    assert Wrap(w, a) == a - (a / n) * n;
    assert Wrap(w, a) * b == a * b + (-(a / n) * b) * n;
    WrapShift(w, a * b, -(a / n) * b);
  }

  lemma {:induction false} WrapOfNegated(w: nat, x: int)
    requires 0 < x <= Pow2(w)
    ensures Wrap(w, -x) == Pow2(w) - x
  {
    DivModUnique(-x, Pow2(w), -1, Pow2(w) - x);
  }

  // ---------------------------------------------------------------------
  // Signed reading

  lemma {:induction false} ToSignedRange(w: nat, x: int)
    requires w >= 1
    ensures -(Pow2(w - 1) as int) <= ToSigned(w, x) < Pow2(w - 1)
    ensures Wrap(w, ToSigned(w, x)) == Wrap(w, x)
    ensures IsNegative(w, x) <==> ToSigned(w, x) < 0
  {
    var u := Wrap(w, x);
    assert Pow2(w) == 2 * Pow2(w - 1);
    WrapSmall(w, u);
    if u >= Pow2(w - 1) {
      WrapShift(w, u - Pow2(w), 1);
    }
  }

  /** A signed value in range survives the round trip through its bit pattern. */
  lemma {:induction false} SignedRoundTrip(w: nat, s: int)
    requires w >= 1
    requires -(Pow2(w - 1) as int) <= s < Pow2(w - 1)
    ensures ToSigned(w, Wrap(w, s)) == s
  {
    var half, n := Pow2(w - 1), Pow2(w);
    assert n == 2 * half;
    var u := Wrap(w, s);
    WrapSmall(w, u);
    if s >= 0 {
      WrapSmall(w, s);
      assert u == s && u < half;
    } else {
      WrapOfNegated(w, -s);
      assert u == n + s && u >= half;
    }
  }

  // ---------------------------------------------------------------------
  // Powers of two

  lemma {:induction false} PowerOf2Log(x: nat)
    requires IsPowerOf2(x)
    ensures x == Pow2(Log2(x))
    decreases x
  {
    if x != 1 {
      PowerOf2Log(x / 2);
    }
  }

  lemma {:induction false} Log2Bounds(x: nat)
    requires x >= 1
    ensures Pow2(Log2(x)) <= x < 2 * Pow2(Log2(x))
    decreases x
  {
    if x > 1 {
      Log2Bounds(x / 2);
    }
  }

  lemma {:induction false} Log2OfPow2(k: nat)
    ensures Log2(Pow2(k)) == k
    ensures IsPowerOf2(Pow2(k))
  {
    if k > 0 {
      Log2OfPow2(k - 1);
      assert Pow2(k) / 2 == Pow2(k - 1);
    }
  }

  /** A power of two is exactly a value equal to 2 to its own logarithm. */
  lemma {:induction false} PowerOf2Characterisation(x: nat)
    ensures IsPowerOf2(x) <==> x >= 1 && x == Pow2(Log2(x))
  {
    if IsPowerOf2(x) {
      PowerOf2Log(x);
    }
    if x >= 1 && x == Pow2(Log2(x)) {
      Log2OfPow2(Log2(x));
    }
  }

  /** The absolute value of a w-bit pattern is at most 2^(w-1); it equals 2^(w-1) only for the minimum. */
  lemma {:induction false} AbsBound(w: nat, x: int)
    requires w >= 1
    ensures Abs(w, x) <= Pow2(w - 1)
    ensures Abs(w, x) == Pow2(w - 1) ==> Wrap(w, x) == Pow2(w - 1)
    ensures IsNegative(w, x) ==> Abs(w, x) == Pow2(w) - Wrap(w, x)
    ensures !IsNegative(w, x) ==> Abs(w, x) == Wrap(w, x)
  {
    var u := Wrap(w, x);
    assert Pow2(w) == 2 * Pow2(w - 1);
    if IsNegative(w, x) {
      WrapSub(w, 0, x);
      assert Wrap(w, -x) == Wrap(w, -(u as int));
      WrapOfNegated(w, u);
    }
  }

  /** A negative pattern plus its absolute value is zero modulo 2^w. */
  lemma {:induction false} AbsCancels(w: nat, x: int)
    requires w >= 1 && IsNegative(w, x)
    ensures Wrap(w, x + Abs(w, x)) == 0
  {
    AbsBound(w, x);
    WrapAdd(w, x, Abs(w, x));
    assert Wrap(w, x) + Abs(w, x) == Pow2(w);
    WrapShift(w, 0, 1);
  }

  /** Two to a larger power is larger: the converse of `Pow2Monotone`. */
  lemma {:induction false} Pow2Below(a: nat, b: nat)
    requires Pow2(a) <= Pow2(b)
    ensures a <= b
  {
    if a > b {
      Pow2Monotone(b, a);
    }
  }

  /** A value below 2^w has its highest set bit below w. */
  lemma {:induction false} Log2Below(x: nat, w: nat)
    requires 1 <= x < Pow2(w)
    ensures Log2(x) < w
  {
    Log2Bounds(x);
    if Log2(x) >= w {
      Pow2Monotone(w, Log2(x));
    }
  }

  /** When x + 1 is a power of two, it is the power just above x's highest bit. */
  lemma {:induction false} NextPowerOf2(x: nat)
    requires x >= 1 && IsPowerOf2(x + 1)
    ensures Pow2(Log2(x) + 1) == x + 1
  {
    Log2Bounds(x);
    PowerOf2Log(x + 1);
    var t := Log2(x + 1);
    Pow2Below(t, Log2(x) + 1);
    if t <= Log2(x) {
      Pow2Monotone(t, Log2(x));
    }
  }

  /** `x * 2^s - x` is `x * k` when 2^s = k + 1, also after wrap-around. */
  lemma {:induction false} ShiftSubIsProduct(w: nat, x: int, k: int, s: nat)
    requires Pow2(s) == k + 1
    ensures Wrap(w, Wrap(w, x * Pow2(s)) - x) == Wrap(w, x * k)
  {
    assert x * Pow2(s) - x == x * k by {
      assert x * (k + 1) == x * k + x;
    }
    WrapAdd(w, x * Pow2(s), -x);
  }

  /** At x = 1 the shift-and-subtract form is 2^s - 1. */
  lemma {:induction false} ShiftSubAtOne(w: nat, s: nat, x: int)
    requires 1 <= s < w && x == 1
    ensures Wrap(w, Wrap(w, x * Pow2(s)) - x) == Pow2(s) - 1
  {
    Pow2Monotone(s, w);
    Pow2Monotone(0, s);
    WrapSmall(w, Pow2(s));
    WrapSmall(w, Pow2(s) - 1);
  }

  lemma {:induction false} MulSubDistributes(x: int, n: int, c: int)
    ensures 0 - x * (n - c) == x * c + (-x) * n
  {
  }

  /** Negating a product with the magnitude of a negative factor gives the product with the factor. */
  lemma {:induction false} NegMulMagnitude(w: nat, x: int, c: int)
    requires 0 < c < Pow2(w)
    ensures Wrap(w, 0 - Wrap(w, x * (Pow2(w) - c))) == Wrap(w, x * c)
  {
    var n := Pow2(w);
    var p, q := x * (n - c), x * c;
    assert Wrap(w, 0 - Wrap(w, p)) == Wrap(w, 0 - p) by {
      WrapSub(w, 0, p);
    }
    assert 0 - p == q + (-x) * n by {
      MulSubDistributes(x, n, c);
    }
    assert Wrap(w, q + (-x) * n) == Wrap(w, q) by {
      WrapShift(w, q, -x);
    }
  }

  /** The arithmetic shift of a w-bit value by w - 1 is minus one for a negative value, else zero. */
  lemma {:induction false} SignSplat(w: nat, x: int)
    requires w >= 1
    ensures Wrap(w, ToSigned(w, x) / Pow2(w - 1)) == if ToSigned(w, x) < 0 then Pow2(w) - 1 else 0
  {
    ToSignedRange(w, x);
    var s := ToSigned(w, x);
    if s < 0 {
      DivModUnique(s, Pow2(w - 1), -1, s + Pow2(w - 1));
      WrapOfNegated(w, 1);
    } else {
      DivModUnique(s, Pow2(w - 1), 0, s);
      WrapSmall(w, 0);
    }
  }

  /**
   * Division truncating toward zero by a positive divisor is floor division
   * once a negative dividend has been biased by divisor - 1.
   */
  lemma {:induction false} TruncDivByPositive(a: int, k: int)
    requires k >= 1
    ensures a >= 0 ==> TruncDiv(a, k) == a / k
    ensures a < 0 ==> TruncDiv(a, k) == (a + k - 1) / k
  {
    if a < 0 {
      var q, r := (-a) / k, (-a) % k;
      assert -a == q * k + r;
      DivModUnique(a + k - 1, k, -q, k - 1 - r);
    }
  }

  /** The same, with the bias written as one term. */
  lemma {:induction false} TruncDivBiased(a: int, k: int)
    requires k >= 1
    ensures TruncDiv(a, k) == (a + (if a < 0 then k - 1 else 0)) / k
  {
    TruncDivByPositive(a, k);
  }

  /** Truncating division by a negated divisor negates the quotient. */
  lemma {:induction false} TruncDivNegDivisor(a: int, k: int)
    requires k >= 1
    ensures TruncDiv(a, -k) == -TruncDiv(a, k)
  {
  }

  // ---------------------------------------------------------------------
  // Bitwise facts

  lemma {:induction false} BitAndBound(a: nat, b: nat)
    ensures BitAnd(a, b) <= a
    decreases a
  {
    if a != 0 && b != 0 {
      BitAndBound(a / 2, b / 2);
    }
  }

  lemma {:induction false} BitOrBound(w: nat, a: nat, b: nat)
    requires a < Pow2(w) && b < Pow2(w)
    ensures BitOr(a, b) < Pow2(w)
  {
    if a != 0 && b != 0 {
      assert w >= 1;
      BitOrBound(w - 1, a / 2, b / 2);
    }
  }

  lemma {:induction false} BitXorBound(w: nat, a: nat, b: nat)
    requires a < Pow2(w) && b < Pow2(w)
    ensures BitXor(a, b) < Pow2(w)
  {
    if a != 0 && b != 0 {
      assert w >= 1;
      BitXorBound(w - 1, a / 2, b / 2);
    }
  }

  /** Masking with all ones leaves a w-bit value as it is. */
  lemma {:induction false} AndAllOnes(w: nat, m: nat)
    requires m < Pow2(w)
    ensures BitAnd(Pow2(w) - 1, m) == m
  {
    if w > 0 && m > 0 {
      assert Pow2(w) - 1 == 2 * (Pow2(w - 1) - 1) + 1;
      assert (Pow2(w) - 1) / 2 == Pow2(w - 1) - 1;
      AndAllOnes(w - 1, m / 2);
    }
  }
}
