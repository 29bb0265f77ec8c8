/** Wrapping arithmetic on w-bit unsigned integers.

    A Rust `uN` coefficient is modelled as an `int` in [0, 2^N); every wrapping operation of the
    source (`wrapping_add`, `wrapping_sub`, `wrapping_neg`, `wrapping_mul`) is the exact integer
    result reduced modulo the power of two, which is exactly the two's-complement wrap-around of
    an unsigned type. The reduction is `Wrap`, the Euclidean remainder, defined by adding or
    subtracting the modulus until the value lies in [0, m); `WrapIsMod` shows it agrees with
    Dafny's `%`. Its algebra below is proved by induction on that definition. */
module Wrapping {

  /** 2^n: the modulus of an n-bit unsigned integer type. */
  function Pow2(n: nat): (r: nat)
    ensures r >= 1
  {
    if n == 0 then 1 else 2 * Pow2(n - 1)
  }

  /** Every element of s is a value of an unsigned type with modulus m. */
  predicate InRange(s: seq<int>, m: int)
  {
    forall i :: 0 <= i < |s| ==> 0 <= s[i] < m
  }

  /** The representative of x in [0, m): x minus the multiple of m below it. */
  function Wrap(x: int, m: int): (r: int)
    requires m > 0
    ensures 0 <= r < m
    decreases if x < 0 then m - x else x
  {
    if x < 0 then Wrap(x + m, m)
    else if x < m then x
    else Wrap(x - m, m)
  }

  function WrappingAdd(x: int, y: int, m: int): (r: int)
    requires m > 0
    ensures 0 <= r < m
  {
    Wrap(x + y, m)
  }

  function WrappingSub(x: int, y: int, m: int): (r: int)
    requires m > 0
    ensures 0 <= r < m
  {
    Wrap(x - y, m)
  }

  function WrappingNeg(x: int, m: int): (r: int)
    requires m > 0
    ensures 0 <= r < m
  {
    Wrap(-x, m)
  }

  function WrappingMul(x: int, y: int, m: int): (r: int)
    requires m > 0
    ensures 0 <= r < m
  {
    Wrap(x * y, m)
  }

  /** A value of the type is its own representative. */
  lemma WrapSmall(x: int, m: int)
    requires 0 <= x < m
    ensures Wrap(x, m) == x
  {
  }

  /** Subtracting the modulus does not change the representative. */
  lemma WrapStep(x: int, m: int)
    requires m > 0
    ensures Wrap(x - m, m) == Wrap(x, m)
  {
  }

  /** Reducing an intermediate result does not change the final representative. */
  lemma {:induction false} WrapOfSum(x: int, y: int, m: int)
    requires m > 0
    ensures Wrap(Wrap(x, m) + y, m) == Wrap(x + y, m)
    decreases if x < 0 then m - x else x
  {
    if x < 0 {
      WrapOfSum(x + m, y, m);
      WrapStep(x + m + y, m);
    } else if x >= m {
      WrapOfSum(x - m, y, m);
      WrapStep(x + y, m);
    }
  }

  /** Reducing a subtrahend does not change the final representative. */
  lemma {:induction false} WrapOfDifference(x: int, y: int, m: int)
    requires m > 0
    ensures Wrap(y - Wrap(x, m), m) == Wrap(y - x, m)
    decreases if x < 0 then m - x else x
  {
    if x < 0 {
      WrapOfDifference(x + m, y, m);
      WrapStep(y - x, m);
    } else if x >= m {
      WrapOfDifference(x - m, y, m);
      WrapStep(y - x + m, m);
    }
  }

  /** wrapping_add of two reduced values is the reduced exact sum. */
  lemma WrapAddBoth(a: int, x: int, m: int)
    requires m > 0
    ensures Wrap(Wrap(a, m) + Wrap(x, m), m) == Wrap(a + x, m)
  {
    WrapOfSum(a, Wrap(x, m), m);
    WrapOfSum(x, a, m);
  }

  /** wrapping_sub of two reduced values is the reduced exact difference. */
  lemma WrapSubBoth(a: int, x: int, m: int)
    requires m > 0
    ensures Wrap(Wrap(a, m) - Wrap(x, m), m) == Wrap(a - x, m)
  {
    WrapOfSum(a, -Wrap(x, m), m);
    WrapOfDifference(x, a, m);
  }

  /** Operands with the same representative give the same wrapped sum and difference. */
  lemma WrapCongruent(y: int, x: int, z: int, m: int)
    requires m > 0 && Wrap(x, m) == Wrap(z, m)
    ensures Wrap(y + x, m) == Wrap(y + z, m) && Wrap(y - x, m) == Wrap(y - z, m)
  {
    WrapOfSum(x, y, m);
    WrapOfSum(z, y, m);
    WrapOfDifference(x, y, m);
    WrapOfDifference(z, y, m);
  }

  /** One wrapping step on a reduced value: adding or subtracting x, congruent to z, to the
      representative of y gives the representative of y + z or y - z. */
  lemma WrapStepBy(v: int, y: int, x: int, z: int, m: int)
    requires m > 0 && v == Wrap(y, m) && Wrap(x, m) == Wrap(z, m)
    ensures Wrap(v + x, m) == Wrap(y + z, m) && Wrap(v - x, m) == Wrap(y - z, m)
  {
    WrapOfSum(y, x, m);
    WrapOfSum(y, -x, m);
    WrapCongruent(y, x, z, m);
  }

  /** Wrapping subtraction of s undoes wrapping addition of s. */
  lemma AddThenSub(c: int, s: int, m: int)
    requires 0 <= c < m
    ensures Wrap(Wrap(c + s, m) - s, m) == c
  {
    WrapOfSum(c + s, -s, m);
  }

  /** Wrapping negation is an involution on values of the type. */
  lemma NegNeg(x: int, m: int)
    requires 0 <= x < m
    ensures WrappingNeg(WrappingNeg(x, m), m) == x
  {
    WrapOfDifference(-x, 0, m);
  }

  /** A positive multiple of m is at least m. */
  lemma MulAtLeast(d: int, m: int)
    requires d >= 1 && m > 0
    ensures d * m >= m
  {
    assert d * m == (d - 1) * m + m;
  }

  /** A multiple of m plus a value in [0, m) leaves exactly that value as remainder. */
  lemma ModUnique(n: int, m: int, q: int, r: int)
    requires m > 0 && 0 <= r < m && n == q * m + r
    ensures n % m == r
  {
    var q0, r0 := n / m, n % m;
    assert (q - q0) * m == r0 - r;
    if q > q0 {
      MulAtLeast(q - q0, m);
      assert false;
    } else if q < q0 {
      MulAtLeast(q0 - q, m);
      assert false;
    }
  }

  /** A value in [0, m) lies in the first period: its quotient is zero. */
  lemma DivSmall(x: int, m: int)
    requires 0 <= x < m
    ensures x / m == 0 && x % m == x
  {
    ModUnique(x, m, 0, x);
    var q := x / m;
    assert q * m == 0;
    if q >= 1 {
      MulAtLeast(q, m);
      assert false;
    } else if q <= -1 {
      MulAtLeast(-q, m);
      assert false;
    }
  }

  /** Adding m to a natural number adds one to its quotient. */
  lemma DivShift(x: nat, m: int)
    requires m > 0
    ensures (x + m) / m == x / m + 1
  {
    ModUnique(x + m, m, x / m + 1, x % m);
    var q := (x + m) / m;
    assert (q - (x / m + 1)) * m == 0;
    if q > x / m + 1 {
      MulAtLeast(q - (x / m + 1), m);
      assert false;
    } else if q < x / m + 1 {
      MulAtLeast(x / m + 1 - q, m);
      assert false;
    }
  }

  /** One more multiple of m is m more. */
  lemma MulShift(p: int, q: int, m: int)
    requires p == q + 1
    ensures p * m == q * m + m
  {
  }

  /** x is Wrap(x, m) plus a multiple q of m. */
  lemma {:induction false} WrapQuotient(x: int, m: int) returns (q: int)
    requires m > 0
    ensures x == q * m + Wrap(x, m)
    decreases if x < 0 then m - x else x
  {
    if x < 0 {
      var p := WrapQuotient(x + m, m);
      q := p - 1;
      MulShift(p, q, m);
    } else if x >= m {
      var p := WrapQuotient(x - m, m);
      q := p + 1;
      MulShift(q, p, m);
    } else {
      q := 0;
    }
  }

  /** Wrap is Dafny's Euclidean remainder, hence the unsigned wrap-around of the source. */
  lemma WrapIsMod(x: int, m: int)
    requires m > 0
    ensures Wrap(x, m) == x % m
  {
    var q := WrapQuotient(x, m);
    ModUnique(x, m, q, Wrap(x, m));
  }
}
