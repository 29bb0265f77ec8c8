/** The algebra of Z_{2^w}[X]/(X^N + 1) on coefficient sequences.

    A polynomial of size N is a sequence of N coefficients, the coefficient of X^i at index i.
    This module defines what the in-place operations of `Polynomials.Polynomial` compute, and
    proves the algebraic facts the library relies on: the negacyclic product is the ordinary
    product reduced by X^N = -1, multiplying by X^r is a signed rotation, division by X^d undoes
    multiplication by X^d, and subtraction undoes addition (for single polynomials, for lists of
    them and for sums of products). */
module Negacyclic {
  import opened Wrapping

  /** `Coef::cast_from(bool)`: false is 0, true is 1. */
  function Bit(b: bool): int
  {
    if b then 1 else 0
  }

  /** A binary polynomial seen as an integer polynomial. */
  function Bits(b: seq<bool>): seq<int>
  {
    seq(|b|, j requires 0 <= j < |b| => Bit(b[j]))
  }

  /** Every polynomial of the list has N coefficients. */
  predicate AllSized<T>(list: seq<seq<T>>, n: nat)
  {
    forall j :: 0 <= j < |list| ==> |list[j]| == n
  }

  function Min(x: nat, y: nat): nat
  {
    if x <= y then x else y
  }

  // ---------------------------------------------------------------------------------------------
  // The negacyclic product
  // ---------------------------------------------------------------------------------------------

  /** Index of the coefficient of b that coefficient i of a meets on its way to coefficient t:
      a_i·b_j lands on X^t when i + j == t, or on X^(t+N) == -X^t when i + j == t + N. */
  function RhsIndex(i: nat, t: nat, n: nat): nat
    requires i < n && t < n
  {
    if i <= t then t - i else t - i + n
  }

  /** What a_i·X^i·b(X) contributes to coefficient t of the product modulo X^N + 1. */
  function Term(a: seq<int>, b: seq<int>, i: nat, t: nat): int
    requires |a| == |b| && i < |a| && t < |a|
  {
    if i <= t then a[i] * b[t - i] else -(a[i] * b[t - i + |a|])
  }

  /** The contributions of a_0, ..., a_{n-1} to coefficient t. */
  function PartialSum(a: seq<int>, b: seq<int>, n: nat, t: nat): int
    requires |a| == |b| && n <= |a| && t < |a|
  {
    if n == 0 then 0 else PartialSum(a, b, n - 1, t) + Term(a, b, n - 1, t)
  }

  /** Coefficient t of a(X)·b(X) mod X^N + 1, before the reduction modulo 2^w:
      Σ_{i+j=t} a_i·b_j − Σ_{i+j=t+N} a_i·b_j. */
  function ProductCoefficient(a: seq<int>, b: seq<int>, t: nat): int
    requires |a| == |b| && t < |a|
  {
    PartialSum(a, b, |a|, t)
  }

  /** a(X)·b(X) in Z_m[X]/(X^N + 1). */
  function NegacyclicProduct(a: seq<int>, b: seq<int>, m: int): (r: seq<int>)
    requires |a| == |b| && m > 0
    ensures |r| == |a| && InRange(r, m)
  {
    seq(|a|, t requires 0 <= t < |a| => Wrap(ProductCoefficient(a, b, t), m))
  }

  /** Independent reference: the part of coefficient k of the ORDINARY product a(X)·b(X) that
      comes from a_0, ..., a_{n-1}, i.e. Σ_{i<n, 0<=k-i<N} a_i·b_{k-i}. */
  function FullPartial(a: seq<int>, b: seq<int>, n: nat, k: nat): int
    requires |a| == |b| && n <= |a|
  {
    if n == 0 then 0
    else
      var i := n - 1;
      FullPartial(a, b, n - 1, k) + (if i <= k && k - i < |b| then a[i] * b[k - i] else 0)
  }

  /** Coefficient k (0 <= k < 2N - 1) of the ordinary product a(X)·b(X) over the integers. */
  function FullCoefficient(a: seq<int>, b: seq<int>, k: nat): int
    requires |a| == |b|
  {
    FullPartial(a, b, |a|, k)
  }

  lemma {:induction false} PartialSumIsReducedFullPartial(a: seq<int>, b: seq<int>, n: nat, t: nat)
    requires |a| == |b| && n <= |a| && t < |a|
    ensures PartialSum(a, b, n, t) == FullPartial(a, b, n, t) - FullPartial(a, b, n, t + |a|)
  {
    if n > 0 {
      PartialSumIsReducedFullPartial(a, b, n - 1, t);
    }
  }

  /** The negacyclic product is the ordinary product reduced with X^N = -1: coefficient t of the
      result is c_t − c_{t+N} (mod 2^w), where c is the ordinary product. */
  lemma NegacyclicProductIsReducedProduct(a: seq<int>, b: seq<int>, m: int, t: nat)
    requires |a| == |b| && m > 0 && t < |a|
    ensures NegacyclicProduct(a, b, m)[t] == Wrap(FullCoefficient(a, b, t) - FullCoefficient(a, b, t + |a|), m)
  {
    PartialSumIsReducedFullPartial(a, b, |a|, t);
  }

  /** The monic monomial X^r as a polynomial of size n. */
  function Monomial(n: nat, r: nat): seq<int>
  {
    seq(n, j requires 0 <= j < n => if j == r then 1 else 0)
  }

  lemma {:induction false} PartialSumWithMonomial(p: seq<int>, r: nat, k: nat, t: nat)
    requires r < |p| && k <= |p| && t < |p|
    ensures PartialSum(p, Monomial(|p|, r), k, t)
         == (if r <= t && t - r < k then p[t - r] else 0)
          + (if t < r && t - r + |p| < k then -p[t - r + |p|] else 0)
  {
    if k > 0 {
      PartialSumWithMonomial(p, r, k - 1, t);
    }
  }

  // ---------------------------------------------------------------------------------------------
  // Coefficient-wise addition and subtraction
  // ---------------------------------------------------------------------------------------------

  function AddPoly(p: seq<int>, q: seq<int>, m: int): (r: seq<int>)
    requires |p| == |q| && m > 0
    ensures |r| == |p| && InRange(r, m)
  {
    seq(|p|, i requires 0 <= i < |p| => WrappingAdd(p[i], q[i], m))
  }

  function SubPoly(p: seq<int>, q: seq<int>, m: int): (r: seq<int>)
    requires |p| == |q| && m > 0
    ensures |r| == |p| && InRange(r, m)
  {
    seq(|p|, i requires 0 <= i < |p| => WrappingSub(p[i], q[i], m))
  }

  /** sub(add(p, q), q) == p. */
  lemma SubUndoesAdd(p: seq<int>, q: seq<int>, m: int)
    requires |p| == |q| && m > 0 && InRange(p, m)
    ensures SubPoly(AddPoly(p, q, m), q, m) == p
  {
    forall i | 0 <= i < |p|
      ensures SubPoly(AddPoly(p, q, m), q, m)[i] == p[i]
    {
      WrapOfSum(p[i] + q[i], -q[i], m);
      WrapSmall(p[i], m);
    }
  }

  /** add(sub(p, q), q) == p. */
  lemma AddUndoesSub(p: seq<int>, q: seq<int>, m: int)
    requires |p| == |q| && m > 0 && InRange(p, m)
    ensures AddPoly(SubPoly(p, q, m), q, m) == p
  {
    forall i | 0 <= i < |p|
      ensures AddPoly(SubPoly(p, q, m), q, m)[i] == p[i]
    {
      WrapOfSum(p[i] - q[i], q[i], m);
      WrapSmall(p[i], m);
    }
  }

  /** Adding to the zero polynomial yields the (reduced) addend. */
  lemma AddToZero(q: seq<int>, m: int)
    requires m > 0 && InRange(q, m)
    ensures AddPoly(seq(|q|, _ => 0), q, m) == q
  {
    forall i | 0 <= i < |q|
      ensures AddPoly(seq(|q|, _ => 0), q, m)[i] == q[i]
    {
      WrapSmall(q[i], m);
    }
  }

  // ---------------------------------------------------------------------------------------------
  // Sums of binary products
  // ---------------------------------------------------------------------------------------------

  /** c + Σ_j P_j·B_j mod (X^N + 1): the left fold of "add the binary product" over the pairs. */
  function AddBinaryMultisum(c: seq<int>, polys: seq<seq<int>>, bins: seq<seq<bool>>, m: int): (r: seq<int>)
    requires |polys| == |bins| && AllSized(polys, |c|) && AllSized(bins, |c|) && m > 0
    ensures |r| == |c|
    ensures InRange(c, m) ==> InRange(r, m)
    decreases |polys|
  {
    if |polys| == 0 then c
    else
      var k := |polys| - 1;
      AddPoly(AddBinaryMultisum(c, polys[..k], bins[..k], m), NegacyclicProduct(polys[k], Bits(bins[k]), m), m)
  }

  /** c − Σ_j P_j·B_j mod (X^N + 1): the left fold of "subtract the binary product". */
  function SubBinaryMultisum(c: seq<int>, polys: seq<seq<int>>, bins: seq<seq<bool>>, m: int): (r: seq<int>)
    requires |polys| == |bins| && AllSized(polys, |c|) && AllSized(bins, |c|) && m > 0
    ensures |r| == |c|
    decreases |polys|
  {
    if |polys| == 0 then c
    else
      var k := |polys| - 1;
      SubPoly(SubBinaryMultisum(c, polys[..k], bins[..k], m), NegacyclicProduct(polys[k], Bits(bins[k]), m), m)
  }

  /** The products P_j·B_j mod (X^N + 1), pair by pair. */
  function Products(polys: seq<seq<int>>, bins: seq<seq<bool>>, n: nat, m: int): (r: seq<seq<int>>)
    requires |polys| == |bins| && AllSized(polys, n) && AllSized(bins, n) && m > 0
    ensures |r| == |polys| && AllSized(r, n)
    decreases |polys|
  {
    if |polys| == 0 then []
    else
      var k := |polys| - 1;
      Products(polys[..k], bins[..k], n, m) + [NegacyclicProduct(polys[k], Bits(bins[k]), m)]
  }

  /** Adding the binary products one pair at a time is adding the list of products. */
  lemma {:induction false} AddMultisumIsAddSeveral(c: seq<int>, polys: seq<seq<int>>, bins: seq<seq<bool>>, m: int)
    requires |polys| == |bins| && AllSized(polys, |c|) && AllSized(bins, |c|) && m > 0
    ensures AddBinaryMultisum(c, polys, bins, m) == AddSeveral(c, Products(polys, bins, |c|, m), m)
    decreases |polys|
  {
    if |polys| > 0 {
      var k := |polys| - 1;
      AddMultisumIsAddSeveral(c, polys[..k], bins[..k], m);
      var ps := Products(polys, bins, |c|, m);
      assert ps[..k] == Products(polys[..k], bins[..k], |c|, m);
    }
  }

  /** Subtracting the binary products one pair at a time is subtracting the list of products. */
  lemma {:induction false} SubMultisumIsSubSeveral(c: seq<int>, polys: seq<seq<int>>, bins: seq<seq<bool>>, m: int)
    requires |polys| == |bins| && AllSized(polys, |c|) && AllSized(bins, |c|) && m > 0
    ensures SubBinaryMultisum(c, polys, bins, m) == SubSeveral(c, Products(polys, bins, |c|, m), m)
    decreases |polys|
  {
    if |polys| > 0 {
      var k := |polys| - 1;
      SubMultisumIsSubSeveral(c, polys[..k], bins[..k], m);
      var ps := Products(polys, bins, |c|, m);
      assert ps[..k] == Products(polys[..k], bins[..k], |c|, m);
    }
  }

  /** Subtracting a sum of binary products undoes adding it. */
  lemma SubMultisumUndoesAddMultisum(c: seq<int>, polys: seq<seq<int>>, bins: seq<seq<bool>>, m: int)
    requires |polys| == |bins| && AllSized(polys, |c|) && AllSized(bins, |c|) && m > 0
    requires InRange(c, m)
    ensures SubBinaryMultisum(AddBinaryMultisum(c, polys, bins, m), polys, bins, m) == c
  {
    var a := AddBinaryMultisum(c, polys, bins, m);
    AddMultisumIsAddSeveral(c, polys, bins, m);
    SubMultisumIsSubSeveral(a, polys, bins, m);
    SubSeveralUndoesAddSeveral(c, Products(polys, bins, |c|, m), m);
  }

  // ---------------------------------------------------------------------------------------------
  // Adding or subtracting several polynomials
  // ---------------------------------------------------------------------------------------------

  /** p + Σ_j L_j: the left fold of coefficient-wise addition over the list. */
  function AddSeveral(p: seq<int>, list: seq<seq<int>>, m: int): (r: seq<int>)
    requires AllSized(list, |p|) && m > 0
    ensures |r| == |p|
    decreases |list|
  {
    if |list| == 0 then p
    else AddPoly(AddSeveral(p, list[..|list| - 1], m), list[|list| - 1], m)
  }

  /** p − Σ_j L_j: the left fold of coefficient-wise subtraction over the list. */
  function SubSeveral(p: seq<int>, list: seq<seq<int>>, m: int): (r: seq<int>)
    requires AllSized(list, |p|) && m > 0
    ensures |r| == |p|
    decreases |list|
  {
    if |list| == 0 then p
    else SubPoly(SubSeveral(p, list[..|list| - 1], m), list[|list| - 1], m)
  }

  /** Σ_j L_j[i] over the integers. */
  function ColumnSum(list: seq<seq<int>>, n: nat, i: nat): int
    requires AllSized(list, n) && i < n
    decreases |list|
  {
    if |list| == 0 then 0 else ColumnSum(list[..|list| - 1], n, i) + list[|list| - 1][i]
  }

  lemma {:induction false} AddSeveralCoefficient(p: seq<int>, list: seq<seq<int>>, m: int, i: nat)
    requires AllSized(list, |p|) && m > 0 && InRange(p, m) && i < |p|
    ensures AddSeveral(p, list, m)[i] == Wrap(p[i] + ColumnSum(list, |p|, i), m)
    decreases |list|
  {
    if |list| == 0 {
      WrapSmall(p[i], m);
    } else {
      var k := |list| - 1;
      AddSeveralCoefficient(p, list[..k], m, i);
      WrapOfSum(p[i] + ColumnSum(list[..k], |p|, i), list[k][i], m);
    }
  }

  lemma {:induction false} SubSeveralCoefficient(p: seq<int>, list: seq<seq<int>>, m: int, i: nat)
    requires AllSized(list, |p|) && m > 0 && InRange(p, m) && i < |p|
    ensures SubSeveral(p, list, m)[i] == Wrap(p[i] - ColumnSum(list, |p|, i), m)
    decreases |list|
  {
    if |list| == 0 {
      WrapSmall(p[i], m);
    } else {
      var k := |list| - 1;
      SubSeveralCoefficient(p, list[..k], m, i);
      WrapOfSum(p[i] - ColumnSum(list[..k], |p|, i), -list[k][i], m);
    }
  }

  /** Adding several polynomials, wrapping, keeps every coefficient in range. */
  lemma AddSeveralInRange(p: seq<int>, list: seq<seq<int>>, m: int)
    requires AllSized(list, |p|) && m > 0 && InRange(p, m)
    ensures InRange(AddSeveral(p, list, m), m)
  {
    var a := AddSeveral(p, list, m);
    forall i | 0 <= i < |p| ensures 0 <= a[i] < m {
      AddSeveralCoefficient(p, list, m, i);
    }
  }

  /** Subtracting several polynomials undoes adding them. */
  lemma SubSeveralUndoesAddSeveral(p: seq<int>, list: seq<seq<int>>, m: int)
    requires AllSized(list, |p|) && m > 0 && InRange(p, m)
    ensures SubSeveral(AddSeveral(p, list, m), list, m) == p
  {
    var a := AddSeveral(p, list, m);
    AddSeveralInRange(p, list, m);
    forall i | 0 <= i < |p|
      ensures SubSeveral(a, list, m)[i] == p[i]
    {
      AddSeveralCoefficient(p, list, m, i);
      SubSeveralCoefficient(a, list, m, i);
      AddThenSub(p[i], ColumnSum(list, |p|, i), m);
    }
  }

  // ---------------------------------------------------------------------------------------------
  // Changing one operand
  // ---------------------------------------------------------------------------------------------

  /** Entry j of the list of products is the product of pair j. */
  lemma {:induction false} ProductsAt(polys: seq<seq<int>>, bins: seq<seq<bool>>, n: nat, m: int, j: nat)
    requires |polys| == |bins| && AllSized(polys, n) && AllSized(bins, n) && m > 0 && j < |polys|
    ensures Products(polys, bins, n, m)[j] == NegacyclicProduct(polys[j], Bits(bins[j]), m)
    decreases |polys|
  {
    var k := |polys| - 1;
    if j < k {
      ProductsAt(polys[..k], bins[..k], n, m, j);
    }
  }

  /** Replacing a_0 by x changes every coefficient t of the product by (x − a_0)·b_t: a_0 is
      the only coefficient whose contribution to t comes from b_t. */
  lemma {:induction false} PartialSumFirstChange(a: seq<int>, b: seq<int>, n: nat, t: nat, x: int)
    requires |a| == |b| && 0 < n <= |a| && t < |a|
    ensures PartialSum(a[0 := x], b, n, t) == PartialSum(a, b, n, t) + (x - a[0]) * b[t]
  {
    if n == 1 {
      assert PartialSum(a[0 := x], b, 1, t) == x * b[t];
      assert PartialSum(a, b, 1, t) == a[0] * b[t];
      assert x * b[t] == a[0] * b[t] + (x - a[0]) * b[t];
    } else {
      PartialSumFirstChange(a, b, n - 1, t, x);
      assert Term(a[0 := x], b, n - 1, t) == Term(a, b, n - 1, t);
    }
  }

  /** A zero polynomial contributes nothing to any coefficient of a product. */
  lemma {:induction false} PartialSumOfZero(a: seq<int>, b: seq<int>, n: nat, t: nat)
    requires |a| == |b| && n <= |a| && t < |a|
    requires forall i :: 0 <= i < |a| ==> a[i] == 0
    ensures PartialSum(a, b, n, t) == 0
  {
    if n > 0 {
      PartialSumOfZero(a, b, n - 1, t);
      assert a[n - 1] == 0;
    }
  }

  /** Replacing entry r of a list changes each column sum by the difference of the entries. */
  lemma {:induction false} ColumnSumChange(list: seq<seq<int>>, n: nat, i: nat, r: nat, x: seq<int>)
    requires AllSized(list, n) && i < n && r < |list| && |x| == n
    ensures ColumnSum(list[r := x], n, i) == ColumnSum(list, n, i) - list[r][i] + x[i]
    decreases |list|
  {
    var k := |list| - 1;
    var changed := list[r := x];
    if r == k {
      assert changed[..k] == list[..k];
    } else {
      ColumnSumChange(list[..k], n, i, r, x);
      assert changed[..k] == list[..k][r := x];
    }
  }

  /** A column of zeros sums to zero. */
  lemma {:induction false} ColumnSumOfZeros(list: seq<seq<int>>, n: nat, i: nat)
    requires AllSized(list, n) && i < n
    requires forall j :: 0 <= j < |list| ==> list[j][i] == 0
    ensures ColumnSum(list, n, i) == 0
    decreases |list|
  {
    if |list| > 0 {
      var k := |list| - 1;
      ColumnSumOfZeros(list[..k], n, i);
      assert list[k][i] == 0;
    }
  }

  // ---------------------------------------------------------------------------------------------
  // Multiplication and division by a monic monomial
  // ---------------------------------------------------------------------------------------------

  /** x, or its wrapping negation. */
  function Signed(x: int, negate: bool, m: int): (r: int)
    requires m > 0
    ensures 0 <= x < m ==> 0 <= r < m
  {
    if negate then WrappingNeg(x, m) else x
  }

  /** Rotation right by `shift` places, coefficients that stay in place signed by `negate` and
      those that wrap around past X^N signed the opposite way. */
  function RotateRightSigned(p: seq<int>, shift: nat, negate: bool, m: int): (r: seq<int>)
    requires shift < |p| && m > 0
    ensures |r| == |p|
  {
    seq(|p|, i requires 0 <= i < |p| =>
      if shift <= i then Signed(p[i - shift], negate, m) else Signed(p[i - shift + |p|], !negate, m))
  }

  /** Rotation left by `shift` places, signed as for RotateRightSigned. */
  function RotateLeftSigned(p: seq<int>, shift: nat, negate: bool, m: int): (r: seq<int>)
    requires shift < |p| && m > 0
    ensures |r| == |p|
  {
    seq(|p|, i requires 0 <= i < |p| =>
      if i + shift < |p| then Signed(p[i + shift], negate, m) else Signed(p[i + shift - |p|], !negate, m))
  }

  /** p(X)·X^d mod (X^N + 1). With r = d mod N and s = −1 exactly when ⌊d/N⌋ is odd (because
      X^N = −1): coefficient i is s·p_{i−r} for i >= r and −s·p_{i−r+N} for i < r. */
  function MonicMonomialMul(p: seq<int>, d: nat, m: int): (r: seq<int>)
    requires |p| > 0 && m > 0
    ensures |r| == |p|
  {
    RotateRightSigned(p, d % |p|, (d / |p|) % 2 == 1, m)
  }

  /** p(X)·X^(−d) mod (X^N + 1): coefficient i is s·p_{i+r} for i + r < N and −s·p_{i+r−N}
      otherwise, with r and s as for the multiplication. */
  function UnitMonomialDiv(p: seq<int>, d: nat, m: int): (r: seq<int>)
    requires |p| > 0 && m > 0
    ensures |r| == |p|
  {
    RotateLeftSigned(p, d % |p|, (d / |p|) % 2 == 1, m)
  }

  lemma SignedTwice(x: int, a: bool, b: bool, m: int)
    requires 0 <= x < m
    ensures Signed(Signed(x, a, m), b, m) == Signed(x, a != b, m)
  {
    if a && b {
      NegNeg(x, m);
    }
  }

  lemma LeftUndoesRight(p: seq<int>, shift: nat, negate: bool, m: int)
    requires shift < |p| && m > 0 && InRange(p, m)
    ensures RotateLeftSigned(RotateRightSigned(p, shift, negate, m), shift, negate, m) == p
  {
    var n := |p|;
    var q := RotateRightSigned(p, shift, negate, m);
    forall i | 0 <= i < n
      ensures RotateLeftSigned(q, shift, negate, m)[i] == p[i]
    {
      if i + shift < n {
        assert q[i + shift] == Signed(p[i], negate, m);
        SignedTwice(p[i], negate, negate, m);
      } else {
        assert q[i + shift - n] == Signed(p[i], !negate, m);
        SignedTwice(p[i], !negate, !negate, m);
      }
    }
  }

  lemma RightUndoesLeft(p: seq<int>, shift: nat, negate: bool, m: int)
    requires shift < |p| && m > 0 && InRange(p, m)
    ensures RotateRightSigned(RotateLeftSigned(p, shift, negate, m), shift, negate, m) == p
  {
    var n := |p|;
    var q := RotateLeftSigned(p, shift, negate, m);
    forall i | 0 <= i < n
      ensures RotateRightSigned(q, shift, negate, m)[i] == p[i]
    {
      if shift <= i {
        assert q[i - shift] == Signed(p[i], negate, m);
        SignedTwice(p[i], negate, negate, m);
      } else {
        assert q[i - shift + n] == Signed(p[i], !negate, m);
        SignedTwice(p[i], !negate, !negate, m);
      }
    }
  }

  /** Dividing by X^d undoes multiplying by X^d, for every degree d. */
  lemma DivUndoesMul(p: seq<int>, d: nat, m: int)
    requires |p| > 0 && m > 0 && InRange(p, m)
    ensures UnitMonomialDiv(MonicMonomialMul(p, d, m), d, m) == p
  {
    LeftUndoesRight(p, d % |p|, (d / |p|) % 2 == 1, m);
  }

  /** Multiplying by X^d undoes dividing by X^d. */
  lemma MulUndoesDiv(p: seq<int>, d: nat, m: int)
    requires |p| > 0 && m > 0 && InRange(p, m)
    ensures MonicMonomialMul(UnitMonomialDiv(p, d, m), d, m) == p
  {
    RightUndoesLeft(p, d % |p|, (d / |p|) % 2 == 1, m);
  }

  /** X^N = −1: multiplying by X^(d + N) negates, coefficient by coefficient, the product with
      X^d, so with MonomialMulIsProduct the closed form is the product with X^d for every d. */
  lemma MonomialMulPastN(p: seq<int>, d: nat, m: int)
    requires |p| > 0 && m > 0 && InRange(p, m)
    ensures forall i :: 0 <= i < |p| ==>
      MonicMonomialMul(p, d + |p|, m)[i] == WrappingNeg(MonicMonomialMul(p, d, m)[i], m)
  {
    var n := |p|;
    ModUnique(d + n, n, d / n + 1, d % n);
    DivShift(d, n);
    var a := (d / n) % 2 == 1;
    assert ((d + n) / n) % 2 == 1 <==> !a;
    forall i | 0 <= i < n
      ensures MonicMonomialMul(p, d + n, m)[i] == WrappingNeg(MonicMonomialMul(p, d, m)[i], m)
    {
      var x := if d % n <= i then p[i - d % n] else p[i - d % n + n];
      SignedTwice(x, if d % n <= i then a else !a, true, m);
    }
  }

  lemma RotationCoefficient(p: seq<int>, r: nat, m: int, t: nat)
    requires r < |p| && m > 0 && InRange(p, m) && t < |p|
    ensures RotateRightSigned(p, r, false, m)[t] == NegacyclicProduct(p, Monomial(|p|, r), m)[t]
  {
    var n := |p|;
    var sum := PartialSum(p, Monomial(n, r), n, t);
    assert NegacyclicProduct(p, Monomial(n, r), m)[t] == Wrap(sum, m);
    var x := if r <= t then p[t - r] else p[t - r + n];
    assert RotateRightSigned(p, r, false, m)[t] == Signed(x, r > t, m);
    assert sum == if r <= t then x else -x by {
      PartialSumWithMonomial(p, r, n, t);
    }
    if r <= t {
      WrapSmall(x, m);
    }
  }

  /** Rotating right by r < N without negating the stationary part is the negacyclic product
      with the polynomial X^r. */
  lemma RotationIsProduct(p: seq<int>, r: nat, m: int)
    requires r < |p| && m > 0 && InRange(p, m)
    ensures RotateRightSigned(p, r, false, m) == NegacyclicProduct(p, Monomial(|p|, r), m)
  {
    forall t | 0 <= t < |p|
      ensures RotateRightSigned(p, r, false, m)[t] == NegacyclicProduct(p, Monomial(|p|, r), m)[t]
    {
      RotationCoefficient(p, r, m, t);
    }
  }

  /** For r < N, multiplying by the monic monomial X^r is the negacyclic product with X^r. */
  lemma MonomialMulIsProduct(p: seq<int>, r: nat, m: int)
    requires r < |p| && m > 0 && InRange(p, m)
    ensures MonicMonomialMul(p, r, m) == NegacyclicProduct(p, Monomial(|p|, r), m)
  {
    DivSmall(r, |p|);
    RotationIsProduct(p, r, m);
  }
}
