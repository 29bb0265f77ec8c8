/** `Polynomial`: a buffer of N unsigned coefficients, updated in place, read as an element of
    Z_{2^w}[X]/(X^N + 1).

    Operands that the source borrows immutably (`&Polynomial`, `&PolynomialList`) are passed as
    sequences: Rust forbids them to alias the mutably borrowed `self`, so a snapshot of their
    coefficients is all the methods can observe. A `PolynomialList` is a sequence of polynomials,
    a binary polynomial a sequence of booleans. */
module Polynomials {
  import opened Wrapping
  import opened Negacyclic

  // ---------------------------------------------------------------------------------------------
  // Loop bookkeeping of the schoolbook products
  // ---------------------------------------------------------------------------------------------

  /** Where the pair (lhs index i, rhs index j) lands: degree i + j, folded once by X^N = -1. */
  function Target(i: nat, j: nat, n: nat): nat
    requires i < n && j < n
  {
    if i + j < n then i + j else i + j - n
  }

  /** What coefficient t has received after every lhs index below i and, for lhs index i, every
      rhs index below j. */
  ghost function Accumulated(a: seq<int>, b: seq<int>, i: nat, j: nat, t: nat): int
    requires |a| == |b| && i < |a| && t < |a|
  {
    PartialSum(a, b, i, t) + (if RhsIndex(i, t, |a|) < j then Term(a, b, i, t) else 0)
  }

  /** Visiting the pair (i, j) changes only coefficient Target(i, j), by ±a_i·b_j. */
  lemma AccumulateStep(a: seq<int>, b: seq<int>, i: nat, j: nat, t: nat)
    requires |a| == |b| && i < |a| && j < |a| && t < |a|
    ensures t != Target(i, j, |a|) ==> Accumulated(a, b, i, j + 1, t) == Accumulated(a, b, i, j, t)
    ensures t == Target(i, j, |a|) ==>
      Accumulated(a, b, i, j + 1, t)
        == Accumulated(a, b, i, j, t) + (if i + j < |a| then a[i] * b[j] else -(a[i] * b[j]))
  {
  }

  /** After every rhs index, lhs index i has contributed its full share. */
  lemma AccumulateRow(a: seq<int>, b: seq<int>, i: nat, t: nat)
    requires |a| == |b| && i < |a| && t < |a|
    ensures Accumulated(a, b, i, |a|, t) == PartialSum(a, b, i + 1, t)
  {
  }

  /** `target % (degree + 1)` for a target that overflows the degree once. */
  lemma FoldOnce(target: nat, n: nat)
    requires n <= target < 2 * n
    ensures target % n == target - n
  {
    ModUnique(target, n, 1, target - n);
  }

  /** The closed form that the product loops reach, as an AddPoly / SubPoly of the product. */
  lemma AddProductCoefficient(c: seq<int>, a: seq<int>, b: seq<int>, m: int, t: nat)
    requires |a| == |b| == |c| && m > 0 && InRange(c, m) && t < |c|
    ensures AddPoly(c, NegacyclicProduct(a, b, m), m)[t] == Wrap(c[t] + ProductCoefficient(a, b, t), m)
  {
    WrapSmall(c[t], m);
    WrapAddBoth(c[t], ProductCoefficient(a, b, t), m);
  }

  lemma SubProductCoefficient(c: seq<int>, a: seq<int>, b: seq<int>, m: int, t: nat)
    requires |a| == |b| == |c| && m > 0 && InRange(c, m) && t < |c|
    ensures SubPoly(c, NegacyclicProduct(a, b, m), m)[t] == Wrap(c[t] - ProductCoefficient(a, b, t), m)
  {
    WrapSmall(c[t], m);
    WrapSubBoth(c[t], ProductCoefficient(a, b, t), m);
  }

  /** What every coefficient has received from the pairs visited before (i, j). */
  ghost function Contributions(a: seq<int>, b: seq<int>, i: nat, j: nat): (r: seq<int>)
    requires |a| == |b| && i < |a|
    ensures |r| == |a|
  {
    seq(|a|, t requires 0 <= t < |a| => Accumulated(a, b, i, j, t))
  }

  /** Visiting (i, j) adds a_i·b_j to degree i + j, or subtracts it once the degree folds. */
  lemma ContributionsStep(a: seq<int>, b: seq<int>, i: nat, j: nat, k: nat)
    requires |a| == |b| && i < |a| && j < |a| && k == Target(i, j, |a|)
    ensures var s := Contributions(a, b, i, j);
      Contributions(a, b, i, j + 1)
        == s[k := if i + j < |a| then s[k] + a[i] * b[j] else s[k] - a[i] * b[j]]
  {
    var s := Contributions(a, b, i, j);
    var s' := s[k := if i + j < |a| then s[k] + a[i] * b[j] else s[k] - a[i] * b[j]];
    forall t | 0 <= t < |a| ensures Contributions(a, b, i, j + 1)[t] == s'[t] {
      AccumulateStep(a, b, i, j, t);
    }
  }

  /** The end of one row is the start of the next. */
  lemma ContributionsRow(a: seq<int>, b: seq<int>, i: nat)
    requires |a| == |b| && i + 1 < |a|
    ensures Contributions(a, b, i, |a|) == Contributions(a, b, i + 1, 0)
  {
    forall t | 0 <= t < |a| ensures Contributions(a, b, i, |a|)[t] == Contributions(a, b, i + 1, 0)[t] {
      AccumulateRow(a, b, i, t);
    }
  }

  /** After the last pair every coefficient has received its full product coefficient. */
  lemma ContributionsEnd(a: seq<int>, b: seq<int>, t: nat)
    requires |a| == |b| && t < |a|
    ensures Contributions(a, b, |a| - 1, |a|)[t] == ProductCoefficient(a, b, t)
  {
    AccumulateRow(a, b, |a| - 1, t);
  }

  /** cur holds c plus s, coefficient by coefficient, reduced modulo m. */
  ghost predicate Offset(cur: seq<int>, c: seq<int>, s: seq<int>, m: int)
    requires m > 0
  {
    |cur| == |c| == |s| && forall t :: 0 <= t < |cur| ==> cur[t] == Wrap(c[t] + s[t], m)
  }

  /** cur holds c minus s, coefficient by coefficient, reduced modulo m. */
  ghost predicate Deficit(cur: seq<int>, c: seq<int>, s: seq<int>, m: int)
    requires m > 0
  {
    |cur| == |c| == |s| && forall t :: 0 <= t < |cur| ==> cur[t] == Wrap(c[t] - s[t], m)
  }

  /** The coefficient written by one visit, on representatives. */
  lemma OffsetValue(v: int, y: int, up: bool, x: int, d: int, m: int)
    requires m > 0 && v == Wrap(y, m) && Wrap(x, m) == Wrap(d, m)
    ensures (if up then WrappingAdd(v, x, m) else WrappingSub(v, x, m)) == Wrap(if up then y + d else y - d, m)
    ensures (if up then WrappingSub(v, x, m) else WrappingAdd(v, x, m)) == Wrap(if up then y - d else y + d, m)
  {
    WrapStepBy(v, y, x, d, m);
  }

  /** OffsetAt on the coefficient that changes. */
  lemma OffsetCoefficient(v: int, y: int, z: int, up: bool, x: int, d: int, m: int)
    requires m > 0 && v == Wrap(y + z, m) && Wrap(x, m) == Wrap(d, m)
    ensures (if up then WrappingAdd(v, x, m) else WrappingSub(v, x, m)) == Wrap(y + (if up then z + d else z - d), m)
  {
    OffsetValue(v, y + z, up, x, d, m);
    assert y + (if up then z + d else z - d) == if up then y + z + d else y + z - d;
  }

  /** DeficitAt on the coefficient that changes. */
  lemma DeficitCoefficient(v: int, y: int, z: int, up: bool, x: int, d: int, m: int)
    requires m > 0 && v == Wrap(y - z, m) && Wrap(x, m) == Wrap(d, m)
    ensures (if up then WrappingSub(v, x, m) else WrappingAdd(v, x, m)) == Wrap(y - (if up then z + d else z - d), m)
  {
    OffsetValue(v, y - z, up, x, d, m);
    assert y - (if up then z + d else z - d) == if up then y - z - d else y - z + d;
  }

  /** Writing the representative of c[k] + z at k keeps cur equal to c plus s, with s[k] now z. */
  lemma OffsetAt(cur: seq<int>, c: seq<int>, s: seq<int>, k: nat, v: int, z: int, m: int)
    requires m > 0 && Offset(cur, c, s, m) && k < |cur| && v == Wrap(c[k] + z, m)
    ensures Offset(cur[k := v], c, s[k := z], m)
  {
  }

  /** Writing the representative of c[k] - z at k keeps cur equal to c minus s, with s[k] now z. */
  lemma DeficitAt(cur: seq<int>, c: seq<int>, s: seq<int>, k: nat, v: int, z: int, m: int)
    requires m > 0 && Deficit(cur, c, s, m) && k < |cur| && v == Wrap(c[k] - z, m)
    ensures Deficit(cur[k := v], c, s[k := z], m)
  {
  }

  /** One step of the add loop at k == Target(i, j): x ≡ a_i·b_j is added at degree i + j, or
      subtracted once the degree folds past N. */
  lemma AddStep(cur: seq<int>, c: seq<int>, a: seq<int>, b: seq<int>, i: nat, j: nat, k: nat, x: int, m: int)
    requires |a| == |b| && i < |a| && j < |a| && k == Target(i, j, |a|) && m > 0
    requires Wrap(x, m) == Wrap(a[i] * b[j], m)
    requires Offset(cur, c, Contributions(a, b, i, j), m)
    ensures Offset(cur[k := if i + j < |a| then WrappingAdd(cur[k], x, m) else WrappingSub(cur[k], x, m)],
                   c, Contributions(a, b, i, j + 1), m)
  {
    var s := Contributions(a, b, i, j);
    var up := i + j < |a|;
    var d := a[i] * b[j];
    ContributionsStep(a, b, i, j, k);
    OffsetCoefficient(cur[k], c[k], s[k], up, x, d, m);
    OffsetAt(cur, c, s, k, if up then WrappingAdd(cur[k], x, m) else WrappingSub(cur[k], x, m),
      if up then s[k] + d else s[k] - d, m);
  }

  /** One step of the subtract loop at k == Target(i, j). */
  lemma SubStep(cur: seq<int>, c: seq<int>, a: seq<int>, b: seq<int>, i: nat, j: nat, k: nat, x: int, m: int)
    requires |a| == |b| && i < |a| && j < |a| && k == Target(i, j, |a|) && m > 0
    requires Wrap(x, m) == Wrap(a[i] * b[j], m)
    requires Deficit(cur, c, Contributions(a, b, i, j), m)
    ensures Deficit(cur[k := if i + j < |a| then WrappingSub(cur[k], x, m) else WrappingAdd(cur[k], x, m)],
                    c, Contributions(a, b, i, j + 1), m)
  {
    var s := Contributions(a, b, i, j);
    var up := i + j < |a|;
    var d := a[i] * b[j];
    ContributionsStep(a, b, i, j, k);
    DeficitCoefficient(cur[k], c[k], s[k], up, x, d, m);
    DeficitAt(cur, c, s, k, if up then WrappingSub(cur[k], x, m) else WrappingAdd(cur[k], x, m),
      if up then s[k] + d else s[k] - d, m);
  }

  /** Before any pair is visited the buffer is c itself. */
  lemma ProductStart(c: seq<int>, a: seq<int>, b: seq<int>, m: int)
    requires |a| == |b| == |c| && 0 < |a| && m > 0 && InRange(c, m)
    ensures Offset(c, c, Contributions(a, b, 0, 0), m) && Deficit(c, c, Contributions(a, b, 0, 0), m)
  {
    forall t | 0 <= t < |c| ensures Contributions(a, b, 0, 0)[t] == 0 && Wrap(c[t], m) == c[t] {
      WrapSmall(c[t], m);
    }
  }

  /** After the last pair the buffer is c plus the negacyclic product. */
  lemma OffsetFinish(cur: seq<int>, c: seq<int>, a: seq<int>, b: seq<int>, m: int)
    requires |a| == |b| == |c| && 0 < |a| && m > 0 && InRange(c, m)
    requires Offset(cur, c, Contributions(a, b, |a| - 1, |a|), m)
    ensures cur == AddPoly(c, NegacyclicProduct(a, b, m), m)
  {
    forall t | 0 <= t < |cur| ensures cur[t] == AddPoly(c, NegacyclicProduct(a, b, m), m)[t] {
      ContributionsEnd(a, b, t);
      AddProductCoefficient(c, a, b, m, t);
    }
  }

  /** After the last pair the buffer is c minus the negacyclic product. */
  lemma DeficitFinish(cur: seq<int>, c: seq<int>, a: seq<int>, b: seq<int>, m: int)
    requires |a| == |b| == |c| && 0 < |a| && m > 0 && InRange(c, m)
    requires Deficit(cur, c, Contributions(a, b, |a| - 1, |a|), m)
    ensures cur == SubPoly(c, NegacyclicProduct(a, b, m), m)
  {
    forall t | 0 <= t < |cur| ensures cur[t] == SubPoly(c, NegacyclicProduct(a, b, m), m)[t] {
      ContributionsEnd(a, b, t);
      SubProductCoefficient(c, a, b, m, t);
    }
  }

  // ---------------------------------------------------------------------------------------------
  // The stages of the monomial multiplication and division
  // ---------------------------------------------------------------------------------------------

  /** A negation pass over positions lo .. hi - 1. */
  function NegatedRange(s: seq<int>, lo: nat, hi: nat, m: int): (r: seq<int>)
    requires m > 0
    ensures |r| == |s|
  {
    seq(|s|, t requires 0 <= t < |s| => if lo <= t < hi then WrappingNeg(s[t], m) else s[t])
  }

  /** `rotate_right(r)` on a snapshot. */
  function RotatedRight(s: seq<int>, r: nat): (q: seq<int>)
    requires r < |s|
    ensures |q| == |s|
  {
    seq(|s|, t requires 0 <= t < |s| => if r <= t then s[t - r] else s[t - r + |s|])
  }

  /** `rotate_left(r)` on a snapshot. */
  function RotatedLeft(s: seq<int>, r: nat): (q: seq<int>)
    requires r < |s|
    ensures |q| == |s|
  {
    seq(|s|, t requires 0 <= t < |s| => if t + r < |s| then s[t + r] else s[t + r - |s|])
  }

  /** Negating all when odd, rotating right by r and negating the r wrapped coefficients is the
      signed rotation that multiplication by X^d denotes. */
  lemma MonomialMulStages(p: seq<int>, r: nat, odd: bool, m: int)
    requires r < |p| && m > 0 && InRange(p, m)
    ensures var q := if odd then NegatedRange(p, 0, |p|, m) else p;
      NegatedRange(RotatedRight(q, r), 0, r, m) == RotateRightSigned(p, r, odd, m)
  {
    var q := if odd then NegatedRange(p, 0, |p|, m) else p;
    forall t | 0 <= t < |p|
      ensures NegatedRange(RotatedRight(q, r), 0, r, m)[t] == RotateRightSigned(p, r, odd, m)[t]
    {
      if t < r {
        var x := p[t - r + |p|];
        assert RotatedRight(q, r)[t] == Signed(x, odd, m);
        SignedTwice(x, odd, true, m);
      } else {
        assert RotatedRight(q, r)[t] == Signed(p[t - r], odd, m);
      }
    }
  }

  /** The same stages for the division, with a left rotation and the last r negated. */
  lemma MonomialDivStages(p: seq<int>, r: nat, odd: bool, m: int)
    requires r < |p| && m > 0 && InRange(p, m)
    ensures var q := if odd then NegatedRange(p, 0, |p|, m) else p;
      NegatedRange(RotatedLeft(q, r), |p| - r, |p|, m) == RotateLeftSigned(p, r, odd, m)
  {
    var q := if odd then NegatedRange(p, 0, |p|, m) else p;
    forall t | 0 <= t < |p|
      ensures NegatedRange(RotatedLeft(q, r), |p| - r, |p|, m)[t] == RotateLeftSigned(p, r, odd, m)[t]
    {
      if t + r >= |p| {
        var x := p[t + r - |p|];
        assert RotatedLeft(q, r)[t] == Signed(x, odd, m);
        SignedTwice(x, odd, true, m);
      } else {
        assert RotatedLeft(q, r)[t] == Signed(p[t + r], odd, m);
      }
    }
  }

  // ---------------------------------------------------------------------------------------------
  // The polynomial
  // ---------------------------------------------------------------------------------------------

  class Polynomial {
    /** Width w of the coefficient type (8 for u8, 32 for u32, ...). */
    const bits: nat
    /** The coefficient of X^i is coefs[i]. */
    const coefs: array<int>

    function Modulus(): int
    {
      Pow2(bits)
    }

    /** Every coefficient is a value of the w-bit unsigned type. */
    ghost predicate Valid()
      reads coefs
    {
      InRange(coefs[..], Modulus())
    }

    /** The number of coefficients N. */
    function PolynomialSize(): nat
    {
      coefs.Length
    }

    /** A fresh polynomial with `coefCount` coefficients all equal to `value`. */
    constructor Allocate(value: int, coefCount: nat, bits: nat)
      requires 0 <= value < Pow2(bits)
      ensures this.bits == bits && fresh(coefs) && Valid()
      ensures PolynomialSize() == coefCount
      ensures forall i :: 0 <= i < coefCount ==> coefs[i] == value
    {
      this.bits := bits;
      coefs := new int[coefCount](_ => value);
    }

    /** A polynomial that takes over an existing buffer: its size is the buffer's length. */
    constructor FromContainer(cont: array<int>, bits: nat)
      requires InRange(cont[..], Pow2(bits))
      ensures this.bits == bits && coefs == cont && Valid()
      ensures PolynomialSize() == cont.Length
    {
      this.bits := bits;
      coefs := cont;
    }

    /** Sets every coefficient to zero. */
    method Zero()
      modifies coefs
      ensures Valid()
      ensures forall t :: 0 <= t < coefs.Length ==> coefs[t] == 0
    {
      for z := 0 to coefs.Length
        invariant forall t :: 0 <= t < z ==> coefs[t] == 0
      {
        coefs[z] := 0;
      }
    }

    /** Overwrites the coefficients, one by one, with those of values. */
    method Assign(values: seq<int>)
      requires |values| == coefs.Length && InRange(values, Modulus())
      modifies coefs
      ensures Valid()
      ensures coefs[..] == values
    {
      for z := 0 to coefs.Length
        invariant forall t :: 0 <= t < z ==> coefs[t] == values[t]
      {
        coefs[z] := values[z];
      }
    }

    /** Visits the pair (i, j) of the schoolbook product: adds lhs[i]·rhs[j] to degree i + j,
        or subtracts it once the degree folds past N. */
    method MulTerm(lhs: seq<int>, rhs: seq<int>, i: nat, j: nat, ghost zero: seq<int>)
      requires |lhs| == coefs.Length && |rhs| == coefs.Length
      requires i < coefs.Length && j < coefs.Length
      requires Offset(coefs[..], zero, Contributions(lhs, rhs, i, j), Modulus())
      modifies coefs
      ensures Offset(coefs[..], zero, Contributions(lhs, rhs, i, j + 1), Modulus())
    {
      var m := Modulus();
      var n := coefs.Length;
      var degree := n - 1;
      var target := i + j;
      var x := WrappingMul(lhs[i], rhs[j], m);
      ghost var cur := coefs[..];
      WrapSmall(x, m);
      if target <= degree {
        AddStep(cur, zero, lhs, rhs, i, j, target, x, m);
        coefs[target] := WrappingAdd(coefs[target], x, m);
        assert coefs[..] == cur[target := WrappingAdd(cur[target], x, m)];
      } else {
        FoldOnce(target, n);
        AddStep(cur, zero, lhs, rhs, i, j, target % (degree + 1), x, m);
        coefs[target % (degree + 1)] := WrappingSub(coefs[target % (degree + 1)], x, m);
        assert coefs[..] == cur[target % (degree + 1) := WrappingSub(cur[target % (degree + 1)], x, m)];
      }
    }

    /** Visits the pair (i, j) of the added binary product: adds poly[i]·bin[j] to degree
        i + j, or subtracts it once the degree folds past N. */
    method AddBinaryTerm(poly: seq<int>, bin: seq<bool>, i: nat, j: nat, ghost c: seq<int>)
      requires |poly| == coefs.Length && |bin| == coefs.Length
      requires i < coefs.Length && j < coefs.Length
      requires Offset(coefs[..], c, Contributions(poly, Bits(bin), i, j), Modulus())
      modifies coefs
      ensures Offset(coefs[..], c, Contributions(poly, Bits(bin), i, j + 1), Modulus())
    {
      var m := Modulus();
      var n := coefs.Length;
      var degree := n - 1;
      ghost var b := Bits(bin);
      var target := i + j;
      var x := poly[i] * Bit(bin[j]);
      ghost var cur := coefs[..];
      assert b[j] == Bit(bin[j]);
      if target <= degree {
        AddStep(cur, c, poly, b, i, j, target, x, m);
        coefs[target] := WrappingAdd(coefs[target], x, m);
        assert coefs[..] == cur[target := WrappingAdd(cur[target], x, m)];
      } else {
        FoldOnce(target, n);
        AddStep(cur, c, poly, b, i, j, target % (degree + 1), x, m);
        coefs[target % (degree + 1)] := WrappingSub(coefs[target % (degree + 1)], x, m);
        assert coefs[..] == cur[target % (degree + 1) := WrappingSub(cur[target % (degree + 1)], x, m)];
      }
    }

    /** Visits the pair (i, j) of the subtracted binary product: subtracts poly[i]·bin[j] from
        degree i + j, or adds it once the degree folds past N. */
    method SubBinaryTerm(poly: seq<int>, bin: seq<bool>, i: nat, j: nat, ghost c: seq<int>)
      requires |poly| == coefs.Length && |bin| == coefs.Length
      requires i < coefs.Length && j < coefs.Length
      requires Deficit(coefs[..], c, Contributions(poly, Bits(bin), i, j), Modulus())
      modifies coefs
      ensures Deficit(coefs[..], c, Contributions(poly, Bits(bin), i, j + 1), Modulus())
    {
      var m := Modulus();
      var n := coefs.Length;
      var degree := n - 1;
      ghost var b := Bits(bin);
      var target := i + j;
      var x := poly[i] * Bit(bin[j]);
      ghost var cur := coefs[..];
      assert b[j] == Bit(bin[j]);
      if target <= degree {
        SubStep(cur, c, poly, b, i, j, target, x, m);
        coefs[target] := WrappingSub(coefs[target], x, m);
        assert coefs[..] == cur[target := WrappingSub(cur[target], x, m)];
      } else {
        FoldOnce(target, n);
        SubStep(cur, c, poly, b, i, j, target % (degree + 1), x, m);
        coefs[target % (degree + 1)] := WrappingAdd(coefs[target % (degree + 1)], x, m);
        assert coefs[..] == cur[target % (degree + 1) := WrappingAdd(cur[target % (degree + 1)], x, m)];
      }
    }

    /** Row i of the schoolbook product: the visits (i, 0) .. (i, N - 1) of MulTerm. */
    method MulRow(lhs: seq<int>, rhs: seq<int>, i: nat, ghost zero: seq<int>)
      requires |lhs| == coefs.Length && |rhs| == coefs.Length && i < coefs.Length
      requires Offset(coefs[..], zero, Contributions(lhs, rhs, i, 0), Modulus())
      modifies coefs
      ensures i + 1 < coefs.Length ==> Offset(coefs[..], zero, Contributions(lhs, rhs, i + 1, 0), Modulus())
      ensures i + 1 == coefs.Length ==> Offset(coefs[..], zero, Contributions(lhs, rhs, i, coefs.Length), Modulus())
    {
      for j := 0 to coefs.Length
        invariant Offset(coefs[..], zero, Contributions(lhs, rhs, i, j), Modulus())
      {
        MulTerm(lhs, rhs, i, j, zero);
      }
      if i + 1 < coefs.Length {
        ContributionsRow(lhs, rhs, i);
      }
    }

    /** Row i of the binary product added: the visits (i, 0) .. (i, N - 1) of AddBinaryTerm. */
    method AddBinaryRow(poly: seq<int>, bin: seq<bool>, i: nat, ghost c: seq<int>)
      requires |poly| == coefs.Length && |bin| == coefs.Length && i < coefs.Length
      requires Offset(coefs[..], c, Contributions(poly, Bits(bin), i, 0), Modulus())
      modifies coefs
      ensures i + 1 < coefs.Length ==> Offset(coefs[..], c, Contributions(poly, Bits(bin), i + 1, 0), Modulus())
      ensures i + 1 == coefs.Length ==> Offset(coefs[..], c, Contributions(poly, Bits(bin), i, coefs.Length), Modulus())
    {
      for j := 0 to coefs.Length
        invariant Offset(coefs[..], c, Contributions(poly, Bits(bin), i, j), Modulus())
      {
        AddBinaryTerm(poly, bin, i, j, c);
      }
      if i + 1 < coefs.Length {
        ContributionsRow(poly, Bits(bin), i);
      }
    }

    /** Row i of the binary product subtracted: the visits (i, 0) .. (i, N - 1) of SubBinaryTerm. */
    method SubBinaryRow(poly: seq<int>, bin: seq<bool>, i: nat, ghost c: seq<int>)
      requires |poly| == coefs.Length && |bin| == coefs.Length && i < coefs.Length
      requires Deficit(coefs[..], c, Contributions(poly, Bits(bin), i, 0), Modulus())
      modifies coefs
      ensures i + 1 < coefs.Length ==> Deficit(coefs[..], c, Contributions(poly, Bits(bin), i + 1, 0), Modulus())
      ensures i + 1 == coefs.Length ==> Deficit(coefs[..], c, Contributions(poly, Bits(bin), i, coefs.Length), Modulus())
    {
      for j := 0 to coefs.Length
        invariant Deficit(coefs[..], c, Contributions(poly, Bits(bin), i, j), Modulus())
      {
        SubBinaryTerm(poly, bin, i, j, c);
      }
      if i + 1 < coefs.Length {
        ContributionsRow(poly, Bits(bin), i);
      }
    }

    /** The schoolbook product of lhs and rhs modulo X^N + 1, overwriting the buffer. */
    method FillWithWrappingMul(lhs: seq<int>, rhs: seq<int>)
      requires |lhs| == coefs.Length && |rhs| == coefs.Length
      modifies coefs
      ensures Valid()
      ensures coefs[..] == NegacyclicProduct(lhs, rhs, Modulus())
    {
      var m := Modulus();
      var n := coefs.Length;
      Zero();
      ghost var zero := coefs[..];
      if n > 0 {
        ProductStart(zero, lhs, rhs, m);
        for i := 0 to n
          invariant i < n ==> Offset(coefs[..], zero, Contributions(lhs, rhs, i, 0), m)
          invariant i == n ==> Offset(coefs[..], zero, Contributions(lhs, rhs, n - 1, n), m)
        {
          MulRow(lhs, rhs, i, zero);
        }
        OffsetFinish(coefs[..], zero, lhs, rhs, m);
      }
      AddToZero(NegacyclicProduct(lhs, rhs, m), m);
    }

    /** The product of poly and the binary polynomial bin modulo X^N + 1, overwriting the buffer. */
    method FillWithWrappingBinaryMul(poly: seq<int>, bin: seq<bool>)
      requires |poly| == coefs.Length && |bin| == coefs.Length
      modifies coefs
      ensures Valid()
      ensures coefs[..] == NegacyclicProduct(poly, Bits(bin), Modulus())
    {
      Zero();
      assert coefs[..] == seq(coefs.Length, _ => 0);
      UpdateWithWrappingAddBinaryMul(poly, bin);
      AddToZero(NegacyclicProduct(poly, Bits(bin), Modulus()), Modulus());
    }

    /** Adds the product of poly and the binary polynomial bin modulo X^N + 1. */
    method UpdateWithWrappingAddBinaryMul(poly: seq<int>, bin: seq<bool>)
      requires Valid()
      requires |poly| == coefs.Length && |bin| == coefs.Length
      modifies coefs
      ensures Valid()
      ensures coefs[..] == AddPoly(old(coefs[..]), NegacyclicProduct(poly, Bits(bin), Modulus()), Modulus())
    {
      var m := Modulus();
      var n := coefs.Length;
      ghost var c := coefs[..];
      ghost var b := Bits(bin);
      if n > 0 {
        ProductStart(c, poly, b, m);
        for i := 0 to n
          invariant i < n ==> Offset(coefs[..], c, Contributions(poly, b, i, 0), m)
          invariant i == n ==> Offset(coefs[..], c, Contributions(poly, b, n - 1, n), m)
        {
          AddBinaryRow(poly, bin, i, c);
        }
        OffsetFinish(coefs[..], c, poly, b, m);
      }
    }

    /** Subtracts the product of poly and the binary polynomial bin modulo X^N + 1. */
    method UpdateWithWrappingSubBinaryMul(poly: seq<int>, bin: seq<bool>)
      requires Valid()
      requires |poly| == coefs.Length && |bin| == coefs.Length
      modifies coefs
      ensures Valid()
      ensures coefs[..] == SubPoly(old(coefs[..]), NegacyclicProduct(poly, Bits(bin), Modulus()), Modulus())
    {
      var m := Modulus();
      var n := coefs.Length;
      ghost var c := coefs[..];
      ghost var b := Bits(bin);
      if n > 0 {
        ProductStart(c, poly, b, m);
        for i := 0 to n
          invariant i < n ==> Deficit(coefs[..], c, Contributions(poly, b, i, 0), m)
          invariant i == n ==> Deficit(coefs[..], c, Contributions(poly, b, n - 1, n), m)
        {
          SubBinaryRow(poly, bin, i, c);
        }
        DeficitFinish(coefs[..], c, poly, b, m);
      }
    }

    /** Adds Σ_j polys[j]·bins[j] mod X^N + 1, over the pairs of the two lists zipped. */
    method UpdateWithWrappingAddBinaryMultisum(polys: seq<seq<int>>, bins: seq<seq<bool>>)
      requires Valid()
      requires AllSized(polys[..Min(|polys|, |bins|)], coefs.Length)
      requires AllSized(bins[..Min(|polys|, |bins|)], coefs.Length)
      modifies coefs
      ensures Valid()
      ensures var k := Min(|polys|, |bins|);
        coefs[..] == AddBinaryMultisum(old(coefs[..]), polys[..k], bins[..k], Modulus())
    {
      ghost var c := coefs[..];
      var k := Min(|polys|, |bins|);
      for j := 0 to k
        invariant Valid()
        invariant coefs[..] == AddBinaryMultisum(c, polys[..j], bins[..j], Modulus())
      {
        assert polys[..j + 1][..j] == polys[..j] && bins[..j + 1][..j] == bins[..j];
        assert polys[..k][j] == polys[j] && bins[..k][j] == bins[j];
        UpdateWithWrappingAddBinaryMul(polys[j], bins[j]);
      }
    }

    /** Subtracts Σ_j polys[j]·bins[j] mod X^N + 1, over the pairs of the two lists zipped. */
    method UpdateWithWrappingSubBinaryMultisum(polys: seq<seq<int>>, bins: seq<seq<bool>>)
      requires Valid()
      requires AllSized(polys[..Min(|polys|, |bins|)], coefs.Length)
      requires AllSized(bins[..Min(|polys|, |bins|)], coefs.Length)
      modifies coefs
      ensures Valid()
      ensures var k := Min(|polys|, |bins|);
        coefs[..] == SubBinaryMultisum(old(coefs[..]), polys[..k], bins[..k], Modulus())
    {
      ghost var c := coefs[..];
      var k := Min(|polys|, |bins|);
      for j := 0 to k
        invariant Valid()
        invariant coefs[..] == SubBinaryMultisum(c, polys[..j], bins[..j], Modulus())
      {
        assert polys[..j + 1][..j] == polys[..j] && bins[..j + 1][..j] == bins[..j];
        assert polys[..k][j] == polys[j] && bins[..k][j] == bins[j];
        UpdateWithWrappingSubBinaryMul(polys[j], bins[j]);
      }
    }

    /** Coefficient-wise wrapping addition of other. */
    method UpdateWithWrappingAdd(other: seq<int>)
      requires |other| == coefs.Length
      modifies coefs
      ensures Valid()
      ensures coefs[..] == AddPoly(old(coefs[..]), other, Modulus())
    {
      var m := Modulus();
      for i := 0 to coefs.Length
        invariant forall t :: 0 <= t < i ==> coefs[t] == WrappingAdd(old(coefs[t]), other[t], m)
        invariant forall t :: i <= t < coefs.Length ==> coefs[t] == old(coefs[t])
      {
        coefs[i] := WrappingAdd(coefs[i], other[i], m);
      }
    }

    /** Coefficient-wise wrapping subtraction of other. */
    method UpdateWithWrappingSub(other: seq<int>)
      requires |other| == coefs.Length
      modifies coefs
      ensures Valid()
      ensures coefs[..] == SubPoly(old(coefs[..]), other, Modulus())
    {
      var m := Modulus();
      for i := 0 to coefs.Length
        invariant forall t :: 0 <= t < i ==> coefs[t] == WrappingSub(old(coefs[t]), other[t], m)
        invariant forall t :: i <= t < coefs.Length ==> coefs[t] == old(coefs[t])
      {
        coefs[i] := WrappingSub(coefs[i], other[i], m);
      }
    }

    /** Adds every polynomial of the list, in order. */
    method UpdateWithWrappingAddSeveral(list: seq<seq<int>>)
      requires Valid()
      requires AllSized(list, coefs.Length)
      modifies coefs
      ensures Valid()
      ensures coefs[..] == AddSeveral(old(coefs[..]), list, Modulus())
    {
      ghost var c := coefs[..];
      for j := 0 to |list|
        invariant Valid()
        invariant coefs[..] == AddSeveral(c, list[..j], Modulus())
      {
        assert list[..j + 1][..j] == list[..j];
        UpdateWithWrappingAdd(list[j]);
      }
      assert list[..|list|] == list;
    }

    /** Subtracts every polynomial of the list, in order. */
    method UpdateWithWrappingSubSeveral(list: seq<seq<int>>)
      requires Valid()
      requires AllSized(list, coefs.Length)
      modifies coefs
      ensures Valid()
      ensures coefs[..] == SubSeveral(old(coefs[..]), list, Modulus())
    {
      ghost var c := coefs[..];
      for j := 0 to |list|
        invariant Valid()
        invariant coefs[..] == SubSeveral(c, list[..j], Modulus())
      {
        assert list[..j + 1][..j] == list[..j];
        UpdateWithWrappingSub(list[j]);
      }
      assert list[..|list|] == list;
    }

    /** Negates, in place, the coefficients at positions lo .. hi - 1. */
    method NegateRange(lo: nat, hi: nat)
      requires lo <= hi <= coefs.Length
      modifies coefs
      ensures coefs[..] == NegatedRange(old(coefs[..]), lo, hi, Modulus())
    {
      ghost var s := coefs[..];
      for i := lo to hi
        invariant forall t :: 0 <= t < coefs.Length ==>
          coefs[t] == if lo <= t < i then WrappingNeg(s[t], Modulus()) else s[t]
      {
        coefs[i] := WrappingNeg(coefs[i], Modulus());
      }
      assert coefs[..] == NegatedRange(s, lo, hi, Modulus());
    }

    /** `slice::rotate_right(r)`: the coefficient at position i moves to position i + r mod N. */
    method RotateRight(r: nat)
      requires r < coefs.Length
      modifies coefs
      ensures coefs[..] == RotatedRight(old(coefs[..]), r)
    {
      var snapshot := coefs[..];
      var n := coefs.Length;
      forall t | 0 <= t < n {
        coefs[t] := if r <= t then snapshot[t - r] else snapshot[t - r + n];
      }
      ghost var rotated := RotatedRight(snapshot, r);
      assert forall t :: 0 <= t < n ==> coefs[t] == rotated[t];
      assert coefs[..] == rotated;
    }

    /** `slice::rotate_left(r)`: the coefficient at position i moves to position i - r mod N. */
    method RotateLeft(r: nat)
      requires r < coefs.Length
      modifies coefs
      ensures coefs[..] == RotatedLeft(old(coefs[..]), r)
    {
      var snapshot := coefs[..];
      var n := coefs.Length;
      forall t | 0 <= t < n {
        coefs[t] := if t + r < n then snapshot[t + r] else snapshot[t + r - n];
      }
      ghost var rotated := RotatedLeft(snapshot, r);
      assert forall t :: 0 <= t < n ==> coefs[t] == rotated[t];
      assert coefs[..] == rotated;
    }

    /** Multiplies by X^d modulo X^N + 1: negate everything when ⌊d/N⌋ is odd, rotate right by
        d mod N, and negate the coefficients that wrapped around. */
    method UpdateWithWrappingMonicMonomialMul(d: nat)
      requires Valid()
      requires coefs.Length > 0
      modifies coefs
      ensures Valid()
      ensures coefs[..] == MonicMonomialMul(old(coefs[..]), d, Modulus())
    {
      var n := coefs.Length;
      ghost var p := coefs[..];
      var fullCyclesCount := d / n;
      ghost var odd := fullCyclesCount % 2 == 1;
      if fullCyclesCount % 2 != 0 {
        NegateRange(0, n);
      }
      assert coefs[..] == if odd then NegatedRange(p, 0, n, Modulus()) else p;
      var remainingDegree := d % n;
      RotateRight(remainingDegree);
      NegateRange(0, remainingDegree);
      MonomialMulStages(p, remainingDegree, odd, Modulus());
    }

    /** Divides by X^d modulo X^N + 1: negate everything when ⌊d/N⌋ is odd, rotate left by
        d mod N, and negate the coefficients that wrapped around (the last d mod N). */
    method UpdateWithWrappingUnitMonomialDiv(d: nat)
      requires Valid()
      requires coefs.Length > 0
      modifies coefs
      ensures Valid()
      ensures coefs[..] == UnitMonomialDiv(old(coefs[..]), d, Modulus())
    {
      var n := coefs.Length;
      ghost var p := coefs[..];
      var fullCyclesCount := d / n;
      ghost var odd := fullCyclesCount % 2 == 1;
      if fullCyclesCount % 2 != 0 {
        NegateRange(0, n);
      }
      assert coefs[..] == if odd then NegatedRange(p, 0, n, Modulus()) else p;
      var remainingDegree := d % n;
      RotateLeft(remainingDegree);
      NegateRange(n - remainingDegree, n);
      MonomialDivStages(p, remainingDegree, odd, Modulus());
    }
  }
}
