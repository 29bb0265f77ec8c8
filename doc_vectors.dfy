/** The worked examples of the `Polynomial` documentation, stated on the functions that the
    in-place methods of `Polynomials.Polynomial` are proved to compute. Coefficients are u8
    (w = 8) except in the last example, which is u32 (w = 32). */
module DocVectors {
  import opened Wrapping
  import opened Negacyclic

  /** The modulus of u8. */
  lemma U8()
    ensures Pow2(8) == 256
  {
    assert Pow2(4) == 16;
  }

  /** The modulus of u32. */
  lemma U32()
    ensures Pow2(32) == 4294967296
  {
    U8();
    assert Pow2(16) == 65536 by {
      assert Pow2(12) == 4096;
    }
    assert Pow2(24) == 16777216 by {
      assert Pow2(20) == 1048576;
    }
    assert Pow2(28) == 268435456;
  }

  /** The binary polynomials of the examples as integer polynomials. */
  lemma BinaryOperands()
    ensures Bits([false, true, true]) == [0, 1, 1]
    ensures Bits([true, false, false]) == [1, 0, 0]
  {
  }

  /** The three coefficients of a product modulo X^3 + 1, before the reduction modulo 2^w. */
  lemma {:induction false} SizeThreeCoefficients(a: seq<int>, b: seq<int>)
    requires |a| == 3 && |b| == 3
    ensures ProductCoefficient(a, b, 0) == a[0] * b[0] - a[1] * b[2] - a[2] * b[1]
    ensures ProductCoefficient(a, b, 1) == a[0] * b[1] + a[1] * b[0] - a[2] * b[2]
    ensures ProductCoefficient(a, b, 2) == a[0] * b[2] + a[1] * b[1] + a[2] * b[0]
  {
    forall t | 0 <= t < 3
      ensures PartialSum(a, b, 3, t) == Term(a, b, 0, t) + Term(a, b, 1, t) + Term(a, b, 2, t)
    {
      assert PartialSum(a, b, 1, t) == Term(a, b, 0, t);
    }
  }

  /** [4, 5, 0]·[7, 9, 0] mod (X^3 + 1) in u8 is [28, 71, 45]. */
  lemma ProductVector()
    ensures NegacyclicProduct([4, 5, 0], [7, 9, 0], Pow2(8)) == [28, 71, 45]
  {
    U8();
    var a, b := [4, 5, 0], [7, 9, 0];
    SizeThreeCoefficients(a, b);
  }

  /** [1, 2, 3]·[0, 1, 1] mod (X^3 + 1) in u8. */
  lemma BinaryProduct()
    ensures NegacyclicProduct([1, 2, 3], [0, 1, 1], 256) == [251, 254, 3]
  {
    var a, b := [1, 2, 3], [0, 1, 1];
    SizeThreeCoefficients(a, b);
    assert Wrap(-5, 256) == 251 && Wrap(-2, 256) == 254;
  }

  /** [1, 2, 3]·(X + X^2) mod (X^3 + 1) in u8 is [251, 254, 3]. */
  lemma BinaryProductVector()
    ensures NegacyclicProduct([1, 2, 3], Bits([false, true, true]), Pow2(8)) == [251, 254, 3]
  {
    U8();
    BinaryOperands();
    BinaryProduct();
  }

  /** Adding [1, 2, 3]·(X + X^2) to [1, 0, 253] gives [252, 254, 0]; subtracting it from
      [255, 255, 1] gives [4, 1, 254]. */
  lemma BinaryMulVectors()
    ensures AddPoly([1, 0, 253], NegacyclicProduct([1, 2, 3], Bits([false, true, true]), Pow2(8)), Pow2(8))
         == [252, 254, 0]
    ensures SubPoly([255, 255, 1], NegacyclicProduct([1, 2, 3], Bits([false, true, true]), Pow2(8)), Pow2(8))
         == [4, 1, 254]
  {
    BinaryProductVector();
    U8();
    assert AddPoly([1, 0, 253], [251, 254, 3], 256) == [252, 254, 0];
    assert SubPoly([255, 255, 1], [251, 254, 3], 256) == [4, 1, 254];
  }

  /** The first product of the multisum example. */
  lemma FirstPairProduct()
    ensures NegacyclicProduct([100, 20, 3], [0, 1, 1], 256) == [233, 97, 120]
  {
    var a, b := [100, 20, 3], [0, 1, 1];
    SizeThreeCoefficients(a, b);
    assert Wrap(-23, 256) == 233;
  }

  /** The second product of the multisum example. */
  lemma SecondPairProduct()
    ensures NegacyclicProduct([4, 5, 6], [1, 0, 0], 256) == [4, 5, 6]
  {
    var a, b := [4, 5, 6], [1, 0, 0];
    SizeThreeCoefficients(a, b);
  }

  /** The multisums after the first pair. */
  lemma FirstPairMultisums()
    ensures AddBinaryMultisum([250, 250, 250], [[100, 20, 3]], [[false, true, true]], 256) == [227, 91, 114]
    ensures SubBinaryMultisum([250, 250, 250], [[100, 20, 3]], [[false, true, true]], 256) == [17, 153, 130]
  {
    BinaryOperands();
    FirstPairProduct();
    assert AddPoly([250, 250, 250], [233, 97, 120], 256) == [227, 91, 114];
    assert SubPoly([250, 250, 250], [233, 97, 120], 256) == [17, 153, 130];
  }

  /** From 250 everywhere, adding [100, 20, 3]·(X + X^2) + [4, 5, 6]·1 gives [231, 96, 120], and
      subtracting it gives [13, 148, 124]. */
  lemma MultisumVectors()
    ensures AddBinaryMultisum([250, 250, 250], [[100, 20, 3], [4, 5, 6]],
                              [[false, true, true], [true, false, false]], Pow2(8)) == [231, 96, 120]
    ensures SubBinaryMultisum([250, 250, 250], [[100, 20, 3], [4, 5, 6]],
                              [[false, true, true], [true, false, false]], Pow2(8)) == [13, 148, 124]
  {
    U8();
    BinaryOperands();
    SecondPairProduct();
    FirstPairMultisums();
    var polys: seq<seq<int>> := [[100, 20, 3], [4, 5, 6]];
    var bins := [[false, true, true], [true, false, false]];
    assert polys[..1] == [[100, 20, 3]] && bins[..1] == [[false, true, true]];
    assert AddPoly([227, 91, 114], [4, 5, 6], 256) == [231, 96, 120];
    assert SubPoly([17, 153, 130], [4, 5, 6], 256) == [13, 148, 124];
  }

  /** [1, 2, 3] + [255, 255, 255] is [0, 1, 2] and [1, 2, 3] − [4, 5, 6] is [253, 253, 253]. */
  lemma AddSubVectors()
    ensures AddPoly([1, 2, 3], [255, 255, 255], Pow2(8)) == [0, 1, 2]
    ensures SubPoly([1, 2, 3], [4, 5, 6], Pow2(8)) == [253, 253, 253]
  {
    U8();
  }

  /** [1, 2, 3]·X^2 is [254, 253, 1] and [1, 2, 3]/X^2 is [3, 255, 254]. */
  lemma MonomialVectors()
    ensures MonicMonomialMul([1, 2, 3], 2, Pow2(8)) == [254, 253, 1]
    ensures UnitMonomialDiv([1, 2, 3], 2, Pow2(8)) == [3, 255, 254]
  {
    U8();
    var p := [1, 2, 3];
    assert 2 % |p| == 2 && (2 / |p|) % 2 == 0;
    assert WrappingNeg(1, 256) == 255 && WrappingNeg(2, 256) == 254 && WrappingNeg(3, 256) == 253;
    var right := RotateRightSigned(p, 2, false, 256);
    assert right[0] == Signed(p[1], true, 256) && right[1] == Signed(p[2], true, 256) && right[2] == Signed(p[0], false, 256);
    var left := RotateLeftSigned(p, 2, false, 256);
    assert left[0] == Signed(p[2], false, 256) && left[1] == Signed(p[0], true, 256) && left[2] == Signed(p[1], true, 256);
  }

  /** [1, 2, 3] + [4, 5, 6] + [7, 8, 9] is [12, 15, 18] in u8. */
  lemma AddSeveralVector()
    ensures AddSeveral([1, 2, 3], [[4, 5, 6], [7, 8, 9]], Pow2(8)) == [12, 15, 18]
  {
    U8();
    var list: seq<seq<int>> := [[4, 5, 6], [7, 8, 9]];
    assert list[..1] == [[4, 5, 6]];
    assert AddSeveral([1, 2, 3], [[4, 5, 6]], 256) == [5, 7, 9];
  }

  /** [1, 2, 3] − [4, 5, 6] − [7, 8, 9] wraps to [4294967286, 4294967285, 4294967284] in u32. */
  lemma SubSeveralVector()
    ensures SubSeveral([1, 2, 3], [[4, 5, 6], [7, 8, 9]], Pow2(32)) == [4294967286, 4294967285, 4294967284]
  {
    U32();
    var m := 4294967296;
    var list: seq<seq<int>> := [[4, 5, 6], [7, 8, 9]];
    assert list[..1] == [[4, 5, 6]];
    assert Wrap(-3, m) == m - 3;
    assert SubSeveral([1, 2, 3], [[4, 5, 6]], m) == [m - 3, m - 3, m - 3];
    assert Wrap(m - 3 - 7, m) == m - 10;
    assert Wrap(m - 3 - 8, m) == m - 11;
    assert Wrap(m - 3 - 9, m) == m - 12;
  }
}
