/** The GLWE secret key of `concrete-core` and what it does to ciphertexts.

    A key is a vector of k·N bits read as k binary polynomials of size N. A GLWE ciphertext is a
    list of k + 1 polynomials: the mask polynomials A_0 .. A_{k-1} followed by the body B, with
    B = E + Σ_i A_i·S_i + P mod (X^N + 1, 2^w) for a plaintext P and a noise polynomial E.

    The random samples the source draws (the uniform mask, the Gaussian noise, the uniform key
    bits) are parameters here, so that encryption is a function of its inputs. */
module Glwe {
  import opened Wrapping
  import opened Negacyclic
  import opened Polynomials

  // ---------------------------------------------------------------------------------------------
  // Chunks of a flat buffer
  // ---------------------------------------------------------------------------------------------

  /** Chunk j of a buffer cut into count chunks of n elements lies inside the buffer. */
  lemma ChunkBounds(j: nat, count: nat, n: nat)
    requires j < count
    ensures j * n + n == (j + 1) * n <= count * n
  {
    var rest: nat := count - j - 1;
    assert count * n == (j + 1) * n + rest * n;
  }

  /** Elements j·n .. (j+1)·n - 1 of a buffer of count·n elements. */
  function Chunk<T>(s: seq<T>, count: nat, n: nat, j: nat): (r: seq<T>)
    requires j < count && |s| == count * n
    ensures |r| == n
  {
    ChunkBounds(j, count, n);
    s[j * n..(j + 1) * n]
  }

  /** The chunks laid end to end. */
  function Concat<T>(chunks: seq<seq<T>>): seq<T>
  {
    if |chunks| == 0 then [] else Concat(chunks[..|chunks| - 1]) + chunks[|chunks| - 1]
  }

  lemma {:induction false} ConcatLength<T>(chunks: seq<seq<T>>, n: nat)
    requires AllSized(chunks, n)
    ensures |Concat(chunks)| == |chunks| * n
  {
    if |chunks| > 0 {
      var k := |chunks| - 1;
      assert AllSized(chunks[..k], n);
      ConcatLength(chunks[..k], n);
      assert |chunks| * n == k * n + n;
    }
  }

  /** Cutting the concatenation of equal-sized chunks gives the chunks back. */
  lemma {:induction false} ChunkOfConcat<T>(chunks: seq<seq<T>>, n: nat, j: nat)
    requires AllSized(chunks, n) && j < |chunks|
    ensures |Concat(chunks)| == |chunks| * n
    ensures Chunk(Concat(chunks), |chunks|, n, j) == chunks[j]
  {
    ConcatLength(chunks, n);
    var k := |chunks| - 1;
    assert AllSized(chunks[..k], n);
    ConcatLength(chunks[..k], n);
    ChunkBounds(j, |chunks|, n);
    if j < k {
      ChunkOfConcat(chunks[..k], n, j);
      ChunkBounds(j, k, n);
      assert Concat(chunks)[j * n..(j + 1) * n] == Concat(chunks[..k])[j * n..(j + 1) * n];
    } else {
      assert Concat(chunks)[j * n..(j + 1) * n] == chunks[k];
    }
  }

  /** The first c chunks, laid end to end, are the first c·n elements. */
  lemma {:induction false} ConcatOfChunks<T>(s: seq<T>, count: nat, n: nat, c: nat)
    requires c <= count && |s| == count * n
    ensures Concat(seq(c, j requires 0 <= j < c => Chunk(s, count, n, j))) == s[..c * n]
  {
    if c > 0 {
      var chunks := seq(c, j requires 0 <= j < c => Chunk(s, count, n, j));
      ConcatOfChunks(s, count, n, c - 1);
      assert chunks[..c - 1] == seq(c - 1, j requires 0 <= j < c - 1 => Chunk(s, count, n, j));
      ChunkBounds(c - 1, count, n);
      assert s[..(c - 1) * n] + s[(c - 1) * n..c * n] == s[..c * n];
    }
  }

  /** Cutting the concatenation of equal-sized chunks gives every chunk back. */
  lemma ChunksOfConcat<T>(chunks: seq<seq<T>>, n: nat)
    requires AllSized(chunks, n)
    ensures |Concat(chunks)| == |chunks| * n
    ensures forall j :: 0 <= j < |chunks| ==> Chunk(Concat(chunks), |chunks|, n, j) == chunks[j]
  {
    ConcatLength(chunks, n);
    forall j | 0 <= j < |chunks|
      ensures Chunk(Concat(chunks), |chunks|, n, j) == chunks[j]
    {
      ChunkOfConcat(chunks, n, j);
    }
  }

  /** Two sequences in range laid end to end are in range. */
  lemma AppendInRange(a: seq<int>, b: seq<int>, m: int)
    requires InRange(a, m) && InRange(b, m)
    ensures InRange(a + b, m)
  {
  }

  /** Every polynomial of the list has coefficients of the w-bit type. */
  predicate AllInRange(list: seq<seq<int>>, m: int)
  {
    forall i :: 0 <= i < |list| ==> InRange(list[i], m)
  }

  /** A sample of k polynomials of size n: what `fill_with_random_uniform` puts in a mask. */
  predicate MaskSample(mask: seq<seq<int>>, k: nat, n: nat, m: int)
  {
    |mask| == k && AllSized(mask, n) && AllInRange(mask, m)
  }

  /** A polynomial of size n: what `fill_with_random_gaussian` puts in a body. */
  predicate NoiseSample(noise: seq<int>, n: nat, m: int)
  {
    |noise| == n && InRange(noise, m)
  }

  /** One mask sample of k polynomials of size n per ciphertext of a list of count. */
  predicate MaskSamples(masks: seq<seq<seq<int>>>, count: nat, k: nat, n: nat, m: int)
  {
    |masks| == count && forall j :: 0 <= j < count ==> MaskSample(masks[j], k, n, m)
  }

  /** One noise sample of size n per ciphertext of a list of count. */
  predicate NoiseSamples(noises: seq<seq<int>>, count: nat, n: nat, m: int)
  {
    |noises| == count && forall j :: 0 <= j < count ==> NoiseSample(noises[j], n, m)
  }

  /** Samples for every row of every level matrix of a GGSW ciphertext: per level, one list of
      k + 1 mask samples of k polynomials and one of k + 1 noise samples. */
  predicate LevelSamples(masks: seq<seq<seq<seq<int>>>>, noises: seq<seq<seq<int>>>, levels: nat, k: nat, n: nat, m: int)
  {
    |masks| == levels && |noises| == levels &&
    forall l :: 0 <= l < levels ==> MaskSamples(masks[l], k + 1, k, n, m) && NoiseSamples(noises[l], k + 1, n, m)
  }

  /** One noise sample for every row of every level matrix of a GGSW ciphertext. */
  predicate LevelNoises(noises: seq<seq<seq<int>>>, levels: nat, k: nat, n: nat, m: int)
  {
    |noises| == levels && forall l :: 0 <= l < levels ==> NoiseSamples(noises[l], k + 1, n, m)
  }

  /** Writes values into out from position start on. */
  method WriteAt(out: array<int>, start: nat, values: seq<int>)
    requires start + |values| <= out.Length
    modifies out
    ensures out[..start + |values|] == old(out[..start]) + values
  {
    for t := 0 to |values|
      invariant out[..start + t] == old(out[..start]) + values[..t]
    {
      out[start + t] := values[t];
      assert out[..start + t + 1] == out[..start + t] + [values[t]];
      assert values[..t + 1] == values[..t] + [values[t]];
    }
    assert values[..|values|] == values;
  }

  // ---------------------------------------------------------------------------------------------
  // Encryption and decryption of the body
  // ---------------------------------------------------------------------------------------------

  /** The body of an encryption of zero: E + Σ_i A_i·S_i, over the mask and key polynomials
      zipped (the shorter list decides how many pairs there are). */
  function ZeroEncryptedBody(noise: seq<int>, mask: seq<seq<int>>, keys: seq<seq<bool>>, m: int): (r: seq<int>)
    requires m > 0
    requires AllSized(mask[..Min(|mask|, |keys|)], |noise|) && AllSized(keys[..Min(|mask|, |keys|)], |noise|)
    ensures |r| == |noise|
  {
    var k := Min(|mask|, |keys|);
    AddBinaryMultisum(noise, mask[..k], keys[..k], m)
  }

  /** The body of an encryption of the plaintext polynomial p: E + Σ_i A_i·S_i + P. */
  function EncryptedBody(noise: seq<int>, mask: seq<seq<int>>, keys: seq<seq<bool>>, p: seq<int>, m: int): (r: seq<int>)
    requires m > 0 && |p| == |noise|
    requires AllSized(mask[..Min(|mask|, |keys|)], |noise|) && AllSized(keys[..Min(|mask|, |keys|)], |noise|)
    ensures |r| == |noise|
  {
    AddPoly(ZeroEncryptedBody(noise, mask, keys, m), p, m)
  }

  /** What decryption computes from a body and a mask: B − Σ_i A_i·S_i. */
  function DecryptedBody(body: seq<int>, mask: seq<seq<int>>, keys: seq<seq<bool>>, m: int): (r: seq<int>)
    requires m > 0
    requires AllSized(mask[..Min(|mask|, |keys|)], |body|) && AllSized(keys[..Min(|mask|, |keys|)], |body|)
    ensures |r| == |body|
  {
    var k := Min(|mask|, |keys|);
    SubBinaryMultisum(body, mask[..k], keys[..k], m)
  }

  /** Coefficient t of an encryption of zero: E_t plus the column of products, wrapped. */
  lemma ZeroBodyCoefficient(noise: seq<int>, mask: seq<seq<int>>, keys: seq<seq<bool>>, m: int, t: nat)
    requires m > 0 && InRange(noise, m) && t < |noise|
    requires AllSized(mask[..Min(|mask|, |keys|)], |noise|) && AllSized(keys[..Min(|mask|, |keys|)], |noise|)
    ensures var k := Min(|mask|, |keys|);
      ZeroEncryptedBody(noise, mask, keys, m)[t]
        == Wrap(noise[t] + ColumnSum(Products(mask[..k], keys[..k], |noise|, m), |noise|, t), m)
  {
    var k := Min(|mask|, |keys|);
    AddMultisumIsAddSeveral(noise, mask[..k], keys[..k], m);
    AddSeveralCoefficient(noise, Products(mask[..k], keys[..k], |noise|, m), m, t);
  }

  /** Coefficient t of a decryption: B_t minus the column of products, wrapped. */
  lemma DecryptedCoefficient(body: seq<int>, mask: seq<seq<int>>, keys: seq<seq<bool>>, m: int, t: nat)
    requires m > 0 && InRange(body, m) && t < |body|
    requires AllSized(mask[..Min(|mask|, |keys|)], |body|) && AllSized(keys[..Min(|mask|, |keys|)], |body|)
    ensures var k := Min(|mask|, |keys|);
      DecryptedBody(body, mask, keys, m)[t]
        == Wrap(body[t] - ColumnSum(Products(mask[..k], keys[..k], |body|, m), |body|, t), m)
  {
    var k := Min(|mask|, |keys|);
    SubMultisumIsSubSeveral(body, mask[..k], keys[..k], m);
    SubSeveralCoefficient(body, Products(mask[..k], keys[..k], |body|, m), m, t);
  }

  /** Adding p after c and then subtracting c again leaves p added. */
  lemma WrapRoundTrip(e: int, c: int, p: int, m: int)
    requires m > 0
    ensures Wrap(Wrap(Wrap(e + c, m) + p, m) - c, m) == Wrap(p + e, m)
  {
    WrapOfSum(e + c, p, m);
    WrapOfSum(e + c + p, -c, m);
    assert e + c + p + -c == p + e;
  }

  /** Coefficient t of the decryption of an encryption of p is P_t + E_t. */
  lemma RoundTripCoefficient(noise: seq<int>, mask: seq<seq<int>>, keys: seq<seq<bool>>, p: seq<int>, m: int, t: nat)
    requires m > 0 && |p| == |noise| && InRange(noise, m) && t < |noise|
    requires AllSized(mask[..Min(|mask|, |keys|)], |noise|) && AllSized(keys[..Min(|mask|, |keys|)], |noise|)
    ensures DecryptedBody(EncryptedBody(noise, mask, keys, p, m), mask, keys, m)[t] == WrappingAdd(p[t], noise[t], m)
  {
    var k := Min(|mask|, |keys|);
    var n := |noise|;
    var zero := ZeroEncryptedBody(noise, mask, keys, m);
    var body := EncryptedBody(noise, mask, keys, p, m);
    var cs := ColumnSum(Products(mask[..k], keys[..k], n, m), n, t);
    ZeroBodyCoefficient(noise, mask, keys, m, t);
    DecryptedCoefficient(body, mask, keys, m, t);
    assert body[t] == Wrap(zero[t] + p[t], m);
    WrapRoundTrip(noise[t], cs, p[t], m);
  }

  /** Decryption of an encryption of p with noise E gives P + E exactly, in wrapping arithmetic. */
  lemma DecryptUndoesEncrypt(noise: seq<int>, mask: seq<seq<int>>, keys: seq<seq<bool>>, p: seq<int>, m: int)
    requires m > 0 && |p| == |noise| && InRange(noise, m)
    requires AllSized(mask[..Min(|mask|, |keys|)], |noise|) && AllSized(keys[..Min(|mask|, |keys|)], |noise|)
    ensures DecryptedBody(EncryptedBody(noise, mask, keys, p, m), mask, keys, m) == AddPoly(p, noise, m)
  {
    forall t | 0 <= t < |noise|
      ensures DecryptedBody(EncryptedBody(noise, mask, keys, p, m), mask, keys, m)[t] == AddPoly(p, noise, m)[t]
    {
      RoundTripCoefficient(noise, mask, keys, p, m, t);
    }
  }

  /** Decryption of an encryption of zero gives exactly the noise. */
  lemma DecryptZeroIsNoise(noise: seq<int>, mask: seq<seq<int>>, keys: seq<seq<bool>>, m: int)
    requires m > 0 && InRange(noise, m)
    requires AllSized(mask[..Min(|mask|, |keys|)], |noise|) && AllSized(keys[..Min(|mask|, |keys|)], |noise|)
    ensures DecryptedBody(ZeroEncryptedBody(noise, mask, keys, m), mask, keys, m) == noise
  {
    var k := Min(|mask|, |keys|);
    SubMultisumUndoesAddMultisum(noise, mask[..k], keys[..k], m);
  }

  /** Encrypting zero is encrypting the all-zero plaintext. */
  lemma ZeroEncryptionIsEncryptionOfZero(noise: seq<int>, mask: seq<seq<int>>, keys: seq<seq<bool>>, m: int)
    requires m > 0 && InRange(noise, m)
    requires AllSized(mask[..Min(|mask|, |keys|)], |noise|) && AllSized(keys[..Min(|mask|, |keys|)], |noise|)
    ensures EncryptedBody(noise, mask, keys, seq(|noise|, _ => 0), m) == ZeroEncryptedBody(noise, mask, keys, m)
  {
    var zero := ZeroEncryptedBody(noise, mask, keys, m);
    forall t | 0 <= t < |noise|
      ensures EncryptedBody(noise, mask, keys, seq(|noise|, _ => 0), m)[t] == zero[t]
    {
      WrapSmall(zero[t], m);
    }
  }

  // ---------------------------------------------------------------------------------------------
  // Ciphertexts
  // ---------------------------------------------------------------------------------------------

  /** A GLWE ciphertext: k mask polynomials and a body polynomial, all of size N, whose
      coefficients the encryption routines overwrite in place. */
  class GlweCiphertext {
    /** The body B, the last polynomial of the ciphertext. */
    const body: Polynomial
    /** The mask polynomials A_0 .. A_{k-1}. */
    var mask: seq<seq<int>>

    ghost predicate Valid()
      reads this, body.coefs
    {
      body.Valid() && AllSized(mask, body.coefs.Length) && AllInRange(mask, body.Modulus())
    }

    function PolynomialSize(): nat
    {
      body.coefs.Length
    }

    /** The GLWE dimension k: the number of mask polynomials. */
    function GlweDimension(): nat
      reads this
    {
      |mask|
    }

    function Modulus(): int
    {
      body.Modulus()
    }

    /** The ciphertext read as a list of k + 1 polynomials, the body last. */
    ghost function PolynomialList(): (r: seq<seq<int>>)
      reads this, body.coefs
      ensures |r| == |mask| + 1
    {
      mask + [body.coefs[..]]
    }

    /** A ciphertext of glweSize polynomials of polySize coefficients, all equal to value. */
    constructor Allocate(value: int, polySize: nat, glweSize: nat, bits: nat)
      requires glweSize >= 1 && 0 <= value < Pow2(bits)
      ensures Valid() && fresh(body) && fresh(body.coefs) && body.bits == bits
      ensures PolynomialSize() == polySize && GlweDimension() == glweSize - 1
      ensures PolynomialList() == seq(glweSize, _ => seq(polySize, _ => value))
    {
      body := new Polynomial.Allocate(value, polySize, bits);
      mask := seq(glweSize - 1, _ => seq(polySize, _ => value));
      new;
      assert body.coefs[..] == seq(polySize, _ => value);
    }

    /** Adds delta, wrapping, to coefficient 0 of polynomial `index` of the ciphertext. */
    method AddToFirstCoefficient(index: nat, delta: int)
      requires Valid() && index <= |mask| && PolynomialSize() > 0
      modifies this, body.coefs
      ensures Valid() && |mask| == old(|mask|)
      ensures PolynomialList() == AddToFirst(old(PolynomialList()), index, delta, Modulus())
    {
      var m := Modulus();
      if index < |mask| {
        mask := mask[index := mask[index][0 := WrappingAdd(mask[index][0], delta, m)]];
      } else {
        body.coefs[0] := WrappingAdd(body.coefs[0], delta, m);
      }
    }

    /** Makes the ciphertext a trivial encryption of zero: every mask polynomial zero, the body
        the noise sample. */
    method FillTrivial(noise: seq<int>)
      requires Valid() && NoiseSample(noise, PolynomialSize(), Modulus())
      modifies this, body.coefs
      ensures Valid() && PolynomialList() == TrivialRow(noise, old(GlweDimension()))
    {
      mask := seq(|mask|, _ => seq(PolynomialSize(), _ => 0));
      body.Assign(noise);
    }
  }

  /** A list of GLWE ciphertexts of the same shape, each with its own buffers. */
  class GlweList {
    const ciphertexts: seq<GlweCiphertext>
    const polySize: nat
    const glweDimension: nat
    const bits: nat

    /** The objects and buffers the ciphertexts of the list own. */
    ghost const Repr: set<object>

    ghost predicate Valid()
      reads Repr
    {
      (forall j :: 0 <= j < |ciphertexts| ==>
        ciphertexts[j] in Repr && ciphertexts[j].body.coefs in Repr &&
        ciphertexts[j].Valid() && ciphertexts[j].body.bits == bits &&
        ciphertexts[j].PolynomialSize() == polySize && ciphertexts[j].GlweDimension() == glweDimension) &&
      (forall i, j :: 0 <= i < |ciphertexts| && 0 <= j < |ciphertexts| && i != j ==>
        ciphertexts[i] != ciphertexts[j] && ciphertexts[i].body.coefs != ciphertexts[j].body.coefs)
    }

    function Modulus(): int
    {
      Pow2(bits)
    }

    function CiphertextCount(): nat
    {
      |ciphertexts|
    }

    /** count ciphertexts of glweDimension + 1 polynomials of polySize coefficients, all equal
        to value. */
    constructor Allocate(value: int, polySize: nat, glweDimension: nat, count: nat, bits: nat)
      requires 0 <= value < Pow2(bits)
      ensures Valid() && CiphertextCount() == count && fresh(Repr)
      ensures this.polySize == polySize && this.glweDimension == glweDimension && this.bits == bits
    {
      var made: seq<GlweCiphertext> := [];
      ghost var owned: set<object> := {};
      while |made| < count
        invariant |made| <= count && fresh(owned)
        invariant forall j :: 0 <= j < |made| ==> made[j] in owned && made[j].body.coefs in owned
        invariant forall j :: 0 <= j < |made| ==>
          fresh(made[j]) && fresh(made[j].body.coefs) && made[j].Valid() && made[j].body.bits == bits &&
          made[j].PolynomialSize() == polySize && made[j].GlweDimension() == glweDimension
        invariant forall i, j :: 0 <= i < |made| && 0 <= j < |made| && i != j ==>
          made[i] != made[j] && made[i].body.coefs != made[j].body.coefs
        decreases count - |made|
      {
        var ct := new GlweCiphertext.Allocate(value, polySize, glweDimension + 1, bits);
        made := made + [ct];
        owned := owned + {ct, ct.body.coefs};
      }
      ciphertexts := made;
      Repr := owned;
      this.polySize := polySize;
      this.glweDimension := glweDimension;
      this.bits := bits;
    }

    /** Makes ciphertext j a trivial encryption of zero with noise sample `noise`, leaving the
        other ciphertexts as they were. */
    method FillTrivialEntry(j: nat, noise: seq<int>)
      requires Valid() && j < CiphertextCount() && NoiseSample(noise, polySize, Modulus())
      modifies ciphertexts[j], ciphertexts[j].body.coefs
      ensures Valid() && ciphertexts[j].PolynomialList() == TrivialRow(noise, glweDimension)
      ensures forall i :: 0 <= i < CiphertextCount() && i != j ==>
        ciphertexts[i].PolynomialList() == old(ciphertexts[i].PolynomialList())
    {
      ciphertexts[j].FillTrivial(noise);
    }

    /** Makes every ciphertext a trivial encryption of zero, with its own noise sample. */
    method FillTrivial(noises: seq<seq<int>>)
      requires Valid() && NoiseSamples(noises, CiphertextCount(), polySize, Modulus())
      modifies Repr
      ensures Valid()
      ensures forall j :: 0 <= j < CiphertextCount() ==>
        ciphertexts[j].PolynomialList() == TrivialRow(noises[j], glweDimension)
    {
      for j := 0 to CiphertextCount()
        invariant Valid()
        invariant forall i :: 0 <= i < j ==> ciphertexts[i].PolynomialList() == TrivialRow(noises[i], glweDimension)
      {
        FillTrivialEntry(j, noises[j]);
      }
    }

    /** Adds delta, wrapping, to coefficient 0 of polynomial j of ciphertext j, leaving the
        other ciphertexts as they were. */
    method AddToDiagonalEntry(j: nat, delta: int)
      requires Valid() && polySize > 0 && j < CiphertextCount() && j <= glweDimension
      modifies ciphertexts[j], ciphertexts[j].body.coefs
      ensures Valid()
      ensures ciphertexts[j].PolynomialList() == AddToFirst(old(ciphertexts[j].PolynomialList()), j, delta, Modulus())
      ensures forall i :: 0 <= i < CiphertextCount() && i != j ==>
        ciphertexts[i].PolynomialList() == old(ciphertexts[i].PolynomialList())
    {
      ciphertexts[j].AddToFirstCoefficient(j, delta);
    }

    /** Adds delta, wrapping, to coefficient 0 of polynomial j of ciphertext j, for every
        ciphertext j: the diagonal of the list read as a matrix of polynomials. */
    method AddToDiagonal(delta: int)
      requires Valid() && polySize > 0 && CiphertextCount() <= glweDimension + 1
      modifies Repr
      ensures Valid()
      ensures forall j :: 0 <= j < CiphertextCount() ==>
        ciphertexts[j].PolynomialList() == AddToFirst(old(ciphertexts[j].PolynomialList()), j, delta, Modulus())
    {
      for j := 0 to CiphertextCount()
        invariant Valid()
        invariant forall i :: 0 <= i < j ==>
          ciphertexts[i].PolynomialList() == AddToFirst(old(ciphertexts[i].PolynomialList()), i, delta, Modulus())
        invariant forall i :: j <= i < CiphertextCount() ==>
          ciphertexts[i].PolynomialList() == old(ciphertexts[i].PolynomialList())
      {
        AddToDiagonalEntry(j, delta);
      }
    }
  }

  /** Polynomial `index` of a list with delta added, wrapping, to its coefficient 0. */
  function AddToFirst(list: seq<seq<int>>, index: nat, delta: int, m: int): (r: seq<seq<int>>)
    requires m > 0 && index < |list| && |list[index]| > 0
    ensures |r| == |list|
  {
    list[index := list[index][0 := WrappingAdd(list[index][0], delta, m)]]
  }

  // ---------------------------------------------------------------------------------------------
  // GGSW ciphertexts
  // ---------------------------------------------------------------------------------------------

  /** The factor that the constant plaintext is scaled by in a level matrix that reports
      decomposition level `level`: encoded · 2^(w − baseLog·(level + 1)), before the reduction
      modulo 2^w. Where the unsigned subtraction would underflow (which `Scalable` excludes) the
      factor is taken to be 0. */
  function DiagonalFactor(encoded: int, bits: nat, baseLog: nat, level: nat): int
  {
    if baseLog * (level + 1) <= bits then encoded * Pow2(bits - baseLog * (level + 1)) else 0
  }

  /** The constant polynomial delta with n coefficients. */
  function Constant(delta: int, n: nat): (r: seq<int>)
    ensures |r| == n
  {
    seq(n, t => if t == 0 then delta else 0)
  }

  /** delta·S for a binary polynomial S, over the integers. */
  function ScaledKey(delta: int, key: seq<bool>): (r: seq<int>)
    ensures |r| == |key|
  {
    seq(|key|, t requires 0 <= t < |key| => if key[t] then delta else 0)
  }

  /** Wrapping arithmetic behind DiagonalMaskRow: raising a_0 by delta raises the product
      coefficient by delta when the key coefficient is 1, and decryption subtracts it from the
      noise. */
  lemma WrapMaskRaised(e: int, c: int, pc: int, a0: int, delta: int, m: int)
    requires m > 0
    ensures Wrap(Wrap(e + c, m) - (c - Wrap(pc, m) + Wrap(pc + (Wrap(a0 + delta, m) - a0), m)), m)
         == Wrap(e - delta, m)
  {
    var x := Wrap(a0 + delta, m);
    WrapSwapTerm(e, c, pc, pc + (x - a0), m);
    assert e + pc - (pc + (x - a0)) == (e + a0) - x;
    WrapOfDifference(a0 + delta, e + a0, m);
    assert e + a0 - (a0 + delta) == e - delta;
  }

  /** Replacing the reduced term p by the reduced term u in a reduced sum c + e changes the
      representative by p - u. */
  lemma WrapSwapTerm(e: int, c: int, p: int, u: int, m: int)
    requires m > 0
    ensures Wrap(Wrap(e + c, m) - (c - Wrap(p, m) + Wrap(u, m)), m) == Wrap(e + p - u, m)
  {
    var y := e + Wrap(p, m);
    WrapOfSum(e + c, -(c - Wrap(p, m) + Wrap(u, m)), m);
    assert e + c + -(c - Wrap(p, m) + Wrap(u, m)) == y - Wrap(u, m);
    WrapOfDifference(u, y, m);
    WrapOfSum(p, e - u, m);
    assert y - u == Wrap(p, m) + (e - u);
  }

  /** The body row (row k) of level matrix l of an encrypted constant is a GLWE encryption of
      the constant polynomial delta = DiagonalFactor(…): its mask is untouched, its body is that of
      an encryption of Constant(delta), and it decrypts to that constant plus the noise. */
  lemma DiagonalBodyRow(noise: seq<int>, mask: seq<seq<int>>, keys: seq<seq<bool>>, delta: int, m: int)
    requires m > 0 && |noise| > 0 && InRange(noise, m)
    requires AllSized(mask, |noise|) && AllSized(keys[..Min(|mask|, |keys|)], |noise|)
    ensures var row := AddToFirst(ZeroRow(noise, mask, keys, m), |mask|, delta, m);
      row[..|mask|] == mask &&
      row[|mask|] == EncryptedBody(noise, mask, keys, Constant(delta, |noise|), m) &&
      DecryptedBody(row[|mask|], row[..|mask|], keys, m) == AddPoly(Constant(delta, |noise|), noise, m)
  {
    var k := Min(|mask|, |keys|);
    var row := AddToFirst(ZeroRow(noise, mask, keys, m), |mask|, delta, m);
    var zero := ZeroEncryptedBody(noise, mask, keys, m);
    var c := Constant(delta, |noise|);
    assert row[..|mask|] == mask;
    forall t | 0 <= t < |noise|
      ensures row[|mask|][t] == EncryptedBody(noise, mask, keys, c, m)[t]
    {
      ZeroBodyCoefficient(noise, mask, keys, m, t);
      if t > 0 {
        WrapSmall(zero[t], m);
      }
    }
    DecryptUndoesEncrypt(noise, mask, keys, c, m);
  }

  /** Raising coefficient 0 of mask polynomial r to x changes only product r. */
  lemma RaisedProducts(mask: seq<seq<int>>, keys: seq<seq<bool>>, n: nat, m: int, r: nat, x: int)
    requires m > 0 && n > 0 && AllSized(mask, n) && AllSized(keys[..Min(|mask|, |keys|)], n)
    requires r < Min(|mask|, |keys|)
    ensures var k := Min(|mask|, |keys|);
      var raised := mask[r := mask[r][0 := x]];
      Products(raised[..k], keys[..k], n, m)
        == Products(mask[..k], keys[..k], n, m)[r := NegacyclicProduct(raised[r], Bits(keys[r]), m)]
  {
    var k := Min(|mask|, |keys|);
    var raised := mask[r := mask[r][0 := x]];
    var before := Products(mask[..k], keys[..k], n, m);
    var after := Products(raised[..k], keys[..k], n, m);
    forall j | 0 <= j < k
      ensures after[j] == before[r := NegacyclicProduct(raised[r], Bits(keys[r]), m)][j]
    {
      ProductsAt(raised[..k], keys[..k], n, m, j);
      ProductsAt(mask[..k], keys[..k], n, m, j);
    }
  }

  /** Column t of the products after raising coefficient 0 of mask polynomial r to x: product r
      moves from its old coefficient to the one that (x − a_0)·S_r[t] more gives. */
  lemma RaisedColumn(mask: seq<seq<int>>, keys: seq<seq<bool>>, n: nat, m: int, r: nat, x: int, t: nat)
    requires m > 0 && t < n && AllSized(mask, n) && AllSized(keys[..Min(|mask|, |keys|)], n)
    requires r < Min(|mask|, |keys|)
    ensures var k := Min(|mask|, |keys|);
      var pc := ProductCoefficient(mask[r], Bits(keys[r]), t);
      ColumnSum(Products(mask[r := mask[r][0 := x]][..k], keys[..k], n, m), n, t)
        == ColumnSum(Products(mask[..k], keys[..k], n, m), n, t) - Wrap(pc, m)
           + Wrap(pc + (if keys[r][t] then x - mask[r][0] else 0), m)
  {
    var k := Min(|mask|, |keys|);
    var raised := mask[r := mask[r][0 := x]];
    var bin := Bits(keys[r]);
    var before := Products(mask[..k], keys[..k], n, m);
    var product := NegacyclicProduct(raised[r], bin, m);
    var pc := ProductCoefficient(mask[r], bin, t);
    assert before[r][t] == Wrap(pc, m) by {
      ProductsAt(mask[..k], keys[..k], n, m, r);
    }
    assert product[t] == Wrap(pc + (if keys[r][t] then x - mask[r][0] else 0), m) by {
      PartialSumFirstChange(mask[r], bin, n, t, x);
      assert (x - mask[r][0]) * bin[t] == if keys[r][t] then x - mask[r][0] else 0;
    }
    RaisedProducts(mask, keys, n, m, r, x);
    ColumnSumChange(before, n, t, r, product);
  }

  /** The wrapping arithmetic of one coefficient of a mask row's decryption, for either value
      of the key coefficient. */
  lemma WrapMaskChange(e: int, c: int, pc: int, a0: int, x: int, delta: int, bit: bool, m: int)
    requires m > 0 && 0 <= e < m && x == Wrap(a0 + delta, m)
    ensures Wrap(Wrap(e + c, m) - (c - Wrap(pc, m) + Wrap(pc + (if bit then x - a0 else 0), m)), m)
         == Wrap(e - (if bit then delta else 0), m)
  {
    if bit {
      WrapMaskRaised(e, c, pc, a0, delta, m);
    } else {
      assert pc + 0 == pc && e - 0 == e;
      AddThenSub(e, c, m);
    }
  }

  /** Coefficient t of the decryption of an encryption of zero whose mask polynomial r has had
      coefficient 0 replaced by x, in terms of the column sum and product coefficient before. */
  lemma RaisedDecryption(noise: seq<int>, mask: seq<seq<int>>, keys: seq<seq<bool>>, m: int, r: nat, x: int, t: nat)
    requires m > 0 && t < |noise| && InRange(noise, m)
    requires AllSized(mask, |noise|) && AllSized(keys[..Min(|mask|, |keys|)], |noise|)
    requires r < Min(|mask|, |keys|)
    ensures var k := Min(|mask|, |keys|);
      var c := ColumnSum(Products(mask[..k], keys[..k], |noise|, m), |noise|, t);
      var pc := ProductCoefficient(mask[r], Bits(keys[r]), t);
      DecryptedBody(ZeroEncryptedBody(noise, mask, keys, m), mask[r := mask[r][0 := x]], keys, m)[t]
        == Wrap(Wrap(noise[t] + c, m) - (c - Wrap(pc, m) + Wrap(pc + (if keys[r][t] then x - mask[r][0] else 0), m)), m)
  {
    var k := Min(|mask|, |keys|);
    var n := |noise|;
    var raised := mask[r := mask[r][0 := x]];
    var body := ZeroEncryptedBody(noise, mask, keys, m);
    ZeroBodyCoefficient(noise, mask, keys, m, t);
    DecryptedCoefficient(body, raised, keys, m, t);
    RaisedColumn(mask, keys, n, m, r, x, t);
  }

  /** Coefficient t of the decryption of mask row r: E_t − delta·S_r[t], wrapped. */
  lemma MaskRowCoefficient(noise: seq<int>, mask: seq<seq<int>>, keys: seq<seq<bool>>, delta: int, m: int, r: nat, t: nat)
    requires m > 0 && t < |noise| && InRange(noise, m)
    requires AllSized(mask, |noise|) && AllSized(keys[..Min(|mask|, |keys|)], |noise|)
    requires r < Min(|mask|, |keys|)
    ensures var raised := mask[r := mask[r][0 := WrappingAdd(mask[r][0], delta, m)]];
      DecryptedBody(ZeroEncryptedBody(noise, mask, keys, m), raised, keys, m)[t]
        == WrappingSub(noise[t], if keys[r][t] then delta else 0, m)
  {
    var k := Min(|mask|, |keys|);
    var c := ColumnSum(Products(mask[..k], keys[..k], |noise|, m), |noise|, t);
    var pc := ProductCoefficient(mask[r], Bits(keys[r]), t);
    var x := WrappingAdd(mask[r][0], delta, m);
    RaisedDecryption(noise, mask, keys, m, r, x, t);
    WrapMaskChange(noise[t], c, pc, mask[r][0], x, delta, keys[r][t], m);
  }

  /** Mask row r of level matrix l of an encrypted constant, A_r raised by delta = DiagonalFactor(…)
      in coefficient 0, decrypts to E − delta·S_r: the noise minus the scaled key polynomial r. */
  lemma DiagonalMaskRow(noise: seq<int>, mask: seq<seq<int>>, keys: seq<seq<bool>>, delta: int, m: int, r: nat)
    requires m > 0 && |noise| > 0 && InRange(noise, m)
    requires AllSized(mask, |noise|) && AllSized(keys[..Min(|mask|, |keys|)], |noise|)
    requires r < Min(|mask|, |keys|)
    ensures var row := AddToFirst(ZeroRow(noise, mask, keys, m), r, delta, m);
      DecryptedBody(row[|mask|], row[..|mask|], keys, m) == SubPoly(noise, ScaledKey(delta, keys[r]), m)
  {
    var row := AddToFirst(ZeroRow(noise, mask, keys, m), r, delta, m);
    var raised := mask[r := mask[r][0 := WrappingAdd(mask[r][0], delta, m)]];
    var body := ZeroEncryptedBody(noise, mask, keys, m);
    assert row[..|mask|] == raised && row[|mask|] == body;
    forall t | 0 <= t < |noise|
      ensures DecryptedBody(body, raised, keys, m)[t] == SubPoly(noise, ScaledKey(delta, keys[r]), m)[t]
    {
      MaskRowCoefficient(noise, mask, keys, delta, m, r, t);
    }
  }

  /** A trivial encryption of zero is the encryption of zero whose mask polynomials are all zero:
      zero masks add nothing to the noise. */
  lemma TrivialRowIsZeroRow(noise: seq<int>, k: nat, keys: seq<seq<bool>>, m: int)
    requires m > 0 && InRange(noise, m) && AllSized(keys[..Min(k, |keys|)], |noise|)
    ensures TrivialRow(noise, k) == ZeroRow(noise, TrivialRow(noise, k)[..k], keys, m)
  {
    var n := |noise|;
    var zeros := TrivialRow(noise, k)[..k];
    var j := Min(k, |keys|);
    var products := Products(zeros[..j], keys[..j], n, m);
    forall t | 0 <= t < n
      ensures ZeroEncryptedBody(noise, zeros, keys, m)[t] == noise[t]
    {
      forall i | 0 <= i < j ensures products[i][t] == 0 {
        ProductsAt(zeros[..j], keys[..j], n, m, i);
        PartialSumOfZero(zeros[i], Bits(keys[i]), n, t);
      }
      ColumnSumOfZeros(products, n, t);
      ZeroBodyCoefficient(noise, zeros, keys, m, t);
      WrapSmall(noise[t], m);
    }
    assert ZeroEncryptedBody(noise, zeros, keys, m) == noise;
    assert TrivialRow(noise, k) == zeros + [noise];
  }

  /** Whether the shift of every decomposition level in `levels` is well defined: the
      subtraction does not underflow and the shift is by less than w bits. The product may
      exceed w bits: the wrapping addition that consumes it reduces it as a wrapping product
      would. */
  predicate Scalable(bits: nat, baseLog: nat, levels: seq<nat>)
  {
    forall l :: 0 <= l < |levels| ==> 0 < baseLog * (levels[l] + 1) <= bits
  }

  /** The ciphertext polynomials of an encryption of zero, the body last. */
  function ZeroRow(noise: seq<int>, mask: seq<seq<int>>, keys: seq<seq<bool>>, m: int): (r: seq<seq<int>>)
    requires m > 0
    requires AllSized(mask[..Min(|mask|, |keys|)], |noise|) && AllSized(keys[..Min(|mask|, |keys|)], |noise|)
    ensures |r| == |mask| + 1
  {
    mask + [ZeroEncryptedBody(noise, mask, keys, m)]
  }

  /** The ciphertext polynomials of a trivial encryption of zero: k zero masks, the noise as body. */
  function TrivialRow(noise: seq<int>, k: nat): (r: seq<seq<int>>)
    ensures |r| == k + 1 && AllSized(r, |noise|)
  {
    seq(k, _ => seq(|noise|, _ => 0)) + [noise]
  }

  /** A GGSW ciphertext: one level matrix per decomposition level, each a list of k + 1 GLWE
      ciphertexts (its rows). Level matrix l reports decomposition level levels[l]. */
  class GgswCiphertext {
    const matrices: seq<GlweList>
    const polySize: nat
    const glweDimension: nat
    const bits: nat
    const baseLog: nat
    /** The decomposition level that each level matrix reports, in order. */
    const levels: seq<nat>

    /** The objects and buffers the level matrices own. */
    ghost const Repr: set<object>

    ghost predicate Valid()
      reads Repr
    {
      |levels| == |matrices| &&
      (forall l :: 0 <= l < |matrices| ==>
        matrices[l].Repr <= Repr && matrices[l].Valid() &&
        matrices[l].CiphertextCount() == glweDimension + 1 && matrices[l].polySize == polySize &&
        matrices[l].glweDimension == glweDimension && matrices[l].bits == bits) &&
      (forall l1, l2 :: 0 <= l1 < |matrices| && 0 <= l2 < |matrices| && l1 != l2 ==>
        matrices[l1].Repr !! matrices[l2].Repr)
    }

    function LevelCount(): nat
    {
      |matrices|
    }

    function GlweSize(): nat
    {
      glweDimension + 1
    }

    function Modulus(): int
    {
      Pow2(bits)
    }

    /** The polynomials of row `index` of level matrix `level`. */
    ghost function Row(level: nat, index: nat): (r: seq<seq<int>>)
      requires level < |matrices| && index < matrices[level].CiphertextCount()
      reads matrices[level].ciphertexts[index], matrices[level].ciphertexts[index].body.coefs
    {
      matrices[level].ciphertexts[index].PolynomialList()
    }

    /** Adds delta, wrapping, to coefficient 0 of polynomial r of row r, for every row r of level
        matrix `level`: the diagonal of the matrix. */
    method AddToLevelDiagonal(level: nat, delta: int)
      requires Valid() && level < LevelCount() && polySize > 0
      modifies matrices[level].Repr
      ensures Valid()
      ensures forall r :: 0 <= r < GlweSize() ==>
        Row(level, r) == AddToFirst(old(Row(level, r)), r, delta, Modulus())
    {
      matrices[level].AddToDiagonal(delta);
    }

    /** Adds the scaled plaintext to the diagonal of every level matrix: coefficient 0 of
        polynomial r of row r of level matrix l grows by DiagonalFactor(encoded, w, baseLog, levels[l]). */
    method AddScaledDiagonals(encoded: int)
      requires Valid() && (LevelCount() > 0 ==> polySize > 0)
      requires Scalable(bits, baseLog, levels)
      modifies Repr
      ensures Valid()
      ensures forall l, r :: 0 <= l < LevelCount() && 0 <= r < GlweSize() ==>
        Row(l, r) == AddToFirst(old(Row(l, r)), r, DiagonalFactor(encoded, bits, baseLog, levels[l]), Modulus())
    {
      for l := 0 to LevelCount()
        invariant Valid()
        invariant forall p, r :: 0 <= p < l && 0 <= r < GlweSize() ==>
          Row(p, r) == AddToFirst(old(Row(p, r)), r, DiagonalFactor(encoded, bits, baseLog, levels[p]), Modulus())
        invariant forall p, r :: l <= p < LevelCount() && 0 <= r < GlweSize() ==> Row(p, r) == old(Row(p, r))
      {
        var delta := DiagonalFactor(encoded, bits, baseLog, levels[l]);
        AddToLevelDiagonal(l, delta);
      }
    }

    /** Makes every row of every level matrix a trivial encryption of zero. */
    method FillTrivial(noises: seq<seq<seq<int>>>)
      requires Valid() && LevelNoises(noises, LevelCount(), glweDimension, polySize, Modulus())
      modifies Repr
      ensures Valid()
      ensures forall l, r :: 0 <= l < LevelCount() && 0 <= r < GlweSize() ==>
        Row(l, r) == TrivialRow(noises[l][r], glweDimension)
    {
      for l := 0 to LevelCount()
        invariant Valid()
        invariant forall p, r :: 0 <= p < l && 0 <= r < GlweSize() ==>
          Row(p, r) == TrivialRow(noises[p][r], glweDimension)
      {
        matrices[l].FillTrivial(noises[l]);
      }
    }
  }

  // ---------------------------------------------------------------------------------------------
  // Keys
  // ---------------------------------------------------------------------------------------------

  /** An LWE secret key: a vector of bits. */
  datatype LweSecretKey = LweSecretKey(bits: seq<bool>)
  {
    /** The LWE dimension, one per bit. */
    function KeySize(): nat
    {
      |bits|
    }
  }

  /** A GLWE secret key: k·N bits, read as k binary polynomials of size N = polySize. */
  datatype GlweSecretKey = GlweSecretKey(bits: seq<bool>, polySize: nat)
  {
    /** The bits divide into whole polynomials. */
    predicate Shaped()
    {
      polySize > 0 && Tiles(|bits|, polySize)
    }

    /** The GLWE dimension k: the number of key polynomials, |bits| / polySize. */
    function KeySize(): nat
      requires polySize > 0
    {
      Blocks(|bits|, polySize)
    }

    function PolynomialSize(): nat
    {
      polySize
    }

    /** Wraps a container of bits as a key with polynomials of size polySize; the container
        must hold whole polynomials. */
    static function FromContainer(cont: seq<bool>, polySize: nat): (r: GlweSecretKey)
      requires polySize > 0 && |cont| % polySize == 0
      ensures r.Shaped() && r.bits == cont && r.PolynomialSize() == polySize
      ensures r.KeySize() * polySize == |cont| && r.KeySize() == |cont| / polySize
    {
      TilesOfMultiple(|cont|, polySize);
      GlweSecretKey(cont, polySize)
    }

    /** A key of the given dimension and polynomial size whose bits are `sample`, the
        `polySize · dimension` uniform bits drawn by the source. */
    static function Generate(dimension: nat, polySize: nat, sample: seq<bool>): (r: GlweSecretKey)
      requires |sample| == polySize * dimension
      ensures r.bits == sample && r.PolynomialSize() == polySize
      ensures polySize > 0 ==> r.Shaped() && r.KeySize() == dimension
    {
      if polySize > 0 then BlocksOfProduct(dimension, polySize); GlweSecretKey(sample, polySize)
      else GlweSecretKey(sample, polySize)
    }

    /** The same bits, read as one LWE key of dimension k·N. */
    function IntoLweSecretKey(): (r: LweSecretKey)
      ensures r.bits == bits
      ensures Shaped() ==> r.KeySize() == KeySize() * PolynomialSize()
    {
      if Shaped() then BlocksCover(|bits|, polySize); LweSecretKey(bits) else LweSecretKey(bits)
    }

    /** The key as a list of k binary polynomials: polynomial i is bits i·N .. (i+1)·N - 1. */
    function KeyPolynomials(): (r: seq<seq<bool>>)
      requires Shaped()
      ensures |r| == KeySize() && AllSized(r, polySize)
    {
      BlocksCover(|bits|, polySize);
      seq(KeySize(), i requires 0 <= i < KeySize() => Chunk(bits, KeySize(), polySize, i))
    }

    /** Encrypts the plaintext polynomial `encoded` into ct: the mask becomes `maskSample` and
        the body becomes `noise` plus the products of the mask and key polynomials plus the
        plaintext. */
    method EncryptGlwe(ct: GlweCiphertext, encoded: seq<int>, maskSample: seq<seq<int>>, noise: seq<int>)
      requires Shaped() && ct.Valid()
      requires Min(ct.GlweDimension(), KeySize()) > 0 ==> polySize == ct.PolynomialSize()
      requires |encoded| == ct.PolynomialSize()
      requires MaskSample(maskSample, ct.GlweDimension(), ct.PolynomialSize(), ct.Modulus())
      requires NoiseSample(noise, ct.PolynomialSize(), ct.Modulus())
      modifies ct, ct.body.coefs
      ensures ct.Valid() && ct.mask == maskSample
      ensures ct.body.coefs[..] == EncryptedBody(noise, maskSample, KeyPolynomials(), encoded, ct.Modulus())
    {
      ct.body.Assign(noise);
      ct.mask := maskSample;
      ct.body.UpdateWithWrappingAddBinaryMultisum(ct.mask, KeyPolynomials());
      ct.body.UpdateWithWrappingAdd(encoded);
    }

    /** Encrypts zero into ct: the mask becomes `maskSample` and the body becomes `noise` plus the
        products of the mask and key polynomials. */
    method EncryptZeroGlwe(ct: GlweCiphertext, maskSample: seq<seq<int>>, noise: seq<int>)
      requires Shaped() && ct.Valid()
      requires Min(ct.GlweDimension(), KeySize()) > 0 ==> polySize == ct.PolynomialSize()
      requires MaskSample(maskSample, ct.GlweDimension(), ct.PolynomialSize(), ct.Modulus())
      requires NoiseSample(noise, ct.PolynomialSize(), ct.Modulus())
      modifies ct, ct.body.coefs
      ensures ct.Valid() && ct.mask == maskSample
      ensures ct.body.coefs[..] == ZeroEncryptedBody(noise, maskSample, KeyPolynomials(), ct.Modulus())
    {
      ct.body.Assign(noise);
      ct.mask := maskSample;
      ct.body.UpdateWithWrappingAddBinaryMultisum(ct.mask, KeyPolynomials());
    }

    /** Decrypts ct into out: out becomes the body minus the products of the mask and key
        polynomials. out must have one coefficient per coefficient of the ciphertext. */
    method DecryptGlwe(out: Polynomial, ct: GlweCiphertext)
      requires Shaped() && ct.Valid()
      requires Min(ct.GlweDimension(), KeySize()) > 0 ==> polySize == ct.PolynomialSize()
      requires out.coefs.Length == ct.PolynomialSize() && out.bits == ct.body.bits
      requires out.coefs != ct.body.coefs
      modifies out.coefs
      ensures out.Valid()
      ensures out.coefs[..] == DecryptionOf(ct)
    {
      out.Assign(ct.body.coefs[..]);
      out.UpdateWithWrappingSubBinaryMultisum(ct.mask, KeyPolynomials());
    }

    /** Encrypts the plaintext list `encoded` into list: ciphertext j receives the plaintexts
        j·N .. (j+1)·N - 1, the mask sample masks[j] and the noise noises[j]. */
    method EncryptGlweList(list: GlweList, encoded: seq<int>, masks: seq<seq<seq<int>>>, noises: seq<seq<int>>)
      requires Shaped() && list.Valid()
      requires list.CiphertextCount() * list.polySize == |encoded|
      requires list.glweDimension == KeySize()
      requires KeySize() > 0 ==> polySize == list.polySize
      requires MaskSamples(masks, list.CiphertextCount(), list.glweDimension, list.polySize, list.Modulus())
      requires NoiseSamples(noises, list.CiphertextCount(), list.polySize, list.Modulus())
      modifies list.Repr
      ensures list.Valid()
      ensures forall j :: 0 <= j < list.CiphertextCount() ==>
        list.ciphertexts[j].mask == masks[j] &&
        list.ciphertexts[j].body.coefs[..] ==
          EncryptedBody(noises[j], masks[j], KeyPolynomials(),
                        Chunk(encoded, list.CiphertextCount(), list.polySize, j), list.Modulus())
    {
      var n := list.polySize;
      var count := list.CiphertextCount();
      var start: nat := 0;
      for j := 0 to count
        invariant start == j * n
        invariant list.Valid()
        invariant forall i :: 0 <= i < j ==>
          list.ciphertexts[i].mask == masks[i] &&
          list.ciphertexts[i].body.coefs[..] ==
            EncryptedBody(noises[i], masks[i], KeyPolynomials(), Chunk(encoded, count, n, i), list.Modulus())
      {
        ChunkBounds(j, count, n);
        EncryptChunk(list, j, start, encoded, masks[j], noises[j]);
        start := start + n;
      }
    }

    /** Encrypts chunk j of `encoded`, which starts at `start`, into ciphertext j of list. */
    method EncryptChunk(list: GlweList, j: nat, start: nat, encoded: seq<int>, mask: seq<seq<int>>, noise: seq<int>)
      requires Shaped() && list.Valid() && j < list.CiphertextCount()
      requires list.CiphertextCount() * list.polySize == |encoded| && start == j * list.polySize
      requires Min(list.glweDimension, KeySize()) > 0 ==> polySize == list.polySize
      requires MaskSample(mask, list.glweDimension, list.polySize, list.Modulus())
      requires NoiseSample(noise, list.polySize, list.Modulus())
      modifies list.ciphertexts[j], list.ciphertexts[j].body.coefs
      ensures list.Valid()
      ensures list.ciphertexts[j].mask == mask
      ensures list.ciphertexts[j].body.coefs[..] ==
        EncryptedBody(noise, mask, KeyPolynomials(), Chunk(encoded, list.CiphertextCount(), list.polySize, j), list.Modulus())
    {
      ChunkBounds(j, list.CiphertextCount(), list.polySize);
      EncryptGlwe(list.ciphertexts[j], encoded[start..start + list.polySize], mask, noise);
    }

    /** Encrypts zero into every ciphertext of list, with mask sample masks[j] and noise
        noises[j] for ciphertext j. */
    method EncryptZeroGlweList(list: GlweList, masks: seq<seq<seq<int>>>, noises: seq<seq<int>>)
      requires Shaped() && list.Valid()
      requires Min(list.glweDimension, KeySize()) > 0 ==> polySize == list.polySize
      requires MaskSamples(masks, list.CiphertextCount(), list.glweDimension, list.polySize, list.Modulus())
      requires NoiseSamples(noises, list.CiphertextCount(), list.polySize, list.Modulus())
      modifies list.Repr
      ensures list.Valid()
      ensures forall j :: 0 <= j < list.CiphertextCount() ==>
        list.ciphertexts[j].mask == masks[j] &&
        list.ciphertexts[j].body.coefs[..] == ZeroEncryptedBody(noises[j], masks[j], KeyPolynomials(), list.Modulus())
    {
      for j := 0 to list.CiphertextCount()
        invariant list.Valid()
        invariant forall i :: 0 <= i < j ==>
          list.ciphertexts[i].mask == masks[i] &&
          list.ciphertexts[i].body.coefs[..] == ZeroEncryptedBody(noises[i], masks[i], KeyPolynomials(), list.Modulus())
      {
        EncryptZeroGlwe(list.ciphertexts[j], masks[j], noises[j]);
      }
    }

    /** Encrypts zero into every row of every level matrix of ggsw, level after level. */
    method EncryptZeroLevels(ggsw: GgswCiphertext, masks: seq<seq<seq<seq<int>>>>, noises: seq<seq<seq<int>>>)
      requires Shaped() && ggsw.Valid()
      requires polySize == ggsw.polySize && KeySize() == ggsw.glweDimension
      requires LevelSamples(masks, noises, ggsw.LevelCount(), ggsw.glweDimension, ggsw.polySize, ggsw.Modulus())
      modifies ggsw.Repr
      ensures ggsw.Valid()
      ensures forall l, r :: 0 <= l < ggsw.LevelCount() && 0 <= r < ggsw.GlweSize() ==>
        ggsw.Row(l, r) == ZeroRow(noises[l][r], masks[l][r], KeyPolynomials(), ggsw.Modulus())
    {
      for l := 0 to ggsw.LevelCount()
        invariant ggsw.Valid()
        invariant forall p, r :: 0 <= p < l && 0 <= r < ggsw.GlweSize() ==>
          ggsw.Row(p, r) == ZeroRow(noises[p][r], masks[p][r], KeyPolynomials(), ggsw.Modulus())
      {
        EncryptZeroGlweList(ggsw.matrices[l], masks[l], noises[l]);
      }
    }

    /** Encrypts the constant plaintext `encoded` as a GGSW ciphertext: every row becomes an
        encryption of zero, then coefficient 0 of polynomial r of row r of level matrix l grows
        by DiagonalFactor(encoded, w, baseLog, levels[l]). The sizes must match the key's, and every
        level's shift must be well defined. */
    method EncryptConstantGgsw(ggsw: GgswCiphertext, encoded: int, masks: seq<seq<seq<seq<int>>>>, noises: seq<seq<seq<int>>>)
      requires Shaped() && ggsw.Valid()
      requires polySize == ggsw.polySize && KeySize() == ggsw.glweDimension
      requires Scalable(ggsw.bits, ggsw.baseLog, ggsw.levels)
      requires LevelSamples(masks, noises, ggsw.LevelCount(), ggsw.glweDimension, ggsw.polySize, ggsw.Modulus())
      modifies ggsw.Repr
      ensures ggsw.Valid()
      ensures forall l, r :: 0 <= l < ggsw.LevelCount() && 0 <= r < ggsw.GlweSize() ==>
        ggsw.Row(l, r) == AddToFirst(ZeroRow(noises[l][r], masks[l][r], KeyPolynomials(), ggsw.Modulus()), r,
                                     DiagonalFactor(encoded, ggsw.bits, ggsw.baseLog, ggsw.levels[l]), ggsw.Modulus())
    {
      EncryptZeroLevels(ggsw, masks, noises);
      ggsw.AddScaledDiagonals(encoded);
    }

    /** Encrypts the constant plaintext `encoded` as a GGSW ciphertext whose masks are all zero:
        every row gets zero masks and its noise sample as body, then the scaled plaintext is
        added on the diagonals as in EncryptConstantGgsw. */
    method TrivialEncryptConstantGgsw(ggsw: GgswCiphertext, encoded: int, noises: seq<seq<seq<int>>>)
      requires Shaped() && ggsw.Valid()
      requires polySize == ggsw.polySize && KeySize() == ggsw.glweDimension
      requires Scalable(ggsw.bits, ggsw.baseLog, ggsw.levels)
      requires LevelNoises(noises, ggsw.LevelCount(), ggsw.glweDimension, ggsw.polySize, ggsw.Modulus())
      modifies ggsw.Repr
      ensures ggsw.Valid()
      ensures forall l, r :: 0 <= l < ggsw.LevelCount() && 0 <= r < ggsw.GlweSize() ==>
        ggsw.Row(l, r) == AddToFirst(TrivialRow(noises[l][r], ggsw.glweDimension), r,
                                     DiagonalFactor(encoded, ggsw.bits, ggsw.baseLog, ggsw.levels[l]), ggsw.Modulus())
    {
      ggsw.FillTrivial(noises);
      ggsw.AddScaledDiagonals(encoded);
    }

    /** What decrypting ct yields: its body minus the products of its mask and the key. */
    ghost function DecryptionOf(ct: GlweCiphertext): (r: seq<int>)
      requires Shaped() && ct.Valid()
      requires Min(ct.GlweDimension(), KeySize()) > 0 ==> polySize == ct.PolynomialSize()
      reads ct, ct.body.coefs
      ensures |r| == ct.PolynomialSize()
    {
      DecryptedBody(ct.body.coefs[..], ct.mask, KeyPolynomials(), ct.Modulus())
    }

    /** The decryption of every ciphertext of list, in order. */
    ghost function Decryptions(list: GlweList): (r: seq<seq<int>>)
      requires Shaped() && list.Valid()
      requires Min(list.glweDimension, KeySize()) > 0 ==> polySize == list.polySize
      reads list.Repr
      ensures |r| == list.CiphertextCount() && AllSized(r, list.polySize)
    {
      seq(list.CiphertextCount(), j requires 0 <= j < list.CiphertextCount() && list.Valid() reads list.Repr =>
        DecryptionOf(list.ciphertexts[j]))
    }

    /** Decrypts ciphertext j of list into the N coefficients of out from start on, through a
        polynomial of its own; returns what was written. */
    method DecryptInto(out: array<int>, start: nat, list: GlweList, j: nat) returns (plain: seq<int>)
      requires Shaped() && list.Valid() && j < list.CiphertextCount()
      requires Min(list.glweDimension, KeySize()) > 0 ==> polySize == list.polySize
      requires start + list.polySize <= out.Length && out !in list.Repr
      modifies out
      ensures plain == DecryptionOf(list.ciphertexts[j]) && InRange(plain, list.Modulus())
      ensures out[..start + list.polySize] == old(out[..start]) + plain
    {
      var decrypted := new Polynomial.Allocate(0, list.polySize, list.bits);
      DecryptGlwe(decrypted, list.ciphertexts[j]);
      plain := decrypted.coefs[..];
      WriteAt(out, start, plain);
    }

    /** The decryptions of the first c ciphertexts of list, end to end. */
    ghost function DecryptedPrefix(list: GlweList, c: nat): seq<int>
      requires Shaped() && list.Valid() && c <= list.CiphertextCount()
      requires Min(list.glweDimension, KeySize()) > 0 ==> polySize == list.polySize
      reads list.Repr
      decreases c
    {
      if c == 0 then [] else DecryptedPrefix(list, c - 1) + DecryptionOf(list.ciphertexts[c - 1])
    }

    /** One turn of DecryptAll: decrypts ciphertext j of list into the N coefficients of out
        after the decryptions of the j ciphertexts before it. */
    method DecryptNext(out: array<int>, list: GlweList, j: nat, start: nat) returns (next: nat)
      requires Shaped() && list.Valid() && j < list.CiphertextCount()
      requires Min(list.glweDimension, KeySize()) > 0 ==> polySize == list.polySize
      requires start + list.polySize <= out.Length && out !in list.Repr
      requires out[..start] == DecryptedPrefix(list, j) && InRange(out[..start], list.Modulus())
      modifies out
      ensures next == start + list.polySize
      ensures out[..next] == DecryptedPrefix(list, j + 1) && InRange(out[..next], list.Modulus())
    {
      ghost var prefix := out[..start];
      var plain := DecryptInto(out, start, list, j);
      AppendInRange(prefix, plain, list.Modulus());
      next := start + list.polySize;
    }

    /** Decrypts every ciphertext of list into out, end to end. */
    method DecryptAll(out: array<int>, list: GlweList)
      requires Shaped() && list.Valid()
      requires list.CiphertextCount() * list.polySize == out.Length
      requires Min(list.glweDimension, KeySize()) > 0 ==> polySize == list.polySize
      requires out !in list.Repr
      modifies out
      ensures out[..] == DecryptedPrefix(list, list.CiphertextCount()) && InRange(out[..], list.Modulus())
    {
      var n := list.polySize;
      var count := list.CiphertextCount();
      var start: nat := 0;
      for j := 0 to count
        invariant start == j * n && start <= out.Length
        invariant out[..start] == DecryptedPrefix(list, j) && InRange(out[..start], list.Modulus())
      {
        ChunkBounds(j, count, n);
        start := DecryptNext(out, list, j, start);
      }
      assert out[..] == out[..start];
    }

    /** Decrypts every ciphertext of list into out: ciphertext j fills out[j·N .. (j+1)·N - 1]. */
    method DecryptGlweList(out: array<int>, list: GlweList)
      requires Shaped() && list.Valid()
      requires list.CiphertextCount() * list.polySize == out.Length
      requires list.glweDimension == KeySize()
      requires KeySize() > 0 ==> polySize == list.polySize
      requires out !in list.Repr
      modifies out
      ensures InRange(out[..], list.Modulus())
      ensures forall j :: 0 <= j < list.CiphertextCount() ==>
        Chunk(out[..], list.CiphertextCount(), list.polySize, j) == DecryptionOf(list.ciphertexts[j])
    {
      DecryptAll(out, list);
      DecryptionChunks(out[..], list);
    }

    /** A buffer holding the decryptions of list end to end holds decryption j at chunk j. */
    /** The round trip of a whole list: once `EncryptGlweList` has encrypted `encoded` into list,
        ciphertext j decrypts to chunk j of `encoded` plus its own noise, so `DecryptGlweList`
        writes encoded + noise, chunk by chunk. */
    lemma ListRoundTrip(list: GlweList, encoded: seq<int>, masks: seq<seq<seq<int>>>, noises: seq<seq<int>>)
      requires Shaped() && list.Valid()
      requires list.CiphertextCount() * list.polySize == |encoded|
      requires list.glweDimension == KeySize()
      requires KeySize() > 0 ==> polySize == list.polySize
      requires MaskSamples(masks, list.CiphertextCount(), list.glweDimension, list.polySize, list.Modulus())
      requires NoiseSamples(noises, list.CiphertextCount(), list.polySize, list.Modulus())
      requires forall j :: 0 <= j < list.CiphertextCount() ==>
        list.ciphertexts[j].mask == masks[j] &&
        list.ciphertexts[j].body.coefs[..] ==
          EncryptedBody(noises[j], masks[j], KeyPolynomials(),
                        Chunk(encoded, list.CiphertextCount(), list.polySize, j), list.Modulus())
      ensures forall j :: 0 <= j < list.CiphertextCount() ==>
        DecryptionOf(list.ciphertexts[j])
          == AddPoly(Chunk(encoded, list.CiphertextCount(), list.polySize, j), noises[j], list.Modulus())
    {
      forall j | 0 <= j < list.CiphertextCount()
        ensures DecryptionOf(list.ciphertexts[j])
          == AddPoly(Chunk(encoded, list.CiphertextCount(), list.polySize, j), noises[j], list.Modulus())
      {
        DecryptUndoesEncrypt(noises[j], masks[j], KeyPolynomials(),
                             Chunk(encoded, list.CiphertextCount(), list.polySize, j), list.Modulus());
      }
    }

    lemma DecryptionChunks(buffer: seq<int>, list: GlweList)
      requires Shaped() && list.Valid()
      requires Min(list.glweDimension, KeySize()) > 0 ==> polySize == list.polySize
      requires buffer == DecryptedPrefix(list, list.CiphertextCount())
      ensures |buffer| == list.CiphertextCount() * list.polySize
      ensures forall j :: 0 <= j < list.CiphertextCount() ==>
        Chunk(buffer, list.CiphertextCount(), list.polySize, j) == DecryptionOf(list.ciphertexts[j])
    {
      var all := Decryptions(list);
      DecryptedPrefixIsConcat(list, |all|);
      assert all[..|all|] == all;
      ChunksOfConcat(all, list.polySize);
    }

    /** The first c decryptions end to end are the concatenation of the first c decryptions. */
    lemma {:induction false} DecryptedPrefixIsConcat(list: GlweList, c: nat)
      requires Shaped() && list.Valid() && c <= list.CiphertextCount()
      requires Min(list.glweDimension, KeySize()) > 0 ==> polySize == list.polySize
      ensures DecryptedPrefix(list, c) == Concat(Decryptions(list)[..c])
      decreases c
    {
      if c > 0 {
        DecryptedPrefixIsConcat(list, c - 1);
        assert Decryptions(list)[..c][..c - 1] == Decryptions(list)[..c - 1];
      }
    }

    /** Laying the key polynomials end to end gives the key bits back. */
    lemma KeyPolynomialsCover()
      requires Shaped()
      ensures Concat(KeyPolynomials()) == bits
    {
      var count := KeySize();
      BlocksCover(|bits|, polySize);
      assert KeyPolynomials() == seq(count, j requires 0 <= j < count => Chunk(bits, count, polySize, j));
      ConcatOfChunks(bits, count, polySize, count);
    }
  }

  /** len is made of whole blocks of n. */
  predicate Tiles(len: nat, n: nat)
    requires n > 0
    decreases len
  {
    len == 0 || (len >= n && Tiles(len - n, n))
  }

  /** The number of whole blocks of n in len, that is len / n. */
  function Blocks(len: nat, n: nat): nat
    requires n > 0
    decreases len
  {
    if len < n then 0 else 1 + Blocks(len - n, n)
  }

  /** When len is made of whole blocks, they cover it exactly. */
  lemma {:induction false} BlocksCover(len: nat, n: nat)
    requires n > 0 && Tiles(len, n)
    ensures Blocks(len, n) * n == len
    decreases len
  {
    if len > 0 {
      BlocksCover(len - n, n);
      assert Blocks(len, n) * n == n + Blocks(len - n, n) * n;
    }
  }

  /** dimension blocks of n tile dimension·n, and there are dimension of them. */
  lemma {:induction false} BlocksOfProduct(dimension: nat, n: nat)
    requires n > 0
    ensures Tiles(dimension * n, n) && Blocks(dimension * n, n) == dimension
    decreases dimension
  {
    if dimension > 0 {
      var rest: nat := (dimension - 1) * n;
      assert dimension * n == rest + n;
      BlocksOfProduct(dimension - 1, n);
    }
  }

  /** A multiple of n is made of |len / n| whole blocks. */
  lemma TilesOfMultiple(len: nat, n: nat)
    requires n > 0 && len % n == 0
    ensures Tiles(len, n) && Blocks(len, n) == len / n && Blocks(len, n) * n == len
  {
    var q: nat := len / n;
    assert len == q * n;
    BlocksOfProduct(q, n);
  }
}
