/**
 * The Reed-Solomon error correction codewords of one block (`calculateECC`
 * inside `makeCodewordsQR`, ISO/IEC 18004 section 7.5.2): the remainder of the
 * data polynomial, shifted up by the degree of the generator, divided by the
 * monic generator polynomial over GF(256).
 */
module ReedSolomon {
  import opened BitStream
  import opened Iso

  /** Generator coefficients given as exponents of the primitive element (`GF256_GENPOLY[n]`). */
  predicate Exponents(g: seq<int>)
  {
    forall j :: 0 <= j < |g| ==> 0 <= g[j] < 255
  }

  /**
   * The element `a` times the element of exponent `e`, through the
   * logarithm and antilogarithm tables; zero when `a` is zero, which has
   * no logarithm.
   */
  function MulAlpha(t: Tables, a: Byte, e: int): (r: Byte)
    requires ValidGf(t) && 0 <= e < 255
    ensures a == 0 ==> r == 0
    ensures a != 0 ==> r == t.gf256[(e + t.gf256Inv[a]) % 255]
  {
    var q := t.gf256Inv[a];
    if q < 0 then 0 else t.gf256[(e + q) % 255]
  }

  /**
   * `rest` less `lead` times the generator (leading term dropped) under its
   * first `|g|` coefficients; subtraction in GF(256) is exclusive or.
   */
  function Subtract(t: Tables, rest: seq<Byte>, lead: Byte, g: seq<int>): (r: seq<Byte>)
    requires ValidGf(t) && Exponents(g) && |g| <= |rest|
  {
    seq(|rest|, k requires 0 <= k < |rest| => if k < |g| then Xor(rest[k], MulAlpha(t, lead, g[k])) else rest[k])
  }

  /**
   * The remainder of the polynomial `p` (coefficients from the highest
   * degree down) by the monic generator of degree `|g|`: long division,
   * one leading coefficient at a time.
   */
  function Remainder(t: Tables, p: seq<Byte>, g: seq<int>): (r: seq<Byte>)
    requires ValidGf(t) && Exponents(g) && |g| <= |p|
    ensures |r| == |g|
    decreases |p|
  {
    if |p| == |g| then p else Remainder(t, Subtract(t, p[1..], p[0], g), g)
  }

  /** The error correction codewords of a block: the remainder of `data * x^|g|`. */
  function Ecc(t: Tables, data: seq<Byte>, g: seq<int>): (ecc: seq<Byte>)
    requires ValidGf(t) && Exponents(g)
    ensures |ecc| == |g|
  {
    Remainder(t, data + seq(|g|, _ => 0), g)
  }

  /** `calculateECC(poly, genpoly)`: long division in place over a working array. */
  method CalculateEcc(t: Tables, poly: seq<Byte>, genpoly: seq<int>) returns (ecc: seq<Byte>)
    requires ValidGf(t) && Exponents(genpoly)
    ensures ecc == Ecc(t, poly, genpoly)
    ensures |ecc| == |genpoly|
  {
    var n := |poly|;
    var codewords := new Byte[n + |genpoly|](k => 0);
    forall k | 0 <= k < n {
      codewords[k] := poly[k];
    }
    assert codewords[..] == poly + seq(|genpoly|, _ => 0);
    var i := 0;
    while i < n
      invariant 0 <= i <= n
      invariant Remainder(t, codewords[i..], genpoly) == Ecc(t, poly, genpoly)
    {
      ghost var before := codewords[..];
      var lead := codewords[i];
      var quotient := t.gf256Inv[lead];
      i := i + 1;
      if quotient >= 0 {
        SubtractAt(t, codewords, i, lead, genpoly);
      } else {
        SubtractZero(t, before[i..], genpoly);
      }
      assert before[i - 1..][1..] == before[i..];
      RemainderStep(t, before[i - 1..], genpoly);
    }
    ecc := codewords[n..];
  }

  /** One step of the long division. */
  lemma RemainderStep(t: Tables, p: seq<Byte>, g: seq<int>)
    requires ValidGf(t) && Exponents(g) && |g| < |p|
    ensures Remainder(t, p, g) == Remainder(t, Subtract(t, p[1..], p[0], g), g)
  {
  }

  /** The inner loop of `calculateECC`: `lead` times the generator is subtracted from the coefficients from `i` on. */
  method SubtractAt(t: Tables, codewords: array<Byte>, i: nat, lead: Byte, genpoly: seq<int>)
    requires ValidGf(t) && Exponents(genpoly) && i + |genpoly| <= codewords.Length
    modifies codewords
    ensures codewords[..i] == old(codewords[..i])
    ensures codewords[i..] == Subtract(t, old(codewords[i..]), lead, genpoly)
  {
    ghost var before := codewords[..];
    for j := 0 to |genpoly|
      invariant codewords[..i] == before[..i]
      invariant codewords[i..] == Subtract(t, before[i..], lead, genpoly[..j])
    {
      ghost var cur := codewords[i..];
      var term := MulAlpha(t, lead, genpoly[j]);  // GF256[(genpoly[j] + quotient) % 255]
      codewords[i + j] := Xor(codewords[i + j], term);
      assert codewords[i..] == cur[j := Xor(cur[j], term)];
      SubtractStep(t, before[i..], lead, genpoly, j);
    }
    assert genpoly[..|genpoly|] == genpoly;
  }

  /** Subtracting one more term of the generator changes one more coefficient. */
  lemma SubtractStep(t: Tables, rest: seq<Byte>, lead: Byte, g: seq<int>, j: nat)
    requires ValidGf(t) && Exponents(g) && j < |g| <= |rest|
    ensures Subtract(t, rest, lead, g[..j + 1])
      == Subtract(t, rest, lead, g[..j])[j := Xor(Subtract(t, rest, lead, g[..j])[j], MulAlpha(t, lead, g[j]))]
  {
  }

  /** A zero leading coefficient subtracts nothing (the source skips the inner loop). */
  lemma SubtractZero(t: Tables, rest: seq<Byte>, g: seq<int>)
    requires ValidGf(t) && Exponents(g) && |g| <= |rest|
    ensures Subtract(t, rest, 0, g) == rest
  {
    forall k | 0 <= k < |g| {
      XorZero(rest[k]);
    }
  }

  /** The remainder of the zero polynomial is zero. */
  lemma {:induction false} RemainderOfZero(t: Tables, m: nat, g: seq<int>)
    requires ValidGf(t) && Exponents(g) && |g| <= m
    ensures Remainder(t, seq(m, _ => 0), g) == seq(|g|, _ => 0)
    decreases m
  {
    var p: seq<Byte> := seq(m, _ => 0);
    if m > |g| {
      SubtractZero(t, p[1..], g);
      assert p[1..] == seq(m - 1, _ => 0);
      RemainderOfZero(t, m - 1, g);
    }
  }

  /** An all-zero data block has all-zero error correction codewords. */
  lemma EccOfZero(t: Tables, data: seq<Byte>, g: seq<int>)
    requires ValidGf(t) && Exponents(g)
    requires forall k :: 0 <= k < |data| ==> data[k] == 0
    ensures Ecc(t, data, g) == seq(|g|, _ => 0)
  {
    assert data + seq(|g|, _ => 0) == seq(|data| + |g|, _ => 0);
    RemainderOfZero(t, |data| + |g|, g);
  }
}
