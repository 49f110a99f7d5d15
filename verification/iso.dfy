/**
 * Constants and tables that the encoder takes from its ISO/IEC 18004 support
 * library (`src/lib/iso`). That library is not part of this model: the small
 * constants below are restated from ISO/IEC 18004:2015, and the large tables
 * (GF(256) exponent/log tables, generator polynomials, per-version capacity
 * and alignment data) are a parameter `Tables` whose required shape is the
 * predicate `ValidTables`.
 */
module Iso {
  import opened BitStream

  // Mode indicators (ISO/IEC 18004, Table 2)
  const MODE_NUMERIC := 1
  const MODE_ALPHANUMERIC := 2
  const MODE_OCTET := 4
  const MODE_TERMINATOR := 0

  predicate IsMode(m: int)
  {
    m == MODE_NUMERIC || m == MODE_ALPHANUMERIC || m == MODE_OCTET
  }

  // Error correction level indicators (ISO/IEC 18004, Table 12)
  const ECCL_M := 0
  const ECCL_L := 1
  const ECCL_H := 2
  const ECCL_Q := 3

  predicate IsEccl(e: int)
  {
    0 <= e <= 3
  }

  // Penalty weights N1 to N4 (ISO/IEC 18004, section 7.8.3.1)
  const PENALTY_CONSECUTIVE := 3
  const PENALTY_TWOBYTWO := 3
  const PENALTY_FINDERLIKE := 40
  const PENALTY_DENSITY := 10

  /** Number of mask patterns (the length of the mask function table). */
  const MASK_COUNT := 8

  /** Width of the character count indicator (ISO/IEC 18004, Table 3). */
  function BitsFieldDataQuantity(version: int, mode: int): (n: nat)
    ensures 8 <= n <= 16
  {
    if version < 10 then
      (if mode == MODE_NUMERIC then 10 else if mode == MODE_ALPHANUMERIC then 9 else 8)
    else if version < 27 then
      (if mode == MODE_NUMERIC then 12 else if mode == MODE_ALPHANUMERIC then 11 else 16)
    else
      (if mode == MODE_NUMERIC then 14 else if mode == MODE_ALPHANUMERIC then 13 else 16)
  }

  /** A decimal digit `[0-9]`, as a character code. */
  predicate IsDigit(c: int)
  {
    '0' as int <= c <= '9' as int
  }

  /** The character of value `k` in alphanumeric mode (ISO/IEC 18004, Table 5). */
  function AlphanumericChar(k: nat): int
    requires k < 45
  {
    if k < 10 then '0' as int + k
    else if k < 36 then 'A' as int + (k - 10)
    else " $%*+-./:"[k - 36] as int
  }

  /** The least value at or after `k` whose character is `c`, or 45 if there is none. */
  function CodeFrom(c: int, k: nat): (r: nat)
    requires k <= 45
    ensures k <= r <= 45
    ensures r < 45 ==> AlphanumericChar(r) == c
    ensures forall j :: k <= j < r ==> AlphanumericChar(j) != c
    decreases 45 - k
  {
    if k == 45 then 45
    else if AlphanumericChar(k) == c then k
    else CodeFrom(c, k + 1)
  }

  /** A character of the alphanumeric set `[A-Z0-9 $%*+\-./:]`. */
  predicate IsAlphanumeric(c: int)
  {
    CodeFrom(c, 0) < 45
  }

  /** `ALPHANUMERIC_MAP`: the value of a character in alphanumeric mode. */
  function AlphanumericCode(c: int): (k: nat)
    requires IsAlphanumeric(c)
    ensures k < 45 && AlphanumericChar(k) == c
  {
    CodeFrom(c, 0)
  }

  /** A digit is an alphanumeric character, and its value is the digit. */
  lemma DigitCode(c: int)
    requires IsDigit(c)
    ensures IsAlphanumeric(c) && AlphanumericCode(c) == c - '0' as int
  {
    var d := c - '0' as int;
    assert AlphanumericChar(d) == c;
  }

  /** The nine symbols of the alphanumeric set, as character codes. */
  predicate IsSymbol(c: int)
  {
    c in {' ' as int, '$' as int, '%' as int, '*' as int, '+' as int, '-' as int, '.' as int, '/' as int, ':' as int}
  }

  /** The alphanumeric set is exactly the character class `[A-Z0-9 $%*+\-./:]`. */
  lemma AlphanumericSet(c: int)
    ensures IsAlphanumeric(c) <==> IsDigit(c) || 'A' as int <= c <= 'Z' as int || IsSymbol(c)
  {
    if IsDigit(c) {
      assert AlphanumericChar(c - '0' as int) == c;
    } else if 'A' as int <= c <= 'Z' as int {
      assert AlphanumericChar(c - 'A' as int + 10) == c;
    } else if IsSymbol(c) {
      var k :=
        if c == ' ' as int then 36 else if c == '$' as int then 37 else if c == '%' as int then 38
        else if c == '*' as int then 39 else if c == '+' as int then 40 else if c == '-' as int then 41
        else if c == '.' as int then 42 else if c == '/' as int then 43 else 44;
      assert AlphanumericChar(k) == c;
    } else if IsAlphanumeric(c) {
      var k := AlphanumericCode(c);
      assert false;
    }
  }

  /** Data mask pattern conditions (ISO/IEC 18004, Table 10); `i` is the row, `j` the column. */
  function MaskCondition(mask: int, i: nat, j: nat): (b: bool)
    requires 0 <= mask < MASK_COUNT
    ensures mask == 0 ==> (b <==> i % 2 == j % 2)
  {
    match mask
    case 0 => (i + j) % 2 == 0
    case 1 => i % 2 == 0
    case 2 => j % 3 == 0
    case 3 => (i + j) % 3 == 0
    case 4 => (i / 2 + j / 3) % 2 == 0
    case 5 => (i * j) % 2 + (i * j) % 3 == 0
    case 6 => ((i * j) % 2 + (i * j) % 3) % 2 == 0
    case _ => ((i + j) % 2 + (i * j) % 3) % 2 == 0
  }

  /** `MASKFUNCS[mask](row, col)` as a bit. */
  function MaskBit(mask: int, row: nat, col: nat): Bit
    requires 0 <= mask < MASK_COUNT
  {
    if MaskCondition(mask, row, col) then 1 else 0
  }

  /** Side of the symbol of a version (ISO/IEC 18004, section 5.3.2). */
  function MatrixSize(version: int): int
  {
    21 + 4 * (version - 1)
  }

  /** One row of `infoVersion`: EC codewords per block and block count, indexed by eccl,
      and the top-left coordinates of the alignment patterns. */
  datatype VersionEntry = VersionEntry(ecBytesPerBlock: seq<int>, blocks: seq<int>, alignments: seq<int>)

  /** `GF256` (exponent to element), `GF256_INV` (element to exponent), `GF256_GENPOLY`
      (generator polynomial exponents by degree, leading term implicit) and `infoVersion`. */
  datatype Tables = Tables(gf256: seq<int>, gf256Inv: seq<int>, genpoly: seq<seq<int>>, info: seq<VersionEntry>)

  /** GF256 and GF256_INV are inverse on 1..255, and GF256_INV[0] is no exponent. */
  predicate ValidGf(t: Tables)
  {
    && |t.gf256| >= 255
    && (forall e :: 0 <= e < |t.gf256| ==> 0 <= t.gf256[e] < 256)
    && |t.gf256Inv| == 256
    && t.gf256Inv[0] < 0
    && (forall k :: 1 <= k < 256 ==> 0 <= t.gf256Inv[k] < 255 && t.gf256[t.gf256Inv[k]] == k)
  }

  /** `GF256_GENPOLY[n]` lists the `n` exponents below the implicit leading term. */
  predicate ValidGenpoly(t: Tables)
  {
    forall n :: 0 <= n < |t.genpoly| ==>
      |t.genpoly[n]| == n && forall j :: 0 <= j < n ==> 0 <= t.genpoly[n][j] < 255
  }

  predicate ValidVersionEntry(t: Tables, v: int)
    requires 1 <= v < |t.info|
  {
    var e := t.info[v];
    && |e.ecBytesPerBlock| == 4
    && |e.blocks| == 4
    && (forall l :: 0 <= l < 4 ==> e.blocks[l] >= 1 && 0 <= e.ecBytesPerBlock[l] < |t.genpoly|)
    && |e.alignments| == (if v == 1 then 0 else v / 7 + 2)
    && (forall k :: 0 <= k < |e.alignments| ==> 0 <= e.alignments[k] && e.alignments[k] + 5 <= MatrixSize(v))
  }

  predicate ValidTables(t: Tables)
  {
    && ValidGf(t)
    && ValidGenpoly(t)
    && |t.info| == 41
    && forall v :: 1 <= v <= 40 ==> ValidVersionEntry(t, v)
  }

  /**
   * One step of the division of the binary polynomial `x` by a generator: if
   * the bit `m` of `x` is set, the generator aligned under it (`g`) is
   * subtracted by exclusive or.
   */
  function BchStep(x: bv32, g: bv32, m: bv32): bv32
  {
    if x & m != 0 then x ^ g else x
  }

  /** `i` division steps, the generator and the bit looked at moving down a bit each time. */
  function BchReduce(x: bv32, g: bv32, m: bv32, i: nat): bv32
    decreases i
  {
    if i == 0 then x
    else BchReduce(BchStep(x, g, m), g >> 1, m >> 1, i - 1)
  }

  /** The bit that `BchReduce` looks at after its `i` steps. */
  function FinalMask(m: bv32, i: nat): bv32
    decreases i
  {
    if i == 0 then m else FinalMask(m >> 1, i - 1)
  }

  lemma {:induction false} FinalMaskZero(i: nat)
    ensures FinalMask(0, i) == 0
  {
    if i > 0 {
      FinalMaskZero(i - 1);
    }
  }

  predicate PowerOfTwo(m: bv32)
  {
    m != 0 && m & (m - 1) == 0
  }

  /** What a division step keeps: `x` below twice the bit looked at, the generator's top bit at it. */
  predicate StepInvariant(x: bv32, g: bv32, m: bv32)
  {
    PowerOfTwo(m) && m <= g && g >> 1 < m && x >> 1 < m
  }

  /** One division step clears the bit it looks at. */
  lemma StepClearsTop(x: bv32, g: bv32, m: bv32)
    requires StepInvariant(x, g, m)
    ensures BchStep(x, g, m) < m
  {
  }

  lemma HalveMask(g: bv32, m: bv32)
    requires PowerOfTwo(m) && m <= g && g >> 1 < m && m >> 1 != 0
    ensures PowerOfTwo(m >> 1) && m >> 1 <= g >> 1 && (g >> 1) >> 1 < m >> 1
  {
  }

  lemma BelowMask(x: bv32, m: bv32)
    requires x < m && PowerOfTwo(m) && m >> 1 != 0
    ensures x >> 1 < m >> 1
  {
  }

  /** A division step, followed by the move down a bit, keeps the invariant. */
  lemma StepKeepsInvariant(x: bv32, g: bv32, m: bv32)
    requires StepInvariant(x, g, m) && m >> 1 != 0
    ensures StepInvariant(BchStep(x, g, m), g >> 1, m >> 1)
  {
    StepClearsTop(x, g, m);
    BelowMask(BchStep(x, g, m), m);
    HalveMask(g, m);
  }

  lemma BchReduceUnfold(x: bv32, g: bv32, m: bv32, i: nat)
    requires i > 0
    ensures BchReduce(x, g, m, i) == BchReduce(BchStep(x, g, m), g >> 1, m >> 1, i - 1)
    ensures FinalMask(m, i) == FinalMask(m >> 1, i - 1)
  {
  }

  /** `x` has no bit at or above twice `m`. */
  predicate HalfBelow(x: bv32, m: bv32)
  {
    x >> 1 < m
  }

  /** After the division, the remainder lies below the generator's leading bit. */
  lemma {:induction false} BchReduceBound(x: bv32, g: bv32, m: bv32, i: nat)
    requires StepInvariant(x, g, m)
    requires FinalMask(m, i) != 0
    ensures HalfBelow(BchReduce(x, g, m, i), FinalMask(m, i))
  {
    if i > 0 {
      BchReduceUnfold(x, g, m, i);
      if m >> 1 == 0 {
        FinalMaskZero(i - 1);
        assert false;
      }
      StepKeepsInvariant(x, g, m);
      BchReduceBound(BchStep(x, g, m), g >> 1, m >> 1, i - 1);
    }
  }

  /**
   * `encodeBCH(value, dataBits, gen, eccBits)`: the `dataBits`-bit `value`
   * followed by the `eccBits` remainder bits of `value * x^eccBits` divided
   * by `gen` (ISO/IEC 18004, Annexes C and D).
   */
  function EncodeBch(value: bv32, dataBits: nat, gen: bv32, eccBits: nat): bv32
    requires 1 <= dataBits && dataBits + eccBits <= 31
  {
    var shifted := value << eccBits;
    shifted | BchReduce(shifted, gen << (dataBits - 1), 1 << (dataBits + eccBits - 1), dataBits)
  }

  /** The BCH(15,5) format code keeps its five data bits above the ten check bits. */
  lemma FormatBchSystematic(value: bv32)
    requires value < 32
    ensures EncodeBch(value, 5, 0x537, 10) >> 10 == value
    ensures EncodeBch(value, 5, 0x537, 10) < 0x8000
  {
    assert FinalMask(0x4000, 5) == 0x200;
    BchReduceBound(value << 10, 0x537 << 4, 0x4000, 5);
  }

  /** The Golay(18,6) version code keeps its six data bits above the twelve check bits. */
  lemma VersionBchSystematic(value: bv32)
    requires value < 64
    ensures EncodeBch(value, 6, 0x1F25, 12) >> 12 == value
    ensures EncodeBch(value, 6, 0x1F25, 12) < 0x4_0000
  {
    assert FinalMask(0x2_0000, 6) == 0x800;
    BchReduceBound(value << 12, 0x1F25 << 5, 0x2_0000, 6);
  }
}
