/**
 * Per-version parameters (`fixedInfoVersion`, run by the `version` setter of
 * `DataQR`) and the character capacity derived from them (`bitsDataMax` in
 * `controlOptionsCreator`).
 */
module Capacity {
  import opened Iso

  /** What `fixedInfoVersion` fixes for one (version, mode, eccl). */
  datatype VersionParams = VersionParams(
    qtyBlocks: int,
    bytesCorrectionPerBlock: int,
    genpoly: seq<int>,
    bitsFieldDataQty: int,
    positionAlignmentPatterns: seq<int>,
    bitsData: int)

  /**
   * Modules left for codewords: all `(21 + 4(v - 1))^2` modules less the finder
   * patterns with separators, timing patterns and format information, less the
   * alignment patterns (`qtyAP` coordinates per axis) and version information.
   */
  function CountDataBits(version: int, qtyAP: int): int
  {
    var nBits := 16 * version * version + 128 * version + 64;
    var withAlign := if qtyAP != 0 then nBits - (25 * qtyAP * qtyAP - 10 * qtyAP - 55) else nBits;
    if version > 6 then withAlign - 36 else withAlign
  }

  /**
   * The count is the symbol's modules less those of every function pattern,
   * counted pattern by pattern.
   */
  lemma DataModules(version: int, qtyAP: int)
    ensures var n := 4 * version + 17;
      // `qtyAP^2 - 3` alignment patterns of 25 modules, of which `2(qtyAP - 2)` cross a timing pattern in 5 modules
      var alignment := if qtyAP == 0 then 0 else 25 * (qtyAP * qtyAP - 3) - 2 * 5 * (qtyAP - 2);
      // three finders with separators, two format copies and the dark module, two timing patterns, two version blocks
      CountDataBits(version, qtyAP) == n * n - 3 * 64 - (2 * 15 + 1) - 2 * (n - 16) - alignment - (if NeedsVerInfo(version) then 2 * 18 else 0)
  {
  }

  /** `x & ~7` on a two's complement integer: clears the three low bits. */
  function ClearLow3(x: int): (r: int)
    ensures r % 8 == 0 && r <= x < r + 8
  {
    x - x % 8
  }

  /** Bits of error correction codewords over all blocks. */
  function EcBits(p: VersionParams): int
  {
    8 * p.bytesCorrectionPerBlock * p.qtyBlocks
  }

  /**
   * `deriveVersionParams`: what the `version` setter stores through
   * `fixedInfoVersion` for a valid (version, mode, eccl).
   */
  function DeriveVersionParams(t: Tables, version: int, mode: int, eccl: int): (p: VersionParams)
    requires ValidTables(t) && 1 <= version <= 40 && IsMode(mode) && IsEccl(eccl)
    ensures p.qtyBlocks >= 1 && p.bytesCorrectionPerBlock >= 0
    ensures |p.genpoly| == p.bytesCorrectionPerBlock
    ensures forall j :: 0 <= j < |p.genpoly| ==> 0 <= p.genpoly[j] < 255
    ensures p.bitsFieldDataQty == BitsFieldDataQuantity(version, mode)
    ensures |p.positionAlignmentPatterns| == if version == 1 then 0 else version / 7 + 2
    ensures p.bitsData % 8 == 0
    ensures p.bitsData + EcBits(p) <= CountDataBits(version, |p.positionAlignmentPatterns|) < p.bitsData + EcBits(p) + 8
  {
    assert ValidVersionEntry(t, version);
    var entry := t.info[version];
    var qtyBlocks := entry.blocks[eccl];
    var ec := entry.ecBytesPerBlock[eccl];
    var aligns := entry.alignments;
    var usable := ClearLow3(CountDataBits(version, |aligns|));
    var p := VersionParams(qtyBlocks, ec, t.genpoly[ec], BitsFieldDataQuantity(version, mode), aligns, 0);
    var r := p.(bitsData := usable - EcBits(p));
    assert EcBits(r) == EcBits(p);
    assert EcBits(p) % 8 == 0 by {
      assert EcBits(p) == 8 * (ec * qtyBlocks);
    }
    DiffMultipleOf8(usable, EcBits(p));
    r
  }

  lemma DiffMultipleOf8(a: int, b: int)
    requires a % 8 == 0 && b % 8 == 0
    ensures (a - b) % 8 == 0
  {
    assert a - b == 8 * (a / 8 - b / 8);
  }

  /** Whether version information is embedded (`needsVerInfo`): symbols of 45 modules a side and more. */
  function NeedsVerInfo(version: int): (b: bool)
    ensures 1 <= version <= 40 ==> (b <==> 4 * version + 17 >= 45)
  {
    version > 6
  }

  /** Integer division truncating toward zero, as `(a / b) | 0` does in the source. */
  function TruncDiv(a: int, b: int): (q: int)
    requires b > 0
  {
    if a >= 0 then a / b else -((-a) / b)
  }

  /** The source's `%`: the remainder takes the sign of the dividend. */
  function TruncRem(a: int, b: int): (r: int)
    requires b > 0
  {
    a - b * TruncDiv(a, b)
  }

  /** Bits taken by `n` characters of data in a mode (ISO/IEC 18004, section 7.4.3 to 7.4.5). */
  function DataBitLength(mode: int, n: nat): nat
  {
    if mode == MODE_NUMERIC then 10 * (n / 3) + (if n % 3 == 0 then 0 else if n % 3 == 1 then 4 else 7)
    else if mode == MODE_ALPHANUMERIC then 11 * (n / 2) + 6 * (n % 2)
    else 8 * n
  }

  /** Characters that fit in `nBits` bits of data (the arithmetic of `bitsDataMax`). */
  function MaxLength(mode: int, nBits: int): (r: int)
    requires IsMode(mode)
    ensures nBits >= 0 ==> r >= 0
    ensures nBits < 0 ==> r <= 0
  {
    if mode == MODE_NUMERIC then
      TruncDiv(nBits, 10) * 3 + (if TruncRem(nBits, 10) < 4 then 0 else if TruncRem(nBits, 10) < 7 then 1 else 2)
    else if mode == MODE_ALPHANUMERIC then
      TruncDiv(nBits, 11) * 2 + (if TruncRem(nBits, 11) < 6 then 0 else 1)
    else
      TruncDiv(nBits, 8)
  }

  /** `bitsDataMax`: data bits less the mode indicator and the count indicator, in characters. */
  function BitsDataMax(p: VersionParams, mode: int): int
    requires IsMode(mode)
  {
    MaxLength(mode, p.bitsData - 4 - p.bitsFieldDataQty)
  }

  lemma DataBitLengthMonotone(mode: int, a: nat, b: nat)
    requires a <= b
    ensures DataBitLength(mode, a) <= DataBitLength(mode, b)
  {
  }

  lemma MaxLengthNegative(mode: int, nBits: int)
    requires IsMode(mode) && nBits < 0
    ensures MaxLength(mode, nBits) <= 0
  {
  }

  /** The largest count `MaxLength` returns fits, and one more does not. */
  lemma MaxLengthTight(mode: int, nBits: int)
    requires IsMode(mode) && nBits >= 0
    ensures MaxLength(mode, nBits) >= 0
    ensures DataBitLength(mode, MaxLength(mode, nBits)) <= nBits
    ensures DataBitLength(mode, MaxLength(mode, nBits) + 1) > nBits
  {
  }

  /**
   * `bitsDataMax` is exact: a non-empty text of `n` characters is accepted
   * exactly when its packed data fits the bits left after mode and count.
   */
  lemma MaxLengthExact(mode: int, nBits: int, n: nat)
    requires IsMode(mode) && n >= 1
    ensures n <= MaxLength(mode, nBits) <==> DataBitLength(mode, n) <= nBits
  {
    if nBits < 0 {
      MaxLengthNegative(mode, nBits);
    } else {
      var m := MaxLength(mode, nBits);
      MaxLengthTight(mode, nBits);
      if n <= m {
        DataBitLengthMonotone(mode, n, m);
      } else {
        DataBitLengthMonotone(mode, m + 1, n);
      }
    }
  }

  /**
   * With the parameters of a version, the accepted lengths are those whose
   * mode indicator, count indicator and data fit in `bitsData`.
   */
  lemma BitsDataMaxExact(p: VersionParams, mode: int, n: nat)
    requires IsMode(mode) && n >= 1
    ensures n <= BitsDataMax(p, mode) <==> 4 + p.bitsFieldDataQty + DataBitLength(mode, n) <= p.bitsData
  {
    MaxLengthExact(mode, p.bitsData - 4 - p.bitsFieldDataQty, n);
  }
}
