/**
 * The class `DataQR`: the options, the per-version parameters fixed by the
 * `version` setter, and the results of each stage of encoding, with the
 * methods that compute them (`textToData`, `dataToCodewords`,
 * `makeCodewordsQR`, `makeMatrix`).
 */
module DataQr {
  import opened BitStream
  import opened Iso
  import opened Capacity
  import opened Matrix
  import TextEncoder
  import Codewords
  import ReedSolomon
  import Interleave
  import FormatInfo
  import Penalty

  /** The text option: a string, as a sequence of code points, or some other value. */
  datatype TextArg = NotString | Str(chars: seq<nat>)

  /** What the `version` setter leaves before any version has been fixed. */
  const NO_PARAMS := VersionParams(0, 0, [], 0, [], 0)

  /** The alignment coordinates of a version lie inside its symbol. */
  lemma AlignmentsFit(t: Tables, version: int, mode: int, eccl: int)
    requires ValidTables(t) && 1 <= version <= 40 && IsMode(mode) && IsEccl(eccl)
    ensures AlignsFit(DeriveVersionParams(t, version, mode, eccl).positionAlignmentPatterns, MatrixSize(version))
    ensures Side(MatrixSize(version))
  {
    assert ValidVersionEntry(t, version);
  }

  class DataQR {
    /** The tables of ISO/IEC 18004 the encoder reads (`GF256`, `infoVersion`, ...). */
    const tables: Tables
    var text: TextArg
    var mode: int
    var eccl: int
    /** `_version`, behind the `version` setter. */
    var version: int
    var mask: int
    /** The option that failed validation, or "". */
    var error: string
    var errorSubcode: string
    /** `bitsData`, `qtyBlocks`, `bytesCorrectionPerBlock`, `genpoly`, `bitsFieldDataQty`, `positionAlignmentPatterns`. */
    var params: VersionParams
    var data: seq<int>
    var codewordsData: seq<Byte>
    var codewordsQR: seq<Byte>
    var matrix: Grid

    /** Mode, level and version are valid, and the parameters are those of the version. */
    predicate Configured()
      reads this
    {
      && ValidTables(tables)
      && IsMode(mode) && IsEccl(eccl) && 1 <= version <= 40
      && params == DeriveVersionParams(tables, version, mode, eccl)
    }

    /** `constructor(text, options)`: the options as given, empty results. */
    constructor(tables: Tables, text: TextArg, mode: int, eccl: int, version: int, mask: int)
      ensures this.tables == tables && this.text == text
      ensures this.mode == mode && this.eccl == eccl && this.version == version && this.mask == mask
      ensures error == "" && errorSubcode == "" && params == NO_PARAMS
      ensures data == [] && codewordsData == [] && codewordsQR == [] && matrix == []
    {
      this.tables := tables;
      this.text := text;
      this.mode := mode;
      this.eccl := eccl;
      this.version := version;
      this.mask := mask;
      error := "";
      errorSubcode := "";
      params := NO_PARAMS;
      data := [];
      codewordsData := [];
      codewordsQR := [];
      matrix := [];
    }

    /**
     * The `version` setter: the version is stored, and the parameters are
     * fixed (`fixedInfoVersion`) only for a valid mode, level and version.
     */
    method SetVersion(version: int)
      requires ValidTables(tables)
      modifies this`version, this`params
      ensures this.version == version
      ensures IsMode(mode) && IsEccl(eccl) && 1 <= version <= 40 ==> params == DeriveVersionParams(tables, version, mode, eccl)
      ensures !(IsMode(mode) && IsEccl(eccl) && 1 <= version <= 40) ==> params == old(params)
    {
      this.version := version;
      if IsMode(mode) && IsEccl(eccl) && 0 < version < 41 {
        params := DeriveVersionParams(tables, version, mode, eccl);
      }
    }

    /** `textToData()`, on the empty `data` of a new object. */
    method TextToData()
      requires text.Str? && data == []
      modifies this`data
      ensures data == TextEncoder.DataOf(mode, text.chars)
    {
      data := TextEncoder.TextToData(mode, text.chars);
    }

    /** `dataToCodewords()`: `bitsData >> 3` data codewords. */
    method DataToCodewords()
      requires Configured() && Codewords.DataFitsMode(mode, data)
      modifies this`codewordsData
      ensures codewordsData == Codewords.DataCodewords(mode, data, params.bitsFieldDataQty, params.bitsData)
    {
      codewordsData := Codewords.DataToCodewords(mode, data, params.bitsFieldDataQty, params.bitsData);
    }

    /** `makeCodewordsQR()`: the interleaved data and error correction codewords. */
    method MakeCodewordsQR()
      requires Configured()
      modifies this`codewordsQR
      ensures codewordsQR == Interleave.Interleaved(tables, codewordsData, params.qtyBlocks, params.genpoly)
      ensures |codewordsQR| == |codewordsData| + params.qtyBlocks * params.bytesCorrectionPerBlock
    {
      codewordsQR := Interleave.MakeCodewordsQR(tables, codewordsData, params.qtyBlocks, params.genpoly);
    }

    /**
     * `makeMatrix()`: the symbol for the chosen mask. With a mask given
     * (0 to 7) it is that mask; with the automatic mask (any negative
     * value) it is the mask of lowest penalty score, the lowest such index
     * on a tie, and `mask` is set to it.
     */
    method MakeMatrix()
      requires Configured() && mask < MASK_COUNT
      modifies this`matrix, this`mask
      ensures 0 <= mask < MASK_COUNT && Side(MatrixSize(version))
      ensures old(mask) >= 0 ==> mask == old(mask)
      ensures old(mask) < 0 ==>
        Penalty.IsBest(MaskScores(MatrixSize(version), params.positionAlignmentPatterns, eccl,
                                  FormatInfo.MakeCodewordVersion(version), codewordsQR, MASK_COUNT), mask)
      ensures matrix == Symbol(MatrixSize(version), params.positionAlignmentPatterns, eccl,
                               FormatInfo.MakeCodewordVersion(version), codewordsQR, mask)
    {
      var n, al, cv := MatrixSize(version), params.positionAlignmentPatterns, FormatInfo.MakeCodewordVersion(version);
      AlignmentsFit(tables, version, mode, eccl);
      var built, chosen := BuildMatrix(n, al, eccl, cv, codewordsQR, mask);
      matrix, mask := built, chosen;
    }
  }

  /**
   * The body of `makeMatrix` on the side `n`, the alignment coordinates
   * `al`, the level, the version codeword `cv` and the codewords `cw`:
   * the function patterns, the codewords placed under the given mask (or
   * mask 0 when `mask` is negative), and then, for the automatic mask,
   * the best mask chosen and applied.
   */
  method BuildMatrix(n: nat, al: seq<int>, eccl: int, cv: bv32, cw: seq<Byte>, mask: int)
    returns (matrix: Grid, chosen: int)
    requires Side(n) && IsEccl(eccl) && AlignsFit(al, n) && mask < MASK_COUNT
    ensures 0 <= chosen < MASK_COUNT
    ensures mask >= 0 ==> chosen == mask
    ensures mask < 0 ==> Penalty.IsBest(MaskScores(n, al, eccl, cv, cw, MASK_COUNT), chosen)
    ensures matrix == Symbol(n, al, eccl, cv, cw, chosen)
  {
    var isMaskAuto := mask < 0;
    chosen := if isMaskAuto then 0 else mask;
    var codewordFormat := FormatInfo.MakeCodewordFormat(eccl, chosen);
    FormatInfo.FormatListed(eccl, chosen);
    matrix := FixedPatterns(n, al, codewordFormat, cv);
    PatternsShape(n, al, codewordFormat, cv);
    var mapData;
    matrix, mapData := PlaceCodewords(matrix, n, cw, chosen, isMaskAuto);
    if isMaskAuto {
      matrix, chosen := AutoMask(matrix, mapData, n, al, eccl, cv, cw);
    }
  }

  /** The function patterns of `makeMatrix`, placed in the order the source places them. */
  method FixedPatterns(n: nat, aligns: seq<int>, codewordFormat: bv32, codewordVersion: bv32) returns (matrix: Grid)
    requires n >= 21 && AlignsFit(aligns, n)
    ensures matrix == Patterns(n, aligns, codewordFormat, codewordVersion)
  {
    matrix := PlaceFinders(n);
    BlockCells(matrix, 8, n - 8, 1, [1]);
    matrix := PlaceBlock(matrix, 8, n - 8, 1, [1]);
    matrix := PlaceTiming(matrix, n);
    AlignedGrows(matrix, n, aligns, 0, MinY(0, |aligns|));
    matrix := PlaceAlignments(matrix, n, aligns);
    assert matrix == Base(n, aligns);
    BaseShape(n, aligns);
    matrix := PlaceFormatInfo(matrix, n, codewordFormat);
    FormatInfoPlaced(Base(n, aligns), codewordFormat);
    matrix := PlaceVersionInfo(matrix, n, codewordVersion);
  }

  /** The three finder patterns with their separators, on an empty grid. */
  method PlaceFinders(n: nat) returns (matrix: Grid)
    requires n >= 21
    ensures matrix == Finders(n) && IsGrid(matrix, n)
  {
    matrix := EmptyGrid(n);
    BlockCells(matrix, 0, 0, 8, FINDER_TOP_LEFT);
    matrix := PlaceBlock(matrix, 0, 0, 8, FINDER_TOP_LEFT);
    BlockCells(matrix, n - 8, 0, 8, FINDER_TOP_RIGHT);
    matrix := PlaceBlock(matrix, n - 8, 0, 8, FINDER_TOP_RIGHT);
    BlockCells(matrix, 0, n - 8, 8, FINDER_BOTTOM_LEFT);
    matrix := PlaceBlock(matrix, 0, n - 8, 8, FINDER_BOTTOM_LEFT);
    FindersShape(n);
  }

  /**
   * `testScore` after the first `count` rounds of the loop of `makeMatrix`:
   * entry `k` is the penalty score of the symbol under mask `k`.
   */
  function MaskScores(n: nat, al: seq<int>, eccl: int, cv: bv32, cw: seq<Byte>, count: nat): (scores: seq<int>)
    requires Side(n) && IsEccl(eccl) && count <= MASK_COUNT
    ensures |scores| == count
  {
    seq(count, k requires 0 <= k < count => Penalty.Score(Symbol(n, al, eccl, cv, cw, k)))
  }

  /** One more round of the loop appends the score of the next mask. */
  lemma MaskScoresNext(n: nat, al: seq<int>, eccl: int, cv: bv32, cw: seq<Byte>, count: nat)
    requires Side(n) && IsEccl(eccl) && count < MASK_COUNT
    ensures MaskScores(n, al, eccl, cv, cw, count + 1)
         == MaskScores(n, al, eccl, cv, cw, count) + [Penalty.Score(Symbol(n, al, eccl, cv, cw, count))]
  {
    var s, t := MaskScores(n, al, eccl, cv, cw, count), MaskScores(n, al, eccl, cv, cw, count + 1);
    forall k | 0 <= k < count + 1
      ensures t[k] == (s + [Penalty.Score(Symbol(n, al, eccl, cv, cw, count))])[k]
    {
      if k < count {
        assert t[k] == s[k];
      }
    }
  }

  /**
   * The automatic mask of `makeMatrix`: each mask in turn re-applied with
   * `reMask` and scored with `maskTest`, the best one chosen, and the
   * symbol re-masked with it.
   */
  method AutoMask(matrix0: Grid, mapData: Grid, n: nat, al: seq<int>, eccl: int, cv: bv32, cw: seq<Byte>)
    returns (matrix: Grid, mask: int)
    requires Side(n) && IsEccl(eccl)
    requires matrix0 == Symbol(n, al, eccl, cv, cw, 0) && mapData == DataMap(n, al, eccl, cv, cw, 0)
    ensures Penalty.IsBest(MaskScores(n, al, eccl, cv, cw, MASK_COUNT), mask)
    ensures matrix == Symbol(n, al, eccl, cv, cw, mask)
  {
    var testScore;
    matrix, testScore := TestMasks(matrix0, mapData, n, al, eccl, cv, cw);
    mask := Penalty.SelectMask(testScore);
    matrix := RemaskTo(matrix, mapData, n, al, eccl, cv, cw, MASK_COUNT - 1, mask);
  }

  /** The loop of `makeMatrix` that scores every mask, leaving the symbol of the last one. */
  method TestMasks(matrix0: Grid, mapData: Grid, n: nat, al: seq<int>, eccl: int, cv: bv32, cw: seq<Byte>)
    returns (matrix: Grid, testScore: seq<int>)
    requires Side(n) && IsEccl(eccl)
    requires matrix0 == Symbol(n, al, eccl, cv, cw, 0) && mapData == DataMap(n, al, eccl, cv, cw, 0)
    ensures testScore == MaskScores(n, al, eccl, cv, cw, MASK_COUNT)
    ensures matrix == Symbol(n, al, eccl, cv, cw, MASK_COUNT - 1) && IsGrid(matrix, n)
  {
    matrix := matrix0;
    var score := ScoreFirst(matrix, n, al, eccl, cv, cw);
    testScore := [score];
    for i := 1 to MASK_COUNT
      invariant testScore == MaskScores(n, al, eccl, cv, cw, i)
      invariant matrix == Symbol(n, al, eccl, cv, cw, i - 1) && IsGrid(matrix, n)
    {
      matrix, score := TestMask(matrix, mapData, n, al, eccl, cv, cw, i);
      MaskScoresNext(n, al, eccl, cv, cw, i);
      testScore := testScore + [score];
    }
  }

  /** The first round of that loop: the symbol under mask 0 is scored as it is. */
  method ScoreFirst(matrix: Grid, n: nat, al: seq<int>, eccl: int, cv: bv32, cw: seq<Byte>) returns (score: int)
    requires Side(n) && IsEccl(eccl) && matrix == Symbol(n, al, eccl, cv, cw, 0)
    ensures [score] == MaskScores(n, al, eccl, cv, cw, 1)
  {
    score := Penalty.MaskTest(matrix);
  }

  /** One round of that loop: the symbol re-masked with mask `i` and scored. */
  method TestMask(matrix: Grid, mapData: Grid, n: nat, al: seq<int>, eccl: int, cv: bv32, cw: seq<Byte>, i: int)
    returns (matrix': Grid, score: int)
    requires Side(n) && IsEccl(eccl) && 0 < i < MASK_COUNT
    requires matrix == Symbol(n, al, eccl, cv, cw, i - 1)
    requires mapData == DataMap(n, al, eccl, cv, cw, 0)
    ensures matrix' == Symbol(n, al, eccl, cv, cw, i) && IsGrid(matrix', n)
    ensures score == Penalty.Score(Symbol(n, al, eccl, cv, cw, i))
  {
    matrix' := RemaskTo(matrix, mapData, n, al, eccl, cv, cw, i - 1, i);
    score := Penalty.MaskTest(matrix');
  }

  /** `reMask(mask)` on the symbol of mask `from`, with the data bits recorded under mask 0. */
  method RemaskTo(matrix: Grid, mapData: Grid, n: nat, al: seq<int>, eccl: int, cv: bv32, cw: seq<Byte>, from: int, mask: int)
    returns (matrix': Grid)
    requires Side(n) && IsEccl(eccl) && 0 <= from < MASK_COUNT && 0 <= mask < MASK_COUNT
    requires matrix == Symbol(n, al, eccl, cv, cw, from) && mapData == DataMap(n, al, eccl, cv, cw, 0)
    ensures matrix' == Symbol(n, al, eccl, cv, cw, mask) && IsGrid(matrix', n)
  {
    SymbolRemask(n, al, eccl, cv, cw, 0, from);
    SymbolRemask(n, al, eccl, cv, cw, from, mask);
    FormatInfo.FormatListed(eccl, mask);
    matrix' := ReMask(matrix, mapData, n, FormatInfo.MakeCodewordFormat(eccl, mask), mask);
  }
}
