/**
 * The module grid of `makeMatrix` (ISO/IEC 18004, sections 6.3 and 7.7):
 * a square of cells that are still empty (`null` in the source) or hold a
 * module bit, the function patterns written onto it, the zig-zag placement
 * of the codeword bit stream, and re-masking.
 */
module Matrix {
  import opened BitStream
  import opened Iso
  import FormatInfo

  /** A module: `null` until something is placed there, then 0 or 1. */
  datatype Cell = Null | Val(bit: Bit)

  /** The matrix as a sequence of rows; `g[r][c]` is `matrix[r][c]`. */
  type Grid = seq<seq<Cell>>

  /** An `n` by `n` grid. */
  predicate IsGrid(g: Grid, n: nat)
  {
    |g| == n && forall r :: 0 <= r < n ==> |g[r]| == n
  }

  /** Same shape, and no module that was placed is emptied again. */
  predicate Grows(g: Grid, h: Grid)
  {
    && |h| == |g|
    && (forall r :: 0 <= r < |g| ==> |h[r]| == |g[r]|)
    && (forall r, c :: 0 <= r < |g| && 0 <= c < |g[r]| && g[r][c] != Null ==> h[r][c] != Null)
  }

  /** `matrix[r][c] = v`. */
  function Set(g: Grid, r: nat, c: nat, v: Cell): (h: Grid)
    requires r < |g| && c < |g[r]|
  {
    g[r := g[r][c := v]]
  }

  /** Two cells set to the same value, as in `matrix[r1][c1] = matrix[r2][c2] = v`. */
  lemma SetTwice(g: Grid, n: nat, r1: nat, c1: nat, r2: nat, c2: nat, v: Cell)
    requires IsGrid(g, n) && r1 < n && c1 < n && r2 < n && c2 < n
    ensures IsGrid(Set(Set(g, r1, c1, v), r2, c2, v), n)
    ensures forall r, c :: 0 <= r < n && 0 <= c < n ==>
      Set(Set(g, r1, c1, v), r2, c2, v)[r][c] == if (r == r1 && c == c1) || (r == r2 && c == c2) then v else g[r][c]
  {
  }

  /** A grid of `n` rows of `n` empty cells. */
  function EmptyGrid(n: nat): (g: Grid)
    ensures IsGrid(g, n)
    ensures forall r, c :: 0 <= r < n && 0 <= c < n ==> g[r][c] == Null
  {
    seq(n, r => seq(n, c => Null))
  }

  /** `(word >> i) & 1` for a non-negative word. */
  function WordBit(word: nat, i: nat): Bit
  {
    ShiftRight(word, i) % 2
  }

  /** `(code >> i) & 1` for a format or version codeword. */
  function CodeBit(code: bv32, i: nat): Bit
    requires i < 32
  {
    if (code >> i) & 1 == 1 then 1 else 0
  }

  // ---------------------------------------------------------------- blocks

  /** Whether `(r, c)` lies in the block of `h` rows and `w` columns whose top-left cell is `(y, x)`. */
  predicate InBlock(x: int, y: int, w: int, h: int, r: int, c: int)
  {
    y <= r < y + h && x <= c < x + w
  }

  /**
   * The grid after `placeBlock(x, y, w, words)`: row `y + j` holds, from
   * column `x` on, the `w` low bits of `words[j]`, least significant first.
   */
  function WithBlock(g: Grid, x: int, y: int, w: nat, words: seq<nat>): (h: Grid)
  {
    seq(|g|, r requires 0 <= r < |g| =>
      seq(|g[r]|, c requires 0 <= c < |g[r]| =>
        if InBlock(x, y, w, |words|, r, c) then Val(WordBit(words[r - y], c - x)) else g[r][c]))
  }

  /** The cell `(r, c)` once the first `j` rows and `i` more cells of the block are written. */
  function BlockSoFar(g: Grid, x: int, y: int, w: nat, words: seq<nat>, j: int, i: int, r: nat, c: nat): Cell
    requires r < |g| && c < |g[r]|
  {
    if InBlock(x, y, w, |words|, r, c) && (r - y < j || (r - y == j && c - x < i))
    then Val(WordBit(words[r - y], c - x))
    else g[r][c]
  }

  /** `placeBlock(x, y, w, listWords)`. */
  method PlaceBlock(g: Grid, x: nat, y: nat, w: nat, words: seq<nat>) returns (matrix: Grid)
    requires y + |words| <= |g| && forall r :: 0 <= r < |g| ==> x + w <= |g[r]|
    ensures matrix == WithBlock(g, x, y, w, words)
  {
    matrix := g;
    for j := 0 to |words|
      invariant |matrix| == |g| && forall r :: 0 <= r < |g| ==> |matrix[r]| == |g[r]|
      invariant forall r, c :: 0 <= r < |g| && 0 <= c < |g[r]| ==>
        matrix[r][c] == BlockSoFar(g, x, y, w, words, j, 0, r, c)
    {
      for i := 0 to w
        invariant |matrix| == |g| && forall r :: 0 <= r < |g| ==> |matrix[r]| == |g[r]|
        invariant forall r, c :: 0 <= r < |g| && 0 <= c < |g[r]| ==>
          matrix[r][c] == BlockSoFar(g, x, y, w, words, j, i, r, c)
      {
        matrix := Set(matrix, y + j, x + i, Val(WordBit(words[j], i)));
      }
    }
    assert forall r :: 0 <= r < |g| ==> matrix[r] == WithBlock(g, x, y, w, words)[r];
  }

  /** A block writes exactly its own cells, and leaves a placed module placed. */
  lemma BlockCells(g: Grid, x: int, y: int, w: nat, words: seq<nat>)
    ensures Grows(g, WithBlock(g, x, y, w, words))
    ensures forall r, c :: 0 <= r < |g| && 0 <= c < |g[r]| && InBlock(x, y, w, |words|, r, c) ==>
      WithBlock(g, x, y, w, words)[r][c] == Val(WordBit(words[r - y], c - x))
    ensures forall r, c :: 0 <= r < |g| && 0 <= c < |g[r]| && !InBlock(x, y, w, |words|, r, c) ==>
      WithBlock(g, x, y, w, words)[r][c] == g[r][c]
  {
  }

  // ---------------------------------------------------------------- timing

  /** The grid with timing cells `(i, 6)` and `(6, i)`, `8 <= i < upto`, set to `~i & 1`. */
  function WithTiming(g: Grid, upto: int): (h: Grid)
  {
    seq(|g|, r requires 0 <= r < |g| =>
      seq(|g[r]|, c requires 0 <= c < |g[r]| =>
        if c == 6 && 8 <= r < upto then Val(1 - r % 2)
        else if r == 6 && 8 <= c < upto then Val(1 - c % 2)
        else g[r][c]))
  }

  /** The timing patterns: row 6 and column 6 alternate dark and light between the finders. */
  method PlaceTiming(g: Grid, n: nat) returns (matrix: Grid)
    requires IsGrid(g, n) && n >= 21
    ensures matrix == WithTiming(g, n - 8)
  {
    matrix := g;
    for i := 8 to n - 8
      invariant IsGrid(matrix, n)
      invariant forall r, c :: 0 <= r < n && 0 <= c < n ==> matrix[r][c] == WithTiming(g, i)[r][c]
    {
      SetTwice(matrix, n, i, 6, 6, i, Val(1 - i % 2));
      matrix := Set(matrix, i, 6, Val(1 - i % 2));
      matrix := Set(matrix, 6, i, Val(1 - i % 2));
    }
    assert forall r :: 0 <= r < n ==> matrix[r] == WithTiming(g, n - 8)[r];
  }

  // ---------------------------------------------------------------- format information

  /** The rows of the format bits in column 8, bit 0 first (`y` in `placeFormatInfo`). */
  function FormatRows(n: int): seq<int>
  {
    [0, 1, 2, 3, 4, 5, 7, 8, n - 7, n - 6, n - 5, n - 4, n - 3, n - 2, n - 1]
  }

  /** The columns of the format bits in row 8, bit 0 first (`x` in `placeFormatInfo`). */
  function FormatCols(n: int): seq<int>
  {
    [n - 1, n - 2, n - 3, n - 4, n - 5, n - 6, n - 7, n - 8, 7, 5, 4, 3, 2, 1, 0]
  }

  /** Which format bit column 8 holds at row `r`, or -1. */
  function RowSlot(n: int, r: int): int
  {
    if 0 <= r <= 5 then r
    else if r == 7 || r == 8 then r - 1
    else if n - 7 <= r < n then r - n + 15
    else -1
  }

  /** Which format bit row 8 holds at column `c`, or -1. */
  function ColSlot(n: int, c: int): int
  {
    if n - 8 <= c < n then n - 1 - c
    else if c == 7 then 8
    else if 0 <= c <= 5 then 14 - c
    else -1
  }

  /** The slot functions invert the position lists. */
  lemma Slots(n: int)
    requires n >= 21
    ensures forall i :: 0 <= i < 15 ==> RowSlot(n, FormatRows(n)[i]) == i && ColSlot(n, FormatCols(n)[i]) == i
    ensures forall r :: 0 <= RowSlot(n, r) ==> RowSlot(n, r) < 15 && FormatRows(n)[RowSlot(n, r)] == r
    ensures forall c :: 0 <= ColSlot(n, c) ==> ColSlot(n, c) < 15 && FormatCols(n)[ColSlot(n, c)] == c
    ensures ColSlot(n, 8) == -1
  {
  }

  /** The cell `(r, c)` once format bits `0 <= i < upto` of `f` are written to both copies. */
  function FormatSoFar(g: Grid, f: bv32, upto: int, r: nat, c: nat): Cell
    requires r < |g| && c < |g[r]|
  {
    var n := |g|;
    if r == 8 && 0 <= ColSlot(n, c) < upto then Val(CodeBit(f, ColSlot(n, c)))
    else if c == 8 && 0 <= RowSlot(n, r) < upto then Val(CodeBit(f, RowSlot(n, r)))
    else g[r][c]
  }

  /** The grid once the format bits of `f` are written to both copies. */
  function WithFormat(g: Grid, f: bv32): (h: Grid)
  {
    seq(|g|, r requires 0 <= r < |g| => seq(|g[r]|, c requires 0 <= c < |g[r]| => FormatSoFar(g, f, 15, r, c)))
  }

  /** Both copies of the format information hold the bits of `f`, bit 0 first. */
  predicate FormatPlaced(g: Grid, f: bv32)
    requires IsGrid(g, |g|) && |g| >= 21
  {
    var n := |g|;
    forall i :: 0 <= i < 15 ==>
      g[8][FormatCols(n)[i]] == Val(CodeBit(f, i)) && g[FormatRows(n)[i]][8] == Val(CodeBit(f, i))
  }

  /** Whether `(r, c)` is one of the 30 format information cells. */
  predicate FormatCell(n: int, r: int, c: int)
  {
    (r == 8 && ColSlot(n, c) >= 0) || (c == 8 && RowSlot(n, r) >= 0)
  }

  /** Format bit `i` sits at row `FormatRows(n)[i]` of column 8 and at column `FormatCols(n)[i]` of row 8, and nowhere else. */
  lemma Slot(n: int, i: int)
    requires n >= 21 && 0 <= i < 15
    ensures 0 <= FormatRows(n)[i] < n && 0 <= FormatCols(n)[i] < n
    ensures RowSlot(n, FormatRows(n)[i]) == i && ColSlot(n, FormatCols(n)[i]) == i
    ensures forall r :: RowSlot(n, r) == i ==> r == FormatRows(n)[i]
    ensures forall c :: ColSlot(n, c) == i ==> c == FormatCols(n)[i]
  {
  }

  /** Writing format bit `i` changes its two cells and no other. */
  lemma FormatStep(g: Grid, f: bv32, i: int)
    requires IsGrid(g, |g|) && |g| >= 21 && 0 <= i < 15
    ensures forall r, c :: 0 <= r < |g| && 0 <= c < |g| ==>
      FormatSoFar(g, f, i + 1, r, c) ==
        if (r == 8 && c == FormatCols(|g|)[i]) || (c == 8 && r == FormatRows(|g|)[i]) then Val(CodeBit(f, i))
        else FormatSoFar(g, f, i, r, c)
  {
    forall r, c | 0 <= r < |g| && 0 <= c < |g| {
      FormatStepCell(g, f, i, r, c);
    }
  }

  /** `FormatStep` for the single cell `(r, c)`. */
  lemma FormatStepCell(g: Grid, f: bv32, i: int, r: nat, c: nat)
    requires IsGrid(g, |g|) && |g| >= 21 && 0 <= i < 15 && r < |g| && c < |g|
    ensures FormatSoFar(g, f, i + 1, r, c) ==
        if (r == 8 && c == FormatCols(|g|)[i]) || (c == 8 && r == FormatRows(|g|)[i]) then Val(CodeBit(f, i))
        else FormatSoFar(g, f, i, r, c)
  {
    var n := |g|;
    Slot(n, i);
    assert ColSlot(n, 8) == -1;
    if r == 8 && c == FormatCols(n)[i] {
      assert ColSlot(n, c) == i;
    } else if c == 8 && r == FormatRows(n)[i] {
      assert RowSlot(n, r) == i;
    } else {
      assert !(r == 8 && ColSlot(n, c) == i);
      assert !(c == 8 && RowSlot(n, r) == i);
    }
  }

  /** One turn of the loop of `placeFormatInfo` keeps the grid in step with `FormatSoFar`. */
  lemma FormatAdvance(g: Grid, m: Grid, f: bv32, i: int)
    requires IsGrid(g, |g|) && |g| >= 21 && 0 <= i < 15 && IsGrid(m, |g|)
    requires forall r, c :: 0 <= r < |g| && 0 <= c < |g| ==> m[r][c] == FormatSoFar(g, f, i, r, c)
    ensures 0 <= FormatRows(|g|)[i] < |g| && 0 <= FormatCols(|g|)[i] < |g|
    ensures var m' := Set(Set(m, FormatRows(|g|)[i], 8, Val(CodeBit(f, i))), 8, FormatCols(|g|)[i], Val(CodeBit(f, i)));
      IsGrid(m', |g|) && forall r, c :: 0 <= r < |g| && 0 <= c < |g| ==> m'[r][c] == FormatSoFar(g, f, i + 1, r, c)
  {
    Slot(|g|, i);
    FormatStep(g, f, i);
    SetTwice(m, |g|, FormatRows(|g|)[i], 8, 8, FormatCols(|g|)[i], Val(CodeBit(f, i)));
  }

  /** `placeFormatInfo(codewordFormat)`. */
  method PlaceFormatInfo(g: Grid, n: nat, f: bv32) returns (matrix: Grid)
    requires IsGrid(g, n) && n >= 21
    ensures matrix == WithFormat(g, f)
  {
    var y := FormatRows(n);
    var x := FormatCols(n);
    matrix := g;
    for i := 0 to 15
      invariant IsGrid(matrix, n)
      invariant forall r, c :: 0 <= r < n && 0 <= c < n ==> matrix[r][c] == FormatSoFar(g, f, i, r, c)
    {
      FormatAdvance(g, matrix, f, i);
      var bit := CodeBit(f, i);
      matrix := Set(matrix, y[i], 8, Val(bit));
      matrix := Set(matrix, 8, x[i], Val(bit));
    }
    assert forall r :: 0 <= r < n ==> matrix[r] == WithFormat(g, f)[r];
  }

  /** Every format bit lands in both copies; the other cells are untouched. */
  lemma FormatInfoPlaced(g: Grid, f: bv32)
    requires IsGrid(g, |g|) && |g| >= 21
    ensures IsGrid(WithFormat(g, f), |g|)
    ensures FormatPlaced(WithFormat(g, f), f)
    ensures forall r, c :: 0 <= r < |g| && 0 <= c < |g| && !FormatCell(|g|, r, c) ==> WithFormat(g, f)[r][c] == g[r][c]
  {
    Slots(|g|);
  }

  // ---------------------------------------------------------------- version information

  /**
   * The cell `(r, c)` once version bits `0 <= k < upto` of `cv` are
   * written: bit `k = 3 * y + x` goes to `(y, n - 11 + x)` and to
   * `(n - 11 + x, y)`.
   */
  function VersionSoFar(g: Grid, cv: bv32, upto: int, r: nat, c: nat): Cell
    requires r < |g| && c < |g[r]|
  {
    var n := |g|;
    if r < 6 && n - 11 <= c < n - 8 && 3 * r + c - (n - 11) < upto then Val(CodeBit(cv, 3 * r + c - (n - 11)))
    else if c < 6 && n - 11 <= r < n - 8 && 3 * c + r - (n - 11) < upto then Val(CodeBit(cv, 3 * c + r - (n - 11)))
    else g[r][c]
  }

  /** The grid once the 18 version bits of `cv` are written to both blocks. */
  function WithVersion(g: Grid, cv: bv32): (h: Grid)
  {
    seq(|g|, r requires 0 <= r < |g| => seq(|g[r]|, c requires 0 <= c < |g[r]| => VersionSoFar(g, cv, 18, r, c)))
  }

  /** The two version blocks are transposes of each other and hold the bits of `cv`. */
  predicate VersionPlaced(g: Grid, cv: bv32)
    requires IsGrid(g, |g|) && |g| >= 21
  {
    var n := |g|;
    forall y, c :: 0 <= y < 6 && n - 11 <= c < n - 8 ==>
      g[y][c] == g[c][y] == Val(CodeBit(cv, 3 * y + c - (n - 11)))
  }

  /** Whether `(r, c)` is one of the 36 version information cells. */
  predicate VersionCell(n: int, r: int, c: int)
  {
    (r < 6 && n - 11 <= c < n - 8) || (c < 6 && n - 11 <= r < n - 8)
  }

  /** The version information, written only when the codeword is not 0 (versions 7 and up). */
  method PlaceVersionInfo(g: Grid, n: nat, cv: bv32) returns (matrix: Grid)
    requires IsGrid(g, n) && n >= 21
    ensures matrix == if cv != 0 then WithVersion(g, cv) else g
  {
    matrix := g;
    if cv != 0 {
      var k := 0;
      for y := 0 to 6
        invariant IsGrid(matrix, n) && k == 3 * y
        invariant forall r, c :: 0 <= r < n && 0 <= c < n ==> matrix[r][c] == VersionSoFar(g, cv, k, r, c)
      {
        for x := 0 to 3
          invariant IsGrid(matrix, n) && k == 3 * y + x
          invariant forall r, c :: 0 <= r < n && 0 <= c < n ==> matrix[r][c] == VersionSoFar(g, cv, k, r, c)
        {
          VersionStep(g, cv, y, x, k);
          var bit := CodeBit(cv, k);
          SetTwice(matrix, n, n - 11 + x, y, y, n - 11 + x, Val(bit));
          matrix := Set(matrix, n - 11 + x, y, Val(bit));
          matrix := Set(matrix, y, n - 11 + x, Val(bit));
          k := k + 1;
        }
      }
      assert forall r :: 0 <= r < n ==> matrix[r] == WithVersion(g, cv)[r];
    }
  }

  /** Writing version bit `3 * y + x` changes its two cells and no other. */
  lemma VersionStep(g: Grid, cv: bv32, y: int, x: int, k: int)
    requires IsGrid(g, |g|) && |g| >= 21 && 0 <= y < 6 && 0 <= x < 3 && k == 3 * y + x
    ensures forall r, c :: 0 <= r < |g| && 0 <= c < |g| ==>
      VersionSoFar(g, cv, k + 1, r, c) ==
        if (r == y && c == |g| - 11 + x) || (c == y && r == |g| - 11 + x) then Val(CodeBit(cv, k))
        else VersionSoFar(g, cv, k, r, c)
  {
    forall r, c | 0 <= r < |g| && 0 <= c < |g|
      ensures VersionSoFar(g, cv, k + 1, r, c) ==
        if (r == y && c == |g| - 11 + x) || (c == y && r == |g| - 11 + x) then Val(CodeBit(cv, k))
        else VersionSoFar(g, cv, k, r, c)
    {
      VersionStepCell(g, cv, y, x, k, r, c);
    }
  }

  /** `VersionStep` for the single cell `(r, c)`. */
  lemma VersionStepCell(g: Grid, cv: bv32, y: int, x: int, k: int, r: nat, c: nat)
    requires IsGrid(g, |g|) && |g| >= 21 && 0 <= y < 6 && 0 <= x < 3 && k == 3 * y + x && r < |g| && c < |g|
    ensures VersionSoFar(g, cv, k + 1, r, c) ==
        if (r == y && c == |g| - 11 + x) || (c == y && r == |g| - 11 + x) then Val(CodeBit(cv, k))
        else VersionSoFar(g, cv, k, r, c)
  {
    var n := |g|;
    if r < 6 && n - 11 <= c < n - 8 && 3 * r + c - (n - 11) == k {
      assert r == y && c == n - 11 + x;
    } else if c < 6 && n - 11 <= r < n - 8 && 3 * c + r - (n - 11) == k {
      assert c == y && r == n - 11 + x;
    }
  }

  /** Both version blocks hold the codeword, and nothing else changes. */
  lemma VersionInfoPlaced(g: Grid, cv: bv32)
    requires IsGrid(g, |g|) && |g| >= 21
    ensures IsGrid(WithVersion(g, cv), |g|)
    ensures VersionPlaced(WithVersion(g, cv), cv)
    ensures forall r, c :: 0 <= r < |g| && 0 <= c < |g| && !VersionCell(|g|, r, c) ==> WithVersion(g, cv)[r][c] == g[r][c]
  {
  }

  // ---------------------------------------------------------------- alignment patterns

  /** The 5 by 5 alignment pattern, one word per row. */
  const ALIGNMENT_WORDS: seq<nat> := [0x1f, 0x11, 0x15, 0x11, 0x1f]

  /** The first row index paired with column index `x`: the corners next to a finder are skipped. */
  function MinY(x: int, m: int): nat
  {
    if x == 0 || x == m - 1 then 1 else 0
  }

  /** One past the last row index paired with column index `x`. */
  function MaxY(x: int, m: int): int
  {
    if x == 0 then m - 1 else m
  }

  /** Every alignment coordinate leaves room for a 5 by 5 block in a side of `n`. */
  predicate AlignsFit(al: seq<int>, n: int)
  {
    forall k :: 0 <= k < |al| ==> 0 <= al[k] && al[k] + 5 <= n
  }

  /**
   * The grid once the alignment patterns from index pair `(x, y)` on are
   * placed, in the order of the nested loops of `makeMatrix`.
   */
  function Aligned(g: Grid, al: seq<int>, x: nat, y: nat): (h: Grid)
    requires x <= |al|
    decreases |al| - x, |al| - y
  {
    if x == |al| then g
    else if y >= MaxY(x, |al|) then Aligned(g, al, x + 1, MinY(x + 1, |al|))
    else Aligned(WithBlock(g, al[x], al[y], 5, ALIGNMENT_WORDS), al, x, y + 1)
  }

  /** The alignment patterns at every pair of `aligns` coordinates except the three finder corners. */
  method PlaceAlignments(g: Grid, n: nat, aligns: seq<int>) returns (matrix: Grid)
    requires IsGrid(g, n) && AlignsFit(aligns, n)
    ensures matrix == Aligned(g, aligns, 0, MinY(0, |aligns|))
  {
    matrix := g;
    var m := |aligns|;
    for x := 0 to m
      invariant IsGrid(matrix, n)
      invariant Aligned(matrix, aligns, x, MinY(x, m)) == Aligned(g, aligns, 0, MinY(0, m))
    {
      var miny, maxy := MinY(x, m), MaxY(x, m);
      var y := miny;
      while y < maxy
        invariant IsGrid(matrix, n) && y >= miny
        invariant Aligned(matrix, aligns, x, y) == Aligned(g, aligns, 0, MinY(0, m))
      {
        matrix := PlaceBlock(matrix, aligns[x], aligns[y], 5, ALIGNMENT_WORDS);
        y := y + 1;
      }
    }
  }

  /** Alignment patterns keep the grid square and every placed module placed. */
  lemma {:induction false} AlignedGrows(g: Grid, n: nat, al: seq<int>, x: nat, y: nat)
    requires IsGrid(g, n) && x <= |al|
    ensures IsGrid(Aligned(g, al, x, y), n) && Grows(g, Aligned(g, al, x, y))
    decreases |al| - x, |al| - y
  {
    if x == |al| {
    } else if y >= MaxY(x, |al|) {
      AlignedGrows(g, n, al, x + 1, MinY(x + 1, |al|));
    } else {
      var g' := WithBlock(g, al[x], al[y], 5, ALIGNMENT_WORDS);
      BlockCells(g, al[x], al[y], 5, ALIGNMENT_WORDS);
      AlignedGrows(g', n, al, x, y + 1);
    }
  }

  // ---------------------------------------------------------------- function patterns

  /** The finder patterns with their separators, one word per row. */
  const FINDER_TOP_LEFT: seq<nat> := [0x7f, 0x41, 0x5d, 0x5d, 0x5d, 0x41, 0x7f, 0x0]
  const FINDER_TOP_RIGHT: seq<nat> := [0xfe, 0x82, 0xba, 0xba, 0xba, 0x82, 0xfe, 0x0]
  const FINDER_BOTTOM_LEFT: seq<nat> := [0x0, 0x7f, 0x41, 0x5d, 0x5d, 0x5d, 0x41, 0x7f]

  /** The empty grid with the three finder patterns and their separators. */
  function Finders(n: nat): (g: Grid)
    requires n >= 21
  {
    var g1 := WithBlock(EmptyGrid(n), 0, 0, 8, FINDER_TOP_LEFT);
    var g2 := WithBlock(g1, n - 8, 0, 8, FINDER_TOP_RIGHT);
    WithBlock(g2, 0, n - 8, 8, FINDER_BOTTOM_LEFT)
  }

  /** The grid with the finders, the dark module, the timing and the alignment patterns. */
  function Base(n: nat, al: seq<int>): (g: Grid)
    requires n >= 21
  {
    var g4 := WithBlock(Finders(n), 8, n - 8, 1, [1]);
    var g5 := WithTiming(g4, n - 8);
    Aligned(g5, al, 0, MinY(0, |al|))
  }

  /** All function patterns of `makeMatrix`, with format codeword `f` and version codeword `cv`. */
  function Patterns(n: nat, al: seq<int>, f: bv32, cv: bv32): (g: Grid)
    requires n >= 21
  {
    var g7 := WithFormat(Base(n, al), f);
    if cv != 0 then WithVersion(g7, cv) else g7
  }

  /** The finders cover column 6 above row 8 and from row `n - 8` down. */
  lemma FindersShape(n: nat)
    requires n >= 21
    ensures IsGrid(Finders(n), n)
    ensures forall r :: 0 <= r < n && (r < 8 || n - 8 <= r) ==> Finders(n)[r][6] != Null
  {
    var g1 := WithBlock(EmptyGrid(n), 0, 0, 8, FINDER_TOP_LEFT);
    var g2 := WithBlock(g1, n - 8, 0, 8, FINDER_TOP_RIGHT);
    BlockCells(EmptyGrid(n), 0, 0, 8, FINDER_TOP_LEFT);
    BlockCells(g1, n - 8, 0, 8, FINDER_TOP_RIGHT);
    BlockCells(g2, 0, n - 8, 8, FINDER_BOTTOM_LEFT);
  }

  /** The base grid is square and its column 6 (the vertical timing pattern and the finders) is fully placed. */
  lemma BaseShape(n: nat, al: seq<int>)
    requires n >= 21
    ensures IsGrid(Base(n, al), n)
    ensures forall r :: 0 <= r < n ==> Base(n, al)[r][6] != Null
  {
    FindersShape(n);
    var g4 := WithBlock(Finders(n), 8, n - 8, 1, [1]);
    BlockCells(Finders(n), 8, n - 8, 1, [1]);
    var g5 := WithTiming(g4, n - 8);
    assert forall r :: 0 <= r < n ==> g5[r][6] != Null;
    AlignedGrows(g5, n, al, 0, MinY(0, |al|));
  }

  /** The version blocks do not touch the format cells. */
  lemma FormatOutsideVersion(n: int)
    requires n >= 21
    ensures forall i :: 0 <= i < 15 ==> !VersionCell(n, 8, FormatCols(n)[i]) && !VersionCell(n, FormatRows(n)[i], 8)
  {
  }

  /** The function patterns form an `n` by `n` grid. */
  lemma PatternsGrid(n: nat, al: seq<int>, f: bv32, cv: bv32)
    requires n >= 21
    ensures IsGrid(Patterns(n, al, f, cv), n)
  {
    PatternsShape(n, al, f, cv);
  }

  /**
   * The function patterns are square, column 6 is fully placed, both
   * copies of the format information hold `f` and, when there is a
   * version codeword, both version blocks hold it.
   */
  lemma PatternsShape(n: nat, al: seq<int>, f: bv32, cv: bv32)
    requires n >= 21
    ensures IsGrid(Patterns(n, al, f, cv), n)
    ensures forall r :: 0 <= r < n ==> Patterns(n, al, f, cv)[r][6] != Null
    ensures FormatPlaced(Patterns(n, al, f, cv), f)
    ensures cv != 0 ==> VersionPlaced(Patterns(n, al, f, cv), cv)
  {
    BaseShape(n, al);
    var g7 := WithFormat(Base(n, al), f);
    FormatInfoPlaced(Base(n, al), f);
    ColumnSixKept(n, Base(n, al), g7);
    if cv != 0 {
      VersionInfoPlaced(g7, cv);
      ColumnSixKept(n, g7, WithVersion(g7, cv));
      FormatBesideVersion(g7, WithVersion(g7, cv), f);
    }
  }

  /** Column 6 holds neither format nor version cells, so writing those keeps it. */
  lemma ColumnSixKept(n: nat, g: Grid, h: Grid)
    requires n >= 21 && IsGrid(g, n) && IsGrid(h, n)
    requires forall r :: 0 <= r < n ==> g[r][6] != Null
    requires forall r, c :: 0 <= r < n && 0 <= c < n && !FormatCell(n, r, c) && !VersionCell(n, r, c) ==> h[r][c] == g[r][c]
    ensures forall r :: 0 <= r < n ==> h[r][6] != Null
  {
    forall r | 0 <= r < n
      ensures h[r][6] != Null
    {
      assert ColSlot(n, 6) == -1;
      assert !FormatCell(n, r, 6) && !VersionCell(n, r, 6);
    }
  }

  /** Writing the version blocks keeps the format information. */
  lemma FormatBesideVersion(g: Grid, h: Grid, f: bv32)
    requires |g| >= 21 && IsGrid(g, |g|) && IsGrid(h, |g|) && FormatPlaced(g, f)
    requires forall r, c :: 0 <= r < |g| && 0 <= c < |g| && !VersionCell(|g|, r, c) ==> h[r][c] == g[r][c]
    ensures FormatPlaced(h, f)
  {
    var n := |g|;
    FormatOutsideVersion(n);
    forall i | 0 <= i < 15
      ensures h[8][FormatCols(n)[i]] == Val(CodeBit(f, i)) && h[FormatRows(n)[i]][8] == Val(CodeBit(f, i))
    {
      Slot(n, i);
    }
  }

  // ---------------------------------------------------------------- codeword placement

  /** The placed modules and, beside them, the unmasked data bits (`mapData`). */
  datatype Layers = Layers(matrix: Grid, mapData: Grid)

  /**
   * Bit `k` of the codeword stream, most significant bit of each codeword
   * first: `(codewordsQR[k >> 3] >> (~k & 7)) & 1`, which is 0 once `k`
   * runs past the last codeword.
   */
  function DataBit(cw: seq<Byte>, k: nat): Bit
  {
    if k / 8 < |cw| then ShiftRight(cw[k / 8], 7 - k % 8) % 2 else 0
  }

  /** `bit ^ MASKFUNCS[mask](row, col)`. */
  function Flip(bit: Bit, mask: int, row: nat, col: nat): Bit
    requires 0 <= mask < MASK_COUNT
  {
    if MaskCondition(mask, row, col) then 1 - bit else bit
  }

  /** `if (x === 6) --x`: the vertical timing column is never the right column of a pair. */
  function SkipTiming(x: int): int
  {
    if x == 6 then 5 else x
  }

  /** The right columns of the column pairs, from `n - 1` down to 1 (7 is paired with 8, 6 is skipped). */
  predicate PairColumn(n: int, x: int)
  {
    (1 <= x <= 5 && x % 2 == 1) || (8 <= x < n && x % 2 == 0)
  }

  /** The right column of the pair that holds column `c`. */
  function PairOf(c: int): int
  {
    if c > 6 then (if c % 2 == 0 then c else c + 1)
    else if c % 2 == 1 then c else c + 1
  }

  /** The matrix side the placement works on. */
  predicate Side(n: int)
  {
    n >= 21 && n % 2 == 1
  }

  predicate Fits(L: Layers, n: nat)
  {
    IsGrid(L.matrix, n) && IsGrid(L.mapData, n)
  }

  /**
   * The placement of the codeword stream from the state of the loops of
   * `makeMatrix` on: column pair with right column `x` (or `x < 0` once
   * done), rows walked upwards when `up`, `y` rows of the pair done, and
   * column `i` next in the current row; `k` bits placed so far. Each empty
   * module gets the next bit, masked, and `mapData` records the bit.
   */
  function Fill(L: Layers, n: nat, cw: seq<Byte>, mask: int, x: int, up: bool, y: nat, i: int, k: nat): (R: Layers)
    requires Side(n) && Fits(L, n) && 0 <= mask < MASK_COUNT
    requires x < 0 || (PairColumn(n, x) && y <= n && x - 2 <= i <= x)
    ensures Fits(R, n)
    decreases x + 1, n - y, i - x + 2
  {
    if x < 0 then L
    else if y == n then
      var x' := SkipTiming(x - 2);
      Fill(L, n, cw, mask, x', !up, 0, x', k)
    else if i == x - 2 then Fill(L, n, cw, mask, x, up, y + 1, x, k)
    else
      var j := if up then n - y - 1 else y;
      if L.matrix[j][i] == Null then
        var bit := DataBit(cw, k);
        Fill(Layers(Set(L.matrix, j, i, Val(Flip(bit, mask, j, i))), Set(L.mapData, j, i, Val(bit))),
             n, cw, mask, x, up, y, i - 1, k + 1)
      else
        Fill(L, n, cw, mask, x, up, y, i - 1, k)
  }

  /** The whole placement, from the bottom right corner upwards. */
  function Placed(g: Grid, n: nat, cw: seq<Byte>, mask: int): (R: Layers)
    requires Side(n) && IsGrid(g, n) && 0 <= mask < MASK_COUNT
    ensures Fits(R, n)
  {
    Fill(Layers(g, EmptyGrid(n)), n, cw, mask, n - 1, true, 0, n - 1, 0)
  }

  /**
   * The zig-zag loop of `makeMatrix`: codeword bits fill the empty modules
   * of each pair of columns, right to left, alternately upwards and
   * downwards; `mapData` is kept only when the mask is chosen automatically.
   */
  method PlaceCodewords(g: Grid, n: nat, cw: seq<Byte>, mask: int, isMaskAuto: bool) returns (matrix: Grid, mapData: Grid)
    requires Side(n) && IsGrid(g, n) && 0 <= mask < MASK_COUNT
    ensures matrix == Placed(g, n, cw, mask).matrix
    ensures isMaskAuto ==> mapData == Placed(g, n, cw, mask).mapData
  {
    matrix := g;
    mapData := if isMaskAuto then EmptyGrid(n) else [];
    ghost var shadow := EmptyGrid(n);
    ghost var target := Placed(g, n, cw, mask);
    var x := n - 1;
    var k := 0;
    var direction := -1;
    while x > -1
      invariant x == -1 || x == 6 || PairColumn(n, x)
      invariant Fits(Layers(matrix, shadow), n) && (isMaskAuto ==> mapData == shadow)
      invariant Fill(Layers(matrix, shadow), n, cw, mask, SkipTiming(x), direction < 0, 0, SkipTiming(x), k) == target
      invariant direction == 1 || direction == -1
      decreases x
    {
      if x == 6 {
        x := x - 1;
      }
      for y := 0 to n
        invariant Fits(Layers(matrix, shadow), n) && (isMaskAuto ==> mapData == shadow)
        invariant Fill(Layers(matrix, shadow), n, cw, mask, x, direction < 0, y, x, k) == target
      {
        matrix, mapData, shadow, k := PlaceRow(matrix, mapData, shadow, n, cw, mask, isMaskAuto, x, direction < 0, y, k);
      }
      direction := -direction;
      x := x - 2;
    }
  }

  /** The inner loop of the zig-zag: the two modules of one row of a column pair, right one first. */
  method PlaceRow(matrix: Grid, mapData: Grid, ghost shadow: Grid, n: nat, cw: seq<Byte>, mask: int, isMaskAuto: bool,
                  x: int, up: bool, y: nat, k: nat)
    returns (matrix': Grid, mapData': Grid, ghost shadow': Grid, k': nat)
    requires Side(n) && Fits(Layers(matrix, shadow), n) && 0 <= mask < MASK_COUNT
    requires PairColumn(n, x) && y < n && (isMaskAuto ==> mapData == shadow)
    ensures Fits(Layers(matrix', shadow'), n) && (isMaskAuto ==> mapData' == shadow')
    ensures Fill(Layers(matrix', shadow'), n, cw, mask, x, up, y + 1, x, k')
         == Fill(Layers(matrix, shadow), n, cw, mask, x, up, y, x, k)
  {
    matrix', mapData', shadow', k' := matrix, mapData, shadow, k;
    var j := if up then n - y - 1 else y;
    var i := x;
    while i > x - 2
      invariant x - 2 <= i <= x
      invariant Fits(Layers(matrix', shadow'), n) && (isMaskAuto ==> mapData' == shadow')
      invariant Fill(Layers(matrix', shadow'), n, cw, mask, x, up, y, i, k')
             == Fill(Layers(matrix, shadow), n, cw, mask, x, up, y, x, k)
    {
      if matrix'[j][i] == Null {
        var bit := DataBit(cw, k');
        matrix' := Set(matrix', j, i, Val(Flip(bit, mask, j, i)));
        if isMaskAuto {
          mapData' := Set(mapData', j, i, Val(bit));
        }
        shadow' := Set(shadow', j, i, Val(bit));
        k' := k' + 1;
      }
      i := i - 1;
    }
  }

  /** The row index `y` of the loop at which row `r` is reached. */
  function Step(n: int, up: bool, r: int): int
  {
    if up then n - 1 - r else r
  }

  /** Whether the placement from state `(x, up, y, i)` on still reaches cell `(r, c)`. */
  predicate Visited(n: int, x: int, up: bool, y: int, i: int, r: int, c: int)
  {
    && 0 <= r < n && 0 <= c < n && c != 6
    && (PairOf(c) < x || (PairOf(c) == x && (Step(n, up, r) > y || (Step(n, up, r) == y && c <= i))))
  }

  /** Moving on to the next column pair loses no cell. */
  lemma VisitedNextPair(n: int, x: int, up: bool, i: int)
    requires Side(n) && PairColumn(n, x)
    ensures forall r, c :: Visited(n, x, up, n, i, r, c) <==>
      Visited(n, SkipTiming(x - 2), !up, 0, SkipTiming(x - 2), r, c)
  {
  }

  /** Moving on to the next row of a pair loses no cell. */
  lemma VisitedNextRow(n: int, x: int, up: bool, y: int, i: int, y': int)
    requires Side(n) && PairColumn(n, x) && i == x - 2 && y' == y + 1
    ensures forall r, c :: Visited(n, x, up, y, i, r, c) <==> Visited(n, x, up, y', x, r, c)
  {
  }

  /** Each step of the placement reaches exactly one cell, `(j, i)`. */
  lemma VisitedNextCell(n: int, x: int, up: bool, y: int, i: int, i': int)
    requires Side(n) && PairColumn(n, x) && 0 <= y < n && x - 2 < i <= x && i' == i - 1
    ensures var j := if up then n - y - 1 else y;
      forall r, c :: Visited(n, x, up, y, i, r, c) <==> (r == j && c == i) || Visited(n, x, up, y, i', r, c)
  {
  }

  /** The whole placement starts with every cell outside column 6 still to be reached. */
  lemma VisitedAll(n: int, x: int)
    requires Side(n) && x == n - 1
    ensures forall r, c :: 0 <= r < n && 0 <= c < n && c != 6 ==> Visited(n, x, true, 0, x, r, c)
  {
  }

  /** The placement changes only cells that were empty, in either layer. */
  lemma {:induction false} FillFrame(L: Layers, n: nat, cw: seq<Byte>, mask: int, x: int, up: bool, y: nat, i: int, k: nat)
    requires Side(n) && Fits(L, n) && 0 <= mask < MASK_COUNT
    requires x < 0 || (PairColumn(n, x) && y <= n && x - 2 <= i <= x)
    ensures var R := Fill(L, n, cw, mask, x, up, y, i, k);
      forall r, c :: 0 <= r < n && 0 <= c < n && L.matrix[r][c] != Null ==>
        R.matrix[r][c] == L.matrix[r][c] && R.mapData[r][c] == L.mapData[r][c]
    decreases x + 1, n - y, i - x + 2, 1
  {
    if x < 0 {
    } else if y == n {
      var x' := SkipTiming(x - 2);
      FillFrame(L, n, cw, mask, x', !up, 0, x', k);
    } else if i == x - 2 {
      FillFrame(L, n, cw, mask, x, up, y + 1, x, k);
    } else if L.matrix[if up then n - y - 1 else y][i] == Null {
      FillFrameEmpty(L, n, cw, mask, x, up, y, i, k);
    } else {
      FillFrame(L, n, cw, mask, x, up, y, i - 1, k);
    }
  }

  /** `FillFrame` at an empty cell: writing the bit there touches no occupied cell. */
  lemma {:induction false} FillFrameEmpty(L: Layers, n: nat, cw: seq<Byte>, mask: int, x: int, up: bool, y: nat, i: int, k: nat)
    requires Side(n) && Fits(L, n) && 0 <= mask < MASK_COUNT
    requires PairColumn(n, x) && y < n && x - 2 < i <= x
    requires L.matrix[if up then n - y - 1 else y][i] == Null
    ensures var R := Fill(L, n, cw, mask, x, up, y, i, k);
      forall r, c :: 0 <= r < n && 0 <= c < n && L.matrix[r][c] != Null ==>
        R.matrix[r][c] == L.matrix[r][c] && R.mapData[r][c] == L.mapData[r][c]
    decreases x + 1, n - y, i - x + 2, 0
  {
    var j := if up then n - y - 1 else y;
    var bit := DataBit(cw, k);
    var L' := Layers(Set(L.matrix, j, i, Val(Flip(bit, mask, j, i))), Set(L.mapData, j, i, Val(bit)));
    FillFrame(L', n, cw, mask, x, up, y, i - 1, k + 1);
    assert Fill(L, n, cw, mask, x, up, y, i, k) == Fill(L', n, cw, mask, x, up, y, i - 1, k + 1);
  }

  /** Every empty cell the placement still reaches gets a data bit, recorded in `mapData` and masked in the matrix. */
  lemma {:induction false} FillRecords(L: Layers, n: nat, cw: seq<Byte>, mask: int, x: int, up: bool, y: nat, i: int, k: nat)
    requires Side(n) && Fits(L, n) && 0 <= mask < MASK_COUNT
    requires x < 0 || (PairColumn(n, x) && y <= n && x - 2 <= i <= x)
    ensures var R := Fill(L, n, cw, mask, x, up, y, i, k);
      forall r, c :: Visited(n, x, up, y, i, r, c) && L.matrix[r][c] == Null ==>
        R.mapData[r][c] != Null && R.matrix[r][c] == Val(Flip(R.mapData[r][c].bit, mask, r, c))
    decreases x + 1, n - y, i - x + 2, 1
  {
    if x < 0 {
    } else if y == n {
      var x' := SkipTiming(x - 2);
      VisitedNextPair(n, x, up, i);
      FillRecords(L, n, cw, mask, x', !up, 0, x', k);
    } else if i == x - 2 {
      VisitedNextRow(n, x, up, y, i, y + 1);
      FillRecords(L, n, cw, mask, x, up, y + 1, x, k);
    } else if L.matrix[if up then n - y - 1 else y][i] == Null {
      FillRecordsEmpty(L, n, cw, mask, x, up, y, i, k);
    } else {
      VisitedNextCell(n, x, up, y, i, i - 1);
      FillRecords(L, n, cw, mask, x, up, y, i - 1, k);
    }
  }

  /** `FillRecords` at a step that places a bit in the empty cell `(j, i)`. */
  lemma {:induction false} FillRecordsEmpty(L: Layers, n: nat, cw: seq<Byte>, mask: int, x: int, up: bool, y: nat, i: int, k: nat)
    requires Side(n) && Fits(L, n) && 0 <= mask < MASK_COUNT
    requires PairColumn(n, x) && y < n && x - 2 < i <= x
    requires L.matrix[if up then n - y - 1 else y][i] == Null
    ensures var R := Fill(L, n, cw, mask, x, up, y, i, k);
      forall r, c :: Visited(n, x, up, y, i, r, c) && L.matrix[r][c] == Null ==>
        R.mapData[r][c] != Null && R.matrix[r][c] == Val(Flip(R.mapData[r][c].bit, mask, r, c))
    decreases x + 1, n - y, i - x + 2, 0
  {
    var j := if up then n - y - 1 else y;
    VisitedNextCell(n, x, up, y, i, i - 1);
    var bit := DataBit(cw, k);
    var L' := Layers(Set(L.matrix, j, i, Val(Flip(bit, mask, j, i))), Set(L.mapData, j, i, Val(bit)));
    FillRecords(L', n, cw, mask, x, up, y, i - 1, k + 1);
    FillFrame(L', n, cw, mask, x, up, y, i - 1, k + 1);
    var R := Fill(L', n, cw, mask, x, up, y, i - 1, k + 1);
    assert Fill(L, n, cw, mask, x, up, y, i, k) == R;
    forall r, c | Visited(n, x, up, y, i, r, c) && L.matrix[r][c] == Null
      ensures R.mapData[r][c] != Null && R.matrix[r][c] == Val(Flip(R.mapData[r][c].bit, mask, r, c))
    {
      if r == j && c == i {
        assert R.matrix[j][i] == L'.matrix[j][i] && R.mapData[j][i] == L'.mapData[j][i];
      } else {
        assert Visited(n, x, up, y, i - 1, r, c) && L'.matrix[r][c] == Null;
      }
    }
  }

  /** Every cell the placement still reaches ends up placed. */
  lemma {:induction false} FillCovers(L: Layers, n: nat, cw: seq<Byte>, mask: int, x: int, up: bool, y: nat, i: int, k: nat)
    requires Side(n) && Fits(L, n) && 0 <= mask < MASK_COUNT
    requires x < 0 || (PairColumn(n, x) && y <= n && x - 2 <= i <= x)
    ensures var R := Fill(L, n, cw, mask, x, up, y, i, k);
      forall r, c :: Visited(n, x, up, y, i, r, c) ==> R.matrix[r][c] != Null
    decreases x + 1, n - y, i - x + 2, 1
  {
    if x < 0 {
    } else if y == n {
      var x' := SkipTiming(x - 2);
      VisitedNextPair(n, x, up, i);
      FillCovers(L, n, cw, mask, x', !up, 0, x', k);
    } else if i == x - 2 {
      VisitedNextRow(n, x, up, y, i, y + 1);
      FillCovers(L, n, cw, mask, x, up, y + 1, x, k);
    } else {
      FillCoversCell(L, n, cw, mask, x, up, y, i, k);
    }
  }

  /** `FillCovers` at a step that visits the cell `(j, i)`. */
  lemma {:induction false} FillCoversCell(L: Layers, n: nat, cw: seq<Byte>, mask: int, x: int, up: bool, y: nat, i: int, k: nat)
    requires Side(n) && Fits(L, n) && 0 <= mask < MASK_COUNT
    requires PairColumn(n, x) && y < n && x - 2 < i <= x
    ensures var R := Fill(L, n, cw, mask, x, up, y, i, k);
      forall r, c :: Visited(n, x, up, y, i, r, c) ==> R.matrix[r][c] != Null
    decreases x + 1, n - y, i - x + 2, 0
  {
    var j := if up then n - y - 1 else y;
    VisitedNextCell(n, x, up, y, i, i - 1);
    if L.matrix[j][i] == Null {
      var bit := DataBit(cw, k);
      var L' := Layers(Set(L.matrix, j, i, Val(Flip(bit, mask, j, i))), Set(L.mapData, j, i, Val(bit)));
      FillCovers(L', n, cw, mask, x, up, y, i - 1, k + 1);
      FillFrame(L', n, cw, mask, x, up, y, i - 1, k + 1);
    } else {
      FillCovers(L, n, cw, mask, x, up, y, i - 1, k);
      FillFrame(L, n, cw, mask, x, up, y, i - 1, k);
    }
  }

  /** The same cells are empty in both grids. */
  predicate SameNulls(g1: Grid, g2: Grid, n: nat)
    requires IsGrid(g1, n) && IsGrid(g2, n)
  {
    forall r, c :: 0 <= r < n && 0 <= c < n ==> (g1[r][c] == Null <==> g2[r][c] == Null)
  }

  /**
   * The recorded data bits depend on where the empty cells are, not on
   * what the placed cells hold nor on the mask.
   */
  lemma {:induction false} FillMapSame(L1: Layers, L2: Layers, n: nat, cw: seq<Byte>, m1: int, m2: int,
                                       x: int, up: bool, y: nat, i: int, k: nat)
    requires Side(n) && Fits(L1, n) && Fits(L2, n) && 0 <= m1 < MASK_COUNT && 0 <= m2 < MASK_COUNT
    requires x < 0 || (PairColumn(n, x) && y <= n && x - 2 <= i <= x)
    requires SameNulls(L1.matrix, L2.matrix, n) && L1.mapData == L2.mapData
    ensures Fill(L1, n, cw, m1, x, up, y, i, k).mapData == Fill(L2, n, cw, m2, x, up, y, i, k).mapData
    decreases x + 1, n - y, i - x + 2
  {
    if x < 0 {
    } else if y == n {
      var x' := SkipTiming(x - 2);
      FillMapSame(L1, L2, n, cw, m1, m2, x', !up, 0, x', k);
    } else if i == x - 2 {
      FillMapSame(L1, L2, n, cw, m1, m2, x, up, y + 1, x, k);
    } else {
      var j := if up then n - y - 1 else y;
      if L1.matrix[j][i] == Null {
        var bit := DataBit(cw, k);
        var L1' := Layers(Set(L1.matrix, j, i, Val(Flip(bit, m1, j, i))), Set(L1.mapData, j, i, Val(bit)));
        var L2' := Layers(Set(L2.matrix, j, i, Val(Flip(bit, m2, j, i))), Set(L2.mapData, j, i, Val(bit)));
        assert SameNulls(L1'.matrix, L2'.matrix, n);
        FillMapSame(L1', L2', n, cw, m1, m2, x, up, y, i - 1, k + 1);
      } else {
        FillMapSame(L1, L2, n, cw, m1, m2, x, up, y, i - 1, k);
      }
    }
  }

  /** Bits past the end of the codewords are 0; before it they are the codeword stream, most significant bit first. */
  lemma DataBitStream(cw: seq<Byte>, k: nat)
    ensures DataBit(cw, k) == if k < 8 * |cw| then BytesToBits(cw)[k] else 0
  {
    if k < 8 * |cw| {
      BytesToBitsIndex(cw, k);
      BitsIndex(cw[k / 8], 8, k % 8);
    }
  }

  // ---------------------------------------------------------------- masking

  /**
   * The grid after `reMask(mask)`: the format information of `f`, and
   * every cell with a recorded data bit holds that bit under the new mask.
   */
  function Remasked(g: Grid, D: Grid, f: bv32, mask: int): (h: Grid)
    requires IsGrid(g, |g|) && IsGrid(D, |g|) && 0 <= mask < MASK_COUNT
    ensures IsGrid(h, |g|)
  {
    var F := WithFormat(g, f);
    seq(|g|, r requires 0 <= r < |g| =>
      seq(|g|, c requires 0 <= c < |g| =>
        if D[r][c] != Null then Val(Flip(D[r][c].bit, mask, r, c)) else F[r][c]))
  }

  /** `reMask(mask)`: rewrite the format information, then every data module under the new mask. */
  method ReMask(matrix: Grid, mapData: Grid, n: nat, f: bv32, mask: int) returns (matrix': Grid)
    requires IsGrid(matrix, n) && IsGrid(mapData, n) && n >= 21 && 0 <= mask < MASK_COUNT
    ensures matrix' == Remasked(matrix, mapData, f, mask)
  {
    matrix' := PlaceFormatInfo(matrix, n, f);
    ghost var F := matrix';
    for j := 0 to n
      invariant IsGrid(matrix', n)
      invariant forall r, c :: 0 <= r < n && 0 <= c < n ==>
        matrix'[r][c] == if r < j && mapData[r][c] != Null then Val(Flip(mapData[r][c].bit, mask, r, c)) else F[r][c]
    {
      for i := 0 to n
        invariant IsGrid(matrix', n)
        invariant forall r, c :: 0 <= r < n && 0 <= c < n ==>
          matrix'[r][c] == if (r < j || (r == j && c < i)) && mapData[r][c] != Null then Val(Flip(mapData[r][c].bit, mask, r, c)) else F[r][c]
      {
        if mapData[j][i] != Null {
          matrix' := Set(matrix', j, i, Val(Flip(mapData[j][i].bit, mask, j, i)));
        }
      }
    }
    assert forall r :: 0 <= r < n ==> matrix'[r] == Remasked(matrix, mapData, f, mask)[r];
  }

  /** Re-masking changes only the cells with a recorded data bit and the format cells. */
  lemma RemaskFrame(g: Grid, D: Grid, f: bv32, mask: int)
    requires IsGrid(g, |g|) && IsGrid(D, |g|) && |g| >= 21 && 0 <= mask < MASK_COUNT
    ensures forall r, c :: 0 <= r < |g| && 0 <= c < |g| && D[r][c] == Null && !FormatCell(|g|, r, c) ==>
      Remasked(g, D, f, mask)[r][c] == g[r][c]
    ensures FormatPlaced(Remasked(g, D, f, mask), f) <== forall r, c :: 0 <= r < |g| && 0 <= c < |g| && FormatCell(|g|, r, c) ==> D[r][c] == Null
  {
    FormatInfoPlaced(g, f);
    Slots(|g|);
  }

  // ---------------------------------------------------------------- the symbol

  /**
   * The finished symbol for a given mask: the function patterns with the
   * format information of `eccl` and `mask` and the version codeword `cv`,
   * then the codewords placed under `mask`. The format codeword is taken
   * from the standard's list, which `FormatInfo.FormatListed` proves equal
   * to the one `makeCodewordFormat` computes.
   */
  function Symbol(n: nat, al: seq<int>, eccl: int, cv: bv32, cw: seq<Byte>, mask: int): (g: Grid)
    requires Side(n) && IsEccl(eccl) && 0 <= mask < MASK_COUNT
    ensures IsGrid(g, n)
  {
    var P := Patterns(n, al, FormatInfo.ListedFormat(eccl, mask), cv);
    PatternsGrid(n, al, FormatInfo.ListedFormat(eccl, mask), cv);
    Placed(P, n, cw, mask).matrix
  }

  /** The data bits recorded while placing the codewords (the same for every mask, see `SymbolRemask`). */
  function DataMap(n: nat, al: seq<int>, eccl: int, cv: bv32, cw: seq<Byte>, mask: int): (D: Grid)
    requires Side(n) && IsEccl(eccl) && 0 <= mask < MASK_COUNT
    ensures IsGrid(D, n)
  {
    var P := Patterns(n, al, FormatInfo.ListedFormat(eccl, mask), cv);
    PatternsGrid(n, al, FormatInfo.ListedFormat(eccl, mask), cv);
    Placed(P, n, cw, mask).mapData
  }

  /** Two grids agree except on the format cells, which are placed in both. */
  predicate AgreeOffFormat(g1: Grid, g2: Grid, n: nat)
    requires IsGrid(g1, n) && IsGrid(g2, n)
  {
    forall r, c :: 0 <= r < n && 0 <= c < n ==>
      if FormatCell(n, r, c) then g1[r][c] != Null && g2[r][c] != Null else g1[r][c] == g2[r][c]
  }

  lemma FormatAgree(g: Grid, f1: bv32, f2: bv32)
    requires IsGrid(g, |g|) && |g| >= 21
    ensures IsGrid(WithFormat(g, f1), |g|) && IsGrid(WithFormat(g, f2), |g|)
    ensures AgreeOffFormat(WithFormat(g, f1), WithFormat(g, f2), |g|)
  {
  }

  lemma VersionAgree(g1: Grid, g2: Grid, n: nat, cv: bv32)
    requires IsGrid(g1, n) && IsGrid(g2, n) && n >= 21 && AgreeOffFormat(g1, g2, n)
    ensures IsGrid(WithVersion(g1, cv), n) && IsGrid(WithVersion(g2, cv), n)
    ensures AgreeOffFormat(WithVersion(g1, cv), WithVersion(g2, cv), n)
  {
  }

  lemma AgreeSameNulls(g1: Grid, g2: Grid, n: nat)
    requires IsGrid(g1, n) && IsGrid(g2, n) && AgreeOffFormat(g1, g2, n)
    ensures SameNulls(g1, g2, n)
  {
  }

  /** Two sets of function patterns that differ only in the format codeword agree outside the format cells. */
  lemma PatternsAgree(n: nat, al: seq<int>, f1: bv32, f2: bv32, cv: bv32)
    requires n >= 21
    ensures IsGrid(Patterns(n, al, f1, cv), n) && IsGrid(Patterns(n, al, f2, cv), n)
    ensures AgreeOffFormat(Patterns(n, al, f1, cv), Patterns(n, al, f2, cv), n)
    ensures SameNulls(Patterns(n, al, f1, cv), Patterns(n, al, f2, cv), n)
  {
    BaseShape(n, al);
    FormatAgree(Base(n, al), f1, f2);
    if cv != 0 {
      VersionAgree(WithFormat(Base(n, al), f1), WithFormat(Base(n, al), f2), n, cv);
    }
    AgreeSameNulls(Patterns(n, al, f1, cv), Patterns(n, al, f2, cv), n);
  }

  /** Every module placed in `g` is unchanged in `h`. */
  predicate Keeps(g: Grid, h: Grid, n: nat)
    requires IsGrid(g, n) && IsGrid(h, n)
  {
    forall r, c :: 0 <= r < n && 0 <= c < n && g[r][c] != Null ==> h[r][c] == g[r][c]
  }

  /** Placing the codewords keeps the function patterns and, when column 6 is placed, leaves no module empty. */
  lemma PlacedComplete(g: Grid, n: nat, cw: seq<Byte>, mask: int)
    requires Side(n) && IsGrid(g, n) && 0 <= mask < MASK_COUNT
    requires forall r :: 0 <= r < n ==> g[r][6] != Null
    ensures Keeps(g, Placed(g, n, cw, mask).matrix, n)
    ensures forall r, c :: 0 <= r < n && 0 <= c < n ==> Placed(g, n, cw, mask).matrix[r][c] != Null
  {
    var L := Layers(g, EmptyGrid(n));
    FillFrame(L, n, cw, mask, n - 1, true, 0, n - 1, 0);
    FillCovers(L, n, cw, mask, n - 1, true, 0, n - 1, 0);
    VisitedAll(n, n - 1);
  }

  lemma FormatKept(g: Grid, h: Grid, n: nat, f: bv32)
    requires IsGrid(g, n) && IsGrid(h, n) && n >= 21 && Keeps(g, h, n) && FormatPlaced(g, f)
    ensures FormatPlaced(h, f)
  {
    Slots(n);
  }

  lemma VersionKept(g: Grid, h: Grid, n: nat, cv: bv32)
    requires IsGrid(g, n) && IsGrid(h, n) && n >= 21 && Keeps(g, h, n) && VersionPlaced(g, cv)
    ensures VersionPlaced(h, cv)
  {
  }

  /**
   * The finished symbol is square with no empty module, carries the
   * format information of its level and mask in both copies and, from
   * version 7 on, the version information in both blocks.
   */
  lemma SymbolComplete(n: nat, al: seq<int>, eccl: int, cv: bv32, cw: seq<Byte>, mask: int)
    requires Side(n) && IsEccl(eccl) && 0 <= mask < MASK_COUNT
    ensures var S := Symbol(n, al, eccl, cv, cw, mask);
      && IsGrid(S, n)
      && (forall r, c :: 0 <= r < n && 0 <= c < n ==> S[r][c] != Null)
      && FormatPlaced(S, FormatInfo.MakeCodewordFormat(eccl, mask))
      && (cv != 0 ==> VersionPlaced(S, cv))
  {
    var f := FormatInfo.ListedFormat(eccl, mask);
    FormatInfo.FormatListed(eccl, mask);
    var P := Patterns(n, al, f, cv);
    PatternsShape(n, al, f, cv);
    PlacedComplete(P, n, cw, mask);
    var S := Symbol(n, al, eccl, cv, cw, mask);
    FormatKept(P, S, n, f);
    if cv != 0 {
      VersionKept(P, S, n, cv);
    }
  }

  /**
   * Re-masking the symbol built with one mask gives the symbol built with
   * another: `reMask(m)` on the matrix of mask `m0` is exactly what placing
   * the codewords under `m` from the start would have produced.
   */
  lemma SymbolRemask(n: nat, al: seq<int>, eccl: int, cv: bv32, cw: seq<Byte>, m0: int, m: int)
    requires Side(n) && IsEccl(eccl) && 0 <= m0 < MASK_COUNT && 0 <= m < MASK_COUNT
    ensures IsGrid(Symbol(n, al, eccl, cv, cw, m0), n) && IsGrid(DataMap(n, al, eccl, cv, cw, m0), n)
    ensures DataMap(n, al, eccl, cv, cw, m0) == DataMap(n, al, eccl, cv, cw, m)
    ensures Remasked(Symbol(n, al, eccl, cv, cw, m0), DataMap(n, al, eccl, cv, cw, m0), FormatInfo.ListedFormat(eccl, m), m)
         == Symbol(n, al, eccl, cv, cw, m)
  {
    var f0, fm := FormatInfo.ListedFormat(eccl, m0), FormatInfo.ListedFormat(eccl, m);
    RemaskPlaced(n, al, f0, fm, cv, cw, m0, m);
  }

  /** `SymbolRemask` over the function patterns of two format codewords. */
  lemma RemaskPlaced(n: nat, al: seq<int>, f0: bv32, fm: bv32, cv: bv32, cw: seq<Byte>, m0: int, m: int)
    requires Side(n) && 0 <= m0 < MASK_COUNT && 0 <= m < MASK_COUNT
    ensures IsGrid(Patterns(n, al, f0, cv), n) && IsGrid(Patterns(n, al, fm, cv), n)
    ensures var R0, Rm := Placed(Patterns(n, al, f0, cv), n, cw, m0), Placed(Patterns(n, al, fm, cv), n, cw, m);
      R0.mapData == Rm.mapData && Remasked(R0.matrix, R0.mapData, fm, m) == Rm.matrix
  {
    var P0, Pm := Patterns(n, al, f0, cv), Patterns(n, al, fm, cv);
    PatternsShape(n, al, f0, cv);
    PatternsShape(n, al, fm, cv);
    PatternsAgree(n, al, f0, fm, cv);
    FillMapSame(Layers(P0, EmptyGrid(n)), Layers(Pm, EmptyGrid(n)), n, cw, m0, m, n - 1, true, 0, n - 1, 0);
    var R0, Rm := Placed(P0, n, cw, m0), Placed(Pm, n, cw, m);
    forall r, c | 0 <= r < n && 0 <= c < n
      ensures Remasked(R0.matrix, R0.mapData, fm, m)[r][c] == Rm.matrix[r][c]
    {
      RemaskCell(P0, Pm, n, cw, fm, m0, m, r, c);
    }
    assert forall r :: 0 <= r < n ==> Remasked(R0.matrix, R0.mapData, fm, m)[r] == Rm.matrix[r];
  }

  /** One module of `RemaskPlaced`: a data module takes the new mask, a format module the new codeword, any other keeps its pattern. */
  lemma RemaskCell(P0: Grid, Pm: Grid, n: nat, cw: seq<Byte>, fm: bv32, m0: int, m: int, r: int, c: int)
    requires Side(n) && IsGrid(P0, n) && IsGrid(Pm, n) && 0 <= m0 < MASK_COUNT && 0 <= m < MASK_COUNT
    requires 0 <= r < n && 0 <= c < n
    requires forall y :: 0 <= y < n ==> P0[y][6] != Null
    requires forall y :: 0 <= y < n ==> Pm[y][6] != Null
    requires AgreeOffFormat(P0, Pm, n) && FormatPlaced(Pm, fm)
    requires Placed(P0, n, cw, m0).mapData == Placed(Pm, n, cw, m).mapData
    ensures var R0, Rm := Placed(P0, n, cw, m0), Placed(Pm, n, cw, m);
      Remasked(R0.matrix, R0.mapData, fm, m)[r][c] == Rm.matrix[r][c]
  {
    var R0, Rm := Placed(P0, n, cw, m0), Placed(Pm, n, cw, m);
    PlacedCell(P0, n, cw, m0, r, c);
    PlacedCell(Pm, n, cw, m, r, c);
    if R0.mapData[r][c] == Null && FormatCell(n, r, c) {
      FormatCellValue(Pm, R0.matrix, fm, r, c);
    }
  }

  /** What the placement leaves in one cell: the pattern if there was one, else a recorded data bit under the mask. */
  lemma PlacedCell(P: Grid, n: nat, cw: seq<Byte>, mask: int, r: int, c: int)
    requires Side(n) && IsGrid(P, n) && 0 <= mask < MASK_COUNT && 0 <= r < n && 0 <= c < n
    requires forall y :: 0 <= y < n ==> P[y][6] != Null
    ensures var R := Placed(P, n, cw, mask);
      && (P[r][c] != Null ==> R.matrix[r][c] == P[r][c] && R.mapData[r][c] == Null)
      && (P[r][c] == Null ==> R.mapData[r][c] != Null && R.matrix[r][c] == Val(Flip(R.mapData[r][c].bit, mask, r, c)))
  {
    var L := Layers(P, EmptyGrid(n));
    FillFrame(L, n, cw, mask, n - 1, true, 0, n - 1, 0);
    FillRecords(L, n, cw, mask, n - 1, true, 0, n - 1, 0);
    VisitedAll(n, n - 1);
  }

  /** A grid with the format bits of `f` placed holds, in a format cell, what writing `f` over any grid puts there. */
  lemma FormatCellValue(g: Grid, h: Grid, f: bv32, r: int, c: int)
    requires IsGrid(g, |g|) && |g| >= 21 && IsGrid(h, |g|) && FormatPlaced(g, f)
    requires 0 <= r < |g| && 0 <= c < |g| && FormatCell(|g|, r, c)
    ensures FormatSoFar(h, f, 15, r, c) == g[r][c]
  {
    var n := |g|;
    Slots(n);
    if r == 8 && ColSlot(n, c) >= 0 {
      assert c == FormatCols(n)[ColSlot(n, c)];
    } else {
      assert r == FormatRows(n)[RowSlot(n, r)];
    }
  }
}
