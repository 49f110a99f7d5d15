/**
 * The split of the data codewords into error correction blocks and the
 * final codeword sequence (`makeCodewordsQR`, ISO/IEC 18004 sections 7.5.2
 * and 7.6): the data codewords column by column across the blocks, the
 * extra codeword of each longer block, then the error correction codewords
 * column by column.
 */
module Interleave {
  import opened BitStream
  import opened Iso
  import opened ReedSolomon

  /**
   * Where block `j` starts when `w` blocks hold `q` codewords and the rest
   * hold `q + 1`.
   */
  function BlockStart(q: nat, w: nat, j: int): int
  {
    j * q + (if j < w then 0 else j - w)
  }

  /** The block map of `qtyElements` codewords over `qtyBlocks` blocks, as a closed form. */
  function MapBlocks(qtyElements: nat, qtyBlocks: nat): (pos: seq<int>)
    requires qtyBlocks >= 1
    ensures |pos| == qtyBlocks + 1
  {
    var q := qtyElements / qtyBlocks;
    var w := qtyBlocks - qtyElements % qtyBlocks;
    seq(qtyBlocks + 1, j => BlockStart(q, w, j))
  }

  /**
   * `makeMapBlocks(qtyElements, qtyBlocks)`: the first element of each block
   * and, last, the number of elements; the size of the shorter blocks; the
   * number of shorter blocks.
   */
  method MakeMapBlocks(qtyElements: nat, qtyBlocks: nat) returns (pos: seq<int>, qtyElementsInBlock: nat, qtyBlocksWithoutAdd: nat)
    requires qtyBlocks >= 1
    ensures pos == MapBlocks(qtyElements, qtyBlocks)
    ensures qtyElementsInBlock == qtyElements / qtyBlocks
    ensures qtyBlocksWithoutAdd == qtyBlocks - qtyElements % qtyBlocks
    ensures 1 <= qtyBlocksWithoutAdd <= qtyBlocks
    ensures pos[0] == 0 && pos[qtyBlocks] == qtyElements
    ensures forall j :: 0 <= j < qtyBlocks ==>
      pos[j + 1] - pos[j] == qtyElementsInBlock + (if j < qtyBlocksWithoutAdd then 0 else 1)
  {
    pos := [];
    qtyElementsInBlock := qtyElements / qtyBlocks;
    qtyBlocksWithoutAdd := qtyBlocks - qtyElements % qtyBlocks;
    var p := 0;
    for j := 0 to qtyBlocks + 1
      invariant p == BlockStart(qtyElementsInBlock, qtyBlocksWithoutAdd, j)
      invariant pos == MapBlocks(qtyElements, qtyBlocks)[..j]
    {
      pos := pos + [p];
      p := p + qtyElementsInBlock + (if j < qtyBlocksWithoutAdd then 0 else 1);
    }
    assert pos == MapBlocks(qtyElements, qtyBlocks);
    MapOrdered(qtyElements, qtyBlocks);
    forall j | 0 <= j < qtyBlocks {
      MapStep(qtyElements, qtyBlocks, j);
    }
  }

  /** The last entry of the block map is the number of elements. */
  lemma MapEnd(qtyElements: nat, qtyBlocks: nat)
    requires qtyBlocks >= 1
    ensures BlockStart(qtyElements / qtyBlocks, qtyBlocks - qtyElements % qtyBlocks, qtyBlocks) == qtyElements
  {
    var q, r := qtyElements / qtyBlocks, qtyElements % qtyBlocks;
    assert qtyElements == qtyBlocks * q + r;
  }

  /** Consecutive entries of the block map differ by the size of the block. */
  lemma MapStep(qtyElements: nat, qtyBlocks: nat, j: nat)
    requires qtyBlocks >= 1 && j < qtyBlocks
    ensures var q, w := qtyElements / qtyBlocks, qtyBlocks - qtyElements % qtyBlocks;
      MapBlocks(qtyElements, qtyBlocks)[j + 1] - MapBlocks(qtyElements, qtyBlocks)[j] == q + (if j < w then 0 else 1)
  {
    var q := qtyElements / qtyBlocks;
    assert (j + 1) * q == j * q + q;
  }

  /** The first `k` blocks of `pos` lie in order inside `0..n`. */
  predicate Ordered(pos: seq<int>, k: nat, n: nat)
    requires k < |pos|
  {
    && 0 <= pos[0]
    && pos[k] <= n
    && forall i, j :: 0 <= i <= j <= k ==> pos[i] <= pos[j]
  }

  /** Every block lies inside the elements, after the one before it. */
  lemma MapOrdered(qtyElements: nat, qtyBlocks: nat)
    requires qtyBlocks >= 1
    ensures Ordered(MapBlocks(qtyElements, qtyBlocks), qtyBlocks, qtyElements)
    ensures MapBlocks(qtyElements, qtyBlocks)[0] == 0
    ensures MapBlocks(qtyElements, qtyBlocks)[qtyBlocks] == qtyElements
  {
    var q, w := qtyElements / qtyBlocks, qtyBlocks - qtyElements % qtyBlocks;
    MapEnd(qtyElements, qtyBlocks);
    forall i, j | 0 <= i <= j <= qtyBlocks
      ensures BlockStart(q, w, i) <= BlockStart(q, w, j)
    {
      MulLe(i, j, q);
    }
  }

  /** The blocks `poly[pos[j]..pos[j + 1]]` for `j < k`. */
  function Blocks(poly: seq<Byte>, pos: seq<int>, k: nat): (blocks: seq<seq<Byte>>)
    requires k < |pos| && Ordered(pos, k, |poly|)
    ensures |blocks| == k
  {
    seq(k, j requires 0 <= j < k => poly[pos[j]..pos[j + 1]])
  }

  /** The blocks one after the other. */
  function Flatten(blocks: seq<seq<Byte>>): seq<Byte>
  {
    if blocks == [] then [] else Flatten(blocks[..|blocks| - 1]) + blocks[|blocks| - 1]
  }

  /** Entry `i` of every block. */
  function Column(blocks: seq<seq<Byte>>, i: nat): (c: seq<Byte>)
    requires forall j :: 0 <= j < |blocks| ==> i < |blocks[j]|
    ensures |c| == |blocks|
  {
    seq(|blocks|, j requires 0 <= j < |blocks| => blocks[j][i])
  }

  /** The first `n` entries of every block, taken column by column. */
  function Columns(blocks: seq<seq<Byte>>, n: nat): (c: seq<Byte>)
    requires forall j :: 0 <= j < |blocks| ==> n <= |blocks[j]|
    ensures |c| == n * |blocks|
  {
    if n == 0 then [] else Columns(blocks, n - 1) + Column(blocks, n - 1)
  }

  /** The entry `q` of the blocks from `w` on, which are one longer than the others. */
  function Extras(blocks: seq<seq<Byte>>, w: nat, q: nat): (e: seq<Byte>)
    requires w <= |blocks| && forall j :: w <= j < |blocks| ==> q < |blocks[j]|
    ensures |e| == |blocks| - w
  {
    seq(|blocks| - w, k requires 0 <= k < |blocks| - w => blocks[w + k][q])
  }

  /** The first `n` entries of every block. */
  function Prefixes(blocks: seq<seq<Byte>>, n: nat): (p: seq<seq<Byte>>)
    requires forall j :: 0 <= j < |blocks| ==> n <= |blocks[j]|
    ensures |p| == |blocks|
  {
    seq(|blocks|, j requires 0 <= j < |blocks| => blocks[j][..n])
  }

  /** The data blocks of `codewordsData` and the error correction blocks computed from them. */
  function DataBlocks(poly: seq<Byte>, qtyBlocks: nat): (blocks: seq<seq<Byte>>)
    requires qtyBlocks >= 1
    ensures |blocks| == qtyBlocks
    ensures forall j :: 0 <= j < qtyBlocks ==>
      |blocks[j]| == |poly| / qtyBlocks + (if j < qtyBlocks - |poly| % qtyBlocks then 0 else 1)
  {
    MapOrdered(|poly|, qtyBlocks);
    Blocks(poly, MapBlocks(|poly|, qtyBlocks), qtyBlocks)
  }

  function EccBlocks(t: Tables, blocks: seq<seq<Byte>>, genpoly: seq<int>): (ecc: seq<seq<Byte>>)
    requires ValidGf(t) && Exponents(genpoly)
    ensures |ecc| == |blocks|
    ensures forall j :: 0 <= j < |blocks| ==> |ecc[j]| == |genpoly|
  {
    seq(|blocks|, j requires 0 <= j < |blocks| => Ecc(t, blocks[j], genpoly))
  }

  /** The data codewords as they are placed: column by column, then the extra codewords. */
  function InterleavedData(poly: seq<Byte>, qtyBlocks: nat): seq<Byte>
    requires qtyBlocks >= 1
  {
    var q := |poly| / qtyBlocks;
    var blocks := DataBlocks(poly, qtyBlocks);
    Columns(blocks, q) + Extras(blocks, qtyBlocks - |poly| % qtyBlocks, q)
  }

  /** The codeword sequence placed in the symbol. */
  function Interleaved(t: Tables, poly: seq<Byte>, qtyBlocks: nat, genpoly: seq<int>): seq<Byte>
    requires ValidGf(t) && Exponents(genpoly) && qtyBlocks >= 1
  {
    var blocks := DataBlocks(poly, qtyBlocks);
    InterleavedData(poly, qtyBlocks) + Columns(EccBlocks(t, blocks, genpoly), |genpoly|)
  }

  /**
   * `makeCodewordsQR()`: the error correction codewords of every block, then
   * the interleaved data and error correction codewords.
   */
  method MakeCodewordsQR(t: Tables, poly: seq<Byte>, qtyBlocks: nat, genpoly: seq<int>) returns (codewordsQR: seq<Byte>)
    requires ValidGf(t) && Exponents(genpoly) && qtyBlocks >= 1
    ensures codewordsQR == Interleaved(t, poly, qtyBlocks, genpoly)
    ensures |codewordsQR| == |poly| + qtyBlocks * |genpoly|
    ensures multiset(codewordsQR[..|poly|]) == multiset(poly)
  {
    var pos, q, w := MakeMapBlocks(|poly|, qtyBlocks);
    var blocksEcc := BlocksEcc(t, poly, pos, qtyBlocks, genpoly);
    codewordsQR := [];
    codewordsQR := PushDataColumns(codewordsQR, poly, pos, q, qtyBlocks);
    codewordsQR := PushExtras(codewordsQR, poly, pos, q, w, qtyBlocks);
    ghost var data := codewordsQR;
    assert data == InterleavedData(poly, qtyBlocks);
    codewordsQR := PushColumns(codewordsQR, blocksEcc, |genpoly|);
    DataPermutation(poly, qtyBlocks);
    assert codewordsQR[..|poly|] == data;
  }

  /** The loop of `makeCodewordsQR` computing `blocksECC`, one block after the other. */
  method BlocksEcc(t: Tables, poly: seq<Byte>, pos: seq<int>, qtyBlocks: nat, genpoly: seq<int>)
    returns (blocksEcc: seq<seq<Byte>>)
    requires ValidGf(t) && Exponents(genpoly) && qtyBlocks >= 1
    requires pos == MapBlocks(|poly|, qtyBlocks)
    ensures blocksEcc == EccBlocks(t, DataBlocks(poly, qtyBlocks), genpoly)
  {
    MapOrdered(|poly|, qtyBlocks);
    ghost var eccBlocks := EccBlocks(t, DataBlocks(poly, qtyBlocks), genpoly);
    blocksEcc := [];
    for j := 0 to qtyBlocks
      invariant blocksEcc == eccBlocks[..j]
    {
      var ecc := CalculateEcc(t, poly[pos[j]..pos[j + 1]], genpoly);
      blocksEcc := blocksEcc + [ecc];
    }
  }

  /** The first interleaving loop: entry `i` of every data block, for every `i` below `q`. */
  method PushDataColumns(codewordsQR: seq<Byte>, poly: seq<Byte>, pos: seq<int>, q: nat, qtyBlocks: nat)
    returns (codewordsQR': seq<Byte>)
    requires qtyBlocks >= 1 && pos == MapBlocks(|poly|, qtyBlocks) && q == |poly| / qtyBlocks
    ensures codewordsQR' == codewordsQR + Columns(DataBlocks(poly, qtyBlocks), q)
  {
    ghost var blocks := DataBlocks(poly, qtyBlocks);
    codewordsQR' := codewordsQR;
    for i := 0 to q
      invariant codewordsQR' == codewordsQR + Columns(blocks, i)
    {
      for j := 0 to qtyBlocks
        invariant codewordsQR' == codewordsQR + Columns(blocks, i) + Column(blocks, i)[..j]
      {
        BlockEntry(poly, qtyBlocks, j, i);
        assert Column(blocks, i)[..j + 1] == Column(blocks, i)[..j] + [blocks[j][i]];
        codewordsQR' := codewordsQR' + [poly[pos[j] + i]];
      }
    }
  }

  /** The second interleaving loop: the last entry of every longer data block. */
  method PushExtras(codewordsQR: seq<Byte>, poly: seq<Byte>, pos: seq<int>, q: nat, w: nat, qtyBlocks: nat)
    returns (codewordsQR': seq<Byte>)
    requires qtyBlocks >= 1 && pos == MapBlocks(|poly|, qtyBlocks)
    requires q == |poly| / qtyBlocks && w == qtyBlocks - |poly| % qtyBlocks
    ensures codewordsQR' == codewordsQR + Extras(DataBlocks(poly, qtyBlocks), w, q)
  {
    ghost var blocks := DataBlocks(poly, qtyBlocks);
    codewordsQR' := codewordsQR;
    for j := w to qtyBlocks
      invariant codewordsQR' == codewordsQR + Extras(blocks, w, q)[..j - w]
    {
      MapStep(|poly|, qtyBlocks, j);
      BlockEntry(poly, qtyBlocks, j, q);
      assert Extras(blocks, w, q)[..j + 1 - w] == Extras(blocks, w, q)[..j - w] + [blocks[j][q]];
      codewordsQR' := codewordsQR' + [poly[pos[j + 1] - 1]];
    }
  }

  /** The third interleaving loop: entry `i` of every error correction block, for every `i` below `n`. */
  method PushColumns(codewordsQR: seq<Byte>, blocks: seq<seq<Byte>>, n: nat) returns (codewordsQR': seq<Byte>)
    requires forall j :: 0 <= j < |blocks| ==> n <= |blocks[j]|
    ensures codewordsQR' == codewordsQR + Columns(blocks, n)
  {
    codewordsQR' := codewordsQR;
    for i := 0 to n
      invariant codewordsQR' == codewordsQR + Columns(blocks, i)
    {
      for j := 0 to |blocks|
        invariant codewordsQR' == codewordsQR + Columns(blocks, i) + Column(blocks, i)[..j]
      {
        assert Column(blocks, i)[..j + 1] == Column(blocks, i)[..j] + [blocks[j][i]];
        codewordsQR' := codewordsQR' + [blocks[j][i]];
      }
    }
  }

  /** Entry `i` of block `j` is the codeword `pos[j] + i`. */
  lemma BlockEntry(poly: seq<Byte>, qtyBlocks: nat, j: nat, i: nat)
    requires qtyBlocks >= 1 && j < qtyBlocks && i < |DataBlocks(poly, qtyBlocks)[j]|
    ensures 0 <= MapBlocks(|poly|, qtyBlocks)[j] + i < |poly|
    ensures poly[MapBlocks(|poly|, qtyBlocks)[j] + i] == DataBlocks(poly, qtyBlocks)[j][i]
  {
    var pos := MapBlocks(|poly|, qtyBlocks);
    MapOrdered(|poly|, qtyBlocks);
    assert pos[j] <= pos[j + 1] <= pos[qtyBlocks];
    assert DataBlocks(poly, qtyBlocks)[j] == poly[pos[j]..pos[j + 1]];
  }

  /** Adding entry `n` of every block to their prefixes adds column `n`. */
  lemma {:induction false} PrefixesStep(blocks: seq<seq<Byte>>, n: nat)
    requires forall j :: 0 <= j < |blocks| ==> n < |blocks[j]|
    ensures multiset(Flatten(Prefixes(blocks, n + 1))) == multiset(Flatten(Prefixes(blocks, n))) + multiset(Column(blocks, n))
  {
    if blocks != [] {
      var k := |blocks| - 1;
      var init := blocks[..k];
      PrefixesStep(init, n);
      PrefixesSplit(blocks, n);
      Rearrange(Flatten(Prefixes(init, n + 1)), Flatten(Prefixes(init, n)), Column(init, n), blocks[k][..n], blocks[k][n]);
    }
  }

  /** The prefixes and the column of a non-empty list of blocks, split before its last block. */
  lemma PrefixesSplit(blocks: seq<seq<Byte>>, n: nat)
    requires blocks != [] && forall j :: 0 <= j < |blocks| ==> n < |blocks[j]|
    ensures var k := |blocks| - 1; var init := blocks[..k];
      && Flatten(Prefixes(blocks, n + 1)) == Flatten(Prefixes(init, n + 1)) + (blocks[k][..n] + [blocks[k][n]])
      && Flatten(Prefixes(blocks, n)) == Flatten(Prefixes(init, n)) + blocks[k][..n]
      && Column(blocks, n) == Column(init, n) + [blocks[k][n]]
  {
    var k := |blocks| - 1;
    var init := blocks[..k];
    var p1, p0 := Prefixes(blocks, n + 1), Prefixes(blocks, n);
    assert p1[..k] == Prefixes(init, n + 1);
    assert p0[..k] == Prefixes(init, n);
    assert p1[k] == blocks[k][..n] + [blocks[k][n]];
  }

  /** Multiset bookkeeping for one more entry of one more block. */
  lemma Rearrange(a1: seq<Byte>, a0: seq<Byte>, c: seq<Byte>, b: seq<Byte>, x: Byte)
    requires multiset(a1) == multiset(a0) + multiset(c)
    ensures multiset(a1 + (b + [x])) == multiset(a0 + b) + multiset(c + [x])
  {
  }

  /** The first `n` columns hold the first `n` entries of every block. */
  lemma {:induction false} ColumnsPermutation(blocks: seq<seq<Byte>>, n: nat)
    requires forall j :: 0 <= j < |blocks| ==> n <= |blocks[j]|
    ensures multiset(Columns(blocks, n)) == multiset(Flatten(Prefixes(blocks, n)))
  {
    if n > 0 {
      var before, column := Columns(blocks, n - 1), Column(blocks, n - 1);
      ColumnsPermutation(blocks, n - 1);
      PrefixesStep(blocks, n - 1);
      assert Columns(blocks, n) == before + column;
      assert multiset(before + column) == multiset(before) + multiset(column);
    } else {
      FlattenEmpty(Prefixes(blocks, 0));
      assert Columns(blocks, 0) == [];
    }
  }

  /** Blocks that are all empty flatten to nothing. */
  lemma {:induction false} FlattenEmpty(blocks: seq<seq<Byte>>)
    requires forall j :: 0 <= j < |blocks| ==> blocks[j] == []
    ensures Flatten(blocks) == []
  {
    if blocks != [] {
      FlattenEmpty(blocks[..|blocks| - 1]);
    }
  }

  /** With the longer blocks last, the columns and the extras hold every block entirely. */
  lemma {:induction false} ExtrasComplete(blocks: seq<seq<Byte>>, w: nat, q: nat)
    requires w <= |blocks|
    requires forall j :: 0 <= j < |blocks| ==> |blocks[j]| == q + (if j < w then 0 else 1)
    ensures multiset(Flatten(blocks)) == multiset(Flatten(Prefixes(blocks, q))) + multiset(Extras(blocks, w, q))
  {
    if |blocks| == w {
      forall j | 0 <= j < |blocks|
        ensures blocks[j][..q] == blocks[j]
      {
      }
      assert Prefixes(blocks, q) == blocks;
    } else {
      var k := |blocks| - 1;
      var init := blocks[..k];
      ExtrasComplete(init, w, q);
      var p := Prefixes(blocks, q);
      assert p[..k] == Prefixes(init, q);
      assert blocks[k] == p[k] + [blocks[k][q]];
      assert Extras(blocks, w, q) == Extras(init, w, q) + [blocks[k][q]];
      Rearrange(Flatten(init), Flatten(Prefixes(init, q)), Extras(init, w, q), p[k], blocks[k][q]);
    }
  }

  /** The blocks of a map flatten back to the elements they were cut from. */
  lemma {:induction false} FlattenBlocks(poly: seq<Byte>, pos: seq<int>, k: nat)
    requires k < |pos| && pos[0] == 0 && pos[k] <= |poly| && Ordered(pos, k, |poly|)
    ensures Flatten(Blocks(poly, pos, k)) == poly[..pos[k]]
  {
    if k > 0 {
      FlattenBlocks(poly, pos, k - 1);
      assert Blocks(poly, pos, k)[..k - 1] == Blocks(poly, pos, k - 1);
      assert poly[..pos[k]] == poly[..pos[k - 1]] + poly[pos[k - 1]..pos[k]];
    }
  }

  /** The data blocks, one after the other, are the data codewords. */
  lemma FlattenDataBlocks(poly: seq<Byte>, qtyBlocks: nat)
    requires qtyBlocks >= 1
    ensures Flatten(DataBlocks(poly, qtyBlocks)) == poly
  {
    var pos := MapBlocks(|poly|, qtyBlocks);
    MapOrdered(|poly|, qtyBlocks);
    FlattenBlocks(poly, pos, qtyBlocks);
    assert poly[..pos[qtyBlocks]] == poly;
  }

  /** The interleaved data codewords are a permutation of the data codewords. */
  lemma DataPermutation(poly: seq<Byte>, qtyBlocks: nat)
    requires qtyBlocks >= 1
    ensures multiset(InterleavedData(poly, qtyBlocks)) == multiset(poly)
    ensures |InterleavedData(poly, qtyBlocks)| == |poly|
  {
    var q := |poly| / qtyBlocks;
    var w := qtyBlocks - |poly| % qtyBlocks;
    var blocks := DataBlocks(poly, qtyBlocks);
    var c, e := Columns(blocks, q), Extras(blocks, w, q);
    assert InterleavedData(poly, qtyBlocks) == c + e;
    ColumnsPermutation(blocks, q);
    ExtrasComplete(blocks, w, q);
    FlattenDataBlocks(poly, qtyBlocks);
    assert multiset(c + e) == multiset(c) + multiset(e);
    DataLength(poly, qtyBlocks);
  }

  /** The interleaved data codewords are as many as the data codewords. */
  lemma DataLength(poly: seq<Byte>, qtyBlocks: nat)
    requires qtyBlocks >= 1
    ensures |InterleavedData(poly, qtyBlocks)| == |poly|
  {
    var q := |poly| / qtyBlocks;
    var w := qtyBlocks - |poly| % qtyBlocks;
    MapEnd(|poly|, qtyBlocks);
    assert |InterleavedData(poly, qtyBlocks)| == q * qtyBlocks + (qtyBlocks - w);
  }
}
