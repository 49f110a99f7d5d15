/**
 * `dataToCodewords`: the data bit stream (mode indicator, character count,
 * data, terminator) packed eight bits to a codeword and padded with the
 * alternating pad codewords up to the capacity of the version.
 */
module Codewords {
  import opened BitStream
  import opened Iso
  import opened Capacity

  // ---- the bit stream ----

  function Digit(c: int): int
  {
    c - '0' as int
  }

  predicate AllDigits(data: seq<int>)
  {
    forall k :: 0 <= k < |data| ==> IsDigit(data[k])
  }

  predicate AllAlphanumeric(data: seq<int>)
  {
    forall k :: 0 <= k < |data| ==> IsAlphanumeric(data[k])
  }

  predicate AllOctets(data: seq<int>)
  {
    forall k :: 0 <= k < |data| ==> 0 <= data[k] < 256
  }

  /** What `data` holds in each mode, as validated before encoding. */
  predicate DataFitsMode(mode: int, data: seq<int>)
  {
    && IsMode(mode)
    && (mode == MODE_NUMERIC ==> AllDigits(data))
    && (mode == MODE_ALPHANUMERIC ==> AllAlphanumeric(data))
    && (mode == MODE_OCTET ==> AllOctets(data))
  }

  /** Three digits read as a decimal number. */
  function Triple(a: int, b: int, c: int): int
  {
    100 * Digit(a) + 10 * Digit(b) + Digit(c)
  }

  /** Two digits read as a decimal number. */
  function Pair(a: int, b: int): int
  {
    10 * Digit(a) + Digit(b)
  }

  /** Numeric mode: three digits in 10 bits, a last pair in 7, a last digit in 4. */
  function NumericBits(data: seq<int>): (s: seq<Bit>)
    requires AllDigits(data)
  {
    if |data| >= 3 then Bits(Triple(data[0], data[1], data[2]), 10) + NumericBits(data[3..])
    else if |data| == 2 then Bits(Pair(data[0], data[1]), 7)
    else if |data| == 1 then Bits(Digit(data[0]), 4)
    else []
  }

  /** Two alphanumeric characters as one number: `mapCode[a] * 45 + mapCode[b]`. */
  function CodePair(a: int, b: int): int
    requires IsAlphanumeric(a) && IsAlphanumeric(b)
  {
    AlphanumericCode(a) * 45 + AlphanumericCode(b)
  }

  /** Alphanumeric mode: a pair as `45 * first + second` in 11 bits, a last character in 6. */
  function AlphanumericBits(data: seq<int>): (s: seq<Bit>)
    requires AllAlphanumeric(data)
  {
    if |data| >= 2 then Bits(CodePair(data[0], data[1]), 11) + AlphanumericBits(data[2..])
    else if |data| == 1 then Bits(AlphanumericCode(data[0]), 6)
    else []
  }

  /** Byte mode: eight bits per octet. */
  function OctetBits(data: seq<int>): (s: seq<Bit>)
    requires AllOctets(data)
  {
    if |data| == 0 then [] else Bits(data[0], 8) + OctetBits(data[1..])
  }

  function ModeBits(mode: int, data: seq<int>): seq<Bit>
    requires DataFitsMode(mode, data)
  {
    if mode == MODE_NUMERIC then NumericBits(data)
    else if mode == MODE_ALPHANUMERIC then AlphanumericBits(data)
    else OctetBits(data)
  }

  /** Mode indicator, character count indicator and data (ISO/IEC 18004, section 7.4). */
  function DataStream(mode: int, data: seq<int>, bitsFieldDataQty: nat): seq<Bit>
    requires DataFitsMode(mode, data)
  {
    Bits(mode, 4) + Bits(|data|, bitsFieldDataQty) + ModeBits(mode, data)
  }

  lemma {:induction false} ModeBitsLength(mode: int, data: seq<int>)
    requires DataFitsMode(mode, data)
    ensures |ModeBits(mode, data)| == DataBitLength(mode, |data|)
    decreases |data|
  {
    if mode == MODE_NUMERIC && |data| >= 3 {
      ModeBitsLength(mode, data[3..]);
    } else if mode == MODE_ALPHANUMERIC && |data| >= 2 {
      ModeBitsLength(mode, data[2..]);
    } else if mode == MODE_OCTET && |data| >= 1 {
      ModeBitsLength(mode, data[1..]);
    }
  }

  /** The stream is as long as the capacity check of the version assumes. */
  lemma DataStreamLength(mode: int, data: seq<int>, bitsFieldDataQty: nat)
    requires DataFitsMode(mode, data)
    ensures |DataStream(mode, data, bitsFieldDataQty)| == 4 + bitsFieldDataQty + DataBitLength(mode, |data|)
  {
    ModeBitsLength(mode, data);
  }

  // ---- completing the codewords ----

  /**
   * The terminator condition as the source writes it: fewer than `max - 1`
   * whole codewords so far, or the stream ends on a codeword boundary.
   */
  function TerminatorAsWritten(len: nat, maxQty: int): (b: bool)
    ensures b <==> TerminatorFits(len, maxQty) || (len % 8 == 0 && len >= 8 * maxQty)
  {
    len / 8 < maxQty - 1 || len % 8 == 0
  }

  /**
   * The terminator is written when it has room: fewer than `max - 1` whole
   * codewords, or the stream ends on a codeword boundary below `max`.
   */
  predicate TerminatorFits(len: nat, maxQty: int)
  {
    len / 8 < maxQty - 1 || (len % 8 == 0 && len / 8 < maxQty)
  }

  function Terminate(s: seq<Bit>, withTerminator: bool): seq<Bit>
  {
    if withTerminator then s + Bits(MODE_TERMINATOR, 4) else s
  }

  /** Zero bits up to the next codeword boundary (the last `push(bits)`). */
  function AlignToByte(s: seq<Bit>): (t: seq<Bit>)
    ensures |t| % 8 == 0
  {
    s + Zeros((8 - |s| % 8) % 8)
  }

  /** The alternating pad codewords appended until `maxQty` codewords. */
  function PadCodewords(cw: seq<Byte>, maxQty: int): seq<Byte>
    decreases maxQty - |cw|
  {
    if |cw| + 1 < maxQty then PadCodewords(cw + [0xEC, 0x11], maxQty)
    else if |cw| < maxQty then cw + [0xEC]
    else cw
  }

  /** The data codewords of a stream, with the terminator written as the source decides. */
  function FinishAsWritten(s: seq<Bit>, maxQty: int): seq<Byte>
  {
    PadCodewords(BytesOf(AlignToByte(Terminate(s, TerminatorAsWritten(|s|, maxQty)))), maxQty)
  }

  /** The stream, the terminator where it has room, and zeros to the codeword boundary. */
  function Significant(s: seq<Bit>, maxQty: int): seq<Bit>
  {
    AlignToByte(Terminate(s, TerminatorFits(|s|, maxQty)))
  }

  /** The data codewords of a stream, with the terminator written only where it has room. */
  function Finish(s: seq<Bit>, maxQty: int): seq<Byte>
  {
    PadCodewords(BytesOf(Significant(s, maxQty)), maxQty)
  }

  /** The data codewords for the data of a version: `bitsData >> 3` codewords. */
  function DataCodewords(mode: int, data: seq<int>, bitsFieldDataQty: nat, bitsData: int): seq<Byte>
    requires DataFitsMode(mode, data)
  {
    Finish(DataStream(mode, data, bitsFieldDataQty), bitsData / 8)
  }

  function PadByte(i: int): Byte
  {
    if i % 2 == 0 then 0xEC else 0x11
  }

  lemma {:induction false} PadCodewordsShape(cw: seq<Byte>, maxQty: int)
    requires |cw| <= maxQty
    ensures |PadCodewords(cw, maxQty)| == maxQty
    ensures PadCodewords(cw, maxQty)[..|cw|] == cw
    ensures forall i :: |cw| <= i < maxQty ==> PadCodewords(cw, maxQty)[i] == PadByte(i - |cw|)
  {
    PadCodewordsLength(cw, maxQty);
    PadCodewordsPrefix(cw, maxQty);
    forall i | |cw| <= i < maxQty
      ensures PadCodewords(cw, maxQty)[i] == PadByte(i - |cw|)
    {
      PadCodewordsAt(cw, maxQty, i);
    }
  }

  lemma {:induction false} PadCodewordsLength(cw: seq<Byte>, maxQty: int)
    requires |cw| <= maxQty
    ensures |PadCodewords(cw, maxQty)| == maxQty
    decreases maxQty - |cw|
  {
    if |cw| + 1 < maxQty {
      PadCodewordsLength(cw + [0xEC, 0x11], maxQty);
    }
  }

  lemma {:induction false} PadCodewordsPrefix(cw: seq<Byte>, maxQty: int)
    ensures |cw| <= |PadCodewords(cw, maxQty)| && PadCodewords(cw, maxQty)[..|cw|] == cw
    decreases maxQty - |cw|
  {
    if |cw| + 1 < maxQty {
      var next := cw + [0xEC, 0x11];
      PadCodewordsPrefix(next, maxQty);
      var r := PadCodewords(next, maxQty);
      assert r[..|cw|] == r[..|next|][..|cw|];
    }
  }

  lemma {:induction false} PadCodewordsAt(cw: seq<Byte>, maxQty: int, i: int)
    requires |cw| <= i < maxQty
    ensures i < |PadCodewords(cw, maxQty)| && PadCodewords(cw, maxQty)[i] == PadByte(i - |cw|)
    decreases maxQty - |cw|
  {
    var next := cw + [0xEC, 0x11];
    if |cw| + 1 < maxQty {
      if i >= |next| {
        PadCodewordsAt(next, maxQty, i);
        assert PadByte(i - |next|) == PadByte(i - |cw|);
      } else {
        PadCodewordsPrefix(next, maxQty);
        var r := PadCodewords(next, maxQty);
        assert r[i] == r[..|next|][i];
      }
    }
  }

  lemma {:induction false} PadCodewordsKeeps(cw: seq<Byte>, maxQty: int)
    requires |cw| >= maxQty
    ensures PadCodewords(cw, maxQty) == cw
  {
  }

  lemma AlignToByteZeros(s: seq<Bit>)
    ensures AlignToByte(s)[..|s|] == s
    ensures forall k :: |s| <= k < |AlignToByte(s)| ==> AlignToByte(s)[k] == 0
    ensures |AlignToByte(s)| < |s| + 8
  {
  }

  /**
   * The codewords before padding: the stream, the terminator as far as there
   * is room for it, zeros to the codeword boundary, and no more than `maxQty`
   * codewords while the stream fits.
   */
  lemma SignificantBits(s: seq<Bit>, maxQty: int)
    requires |s| <= 8 * maxQty
    ensures var t := Significant(s, maxQty);
      && t[..|s|] == s
      && (forall k :: |s| <= k < |t| ==> t[k] == 0)
      && |t| <= 8 * maxQty
      && (|s| + 4 <= |t| || |t| == 8 * maxQty)
  {
    var w := TerminatorFits(|s|, maxQty);
    var u := Terminate(s, w);
    var t := AlignToByte(u);
    BitsOfZero(4);
    AlignToByteZeros(u);
    assert u[..|s|] == s;
    assert t[..|s|] == s by {
      assert t[..|s|] == t[..|u|][..|s|];
    }
    forall k | |s| <= k < |t|
      ensures t[k] == 0
    {
      if k < |u| {
        assert t[k] == t[..|u|][k];
      }
    }
  }

  /**
   * `cw` are `maxQty` codewords whose first `n` spell `t`, the stream `s`
   * followed by zero bits, and whose others are pad codewords.
   */
  predicate PaddedShape(s: seq<Bit>, t: seq<Bit>, cw: seq<Byte>, n: nat, maxQty: int)
  {
    && |t| == 8 * n
    && |cw| == maxQty
    && n <= maxQty
    && BytesToBits(cw[..n]) == t
    && |s| <= 8 * n
    && BytesToBits(cw)[..|s|] == s
    && (forall k :: |s| <= k < 8 * n ==> BytesToBits(cw)[k] == 0)
    && (forall i :: n <= i < maxQty ==> cw[i] == PadByte(i - n))
  }

  /** Padding the codewords that spell `t`, where `t` is `s` followed by zero bits. */
  lemma PaddedBits(s: seq<Bit>, t: seq<Bit>, maxQty: int)
    requires |t| % 8 == 0 && |s| <= |t| <= 8 * maxQty
    requires t[..|s|] == s && forall k :: |s| <= k < |t| ==> t[k] == 0
    ensures PaddedShape(s, t, PadCodewords(BytesOf(t), maxQty), |BytesOf(t)|, maxQty)
  {
    var head := BytesOf(t);
    var n := |head|;
    var cw := PadCodewords(head, maxQty);
    PadCodewordsShape(head, maxQty);
    BitsToBytesRoundTrip(t);
    BytesToBitsPrefix(cw, n);
    var b := BytesToBits(cw);
    assert b[..8 * n] == t;
    assert b[..|s|] == t[..|s|] by {
      assert b[..|s|] == b[..8 * n][..|s|];
    }
    forall k | |s| <= k < 8 * n
      ensures b[k] == 0
    {
      assert b[k] == b[..8 * n][k];
    }
  }

  /**
   * The data codewords of a stream that fits the version: exactly `maxQty`
   * codewords; the stream first, zero bits (the terminator, shortened when the
   * capacity leaves less room, and the bits to the codeword boundary), then
   * pad codewords alternating 0xEC and 0x11.
   */
  lemma FinishShape(s: seq<Bit>, maxQty: int)
    requires |s| <= 8 * maxQty
    ensures PaddedShape(s, Significant(s, maxQty), Finish(s, maxQty), |BytesOf(Significant(s, maxQty))|, maxQty)
    ensures |s| + 4 <= |Significant(s, maxQty)| || |Significant(s, maxQty)| == 8 * maxQty
  {
    SignificantBits(s, maxQty);
    PaddedBits(s, Significant(s, maxQty), maxQty);
  }

  /** Where the stream ends short of the capacity, the two terminator conditions agree. */
  lemma FinishAsWrittenAgrees(s: seq<Bit>, maxQty: int)
    requires |s| < 8 * maxQty
    ensures FinishAsWritten(s, maxQty) == Finish(s, maxQty)
  {
    assert TerminatorAsWritten(|s|, maxQty) == TerminatorFits(|s|, maxQty);
  }

  /**
   * Where the stream fills the capacity exactly, the source still writes the
   * terminator, and one codeword more than the version holds is produced.
   */
  lemma FinishAsWrittenOverflows(s: seq<Bit>, maxQty: int)
    requires maxQty >= 1 && |s| == 8 * maxQty
    ensures |FinishAsWritten(s, maxQty)| == maxQty + 1
  {
    var t := AlignToByte(Terminate(s, true));
    assert |t| == 8 * maxQty + 8;
    PadCodewordsKeeps(BytesOf(t), maxQty);
  }

  /**
   * An input that shows it: 27 digits at version 1, level Q. The count indicator
   * is 10 bits and `bitsData` is 104 (13 codewords), and 27 digits pass the
   * capacity check, so the stream fills all 104 bits.
   */
  lemma ExactFillCapacity()
    ensures BitsDataMax(VersionParams(1, 13, [], 10, [], 104), MODE_NUMERIC) == 27
  {
  }

  lemma ExactFillExample(data: seq<int>)
    requires |data| == 27 && AllDigits(data)
    ensures DataFitsMode(MODE_NUMERIC, data)
    ensures var p := VersionParams(1, 13, [], 10, [], 104);
      |data| <= BitsDataMax(p, MODE_NUMERIC)
    ensures |FinishAsWritten(DataStream(MODE_NUMERIC, data, 10), 13)| == 14
    ensures |Finish(DataStream(MODE_NUMERIC, data, 10), 13)| == 13
  {
    ExactFillCapacity();
    var s := DataStream(MODE_NUMERIC, data, 10);
    DataStreamLength(MODE_NUMERIC, data, 10);
    assert |s| == 104;
    FinishAsWrittenOverflows(s, 13);
    FinishShape(s, 13);
    assert PaddedShape(s, Significant(s, 13), Finish(s, 13), |BytesOf(Significant(s, 13))|, 13);
  }

  // ---- the packer ----

  /**
   * The packer's accumulator: the complete codewords `cw` spell the stream up
   * to their end, and the partial codeword `bits` holds the rest of it in its
   * top `8 - remaining` bits, its low `remaining` bits still zero.
   */
  predicate PackState(cw: seq<Byte>, bits: int, remaining: int, stream: seq<Bit>)
  {
    && 1 <= remaining <= 8
    && 0 <= bits < 256
    && |stream| == 8 * |cw| + 8 - remaining
    && stream[..8 * |cw|] == BytesToBits(cw)
    && Bits(bits, 8) == stream[8 * |cw|..] + Zeros(remaining)
  }

  lemma PackEmpty()
    ensures PackState([], 0, 8, [])
  {
    BitsOfZero(8);
  }

  /** A multiple of `p` in `[0, ph * p)` has its factor in `[0, ph)`. */
  lemma FactorBelow(hi: int, p: int, ph: int)
    requires p >= 1 && 0 <= hi * p < ph * p
    ensures 0 <= hi < ph
  {
    if hi < 0 {
      MulLe(hi, -1, p);
    }
    if hi >= ph {
      MulLe(ph, hi, p);
    }
  }

  /** Adding a digit below a number in base `pn` stays below `ph * pn`. */
  lemma DigitBelow(hi: int, x: int, pn: int, ph: int)
    requires pn >= 1 && 0 <= hi < ph && 0 <= x < pn
    ensures 0 <= hi * pn + x < ph * pn
  {
    MulLe(hi + 1, ph, pn);
    MulLe(0, hi, pn);
  }

  /** Arithmetic of adding `x` just below the pending bits, on plain numbers. */
  lemma ScaleArith(bits: int, hi: int, x: int, p8: int, pr: int, pn: int, prn: int, ph: int)
    requires pn >= 1 && prn >= 1 && ph >= 1 && pr == pn * prn && p8 == ph * pr
    requires bits == hi * pr && 0 <= bits < p8 && 0 <= x < pn
    ensures 0 <= hi < ph
    ensures bits + x * prn == (hi * pn + x) * prn
    ensures 0 <= bits + x * prn < p8
  {
    FactorBelow(hi, pr, ph);
    DigitBelow(hi, x, pn, ph);
    var v := hi * pn + x;
    assert bits + x * prn == v * prn by {
      assert hi * pr == (hi * pn) * prn;
    }
    MulLe(v + 1, ph * pn, prn);
    MulLe(0, v, prn);
    assert (ph * pn) * prn == p8;
  }

  /** Low bits of a codeword that are zero make it a multiple of their weight. */
  lemma LowZeros(bits: nat, r: nat)
    requires r <= 8 && Bits(bits, 8)[8 - r..] == Zeros(r)
    ensures bits == ShiftLeft(ShiftRight(bits, r), r)
    ensures Bits(bits, 8)[..8 - r] == Bits(ShiftRight(bits, r), 8 - r)
  {
    BitsSplit(bits, 8, r);
    assert Bits(bits, r) == Zeros(r);
    ValueBits(bits, r);
    BitsOfZero(r);
    ValueBits(0, r);
    ExactDiv(bits, Pow2(r));
  }

  /** The numbers of `hi << r | x << (r - n)`. */
  lemma FillBelowValue(hi: nat, r: nat, x: nat, n: nat)
    requires n <= r <= 8 && x < Pow2(n) && ShiftLeft(hi, r) < 256
    ensures ShiftLeft(hi, r) + ShiftLeft(x, r - n) == ShiftLeft(ShiftLeft(hi, n) + x, r - n)
    ensures ShiftLeft(hi, r) + ShiftLeft(x, r - n) < 256
  {
    Pow2Add(n, r - n);
    Pow2Add(8 - r, r);
    Pow2Of8();
    ScaleArith(ShiftLeft(hi, r), hi, x, 256, Pow2(r), Pow2(n), Pow2(r - n), Pow2(8 - r));
  }

  /** Shifting left by `b` appends `b` zero bits. */
  lemma ShiftedBits(v: nat, a: nat, b: nat)
    ensures Bits(ShiftLeft(v, b), a + b) == Bits(v, a) + Zeros(b)
  {
    assert ShiftLeft(v, b) == ShiftLeft(v, b) + 0;
    BitsConcat(v, 0, a, b);
    BitsOfZero(b);
  }

  /** The bits of `hi`, then `x` in `n` bits, then zeros, as one `w`-bit word. */
  lemma FillBelowBits(hi: nat, x: nat, r: nat, n: nat, w: nat)
    requires n <= r <= w && x < Pow2(n)
    ensures Bits(ShiftLeft(ShiftLeft(hi, n) + x, r - n), w) == Bits(hi, w - r) + Bits(x, n) + Zeros(r - n)
  {
    var v := ShiftLeft(hi, n) + x;
    ShiftedBits(v, w - r + n, r - n);
    BitsConcat(hi, x, w - r, n);
  }

  /**
   * Or-ing the `n` bits of `x` into a partial codeword just below its pending
   * bits: `bits | x << (remaining - n)`.
   */
  lemma FillBelow(bits: nat, r: nat, x: nat, n: nat)
    requires bits < 256 && n <= r <= 8 && x < Pow2(n)
    requires Bits(bits, 8)[8 - r..] == Zeros(r)
    ensures bits + ShiftLeft(x, r - n) < 256
    ensures Bits(bits + ShiftLeft(x, r - n), 8) == Bits(bits, 8)[..8 - r] + Bits(x, n) + Zeros(r - n)
  {
    LowZeros(bits, r);
    var hi := ShiftRight(bits, r);
    FillBelowValue(hi, r, x, n);
    FillBelowBits(hi, x, r, n, 8);
  }

  /** The `n < remaining` branch: the value goes below the pending bits. */
  lemma PackBelow(cw: seq<Byte>, bits: int, remaining: int, stream: seq<Bit>, x: nat, n: nat)
    requires PackState(cw, bits, remaining, stream)
    requires 0 < n < remaining && x < Pow2(n)
    ensures PackState(cw, bits + ShiftLeft(x, remaining - n), remaining - n, stream + Bits(x, n))
  {
    var k := 8 * |cw|;
    Parts(Bits(bits, 8), stream[k..], Zeros(remaining));
    FillBelow(bits, remaining, x, n);
    AppendAfter(stream, k, Bits(x, n));
  }

  /** The `n >= remaining` branch: the top `remaining` bits of `x` complete a codeword. */
  lemma PackComplete(cw: seq<Byte>, bits: int, remaining: int, stream: seq<Bit>, x: nat, n: nat)
    requires PackState(cw, bits, remaining, stream)
    requires remaining <= n && x < Pow2(n)
    ensures ShiftRight(x, n - remaining) < Pow2(remaining)
    ensures bits + ShiftRight(x, n - remaining) < 256
    ensures Bits(x, n) == Bits(ShiftRight(x, n - remaining), remaining) + Bits(x, n - remaining)
    ensures PackState(cw + [bits + ShiftRight(x, n - remaining)], 0, 8, stream + Bits(ShiftRight(x, n - remaining), remaining))
  {
    TopBits(x, n, remaining);
    CompleteWith(cw, bits, remaining, stream, ShiftRight(x, n - remaining));
  }

  /** The `remaining` bits of `h` fill the partial codeword, which joins the complete ones. */
  lemma CompleteWith(cw: seq<Byte>, bits: int, r: int, stream: seq<Bit>, h: nat)
    requires PackState(cw, bits, r, stream) && h < Pow2(r)
    ensures bits + h < 256
    ensures PackState(cw + [bits + h], 0, 8, stream + Bits(h, r))
  {
    FillRest(bits, stream[8 * |cw|..], r, h);
    CompleteCodeword(cw, bits, h, stream, Bits(h, r));
  }

  /** Or-ing `h` into the last `r` free bits of a partial codeword completes it. */
  lemma FillRest(bits: int, pending: seq<Bit>, r: int, h: nat)
    requires 0 <= bits < 256 && 1 <= r <= 8 && |pending| == 8 - r && h < Pow2(r)
    requires Bits(bits, 8) == pending + Zeros(r)
    ensures bits + h < 256 && Bits(bits + h, 8) == pending + Bits(h, r)
  {
    Parts(Bits(bits, 8), pending, Zeros(r));
    FillBelow(bits, r, h, r);
    assert ShiftLeft(h, 0) == h;
  }

  /** A stream of whole codewords with nothing pending. */
  lemma WholeCodewords(cw: seq<Byte>, stream: seq<Bit>)
    requires stream == BytesToBits(cw)
    ensures PackState(cw, 0, 8, stream)
  {
    BitsOfZero(8);
    assert stream[8 * |cw|..] == [];
  }

  /** The stream so far becomes whole codewords once the partial codeword is full. */
  lemma CompleteCodeword(cw: seq<Byte>, bits: int, h: int, stream: seq<Bit>, t: seq<Bit>)
    requires 0 <= bits + h < 256 && 8 * |cw| <= |stream| && stream[..8 * |cw|] == BytesToBits(cw)
    requires Bits(bits + h, 8) == stream[8 * |cw|..] + t
    ensures PackState(cw + [bits + h], 0, 8, stream + t)
  {
    var k := 8 * |cw|;
    AppendAfter(stream, k, t);
    Rejoin(stream + t, k, BytesToBits(cw), Bits(bits + h, 8));
    BytesToBitsSnoc(cw, bits + h);
    WholeCodewords(cw + [bits + h], stream + t);
  }

  /** `pack(x, n)`: appends the low `n` bits of `x` to the stream. */
  method Pack(cw: seq<Byte>, bits: int, remaining: int, x: nat, n: nat, ghost stream: seq<Bit>)
    returns (cw': seq<Byte>, bits': int, remaining': int)
    requires PackState(cw, bits, remaining, stream)
    ensures PackState(cw', bits', remaining', stream + Bits(x, n))
  {
    cw', bits', remaining' := cw, bits, remaining;
    var x: nat, n: nat := x, n;
    ghost var done := stream;
    ghost var goal := done + Bits(x, n);
    while n > 0
      invariant PackState(cw', bits', remaining', done)
      invariant done + Bits(x, n) == goal
    {
      cw', bits', remaining', x, n, done := PackStep(cw', bits', remaining', x, n, done);
    }
    assert Bits(x, 0) == [];
  }

  /**
   * One turn of the loop of `pack`: the low `n` bits of `x` either all go
   * below the pending bits, or their top `remaining` bits complete a codeword
   * and the rest is left for the next turn.
   */
  method PackStep(cw: seq<Byte>, bits: int, remaining: int, x: nat, n: nat, ghost done: seq<Bit>)
    returns (cw': seq<Byte>, bits': int, remaining': int, x': nat, n': nat, ghost done': seq<Bit>)
    requires PackState(cw, bits, remaining, done) && n > 0
    ensures PackState(cw', bits', remaining', done')
    ensures done' + Bits(x', n') == done + Bits(x, n)
    ensures n' < n
  {
    BitsMod(x, n);
    x' := LowBits(x, n);
    if n < remaining {
      PackBelow(cw, bits, remaining, done, x', n);
      bits' := bits + ShiftLeft(x', remaining - n);  // bits |= x << (remaining -= n)
      remaining' := remaining - n;
      cw' := cw;
      done' := done + Bits(x', n);
      assert Bits(x', 0) == [];
      n' := 0;
    } else {
      PackComplete(cw, bits, remaining, done, x', n);
      var h := ShiftRight(x', n - remaining);  // x >>> (n -= remaining)
      Assoc(done, Bits(h, remaining), Bits(x', n - remaining));
      cw' := cw + [bits + h];
      done' := done + Bits(h, remaining);
      n' := n - remaining;
      bits' := 0;
      remaining' := 8;
    }
  }

  /** The last `push(bits)`: the pending bits, zero-filled, end the codewords. */
  lemma PackFlush(cw: seq<Byte>, bits: int, remaining: int, stream: seq<Bit>)
    requires PackState(cw, bits, remaining, stream)
    ensures remaining < 8 ==> cw + [bits] == BytesOf(AlignToByte(stream))
    ensures remaining == 8 ==> cw == BytesOf(AlignToByte(stream))
  {
    var k := 8 * |cw|;
    DivMod(|stream|, 8, |cw|, 8 - remaining);
    if remaining < 8 {
      assert AlignToByte(stream) == stream + Zeros(remaining);
      AppendAfter(stream, k, Zeros(remaining));
      Rejoin(stream + Zeros(remaining), k, BytesToBits(cw), Bits(bits, 8));
      BytesToBitsSnoc(cw, bits);
      BytesRoundTrip(cw + [bits]);
    } else {
      assert Zeros(0) == [];
      assert AlignToByte(stream) == stream;
      assert stream == stream[..k];
      BytesRoundTrip(cw);
    }
  }

  // ---- dataToCodewords ----

  /** The work left after the group of three digits ending at `i`. */
  lemma NumericAdvance(done: seq<Bit>, goal: seq<Bit>, data: seq<int>, i: nat)
    requires AllDigits(data) && 2 <= i < |data|
    requires AllDigits(data[i - 2..]) && done + NumericBits(data[i - 2..]) == goal
    ensures AllDigits(data[i + 1..])
    ensures (done + Bits(Triple(data[i - 2], data[i - 1], data[i]), 10)) + NumericBits(data[i + 1..]) == goal
  {
    assert data[i - 2..][3..] == data[i + 1..];
    Assoc(done, Bits(Triple(data[i - 2], data[i - 1], data[i]), 10), NumericBits(data[i + 1..]));
  }

  /** The last one or two digits, packed in 4 or 7 bits. */
  lemma NumericTail(data: seq<int>, j: nat, g: nat)
    requires AllDigits(data) && j == 3 * g && j <= |data| < j + 3
    ensures AllDigits(data[j..])
    ensures |data| % 3 == 0 ==> NumericBits(data[j..]) == []
    ensures |data| % 3 == 1 ==> NumericBits(data[j..]) == Bits(Digit(data[|data| - 1]), 4)
    ensures |data| % 3 == 2 ==> NumericBits(data[j..]) == Bits(Pair(data[|data| - 2], data[|data| - 1]), 7)
  {
    DivMod(|data|, 3, g, |data| - j);
  }

  /** The `MODE_NUMERIC` case: groups of three digits, then the last one or two. */
  method PackNumeric(cw: seq<Byte>, bits: int, remaining: int, data: seq<int>, ghost stream: seq<Bit>)
    returns (cw': seq<Byte>, bits': int, remaining': int)
    requires PackState(cw, bits, remaining, stream) && AllDigits(data)
    ensures PackState(cw', bits', remaining', stream + NumericBits(data))
  {
    cw', bits', remaining' := cw, bits, remaining;
    ghost var done := stream;
    ghost var groups: nat := 0;
    assert data[0..] == data;
    var i := 2;
    while i < |data|
      invariant i - 2 == 3 * groups <= |data|
      invariant AllDigits(data[i - 2..])
      invariant PackState(cw', bits', remaining', done)
      invariant done + NumericBits(data[i - 2..]) == stream + NumericBits(data)
    {
      var v := Triple(data[i - 2], data[i - 1], data[i]);  // +(data[i - 2] + data[i - 1] + data[i])
      NumericAdvance(done, stream + NumericBits(data), data, i);
      cw', bits', remaining' := Pack(cw', bits', remaining', v, 10, done);
      done := done + Bits(v, 10);
      i := i + 3;
      groups := groups + 1;
    }
    NumericTail(data, i - 2, groups);
    var rest := [0, 4, 7][|data| % 3];
    if rest != 0 {
      var v := if rest == 7 then Pair(data[|data| - 2], data[|data| - 1]) else Digit(data[|data| - 1]);
      cw', bits', remaining' := Pack(cw', bits', remaining', v, rest, done);
    } else {
      assert done == done + NumericBits(data[i - 2..]);
    }
  }

  /** The work left after the pair of characters ending at `i`. */
  lemma AlphanumericAdvance(done: seq<Bit>, goal: seq<Bit>, data: seq<int>, i: nat)
    requires AllAlphanumeric(data) && 1 <= i < |data|
    requires AllAlphanumeric(data[i - 1..]) && done + AlphanumericBits(data[i - 1..]) == goal
    ensures AllAlphanumeric(data[i + 1..])
    ensures (done + Bits(CodePair(data[i - 1], data[i]), 11)) + AlphanumericBits(data[i + 1..]) == goal
  {
    assert data[i - 1..][2..] == data[i + 1..];
    Assoc(done, Bits(CodePair(data[i - 1], data[i]), 11), AlphanumericBits(data[i + 1..]));
  }

  /** A last single character, packed in 6 bits. */
  lemma AlphanumericTail(data: seq<int>, j: nat, g: nat)
    requires AllAlphanumeric(data) && j == 2 * g && j <= |data| < j + 2
    ensures AllAlphanumeric(data[j..])
    ensures |data| % 2 == 0 ==> AlphanumericBits(data[j..]) == []
    ensures |data| % 2 == 1 ==> AlphanumericBits(data[j..]) == Bits(AlphanumericCode(data[|data| - 1]), 6)
  {
    DivMod(|data|, 2, g, |data| - j);
  }

  /** The `MODE_ALPHANUMERIC` case: pairs of characters, then a last single one. */
  method PackAlphanumeric(cw: seq<Byte>, bits: int, remaining: int, data: seq<int>, ghost stream: seq<Bit>)
    returns (cw': seq<Byte>, bits': int, remaining': int)
    requires PackState(cw, bits, remaining, stream) && AllAlphanumeric(data)
    ensures PackState(cw', bits', remaining', stream + AlphanumericBits(data))
  {
    cw', bits', remaining' := cw, bits, remaining;
    ghost var done := stream;
    ghost var pairs: nat := 0;
    assert data[0..] == data;
    var i := 1;
    while i < |data|
      invariant i - 1 == 2 * pairs <= |data|
      invariant AllAlphanumeric(data[i - 1..])
      invariant PackState(cw', bits', remaining', done)
      invariant done + AlphanumericBits(data[i - 1..]) == stream + AlphanumericBits(data)
    {
      var v := CodePair(data[i - 1], data[i]);
      AlphanumericAdvance(done, stream + AlphanumericBits(data), data, i);
      cw', bits', remaining' := Pack(cw', bits', remaining', v, 11, done);
      done := done + Bits(v, 11);
      i := i + 2;
      pairs := pairs + 1;
    }
    AlphanumericTail(data, i - 1, pairs);
    if |data| % 2 == 1 {
      var v := AlphanumericCode(data[|data| - 1]);
      cw', bits', remaining' := Pack(cw', bits', remaining', v, 6, done);
    } else {
      assert done == done + AlphanumericBits(data[i - 1..]);
    }
  }

  /** The work left after the octet at `j`. */
  lemma OctetAdvance(done: seq<Bit>, goal: seq<Bit>, data: seq<int>, j: nat)
    requires AllOctets(data) && j < |data|
    requires AllOctets(data[j..]) && done + OctetBits(data[j..]) == goal
    ensures AllOctets(data[j + 1..])
    ensures (done + Bits(data[j], 8)) + OctetBits(data[j + 1..]) == goal
  {
    assert data[j..][1..] == data[j + 1..];
    Assoc(done, Bits(data[j], 8), OctetBits(data[j + 1..]));
  }

  /** The `MODE_OCTET` case: every octet in eight bits. */
  method PackOctets(cw: seq<Byte>, bits: int, remaining: int, data: seq<int>, ghost stream: seq<Bit>)
    returns (cw': seq<Byte>, bits': int, remaining': int)
    requires PackState(cw, bits, remaining, stream) && AllOctets(data)
    ensures PackState(cw', bits', remaining', stream + OctetBits(data))
  {
    cw', bits', remaining' := cw, bits, remaining;
    ghost var done := stream;
    assert data[0..] == data;
    var j := 0;
    while j < |data|
      invariant 0 <= j <= |data|
      invariant AllOctets(data[j..])
      invariant PackState(cw', bits', remaining', done)
      invariant done + OctetBits(data[j..]) == stream + OctetBits(data)
    {
      OctetAdvance(done, stream + OctetBits(data), data, j);
      cw', bits', remaining' := Pack(cw', bits', remaining', data[j], 8, done);
      done := done + Bits(data[j], 8);
      j := j + 1;
    }
    assert data[j..] == [];
    assert done == done + OctetBits(data[j..]);
  }

  /** Whole codewords and pending bits count the stream: `codewordsData.length` and `remaining === 8`. */
  lemma PackLength(cw: seq<Byte>, bits: int, remaining: int, stream: seq<Bit>)
    requires PackState(cw, bits, remaining, stream)
    ensures |stream| / 8 == |cw|
    ensures |stream| % 8 == 0 <==> remaining == 8
  {
    DivMod(|stream|, 8, |cw|, 8 - remaining);
  }

  /** The pad codewords appended by the two loops at the end. */
  method AppendPadding(cw: seq<Byte>, maxQty: int) returns (cw': seq<Byte>)
    ensures cw' == PadCodewords(cw, maxQty)
  {
    cw' := cw;
    while |cw'| + 1 < maxQty
      invariant PadCodewords(cw', maxQty) == PadCodewords(cw, maxQty)
      decreases maxQty - |cw'|
    {
      cw' := cw' + [0xEC, 0x11];
    }
    if |cw'| < maxQty {
      cw' := cw' + [0xEC];
    }
  }

  /**
   * `dataToCodewords`: the mode indicator, the character count, the data in
   * the mode's packing, the terminator where it has room, the last partial
   * codeword, and pad codewords up to `bitsData >> 3`.
   */
  method DataToCodewords(mode: int, data: seq<int>, bitsFieldDataQty: nat, bitsData: int)
    returns (codewords: seq<Byte>)
    requires DataFitsMode(mode, data)
    ensures codewords == DataCodewords(mode, data, bitsFieldDataQty, bitsData)
  {
    var maxQty := bitsData / 8;  // bitsData >> 3
    PackEmpty();
    var cw, bits, remaining := Pack([], 0, 8, mode, 4, []);
    ghost var stream := Bits(mode, 4);
    assert [] + stream == stream;
    cw, bits, remaining := Pack(cw, bits, remaining, |data|, bitsFieldDataQty, stream);
    stream := stream + Bits(|data|, bitsFieldDataQty);
    if mode == MODE_NUMERIC {
      cw, bits, remaining := PackNumeric(cw, bits, remaining, data, stream);
    } else if mode == MODE_ALPHANUMERIC {
      cw, bits, remaining := PackAlphanumeric(cw, bits, remaining, data, stream);
    } else {
      cw, bits, remaining := PackOctets(cw, bits, remaining, data, stream);
    }
    stream := stream + ModeBits(mode, data);
    assert stream == DataStream(mode, data, bitsFieldDataQty);
    PackLength(cw, bits, remaining, stream);
    var withTerminator := |cw| < maxQty - 1 || (remaining == 8 && |cw| < maxQty);
    assert withTerminator == TerminatorFits(|stream|, maxQty);
    if withTerminator {
      cw, bits, remaining := Pack(cw, bits, remaining, MODE_TERMINATOR, 4, stream);
    }
    stream := Terminate(stream, withTerminator);
    PackFlush(cw, bits, remaining, stream);
    if remaining < 8 {
      cw := cw + [bits];
    }
    codewords := AppendPadding(cw, maxQty);
  }
}
