/**
 * Bit strings read most significant bit first, as the QR bit stream is
 * written (ISO/IEC 18004, section 7.4), and the byte view of such a stream.
 */
module BitStream {

  type Bit = b: int | 0 <= b <= 1
  type Byte = b: int | 0 <= b < 256

  function Pow2(k: nat): (r: nat)
    ensures r >= 1
  {
    if k == 0 then 1 else 2 * Pow2(k - 1)
  }

  /** The low `n` bits of `x`, most significant first (what `pack(x, n)` appends). */
  function Bits(x: nat, n: nat): (s: seq<Bit>)
    ensures |s| == n
  {
    if n == 0 then [] else Bits(x / 2, n - 1) + [x % 2]
  }

  /** `x >>> k`: the bits of `x` above the low `k`. */
  function ShiftRight(x: nat, k: nat): nat
  {
    var p := Pow2(k);
    DivNonNegative(x, p);
    x / p
  }

  lemma DivNonNegative(x: nat, d: int)
    requires d >= 1
    ensures x / d >= 0
  {
  }

  /** `x & ((1 << k) - 1)`: the low `k` bits of `x`. */
  function LowBits(x: nat, k: nat): (r: nat)
    ensures r < Pow2(k)
  {
    var p := Pow2(k);
    ModBelow(x, p);
    x % p
  }

  lemma ModBelow(x: nat, d: int)
    requires d >= 1
    ensures 0 <= x % d < d
  {
  }

  /** `x << k` without overflow. */
  function ShiftLeft(x: nat, k: nat): nat
  {
    x * Pow2(k)
  }

  /** The number a bit string denotes, most significant bit first. */
  function Value(s: seq<Bit>): (v: nat)
    ensures v < Pow2(|s|)
  {
    if s == [] then 0 else 2 * Value(s[..|s| - 1]) + s[|s| - 1]
  }

  /** `n` zero bits. */
  function Zeros(n: nat): (s: seq<Bit>)
    ensures |s| == n && forall i :: 0 <= i < n ==> s[i] == 0
  {
    if n == 0 then [] else Zeros(n - 1) + [0]
  }

  /** The bits of a codeword sequence, eight per codeword. */
  function BytesToBits(cw: seq<Byte>): (s: seq<Bit>)
    ensures |s| == 8 * |cw|
  {
    if cw == [] then [] else BytesToBits(cw[..|cw| - 1]) + Bits(cw[|cw| - 1], 8)
  }

  /** The codewords of a bit string whose length is a multiple of eight. */
  function BytesOf(s: seq<Bit>): (cw: seq<Byte>)
    requires |s| % 8 == 0
    ensures 8 * |cw| == |s|
  {
    if s == [] then [] else BytesOf(s[..|s| - 8]) + [Value(s[|s| - 8..])]
  }

  /** Exclusive or of two bytes (the source's `^` on codewords). */
  function Xor(a: Byte, b: Byte): Byte
  {
    ((a as bv8) ^ (b as bv8)) as int
  }

  /** Quotient and remainder are unique. */
  lemma DivMod(x: int, d: int, q: int, r: int)
    requires d > 0 && 0 <= r < d && x == q * d + r
    ensures x / d == q && x % d == r
  {
    var q', r' := x / d, x % d;
    assert (q - q') * d == r' - r;
    if q > q' {
      MulLe(1, q - q', d);
    } else if q < q' {
      MulLe(1, q' - q, d);
    }
  }

  /** A number with no remainder is its quotient times the divisor. */
  lemma ExactDiv(x: int, d: int)
    requires d > 0 && x % d == 0
    ensures x == (x / d) * d
  {
  }

  lemma MulLe(a: int, b: int, c: int)
    requires a <= b && c >= 0
    ensures a * c <= b * c
  {
  }

  lemma {:induction false} Pow2Add(a: nat, b: nat)
    ensures Pow2(a + b) == Pow2(a) * Pow2(b)
  {
    if b > 0 {
      Pow2Add(a, b - 1);
      assert Pow2(a) * Pow2(b) == Pow2(a) * (2 * Pow2(b - 1));
    }
  }

  /** `n` zero bits are the bits of zero. */
  lemma {:induction false} BitsOfZero(n: nat)
    ensures Bits(0, n) == Zeros(n)
  {
    if n > 0 {
      BitsOfZero(n - 1);
    }
  }

  lemma Pow2Of8()
    ensures Pow2(8) == 256
  {
    assert Pow2(4) == 16;
  }

  /** Taking the last bit off, then `n - 1` more, is taking `n` bits off. */
  lemma HalveRemainder(x: int, m: int)
    requires x >= 0 && m >= 1
    ensures x % (2 * m) == 2 * ((x / 2) % m) + x % 2
    ensures x / (2 * m) == (x / 2) / m
  {
    var q, c := (x / 2) / m, (x / 2) % m;
    assert x / 2 == q * m + c;
    assert x == (q * m + c) * 2 + x % 2;
    assert (q * m + c) * 2 == q * (2 * m) + 2 * c;
    MulLe(c + 1, m, 2);
    DivMod(x, 2 * m, q, 2 * c + x % 2);
  }

  lemma {:induction false} ValueBits(x: nat, n: nat)
    ensures Value(Bits(x, n)) == x % Pow2(n)
  {
    if n > 0 {
      var s := Bits(x, n);
      assert s[..n - 1] == Bits(x / 2, n - 1);
      ValueBits(x / 2, n - 1);
      HalveRemainder(x, Pow2(n - 1));
    }
  }

  lemma {:induction false} BitsValue(s: seq<Bit>)
    ensures Bits(Value(s), |s|) == s
  {
    if s != [] {
      var t := s[..|s| - 1];
      var v := Value(s);
      DivMod(v, 2, Value(t), s[|s| - 1]);
      BitsValue(t);
      assert s == t + [s[|s| - 1]];
    }
  }

  /** Only the low `n` bits matter: `x &= (1 << n) - 1` does not change what is packed. */
  lemma BitsMod(x: nat, n: nat)
    ensures Bits(x % Pow2(n), n) == Bits(x, n)
    ensures Bits(LowBits(x, n), n) == Bits(x, n)
  {
    BitsValue(Bits(x, n));
    ValueBits(x, n);
  }

  /** Splitting `n` bits into the high `n - m` and the low `m`. */
  lemma {:induction false} BitsSplit(x: nat, n: nat, m: nat)
    requires m <= n
    ensures Bits(x, n) == Bits(ShiftRight(x, m), n - m) + Bits(x, m)
  {
    if m > 0 {
      var h := x / 2;
      BitsSplit(h, n - 1, m - 1);
      HalveRemainder(x, Pow2(m - 1));
      assert ShiftRight(h, m - 1) == ShiftRight(x, m);
      var hi, lo := Bits(ShiftRight(x, m), n - m), Bits(h, m - 1);
      assert Bits(x, n) == (hi + lo) + [x % 2];
      assert Bits(x, m) == lo + [x % 2];
    }
  }

  /** Packing `a` in `k` bits and then `b` in `m` bits is packing `a * 2^m + b` in `k + m` bits. */
  lemma BitsConcat(a: nat, b: nat, k: nat, m: nat)
    requires b < Pow2(m)
    ensures Bits(ShiftLeft(a, m) + b, k + m) == Bits(a, k) + Bits(b, m)
  {
    var x := ShiftLeft(a, m) + b;
    BitsSplit(x, k + m, m);
    DivMod(x, Pow2(m), a, b);
    assert ShiftRight(x, m) == a;
    BitsMod(x, m);
  }

  /** Concatenation regroups. */
  lemma Assoc<T>(a: seq<T>, b: seq<T>, c: seq<T>)
    ensures (a + b) + c == a + (b + c)
  {
  }

  /** A stream is its part before `k` followed by its part after. */
  lemma Rejoin(s: seq<Bit>, k: nat, a: seq<Bit>, b: seq<Bit>)
    requires k <= |s| && s[..k] == a && s[k..] == b
    ensures s == a + b
  {
    assert s == s[..k] + s[k..];
  }

  /** The two parts of a concatenation are its slices. */
  lemma Parts(s: seq<Bit>, a: seq<Bit>, b: seq<Bit>)
    requires s == a + b
    ensures s[..|a|] == a && s[|a|..] == b
  {
  }

  /** Appending to a stream leaves what lies before `k` and extends what lies after. */
  lemma AppendAfter(stream: seq<Bit>, k: nat, t: seq<Bit>)
    requires k <= |stream|
    ensures (stream + t)[..k] == stream[..k]
    ensures (stream + t)[k..] == stream[k..] + t
  {
  }

  /** How many times a divisor fits below a bound. */
  lemma DivBelow(x: int, p: int, q: int)
    requires p >= 1 && q >= 1 && 0 <= x < p * q
    ensures 0 <= x / q < p
  {
    if x / q >= p {
      MulLe(p, x / q, q);
    }
  }

  /** The top `r` of `n` bits, `x >>> (n - r)`, and the bits below them. */
  lemma TopBits(x: nat, n: nat, r: nat)
    requires r <= n && x < Pow2(n)
    ensures ShiftRight(x, n - r) < Pow2(r)
    ensures Bits(x, n) == Bits(ShiftRight(x, n - r), r) + Bits(x, n - r)
  {
    Pow2Add(r, n - r);
    DivBelow(x, Pow2(r), Pow2(n - r));
    BitsSplit(x, n, n - r);
  }

  lemma BytesOfSnoc(front: seq<Bit>, back: seq<Bit>)
    requires |front| % 8 == 0 && |back| == 8
    ensures BytesOf(front + back) == BytesOf(front) + [Value(back)]
  {
    var s := front + back;
    assert s[..|s| - 8] == front;
    assert s[|s| - 8..] == back;
  }

  lemma ValueOfByte(b: Byte)
    ensures Value(Bits(b, 8)) == b
  {
    ValueBits(b, 8);
    Pow2Of8();
  }

  /** The bits of codewords ending in `b` end in the eight bits of `b`. */
  lemma BytesToBitsSnoc(cw: seq<Byte>, b: Byte)
    ensures BytesToBits(cw + [b]) == BytesToBits(cw) + Bits(b, 8)
  {
    assert (cw + [b])[..|cw|] == cw;
  }

  lemma {:induction false} BytesRoundTrip(cw: seq<Byte>)
    ensures BytesOf(BytesToBits(cw)) == cw
  {
    if cw != [] {
      var init, last := cw[..|cw| - 1], cw[|cw| - 1];
      calc {
        BytesOf(BytesToBits(cw));
        { assert cw == init + [last]; BytesToBitsSnoc(init, last); }
        BytesOf(BytesToBits(init) + Bits(last, 8));
        { BytesOfSnoc(BytesToBits(init), Bits(last, 8)); }
        BytesOf(BytesToBits(init)) + [Value(Bits(last, 8))];
        { BytesRoundTrip(init); ValueOfByte(last); }
        init + [last];
        cw;
      }
    }
  }

  lemma {:induction false} BitsToBytesRoundTrip(s: seq<Bit>)
    requires |s| % 8 == 0
    ensures BytesToBits(BytesOf(s)) == s
  {
    if s != [] {
      var init, back := s[..|s| - 8], s[|s| - 8..];
      var v: Byte := Value(back);
      calc {
        BytesToBits(BytesOf(s));
        BytesToBits(BytesOf(init) + [v]);
        { BytesToBitsSnoc(BytesOf(init), v); }
        BytesToBits(BytesOf(init)) + Bits(v, 8);
        { BitsToBytesRoundTrip(init); BitsValue(back); }
        init + back;
        s;
      }
    }
  }

  lemma {:induction false} BytesToBitsAppend(a: seq<Byte>, b: seq<Byte>)
    ensures BytesToBits(a + b) == BytesToBits(a) + BytesToBits(b)
  {
    if b != [] {
      assert (a + b)[..|a + b| - 1] == a + b[..|b| - 1];
      BytesToBitsAppend(a, b[..|b| - 1]);
    } else {
      assert a + b == a;
    }
  }

  /** The bits of the first `n` codewords begin the bits of all of them. */
  lemma BytesToBitsPrefix(cw: seq<Byte>, n: nat)
    requires n <= |cw|
    ensures BytesToBits(cw)[..8 * n] == BytesToBits(cw[..n])
  {
    assert cw == cw[..n] + cw[n..];
    BytesToBitsAppend(cw[..n], cw[n..]);
  }

  lemma XorZero(a: Byte)
    ensures Xor(a, 0) == a && Xor(0, a) == a
  {
  }

  /** Bit `i` of `Bits(x, n)`, counted from the most significant end, is `(x >>> (n - 1 - i)) & 1`. */
  lemma {:induction false} BitsIndex(x: nat, n: nat, i: nat)
    requires i < n
    ensures Bits(x, n)[i] == ShiftRight(x, n - 1 - i) % 2
  {
    if i < n - 1 {
      BitsIndex(x / 2, n - 1, i);
      ShiftHalf(x, n - 1 - i);
    }
  }

  lemma ShiftHalf(x: nat, k: nat)
    requires k >= 1
    ensures ShiftRight(x / 2, k - 1) == ShiftRight(x, k)
  {
    assert Pow2(k) == 2 * Pow2(k - 1);
    HalveRemainder(x, Pow2(k - 1));
  }

  /** Bit `k` of the stream of codewords is bit `k % 8` of codeword `k / 8`. */
  lemma {:induction false} BytesToBitsIndex(cw: seq<Byte>, k: nat)
    requires k < 8 * |cw|
    ensures k / 8 < |cw| && BytesToBits(cw)[k] == Bits(cw[k / 8], 8)[k % 8]
  {
    var init := cw[..|cw| - 1];
    if k < 8 * |init| {
      BytesToBitsIndex(init, k);
    } else {
      DivMod(k, 8, |init|, k - 8 * |init|);
    }
  }
}
