/**
 * `textToData`: the characters actually encoded. In numeric and alphanumeric
 * mode they are the characters of the text; in byte mode they are the UTF-8
 * octets of the text, one code point at a time.
 */
module TextEncoder {
  import opened Wrappers
  import opened BitStream
  import opened Iso

  /** The largest value the encoder writes in at most four octets. */
  const MAX_UTF8_VALUE: int := 2097151

  function Pow64(n: nat): (r: nat)
    ensures r >= 1
  {
    if n == 0 then 1 else 64 * Pow64(n - 1)
  }

  /** Continuation octets after the first one: 1 below 2048, 2 below 65536, else 3. */
  function AddOctets(c: nat): (n: nat)
    requires 128 <= c
    ensures 1 <= n <= 3
  {
    if c < 2048 then 1 else if c < 65536 then 2 else 3
  }

  /**
   * The `n` continuation octets of `c`, most significant six bits first:
   * `0x80 | ((c >> 6 * i) & 0x3f)` for `i = n - 1` down to `0`.
   */
  function Continuation(c: nat, n: nat): (s: seq<Byte>)
    ensures |s| == n
    ensures forall k :: 0 <= k < n ==> 0x80 <= s[k] < 0xC0
  {
    if n == 0 then [] else [0x80 + (c / Pow64(n - 1)) % 64] + Continuation(c, n - 1)
  }

  /**
   * The first octet of a multi-octet sequence: a prefix from `[0xc0, 0xe0, 0xf0]`
   * or-ed with `c >> 6 * n`; the shifted value is below the prefix's lowest set
   * bit, so the or is an addition.
   */
  function LeadOctet(c: nat, n: nat): (b: int)
    requires 128 <= c <= MAX_UTF8_VALUE && n == AddOctets(c)
    ensures 0xC0 <= b < 0xF8
  {
    (if n == 1 then 0xC0 else if n == 2 then 0xE0 else 0xF0) + c / Pow64(n)
  }

  /** The octets of one code point. */
  function EncodeCodePoint(c: nat): (s: seq<Byte>)
    requires c <= MAX_UTF8_VALUE
    ensures 1 <= |s| <= 4
  {
    if c < 128 then [c]
    else
      var n := AddOctets(c);
      [LeadOctet(c, n)] + Continuation(c, n)
  }

  /**
   * The octets of a whole text, or `None` when a code point is too large for
   * four octets (the source then empties `data`).
   */
  function Utf8(text: seq<nat>): (r: Option<seq<Byte>>)
    ensures r.Some? <==> forall k :: 0 <= k < |text| ==> text[k] <= MAX_UTF8_VALUE
    ensures r.Some? ==> |text| <= |r.value| <= 4 * |text|
  {
    if |text| == 0 then Some([])
    else match Utf8(text[..|text| - 1])
      case None => None
      case Some(prefix) =>
        var c := text[|text| - 1];
        if c > MAX_UTF8_VALUE then None else Some(prefix + EncodeCodePoint(c))
  }

  /** `data` after `textToData` on an empty `data`. */
  function DataOf(mode: int, text: seq<nat>): seq<int>
  {
    if mode == MODE_NUMERIC || mode == MODE_ALPHANUMERIC then text
    else match Utf8(text)
      case None => []
      case Some(octets) => octets
  }

  lemma {:induction false} Utf8NoneExtends(text: seq<nat>, i: nat)
    requires i <= |text| && Utf8(text[..i]) == None
    ensures Utf8(text) == None
    decreases |text| - i
  {
    if i < |text| {
      assert text[..i + 1][..i] == text[..i];
      Utf8NoneExtends(text, i + 1);
    } else {
      assert text[..i] == text;
    }
  }

  /**
   * `textToData` in byte mode: code points to octets, with the inner loop that
   * writes the continuation octets.
   */
  method TextToOctets(text: seq<nat>) returns (data: seq<Byte>)
    ensures Utf8(text) == None ==> data == []
    ensures Utf8(text) != None ==> data == Utf8(text).value
  {
    data := [];
    var i := 0;
    while i < |text|
      invariant 0 <= i <= |text|
      invariant Utf8(text[..i]) == Some(data)
    {
      var c := text[i];
      assert text[..i + 1][..i] == text[..i];
      if c < 128 {
        data := data + [c];
      } else if c > MAX_UTF8_VALUE {
        data := [];
        Utf8NoneExtends(text, i + 1);
        return;
      } else {
        data := AppendMultiOctet(data, c);
      }
      i := i + 1;
    }
    assert text[..i] == text;
  }

  /** The branch of `textToData` for a code point of two to four octets. */
  method AppendMultiOctet(data: seq<Byte>, c: nat) returns (data': seq<Byte>)
    requires 128 <= c <= MAX_UTF8_VALUE
    ensures data' == data + EncodeCodePoint(c)
  {
    var n := AddOctets(c);
    var lead := LeadOctet(c, n);
    assert (data + [lead]) + Continuation(c, n) == data + EncodeCodePoint(c);
    data' := data + [lead];
    var k := n;
    while k > 0
      invariant 0 <= k <= n
      invariant data' + Continuation(c, k) == data + EncodeCodePoint(c)
    {
      k := k - 1;
      var octet: Byte := 0x80 + (c / Pow64(k)) % 64;
      ghost var tail := Continuation(c, k);
      assert Continuation(c, k + 1) == [octet] + tail;
      assert (data' + [octet]) + tail == data' + ([octet] + tail);
      data' := data' + [octet];
    }
  }

  /** `textToData`. */
  method TextToData(mode: int, text: seq<nat>) returns (data: seq<int>)
    ensures data == DataOf(mode, text)
  {
    if mode == MODE_NUMERIC || mode == MODE_ALPHANUMERIC {
      data := text;
    } else {
      data := TextToOctets(text);
    }
  }

  // ---- decoding, the partner of the encoder ----

  /** Continuation octets expected after a first octet. */
  function ExtraOctets(b: Byte): nat
  {
    if b < 0x80 then 0 else if b < 0xE0 then 1 else if b < 0xF0 then 2 else 3
  }

  /** The value bits of a first octet. */
  function LeadValue(b: Byte): int
  {
    if b < 0x80 then b else if b < 0xE0 then b - 0xC0 else if b < 0xF0 then b - 0xE0 else b - 0xF0
  }

  /** The six value bits of each continuation octet, most significant first. */
  function ContinuationValue(s: seq<Byte>): int
  {
    if |s| == 0 then 0 else (s[0] - 0x80) * Pow64(|s| - 1) + ContinuationValue(s[1..])
  }

  /** A UTF-8 decoder; a truncated sequence at the end is dropped. */
  function DecodeUtf8(octets: seq<Byte>): seq<int>
    decreases |octets|
  {
    if |octets| == 0 then []
    else
      var n := ExtraOctets(octets[0]);
      if |octets| < 1 + n then []
      else [LeadValue(octets[0]) * Pow64(n) + ContinuationValue(octets[1..1 + n])] + DecodeUtf8(octets[1 + n..])
  }

  lemma ModSplit(c: nat, p: nat)
    requires p >= 1
    ensures c % (64 * p) == ((c / p) % 64) * p + c % p
    ensures c / (64 * p) == (c / p) / 64
  {
    var q := c / p;
    var r := c % p;
    assert c == q * p + r;
    assert q == (q / 64) * 64 + q % 64;
    assert c == (q / 64) * (64 * p) + ((q % 64) * p + r) by {
      assert q * p == ((q / 64) * 64 + q % 64) * p;
    }
    MulLe(q % 64, 63, p);
    DivMod(c, 64 * p, q / 64, (q % 64) * p + r);
  }

  lemma {:induction false} ContinuationValueOf(c: nat, n: nat)
    ensures ContinuationValue(Continuation(c, n)) == c % Pow64(n)
  {
    if n > 0 {
      var s := Continuation(c, n);
      assert s[1..] == Continuation(c, n - 1);
      ContinuationValueOf(c, n - 1);
      ModSplit(c, Pow64(n - 1));
    }
  }

  lemma LeadOctetDecodes(c: nat)
    requires 128 <= c <= MAX_UTF8_VALUE
    ensures ExtraOctets(LeadOctet(c, AddOctets(c))) == AddOctets(c)
    ensures LeadValue(LeadOctet(c, AddOctets(c))) == c / Pow64(AddOctets(c))
  {
    assert Pow64(1) == 64 && Pow64(2) == 4096 && Pow64(3) == 262144;
  }

  lemma DivTimesPlusMod(c: nat, p: nat)
    requires p >= 1
    ensures (c / p) * p + c % p == c
  {
  }

  /** Decoding one encoded code point gives it back, whatever follows. */
  lemma DecodeCodePoint(c: nat, rest: seq<Byte>)
    requires c <= MAX_UTF8_VALUE
    ensures DecodeUtf8(EncodeCodePoint(c) + rest) == [c] + DecodeUtf8(rest)
  {
    var s := EncodeCodePoint(c) + rest;
    if c < 128 {
      assert s[1..] == rest;
    } else {
      var n := AddOctets(c);
      LeadOctetDecodes(c);
      assert s[0] == LeadOctet(c, n);
      assert s[1..1 + n] == Continuation(c, n);
      assert s[1 + n..] == rest;
      ContinuationValueOf(c, n);
      DivTimesPlusMod(c, Pow64(n));
    }
  }

  /** The encoder is injective: decoding its octets gives the text back. */
  lemma {:induction false} Utf8RoundTrip(text: seq<nat>)
    requires Utf8(text) != None
    ensures DecodeUtf8(Utf8(text).value) == text
  {
    if |text| > 0 {
      Utf8Cons(text);
      Utf8RoundTrip(text[1..]);
      DecodeCodePoint(text[0], Utf8(text[1..]).value);
      assert text == [text[0]] + text[1..];
    }
  }

  /** Encoding a text is encoding its first code point, then the rest. */
  lemma {:induction false} Utf8Cons(text: seq<nat>)
    requires |text| > 0
    ensures Utf8(text) ==
      if text[0] > MAX_UTF8_VALUE || Utf8(text[1..]) == None then None
      else Some(EncodeCodePoint(text[0]) + Utf8(text[1..]).value)
  {
    var last := text[|text| - 1];
    if |text| == 1 {
      assert text[..0] == [] && text[1..] == [];
      if last <= MAX_UTF8_VALUE {
        assert [] + EncodeCodePoint(last) == EncodeCodePoint(last) + [];
      }
    } else {
      var front := text[..|text| - 1];
      Utf8Cons(front);
      assert front[1..] == text[1..][..|text| - 2];
      assert front[0] == text[0];
      assert text[1..][|text| - 2] == last;
      if text[0] <= MAX_UTF8_VALUE && Utf8(front[1..]) != None && last <= MAX_UTF8_VALUE {
        var e := EncodeCodePoint(text[0]);
        var m := Utf8(front[1..]).value;
        assert (e + m) + EncodeCodePoint(last) == e + (m + EncodeCodePoint(last));
      }
    }
  }

  /** Text of ASCII characters is encoded octet for octet. */
  lemma {:induction false} Utf8Ascii(text: seq<nat>)
    requires forall k :: 0 <= k < |text| ==> text[k] < 128
    ensures Utf8(text) == Some(text)
  {
    if |text| > 0 {
      Utf8Ascii(text[..|text| - 1]);
      assert text[..|text| - 1] + [text[|text| - 1]] == text;
    }
  }
}
