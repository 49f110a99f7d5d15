/**
 * `controlOptionsCreator`: the check of the options of a `DataQR` object
 * before encoding. The text must be a non-empty string, the mode is
 * detected or checked against the text, the text is converted to `data`,
 * the level must lie in -1..3, the version is searched (the least one the
 * data fits, with the level chosen in the order H, Q, M, L when it is
 * automatic) or checked, and the mask must be -1 or a mask pattern. The
 * first failure is recorded in `error` and `errorSubcode`; the source
 * throws and catches it, the model returns it as a value.
 */
module ControlOptions {
  import opened Wrappers
  import opened Iso
  import opened Capacity
  import opened DataQr
  import TextEncoder
  import Codewords
  import FormatInfo

  /** `errorQR(setting, subcode)`: the option that failed and why. */
  datatype QrError = QrError(setting: string, subcode: string)

  /** The mode, level and version the check settles on. */
  datatype Choice = Choice(mode: int, eccl: int, version: int)

  /** `ecclPriority`: the levels tried when the level is automatic, most robust first. */
  const ECCL_PRIORITY: seq<int> := [ECCL_H, ECCL_Q, ECCL_M, ECCL_L]

  lemma PriorityLevels()
    ensures forall i :: 0 <= i < 4 ==> IsEccl(ECCL_PRIORITY[i])
  {
  }

  // ---------------------------------------------------------------- mode

  /** `NUMERIC_REGEXP`, `/^\d*$/`, matches the whole text. */
  predicate NumericText(text: seq<int>)
  {
    forall k :: 0 <= k < |text| ==> IsDigit(text[k])
  }

  /** `ALPHANUMERIC_REGEXP`, `/^[A-Z0-9 $%*+\-./:]*$/`, matches the whole text. */
  predicate AlphanumericText(text: seq<int>)
  {
    forall k :: 0 <= k < |text| ==> IsDigit(text[k]) || 'A' as int <= text[k] <= 'Z' as int || IsSymbol(text[k])
  }

  /** `testMode`: the mode the text is encoded in, given the mode option (-1 for automatic). */
  function DetectMode(mode: int, text: seq<nat>): (r: Result<int, QrError>)
    ensures r.Ok? ==> IsMode(r.value) && (mode != -1 ==> r.value == mode)
    ensures mode == -1 || mode == MODE_OCTET ==> r.Ok?
    ensures r.Err? ==> r.error == QrError("mode", "1")
  {
    if (mode == MODE_NUMERIC || mode == -1) && NumericText(text) then Ok(MODE_NUMERIC)
    else if (mode == MODE_ALPHANUMERIC || mode == -1) && AlphanumericText(text) then Ok(MODE_ALPHANUMERIC)
    else if mode == MODE_OCTET || mode == -1 then Ok(MODE_OCTET)
    else Err(QrError("mode", "1"))
  }

  /**
   * The automatic mode is numeric exactly for an all-digit text, otherwise
   * alphanumeric exactly for a text of the alphanumeric set, otherwise byte.
   */
  lemma AutoMode(text: seq<nat>)
    ensures DetectMode(-1, text) == Ok(MODE_NUMERIC) <==> NumericText(text)
    ensures DetectMode(-1, text) == Ok(MODE_ALPHANUMERIC) <==> !NumericText(text) && AlphanumericText(text)
    ensures DetectMode(-1, text) == Ok(MODE_OCTET) <==> !NumericText(text) && !AlphanumericText(text)
  {
  }

  /**
   * An explicit mode is kept when the text is in its character set (byte
   * mode takes every text) and is refused with `('mode', '1')` otherwise;
   * any other value of the option is refused.
   */
  lemma ExplicitMode(mode: int, text: seq<nat>)
    requires mode != -1
    ensures mode == MODE_OCTET ==> DetectMode(mode, text) == Ok(MODE_OCTET)
    ensures mode == MODE_NUMERIC ==>
      DetectMode(mode, text) == (if NumericText(text) then Ok(MODE_NUMERIC) else Err(QrError("mode", "1")))
    ensures mode == MODE_ALPHANUMERIC ==>
      DetectMode(mode, text) == (if AlphanumericText(text) then Ok(MODE_ALPHANUMERIC) else Err(QrError("mode", "1")))
    ensures !IsMode(mode) ==> DetectMode(mode, text) == Err(QrError("mode", "1"))
  {
  }

  /** A digit is in the alphanumeric set, so a numeric text is an alphanumeric text. */
  lemma NumericIsAlphanumeric(text: seq<int>)
    requires NumericText(text)
    ensures AlphanumericText(text)
  {
  }

  /**
   * The detected mode is a mode, and the data `textToData` makes for it is
   * data of that mode: digits, characters of the alphanumeric table, or
   * octets.
   */
  lemma DetectModeData(mode: int, text: seq<nat>)
    requires DetectMode(mode, text).Ok?
    ensures IsMode(DetectMode(mode, text).value)
    ensures Codewords.DataFitsMode(DetectMode(mode, text).value, TextEncoder.DataOf(DetectMode(mode, text).value, text))
  {
    var m := DetectMode(mode, text).value;
    var data := TextEncoder.DataOf(m, text);
    if m == MODE_NUMERIC {
      assert data == text;
    } else if m == MODE_ALPHANUMERIC {
      assert data == text;
      forall k | 0 <= k < |data|
        ensures IsAlphanumeric(data[k])
      {
        AlphanumericSet(data[k]);
      }
    }
  }

  // ---------------------------------------------------------------- version

  /** `fitLength`: with the parameters of `version` at level `eccl`, `len` characters fit. */
  predicate Fits(t: Tables, mode: int, eccl: int, version: int, len: nat)
    requires ValidTables(t) && IsMode(mode) && IsEccl(eccl) && 1 <= version <= 40
  {
    len <= BitsDataMax(DeriveVersionParams(t, version, mode, eccl), mode)
  }

  /** The least version from `v` on that the data fits at level `eccl`, or 41 when there is none. */
  function FirstFit(t: Tables, mode: int, eccl: int, len: nat, v: int): (w: int)
    requires ValidTables(t) && IsMode(mode) && IsEccl(eccl) && 1 <= v <= 41
    ensures v <= w <= 41
    ensures w <= 40 ==> Fits(t, mode, eccl, w, len)
    ensures forall u :: v <= u < w ==> !Fits(t, mode, eccl, u, len)
    decreases 41 - v
  {
    if v == 41 then 41
    else if Fits(t, mode, eccl, v, len) then v
    else FirstFit(t, mode, eccl, len, v + 1)
  }

  /** The first index from `i` on in `ECCL_PRIORITY` whose level the data fits at `version`, or 4. */
  function FirstLevel(t: Tables, mode: int, len: nat, version: int, i: nat): (j: nat)
    requires ValidTables(t) && IsMode(mode) && 1 <= version <= 40 && i <= 4
    ensures i <= j <= 4
    ensures j < 4 ==> IsEccl(ECCL_PRIORITY[j]) && Fits(t, mode, ECCL_PRIORITY[j], version, len)
    ensures forall k :: i <= k < j ==> IsEccl(ECCL_PRIORITY[k]) && !Fits(t, mode, ECCL_PRIORITY[k], version, len)
    decreases 4 - i
  {
    PriorityLevels();
    if i == 4 then 4
    else if Fits(t, mode, ECCL_PRIORITY[i], version, len) then i
    else FirstLevel(t, mode, len, version, i + 1)
  }

  /**
   * `testVersion`: with the automatic version (-1) the least version the
   * data fits, at level H when the level is automatic too, and failing
   * that at version 40 the first of Q, M, L that fits; an explicit version
   * must lie in 1..40 and take the data at the given level, or at the first
   * of H, Q, M, L that fits when the level is automatic.
   */
  function SearchVersion(t: Tables, mode: int, len: nat, version: int, ecclChoice: bool, eccl: int): (r: Result<Choice, QrError>)
    requires ValidTables(t) && IsMode(mode) && (ecclChoice || IsEccl(eccl))
    ensures r.Ok? ==> r.value.mode == mode && IsEccl(r.value.eccl) && 1 <= r.value.version <= 40
    ensures r.Ok? && !ecclChoice ==> r.value.eccl == eccl
    ensures r.Ok? && version != -1 ==> r.value.version == version
    ensures r.Err? ==> r.error.setting == "version"
  {
    PriorityLevels();
    if version == -1 then
      var e := if ecclChoice then ECCL_H else eccl;
      var v := FirstFit(t, mode, e, len, 1);
      if v <= 40 then Ok(Choice(mode, e, v))
      else if !ecclChoice then Err(QrError("version", "1"))
      else
        var j := FirstLevel(t, mode, len, 40, 1);
        if j < 4 then Ok(Choice(mode, ECCL_PRIORITY[j], 40)) else Err(QrError("version", "1"))
    else if version < 1 || version > 40 then Err(QrError("version", "2"))
    else if !ecclChoice then
      if Fits(t, mode, eccl, version, len) then Ok(Choice(mode, eccl, version)) else Err(QrError("version", "3"))
    else
      var j := FirstLevel(t, mode, len, version, 0);
      if j < 4 then Ok(Choice(mode, ECCL_PRIORITY[j], version)) else Err(QrError("version", "3"))
  }

  /** Whatever the search settles on is a level and a version the data fits. */
  lemma SearchSound(t: Tables, mode: int, len: nat, version: int, ecclChoice: bool, eccl: int)
    requires ValidTables(t) && IsMode(mode) && (ecclChoice || IsEccl(eccl))
    requires SearchVersion(t, mode, len, version, ecclChoice, eccl).Ok?
    ensures var c := SearchVersion(t, mode, len, version, ecclChoice, eccl).value;
      && c.mode == mode && IsEccl(c.eccl) && 1 <= c.version <= 40
      && Fits(t, mode, c.eccl, c.version, len)
      && (!ecclChoice ==> c.eccl == eccl)
      && (version != -1 ==> c.version == version)
  {
    PriorityLevels();
  }

  /**
   * Automatic version at a given level: the version chosen is the least
   * one the data fits, and the search fails with `('version', '1')`
   * exactly when it fits none of 1..40.
   */
  lemma AutoVersionLeast(t: Tables, mode: int, len: nat, eccl: int)
    requires ValidTables(t) && IsMode(mode) && IsEccl(eccl)
    ensures var r := SearchVersion(t, mode, len, -1, false, eccl);
      && (r.Ok? ==> r.value.eccl == eccl && forall w :: 1 <= w < r.value.version ==> !Fits(t, mode, eccl, w, len))
      && (r == Err(QrError("version", "1")) <==> forall w :: 1 <= w <= 40 ==> !Fits(t, mode, eccl, w, len))
  {
    AutoVersionFound(t, mode, len, eccl);
    AutoVersionNone(t, mode, len, eccl);
  }

  lemma AutoVersionFound(t: Tables, mode: int, len: nat, eccl: int)
    requires ValidTables(t) && IsMode(mode) && IsEccl(eccl)
    ensures var r := SearchVersion(t, mode, len, -1, false, eccl);
      r.Ok? ==> r.value.eccl == eccl && forall w :: 1 <= w < r.value.version ==> !Fits(t, mode, eccl, w, len)
  {
    var v := FirstFit(t, mode, eccl, len, 1);
    if v <= 40 {
      assert SearchVersion(t, mode, len, -1, false, eccl) == Ok(Choice(mode, eccl, v));
    }
  }

  lemma AutoVersionNone(t: Tables, mode: int, len: nat, eccl: int)
    requires ValidTables(t) && IsMode(mode) && IsEccl(eccl)
    ensures SearchVersion(t, mode, len, -1, false, eccl) == Err(QrError("version", "1"))
      <==> forall w :: 1 <= w <= 40 ==> !Fits(t, mode, eccl, w, len)
  {
    var v := FirstFit(t, mode, eccl, len, 1);
    if v <= 40 {
      assert SearchVersion(t, mode, len, -1, false, eccl) == Ok(Choice(mode, eccl, v));
      assert Fits(t, mode, eccl, v, len);
    } else {
      assert SearchVersion(t, mode, len, -1, false, eccl) == Err(QrError("version", "1"));
    }
  }

  /**
   * Automatic version and level: level H at the least version it fits;
   * only when H fits no version are Q, M and L tried, in that order, and
   * only at version 40.
   */
  lemma AutoLevelOrder(t: Tables, mode: int, len: nat, eccl: int)
    requires ValidTables(t) && IsMode(mode)
    requires SearchVersion(t, mode, len, -1, true, eccl).Ok?
    ensures var c := SearchVersion(t, mode, len, -1, true, eccl).value;
      if c.eccl == ECCL_H then
        forall w :: 1 <= w < c.version ==> !Fits(t, mode, ECCL_H, w, len)
      else
        && c.version == 40
        && (forall w :: 1 <= w <= 40 ==> !Fits(t, mode, ECCL_H, w, len))
        && c.eccl == ECCL_PRIORITY[FirstLevel(t, mode, len, 40, 1)]
  {
    PriorityLevels();
    var v := FirstFit(t, mode, ECCL_H, len, 1);
    if v <= 40 {
      assert Fits(t, mode, ECCL_H, v, len);
    } else {
      var j := FirstLevel(t, mode, len, 40, 1);
      assert ECCL_PRIORITY[j] != ECCL_H;
    }
  }

  /**
   * With automatic version and level the search fails with
   * `('version', '1')` exactly when H fits no version and none of Q, M, L
   * fits version 40.
   */
  lemma AutoLevelFails(t: Tables, mode: int, len: nat, eccl: int)
    requires ValidTables(t) && IsMode(mode)
    ensures SearchVersion(t, mode, len, -1, true, eccl) == Err(QrError("version", "1")) <==>
      && (forall w :: 1 <= w <= 40 ==> !Fits(t, mode, ECCL_H, w, len))
      && FirstLevel(t, mode, len, 40, 1) == 4
  {
    var v := FirstFit(t, mode, ECCL_H, len, 1);
    if v <= 40 {
      assert SearchVersion(t, mode, len, -1, true, eccl) == Ok(Choice(mode, ECCL_H, v));
      assert Fits(t, mode, ECCL_H, v, len);
    } else {
      var j := FirstLevel(t, mode, len, 40, 1);
      if j < 4 {
        assert SearchVersion(t, mode, len, -1, true, eccl) == Ok(Choice(mode, ECCL_PRIORITY[j], 40));
      } else {
        assert SearchVersion(t, mode, len, -1, true, eccl) == Err(QrError("version", "1"));
      }
    }
  }

  /**
   * An explicit version outside 1..40 fails with `('version', '2')`; one
   * inside fails with `('version', '3')` exactly when no allowed level
   * takes the data, and otherwise keeps the version with the first level
   * of H, Q, M, L that fits when the level is automatic.
   */
  lemma ExplicitVersion(t: Tables, mode: int, len: nat, version: int, ecclChoice: bool, eccl: int)
    requires ValidTables(t) && IsMode(mode) && (ecclChoice || IsEccl(eccl)) && version != -1
    ensures (version < 1 || version > 40) ==> SearchVersion(t, mode, len, version, ecclChoice, eccl) == Err(QrError("version", "2"))
    ensures 1 <= version <= 40 && !ecclChoice ==>
      (SearchVersion(t, mode, len, version, ecclChoice, eccl).Ok? <==> Fits(t, mode, eccl, version, len))
    ensures 1 <= version <= 40 && ecclChoice ==>
      var r := SearchVersion(t, mode, len, version, ecclChoice, eccl);
      && (r.Ok? <==> exists j :: 0 <= j < 4 && IsEccl(ECCL_PRIORITY[j]) && Fits(t, mode, ECCL_PRIORITY[j], version, len))
      && (r.Err? ==> r.error == QrError("version", "3"))
      && (r.Ok? ==> exists j :: 0 <= j < 4 && r.value.eccl == ECCL_PRIORITY[j]
                     && forall k :: 0 <= k < j ==> !Fits(t, mode, ECCL_PRIORITY[k], version, len))
  {
    PriorityLevels();
    if 1 <= version <= 40 && ecclChoice {
      var j := FirstLevel(t, mode, len, version, 0);
      if j < 4 {
        assert Fits(t, mode, ECCL_PRIORITY[j], version, len);
      }
    }
  }

  // ---------------------------------------------------------------- mask

  /** The mask check as written: -1 or 0..8 pass. */
  function MaskAcceptedAsWritten(mask: int): (b: bool)
    ensures b <==> MaskAccepted(mask) || mask == 8
  {
    !(mask != -1 && (mask < 0 || mask > 8))
  }

  /** The mask check as intended: -1 (automatic) or one of the eight mask patterns. */
  predicate MaskAccepted(mask: int)
  {
    !(mask != -1 && (mask < 0 || mask >= MASK_COUNT))
  }

  /**
   * The check as written lets mask 8 through, although there are eight
   * mask patterns (0..7) and -1 is the automatic mask. Its format data
   * `(eccl << 3) | 8` then runs into the level bits: level M with mask 8
   * gives the format codeword of level L with mask 0.
   */
  lemma MaskEightAccepted()
    ensures MaskAcceptedAsWritten(8) && !MaskAccepted(8) && 8 >= MASK_COUNT
    ensures FormatInfo.FormatData(ECCL_M, 8) == FormatInfo.FormatData(ECCL_L, 0)
    ensures FormatInfo.MakeCodewordFormat(ECCL_M, 8) == FormatInfo.MakeCodewordFormat(ECCL_L, 0)
  {
    assert FormatInfo.FormatData(ECCL_M, 8) == 8;
    assert FormatInfo.FormatData(ECCL_L, 0) == 8;
  }

  /**
   * Every mask the corrected check accepts is either automatic or a mask
   * pattern whose format codeword reads back as its level and mask.
   */
  lemma AcceptedMaskDecodes(eccl: int, mask: int)
    requires IsEccl(eccl) && MaskAccepted(mask)
    ensures mask == -1 || 0 <= mask < MASK_COUNT
    ensures 0 <= mask ==>
      var d := FormatInfo.FormatOf(FormatInfo.MakeCodewordFormat(eccl, mask));
      d >> 3 == eccl as bv32 && d & 7 == mask as bv32
  {
    if 0 <= mask {
      FormatInfo.FormatCodeword(eccl, mask);
    }
  }

  // ---------------------------------------------------------------- the whole check

  /**
   * `controlOptionsCreator` as a value: the first failure in the order of
   * the source (text, mode, data, level, version, mask), or the mode, level
   * and version it settles on.
   */
  function Validate(t: Tables, text: TextArg, mode: int, eccl: int, version: int, mask: int): (r: Result<Choice, QrError>)
    requires ValidTables(t)
    ensures r.Ok? ==> text.Str? && |text.chars| > 0 && IsMode(r.value.mode) && MaskAccepted(mask)
    ensures mode != -1 && r.Ok? ==> r.value.mode == mode
    ensures text.NotString? ==> r == Err(QrError("text", "1"))
  {
    if text.NotString? then Err(QrError("text", "1"))
    else if |text.chars| == 0 then Err(QrError("text", "2"))
    else match DetectMode(mode, text.chars)
      case Err(e) => Err(e)
      case Ok(m) =>
        ValidateData(t, m, TextEncoder.DataOf(m, text.chars), eccl, version, mask)
  }

  /** The checks that follow the choice of mode: data, level, version, mask. */
  function ValidateData(t: Tables, m: int, data: seq<int>, eccl: int, version: int, mask: int): (r: Result<Choice, QrError>)
    requires ValidTables(t) && IsMode(m)
    ensures r.Ok? ==> |data| > 0 && -1 <= eccl <= 3 && MaskAccepted(mask) && r.value.mode == m
    ensures r.Ok? && eccl != -1 ==> r.value.eccl == eccl
    ensures r.Ok? && version != -1 ==> r.value.version == version
  {
    if |data| == 0 then Err(QrError("text", "3"))
    else if eccl < -1 || eccl > 3 then Err(QrError("eccl", "1"))
    else match SearchVersion(t, m, |data|, version, eccl < 0, eccl)
      case Err(e) => Err(e)
      case Ok(c) => if MaskAccepted(mask) then Ok(c) else Err(QrError("mask", "1"))
  }

  /**
   * Options that pass the check are everything the encoder needs: a
   * string, a mode whose character set holds the data, a level, a version
   * whose data bits take the mode indicator, the count and the data, and
   * a mask `makeMatrix` can apply.
   */
  lemma ValidateSound(t: Tables, text: TextArg, mode: int, eccl: int, version: int, mask: int)
    requires ValidTables(t) && Validate(t, text, mode, eccl, version, mask).Ok?
    ensures var c := Validate(t, text, mode, eccl, version, mask).value;
      && text.Str? && IsMode(c.mode) && IsEccl(c.eccl) && 1 <= c.version <= 40
      && var data := TextEncoder.DataOf(c.mode, text.chars);
      && var p := DeriveVersionParams(t, c.version, c.mode, c.eccl);
      && 1 <= |data| <= BitsDataMax(p, c.mode)
      && 4 + p.bitsFieldDataQty + DataBitLength(c.mode, |data|) <= p.bitsData
      && Codewords.DataFitsMode(c.mode, data)
      && (mask == -1 || 0 <= mask < MASK_COUNT)
  {
    var m := DetectMode(mode, text.chars).value;
    DetectModeData(mode, text.chars);
    var data := TextEncoder.DataOf(m, text.chars);
    SearchSound(t, m, |data|, version, eccl < 0, eccl);
    var c := Validate(t, text, mode, eccl, version, mask).value;
    BitsDataMaxExact(DeriveVersionParams(t, c.version, c.mode, c.eccl), c.mode, |data|);
  }

  // ---------------------------------------------------------------- the check on the object

  /**
   * `controlOptionsCreator(qrcode)`: on success the object holds the mode,
   * level and version chosen, with their parameters, and the data of the
   * text; on failure `error` and `errorSubcode` name the first check that
   * failed.
   */
  method ControlOptionsCreator(qr: DataQR)
    requires ValidTables(qr.tables) && qr.data == []
    modifies qr`mode, qr`eccl, qr`version, qr`params, qr`data, qr`error, qr`errorSubcode
    ensures var r := Validate(qr.tables, qr.text, old(qr.mode), old(qr.eccl), old(qr.version), qr.mask);
      && (r.Ok? ==>
            && qr.error == old(qr.error) && qr.errorSubcode == old(qr.errorSubcode)
            && qr.mode == r.value.mode && qr.eccl == r.value.eccl && qr.version == r.value.version
            && qr.Configured() && qr.text.Str? && qr.data == TextEncoder.DataOf(qr.mode, qr.text.chars))
      && (r.Err? ==> qr.error == r.error.setting && qr.errorSubcode == r.error.subcode)
  {
    var failure := CheckOptions(qr);
    if failure.Some? {
      qr.error := failure.value.setting;
      qr.errorSubcode := failure.value.subcode;
    }
  }

  /** The checks of `controlOptionsCreator`, in order, returning the first failure. */
  method CheckOptions(qr: DataQR) returns (failure: Option<QrError>)
    requires ValidTables(qr.tables) && qr.data == []
    modifies qr`mode, qr`eccl, qr`version, qr`params, qr`data
    ensures var r := Validate(qr.tables, qr.text, old(qr.mode), old(qr.eccl), old(qr.version), qr.mask);
      && (r.Ok? ==>
            && failure == None
            && qr.mode == r.value.mode && qr.eccl == r.value.eccl && qr.version == r.value.version
            && qr.Configured() && qr.text.Str? && qr.data == TextEncoder.DataOf(qr.mode, qr.text.chars))
      && (r.Err? ==> failure == Some(r.error))
  {
    if qr.text.NotString? {
      return Some(QrError("text", "1"));
    }
    if |qr.text.chars| == 0 {
      return Some(QrError("text", "2"));
    }
    failure := TestMode(qr, qr.mode, qr.text.chars);
    if failure.Some? {
      return;
    }
    qr.TextToData();
    failure := CheckData(qr);
  }

  /** The checks after `textToData`: data present, level in range, version, mask. */
  method CheckData(qr: DataQR) returns (failure: Option<QrError>)
    requires ValidTables(qr.tables) && IsMode(qr.mode)
    modifies qr`eccl, qr`version, qr`params
    ensures var r := ValidateData(qr.tables, qr.mode, qr.data, old(qr.eccl), old(qr.version), qr.mask);
      && (r.Ok? ==>
            && failure == None && r.value.mode == qr.mode
            && qr.eccl == r.value.eccl && qr.version == r.value.version && qr.Configured())
      && (r.Err? ==> failure == Some(r.error))
  {
    if |qr.data| == 0 {
      return Some(QrError("text", "3"));
    }
    if qr.eccl < -1 || qr.eccl > 3 {
      return Some(QrError("eccl", "1"));
    }
    failure := TestVersion(qr, qr.version, qr.eccl < 0);
    if failure.Some? {
      return;
    }
    if qr.mask != -1 && (qr.mask < 0 || qr.mask >= MASK_COUNT) {
      return Some(QrError("mask", "1"));
    }
    return None;
  }

  /** `testMode`: the detected mode is stored, or on failure the option is left as it was. */
  method TestMode(qr: DataQR, mode: int, text: seq<nat>) returns (failure: Option<QrError>)
    modifies qr`mode
    ensures DetectMode(mode, text).Ok? ==> failure == None && qr.mode == DetectMode(mode, text).value
    ensures DetectMode(mode, text).Err? ==> failure == Some(DetectMode(mode, text).error) && qr.mode == mode
  {
    var m := mode;
    failure := None;
    if (m == MODE_NUMERIC || m == -1) && NumericText(text) {
      m := MODE_NUMERIC;
    } else if (m == MODE_ALPHANUMERIC || m == -1) && AlphanumericText(text) {
      m := MODE_ALPHANUMERIC;
    } else if m == MODE_OCTET || m == -1 {
      m := MODE_OCTET;
    } else {
      failure := Some(QrError("mode", "1"));
    }
    qr.mode := m;
  }

  /** `fitLength`: the version is set, with its parameters, and the data is measured against it. */
  method FitLength(qr: DataQR, version: int) returns (fits: bool)
    requires ValidTables(qr.tables) && IsMode(qr.mode) && IsEccl(qr.eccl) && 1 <= version <= 40
    modifies qr`version, qr`params
    ensures qr.version == version && qr.Configured()
    ensures fits == Fits(qr.tables, qr.mode, qr.eccl, version, |qr.data|)
  {
    qr.SetVersion(version);
    fits := |qr.data| <= BitsDataMax(qr.params, qr.mode);
  }

  /**
   * `ecclVersion`: with a fixed level, whether the data fits `version`;
   * with the automatic level, the levels of `ECCL_PRIORITY` from `iStart`
   * on are tried in turn and the first that fits is kept.
   */
  method EcclVersion(qr: DataQR, version: int, ecclChoice: bool, iStart: nat) returns (ok: bool)
    requires ValidTables(qr.tables) && IsMode(qr.mode) && 1 <= version <= 40 && iStart <= 4
    requires ecclChoice || IsEccl(qr.eccl)
    modifies qr`eccl, qr`version, qr`params
    ensures !ecclChoice ==> qr.eccl == old(qr.eccl) && ok == Fits(qr.tables, qr.mode, qr.eccl, version, |qr.data|)
    ensures ecclChoice ==>
      var j := FirstLevel(qr.tables, qr.mode, |qr.data|, version, iStart);
      ok == (j < 4) && (ok ==> qr.eccl == ECCL_PRIORITY[j])
    ensures ok ==> qr.version == version && qr.Configured()
  {
    if !ecclChoice {
      ok := FitLength(qr, version);
      return;
    }
    PriorityLevels();
    for i := iStart to 4
      invariant FirstLevel(qr.tables, qr.mode, |qr.data|, version, i) == FirstLevel(qr.tables, qr.mode, |qr.data|, version, iStart)
    {
      qr.eccl := ECCL_PRIORITY[i];
      ok := FitLength(qr, version);
      if ok {
        return;
      }
    }
    ok := false;
  }

  /**
   * `testVersion`: the search of `SearchVersion` carried out on the object,
   * through the `version` setter; on success the object holds the level and
   * version found, with their parameters.
   */
  method TestVersion(qr: DataQR, version: int, ecclChoice: bool) returns (failure: Option<QrError>)
    requires ValidTables(qr.tables) && IsMode(qr.mode) && (ecclChoice || IsEccl(qr.eccl))
    modifies qr`eccl, qr`version, qr`params
    ensures var r := SearchVersion(qr.tables, qr.mode, |qr.data|, version, ecclChoice, old(qr.eccl));
      && (r.Ok? ==> failure == None && qr.eccl == r.value.eccl && qr.version == r.value.version && qr.Configured())
      && (r.Err? ==> failure == Some(r.error))
  {
    if version == -1 {
      failure := AutoVersion(qr, ecclChoice);
    } else if version < 1 || version > 40 {
      failure := Some(QrError("version", "2"));
    } else {
      var ok := EcclVersion(qr, version, ecclChoice, 0);
      failure := if ok then None else Some(QrError("version", "3"));
    }
  }

  /** The automatic-version branch of `testVersion`. */
  method AutoVersion(qr: DataQR, ecclChoice: bool) returns (failure: Option<QrError>)
    requires ValidTables(qr.tables) && IsMode(qr.mode) && (ecclChoice || IsEccl(qr.eccl))
    modifies qr`eccl, qr`version, qr`params
    ensures var r := SearchVersion(qr.tables, qr.mode, |qr.data|, -1, ecclChoice, old(qr.eccl));
      && (r.Ok? ==> failure == None && qr.eccl == r.value.eccl && qr.version == r.value.version && qr.Configured())
      && (r.Err? ==> failure == Some(r.error))
  {
    ghost var r := SearchVersion(qr.tables, qr.mode, |qr.data|, -1, ecclChoice, qr.eccl);
    if ecclChoice {
      qr.eccl := ECCL_H;
    }
    var v := FirstVersion(qr);
    if v > 40 {
      if !ecclChoice {
        assert r == Err(QrError("version", "1"));
        return Some(QrError("version", "1"));
      }
      var ok := EcclVersion(qr, 40, true, 1);
      if !ok {
        assert r == Err(QrError("version", "1"));
        return Some(QrError("version", "1"));
      }
    }
    assert r == Ok(Choice(qr.mode, qr.eccl, qr.version));
    return None;
  }

  /** One version of the search: it is the answer when the data fits, otherwise the search goes on. */
  lemma FirstFitStep(t: Tables, mode: int, eccl: int, len: nat, v: int)
    requires ValidTables(t) && IsMode(mode) && IsEccl(eccl) && 1 <= v <= 40
    ensures Fits(t, mode, eccl, v, len) ==> FirstFit(t, mode, eccl, len, v) == v
    ensures !Fits(t, mode, eccl, v, len) ==> FirstFit(t, mode, eccl, len, v) == FirstFit(t, mode, eccl, len, v + 1)
  {
  }

  /**
   * The loop over versions 1..40 of `testVersion`, stopping at the first
   * version the data fits (41 when there is none); the object is left at
   * that version.
   */
  method FirstVersion(qr: DataQR) returns (v: int)
    requires ValidTables(qr.tables) && IsMode(qr.mode) && IsEccl(qr.eccl)
    modifies qr`version, qr`params
    ensures v == FirstFit(qr.tables, qr.mode, qr.eccl, |qr.data|, 1)
    ensures v <= 40 ==> qr.version == v && qr.Configured()
  {
    v := 1;
    while v < 41
      invariant 1 <= v <= 41
      invariant FirstFit(qr.tables, qr.mode, qr.eccl, |qr.data|, v) == FirstFit(qr.tables, qr.mode, qr.eccl, |qr.data|, 1)
    {
      FirstFitStep(qr.tables, qr.mode, qr.eccl, |qr.data|, v);
      var fits := FitLength(qr, v);
      if fits {
        return;
      }
      v := v + 1;
    }
  }
}
