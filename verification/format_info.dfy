/**
 * The version and format information codewords (`makeCodewordVersion`,
 * `makeCodewordFormat`): a Golay(18,6) code of the version number
 * (ISO/IEC 18004, Annex D) and a BCH(15,5) code of the error correction
 * level and mask, XORed with 0x5412 (Annex C).
 */
module FormatInfo {
  import opened Iso
  import Capacity

  /** The pattern XORed onto the format codeword so that it is never all zero. */
  const FORMAT_MASK: bv32 := 0x5412

  /**
   * `makeCodewordVersion()`: the 18-bit version codeword, or 0 for the
   * versions below 7 that carry no version information.
   */
  function MakeCodewordVersion(version: int): (c: bv32)
    requires 1 <= version <= 40
    ensures c < 0x4_0000
  {
    if Capacity.NeedsVerInfo(version) then
      VersionBchSystematic(version as bv32);
      EncodeBch(version as bv32, 6, 0x1F25, 12)
    else
      0
  }

  /**
   * A version codeword is present exactly from version 7 on, and then its
   * six high bits are the version number itself.
   */
  lemma VersionCodeword(version: int)
    requires 1 <= version <= 40
    ensures MakeCodewordVersion(version) == 0 <==> version <= 6
    ensures version > 6 ==> MakeCodewordVersion(version) >> 12 == version as bv32
  {
    if version > 6 {
      VersionBchSystematic(version as bv32);
    }
  }

  /**
   * The 34 version codewords listed in ISO/IEC 18004, Annex D, for
   * versions 7 to 40 (index `version - 7`).
   */
  const VERSION_CODEWORDS: seq<bv32> := [
    0x0_7C94, 0x0_85BC, 0x0_9A99, 0x0_A4D3, 0x0_BBF6, 0x0_C762,
    0x0_D847, 0x0_E60D, 0x0_F928, 0x1_0B78, 0x1_145D, 0x1_2A17,
    0x1_3532, 0x1_49A6, 0x1_5683, 0x1_68C9, 0x1_77EC, 0x1_8EC4,
    0x1_91E1, 0x1_AFAB, 0x1_B08E, 0x1_CC1A, 0x1_D33F, 0x1_ED75,
    0x1_F250, 0x2_09D5, 0x2_16F0, 0x2_28BA, 0x2_379F, 0x2_4B0B,
    0x2_542E, 0x2_6A64, 0x2_7541, 0x2_8C69]

  /** The listed version codeword of a version from 7 on. */
  function ListedVersion(version: int): bv32
    requires 7 <= version <= 40
  {
    VERSION_CODEWORDS[version - 7]
  }

  /** `makeCodewordVersion` computes exactly the codewords the standard lists. */
  lemma VersionListed(version: int)
    requires 7 <= version <= 40
    ensures MakeCodewordVersion(version) == ListedVersion(version)
  {
    VersionRoundTrip(version);
    EncodedVersions7To15(version as bv32);
    EncodedVersions16To23(version as bv32);
    EncodedVersions24To31(version as bv32);
    EncodedVersions32To40(version as bv32);
    ListedVersions7To15(version);
    ListedVersions16To23(version);
    ListedVersions24To31(version);
    ListedVersions32To40(version);
  }

  lemma EncodedVersions7To15(v: bv32)
    ensures v as int == 7 ==> EncodeBch(v, 6, 0x1F25, 12) == 0x0_7C94
    ensures v as int == 8 ==> EncodeBch(v, 6, 0x1F25, 12) == 0x0_85BC
    ensures v as int == 9 ==> EncodeBch(v, 6, 0x1F25, 12) == 0x0_9A99
    ensures v as int == 10 ==> EncodeBch(v, 6, 0x1F25, 12) == 0x0_A4D3
    ensures v as int == 11 ==> EncodeBch(v, 6, 0x1F25, 12) == 0x0_BBF6
    ensures v as int == 12 ==> EncodeBch(v, 6, 0x1F25, 12) == 0x0_C762
    ensures v as int == 13 ==> EncodeBch(v, 6, 0x1F25, 12) == 0x0_D847
    ensures v as int == 14 ==> EncodeBch(v, 6, 0x1F25, 12) == 0x0_E60D
    ensures v as int == 15 ==> EncodeBch(v, 6, 0x1F25, 12) == 0x0_F928
  {
    EncodeVersionSteps(7);
    EncodeVersionSteps(8);
    EncodeVersionSteps(9);
    EncodeVersionSteps(10);
    EncodeVersionSteps(11);
    EncodeVersionSteps(12);
    EncodeVersionSteps(13);
    EncodeVersionSteps(14);
    EncodeVersionSteps(15);
  }

  lemma EncodedVersions16To23(v: bv32)
    ensures v as int == 16 ==> EncodeBch(v, 6, 0x1F25, 12) == 0x1_0B78
    ensures v as int == 17 ==> EncodeBch(v, 6, 0x1F25, 12) == 0x1_145D
    ensures v as int == 18 ==> EncodeBch(v, 6, 0x1F25, 12) == 0x1_2A17
    ensures v as int == 19 ==> EncodeBch(v, 6, 0x1F25, 12) == 0x1_3532
    ensures v as int == 20 ==> EncodeBch(v, 6, 0x1F25, 12) == 0x1_49A6
    ensures v as int == 21 ==> EncodeBch(v, 6, 0x1F25, 12) == 0x1_5683
    ensures v as int == 22 ==> EncodeBch(v, 6, 0x1F25, 12) == 0x1_68C9
    ensures v as int == 23 ==> EncodeBch(v, 6, 0x1F25, 12) == 0x1_77EC
  {
    EncodeVersionSteps(16);
    EncodeVersionSteps(17);
    EncodeVersionSteps(18);
    EncodeVersionSteps(19);
    EncodeVersionSteps(20);
    EncodeVersionSteps(21);
    EncodeVersionSteps(22);
    EncodeVersionSteps(23);
  }

  lemma EncodedVersions24To31(v: bv32)
    ensures v as int == 24 ==> EncodeBch(v, 6, 0x1F25, 12) == 0x1_8EC4
    ensures v as int == 25 ==> EncodeBch(v, 6, 0x1F25, 12) == 0x1_91E1
    ensures v as int == 26 ==> EncodeBch(v, 6, 0x1F25, 12) == 0x1_AFAB
    ensures v as int == 27 ==> EncodeBch(v, 6, 0x1F25, 12) == 0x1_B08E
    ensures v as int == 28 ==> EncodeBch(v, 6, 0x1F25, 12) == 0x1_CC1A
    ensures v as int == 29 ==> EncodeBch(v, 6, 0x1F25, 12) == 0x1_D33F
    ensures v as int == 30 ==> EncodeBch(v, 6, 0x1F25, 12) == 0x1_ED75
    ensures v as int == 31 ==> EncodeBch(v, 6, 0x1F25, 12) == 0x1_F250
  {
    EncodeVersionSteps(24);
    EncodeVersionSteps(25);
    EncodeVersionSteps(26);
    EncodeVersionSteps(27);
    EncodeVersionSteps(28);
    EncodeVersionSteps(29);
    EncodeVersionSteps(30);
    EncodeVersionSteps(31);
  }

  lemma EncodedVersions32To40(v: bv32)
    ensures v as int == 32 ==> EncodeBch(v, 6, 0x1F25, 12) == 0x2_09D5
    ensures v as int == 33 ==> EncodeBch(v, 6, 0x1F25, 12) == 0x2_16F0
    ensures v as int == 34 ==> EncodeBch(v, 6, 0x1F25, 12) == 0x2_28BA
    ensures v as int == 35 ==> EncodeBch(v, 6, 0x1F25, 12) == 0x2_379F
    ensures v as int == 36 ==> EncodeBch(v, 6, 0x1F25, 12) == 0x2_4B0B
    ensures v as int == 37 ==> EncodeBch(v, 6, 0x1F25, 12) == 0x2_542E
    ensures v as int == 38 ==> EncodeBch(v, 6, 0x1F25, 12) == 0x2_6A64
    ensures v as int == 39 ==> EncodeBch(v, 6, 0x1F25, 12) == 0x2_7541
    ensures v as int == 40 ==> EncodeBch(v, 6, 0x1F25, 12) == 0x2_8C69
  {
    EncodeVersionSteps(32);
    EncodeVersionSteps(33);
    EncodeVersionSteps(34);
    EncodeVersionSteps(35);
    EncodeVersionSteps(36);
    EncodeVersionSteps(37);
    EncodeVersionSteps(38);
    EncodeVersionSteps(39);
    EncodeVersionSteps(40);
  }

  lemma ListedVersions7To15(version: int)
    requires 7 <= version <= 40
    ensures version == 7 ==> VERSION_CODEWORDS[version - 7] == 0x0_7C94
    ensures version == 8 ==> VERSION_CODEWORDS[version - 7] == 0x0_85BC
    ensures version == 9 ==> VERSION_CODEWORDS[version - 7] == 0x0_9A99
    ensures version == 10 ==> VERSION_CODEWORDS[version - 7] == 0x0_A4D3
    ensures version == 11 ==> VERSION_CODEWORDS[version - 7] == 0x0_BBF6
    ensures version == 12 ==> VERSION_CODEWORDS[version - 7] == 0x0_C762
    ensures version == 13 ==> VERSION_CODEWORDS[version - 7] == 0x0_D847
    ensures version == 14 ==> VERSION_CODEWORDS[version - 7] == 0x0_E60D
    ensures version == 15 ==> VERSION_CODEWORDS[version - 7] == 0x0_F928
  {
  }

  lemma ListedVersions16To23(version: int)
    requires 7 <= version <= 40
    ensures version == 16 ==> VERSION_CODEWORDS[version - 7] == 0x1_0B78
    ensures version == 17 ==> VERSION_CODEWORDS[version - 7] == 0x1_145D
    ensures version == 18 ==> VERSION_CODEWORDS[version - 7] == 0x1_2A17
    ensures version == 19 ==> VERSION_CODEWORDS[version - 7] == 0x1_3532
    ensures version == 20 ==> VERSION_CODEWORDS[version - 7] == 0x1_49A6
    ensures version == 21 ==> VERSION_CODEWORDS[version - 7] == 0x1_5683
    ensures version == 22 ==> VERSION_CODEWORDS[version - 7] == 0x1_68C9
    ensures version == 23 ==> VERSION_CODEWORDS[version - 7] == 0x1_77EC
  {
  }

  lemma ListedVersions24To31(version: int)
    requires 7 <= version <= 40
    ensures version == 24 ==> VERSION_CODEWORDS[version - 7] == 0x1_8EC4
    ensures version == 25 ==> VERSION_CODEWORDS[version - 7] == 0x1_91E1
    ensures version == 26 ==> VERSION_CODEWORDS[version - 7] == 0x1_AFAB
    ensures version == 27 ==> VERSION_CODEWORDS[version - 7] == 0x1_B08E
    ensures version == 28 ==> VERSION_CODEWORDS[version - 7] == 0x1_CC1A
    ensures version == 29 ==> VERSION_CODEWORDS[version - 7] == 0x1_D33F
    ensures version == 30 ==> VERSION_CODEWORDS[version - 7] == 0x1_ED75
    ensures version == 31 ==> VERSION_CODEWORDS[version - 7] == 0x1_F250
  {
  }

  lemma ListedVersions32To40(version: int)
    requires 7 <= version <= 40
    ensures version == 32 ==> VERSION_CODEWORDS[version - 7] == 0x2_09D5
    ensures version == 33 ==> VERSION_CODEWORDS[version - 7] == 0x2_16F0
    ensures version == 34 ==> VERSION_CODEWORDS[version - 7] == 0x2_28BA
    ensures version == 35 ==> VERSION_CODEWORDS[version - 7] == 0x2_379F
    ensures version == 36 ==> VERSION_CODEWORDS[version - 7] == 0x2_4B0B
    ensures version == 37 ==> VERSION_CODEWORDS[version - 7] == 0x2_542E
    ensures version == 38 ==> VERSION_CODEWORDS[version - 7] == 0x2_6A64
    ensures version == 39 ==> VERSION_CODEWORDS[version - 7] == 0x2_7541
    ensures version == 40 ==> VERSION_CODEWORDS[version - 7] == 0x2_8C69
  {
  }

  /** A version number converts to a 32-bit vector and back unchanged (checked value by value). */
  lemma VersionRoundTrip(version: int)
    requires 7 <= version <= 40
    ensures (version as bv32) as int == version
  {
    if version == 7 {} else if version == 8 {} else if version == 9 {} else if version == 10 {}
    else if version == 11 {} else if version == 12 {} else if version == 13 {} else if version == 14 {}
    else if version == 15 {} else if version == 16 {} else if version == 17 {} else if version == 18 {}
    else if version == 19 {} else if version == 20 {} else if version == 21 {} else if version == 22 {}
    else if version == 23 {} else if version == 24 {} else if version == 25 {} else if version == 26 {}
    else if version == 27 {} else if version == 28 {} else if version == 29 {} else if version == 30 {}
    else if version == 31 {} else if version == 32 {} else if version == 33 {} else if version == 34 {}
    else if version == 35 {} else if version == 36 {} else if version == 37 {} else if version == 38 {}
    else if version == 39 {}
  }

  /** The version BCH code written out down to its six division steps. */
  lemma EncodeVersionSteps(v: bv32)
    ensures EncodeBch(v, 6, 0x1F25, 12) == (v << 12) | BchReduce(v << 12, 0x3_E4A0, 0x2_0000, 6)
  {
  }

  /** The five data bits `(eccl << 3) | mask` of a format codeword. */
  function FormatData(eccl: int, mask: int): (d: bv32)
    requires IsEccl(eccl) && 0 <= mask < 32
    ensures d < 32
    ensures mask < MASK_COUNT ==> d >> 3 == eccl as bv32 && d & 7 == mask as bv32
    ensures mask < MASK_COUNT ==> d as int == 8 * eccl + mask
  {
    var e: bv32 := eccl as bv32;
    var m: bv32 := mask as bv32;
    OrBelow32(e << 3, m);
    ShiftOrValue(e, m);
    SmallBv(eccl);
    SmallBv(mask);
    (e << 3) | m
  }

  /** Below eight, converting to a bit-vector and back changes nothing (checked value by value). */
  lemma SmallBv(x: int)
    requires 0 <= x < 32
    ensures x < 8 ==> (x as bv32) as int == x
  {
    if x == 0 {} else if x == 1 {} else if x == 2 {} else if x == 3 {}
    else if x == 4 {} else if x == 5 {} else if x == 6 {} else if x == 7 {}
  }

  /** Shifting three places and or-ing in a value below eight is multiplying by eight and adding. */
  lemma ShiftOrValue(e: bv32, m: bv32)
    requires e < 4 && m < 32
    ensures m < 8 ==> ((e << 3) | m) as int == 8 * e as int + m as int
  {
  }

  /**
   * `makeCodewordFormat(mask)`: the five data bits with their ten check
   * bits, XORed with 0x5412. The source accepts any mask value here;
   * values above 7 overlap the level bits (see
   * `ControlOptions.MaskEightAccepted`).
   */
  function MakeCodewordFormat(eccl: int, mask: int): (f: bv32)
    requires IsEccl(eccl) && 0 <= mask < 32
    ensures f < 0x8000
  {
    EncodeFormat(FormatData(eccl, mask))
  }

  /** The format codeword of the five data bits `data`. */
  function EncodeFormat(data: bv32): (f: bv32)
    requires data < 32
    ensures f < 0x8000
  {
    FormatBchSystematic(data);
    XorBelow(EncodeBch(data, 5, 0x537, 10), FORMAT_MASK);
    EncodeBch(data, 5, 0x537, 10) ^ FORMAT_MASK
  }

  /**
   * The 32 masked format codewords listed in ISO/IEC 18004, Annex C, at
   * index `(eccl << 3) | mask`: level M, then L, then H, then Q.
   */
  const FORMAT_CODEWORDS: seq<bv32> := [
    0x5412, 0x5125, 0x5E7C, 0x5B4B, 0x45F9, 0x40CE, 0x4F97, 0x4AA0,
    0x77C4, 0x72F3, 0x7DAA, 0x789D, 0x662F, 0x6318, 0x6C41, 0x6976,
    0x1689, 0x13BE, 0x1CE7, 0x19D0, 0x0762, 0x0255, 0x0D0C, 0x083B,
    0x355F, 0x3068, 0x3F31, 0x3A06, 0x24B4, 0x2183, 0x2EDA, 0x2BED]

  /** The listed format codeword of a level and a mask pattern. */
  function ListedFormat(eccl: int, mask: int): bv32
    requires IsEccl(eccl) && 0 <= mask < MASK_COUNT
  {
    FORMAT_CODEWORDS[8 * eccl + mask]
  }

  /** `makeCodewordFormat` computes exactly the codewords the standard lists. */
  lemma FormatListed(eccl: int, mask: int)
    requires IsEccl(eccl) && 0 <= mask < MASK_COUNT
    ensures MakeCodewordFormat(eccl, mask) == ListedFormat(eccl, mask)
  {
    var data := FormatData(eccl, mask);
    EncodedM(data);
    EncodedL(data);
    EncodedH(data);
    EncodedQ(data);
    if eccl < 2 {
      ListedEntriesLow(8 * eccl + mask);
    } else {
      ListedEntriesHigh(8 * eccl + mask);
    }
  }

  /**
   * The BCH code worked out for each of the 32 data values, one level per
   * lemma; the values are stated on `data as int` so that the table index
   * can be matched against them.
   */
  lemma EncodedM(data: bv32)
    ensures data as int == 0 ==> EncodeFormat(data) == 0x5412
    ensures data as int == 1 ==> EncodeFormat(data) == 0x5125
    ensures data as int == 2 ==> EncodeFormat(data) == 0x5E7C
    ensures data as int == 3 ==> EncodeFormat(data) == 0x5B4B
    ensures data as int == 4 ==> EncodeFormat(data) == 0x45F9
    ensures data as int == 5 ==> EncodeFormat(data) == 0x40CE
    ensures data as int == 6 ==> EncodeFormat(data) == 0x4F97
    ensures data as int == 7 ==> EncodeFormat(data) == 0x4AA0
  {
    EncodeFormatSteps(0);
    EncodeFormatSteps(1);
    EncodeFormatSteps(2);
    EncodeFormatSteps(3);
    EncodeFormatSteps(4);
    EncodeFormatSteps(5);
    EncodeFormatSteps(6);
    EncodeFormatSteps(7);
  }

  lemma EncodedL(data: bv32)
    ensures data as int == 8 ==> EncodeFormat(data) == 0x77C4
    ensures data as int == 9 ==> EncodeFormat(data) == 0x72F3
    ensures data as int == 10 ==> EncodeFormat(data) == 0x7DAA
    ensures data as int == 11 ==> EncodeFormat(data) == 0x789D
    ensures data as int == 12 ==> EncodeFormat(data) == 0x662F
    ensures data as int == 13 ==> EncodeFormat(data) == 0x6318
    ensures data as int == 14 ==> EncodeFormat(data) == 0x6C41
    ensures data as int == 15 ==> EncodeFormat(data) == 0x6976
  {
    EncodeFormatSteps(8);
    EncodeFormatSteps(9);
    EncodeFormatSteps(10);
    EncodeFormatSteps(11);
    EncodeFormatSteps(12);
    EncodeFormatSteps(13);
    EncodeFormatSteps(14);
    EncodeFormatSteps(15);
  }

  lemma EncodedH(data: bv32)
    ensures data as int == 16 ==> EncodeFormat(data) == 0x1689
    ensures data as int == 17 ==> EncodeFormat(data) == 0x13BE
    ensures data as int == 18 ==> EncodeFormat(data) == 0x1CE7
    ensures data as int == 19 ==> EncodeFormat(data) == 0x19D0
    ensures data as int == 20 ==> EncodeFormat(data) == 0x0762
    ensures data as int == 21 ==> EncodeFormat(data) == 0x0255
    ensures data as int == 22 ==> EncodeFormat(data) == 0x0D0C
    ensures data as int == 23 ==> EncodeFormat(data) == 0x083B
  {
    EncodeFormatSteps(16);
    EncodeFormatSteps(17);
    EncodeFormatSteps(18);
    EncodeFormatSteps(19);
    EncodeFormatSteps(20);
    EncodeFormatSteps(21);
    EncodeFormatSteps(22);
    EncodeFormatSteps(23);
  }

  lemma EncodedQ(data: bv32)
    ensures data as int == 24 ==> EncodeFormat(data) == 0x355F
    ensures data as int == 25 ==> EncodeFormat(data) == 0x3068
    ensures data as int == 26 ==> EncodeFormat(data) == 0x3F31
    ensures data as int == 27 ==> EncodeFormat(data) == 0x3A06
    ensures data as int == 28 ==> EncodeFormat(data) == 0x24B4
    ensures data as int == 29 ==> EncodeFormat(data) == 0x2183
    ensures data as int == 30 ==> EncodeFormat(data) == 0x2EDA
    ensures data as int == 31 ==> EncodeFormat(data) == 0x2BED
  {
    EncodeFormatSteps(24);
    EncodeFormatSteps(25);
    EncodeFormatSteps(26);
    EncodeFormatSteps(27);
    EncodeFormatSteps(28);
    EncodeFormatSteps(29);
    EncodeFormatSteps(30);
    EncodeFormatSteps(31);
  }

  /** The entries of `FORMAT_CODEWORDS` for levels M and L, one by one. */
  lemma ListedEntriesLow(j: int)
    requires 0 <= j < 16
    ensures j == 0 ==> FORMAT_CODEWORDS[j] == 0x5412
    ensures j == 1 ==> FORMAT_CODEWORDS[j] == 0x5125
    ensures j == 2 ==> FORMAT_CODEWORDS[j] == 0x5E7C
    ensures j == 3 ==> FORMAT_CODEWORDS[j] == 0x5B4B
    ensures j == 4 ==> FORMAT_CODEWORDS[j] == 0x45F9
    ensures j == 5 ==> FORMAT_CODEWORDS[j] == 0x40CE
    ensures j == 6 ==> FORMAT_CODEWORDS[j] == 0x4F97
    ensures j == 7 ==> FORMAT_CODEWORDS[j] == 0x4AA0
    ensures j == 8 ==> FORMAT_CODEWORDS[j] == 0x77C4
    ensures j == 9 ==> FORMAT_CODEWORDS[j] == 0x72F3
    ensures j == 10 ==> FORMAT_CODEWORDS[j] == 0x7DAA
    ensures j == 11 ==> FORMAT_CODEWORDS[j] == 0x789D
    ensures j == 12 ==> FORMAT_CODEWORDS[j] == 0x662F
    ensures j == 13 ==> FORMAT_CODEWORDS[j] == 0x6318
    ensures j == 14 ==> FORMAT_CODEWORDS[j] == 0x6C41
    ensures j == 15 ==> FORMAT_CODEWORDS[j] == 0x6976
  {
  }

  /** The entries of `FORMAT_CODEWORDS` for levels H and Q, one by one. */
  lemma ListedEntriesHigh(j: int)
    requires 16 <= j < 32
    ensures j == 16 ==> FORMAT_CODEWORDS[j] == 0x1689
    ensures j == 17 ==> FORMAT_CODEWORDS[j] == 0x13BE
    ensures j == 18 ==> FORMAT_CODEWORDS[j] == 0x1CE7
    ensures j == 19 ==> FORMAT_CODEWORDS[j] == 0x19D0
    ensures j == 20 ==> FORMAT_CODEWORDS[j] == 0x0762
    ensures j == 21 ==> FORMAT_CODEWORDS[j] == 0x0255
    ensures j == 22 ==> FORMAT_CODEWORDS[j] == 0x0D0C
    ensures j == 23 ==> FORMAT_CODEWORDS[j] == 0x083B
    ensures j == 24 ==> FORMAT_CODEWORDS[j] == 0x355F
    ensures j == 25 ==> FORMAT_CODEWORDS[j] == 0x3068
    ensures j == 26 ==> FORMAT_CODEWORDS[j] == 0x3F31
    ensures j == 27 ==> FORMAT_CODEWORDS[j] == 0x3A06
    ensures j == 28 ==> FORMAT_CODEWORDS[j] == 0x24B4
    ensures j == 29 ==> FORMAT_CODEWORDS[j] == 0x2183
    ensures j == 30 ==> FORMAT_CODEWORDS[j] == 0x2EDA
    ensures j == 31 ==> FORMAT_CODEWORDS[j] == 0x2BED
  {
  }

  /** `EncodeFormat` written out down to the five division steps of its BCH code. */
  lemma EncodeFormatSteps(data: bv32)
    requires data < 32
    ensures EncodeFormat(data) == ((data << 10) | BchReduce(data << 10, 0x5370, 0x4000, 5)) ^ FORMAT_MASK
  {
    EncodeBchSteps(data);
    EncodeFormatXor(data);
  }

  lemma EncodeBchSteps(data: bv32)
    ensures EncodeBch(data, 5, 0x537, 10) == (data << 10) | BchReduce(data << 10, 0x5370, 0x4000, 5)
  {
  }

  lemma EncodeFormatXor(data: bv32)
    requires data < 32
    ensures EncodeFormat(data) == EncodeBch(data, 5, 0x537, 10) ^ FORMAT_MASK
  {
  }

  /** The data field of a format codeword: XOR with 0x5412 undone, the five high bits. */
  function FormatOf(f: bv32): (d: bv32)
  {
    (f ^ FORMAT_MASK) >> 10
  }

  /**
   * Reading back a format codeword gives the level and mask it was built
   * from, for every level and every mask pattern 0..7.
   */
  lemma FormatCodeword(eccl: int, mask: int)
    requires IsEccl(eccl) && 0 <= mask < MASK_COUNT
    ensures FormatOf(MakeCodewordFormat(eccl, mask)) == FormatData(eccl, mask)
  {
    var data := FormatData(eccl, mask);
    FormatBchSystematic(data);
    var e := EncodeBch(data, 5, 0x537, 10);
    assert (e ^ FORMAT_MASK) ^ FORMAT_MASK == e;
  }

  /** Distinct level/mask pairs have distinct format codewords. */
  lemma FormatInjective(e1: int, m1: int, e2: int, m2: int)
    requires IsEccl(e1) && 0 <= m1 < MASK_COUNT
    requires IsEccl(e2) && 0 <= m2 < MASK_COUNT
    requires MakeCodewordFormat(e1, m1) == MakeCodewordFormat(e2, m2)
    ensures e1 == e2 && m1 == m2
  {
    FormatCodeword(e1, m1);
    FormatCodeword(e2, m2);
    DataInjective(e1, m1, e2, m2);
  }

  lemma DataInjective(e1: int, m1: int, e2: int, m2: int)
    requires IsEccl(e1) && 0 <= m1 < MASK_COUNT
    requires IsEccl(e2) && 0 <= m2 < MASK_COUNT
    requires ((e1 as bv32) << 3) | (m1 as bv32) == ((e2 as bv32) << 3) | (m2 as bv32)
    ensures e1 == e2 && m1 == m2
  {
    SmallRoundTrip(e1); SmallRoundTrip(e2); SmallRoundTrip(m1); SmallRoundTrip(m2);
    PackedInjective(e1 as bv32, m1 as bv32, e2 as bv32, m2 as bv32);
  }

  /** A value below 8 converts to a 32-bit vector and back unchanged. */
  lemma SmallRoundTrip(v: int)
    requires 0 <= v < 8
    ensures v as bv32 < 8 && (v as bv32) as int == v
  {
  }

  /** Three bits shifted above three more bits: the pair can be read back. */
  lemma PackedInjective(a: bv32, b: bv32, c: bv32, d: bv32)
    requires a < 8 && b < 8 && c < 8 && d < 8 && (a << 3) | b == (c << 3) | d
    ensures a == c && b == d
  {
  }

  lemma OrBelow32(a: bv32, b: bv32)
    requires a < 32 && b < 32
    ensures a | b < 32
  {
  }

  lemma XorBelow(a: bv32, b: bv32)
    requires a < 0x8000 && b < 0x8000
    ensures a ^ b < 0x8000
  {
  }
}
