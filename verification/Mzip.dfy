/** The two CRC fields of an MZIP header: how elf2img stores them, what they cover and what they catch. */
module Mzip {
  import opened Crc
  import opened CrcPolynomial
  import opened CrcBursts

  const HEADER_SIZE := 0x70
  const CRC_CODE := 0x34         // hdr_crc_code
  const CRC_HEADER := 0x36       // hdr_crc_header
  const AFTER_CRCS := 0x38

  /** What mzip_calculate_crc computes: the header after the CRC fields, then the code segment. */
  function CodeCrc(hdr: seq<bv8>, code: seq<bv8>): bv16
    requires |hdr| == HEADER_SIZE
  {
    CrcOf(hdr[AFTER_CRCS..] + code, 0)
  }

  /** What mzip_calculate_hdr_crc computes: the header up to its own field, the code CRC included. */
  function HeaderCrc(hdr: seq<bv8>): bv16
    requires |hdr| == HEADER_SIZE
  {
    CrcOf(hdr[..CRC_HEADER], 0)
  }

  /** A 16-bit header field as a little-endian host lays it out: swapped for a big-endian target. */
  function Field(hdr: seq<bv8>, at: nat, swap: bool): bv16
    requires at + 2 <= |hdr|
  {
    if swap then Join(hdr[at], hdr[at + 1]) else Join(hdr[at + 1], hdr[at])
  }

  function Join(high: bv8, low: bv8): bv16 {
    ((high as bv16) << 8) | (low as bv16)
  }

  lemma JoinHalves(x: bv16)
    ensures Join((x >> 8) as bv8, (x & 0xff) as bv8) == x
  {
    Halves(x);
    NarrowWiden(x >> 8);
    NarrowWiden(x & 0xff);
  }

  lemma Halves(x: bv16)
    ensures (x >> 8) & 0xff00 == 0 && (x & 0xff) & 0xff00 == 0
    ensures ((x >> 8) << 8) | (x & 0xff) == x
  {
  }

  /** Both stored CRCs are the ones the header and the code segment have. */
  predicate Sealed(hdr: seq<bv8>, code: seq<bv8>, swap: bool)
    requires |hdr| == HEADER_SIZE
  {
    Field(hdr, CRC_CODE, swap) == CodeCrc(hdr, code) && Field(hdr, CRC_HEADER, swap) == HeaderCrc(hdr)
  }

  /** mzip_calculate_crc: two chained runs over the header's tail and the code segment. */
  method MzipCalculateCrc(hdr: array<bv8>, buffer: seq<bv8>) returns (crc: bv16)
    requires hdr.Length == HEADER_SIZE && |buffer| < 0x8000_0000
    ensures crc == CodeCrc(hdr[..], buffer)
    ensures IsRemainder(Dividend(0xffff, Bits(hdr[0x38..] + buffer)), Bits16(Not(crc)))
  {
    hide IsRemainder, Dividend, Bits, Bits16, Register;
    var remainder := CalculateCrc(hdr[..], AFTER_CRCS, HEADER_SIZE, 0);
    crc := CalculateCrc(buffer, 0, |buffer|, remainder);
    CrcChains(hdr[AFTER_CRCS..], buffer, 0);
    assert buffer[0..|buffer|] == buffer && hdr[..][AFTER_CRCS..HEADER_SIZE] == hdr[AFTER_CRCS..];
    PresetIsOnes(hdr[0x38..] + buffer, crc);
  }

  /** mzip_calculate_hdr_crc. */
  method MzipCalculateHdrCrc(hdr: array<bv8>) returns (crc: bv16)
    requires hdr.Length == HEADER_SIZE
    ensures crc == HeaderCrc(hdr[..])
    ensures IsRemainder(Dividend(0xffff, Bits(hdr[..0x36])), Bits16(Not(crc)))
  {
    hide IsRemainder, Dividend, Bits, Bits16, Register;
    crc := CalculateCrc(hdr[..], 0, CRC_HEADER, 0);
    assert hdr[..][0..CRC_HEADER] == hdr[..][..CRC_HEADER] == hdr[..0x36];
    PresetIsOnes(hdr[..0x36], crc);
  }

  /** A first remainder of 0 presets the register to all ones. */
  lemma PresetIsOnes(s: seq<bv8>, crc: bv16)
    requires crc == CrcOf(s, 0)
    ensures IsRemainder(Dividend(0xffff, Bits(s)), Bits16(Not(crc)))
  {
    hide IsRemainder, Dividend, Bits, Bits16, Register, CrcOf;
    CrcIsTheRemainder(s, 0, crc);
    assert Not(0) == 0xffff;
  }

  /** One 16-bit field, the high byte first if it is swapped. */
  method StoreField(hdr: array<bv8>, at: nat, value: bv16, swap: bool)
    requires at + 2 <= hdr.Length
    modifies hdr
    ensures Field(hdr[..], at, swap) == value
    ensures hdr[at..at + 2] == var high, low := (value >> 8) as bv8, (value & 0xff) as bv8;
                               if swap then [high, low] else [low, high]
    ensures hdr[..at] == old(hdr[..at]) && hdr[at + 2..] == old(hdr[at + 2..])
  {
    var high, low := (value >> 8) as bv8, (value & 0xff) as bv8;
    JoinHalves(value);
    if swap {
      hdr[at], hdr[at + 1] := high, low;
    } else {
      hdr[at], hdr[at + 1] := low, high;
    }
  }

  /** The end of elf2img's main: the code CRC first, then the header CRC that covers it. Afterwards both
      fields hold what recomputing them gives. */
  method StoreCrcs(hdr: array<bv8>, code: seq<bv8>, swap: bool)
    requires hdr.Length == HEADER_SIZE && |code| < 0x8000_0000
    modifies hdr
    ensures Sealed(hdr[..], code, swap)
    ensures hdr[..CRC_CODE] == old(hdr[..CRC_CODE]) && hdr[AFTER_CRCS..] == old(hdr[AFTER_CRCS..])
  {
    hide CrcOf, Join, IsRemainder, Dividend, Bits, Bits16, Not;
    var crc := MzipCalculateCrc(hdr, code);
    StoreField(hdr, CRC_CODE, crc, swap);
    ghost var first := hdr[..];
    assert first[AFTER_CRCS..] == old(hdr[AFTER_CRCS..]);
    crc := MzipCalculateHdrCrc(hdr);
    StoreField(hdr, CRC_HEADER, crc, swap);
    assert hdr[..CRC_HEADER] == first[..CRC_HEADER];
    assert hdr[..][..CRC_HEADER] == first[..CRC_HEADER];
    assert hdr[..][AFTER_CRCS..] == first[AFTER_CRCS..];
    assert hdr[CRC_CODE] == first[..CRC_HEADER][CRC_CODE] && hdr[CRC_CODE + 1] == first[..CRC_HEADER][CRC_CODE + 1];
  }

  /** A header is sealed if and only if the big-endian fields at 0x34 and 0x36 (little-endian ones, unswapped) are
      the inverted remainders of the bytes from 0x38 on with the code segment, and of the bytes before 0x36. */
  lemma SealedMeans(hdr: seq<bv8>, code: seq<bv8>, swap: bool)
    requires |hdr| == 0x70
    ensures Sealed(hdr, code, swap) <==>
      var first := if swap then Join(hdr[0x34], hdr[0x35]) else Join(hdr[0x35], hdr[0x34]);
      var second := if swap then Join(hdr[0x36], hdr[0x37]) else Join(hdr[0x37], hdr[0x36]);
      && IsRemainder(Dividend(0xffff, Bits(hdr[0x38..] + code)), Bits16(Not(first)))
      && IsRemainder(Dividend(0xffff, Bits(hdr[..0x36])), Bits16(Not(second)))
  {
    hide IsRemainder, Dividend, Bits, Bits16, Register, CrcOf, Join;
    assert Not(0) == 0xffff;
    CrcIsTheRemainder(hdr[0x38..] + code, 0, Field(hdr, 0x34, swap));
    CrcIsTheRemainder(hdr[..0x36], 0, Field(hdr, 0x36, swap));
  }

  /** The places a burst may lie: before the header CRC, or behind both CRC fields. */
  ghost predicate Damaged(hdr: seq<bv8>, code: seq<bv8>, hdr': seq<bv8>, code': seq<bv8>)
    requires |hdr| == |hdr'| == HEADER_SIZE
  {
    || (Burst(hdr[..CRC_HEADER], hdr'[..CRC_HEADER]) && hdr[CRC_HEADER..] == hdr'[CRC_HEADER..] && code == code')
    || (hdr[..AFTER_CRCS] == hdr'[..AFTER_CRCS] && Burst(hdr[AFTER_CRCS..] + code, hdr'[AFTER_CRCS..] + code'))
  }

  /** Any change of at most sixteen consecutive bits in bytes 0..0x35, or in bytes 0x38..0x6F and the code
      segment, leaves one of the two stored CRCs wrong. */
  lemma DamageIsCaught(hdr: seq<bv8>, code: seq<bv8>, hdr': seq<bv8>, code': seq<bv8>, swap: bool)
    requires |hdr| == |hdr'| == HEADER_SIZE
    requires Sealed(hdr, code, swap) && Damaged(hdr, code, hdr', code')
    ensures !Sealed(hdr', code', swap)
  {
    hide CrcOf, Join, Burst;
    if Burst(hdr[..CRC_HEADER], hdr'[..CRC_HEADER]) && hdr[CRC_HEADER..] == hdr'[CRC_HEADER..] {
      BurstSeen(hdr[..CRC_HEADER], hdr'[..CRC_HEADER], 0);
      assert hdr[CRC_HEADER..][0] == hdr'[CRC_HEADER..][0] && hdr[CRC_HEADER..][1] == hdr'[CRC_HEADER..][1];
    } else {
      BurstSeen(hdr[AFTER_CRCS..] + code, hdr'[AFTER_CRCS..] + code', 0);
      assert hdr[..AFTER_CRCS][CRC_CODE] == hdr'[..AFTER_CRCS][CRC_CODE];
      assert hdr[..AFTER_CRCS][CRC_CODE + 1] == hdr'[..AFTER_CRCS][CRC_CODE + 1];
    }
  }
}
