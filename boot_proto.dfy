/**
 * The wire protocol shared by the updater and the sender: the magic
 * constant, the message codes and the packed 24-byte header, whose
 * fields the little-endian device stores least significant byte first.
 */
module BootProto {

  /** C fixed-width unsigned integers, as mathematical integers in range. */
  const TWO_32: int := 0x1_0000_0000
  type u8 = x: int | 0 <= x < 0x100
  type u16 = x: int | 0 <= x < 0x1_0000
  type u32 = x: int | 0 <= x < 0x1_0000_0000

  /** `a + b` on uint32_t: the sum modulo 2^32. */
  function Add32(a: u32, b: u32): (r: u32)
    ensures r as int == if a + b < TWO_32 then a + b else a + b - TWO_32
  {
    (a + b) % TWO_32
  }

  const BL_MAGIC: u32 := 0xB007_10AD

  const BL_HELLO: u8 := 1
  const BL_INFO: u8 := 2
  const BL_BEGIN: u8 := 3
  const BL_DATA: u8 := 4
  const BL_END: u8 := 5
  const BL_ACK: u8 := 6
  const BL_ERR: u8 := 7
  const BL_OK: u8 := 8
  const BL_PEEK: u8 := 9
  const BL_PEEK_RESP: u8 := 10

  /** The message codes of the enumeration, in declaration order. */
  const MESSAGE_CODES: seq<u8> :=
    [BL_HELLO, BL_INFO, BL_BEGIN, BL_DATA, BL_END, BL_ACK, BL_ERR, BL_OK, BL_PEEK, BL_PEEK_RESP]

  /** Byte widths of the packed header's fields, in declaration order. */
  const FIELD_WIDTHS: seq<nat> := [4, 1, 1, 2, 4, 4, 4, 4]

  /** sizeof(bl_hdr_t) under #pragma pack(1). */
  const HDR_LEN: nat := 24

  function Sum(s: seq<nat>): nat
  {
    if s == [] then 0 else s[0] + Sum(s[1..])
  }

  /** With no padding the header size is the sum of its field widths. */
  lemma HeaderSizeIsSumOfWidths()
    ensures Sum(FIELD_WIDTHS) == HDR_LEN
  {
    assert FIELD_WIDTHS[1..] == [1, 1, 2, 4, 4, 4, 4];
    assert FIELD_WIDTHS[2..] == [1, 2, 4, 4, 4, 4];
    assert FIELD_WIDTHS[3..] == [2, 4, 4, 4, 4];
    assert FIELD_WIDTHS[4..] == [4, 4, 4, 4];
    assert FIELD_WIDTHS[5..] == [4, 4, 4];
    assert FIELD_WIDTHS[6..] == [4, 4];
    assert FIELD_WIDTHS[7..] == [4];
  }

  /** The codes run 1..10 and no two messages share a code. */
  lemma MessageCodesDistinct()
    ensures forall i :: 0 <= i < |MESSAGE_CODES| ==> MESSAGE_CODES[i] == i + 1
    ensures forall i, j :: 0 <= i < j < |MESSAGE_CODES| ==> MESSAGE_CODES[i] != MESSAGE_CODES[j]
  {
  }

  function Pow256(n: nat): (p: nat)
    ensures p >= 1
  {
    if n == 0 then 1 else 256 * Pow256(n - 1)
  }

  /** The `width` bytes of `v`, least significant first. */
  function LeBytes(v: nat, width: nat): (r: seq<u8>)
    ensures |r| == width
  {
    if width == 0 then [] else [v % 256] + LeBytes(v / 256, width - 1)
  }

  /** The number whose little-endian bytes are `s`. */
  function LeValue(s: seq<u8>): (v: nat)
    ensures v < Pow256(|s|)
  {
    if s == [] then 0 else s[0] + 256 * LeValue(s[1..])
  }

  lemma {:induction false} LeValueOfBytes(v: nat, width: nat)
    requires v < Pow256(width)
    ensures LeValue(LeBytes(v, width)) == v
  {
    if width > 0 {
      LeValueOfBytes(v / 256, width - 1);
      assert LeBytes(v, width)[1..] == LeBytes(v / 256, width - 1);
    }
  }

  lemma {:induction false} LeBytesOfValue(s: seq<u8>)
    ensures LeBytes(LeValue(s), |s|) == s
  {
    if s != [] {
      LeBytesOfValue(s[1..]);
      DigitSplit(s[0], LeValue(s[1..]));
    }
  }

  /** The low byte and the rest of `lo + 256 * hi` are `lo` and `hi`. */
  lemma DigitSplit(lo: u8, hi: nat)
    ensures (lo + 256 * hi) % 256 == lo && (lo + 256 * hi) / 256 == hi
  {
  }

  /** bl_hdr_t, field by field. */
  datatype Header = Header(magic: u32, msgType: u8, rsv0: u8, hdrLen: u16,
                           seqNo: u32, arg0: u32, arg1: u32, len: u32)

  /** The packed struct's bytes as a little-endian device lays them out in memory. */
  function EncodeHeader(h: Header): (r: seq<u8>)
    ensures |r| == HDR_LEN
  {
    LeBytes(h.magic, 4) + LeBytes(h.msgType, 1) + LeBytes(h.rsv0, 1) + LeBytes(h.hdrLen, 2)
    + LeBytes(h.seqNo, 4) + LeBytes(h.arg0, 4) + LeBytes(h.arg1, 4) + LeBytes(h.len, 4)
  }

  /** Copying the first 24 bytes of a buffer into a bl_hdr_t. */
  function DecodeHeader(b: seq<u8>): Header
    requires |b| >= HDR_LEN
  {
    Header(LeValue(b[0..4]), LeValue(b[4..5]), LeValue(b[5..6]), LeValue(b[6..8]),
           LeValue(b[8..12]), LeValue(b[12..16]), LeValue(b[16..20]), LeValue(b[20..24]))
  }

  lemma DecodeEncodeHeader(h: Header, rest: seq<u8>)
    ensures DecodeHeader(EncodeHeader(h) + rest) == h
  {
    var b := EncodeHeader(h) + rest;
    assert b[0..4] == LeBytes(h.magic, 4);
    assert b[4..5] == LeBytes(h.msgType, 1);
    assert b[5..6] == LeBytes(h.rsv0, 1);
    assert b[6..8] == LeBytes(h.hdrLen, 2);
    assert b[8..12] == LeBytes(h.seqNo, 4);
    assert b[12..16] == LeBytes(h.arg0, 4);
    assert b[16..20] == LeBytes(h.arg1, 4);
    assert b[20..24] == LeBytes(h.len, 4);
    LeValueOfBytes(h.magic, 4);
    LeValueOfBytes(h.msgType, 1);
    LeValueOfBytes(h.rsv0, 1);
    LeValueOfBytes(h.hdrLen, 2);
    LeValueOfBytes(h.seqNo, 4);
    LeValueOfBytes(h.arg0, 4);
    LeValueOfBytes(h.arg1, 4);
    LeValueOfBytes(h.len, 4);
  }

  lemma EncodeDecodeHeader(b: seq<u8>)
    requires |b| >= HDR_LEN
    ensures EncodeHeader(DecodeHeader(b)) == b[..HDR_LEN]
  {
    LeBytesOfValue(b[0..4]);
    LeBytesOfValue(b[4..5]);
    LeBytesOfValue(b[5..6]);
    LeBytesOfValue(b[6..8]);
    LeBytesOfValue(b[8..12]);
    LeBytesOfValue(b[12..16]);
    LeBytesOfValue(b[16..20]);
    LeBytesOfValue(b[20..24]);
    assert b[..HDR_LEN] == b[0..4] + b[4..5] + b[5..6] + b[6..8] + b[8..12] + b[12..16] + b[16..20] + b[20..24];
  }

  /** A datagram: a header and the bytes that follow it. */
  datatype Frame = Frame(hdr: Header, payload: seq<u8>)

  function EncodeFrame(f: Frame): (r: seq<u8>)
    ensures |r| == HDR_LEN + |f.payload|
    ensures r[HDR_LEN..] == f.payload
  {
    EncodeHeader(f.hdr) + f.payload
  }
}
