/**
 * The image checksum: the bitwise reflected CRC-32 of zlib and gzip
 * (polynomial 0xEDB88320, register preset to all ones, result inverted).
 * A pure specification, the byte-by-byte and bit-by-bit loop of the
 * updater, and the table-driven reference code of section 8 of RFC 1952,
 * proved to agree.
 *
 * The register operations the lemmas talk about (`Xor`, `Not`, `Neg`,
 * `Widen`, `Shr1`, `Shr8`, `Low8`, `High24`) are named functions: the
 * statements stay about the register, and a proof opens an operator only
 * where it needs to.
 */
module Crc32 {
  import opened BootProto

  const POLY: bv32 := 0xEDB8_8320

  function Xor(a: bv32, b: bv32): bv32 { a ^ b }

  /** `~crc`. */
  function Not(c: bv32): bv32 { !c }

  /** Two's-complement negation: `-(crc & 1u)` is all ones or all zeros. */
  function Neg(a: bv32): bv32 { -a }

  /** A byte promoted to the 32-bit register. */
  function Widen(b: u8): bv32 { b as bv32 }

  /** A register read back as the uint32_t value it holds. */
  function Value(c: bv32): u32 { c as int }

  function Shr1(c: bv32): bv32 { c >> 1 }

  function Shr8(c: bv32): bv32 { c >> 8 }

  function Low8(c: bv32): bv32 { c & 0xFF }

  /** `crc & 1u`. */
  function Low1(c: bv32): bv32 { c & 1 }

  function And(a: bv32, b: bv32): bv32 { a & b }

  /** The register with its low byte cleared. */
  function High24(c: bv32): bv32 { c & 0xFFFF_FF00 }

  /** One shift of the reflected register: drop the low bit, fold in the polynomial if it was set. */
  function Step(c: bv32): bv32
  {
    if c & 1 == 1 then Shr1(c) ^ POLY else Shr1(c)
  }

  /** `f` applied `k` times. */
  function Iterate(f: bv32 -> bv32, c: bv32, k: nat): bv32
    decreases k
  {
    if k == 0 then c else Iterate(f, f(c), k - 1)
  }

  function Steps(c: bv32, k: nat): bv32
  {
    Iterate(Step, c, k)
  }

  /** Xor one byte into the low end of the register, then shift it through eight times. */
  function FeedByte(c: bv32, b: u8): bv32
  {
    Steps(Xor(c, Widen(b)), 8)
  }

  /** Feed the bytes of `data` with `feed`, first byte first, starting from register `c`. */
  function Fold(feed: (bv32, u8) -> bv32, c: bv32, data: seq<u8>): bv32
  {
    if data == [] then c else feed(Fold(feed, c, data[..|data| - 1]), data[|data| - 1])
  }

  /** The register after feeding `data` in order, starting from `c`, with no inversion. */
  function Register(c: bv32, data: seq<u8>): bv32
  {
    Fold(FeedByte, c, data)
  }

  /** crc32_update: invert, feed, invert back. */
  function CrcUpdate(crc: bv32, data: seq<u8>): bv32
  {
    Not(Register(Not(crc), data))
  }

  /** crc32_zlib: the CRC of `data` from the initial value 0. */
  function Crc(data: seq<u8>): bv32
  {
    CrcUpdate(0, data)
  }

  /** crc32_update as the updater runs it: a loop over the bytes, each shifted through the bit loop. */
  method Crc32Update(crc: bv32, data: seq<u8>) returns (r: bv32)
    ensures r == CrcUpdate(crc, data)
  {
    var c := Not(crc);
    var i := 0;
    while i < |data|
      invariant 0 <= i <= |data|
      invariant c == Register(Not(crc), data[..i])
    {
      c := ShiftByte(Xor(c, Widen(data[i])));
      RegisterSnoc(Not(crc), data, i);
      i := i + 1;
    }
    assert data[..|data|] == data;
    r := Not(c);
  }

  /** The inner loop of crc32_update: eight passes of the branch-free step. */
  method ShiftByte(c0: bv32) returns (c: bv32)
    ensures c == Steps(c0, 8)
  {
    c := c0;
    var b := 0;
    while b < 8
      invariant 0 <= b <= 8
      invariant Steps(c, 8 - b) == Steps(c0, 8)
    {
      var mask: bv32 := Neg(Low1(c));
      MaskStep(c, mask, 8 - b);
      c := Xor(Shr1(c), And(POLY, mask));
      b := b + 1;
    }
  }

  lemma RegisterSnoc(c: bv32, data: seq<u8>, i: nat)
    requires i < |data|
    ensures Register(c, data[..i + 1]) == FeedByte(Register(c, data[..i]), data[i])
  {
    assert data[..i + 1][..i] == data[..i];
    assert data[..i + 1][i] == data[i];
  }

  /** One pass of the bit loop, `mask = -(crc & 1); crc = (crc >> 1) ^ (POLY & mask)`, is one step. */
  lemma MaskStep(c: bv32, mask: bv32, k: nat)
    requires k > 0 && mask == Neg(Low1(c))
    ensures Steps(Xor(Shr1(c), And(POLY, mask)), k - 1) == Steps(c, k)
  {
    MaskIsConditionalFold(c, mask);
  }

  /** The branch-free form `(c >> 1) ^ (POLY & -(c & 1))` of one step. */
  lemma MaskIsConditionalFold(c: bv32, mask: bv32)
    requires mask == Neg(Low1(c))
    ensures Xor(Shr1(c), And(POLY, mask)) == Step(c)
  {
    if c & 1 == 1 {
      assert mask == 0xFFFF_FFFF;
    } else {
      assert c & 1 == 0;
      assert mask == 0;
    }
  }

  /** crc32_zlib. */
  method Crc32Zlib(data: seq<u8>) returns (r: bv32)
    ensures r == Crc(data)
    ensures data == [] ==> r == 0
  {
    r := Crc32Update(0, data);
    CrcOfEmpty(0);
  }

  lemma {:induction false} FoldAppend(feed: (bv32, u8) -> bv32, c: bv32, a: seq<u8>, b: seq<u8>)
    ensures Fold(feed, c, a + b) == Fold(feed, Fold(feed, c, a), b)
    decreases |b|
  {
    if b == [] {
      assert a + b == a;
    } else {
      var ab := a + b;
      assert ab[..|ab| - 1] == a + b[..|b| - 1];
      assert ab[|ab| - 1] == b[|b| - 1];
      FoldAppend(feed, c, a, b[..|b| - 1]);
    }
  }

  lemma NotNot(c: bv32)
    ensures Not(Not(c)) == c
  {
  }

  /** Updating with two pieces one after the other is updating with their concatenation: the inner inversions cancel. */
  lemma CrcUpdateCompose(c: bv32, a: seq<u8>, b: seq<u8>)
    ensures CrcUpdate(CrcUpdate(c, a), b) == CrcUpdate(c, a + b)
  {
    NotNot(Register(Not(c), a));
    FoldAppend(FeedByte, Not(c), a, b);
  }

  /** No data leaves the value unchanged; in particular the CRC of nothing is 0. */
  lemma CrcOfEmpty(c: bv32)
    ensures CrcUpdate(c, []) == c
    ensures Crc([]) == 0
  {
    NotNot(c);
    NotNot(0);
  }

  /** Eight applications of `f` through given intermediate values. */
  lemma IterateChain(f: bv32 -> bv32, t: seq<bv32>)
    requires |t| == 9
    requires forall k :: 0 <= k < 8 ==> f(t[k]) == t[k + 1]
    ensures Iterate(f, t[0], 8) == t[8]
  {
    assert Iterate(f, t[7], 1) == t[8];
    assert Iterate(f, t[6], 2) == t[8];
    assert Iterate(f, t[5], 3) == t[8];
    assert Iterate(f, t[4], 4) == t[8];
    assert Iterate(f, t[3], 5) == t[8];
    assert Iterate(f, t[2], 6) == t[8];
    assert Iterate(f, t[1], 7) == t[8];
  }

  /** Feeding byte `b` into `c` passes through the registers `t`. */
  lemma FeedTrace(c: bv32, b: u8, t: seq<bv32>)
    requires |t| == 9 && t[0] == Xor(c, Widen(b))
    requires forall k :: 0 <= k < 8 ==> Step(t[k]) == t[k + 1]
    ensures FeedByte(c, b) == t[8]
  {
    IterateChain(Step, t);
  }

  /** Three bytes fed one after the other. */
  lemma RegisterOfThree(c: bv32, x: u8, y: u8, z: u8)
    ensures Register(c, [x, y, z]) == FeedByte(FeedByte(FeedByte(c, x), y), z)
  {
    var d: seq<u8> := [x, y, z];
    assert d[..0] == [];
    assert d[..3] == d;
    RegisterSnoc(c, d, 0);
    RegisterSnoc(c, d, 1);
    RegisterSnoc(c, d, 2);
  }

  /** The register after the digits "123" of the check string. */
  lemma CheckDigits123()
    ensures Register(0xFFFF_FFFF, [0x31, 0x32, 0x33]) == 0x77b7_9c2d
  {
    FeedTrace(0xFFFF_FFFF, 0x31, [0xffff_ffce, 0x7fff_ffe7, 0xd247_7cd3, 0x849b_3d49, 0xaff5_1d84,
                                  0x57fa_8ec2, 0x2bfd_4761, 0xf846_2090, 0x7c23_1048]);
    FeedTrace(0x7c23_1048, 0x32, [0x7c23_107a, 0x3e11_883d, 0xf2b0_473e, 0x7958_239f, 0xd114_92ef,
                                  0x8532_ca57, 0xaf21_e60b, 0xba28_7025, 0xb0ac_bb32]);
    FeedTrace(0xb0ac_bb32, 0x33, [0xb0ac_bb01, 0xb5ee_dea0, 0x5af7_6f50, 0x2d7b_b7a8, 0x16bd_dbd4,
                                  0x0b5e_edea, 0x05af_76f5, 0xef6f_385a, 0x77b7_9c2d]);
    RegisterOfThree(0xFFFF_FFFF, 0x31, 0x32, 0x33);
  }

  /** The register after the digits "456". */
  lemma CheckDigits456()
    ensures Register(0x77b7_9c2d, [0x34, 0x35, 0x36]) == 0xf68d_2c9e
  {
    FeedTrace(0x77b7_9c2d, 0x34, [0x77b7_9c19, 0xd663_4d2c, 0x6b31_a696, 0x3598_d34b, 0xf774_ea85,
                                  0x9602_f662, 0x4b01_7b31, 0xc838_3eb8, 0x641c_1f5c]);
    FeedTrace(0x641c_1f5c, 0x35, [0x641c_1f69, 0xdfb6_8c94, 0x6fdb_464a, 0x37ed_a325, 0xf64e_52b2,
                                  0x7b27_2959, 0xd02b_178c, 0x6815_8bc6, 0x340a_c5e3]);
    FeedTrace(0x340a_c5e3, 0x36, [0x340a_c5d5, 0xf7bd_e1ca, 0x7bde_f0e5, 0xd057_fb52, 0x682b_fda9,
                                  0xd9ad_7df4, 0x6cd6_befa, 0x366b_5f7d, 0xf68d_2c9e]);
    RegisterOfThree(0x77b7_9c2d, 0x34, 0x35, 0x36);
  }

  /** The register after the digits "789". */
  lemma CheckDigits789()
    ensures Register(0xf68d_2c9e, [0x37, 0x38, 0x39]) == 0x340b_c6d9
  {
    FeedTrace(0xf68d_2c9e, 0x37, [0xf68d_2ca9, 0x96fe_1574, 0x4b7f_0aba, 0x25bf_855d, 0xff67_418e,
                                  0x7fb3_a0c7, 0xd261_5343, 0x8488_2a81, 0xaffc_9660]);
    FeedTrace(0xaffc_9660, 0x38, [0xaffc_9658, 0x57fe_4b2c, 0x2bff_2596, 0x15ff_92cb, 0xe747_4a45,
                                  0x9e1b_2602, 0x4f0d_9301, 0xca3e_4aa0, 0x651f_2550]);
    FeedTrace(0x651f_2550, 0x39, [0x651f_2569, 0xdf37_1194, 0x6f9b_88ca, 0x37cd_c465, 0xf65e_6112,
                                  0x7b2f_3089, 0xd02f_1b64, 0x6817_8db2, 0x340b_c6d9]);
    RegisterOfThree(0xf68d_2c9e, 0x37, 0x38, 0x39);
  }

  /** The standard check value: the CRC of the ASCII digits "123456789". */
  lemma CheckValue()
    ensures Crc([0x31, 0x32, 0x33, 0x34, 0x35, 0x36, 0x37, 0x38, 0x39]) == 0xCBF4_3926
  {
    var a: seq<u8> := [0x31, 0x32, 0x33];
    var b: seq<u8> := [0x34, 0x35, 0x36];
    var c: seq<u8> := [0x37, 0x38, 0x39];
    assert a + b + c == [0x31, 0x32, 0x33, 0x34, 0x35, 0x36, 0x37, 0x38, 0x39];
    CheckDigits123();
    CheckDigits456();
    CheckDigits789();
    FoldAppend(FeedByte, 0xFFFF_FFFF, a, b);
    FoldAppend(FeedByte, 0xFFFF_FFFF, a + b, c);
    assert Not(0) == 0xFFFF_FFFF;
    assert Not(0x340b_c6d9) == 0xCBF4_3926;
  }

  // The reference implementation of section 8 of RFC 1952, table-driven.

  /** Entry n of the table make_crc_table fills: the byte n shifted through eight steps. */
  function CrcTable(n: bv32): bv32
    requires n < 256
  {
    Steps(n, 8)
  }

  /** One byte of update_crc: `c = crc_table[(c ^ buf[n]) & 0xff] ^ (c >> 8)`. */
  function TableFeed(c: bv32, b: u8): bv32
  {
    Xor(CrcTable(Low8(Xor(c, Widen(b)))), Shr8(c))
  }

  /** update_crc of RFC 1952: `c = crc ^ 0xffffffff`, one table lookup per byte, then `c ^ 0xffffffff`. */
  function RfcUpdateCrc(crc: bv32, buf: seq<u8>): bv32
  {
    Xor(Fold(TableFeed, Xor(crc, 0xFFFF_FFFF), buf), 0xFFFF_FFFF)
  }

  lemma ShiftXor(x: bv32, y: bv32)
    ensures Shr1(x ^ y) == Shr1(x) ^ Shr1(y)
    ensures (x ^ y) & 1 == (x & 1) ^ (y & 1)
    ensures x & 1 == 0 || x & 1 == 1
    ensures y & 1 == 0 || y & 1 == 1
  {
  }

  lemma StepOdd(c: bv32)
    requires c & 1 == 1
    ensures Step(c) == Shr1(c) ^ POLY
  {
  }

  lemma StepEven(c: bv32)
    requires c & 1 != 1
    ensures Step(c) == Shr1(c)
  {
  }

  /** A step is linear over xor. */
  lemma StepXor(x: bv32, y: bv32)
    ensures Step(x ^ y) == Step(x) ^ Step(y)
  {
    ShiftXor(x, y);
    if x & 1 == 1 { StepOdd(x); } else { StepEven(x); }
    if y & 1 == 1 { StepOdd(y); } else { StepEven(y); }
    if (x ^ y) & 1 == 1 { StepOdd(x ^ y); } else { StepEven(x ^ y); }
  }

  /** Iterating a map that distributes over `op` distributes over `op`. */
  lemma {:induction false} IterateHom(f: bv32 -> bv32, op: (bv32, bv32) -> bv32, x: bv32, y: bv32, k: nat)
    requires forall a, b {:trigger f(op(a, b))} :: f(op(a, b)) == op(f(a), f(b))
    ensures Iterate(f, op(x, y), k) == op(Iterate(f, x, k), Iterate(f, y, k))
    decreases k
  {
    if k > 0 {
      IterateHom(f, op, f(x), f(y), k - 1);
    }
  }

  /** Any number of steps is linear over xor. */
  lemma StepsXor(x: bv32, y: bv32, k: nat)
    ensures Steps(Xor(x, y), k) == Xor(Steps(x, k), Steps(y, k))
  {
    forall a, b ensures Step(Xor(a, b)) == Xor(Step(a), Step(b)) {
      StepXor(a, b);
    }
    IterateHom(Step, Xor, x, y, k);
  }

  /** With its low byte cleared the register shifts eight times without a fold, and ends as `c >> 8`. */
  lemma HighBitsClear(c: bv32)
    ensures var v0 := High24(c);
      var v1 := Shr1(v0); var v2 := Shr1(v1); var v3 := Shr1(v2); var v4 := Shr1(v3);
      var v5 := Shr1(v4); var v6 := Shr1(v5); var v7 := Shr1(v6);
      && v0 & 1 == 0 && v1 & 1 == 0 && v2 & 1 == 0 && v3 & 1 == 0
      && v4 & 1 == 0 && v5 & 1 == 0 && v6 & 1 == 0 && v7 & 1 == 0
      && Shr1(v7) == Shr8(c)
  {
  }

  /** A register whose low eight bits are clear shifts through eight steps without folding. */
  lemma HighBitsShift(c: bv32)
    ensures Steps(High24(c), 8) == Shr8(c)
  {
    HighBitsClear(c);
    var v0 := High24(c);
    var v1 := Shr1(v0); var v2 := Shr1(v1); var v3 := Shr1(v2); var v4 := Shr1(v3);
    var v5 := Shr1(v4); var v6 := Shr1(v5); var v7 := Shr1(v6);
    StepEven(v0); StepEven(v1); StepEven(v2); StepEven(v3);
    StepEven(v4); StepEven(v5); StepEven(v6); StepEven(v7);
    IterateChain(Step, [v0, v1, v2, v3, v4, v5, v6, v7, Shr8(c)]);
  }

  /** The register after xoring in a byte splits into its low byte and its untouched high bits. */
  lemma SplitRegister(c: bv32, b: u8)
    ensures Xor(c, Widen(b)) == Xor(Low8(Xor(c, Widen(b))), High24(c))
    ensures Low8(Xor(c, Widen(b))) < 256
  {
    WidenIsByte(b);
    SplitLowByte(c, Widen(b));
  }

  lemma WidenIsByte(b: u8)
    ensures Widen(b) < 256
  {
  }

  lemma SplitLowByte(c: bv32, w: bv32)
    requires w < 256
    ensures c ^ w == ((c ^ w) & 0xFF) ^ (c & 0xFFFF_FF00)
    ensures (c ^ w) & 0xFF < 256
  {
  }

  /** One table lookup does the work of eight bit steps. */
  lemma TableStep(c: bv32, b: u8)
    ensures FeedByte(c, b) == TableFeed(c, b)
  {
    var lo := Low8(Xor(c, Widen(b)));
    SplitRegister(c, b);
    StepsXor(lo, High24(c), 8);
    HighBitsShift(c);
  }

  lemma {:induction false} FoldPointwise(f: (bv32, u8) -> bv32, g: (bv32, u8) -> bv32, c: bv32, data: seq<u8>)
    requires forall x, b :: f(x, b) == g(x, b)
    ensures Fold(f, c, data) == Fold(g, c, data)
  {
    if data != [] {
      FoldPointwise(f, g, c, data[..|data| - 1]);
    }
  }

  lemma NotIsXorOnes(c: bv32)
    ensures Not(c) == Xor(c, 0xFFFF_FFFF)
  {
  }

  /** The updater's CRC is the CRC of the RFC 1952 reference code, which zlib.crc32 computes. */
  lemma CrcIsRfc1952Crc(crc: bv32, data: seq<u8>)
    ensures CrcUpdate(crc, data) == RfcUpdateCrc(crc, data)
  {
    forall x: bv32, b: u8 ensures FeedByte(x, b) == TableFeed(x, b) {
      TableStep(x, b);
    }
    FoldPointwise(FeedByte, TableFeed, Not(crc), data);
    NotIsXorOnes(crc);
    NotIsXorOnes(Register(Not(crc), data));
  }
}
