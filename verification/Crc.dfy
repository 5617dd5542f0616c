/** The page checksum: framing.c's table-driven CRC against bit-by-bit division. */
module Crc {
  import opened Bytes

  const POLY: bv32 := 0x04c11db7

  function Xor(a: bv32, b: bv32): bv32 { a ^ b }
  function Top(r: bv32): bool { r & 0x8000_0000 != 0 }
  function Shl(r: bv32): bv32 { r << 1 }
  function Shl8(r: bv32): bv32 { r << 8 }

  // ----- Reference: one message bit at a time -----

  /** One step of the long division: the bit leaving the register, added to the next message bit,
      decides whether the polynomial is subtracted. */
  function FeedBit(r: bv32, bit: bool): bv32 {
    if Top(r) != bit then Xor(Shl(r), POLY) else Shl(r)
  }

  function FeedBits(r: bv32, bits: seq<bool>): bv32 {
    if |bits| == 0 then r else FeedBit(FeedBits(r, bits[..|bits| - 1]), bits[|bits| - 1])
  }

  function Octet(b: byte): bv8 { b as bv8 }

  /** The bits of an octet, most significant first. */
  function BitsOf(b: byte): (bits: seq<bool>)
    ensures |bits| == 8
  {
    var o := Octet(b);
    [o & 0x80 != 0, o & 0x40 != 0, o & 0x20 != 0, o & 0x10 != 0,
     o & 0x08 != 0, o & 0x04 != 0, o & 0x02 != 0, o & 0x01 != 0]
  }

  function MessageBits(data: seq<byte>): seq<bool> {
    if |data| == 0 then [] else MessageBits(data[..|data| - 1]) + BitsOf(data[|data| - 1])
  }

  // ----- The program's form -----

  const CRC_ROW_00: seq<bv32> := [
    0x00000000, 0x04c11db7, 0x09823b6e, 0x0d4326d9,
    0x130476dc, 0x17c56b6b, 0x1a864db2, 0x1e475005]
  const CRC_ROW_01: seq<bv32> := [
    0x2608edb8, 0x22c9f00f, 0x2f8ad6d6, 0x2b4bcb61,
    0x350c9b64, 0x31cd86d3, 0x3c8ea00a, 0x384fbdbd]
  const CRC_ROW_02: seq<bv32> := [
    0x4c11db70, 0x48d0c6c7, 0x4593e01e, 0x4152fda9,
    0x5f15adac, 0x5bd4b01b, 0x569796c2, 0x52568b75]
  const CRC_ROW_03: seq<bv32> := [
    0x6a1936c8, 0x6ed82b7f, 0x639b0da6, 0x675a1011,
    0x791d4014, 0x7ddc5da3, 0x709f7b7a, 0x745e66cd]
  const CRC_ROW_04: seq<bv32> := [
    0x9823b6e0, 0x9ce2ab57, 0x91a18d8e, 0x95609039,
    0x8b27c03c, 0x8fe6dd8b, 0x82a5fb52, 0x8664e6e5]
  const CRC_ROW_05: seq<bv32> := [
    0xbe2b5b58, 0xbaea46ef, 0xb7a96036, 0xb3687d81,
    0xad2f2d84, 0xa9ee3033, 0xa4ad16ea, 0xa06c0b5d]
  const CRC_ROW_06: seq<bv32> := [
    0xd4326d90, 0xd0f37027, 0xddb056fe, 0xd9714b49,
    0xc7361b4c, 0xc3f706fb, 0xceb42022, 0xca753d95]
  const CRC_ROW_07: seq<bv32> := [
    0xf23a8028, 0xf6fb9d9f, 0xfbb8bb46, 0xff79a6f1,
    0xe13ef6f4, 0xe5ffeb43, 0xe8bccd9a, 0xec7dd02d]
  const CRC_ROW_08: seq<bv32> := [
    0x34867077, 0x30476dc0, 0x3d044b19, 0x39c556ae,
    0x278206ab, 0x23431b1c, 0x2e003dc5, 0x2ac12072]
  const CRC_ROW_09: seq<bv32> := [
    0x128e9dcf, 0x164f8078, 0x1b0ca6a1, 0x1fcdbb16,
    0x018aeb13, 0x054bf6a4, 0x0808d07d, 0x0cc9cdca]
  const CRC_ROW_10: seq<bv32> := [
    0x7897ab07, 0x7c56b6b0, 0x71159069, 0x75d48dde,
    0x6b93dddb, 0x6f52c06c, 0x6211e6b5, 0x66d0fb02]
  const CRC_ROW_11: seq<bv32> := [
    0x5e9f46bf, 0x5a5e5b08, 0x571d7dd1, 0x53dc6066,
    0x4d9b3063, 0x495a2dd4, 0x44190b0d, 0x40d816ba]
  const CRC_ROW_12: seq<bv32> := [
    0xaca5c697, 0xa864db20, 0xa527fdf9, 0xa1e6e04e,
    0xbfa1b04b, 0xbb60adfc, 0xb6238b25, 0xb2e29692]
  const CRC_ROW_13: seq<bv32> := [
    0x8aad2b2f, 0x8e6c3698, 0x832f1041, 0x87ee0df6,
    0x99a95df3, 0x9d684044, 0x902b669d, 0x94ea7b2a]
  const CRC_ROW_14: seq<bv32> := [
    0xe0b41de7, 0xe4750050, 0xe9362689, 0xedf73b3e,
    0xf3b06b3b, 0xf771768c, 0xfa325055, 0xfef34de2]
  const CRC_ROW_15: seq<bv32> := [
    0xc6bcf05f, 0xc27dede8, 0xcf3ecb31, 0xcbffd686,
    0xd5b88683, 0xd1799b34, 0xdc3abded, 0xd8fba05a]
  const CRC_ROW_16: seq<bv32> := [
    0x690ce0ee, 0x6dcdfd59, 0x608edb80, 0x644fc637,
    0x7a089632, 0x7ec98b85, 0x738aad5c, 0x774bb0eb]
  const CRC_ROW_17: seq<bv32> := [
    0x4f040d56, 0x4bc510e1, 0x46863638, 0x42472b8f,
    0x5c007b8a, 0x58c1663d, 0x558240e4, 0x51435d53]
  const CRC_ROW_18: seq<bv32> := [
    0x251d3b9e, 0x21dc2629, 0x2c9f00f0, 0x285e1d47,
    0x36194d42, 0x32d850f5, 0x3f9b762c, 0x3b5a6b9b]
  const CRC_ROW_19: seq<bv32> := [
    0x0315d626, 0x07d4cb91, 0x0a97ed48, 0x0e56f0ff,
    0x1011a0fa, 0x14d0bd4d, 0x19939b94, 0x1d528623]
  const CRC_ROW_20: seq<bv32> := [
    0xf12f560e, 0xf5ee4bb9, 0xf8ad6d60, 0xfc6c70d7,
    0xe22b20d2, 0xe6ea3d65, 0xeba91bbc, 0xef68060b]
  const CRC_ROW_21: seq<bv32> := [
    0xd727bbb6, 0xd3e6a601, 0xdea580d8, 0xda649d6f,
    0xc423cd6a, 0xc0e2d0dd, 0xcda1f604, 0xc960ebb3]
  const CRC_ROW_22: seq<bv32> := [
    0xbd3e8d7e, 0xb9ff90c9, 0xb4bcb610, 0xb07daba7,
    0xae3afba2, 0xaafbe615, 0xa7b8c0cc, 0xa379dd7b]
  const CRC_ROW_23: seq<bv32> := [
    0x9b3660c6, 0x9ff77d71, 0x92b45ba8, 0x9675461f,
    0x8832161a, 0x8cf30bad, 0x81b02d74, 0x857130c3]
  const CRC_ROW_24: seq<bv32> := [
    0x5d8a9099, 0x594b8d2e, 0x5408abf7, 0x50c9b640,
    0x4e8ee645, 0x4a4ffbf2, 0x470cdd2b, 0x43cdc09c]
  const CRC_ROW_25: seq<bv32> := [
    0x7b827d21, 0x7f436096, 0x7200464f, 0x76c15bf8,
    0x68860bfd, 0x6c47164a, 0x61043093, 0x65c52d24]
  const CRC_ROW_26: seq<bv32> := [
    0x119b4be9, 0x155a565e, 0x18197087, 0x1cd86d30,
    0x029f3d35, 0x065e2082, 0x0b1d065b, 0x0fdc1bec]
  const CRC_ROW_27: seq<bv32> := [
    0x3793a651, 0x3352bbe6, 0x3e119d3f, 0x3ad08088,
    0x2497d08d, 0x2056cd3a, 0x2d15ebe3, 0x29d4f654]
  const CRC_ROW_28: seq<bv32> := [
    0xc5a92679, 0xc1683bce, 0xcc2b1d17, 0xc8ea00a0,
    0xd6ad50a5, 0xd26c4d12, 0xdf2f6bcb, 0xdbee767c]
  const CRC_ROW_29: seq<bv32> := [
    0xe3a1cbc1, 0xe760d676, 0xea23f0af, 0xeee2ed18,
    0xf0a5bd1d, 0xf464a0aa, 0xf9278673, 0xfde69bc4]
  const CRC_ROW_30: seq<bv32> := [
    0x89b8fd09, 0x8d79e0be, 0x803ac667, 0x84fbdbd0,
    0x9abc8bd5, 0x9e7d9662, 0x933eb0bb, 0x97ffad0c]
  const CRC_ROW_31: seq<bv32> := [
    0xafb010b1, 0xab710d06, 0xa6322bdf, 0xa2f33668,
    0xbcb4666d, 0xb8757bda, 0xb5365d03, 0xb1f740b4]

  const CRC_LOOKUP: seq<seq<bv32>> := [
    CRC_ROW_00, CRC_ROW_01, CRC_ROW_02, CRC_ROW_03, CRC_ROW_04, CRC_ROW_05, CRC_ROW_06, CRC_ROW_07,
    CRC_ROW_08, CRC_ROW_09, CRC_ROW_10, CRC_ROW_11, CRC_ROW_12, CRC_ROW_13, CRC_ROW_14, CRC_ROW_15,
    CRC_ROW_16, CRC_ROW_17, CRC_ROW_18, CRC_ROW_19, CRC_ROW_20, CRC_ROW_21, CRC_ROW_22, CRC_ROW_23,
    CRC_ROW_24, CRC_ROW_25, CRC_ROW_26, CRC_ROW_27, CRC_ROW_28, CRC_ROW_29, CRC_ROW_30, CRC_ROW_31]

  /** `crc_lookup[i]`; the 256 constants are kept in thirty-two rows. */
  function Lookup(i: byte): bv32 {
    CRC_LOOKUP[i / 8][i % 8]
  }

  function IndexOctet(r: bv32, b: byte): bv8 {
    ((r >> 24) & 0xff) as bv8 ^ Octet(b)
  }

  function Step(r: bv32, b: byte): bv32 {
    Xor(Shl8(r), Lookup(IndexOctet(r, b) as int))
  }

  function CrcFrom(r: bv32, data: seq<byte>): bv32 {
    if |data| == 0 then r else Step(CrcFrom(r, data[..|data| - 1]), data[|data| - 1])
  }

  // ----- The table is eight shifts of its index -----

  function Shift(r: bv32): bv32 {
    FeedBit(r, false)
  }

  // ----- Algebra of the register -----

  lemma XorAssoc(a: bv32, b: bv32, c: bv32) ensures Xor(Xor(a, b), c) == Xor(a, Xor(b, c)) {}
  lemma XorComm(a: bv32, b: bv32) ensures Xor(a, b) == Xor(b, a) {}
  lemma XorTwice(a: bv32, b: bv32) ensures Xor(a, Xor(a, b)) == b {}
  lemma ShlXor(a: bv32, b: bv32) ensures Shl(Xor(a, b)) == Xor(Shl(a), Shl(b)) {}
  lemma TopXor(a: bv32, b: bv32) ensures Top(Xor(a, b)) == (Top(a) != Top(b)) {}
  lemma ShlInjective(a: bv32, b: bv32) requires Shl(a) == Shl(b) && Top(a) == Top(b) ensures a == b {}
  lemma ShlNotPoly(a: bv32, b: bv32) ensures Xor(Shl(a), POLY) != Shl(b) {}

  /** Feeding the top bit of `w` into register `r` is one shift of their sum. */
  lemma ShiftOfXor(r: bv32, w: bv32)
    ensures Shift(Xor(r, w)) == Xor(FeedBit(r, Top(w)), Shl(w))
  {
    hide Xor, Top, Shl, POLY;
    ShlXor(r, w);
    TopXor(r, w);
    XorAssoc(Shl(r), Shl(w), POLY);
    XorComm(Shl(w), POLY);
    XorAssoc(Shl(r), POLY, Shl(w));
  }

  lemma ShiftLinear(a: bv32, b: bv32)
    ensures Shift(Xor(a, b)) == Xor(Shift(a), Shift(b))
  {
    hide Xor, Top, Shl, POLY;
    ShiftOfXor(a, b);
    if Top(b) {
      XorAssoc(Shl(a), POLY, Shl(b));
      XorAssoc(Shl(a), Shl(b), POLY);
      XorComm(POLY, Shl(b));
      XorAssoc(Shift(a), POLY, Shl(b));
      if Top(a) {
        XorAssoc(Xor(Shl(a), POLY), POLY, Shl(b));
        XorAssoc(Shl(a), POLY, Xor(POLY, Shl(b)));
        XorTwice(POLY, Shl(b));
      }
    }
  }

  lemma FeedBitInjective(a: bv32, b: bv32, bit: bool)
    ensures FeedBit(a, bit) == FeedBit(b, bit) ==> a == b
  {
    hide Xor, Top, Shl, POLY;
    if FeedBit(a, bit) == FeedBit(b, bit) {
      if Top(a) == Top(b) {
        XorComm(POLY, Shl(a));
        XorComm(POLY, Shl(b));
        XorTwice(POLY, Shl(a));
        XorTwice(POLY, Shl(b));
        ShlInjective(a, b);
      } else if Top(a) != bit {
        ShlNotPoly(a, b);
      } else {
        ShlNotPoly(b, a);
      }
    }
  }

  function Shifts(r: bv32, n: nat): bv32 {
    if n == 0 then r else Shift(Shifts(r, n - 1))
  }

  lemma {:induction false} ShiftsLinear(a: bv32, b: bv32, n: nat)
    ensures Shifts(Xor(a, b), n) == Xor(Shifts(a, n), Shifts(b, n))
  {
    hide Xor, Shift;
    if n > 0 {
      ShiftsLinear(a, b, n - 1);
      ShiftLinear(Shifts(a, n - 1), Shifts(b, n - 1));
    }
  }

  lemma {:induction false} ShiftsAdd(r: bv32, m: nat, n: nat)
    ensures Shifts(Shifts(r, m), n) == Shifts(r, m + n)
  {
    hide Shift;
    if n > 0 {
      ShiftsAdd(r, m, n - 1);
    }
  }

  // ----- The table -----

  function High(o: bv8): bv32 { (o as bv32) << 24 }

  /** A row of the table continues the one that holds its indices' halves. */
  predicate RowFollows(row: seq<bv32>, half: seq<bv32>, from: nat) {
    |row| == 8 && |half| == 8 && from <= 4 &&
    forall j :: 0 <= j < 4 ==> row[2 * j] == Shift(half[from + j]) && row[2 * j + 1] == Xor(row[2 * j], POLY)
  }

  lemma Row00() ensures RowFollows(CRC_ROW_00, CRC_ROW_00, 0) {}
  lemma Row01() ensures RowFollows(CRC_ROW_01, CRC_ROW_00, 4) {}
  lemma Row02() ensures RowFollows(CRC_ROW_02, CRC_ROW_01, 0) {}
  lemma Row03() ensures RowFollows(CRC_ROW_03, CRC_ROW_01, 4) {}
  lemma Row04() ensures RowFollows(CRC_ROW_04, CRC_ROW_02, 0) {}
  lemma Row05() ensures RowFollows(CRC_ROW_05, CRC_ROW_02, 4) {}
  lemma Row06() ensures RowFollows(CRC_ROW_06, CRC_ROW_03, 0) {}
  lemma Row07() ensures RowFollows(CRC_ROW_07, CRC_ROW_03, 4) {}
  lemma Row08() ensures RowFollows(CRC_ROW_08, CRC_ROW_04, 0) {}
  lemma Row09() ensures RowFollows(CRC_ROW_09, CRC_ROW_04, 4) {}
  lemma Row10() ensures RowFollows(CRC_ROW_10, CRC_ROW_05, 0) {}
  lemma Row11() ensures RowFollows(CRC_ROW_11, CRC_ROW_05, 4) {}
  lemma Row12() ensures RowFollows(CRC_ROW_12, CRC_ROW_06, 0) {}
  lemma Row13() ensures RowFollows(CRC_ROW_13, CRC_ROW_06, 4) {}
  lemma Row14() ensures RowFollows(CRC_ROW_14, CRC_ROW_07, 0) {}
  lemma Row15() ensures RowFollows(CRC_ROW_15, CRC_ROW_07, 4) {}
  lemma Row16() ensures RowFollows(CRC_ROW_16, CRC_ROW_08, 0) {}
  lemma Row17() ensures RowFollows(CRC_ROW_17, CRC_ROW_08, 4) {}
  lemma Row18() ensures RowFollows(CRC_ROW_18, CRC_ROW_09, 0) {}
  lemma Row19() ensures RowFollows(CRC_ROW_19, CRC_ROW_09, 4) {}
  lemma Row20() ensures RowFollows(CRC_ROW_20, CRC_ROW_10, 0) {}
  lemma Row21() ensures RowFollows(CRC_ROW_21, CRC_ROW_10, 4) {}
  lemma Row22() ensures RowFollows(CRC_ROW_22, CRC_ROW_11, 0) {}
  lemma Row23() ensures RowFollows(CRC_ROW_23, CRC_ROW_11, 4) {}
  lemma Row24() ensures RowFollows(CRC_ROW_24, CRC_ROW_12, 0) {}
  lemma Row25() ensures RowFollows(CRC_ROW_25, CRC_ROW_12, 4) {}
  lemma Row26() ensures RowFollows(CRC_ROW_26, CRC_ROW_13, 0) {}
  lemma Row27() ensures RowFollows(CRC_ROW_27, CRC_ROW_13, 4) {}
  lemma Row28() ensures RowFollows(CRC_ROW_28, CRC_ROW_14, 0) {}
  lemma Row29() ensures RowFollows(CRC_ROW_29, CRC_ROW_14, 4) {}
  lemma Row30() ensures RowFollows(CRC_ROW_30, CRC_ROW_15, 0) {}
  lemma Row31() ensures RowFollows(CRC_ROW_31, CRC_ROW_15, 4) {}

  lemma FirstRowsFollow(r: nat)
    requires 0 <= r < 8
    ensures RowFollows(CRC_LOOKUP[r], CRC_LOOKUP[r / 2], r % 2 * 4)
  {
    hide RowFollows;
    match r {
      case 0 => Row00();
      case 1 => Row01();
      case 2 => Row02();
      case 3 => Row03();
      case 4 => Row04();
      case 5 => Row05();
      case 6 => Row06();
      case _ => Row07();
    }
  }

  lemma SecondRowsFollow(r: nat)
    requires 8 <= r < 16
    ensures RowFollows(CRC_LOOKUP[r], CRC_LOOKUP[r / 2], r % 2 * 4)
  {
    hide RowFollows;
    match r {
      case 8 => Row08();
      case 9 => Row09();
      case 10 => Row10();
      case 11 => Row11();
      case 12 => Row12();
      case 13 => Row13();
      case 14 => Row14();
      case _ => Row15();
    }
  }

  lemma ThirdRowsFollow(r: nat)
    requires 16 <= r < 24
    ensures RowFollows(CRC_LOOKUP[r], CRC_LOOKUP[r / 2], r % 2 * 4)
  {
    hide RowFollows;
    match r {
      case 16 => Row16();
      case 17 => Row17();
      case 18 => Row18();
      case 19 => Row19();
      case 20 => Row20();
      case 21 => Row21();
      case 22 => Row22();
      case _ => Row23();
    }
  }

  lemma LastRowsFollow(r: nat)
    requires 24 <= r < 32
    ensures RowFollows(CRC_LOOKUP[r], CRC_LOOKUP[r / 2], r % 2 * 4)
  {
    hide RowFollows;
    match r {
      case 24 => Row24();
      case 25 => Row25();
      case 26 => Row26();
      case 27 => Row27();
      case 28 => Row28();
      case 29 => Row29();
      case 30 => Row30();
      case _ => Row31();
    }
  }

  lemma LookupHalf(i: nat)
    requires i < 128
    ensures Lookup(2 * i) == Shift(Lookup(i)) && Lookup(2 * i + 1) == Xor(Lookup(2 * i), POLY)
  {
    hide Shift, Xor, POLY, CRC_LOOKUP;
    if i < 32 {
      FirstRowsFollow(i / 4);
    } else if i < 64 {
      SecondRowsFollow(i / 4);
    } else if i < 96 {
      ThirdRowsFollow(i / 4);
    } else {
      LastRowsFollow(i / 4);
    }
    assert (2 * i) / 8 == i / 4 && (2 * i) % 8 == 2 * (i % 4);
    assert (2 * i + 1) / 8 == i / 4 && (2 * i + 1) % 8 == 2 * (i % 4) + 1;
    assert i / 8 == i / 4 / 2 && i % 8 == i / 4 % 2 * 4 + i % 4;
  }

  lemma HalfOfOctet(o: bv8)
    ensures o as int == 2 * ((o >> 1) as int) + (if o & 1 == 0 then 0 else 1)
  {
  }

  lemma HighOfHalf(o: bv8)
    ensures !Top(High(o >> 1))
    ensures High(o) == if o & 1 == 0 then Shl(High(o >> 1)) else Xor(Shl(High(o >> 1)), High(1))
  {
  }

  lemma FirstEntries()
    ensures Lookup(0) == Shifts(High(0), 8)
    ensures Shifts(High(1), 8) == POLY
  {
    assert CRC_ROW_00[0] == 0;
    assert Shifts(High(0), 4) == 0;
    assert Shifts(High(1), 1) == 0x0200_0000;
    assert Shifts(High(1), 2) == 0x0400_0000;
    assert Shifts(High(1), 3) == 0x0800_0000;
    assert Shifts(High(1), 4) == 0x1000_0000;
    assert Shifts(High(1), 5) == 0x2000_0000;
    assert Shifts(High(1), 6) == 0x4000_0000;
    assert Shifts(High(1), 7) == 0x8000_0000;
  }

  lemma ShiftsOne(r: bv32)
    ensures Shifts(r, 1) == Shift(r)
  {
    hide Shift;
    assert Shifts(r, 0) == r;
  }

  /** Every entry of the table is what shifting its index out of the register leaves. */
  lemma {:induction false} LookupCorrect(o: bv8)
    ensures Lookup(o as int) == Shifts(High(o), 8)
    decreases o as int
  {
    hide High, Xor, POLY, Shl, Top, Lookup, Shifts;
    FirstEntries();
    if o != 0 {
      var k := o >> 1;
      HalfOfOctet(o);
      HighOfHalf(o);
      LookupCorrect(k);
      LookupHalf(k as int);
      ShiftsOne(High(k));
      ShiftsOne(Shifts(High(k), 8));
      ShiftsAdd(High(k), 8, 1);
      ShiftsAdd(High(k), 1, 8);
      ShiftsLinear(Shl(High(k)), High(1), 8);
    }
  }

  // ----- The table-driven loop is the division -----

  function Shls(w: bv32, n: nat): bv32 {
    if n == 0 then w else Shl(Shls(w, n - 1))
  }

  /** `bits` are the leading bits of the word `w`. */
  predicate LeadingBits(w: bv32, bits: seq<bool>) {
    forall k :: 0 <= k < |bits| ==> bits[k] == Top(Shls(w, k))
  }

  /** Feeding the leading bits of a word one by one is adding the word and shifting. */
  lemma {:induction false} FeedLeadingBits(r: bv32, w: bv32, bits: seq<bool>)
    requires LeadingBits(w, bits)
    ensures Shifts(Xor(r, w), |bits|) == Xor(FeedBits(r, bits), Shls(w, |bits|))
  {
    hide Xor, Shift, Shl, Top, FeedBit;
    if bits != [] {
      var n := |bits| - 1;
      FeedLeadingBits(r, w, bits[..n]);
      ShiftOfXor(FeedBits(r, bits[..n]), Shls(w, n));
    }
  }

  lemma ShlsEight(w: bv32)
    ensures Shls(w, 0) == w && Shls(w, 1) == w << 1 && Shls(w, 2) == w << 2 && Shls(w, 3) == w << 3
    ensures Shls(w, 4) == w << 4 && Shls(w, 5) == w << 5 && Shls(w, 6) == w << 6 && Shls(w, 7) == w << 7
    ensures Shls(w, 8) == w << 8
  {
    ShlTwice(w);
    assert Shls(w, 1) == Shl(w) == w << 1;
    hide Shl;
    assert Shls(w, 2) == Shl(w << 1);
    assert Shls(w, 3) == Shl(w << 2);
    assert Shls(w, 4) == Shl(w << 3);
    assert Shls(w, 5) == Shl(w << 4);
    assert Shls(w, 6) == Shl(w << 5);
    assert Shls(w, 7) == Shl(w << 6);
  }

  lemma ShlTwice(w: bv32)
    ensures Shl(w << 1) == w << 2 && Shl(w << 2) == w << 3 && Shl(w << 3) == w << 4 && Shl(w << 4) == w << 5
    ensures Shl(w << 5) == w << 6 && Shl(w << 6) == w << 7 && Shl(w << 7) == w << 8
  {
  }

  function TopOctet(w: bv32): bv8 { (w >> 24) as bv8 }

  lemma TopOctetBits(w: bv32, o: bv8)
    requires o == (w >> 24) as bv8
    ensures (o & 0x80 != 0) == (w & 0x8000_0000 != 0)
    ensures (o & 0x40 != 0) == ((w << 1) & 0x8000_0000 != 0)
    ensures (o & 0x20 != 0) == ((w << 2) & 0x8000_0000 != 0)
    ensures (o & 0x10 != 0) == ((w << 3) & 0x8000_0000 != 0)
    ensures (o & 0x08 != 0) == ((w << 4) & 0x8000_0000 != 0)
    ensures (o & 0x04 != 0) == ((w << 5) & 0x8000_0000 != 0)
    ensures (o & 0x02 != 0) == ((w << 6) & 0x8000_0000 != 0)
    ensures (o & 0x01 != 0) == ((w << 7) & 0x8000_0000 != 0)
  {
  }

  lemma TopOctetLeads(w: bv32, b: byte)
    requires TopOctet(w) == Octet(b)
    ensures LeadingBits(w, BitsOf(b))
    ensures Shls(w, 8) == Shl8(w)
  {
    hide Shls;
    ShlsEight(w);
    TopOctetBits(w, Octet(b));
  }

  lemma FeedTopOctet(r: bv32, w: bv32, b: byte)
    requires TopOctet(w) == Octet(b)
    ensures Shifts(Xor(r, w), 8) == Xor(FeedBits(r, BitsOf(b)), Shl8(w))
  {
    hide Xor, Shifts, Octet, BitsOf, TopOctet, Shl8, FeedBits;
    TopOctetLeads(w, b);
    FeedLeadingBits(r, w, BitsOf(b));
  }

  function Low(r: bv32): bv32 { r & 0x00ff_ffff }

  lemma SplitRegister(r: bv32, b: byte)
    ensures Xor(r, High(Octet(b))) == Xor(Low(r), High(IndexOctet(r, b)))
    ensures TopOctet(High(Octet(b))) == Octet(b) && Shl8(High(Octet(b))) == 0
    ensures TopOctet(Low(r)) == 0 && Shl8(Low(r)) == Shl8(r)
  {
  }

  lemma XorZero(r: bv32)
    ensures Xor(r, 0) == r && Xor(0, r) == r
  {
  }

  lemma FeedZeroOctet()
    ensures FeedBits(0, BitsOf(0)) == 0 && Octet(0) == 0
  {
    var z := BitsOf(0);
    assert forall k :: 0 <= k < 8 ==> !z[k];
    assert FeedBits(0, z[..0]) == 0;
    assert z[..1][..0] == z[..0] && z[..2][..1] == z[..1] && z[..3][..2] == z[..2] && z[..4][..3] == z[..3];
    assert z[..5][..4] == z[..4] && z[..6][..5] == z[..5] && z[..7][..6] == z[..6] && z[..8][..7] == z[..7];
    assert z[..8] == z;
    assert FeedBits(0, z[..1]) == 0;
    assert FeedBits(0, z[..2]) == 0;
    assert FeedBits(0, z[..3]) == 0;
    assert FeedBits(0, z[..4]) == 0;
    assert FeedBits(0, z[..5]) == 0;
    assert FeedBits(0, z[..6]) == 0;
    assert FeedBits(0, z[..7]) == 0;
  }

  lemma StepIsFeedOctet(r: bv32, b: byte)
    ensures Step(r, b) == FeedBits(r, BitsOf(b))
  {
    hide Xor, High, Octet, BitsOf, Low, Lookup, IndexOctet, Shl8, Shifts, TopOctet, FeedBits;
    SplitRegister(r, b);
    FeedTopOctet(r, High(Octet(b)), b);
    FeedZeroOctet();
    FeedTopOctet(0, Low(r), 0);
    ShiftsLinear(Low(r), High(IndexOctet(r, b)), 8);
    LookupCorrect(IndexOctet(r, b));
    XorZero(Low(r));
    XorZero(Shl8(r));
    XorZero(FeedBits(r, BitsOf(b)));
  }

  lemma {:induction false} FeedBitsAppend(r: bv32, a: seq<bool>, b: seq<bool>)
    ensures FeedBits(r, a + b) == FeedBits(FeedBits(r, a), b)
  {
    hide FeedBit;
    if b == [] {
      assert a + b == a;
    } else {
      FeedBitsAppend(r, a, b[..|b| - 1]);
      assert (a + b)[..|a + b| - 1] == a + b[..|b| - 1];
    }
  }

  /** The table-driven loop computes the remainder of the bit-by-bit division. */
  lemma {:induction false} TableIsDivision(r: bv32, data: seq<byte>)
    ensures CrcFrom(r, data) == FeedBits(r, MessageBits(data))
  {
    hide Step, BitsOf;
    if data != [] {
      var n := |data| - 1;
      TableIsDivision(r, data[..n]);
      StepIsFeedOctet(CrcFrom(r, data[..n]), data[n]);
      FeedBitsAppend(r, MessageBits(data[..n]), BitsOf(data[n]));
    }
  }

  // ----- Linearity and burst detection -----

  lemma {:induction false} FeedBitsInjective(a: bv32, b: bv32, bits: seq<bool>)
    ensures FeedBits(a, bits) == FeedBits(b, bits) ==> a == b
  {
    hide FeedBit;
    if bits != [] {
      var n := |bits| - 1;
      FeedBitsInjective(a, b, bits[..n]);
      FeedBitInjective(FeedBits(a, bits[..n]), FeedBits(b, bits[..n]), bits[n]);
    }
  }

  lemma StepInjective(a: bv32, b: bv32, o: byte)
    ensures Step(a, o) == Step(b, o) ==> a == b
  {
    hide Step, BitsOf, FeedBits;
    StepIsFeedOctet(a, o);
    StepIsFeedOctet(b, o);
    FeedBitsInjective(a, b, BitsOf(o));
  }

  /** Different registers stay different under the same further data. */
  lemma {:induction false} CrcFromInjective(a: bv32, b: bv32, data: seq<byte>)
    ensures CrcFrom(a, data) == CrcFrom(b, data) ==> a == b
  {
    hide Step;
    if data != [] {
      var n := |data| - 1;
      CrcFromInjective(a, b, data[..n]);
      StepInjective(CrcFrom(a, data[..n]), CrcFrom(b, data[..n]), data[n]);
    }
  }

  lemma {:induction false} CrcFromAppend(r: bv32, a: seq<byte>, b: seq<byte>)
    ensures CrcFrom(r, a + b) == CrcFrom(CrcFrom(r, a), b)
  {
    hide Step;
    if b == [] {
      assert a + b == a;
    } else {
      CrcFromAppend(r, a, b[..|b| - 1]);
      assert (a + b)[..|a + b| - 1] == a + b[..|b| - 1];
    }
  }

  function Word(a: byte, b: byte, c: byte, d: byte): bv32 {
    ((Octet(a) as bv32) << 24) | ((Octet(b) as bv32) << 16) | ((Octet(c) as bv32) << 8) | (Octet(d) as bv32)
  }

  lemma WordOctets(a: byte, b: byte, c: byte, d: byte)
    ensures var w := Word(a, b, c, d);
            && TopOctet(w) == Octet(a) && TopOctet(Shl8(w)) == Octet(b)
            && TopOctet(Shl8(Shl8(w))) == Octet(c) && TopOctet(Shl8(Shl8(Shl8(w)))) == Octet(d)
            && Shl8(Shl8(Shl8(Shl8(w)))) == 0
  {
  }

  lemma StepTopOctet(r: bv32, w: bv32, b: byte)
    requires TopOctet(w) == Octet(b)
    ensures Shifts(Xor(r, w), 8) == Xor(Step(r, b), Shl8(w))
  {
    hide Xor, Shifts, Octet, TopOctet, Shl8, FeedBits, BitsOf, Step;
    FeedTopOctet(r, w, b);
    StepIsFeedOctet(r, b);
  }

  /** Four octets enter the register as one 32-bit word. */
  lemma FourSteps(r: bv32, a: byte, b: byte, c: byte, d: byte)
    ensures Step(Step(Step(Step(r, a), b), c), d) == Shifts(Xor(r, Word(a, b, c, d)), 32)
  {
    hide Xor, Shifts, Octet, TopOctet, Shl8, FeedBits, BitsOf, Step, Word;
    var w := Word(a, b, c, d);
    WordOctets(a, b, c, d);
    var r1 := Step(r, a);
    var r2 := Step(r1, b);
    var r3 := Step(r2, c);
    var r4 := Step(r3, d);
    StepTopOctet(r, w, a);
    StepTopOctet(r1, Shl8(w), b);
    StepTopOctet(r2, Shl8(Shl8(w)), c);
    StepTopOctet(r3, Shl8(Shl8(Shl8(w))), d);
    ShiftsAdd(Xor(r, w), 8, 8);
    ShiftsAdd(Xor(r, w), 16, 8);
    ShiftsAdd(Xor(r, w), 24, 8);
    XorZero(r4);
  }

  lemma {:induction false} ShiftsInjective(a: bv32, b: bv32, n: nat)
    ensures Shifts(a, n) == Shifts(b, n) ==> a == b
  {
    hide FeedBit;
    if n > 0 {
      ShiftsInjective(a, b, n - 1);
      FeedBitInjective(Shifts(a, n - 1), Shifts(b, n - 1), false);
    }
  }

  lemma OctetSuccessor(p: bv8)
    requires p as int < 255
    ensures (p + 1) as int == p as int + 1
  {
  }

  lemma IntOfOctet(o: bv8)
    ensures (o as int) as bv8 == o
  {
  }

  /** Counting up from zero reaches the octet of every value below 256. */
  lemma {:induction false} OctetOfNat(n: nat) returns (o: bv8)
    requires n < 256
    ensures o as int == n
  {
    if n == 0 {
      o := 0;
    } else {
      var p := OctetOfNat(n - 1);
      OctetSuccessor(p);
      o := p + 1;
    }
  }

  lemma OctetValue(b: byte)
    ensures Octet(b) as int == b
  {
    var o := OctetOfNat(b);
    IntOfOctet(o);
  }

  lemma WordInjective(a: byte, b: byte, c: byte, d: byte, a': byte, b': byte, c': byte, d': byte)
    ensures Word(a, b, c, d) == Word(a', b', c', d') ==> [a, b, c, d] == [a', b', c', d']
  {
    hide Word, Octet, TopOctet, Shl8;
    WordOctets(a, b, c, d);
    WordOctets(a', b', c', d');
    OctetValue(a); OctetValue(b); OctetValue(c); OctetValue(d);
    OctetValue(a'); OctetValue(b'); OctetValue(c'); OctetValue(d');
  }

  lemma {:induction false} CrcOfFour(r: bv32, s: seq<byte>)
    requires |s| == 4
    ensures CrcFrom(r, s) == Step(Step(Step(Step(r, s[0]), s[1]), s[2]), s[3])
  {
    hide Step;
    assert CrcFrom(r, s[..0]) == r;
    assert s[..1][..0] == s[..0] && s[..2][..1] == s[..1] && s[..3][..2] == s[..2];
    assert CrcFrom(r, s[..1]) == Step(r, s[0]);
    assert CrcFrom(r, s[..2]) == Step(CrcFrom(r, s[..1]), s[1]);
    assert CrcFrom(r, s[..3]) == Step(CrcFrom(r, s[..2]), s[2]);
  }

  lemma XorCancels(r: bv32, a: bv32, b: bv32)
    ensures Xor(r, a) == Xor(r, b) ==> a == b
  {
    hide Xor;
    XorTwice(r, a);
    XorTwice(r, b);
  }

  /** Two messages that differ only inside a window of four octets have different checksums. */
  lemma {:induction false} BurstDetected(r: bv32, before: seq<byte>, x: seq<byte>, y: seq<byte>, after: seq<byte>)
    requires |x| == |y| == 4 && x != y
    ensures CrcFrom(r, before + x + after) != CrcFrom(r, before + y + after)
  {
    hide Step, Shifts, Xor, Word, CrcFrom;
    var s := CrcFrom(r, before);
    CrcFromAppend(r, before + x, after);
    CrcFromAppend(r, before + y, after);
    CrcFromAppend(r, before, x);
    CrcFromAppend(r, before, y);
    CrcFromInjective(CrcFrom(s, x), CrcFrom(s, y), after);
    CrcOfFour(s, x);
    CrcOfFour(s, y);
    FourSteps(s, x[0], x[1], x[2], x[3]);
    FourSteps(s, y[0], y[1], y[2], y[3]);
    var v, w := Word(x[0], x[1], x[2], x[3]), Word(y[0], y[1], y[2], y[3]);
    ShiftsInjective(Xor(s, v), Xor(s, w), 32);
    XorCancels(s, v, w);
    WordInjective(x[0], x[1], x[2], x[3], y[0], y[1], y[2], y[3]);
    assert x == [x[0], x[1], x[2], x[3]] && y == [y[0], y[1], y[2], y[3]];
  }

  function XorByte(a: byte, b: byte): byte { (Octet(a) ^ Octet(b)) as int }

  function XorBytes(a: seq<byte>, b: seq<byte>): seq<byte>
    requires |a| == |b|
  {
    if |a| == 0 then [] else XorBytes(a[..|a| - 1], b[..|b| - 1]) + [XorByte(a[|a| - 1], b[|b| - 1])]
  }

  lemma HighXor(a: byte, b: byte)
    ensures High(Octet(XorByte(a, b))) == Xor(High(Octet(a)), High(Octet(b)))
  {
    HighXorBits(Octet(a), Octet(b));
  }

  lemma HighXorBits(p: bv8, q: bv8)
    ensures High(p ^ q) == Xor(High(p), High(q))
  {
  }

  lemma StepIsShifts(r: bv32, b: byte)
    ensures Step(r, b) == Shifts(Xor(r, High(Octet(b))), 8)
  {
    hide Xor, High, Octet, Shl8, Shifts, TopOctet, Step, Low, IndexOctet;
    SplitRegister(r, b);
    StepTopOctet(r, High(Octet(b)), b);
    XorZero(Step(r, b));
  }

  lemma XorSwap(a: bv32, b: bv32, c: bv32, d: bv32)
    ensures Xor(Xor(a, b), Xor(c, d)) == Xor(Xor(a, c), Xor(b, d))
  {
    hide Xor;
    XorAssoc(a, b, Xor(c, d));
    XorAssoc(b, c, d);
    XorComm(b, c);
    XorAssoc(c, b, d);
    XorAssoc(a, c, Xor(b, d));
  }

  /** The checksum of a sum is the sum of the checksums. */
  lemma {:induction false} CrcLinear(r: bv32, s: bv32, x: seq<byte>, y: seq<byte>)
    requires |x| == |y|
    ensures CrcFrom(Xor(r, s), XorBytes(x, y)) == Xor(CrcFrom(r, x), CrcFrom(s, y))
  {
    hide Xor, High, Octet, Shifts, Step, XorByte;
    if x != [] {
      var n := |x| - 1;
      var x', y' := x[..n], y[..n];
      CrcLinear(r, s, x', y');
      var r', s' := CrcFrom(r, x'), CrcFrom(s, y');
      var xy := XorBytes(x, y);
      assert xy[..|xy| - 1] == XorBytes(x', y');
      StepIsShifts(r', x[n]);
      StepIsShifts(s', y[n]);
      StepIsShifts(Xor(r', s'), XorByte(x[n], y[n]));
      HighXor(x[n], y[n]);
      XorSwap(r', s', High(Octet(x[n])), High(Octet(y[n])));
      ShiftsLinear(Xor(r', High(Octet(x[n]))), Xor(s', High(Octet(y[n]))), 8);
    }
  }

  // ----- The checksum field -----

  /** The four octets stored at header offset 22, least significant first. */
  function CrcBytes(r: bv32): (s: seq<byte>)
    ensures |s| == 4
  {
    [(r & 0xff) as bv8 as int, ((r >> 8) & 0xff) as bv8 as int,
     ((r >> 16) & 0xff) as bv8 as int, ((r >> 24) & 0xff) as bv8 as int]
  }

  lemma SameOctets(r: bv32, s: bv32)
    requires (r & 0xff) as bv8 == (s & 0xff) as bv8 && ((r >> 8) & 0xff) as bv8 == ((s >> 8) & 0xff) as bv8
    requires ((r >> 16) & 0xff) as bv8 == ((s >> 16) & 0xff) as bv8
    requires ((r >> 24) & 0xff) as bv8 == ((s >> 24) & 0xff) as bv8
    ensures r == s
  {
  }

  lemma SameOctet(a: bv8, b: bv8)
    ensures a as int == b as int ==> a == b
  {
  }

  lemma CrcBytesInjective(r: bv32, s: bv32)
    ensures CrcBytes(r) == CrcBytes(s) ==> r == s
  {
    if CrcBytes(r) == CrcBytes(s) {
      assert CrcBytes(r)[0] == CrcBytes(s)[0] && CrcBytes(r)[1] == CrcBytes(s)[1];
      assert CrcBytes(r)[2] == CrcBytes(s)[2] && CrcBytes(r)[3] == CrcBytes(s)[3];
      SameOctet((r & 0xff) as bv8, (s & 0xff) as bv8);
      SameOctet(((r >> 8) & 0xff) as bv8, ((s >> 8) & 0xff) as bv8);
      SameOctet(((r >> 16) & 0xff) as bv8, ((s >> 16) & 0xff) as bv8);
      SameOctet(((r >> 24) & 0xff) as bv8, ((s >> 24) & 0xff) as bv8);
      SameOctets(r, s);
    }
  }

  /** The stored octets, last first, are the register as a word. */
  lemma OctetsOfWord(r: bv32)
    ensures var c := CrcBytes(r); Word(c[3], c[2], c[1], c[0]) == r
  {
    IntOfOctet((r & 0xff) as bv8);
    IntOfOctet(((r >> 8) & 0xff) as bv8);
    IntOfOctet(((r >> 16) & 0xff) as bv8);
    IntOfOctet(((r >> 24) & 0xff) as bv8);
    WordSplit(r);
  }

  lemma WordSplit(r: bv32)
    ensures ((((r >> 24) & 0xff) as bv8 as bv32) << 24) | ((((r >> 16) & 0xff) as bv8 as bv32) << 16)
            | ((((r >> 8) & 0xff) as bv8 as bv32) << 8) | ((r & 0xff) as bv8 as bv32) == r
  {
  }

  lemma {:induction false} ShiftsZero(n: nat)
    ensures Shifts(0, n) == 0
  {
    if n > 0 {
      ShiftsZero(n - 1);
    }
  }

  /** A word clears the register exactly if it is the register. */
  lemma WordClears(r: bv32, w: bv32)
    ensures Shifts(Xor(r, w), 32) == 0 <==> w == r
  {
    hide Shifts, Xor;
    ShiftsZero(32);
    ShiftsInjective(Xor(r, w), 0, 32);
    XorSelf(r);
    XorCancels(r, w, r);
  }

  lemma XorSelf(r: bv32)
    ensures Xor(r, r) == 0
  {
  }

  /** The four stored octets, fed last first, clear the register, and no other four do: the octet at the lowest
      offset is the least significant. */
  lemma {:induction false} StoredOrder(r: bv32, s: seq<byte>)
    requires |s| == 4
    ensures CrcFrom(r, [s[3], s[2], s[1], s[0]]) == 0 <==> s == CrcBytes(r)
  {
    hide CrcFrom, CrcBytes, Shifts, Xor, Word, Step;
    var c := CrcBytes(r);
    CrcOfFour(r, [s[3], s[2], s[1], s[0]]);
    FourSteps(r, s[3], s[2], s[1], s[0]);
    WordClears(r, Word(s[3], s[2], s[1], s[0]));
    OctetsOfWord(r);
    WordInjective(s[3], s[2], s[1], s[0], c[3], c[2], c[1], c[0]);
    SameFour(s, c);
  }

  lemma {:induction false} SameFour(s: seq<byte>, c: seq<byte>)
    requires |s| == |c| == 4
    ensures s == c <==> [s[3], s[2], s[1], s[0]] == [c[3], c[2], c[1], c[0]]
  {
    var x, y := [s[3], s[2], s[1], s[0]], [c[3], c[2], c[1], c[0]];
    assert x[0] == s[3] && x[1] == s[2] && x[2] == s[1] && x[3] == s[0];
    assert y[0] == c[3] && y[1] == c[2] && y[2] == c[1] && y[3] == c[0];
  }
}
