/** The table of crc_sw.c, and what its entries are: multiples of the generator polynomial's remainder. */
module CrcTable {
  import opened CrcPoly

  const ROW_0: seq<bv16> := [
    0x0000, 0x3D65, 0x7ACA, 0x47AF, 0xF594, 0xC8F1, 0x8F5E, 0xB23B,
    0xD64D, 0xEB28, 0xAC87, 0x91E2, 0x23D9, 0x1EBC, 0x5913, 0x6476]
  const ROW_1: seq<bv16> := [
    0x91FF, 0xAC9A, 0xEB35, 0xD650, 0x646B, 0x590E, 0x1EA1, 0x23C4,
    0x47B2, 0x7AD7, 0x3D78, 0x001D, 0xB226, 0x8F43, 0xC8EC, 0xF589]
  const ROW_2: seq<bv16> := [
    0x1E9B, 0x23FE, 0x6451, 0x5934, 0xEB0F, 0xD66A, 0x91C5, 0xACA0,
    0xC8D6, 0xF5B3, 0xB21C, 0x8F79, 0x3D42, 0x0027, 0x4788, 0x7AED]
  const ROW_3: seq<bv16> := [
    0x8F64, 0xB201, 0xF5AE, 0xC8CB, 0x7AF0, 0x4795, 0x003A, 0x3D5F,
    0x5929, 0x644C, 0x23E3, 0x1E86, 0xACBD, 0x91D8, 0xD677, 0xEB12]
  const ROW_4: seq<bv16> := [
    0x3D36, 0x0053, 0x47FC, 0x7A99, 0xC8A2, 0xF5C7, 0xB268, 0x8F0D,
    0xEB7B, 0xD61E, 0x91B1, 0xACD4, 0x1EEF, 0x238A, 0x6425, 0x5940]
  const ROW_5: seq<bv16> := [
    0xACC9, 0x91AC, 0xD603, 0xEB66, 0x595D, 0x6438, 0x2397, 0x1EF2,
    0x7A84, 0x47E1, 0x004E, 0x3D2B, 0x8F10, 0xB275, 0xF5DA, 0xC8BF]
  const ROW_6: seq<bv16> := [
    0x23AD, 0x1EC8, 0x5967, 0x6402, 0xD639, 0xEB5C, 0xACF3, 0x9196,
    0xF5E0, 0xC885, 0x8F2A, 0xB24F, 0x0074, 0x3D11, 0x7ABE, 0x47DB]
  const ROW_7: seq<bv16> := [
    0xB252, 0x8F37, 0xC898, 0xF5FD, 0x47C6, 0x7AA3, 0x3D0C, 0x0069,
    0x641F, 0x597A, 0x1ED5, 0x23B0, 0x918B, 0xACEE, 0xEB41, 0xD624]
  const ROW_8: seq<bv16> := [
    0x7A6C, 0x4709, 0x00A6, 0x3DC3, 0x8FF8, 0xB29D, 0xF532, 0xC857,
    0xAC21, 0x9144, 0xD6EB, 0xEB8E, 0x59B5, 0x64D0, 0x237F, 0x1E1A]
  const ROW_9: seq<bv16> := [
    0xEB93, 0xD6F6, 0x9159, 0xAC3C, 0x1E07, 0x2362, 0x64CD, 0x59A8,
    0x3DDE, 0x00BB, 0x4714, 0x7A71, 0xC84A, 0xF52F, 0xB280, 0x8FE5]
  const ROW_A: seq<bv16> := [
    0x64F7, 0x5992, 0x1E3D, 0x2358, 0x9163, 0xAC06, 0xEBA9, 0xD6CC,
    0xB2BA, 0x8FDF, 0xC870, 0xF515, 0x472E, 0x7A4B, 0x3DE4, 0x0081]
  const ROW_B: seq<bv16> := [
    0xF508, 0xC86D, 0x8FC2, 0xB2A7, 0x009C, 0x3DF9, 0x7A56, 0x4733,
    0x2345, 0x1E20, 0x598F, 0x64EA, 0xD6D1, 0xEBB4, 0xAC1B, 0x917E]
  const ROW_C: seq<bv16> := [
    0x475A, 0x7A3F, 0x3D90, 0x00F5, 0xB2CE, 0x8FAB, 0xC804, 0xF561,
    0x9117, 0xAC72, 0xEBDD, 0xD6B8, 0x6483, 0x59E6, 0x1E49, 0x232C]
  const ROW_D: seq<bv16> := [
    0xD6A5, 0xEBC0, 0xAC6F, 0x910A, 0x2331, 0x1E54, 0x59FB, 0x649E,
    0x00E8, 0x3D8D, 0x7A22, 0x4747, 0xF57C, 0xC819, 0x8FB6, 0xB2D3]
  const ROW_E: seq<bv16> := [
    0x59C1, 0x64A4, 0x230B, 0x1E6E, 0xAC55, 0x9130, 0xD69F, 0xEBFA,
    0x8F8C, 0xB2E9, 0xF546, 0xC823, 0x7A18, 0x477D, 0x00D2, 0x3DB7]
  const ROW_F: seq<bv16> := [
    0xC83E, 0xF55B, 0xB2F4, 0x8F91, 0x3DAA, 0x00CF, 0x4760, 0x7A05,
    0x1E73, 0x2316, 0x64B9, 0x59DC, 0xEBE7, 0xD682, 0x912D, 0xAC48]

  const ROWS := [
    ROW_0, ROW_1, ROW_2, ROW_3, ROW_4, ROW_5, ROW_6, ROW_7, ROW_8, ROW_9, ROW_A, ROW_B, ROW_C, ROW_D, ROW_E, ROW_F]

  /** a_CrcTab, in rows of sixteen. */
  function Table(i: int): bv16
    requires 0 <= i < 256
  {
    ROWS[i / 16][i % 16]
  }

  /** The entries that are powers of two; the others are their sums. */
  function Sum(i: bv8): bv16 {
    (if i & 0x01 != 0 then 0x3D65 else 0) ^ (if i & 0x02 != 0 then 0x7ACA else 0)
    ^ (if i & 0x04 != 0 then 0xF594 else 0) ^ (if i & 0x08 != 0 then 0xD64D else 0)
    ^ (if i & 0x10 != 0 then 0x91FF else 0) ^ (if i & 0x20 != 0 then 0x1E9B else 0)
    ^ (if i & 0x40 != 0 then 0x3D36 else 0) ^ (if i & 0x80 != 0 then 0x7A6C else 0)
  }

  lemma SumIsShifted(i: bv8)
    ensures Sum(i) == Shift8((i as bv16) << 8)
  {
  }

  /** A row is its first entry plus the first row. */
  function Row(head: bv16, first: seq<bv16>): (row: seq<bv16>)
    requires |first| == 16
    ensures |row| == 16 && forall k :: 0 <= k < 16 ==> row[k] == head ^ first[k]
  {
    seq(16, k requires 0 <= k < 16 => head ^ first[k])
  }

  lemma Rows0To3(h: bv8)
    requires h < 4
    ensures ROWS[h as int] == Row(Sum(h << 4), ROW_0)
  {
  }

  lemma Rows4To7(h: bv8)
    requires 4 <= h < 8
    ensures ROWS[h as int] == Row(Sum(h << 4), ROW_0)
  {
  }

  lemma Rows8To11(h: bv8)
    requires 8 <= h < 12
    ensures ROWS[h as int] == Row(Sum(h << 4), ROW_0)
  {
  }

  lemma Rows12To15(h: bv8)
    requires 12 <= h < 16
    ensures ROWS[h as int] == Row(Sum(h << 4), ROW_0)
  {
  }

  lemma RowsAre(h: bv8)
    requires h < 16
    ensures ROWS[h as int] == Row(Sum(h << 4), ROW_0)
  {
    hide Row, Sum;
    if h < 4 {
      Rows0To3(h);
    } else if h < 8 {
      Rows4To7(h);
    } else if h < 12 {
      Rows8To11(h);
    } else {
      Rows12To15(h);
    }
  }

  lemma FirstRow(l: bv8)
    requires l < 16
    ensures ROW_0[l as int] == Sum(l)
  {
  }

  lemma Nibbles(i: bv8)
    ensures (i as int) / 16 == (i >> 4) as int && (i as int) % 16 == (i & 0x0F) as int && i >> 4 < 16 && i & 0x0F < 16
    ensures Sum(i) == Sum((i >> 4) << 4) ^ Sum(i & 0x0F)
  {
  }

  /** Every entry of the table is i * x^16 modulo the polynomial. */
  lemma TableIsShifted(i: bv8)
    ensures Table(i as int) == Shift8((i as bv16) << 8)
  {
    hide Sum, Row, Shift8;
    Nibbles(i);
    RowsAre(i >> 4);
    FirstRow(i & 0x0F);
    SumIsShifted(i);
  }
}
