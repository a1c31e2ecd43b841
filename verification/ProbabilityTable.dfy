/** The probability state machine of jaricom.c (Table D.2 of ITU-T T.81 and one fixed 0.5 entry). */
module ProbabilityTable {

  datatype Entry = Row(qe: nat, nextLps: nat, nextMps: nat, switchMps: bool)

  /** Every estimate is a non-empty part of a normalized interval; every successor is an index. */
  type Estimate = e: Entry | 0 < e.qe < 0x8000 && e.nextLps <= 113 && e.nextMps <= 113
    witness Row(1, 0, 0, false)

  const ROWS_0: seq<Estimate> := [
    Row(0x5a1d, 1, 1, true),
    Row(0x2586, 14, 2, false),
    Row(0x1114, 16, 3, false),
    Row(0x080b, 18, 4, false),
    Row(0x03d8, 20, 5, false),
    Row(0x01da, 23, 6, false),
    Row(0x00e5, 25, 7, false),
    Row(0x006f, 28, 8, false),
    Row(0x0036, 30, 9, false),
    Row(0x001a, 33, 10, false),
    Row(0x000d, 35, 11, false),
    Row(0x0006, 9, 12, false),
    Row(0x0003, 10, 13, false),
    Row(0x0001, 12, 13, false),
    Row(0x5a7f, 15, 15, true),
    Row(0x3f25, 36, 16, false)
  ]

  const ROWS_1: seq<Estimate> := [
    Row(0x2cf2, 38, 17, false),
    Row(0x207c, 39, 18, false),
    Row(0x17b9, 40, 19, false),
    Row(0x1182, 42, 20, false),
    Row(0x0cef, 43, 21, false),
    Row(0x09a1, 45, 22, false),
    Row(0x072f, 46, 23, false),
    Row(0x055c, 48, 24, false),
    Row(0x0406, 49, 25, false),
    Row(0x0303, 51, 26, false),
    Row(0x0240, 52, 27, false),
    Row(0x01b1, 54, 28, false),
    Row(0x0144, 56, 29, false),
    Row(0x00f5, 57, 30, false),
    Row(0x00b7, 59, 31, false),
    Row(0x008a, 60, 32, false)
  ]

  const ROWS_2: seq<Estimate> := [
    Row(0x0068, 62, 33, false),
    Row(0x004e, 63, 34, false),
    Row(0x003b, 32, 35, false),
    Row(0x002c, 33, 9, false),
    Row(0x5ae1, 37, 37, true),
    Row(0x484c, 64, 38, false),
    Row(0x3a0d, 65, 39, false),
    Row(0x2ef1, 67, 40, false),
    Row(0x261f, 68, 41, false),
    Row(0x1f33, 69, 42, false),
    Row(0x19a8, 70, 43, false),
    Row(0x1518, 72, 44, false),
    Row(0x1177, 73, 45, false),
    Row(0x0e74, 74, 46, false),
    Row(0x0bfb, 75, 47, false),
    Row(0x09f8, 77, 48, false)
  ]

  const ROWS_3: seq<Estimate> := [
    Row(0x0861, 78, 49, false),
    Row(0x0706, 79, 50, false),
    Row(0x05cd, 48, 51, false),
    Row(0x04de, 50, 52, false),
    Row(0x040f, 50, 53, false),
    Row(0x0363, 51, 54, false),
    Row(0x02d4, 52, 55, false),
    Row(0x025c, 53, 56, false),
    Row(0x01f8, 54, 57, false),
    Row(0x01a4, 55, 58, false),
    Row(0x0160, 56, 59, false),
    Row(0x0125, 57, 60, false),
    Row(0x00f6, 58, 61, false),
    Row(0x00cb, 59, 62, false),
    Row(0x00ab, 61, 63, false),
    Row(0x008f, 61, 32, false)
  ]

  const ROWS_4: seq<Estimate> := [
    Row(0x5b12, 65, 65, true),
    Row(0x4d04, 80, 66, false),
    Row(0x412c, 81, 67, false),
    Row(0x37d8, 82, 68, false),
    Row(0x2fe8, 83, 69, false),
    Row(0x293c, 84, 70, false),
    Row(0x2379, 86, 71, false),
    Row(0x1edf, 87, 72, false),
    Row(0x1aa9, 87, 73, false),
    Row(0x174e, 72, 74, false),
    Row(0x1424, 72, 75, false),
    Row(0x119c, 74, 76, false),
    Row(0x0f6b, 74, 77, false),
    Row(0x0d51, 75, 78, false),
    Row(0x0bb6, 77, 79, false),
    Row(0x0a40, 77, 48, false)
  ]

  const ROWS_5: seq<Estimate> := [
    Row(0x5832, 80, 81, true),
    Row(0x4d1c, 88, 82, false),
    Row(0x438e, 89, 83, false),
    Row(0x3bdd, 90, 84, false),
    Row(0x34ee, 91, 85, false),
    Row(0x2eae, 92, 86, false),
    Row(0x299a, 93, 87, false),
    Row(0x2516, 86, 71, false),
    Row(0x5570, 88, 89, true),
    Row(0x4ca9, 95, 90, false),
    Row(0x44d9, 96, 91, false),
    Row(0x3e22, 97, 92, false),
    Row(0x3824, 99, 93, false),
    Row(0x32b4, 99, 94, false),
    Row(0x2e17, 93, 86, false),
    Row(0x56a8, 95, 96, true)
  ]

  const ROWS_6: seq<Estimate> := [
    Row(0x4f46, 101, 97, false),
    Row(0x47e5, 102, 98, false),
    Row(0x41cf, 103, 99, false),
    Row(0x3c3d, 104, 100, false),
    Row(0x375e, 99, 93, false),
    Row(0x5231, 105, 102, false),
    Row(0x4c0f, 106, 103, false),
    Row(0x4639, 107, 104, false),
    Row(0x415e, 103, 99, false),
    Row(0x5627, 105, 106, true),
    Row(0x50e7, 108, 107, false),
    Row(0x4b85, 109, 103, false),
    Row(0x5597, 110, 109, false),
    Row(0x504f, 111, 107, false),
    Row(0x5a10, 110, 111, true),
    Row(0x5522, 112, 109, false)
  ]

  const ROWS_7: seq<Estimate> := [
    Row(0x59eb, 112, 111, true),
    Row(0x5a1d, 113, 113, false)
  ]

  const ARITAB: seq<Estimate> :=
    ROWS_0 + ROWS_1 + ROWS_2 + ROWS_3 + ROWS_4 + ROWS_5 + ROWS_6 + ROWS_7

  const FIXED_STATE := 113

  /** One statistics byte: the more probable symbol in bit 7, the table index below it. */
  type StatByte = x: int | 0 <= x < 256 && x % 128 <= FIXED_STATE

  function Mps(sv: StatByte): bool {
    sv / 128 == 1
  }

  function EstimateOf(sv: StatByte): Estimate {
    ARITAB[sv % 128]
  }

  function Packed(index: nat, mps: bool): StatByte
    requires index <= FIXED_STATE
  {
    if mps then 128 + index else index
  }

  /** (sv & 0x80) ^ nl, where the top bit of nl exchanges the more probable symbol. */
  function AfterLps(sv: StatByte): StatByte {
    var e := EstimateOf(sv);
    Packed(e.nextLps, Mps(sv) != e.switchMps)
  }

  /** (sv & 0x80) ^ nm. */
  function AfterMps(sv: StatByte): StatByte {
    Packed(EstimateOf(sv).nextMps, Mps(sv))
  }
}
