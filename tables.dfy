/** The per-version capacity table of the QR symbol (versions 1..40, four
    error-correction levels) and the small helpers that read it. */
module Tables {

  /** A QR version: the symbol has 17 + 4v modules on a side. */
  type Version = v: int | 1 <= v <= 40 witness 1

  /** An error-correction level: L = 0, M = 1, Q = 2, H = 3. */
  type Level = l: int | 0 <= l <= 3

  const MinVersion: Version := 1
  const MaxVersion: Version := 40

  /** Reed-Solomon block layout at one level: nblock blocks, each with check check bytes. */
  datatype LevelInfo = LevelInfo(nblock: int, check: int)

  /** One row of the capacity table: the alignment-box origin and spacing, the
      total codeword count, the 18-bit version pattern and the block layout per level. */
  datatype VersionInfo = VersionInfo(apos: int, astride: int, bytes: int, pattern: int, level: seq<LevelInfo>)

  /** The capacity table, row by row. Versions 1..6 have no version pattern
      and only one alignment coordinate besides 4, so their stride is a
      sentinel 100. */
  function Row(v: Version): (e: VersionInfo)
    ensures |e.level| == 4
  {
    match v
      case 1 => VersionInfo(100, 100, 26, 0, [LevelInfo(1, 7), LevelInfo(1, 10), LevelInfo(1, 13), LevelInfo(1, 17)])
      case 2 => VersionInfo(16, 100, 44, 0, [LevelInfo(1, 10), LevelInfo(1, 16), LevelInfo(1, 22), LevelInfo(1, 28)])
      case 3 => VersionInfo(20, 100, 70, 0, [LevelInfo(1, 15), LevelInfo(1, 26), LevelInfo(2, 18), LevelInfo(2, 22)])
      case 4 => VersionInfo(24, 100, 100, 0, [LevelInfo(1, 20), LevelInfo(2, 18), LevelInfo(2, 26), LevelInfo(4, 16)])
      case 5 => VersionInfo(28, 100, 134, 0, [LevelInfo(1, 26), LevelInfo(2, 24), LevelInfo(4, 18), LevelInfo(4, 22)])
      case 6 => VersionInfo(32, 100, 172, 0, [LevelInfo(2, 18), LevelInfo(4, 16), LevelInfo(4, 24), LevelInfo(4, 28)])
      case 7 => VersionInfo(20, 16, 196, 0x7c94, [LevelInfo(2, 20), LevelInfo(4, 18), LevelInfo(6, 18), LevelInfo(5, 26)])
      case 8 => VersionInfo(22, 18, 242, 0x85bc, [LevelInfo(2, 24), LevelInfo(4, 22), LevelInfo(6, 22), LevelInfo(6, 26)])
      case 9 => VersionInfo(24, 20, 292, 0x9a99, [LevelInfo(2, 30), LevelInfo(5, 22), LevelInfo(8, 20), LevelInfo(8, 24)])
      case 10 => VersionInfo(26, 22, 346, 0xa4d3, [LevelInfo(4, 18), LevelInfo(5, 26), LevelInfo(8, 24), LevelInfo(8, 28)])
      case 11 => VersionInfo(28, 24, 404, 0xbbf6, [LevelInfo(4, 20), LevelInfo(5, 30), LevelInfo(8, 28), LevelInfo(11, 24)])
      case 12 => VersionInfo(30, 26, 466, 0xc762, [LevelInfo(4, 24), LevelInfo(8, 22), LevelInfo(10, 26), LevelInfo(11, 28)])
      case 13 => VersionInfo(32, 28, 532, 0xd847, [LevelInfo(4, 26), LevelInfo(9, 22), LevelInfo(12, 24), LevelInfo(16, 22)])
      case 14 => VersionInfo(24, 20, 581, 0xe60d, [LevelInfo(4, 30), LevelInfo(9, 24), LevelInfo(16, 20), LevelInfo(16, 24)])
      case 15 => VersionInfo(24, 22, 655, 0xf928, [LevelInfo(6, 22), LevelInfo(10, 24), LevelInfo(12, 30), LevelInfo(18, 24)])
      case 16 => VersionInfo(24, 24, 733, 0x10b78, [LevelInfo(6, 24), LevelInfo(10, 28), LevelInfo(17, 24), LevelInfo(16, 30)])
      case 17 => VersionInfo(28, 24, 815, 0x1145d, [LevelInfo(6, 28), LevelInfo(11, 28), LevelInfo(16, 28), LevelInfo(19, 28)])
      case 18 => VersionInfo(28, 26, 901, 0x12a17, [LevelInfo(6, 30), LevelInfo(13, 26), LevelInfo(18, 28), LevelInfo(21, 28)])
      case 19 => VersionInfo(28, 28, 991, 0x13532, [LevelInfo(7, 28), LevelInfo(14, 26), LevelInfo(21, 26), LevelInfo(25, 26)])
      case 20 => VersionInfo(32, 28, 1085, 0x149a6, [LevelInfo(8, 28), LevelInfo(16, 26), LevelInfo(20, 30), LevelInfo(25, 28)])
      case 21 => VersionInfo(26, 22, 1156, 0x15683, [LevelInfo(8, 28), LevelInfo(17, 26), LevelInfo(23, 28), LevelInfo(25, 30)])
      case 22 => VersionInfo(24, 24, 1258, 0x168c9, [LevelInfo(9, 28), LevelInfo(17, 28), LevelInfo(23, 30), LevelInfo(34, 24)])
      case 23 => VersionInfo(28, 24, 1364, 0x177ec, [LevelInfo(9, 30), LevelInfo(18, 28), LevelInfo(25, 30), LevelInfo(30, 30)])
      case 24 => VersionInfo(26, 26, 1474, 0x18ec4, [LevelInfo(10, 30), LevelInfo(20, 28), LevelInfo(27, 30), LevelInfo(32, 30)])
      case 25 => VersionInfo(30, 26, 1588, 0x191e1, [LevelInfo(12, 26), LevelInfo(21, 28), LevelInfo(29, 30), LevelInfo(35, 30)])
      case 26 => VersionInfo(28, 28, 1706, 0x1afab, [LevelInfo(12, 28), LevelInfo(23, 28), LevelInfo(34, 28), LevelInfo(37, 30)])
      case 27 => VersionInfo(32, 28, 1828, 0x1b08e, [LevelInfo(12, 30), LevelInfo(25, 28), LevelInfo(34, 30), LevelInfo(40, 30)])
      case 28 => VersionInfo(24, 24, 1921, 0x1cc1a, [LevelInfo(13, 30), LevelInfo(26, 28), LevelInfo(35, 30), LevelInfo(42, 30)])
      case 29 => VersionInfo(28, 24, 2051, 0x1d33f, [LevelInfo(14, 30), LevelInfo(28, 28), LevelInfo(38, 30), LevelInfo(45, 30)])
      case 30 => VersionInfo(24, 26, 2185, 0x1ed75, [LevelInfo(15, 30), LevelInfo(29, 28), LevelInfo(40, 30), LevelInfo(48, 30)])
      case 31 => VersionInfo(28, 26, 2323, 0x1f250, [LevelInfo(16, 30), LevelInfo(31, 28), LevelInfo(43, 30), LevelInfo(51, 30)])
      case 32 => VersionInfo(32, 26, 2465, 0x209d5, [LevelInfo(17, 30), LevelInfo(33, 28), LevelInfo(45, 30), LevelInfo(54, 30)])
      case 33 => VersionInfo(28, 28, 2611, 0x216f0, [LevelInfo(18, 30), LevelInfo(35, 28), LevelInfo(48, 30), LevelInfo(57, 30)])
      case 34 => VersionInfo(32, 28, 2761, 0x228ba, [LevelInfo(19, 30), LevelInfo(37, 28), LevelInfo(51, 30), LevelInfo(60, 30)])
      case 35 => VersionInfo(28, 24, 2876, 0x2379f, [LevelInfo(19, 30), LevelInfo(38, 28), LevelInfo(53, 30), LevelInfo(63, 30)])
      case 36 => VersionInfo(22, 26, 3034, 0x24b0b, [LevelInfo(20, 30), LevelInfo(40, 28), LevelInfo(56, 30), LevelInfo(66, 30)])
      case 37 => VersionInfo(26, 26, 3196, 0x2542e, [LevelInfo(21, 30), LevelInfo(43, 28), LevelInfo(59, 30), LevelInfo(70, 30)])
      case 38 => VersionInfo(30, 26, 3362, 0x26a64, [LevelInfo(22, 30), LevelInfo(45, 28), LevelInfo(62, 30), LevelInfo(74, 30)])
      case 39 => VersionInfo(24, 28, 3532, 0x27541, [LevelInfo(24, 30), LevelInfo(47, 28), LevelInfo(65, 30), LevelInfo(77, 30)])
      case 40 => VersionInfo(28, 28, 3706, 0x28c69, [LevelInfo(25, 30), LevelInfo(49, 28), LevelInfo(68, 30), LevelInfo(81, 30)])
  }

  /** The row of version v, found by reading the table from version k on.
      Written as a scan so that a proof about an unknown version sees one
      row at a time rather than the whole table; for a known version it
      evaluates to that row. */
  function Scan(k: Version, v: Version): (e: VersionInfo)
    requires k <= v
    ensures |e.level| == 4
    decreases v - k
  {
    if k == v then Row(k) else Scan(k + 1, v)
  }

  /** The scan finds row v. */
  lemma {:induction false} ScanRow(k: Version, v: Version)
    requires k <= v
    ensures Scan(k, v) == Row(v)
    decreases v - k
  {
    if k < v {
      ScanRow(k + 1, v);
    }
  }

  /** Go's `vtab[v]`. */
  function VTab(v: Version): (e: VersionInfo)
    ensures |e.level| == 4
  {
    Scan(1, v)
  }

  /** The largest data-codeword count in the size class of v. */
  function ClassCap(v: Version): int {
    if v <= 9 then 232 else if v <= 26 then 1370 else 2956
  }

  /** What every row of the table satisfies at one level: at least one block,
      at least one check byte per block, and a positive number of data bytes no
      larger than cap. */
  predicate LevelOk(bytes: int, li: LevelInfo, cap: int) {
    li.nblock >= 1 && li.check >= 1 && 0 < bytes - li.nblock * li.check <= cap
  }

  /** What every row of the table satisfies. */
  predicate RowOk(v: Version, e: VersionInfo) {
    && |e.level| == 4
    && LevelOk(e.bytes, e.level[0], ClassCap(v)) && LevelOk(e.bytes, e.level[1], ClassCap(v))
    && LevelOk(e.bytes, e.level[2], ClassCap(v)) && LevelOk(e.bytes, e.level[3], ClassCap(v))
    && 0 < e.bytes <= 3706
    && (e.pattern == 0) == (v < 7)
    && 0 <= e.pattern < 0x4_0000
    && e.apos >= 16 && e.astride >= 16
  }

  // One lemma per row: each evaluates its row on its own, which keeps every
  // proof obligation small.
  lemma Row1() ensures RowOk(1, Row(1)) {}
  lemma Row2() ensures RowOk(2, Row(2)) {}
  lemma Row3() ensures RowOk(3, Row(3)) {}
  lemma Row4() ensures RowOk(4, Row(4)) {}
  lemma Row5() ensures RowOk(5, Row(5)) {}
  lemma Row6() ensures RowOk(6, Row(6)) {}
  lemma Row7() ensures RowOk(7, Row(7)) {}
  lemma Row8() ensures RowOk(8, Row(8)) {}
  lemma Row9() ensures RowOk(9, Row(9)) {}
  lemma Row10() ensures RowOk(10, Row(10)) {}
  lemma Row11() ensures RowOk(11, Row(11)) {}
  lemma Row12() ensures RowOk(12, Row(12)) {}
  lemma Row13() ensures RowOk(13, Row(13)) {}
  lemma Row14() ensures RowOk(14, Row(14)) {}
  lemma Row15() ensures RowOk(15, Row(15)) {}
  lemma Row16() ensures RowOk(16, Row(16)) {}
  lemma Row17() ensures RowOk(17, Row(17)) {}
  lemma Row18() ensures RowOk(18, Row(18)) {}
  lemma Row19() ensures RowOk(19, Row(19)) {}
  lemma Row20() ensures RowOk(20, Row(20)) {}
  lemma Row21() ensures RowOk(21, Row(21)) {}
  lemma Row22() ensures RowOk(22, Row(22)) {}
  lemma Row23() ensures RowOk(23, Row(23)) {}
  lemma Row24() ensures RowOk(24, Row(24)) {}
  lemma Row25() ensures RowOk(25, Row(25)) {}
  lemma Row26() ensures RowOk(26, Row(26)) {}
  lemma Row27() ensures RowOk(27, Row(27)) {}
  lemma Row28() ensures RowOk(28, Row(28)) {}
  lemma Row29() ensures RowOk(29, Row(29)) {}
  lemma Row30() ensures RowOk(30, Row(30)) {}
  lemma Row31() ensures RowOk(31, Row(31)) {}
  lemma Row32() ensures RowOk(32, Row(32)) {}
  lemma Row33() ensures RowOk(33, Row(33)) {}
  lemma Row34() ensures RowOk(34, Row(34)) {}
  lemma Row35() ensures RowOk(35, Row(35)) {}
  lemma Row36() ensures RowOk(36, Row(36)) {}
  lemma Row37() ensures RowOk(37, Row(37)) {}
  lemma Row38() ensures RowOk(38, Row(38)) {}
  lemma Row39() ensures RowOk(39, Row(39)) {}
  lemma Row40() ensures RowOk(40, Row(40)) {}

  /** Every row of the capacity table satisfies RowOk. */
  lemma VTabOk(v: Version)
    ensures RowOk(v, VTab(v))
  {
    ScanRow(1, v);
    RowsOk(v);
  }

  lemma RowsOk(v: Version)
    ensures RowOk(v, Row(v))
  {
    if v == 1 { Row1(); }
    else if v == 2 { Row2(); }
    else if v == 3 { Row3(); }
    else if v == 4 { Row4(); }
    else if v == 5 { Row5(); }
    else if v == 6 { Row6(); }
    else if v == 7 { Row7(); }
    else if v == 8 { Row8(); }
    else if v == 9 { Row9(); }
    else if v == 10 { Row10(); }
    else if v == 11 { Row11(); }
    else if v == 12 { Row12(); }
    else if v == 13 { Row13(); }
    else if v == 14 { Row14(); }
    else if v == 15 { Row15(); }
    else if v == 16 { Row16(); }
    else if v == 17 { Row17(); }
    else if v == 18 { Row18(); }
    else if v == 19 { Row19(); }
    else if v == 20 { Row20(); }
    else if v == 21 { Row21(); }
    else if v == 22 { Row22(); }
    else if v == 23 { Row23(); }
    else if v == 24 { Row24(); }
    else if v == 25 { Row25(); }
    else if v == 26 { Row26(); }
    else if v == 27 { Row27(); }
    else if v == 28 { Row28(); }
    else if v == 29 { Row29(); }
    else if v == 30 { Row30(); }
    else if v == 31 { Row31(); }
    else if v == 32 { Row32(); }
    else if v == 33 { Row33(); }
    else if v == 34 { Row34(); }
    else if v == 35 { Row35(); }
    else if v == 36 { Row36(); }
    else if v == 37 { Row37(); }
    else if v == 38 { Row38(); }
    else if v == 39 { Row39(); }
    else { Row40(); }
  }

  /** Every version holds between 1 and 3706 codewords. */
  lemma BytesRange(v: Version)
    ensures 0 < VTab(v).bytes <= 3706
  {
    VTabOk(v);
  }

  /** Number of modules on a side of a version-v symbol. */
  function Size(v: Version): int {
    17 + 4 * v
  }

  /** Number of data codewords of version v at level l: the codewords that
      the check bytes of the nblock blocks leave over. */
  function DataBytes(v: Version, l: Level): (n: int)
    ensures 0 < n <= ClassCap(v)
    ensures n + Lev(v, l).nblock * Lev(v, l).check == VTab(v).bytes
  {
    VTab(v).bytes - Lev(v, l).nblock * Lev(v, l).check
  }

  /** Go's `vtab[v].level[l]`: the block layout of version v at level l,
      which leaves room for at least one data byte and at most ClassCap(v). */
  function Lev(v: Version, l: Level): (li: LevelInfo)
    ensures li.nblock >= 1 && li.check >= 1
    ensures 0 < VTab(v).bytes - li.nblock * li.check <= ClassCap(v)
  {
    VTabOk(v);
    VTab(v).level[l]
  }

  /** Which of the three widths of the character-count field applies. */
  function SizeClass(v: Version): (c: int)
    ensures 0 <= c < 3
    ensures c == 0 <==> v <= 9
    ensures c == 2 <==> v >= 27
  {
    if v <= 9 then 0
    else if v <= 26 then 1
    else 2
  }
}
