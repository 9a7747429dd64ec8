/** The tables of the password code against those of FIPS 46-3: with them, a round of the cipher is the standard's
    expansion, selection functions and permutation, though the code keeps its halves rotated and looks up both at
    once. */
module DesStandard {
  import opened Des

  // ------------------------------------------------------------ the tables of the code

  /** One of eight entries. */
  function Row(x: bv64, a: bv64, b: bv64, c: bv64, d: bv64, e: bv64, f: bv64, g: bv64, h: bv64): (r: bv64)
    ensures Half(a) && Half(b) && Half(c) && Half(d) && Half(e) && Half(f) && Half(g) && Half(h) ==> Half(r)
  {
    if x & 4 == 0 then (if x & 2 == 0 then (if x & 1 == 0 then a else b) else if x & 1 == 0 then c else d)
    else if x & 2 == 0 then (if x & 1 == 0 then e else f) else if x & 1 == 0 then g else h
  }

  function Sp1(x: bv64): bv64 {
    if x < 8 then Row(x, 0x1010400, 0x0, 0x10000, 0x1010404, 0x1010004, 0x10404, 0x4, 0x10000)
    else if x < 16 then Row(x, 0x400, 0x1010400, 0x1010404, 0x400, 0x1000404, 0x1010004, 0x1000000, 0x4)
    else if x < 24 then Row(x, 0x404, 0x1000400, 0x1000400, 0x10400, 0x10400, 0x1010000, 0x1010000, 0x1000404)
    else if x < 32 then Row(x, 0x10004, 0x1000004, 0x1000004, 0x10004, 0x0, 0x404, 0x10404, 0x1000000)
    else if x < 40 then Row(x, 0x10000, 0x1010404, 0x4, 0x1010000, 0x1010400, 0x1000000, 0x1000000, 0x400)
    else if x < 48 then Row(x, 0x1010004, 0x10000, 0x10400, 0x1000004, 0x400, 0x4, 0x1000404, 0x10404)
    else if x < 56 then Row(x, 0x1010404, 0x10004, 0x1010000, 0x1000404, 0x1000004, 0x404, 0x10404, 0x1010400)
    else Row(x, 0x404, 0x1000400, 0x1000400, 0x0, 0x10004, 0x10400, 0x0, 0x1010004)
  }

  function Sp2(x: bv64): bv64 {
    if x < 8 then Row(x, 0x80108020, 0x80008000, 0x8000, 0x108020, 0x100000, 0x20, 0x80100020, 0x80008020)
    else if x < 16 then Row(x, 0x80000020, 0x80108020, 0x80108000, 0x80000000, 0x80008000, 0x100000, 0x20, 0x80100020)
    else if x < 24 then Row(x, 0x108000, 0x100020, 0x80008020, 0x0, 0x80000000, 0x8000, 0x108020, 0x80100000)
    else if x < 32 then Row(x, 0x100020, 0x80000020, 0x0, 0x108000, 0x8020, 0x80108000, 0x80100000, 0x8020)
    else if x < 40 then Row(x, 0x0, 0x108020, 0x80100020, 0x100000, 0x80008020, 0x80100000, 0x80108000, 0x8000)
    else if x < 48 then Row(x, 0x80100000, 0x80008000, 0x20, 0x80108020, 0x108020, 0x20, 0x8000, 0x80000000)
    else if x < 56 then Row(x, 0x8020, 0x80108000, 0x100000, 0x80000020, 0x100020, 0x80008020, 0x80000020, 0x100020)
    else Row(x, 0x108000, 0x0, 0x80008000, 0x8020, 0x80000000, 0x80100020, 0x80108020, 0x108000)
  }

  function Sp3(x: bv64): bv64 {
    if x < 8 then Row(x, 0x208, 0x8020200, 0x0, 0x8020008, 0x8000200, 0x0, 0x20208, 0x8000200)
    else if x < 16 then Row(x, 0x20008, 0x8000008, 0x8000008, 0x20000, 0x8020208, 0x20008, 0x8020000, 0x208)
    else if x < 24 then Row(x, 0x8000000, 0x8, 0x8020200, 0x200, 0x20200, 0x8020000, 0x8020008, 0x20208)
    else if x < 32 then Row(x, 0x8000208, 0x20200, 0x20000, 0x8000208, 0x8, 0x8020208, 0x200, 0x8000000)
    else if x < 40 then Row(x, 0x8020200, 0x8000000, 0x20008, 0x208, 0x20000, 0x8020200, 0x8000200, 0x0)
    else if x < 48 then Row(x, 0x200, 0x20008, 0x8020208, 0x8000200, 0x8000008, 0x200, 0x0, 0x8020008)
    else if x < 56 then Row(x, 0x8000208, 0x20000, 0x8000000, 0x8020208, 0x8, 0x20208, 0x20200, 0x8000008)
    else Row(x, 0x8020000, 0x8000208, 0x208, 0x8020000, 0x20208, 0x8, 0x8020008, 0x20200)
  }

  function Sp4(x: bv64): bv64 {
    if x < 8 then Row(x, 0x802001, 0x2081, 0x2081, 0x80, 0x802080, 0x800081, 0x800001, 0x2001)
    else if x < 16 then Row(x, 0x0, 0x802000, 0x802000, 0x802081, 0x81, 0x0, 0x800080, 0x800001)
    else if x < 24 then Row(x, 0x1, 0x2000, 0x800000, 0x802001, 0x80, 0x800000, 0x2001, 0x2080)
    else if x < 32 then Row(x, 0x800081, 0x1, 0x2080, 0x800080, 0x2000, 0x802080, 0x802081, 0x81)
    else if x < 40 then Row(x, 0x800080, 0x800001, 0x802000, 0x802081, 0x81, 0x0, 0x0, 0x802000)
    else if x < 48 then Row(x, 0x2080, 0x800080, 0x800081, 0x1, 0x802001, 0x2081, 0x2081, 0x80)
    else if x < 56 then Row(x, 0x802081, 0x81, 0x1, 0x2000, 0x800001, 0x2001, 0x802080, 0x800081)
    else Row(x, 0x2001, 0x2080, 0x800000, 0x802001, 0x80, 0x800000, 0x2000, 0x802080)
  }

  function Sp5(x: bv64): bv64 {
    if x < 8 then Row(x, 0x100, 0x2080100, 0x2080000, 0x42000100, 0x80000, 0x100, 0x40000000, 0x2080000)
    else if x < 16 then Row(x, 0x40080100, 0x80000, 0x2000100, 0x40080100, 0x42000100, 0x42080000, 0x80100, 0x40000000)
    else if x < 24 then Row(x, 0x2000000, 0x40080000, 0x40080000, 0x0, 0x40000100, 0x42080100, 0x42080100, 0x2000100)
    else if x < 32 then Row(x, 0x42080000, 0x40000100, 0x0, 0x42000000, 0x2080100, 0x2000000, 0x42000000, 0x80100)
    else if x < 40 then Row(x, 0x80000, 0x42000100, 0x100, 0x2000000, 0x40000000, 0x2080000, 0x42000100, 0x40080100)
    else if x < 48 then Row(x, 0x2000100, 0x40000000, 0x42080000, 0x2080100, 0x40080100, 0x100, 0x2000000, 0x42080000)
    else if x < 56 then Row(x, 0x42080100, 0x80100, 0x42000000, 0x42080100, 0x2080000, 0x0, 0x40080000, 0x42000000)
    else Row(x, 0x80100, 0x2000100, 0x40000100, 0x80000, 0x0, 0x40080000, 0x2080100, 0x40000100)
  }

  function Sp6(x: bv64): bv64 {
    if x < 8 then Row(x, 0x20000010, 0x20400000, 0x4000, 0x20404010, 0x20400000, 0x10, 0x20404010, 0x400000)
    else if x < 16 then Row(x, 0x20004000, 0x404010, 0x400000, 0x20000010, 0x400010, 0x20004000, 0x20000000, 0x4010)
    else if x < 24 then Row(x, 0x0, 0x400010, 0x20004010, 0x4000, 0x404000, 0x20004010, 0x10, 0x20400010)
    else if x < 32 then Row(x, 0x20400010, 0x0, 0x404010, 0x20404000, 0x4010, 0x404000, 0x20404000, 0x20000000)
    else if x < 40 then Row(x, 0x20004000, 0x10, 0x20400010, 0x404000, 0x20404010, 0x400000, 0x4010, 0x20000010)
    else if x < 48 then Row(x, 0x400000, 0x20004000, 0x20000000, 0x4010, 0x20000010, 0x20404010, 0x404000, 0x20400000)
    else if x < 56 then Row(x, 0x404010, 0x20404000, 0x0, 0x20400010, 0x10, 0x4000, 0x20400000, 0x404010)
    else Row(x, 0x4000, 0x400010, 0x20004010, 0x0, 0x20404000, 0x20000000, 0x400010, 0x20004010)
  }

  function Sp7(x: bv64): bv64 {
    if x < 8 then Row(x, 0x200000, 0x4200002, 0x4000802, 0x0, 0x800, 0x4000802, 0x200802, 0x4200800)
    else if x < 16 then Row(x, 0x4200802, 0x200000, 0x0, 0x4000002, 0x2, 0x4000000, 0x4200002, 0x802)
    else if x < 24 then Row(x, 0x4000800, 0x200802, 0x200002, 0x4000800, 0x4000002, 0x4200000, 0x4200800, 0x200002)
    else if x < 32 then Row(x, 0x4200000, 0x800, 0x802, 0x4200802, 0x200800, 0x2, 0x4000000, 0x200800)
    else if x < 40 then Row(x, 0x4000000, 0x200800, 0x200000, 0x4000802, 0x4000802, 0x4200002, 0x4200002, 0x2)
    else if x < 48 then Row(x, 0x200002, 0x4000000, 0x4000800, 0x200000, 0x4200800, 0x802, 0x200802, 0x4200800)
    else if x < 56 then Row(x, 0x802, 0x4000002, 0x4200802, 0x4200000, 0x200800, 0x0, 0x2, 0x4200802)
    else Row(x, 0x0, 0x200802, 0x4200000, 0x800, 0x4000002, 0x4000800, 0x800, 0x200002)
  }

  function Sp8(x: bv64): bv64 {
    if x < 8 then Row(x, 0x10001040, 0x1000, 0x40000, 0x10041040, 0x10000000, 0x10001040, 0x40, 0x10000000)
    else if x < 16 then Row(x, 0x40040, 0x10040000, 0x10041040, 0x41000, 0x10041000, 0x41040, 0x1000, 0x40)
    else if x < 24 then Row(x, 0x10040000, 0x10000040, 0x10001000, 0x1040, 0x41000, 0x40040, 0x10040040, 0x10041000)
    else if x < 32 then Row(x, 0x1040, 0x0, 0x0, 0x10040040, 0x10000040, 0x10001000, 0x41040, 0x40000)
    else if x < 40 then Row(x, 0x41040, 0x40000, 0x10041000, 0x1000, 0x40, 0x10040040, 0x1000, 0x41040)
    else if x < 48 then Row(x, 0x10001000, 0x40, 0x10000040, 0x10040000, 0x10040040, 0x10000000, 0x40000, 0x10001040)
    else if x < 56 then Row(x, 0x0, 0x10041040, 0x40040, 0x10000040, 0x10040000, 0x10001000, 0x10001040, 0x0)
    else Row(x, 0x10041040, 0x41000, 0x41000, 0x1040, 0x1040, 0x40040, 0x10000000, 0x10041000)
  }

  const TABLES := Boxes(Sp1, Sp2, Sp3, Sp4, Sp5, Sp6, Sp7, Sp8)

  // ------------------------------------------------------------ the standard's; bits are numbered from 1, the highest

  /** Digit `column` of sixteen. */
  function Digit(row: bv64, column: bv64): bv64
    requires column <= 15
  {
    (row >> (60 - 4 * column)) & 0xf
  }

  /** A selection function: the outer bits of its six choose the row, the inner ones the column. */
  function Select(x: bv64, row0: bv64, row1: bv64, row2: bv64, row3: bv64): bv64 {
    var column := (x >> 1) & 0xf;
    Digit(if x & 0x20 == 0 then (if x & 1 == 0 then row0 else row1) else if x & 1 == 0 then row2 else row3, column)
  }

  function S1(x: bv64): bv64 {
    Select(x, 0xE4D12FB83A6C5907, 0x0F74E2D1A6CB9538, 0x41E8D62BFC973A50, 0xFC8249175B3EA06D)
  }

  function S2(x: bv64): bv64 {
    Select(x, 0xF18E6B34972DC05A, 0x3D47F28EC01A69B5, 0x0E7BA4D158C6932F, 0xD8A13F42B67C05E9)
  }

  function S3(x: bv64): bv64 {
    Select(x, 0xA09E63F51DC7B428, 0xD709346A285ECBF1, 0xD6498F30B12C5AE7, 0x1AD069874FE3B52C)
  }

  function S4(x: bv64): bv64 {
    Select(x, 0x7DE3069A1285BC4F, 0xD8B56F03472C1AE9, 0xA690CB7DF13E5284, 0x3F06A1D8945BC72E)
  }

  function S5(x: bv64): bv64 {
    Select(x, 0x2C417AB6853FD0E9, 0xEB2C47D150FA3986, 0x421BAD78F9C5630E, 0xB8C71E2D6F09A453)
  }

  function S6(x: bv64): bv64 {
    Select(x, 0xC1AF92680D34E75B, 0xAF427C9561DE0B38, 0x9EF528C3704A1DB6, 0x432C95FABE17608D)
  }

  function S7(x: bv64): bv64 {
    Select(x, 0x4B2EF08D3C975A61, 0xD0B7491AE35C2F86, 0x14BDC37EAF680592, 0x6BD814A7950FE23C)
  }

  function S8(x: bv64): bv64 {
    Select(x, 0xD2846FB1A93E50C7, 0x1FD8A374C56B0E92, 0x7B419CE206ADF358, 0x21E74A8DFC90356B)
  }

  function Placed(x: bv64, place: bv6): bv64 { x << place }

  /** Bit `from` of 32, moved to bit `to` of `width`. */
  function Bit(x: bv64, from: bv6, to: bv6, width: bv6): bv64 { ((x >> (32 - from)) & 1) << (width - to) }

  /** The permutation P. */
  function P(x: bv64): bv64 {
    Bit(x, 16, 1, 32) | Bit(x, 7, 2, 32) | Bit(x, 20, 3, 32) | Bit(x, 21, 4, 32) |
    Bit(x, 29, 5, 32) | Bit(x, 12, 6, 32) | Bit(x, 28, 7, 32) | Bit(x, 17, 8, 32) |
    Bit(x, 1, 9, 32) | Bit(x, 15, 10, 32) | Bit(x, 23, 11, 32) | Bit(x, 26, 12, 32) |
    Bit(x, 5, 13, 32) | Bit(x, 18, 14, 32) | Bit(x, 31, 15, 32) | Bit(x, 10, 16, 32) |
    Bit(x, 2, 17, 32) | Bit(x, 8, 18, 32) | Bit(x, 24, 19, 32) | Bit(x, 14, 20, 32) |
    Bit(x, 32, 21, 32) | Bit(x, 27, 22, 32) | Bit(x, 3, 23, 32) | Bit(x, 9, 24, 32) |
    Bit(x, 19, 25, 32) | Bit(x, 13, 26, 32) | Bit(x, 30, 27, 32) | Bit(x, 6, 28, 32) |
    Bit(x, 22, 29, 32) | Bit(x, 11, 30, 32) | Bit(x, 4, 31, 32) | Bit(x, 25, 32, 32)
  }

  lemma Table1(x: bv64)
    requires x < 64
    ensures Sp1(x) == RotateLeft(P(Placed(S1(x), 28)))
  {}

  lemma Table2(x: bv64)
    requires x < 64
    ensures Sp2(x) == RotateLeft(P(Placed(S2(x), 24)))
  {}

  lemma Table3(x: bv64)
    requires x < 64
    ensures Sp3(x) == RotateLeft(P(Placed(S3(x), 20)))
  {}

  lemma Table4(x: bv64)
    requires x < 64
    ensures Sp4(x) == RotateLeft(P(Placed(S4(x), 16)))
  {}

  lemma Table5(x: bv64)
    requires x < 64
    ensures Sp5(x) == RotateLeft(P(Placed(S5(x), 12)))
  {}

  lemma Table6(x: bv64)
    requires x < 64
    ensures Sp6(x) == RotateLeft(P(Placed(S6(x), 8)))
  {}

  lemma Table7(x: bv64)
    requires x < 64
    ensures Sp7(x) == RotateLeft(P(Placed(S7(x), 4)))
  {}

  lemma Table8(x: bv64)
    requires x < 64
    ensures Sp8(x) == RotateLeft(P(Placed(S8(x), 0)))
  {}

  function Pick(r: bv64, a: bv6, b: bv6, c: bv6, d: bv6, e: bv6, f: bv6): bv64 {
    Bit(r, a, 1, 6) | Bit(r, b, 2, 6) | Bit(r, c, 3, 6) | Bit(r, d, 4, 6) | Bit(r, e, 5, 6) | Bit(r, f, 6, 6)
  }

  /** The expansion E, in groups of six. */
  function Expanded(r: bv64): Groups {
    Groups(Pick(r, 32, 1, 2, 3, 4, 5),
           Pick(r, 4, 5, 6, 7, 8, 9),
           Pick(r, 8, 9, 10, 11, 12, 13),
           Pick(r, 12, 13, 14, 15, 16, 17),
           Pick(r, 16, 17, 18, 19, 20, 21),
           Pick(r, 20, 21, 22, 23, 24, 25),
           Pick(r, 24, 25, 26, 27, 28, 29),
           Pick(r, 28, 29, 30, 31, 32, 1))
  }

  function KeyGroups(k: RoundKey): Groups {
    Groups(Six(k.first >> 18), Six(k.first >> 12), Six(k.first >> 6), Six(k.first),
           Six(k.second >> 18), Six(k.second >> 12), Six(k.second >> 6), Six(k.second))
  }

  function XorGroups(a: Groups, b: Groups): Groups {
    Groups(Xor(a.g1, b.g1), Xor(a.g2, b.g2), Xor(a.g3, b.g3), Xor(a.g4, b.g4),
           Xor(a.g5, b.g5), Xor(a.g6, b.g6), Xor(a.g7, b.g7), Xor(a.g8, b.g8))
  }

  /** The eight results of the selection functions, one behind the other. */
  function Selected(g: Groups): bv64 {
    var odd := Or(Or(Or(Placed(S7(g.g7), 4), Placed(S5(g.g5), 12)), Placed(S3(g.g3), 20)), Placed(S1(g.g1), 28));
    Or(Or(Or(Or(odd, Placed(S8(g.g8), 0)), Placed(S6(g.g6), 8)), Placed(S4(g.g4), 16)), Placed(S2(g.g2), 24))
  }

  /** The cipher function of the standard. */
  function Cipher(r: bv64, k: RoundKey): bv64 { P(Selected(XorGroups(Expanded(r), KeyGroups(k)))) }

  // ------------------------------------------------------------ one round

  lemma Expansion(r: bv64, k: RoundKey)
    requires Half(r)
    ensures Mixed(RotateLeft(r), k) == XorGroups(Expanded(r), KeyGroups(k))
  {
    ExpansionFirst(r, k);
    ExpansionSecond(r, k);
    ExpansionThird(r, k);
    ExpansionFourth(r, k);
    hide *;
  }

  lemma ExpansionFirst(r: bv64, k: RoundKey)
    requires Half(r)
    ensures var m, e := Mixed(RotateLeft(r), k), XorGroups(Expanded(r), KeyGroups(k)); m.g1 == e.g1 && m.g2 == e.g2
  {}

  lemma ExpansionSecond(r: bv64, k: RoundKey)
    requires Half(r)
    ensures var m, e := Mixed(RotateLeft(r), k), XorGroups(Expanded(r), KeyGroups(k)); m.g3 == e.g3 && m.g4 == e.g4
  {}

  lemma ExpansionThird(r: bv64, k: RoundKey)
    requires Half(r)
    ensures var m, e := Mixed(RotateLeft(r), k), XorGroups(Expanded(r), KeyGroups(k)); m.g5 == e.g5 && m.g6 == e.g6
  {}

  lemma ExpansionFourth(r: bv64, k: RoundKey)
    requires Half(r)
    ensures var m, e := Mixed(RotateLeft(r), k), XorGroups(Expanded(r), KeyGroups(k)); m.g7 == e.g7 && m.g8 == e.g8
  {}

  lemma SixBits(r: bv64, k: RoundKey)
    ensures var m := Mixed(r, k);
            m.g1 < 64 && m.g2 < 64 && m.g3 < 64 && m.g4 < 64 && m.g5 < 64 && m.g6 < 64 && m.g7 < 64 && m.g8 < 64
  {}

  lemma PermutedOr(x: bv64, y: bv64)
    ensures RotateLeft(P(Or(x, y))) == Or(RotateLeft(P(x)), RotateLeft(P(y)))
  {
    hide P, RotateLeft, Or;
    POr(x, y);
    RotatedOr(P(x), P(y));
  }

  lemma POr(x: bv64, y: bv64)
    ensures P(Or(x, y)) == Or(P(x), P(y))
  {}

  function Up(x: bv64): bv64 { (x << 1) & 0xffffffff }

  function Top(x: bv64): bv64 { (x >> 31) & 0xffffffff }

  lemma TurnedParts(x: bv64)
    ensures RotateLeft(x) == Or(Up(x), Top(x))
  {}

  lemma UpOr(x: bv64, y: bv64)
    ensures Up(Or(x, y)) == Or(Up(x), Up(y))
  {}

  lemma TopOr(x: bv64, y: bv64)
    ensures Top(Or(x, y)) == Or(Top(x), Top(y))
  {}

  lemma OrPairs(a: bv64, b: bv64, c: bv64, d: bv64)
    ensures Or(Or(a, b), Or(c, d)) == Or(Or(a, c), Or(b, d))
  {
    hide Or;
    OrAssociates(a, b, Or(c, d));
    OrAssociates(b, c, d);
    OrCommutes(b, c);
    OrAssociates(c, b, d);
    OrAssociates(a, c, Or(b, d));
  }

  lemma OrAssociates(x: bv64, y: bv64, z: bv64)
    ensures Or(Or(x, y), z) == Or(x, Or(y, z))
  {}

  lemma OrCommutes(x: bv64, y: bv64)
    ensures Or(x, y) == Or(y, x)
  {}

  lemma RotatedOr(x: bv64, y: bv64)
    ensures RotateLeft(Or(x, y)) == Or(RotateLeft(x), RotateLeft(y))
  {
    hide RotateLeft, Or, Up, Top;
    TurnedParts(x);
    TurnedParts(y);
    TurnedParts(Or(x, y));
    UpOr(x, y);
    TopOr(x, y);
    OrPairs(Up(x), Up(y), Top(x), Top(y));
  }

  /** The code's cipher function is the standard's, with both halves rotated. */
  lemma CipherFunction(r: bv64, k: RoundKey)
    requires Half(r)
    ensures F(TABLES, RotateLeft(r), k) == RotateLeft(Cipher(r, k))
  {
    hide RotateLeft, P, Or, Mixed, Placed, XorGroups, Expanded, KeyGroups, Half, Sp1, Sp2, Sp3, Sp4, Sp5, Sp6,
         Sp7, Sp8, S1, S2, S3, S4, S5, S6, S7, S8;
    var m := Mixed(RotateLeft(r), k);
    Expansion(r, k);
    SixBits(RotateLeft(r), k);
    Table1(m.g1);
    Table2(m.g2);
    Table3(m.g3);
    Table4(m.g4);
    Table5(m.g5);
    Table6(m.g6);
    Table7(m.g7);
    Table8(m.g8);
    var o := Placed(S7(m.g7), 4);
    PermutedOr(o, Placed(S5(m.g5), 12));
    o := Or(o, Placed(S5(m.g5), 12));
    PermutedOr(o, Placed(S3(m.g3), 20));
    o := Or(o, Placed(S3(m.g3), 20));
    PermutedOr(o, Placed(S1(m.g1), 28));
    o := Or(o, Placed(S1(m.g1), 28));
    PermutedOr(o, Placed(S8(m.g8), 0));
    o := Or(o, Placed(S8(m.g8), 0));
    PermutedOr(o, Placed(S6(m.g6), 8));
    o := Or(o, Placed(S6(m.g6), 8));
    PermutedOr(o, Placed(S4(m.g4), 16));
    o := Or(o, Placed(S4(m.g4), 16));
    PermutedOr(o, Placed(S2(m.g2), 24));
  }

  lemma NarrowTables()
    ensures Narrow(TABLES)
  {
    hide Half;
    forall x: bv64
      ensures Half(Sp1(x)) && Half(Sp2(x)) && Half(Sp3(x)) && Half(Sp4(x)) &&
              Half(Sp5(x)) && Half(Sp6(x)) && Half(Sp7(x)) && Half(Sp8(x))
    {
      Narrow12(x);
      Narrow34(x);
      Narrow56(x);
      Narrow78(x);
    }
  }

  lemma Narrow12(x: bv64)
    ensures Half(Sp1(x)) && Half(Sp2(x))
  {
    hide Row;
  }

  lemma Narrow34(x: bv64)
    ensures Half(Sp3(x)) && Half(Sp4(x))
  {
    hide Row;
  }

  lemma Narrow56(x: bv64)
    ensures Half(Sp5(x)) && Half(Sp6(x))
  {
    hide Row;
  }

  lemma Narrow78(x: bv64)
    ensures Half(Sp7(x)) && Half(Sp8(x))
  {
    hide Row;
  }

  // ------------------------------------------------------------ the whole cipher

  /** Bit `from` of 64, moved to bit `to` of 32. */
  function At(x: bv64, from: bv7, to: bv6): bv64
    requires from <= 64 && to <= 32
  { ((x >> (64 - from)) & 1) << (32 - to) }

  /** The two halves of the initial permutation. */
  function IpLeft(x: bv64): bv64 {
    At(x, 58, 1) | At(x, 50, 2) | At(x, 42, 3) | At(x, 34, 4) |
    At(x, 26, 5) | At(x, 18, 6) | At(x, 10, 7) | At(x, 2, 8) |
    At(x, 60, 9) | At(x, 52, 10) | At(x, 44, 11) | At(x, 36, 12) |
    At(x, 28, 13) | At(x, 20, 14) | At(x, 12, 15) | At(x, 4, 16) |
    At(x, 62, 17) | At(x, 54, 18) | At(x, 46, 19) | At(x, 38, 20) |
    At(x, 30, 21) | At(x, 22, 22) | At(x, 14, 23) | At(x, 6, 24) |
    At(x, 64, 25) | At(x, 56, 26) | At(x, 48, 27) | At(x, 40, 28) |
    At(x, 32, 29) | At(x, 24, 30) | At(x, 16, 31) | At(x, 8, 32)
  }

  function IpRight(x: bv64): bv64 {
    At(x, 57, 1) | At(x, 49, 2) | At(x, 41, 3) | At(x, 33, 4) |
    At(x, 25, 5) | At(x, 17, 6) | At(x, 9, 7) | At(x, 1, 8) |
    At(x, 59, 9) | At(x, 51, 10) | At(x, 43, 11) | At(x, 35, 12) |
    At(x, 27, 13) | At(x, 19, 14) | At(x, 11, 15) | At(x, 3, 16) |
    At(x, 61, 17) | At(x, 53, 18) | At(x, 45, 19) | At(x, 37, 20) |
    At(x, 29, 21) | At(x, 21, 22) | At(x, 13, 23) | At(x, 5, 24) |
    At(x, 63, 25) | At(x, 55, 26) | At(x, 47, 27) | At(x, 39, 28) |
    At(x, 31, 29) | At(x, 23, 30) | At(x, 15, 31) | At(x, 7, 32)
  }

  lemma InitialPermutation(block: bv64)
    ensures IpLeft(block) == InitialLeft(block) && IpRight(block) == InitialRight(block)
  {
    IpLeftHalf(block);
    IpRightHalf(block);
    hide *;
  }

  lemma IpLeftHalf(block: bv64)
    ensures IpLeft(block) == InitialLeft(block)
  {}

  lemma IpRightHalf(block: bv64)
    ensures IpRight(block) == InitialRight(block)
  {}

  /** The halves after a round for each of the keys. */
  function Halves(keys: seq<RoundKey>, l: bv64, r: bv64): (bv64, bv64)
    decreases |keys|
  {
    if keys == [] then (l, r)
    else var (l', r') := Halves(keys[..|keys| - 1], l, r); (r', Xor(l', Cipher(r', keys[|keys| - 1])))
  }

  /** With the code's tables the cipher is the standard's: the initial permutation, a round for each key, and the
      inverse of the initial permutation with the halves exchanged. */
  lemma {:induction false} EncipherStandard(keys: seq<RoundKey>, block: bv64)
    ensures var (l, r) := Halves(keys, IpLeft(block), IpRight(block));
            var c := Encipher(TABLES, keys, block); IpLeft(c) == r && IpRight(c) == l
    decreases |keys|
  {
    hide Encipher, InitialLeft, InitialRight, IpLeft, IpRight, Cipher, F, RotateLeft, RotateRight, Xor;
    InitialPermutation(block);
    InitialPermutation(Encipher(TABLES, keys, block));
    if keys == [] {
      EncipherNone(TABLES, block);
    } else {
      var init, k := keys[..|keys| - 1], keys[|keys| - 1];
      assert keys == init + [k];
      var old0 := Encipher(TABLES, init, block);
      EncipherStandard(init, block);
      NarrowTables();
      EncipherRound(TABLES, init, k, block);
      InitialPermutation(old0);
      CipherTurned(old0, k);
    }
  }

  lemma CipherTurned(block: bv64, k: RoundKey)
    ensures RotateRight(F(TABLES, RotateLeft(InitialLeft(block)), k)) == Cipher(InitialLeft(block), k)
  {
    hide InitialLeft, InitialRight, RotateLeft, RotateRight, F, Cipher, Half;
    InitialHalves(block);
    CipherFunction(InitialLeft(block), k);
    CipherHalf(InitialLeft(block), k);
    RotateBack(Cipher(InitialLeft(block), k));
  }

  lemma CipherHalf(r: bv64, k: RoundKey)
    ensures Half(Cipher(r, k))
  {
    hide Selected, XorGroups, Expanded, KeyGroups;
    PermutedHalf(Selected(XorGroups(Expanded(r), KeyGroups(k))));
  }

  lemma PermutedHalf(x: bv64)
    ensures Half(P(x))
  {}
}
