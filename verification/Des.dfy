/** The DES of the VNC password code.  Words are `unsigned long`, 64 bits wide, of which the low 32 carry the
    cipher's halves.  The substitution tables are a parameter: nothing proved here depends on their contents. */
module Des {

  // ------------------------------------------------------------ permutations of FIPS 46-3

  function Low(x: bv64): bv64 { x & 0xffffffff }

  /** The lowest bit of each byte, the last byte's first. */
  function Gather(x: bv64): bv64 {
    ((x & 1) << 7) | (((x >> 8) & 1) << 6) | (((x >> 16) & 1) << 5) | (((x >> 24) & 1) << 4) |
    (((x >> 32) & 1) << 3) | (((x >> 40) & 1) << 2) | (((x >> 48) & 1) << 1) | ((x >> 56) & 1)
  }

  /** The opposite of Gather. */
  function Spread(x: bv64): bv64 {
    ((x >> 7) & 1) | (((x >> 6) & 1) << 8) | (((x >> 5) & 1) << 16) | (((x >> 4) & 1) << 24) |
    (((x >> 3) & 1) << 32) | (((x >> 2) & 1) << 40) | (((x >> 1) & 1) << 48) | ((x & 1) << 56)
  }

  /** The initial permutation: the left half is made of the even columns of the block's eight bytes, the right
      half of the odd ones, each column read upwards. */
  function InitialLeft(block: bv64): bv64 {
    (Gather(block >> 6) << 24) | (Gather(block >> 4) << 16) | (Gather(block >> 2) << 8) | Gather(block)
  }

  function InitialRight(block: bv64): bv64 {
    (Gather(block >> 7) << 24) | (Gather(block >> 5) << 16) | (Gather(block >> 3) << 8) | Gather(block >> 1)
  }

  /** The final permutation, of the preoutput block `left`, `right`. */
  function Final(left: bv64, right: bv64): bv64 {
    (Spread(left >> 24) << 6) | (Spread(left >> 16) << 4) | (Spread(left >> 8) << 2) | Spread(left) |
    (Spread(right >> 24) << 7) | (Spread(right >> 16) << 5) | (Spread(right >> 8) << 3) | (Spread(right) << 1)
  }

  function RotateLeft(x: bv64): bv64 { Low((x << 1) | (x >> 31)) }

  function RotateRight(x: bv64): bv64 { Low((x << 31) | (x >> 1)) }

  predicate Half(x: bv64) { x <= 0xffffffff }

  lemma FinalOfInitial(block: bv64)
    ensures Final(InitialLeft(block), InitialRight(block)) == block
  {}

  lemma InitialOfFinal(left: bv64, right: bv64)
    requires Half(left) && Half(right)
    ensures InitialLeft(Final(left, right)) == left && InitialRight(Final(left, right)) == right
  {}

  lemma RotateBack(x: bv64)
    requires Half(x)
    ensures RotateRight(RotateLeft(x)) == x && RotateLeft(RotateRight(x)) == x
    ensures Half(RotateLeft(x)) && Half(RotateRight(x))
  {}

  lemma InitialHalves(block: bv64)
    ensures Half(InitialLeft(block)) && Half(InitialRight(block))
  {}

  // ------------------------------------------------------------ the Feistel network

  /** 48 bits of a round key, 24 in each word. */
  datatype RoundKey = RoundKey(first: bv64, second: bv64)

  /** The tables SP1 to SP8: a selection function followed by the permutation P. */
  datatype Boxes = Boxes(sp1: bv64 -> bv64, sp2: bv64 -> bv64, sp3: bv64 -> bv64, sp4: bv64 -> bv64,
                         sp5: bv64 -> bv64, sp6: bv64 -> bv64, sp7: bv64 -> bv64, sp8: bv64 -> bv64)

  ghost predicate Narrow(b: Boxes) {
    forall x :: Half(b.sp1(x)) && Half(b.sp2(x)) && Half(b.sp3(x)) && Half(b.sp4(x)) &&
                Half(b.sp5(x)) && Half(b.sp6(x)) && Half(b.sp7(x)) && Half(b.sp8(x))
  }

  function Xor(x: bv64, y: bv64): bv64 { x ^ y }

  function Six(x: bv64): bv64 { x & 0x3f }

  /** Eight groups of six bits. */
  datatype Groups = Groups(g1: bv64, g2: bv64, g3: bv64, g4: bv64, g5: bv64, g6: bv64, g7: bv64, g8: bv64)

  /** The expansion E, whose groups overlap by two bits, mixed with the groups of the key.  Halves are kept
      rotated left by one place. */
  function Mixed(r: bv64, k: RoundKey): Groups {
    Groups(Xor(Six((r << 4) | (r >> 28)), Six(k.first >> 18)), Xor(Six(r >> 24), Six(k.first >> 12)),
           Xor(Six(r >> 20), Six(k.first >> 6)), Xor(Six(r >> 16), Six(k.first)),
           Xor(Six(r >> 12), Six(k.second >> 18)), Xor(Six(r >> 8), Six(k.second >> 12)),
           Xor(Six(r >> 4), Six(k.second >> 6)), Xor(Six(r), Six(k.second)))
  }

  function Or(x: bv64, y: bv64): bv64 { x | y }

  /** The cipher function; each table is the selection function followed by its part of P. */
  function F(b: Boxes, r: bv64, k: RoundKey): bv64 {
    var m := Mixed(r, k);
    var odd := Or(Or(Or(b.sp7(m.g7), b.sp5(m.g5)), b.sp3(m.g3)), b.sp1(m.g1));
    Or(Or(Or(Or(odd, b.sp8(m.g8)), b.sp6(m.g6)), b.sp4(m.g4)), b.sp2(m.g2))
  }

  lemma OrHalf(x: bv64, y: bv64)
    requires Half(x) && Half(y)
    ensures Half(Or(x, y))
  {}

  lemma FHalf(b: Boxes, r: bv64, k: RoundKey)
    requires Narrow(b)
    ensures Half(F(b, r, k))
  {
    hide Half, Mixed, Or;
    var m := Mixed(r, k);
    OrHalf(b.sp7(m.g7), b.sp5(m.g5));
    var o := Or(b.sp7(m.g7), b.sp5(m.g5));
    OrHalf(o, b.sp3(m.g3));
    o := Or(o, b.sp3(m.g3));
    OrHalf(o, b.sp1(m.g1));
    o := Or(o, b.sp1(m.g1));
    OrHalf(o, b.sp8(m.g8));
    o := Or(o, b.sp8(m.g8));
    OrHalf(o, b.sp6(m.g6));
    o := Or(o, b.sp6(m.g6));
    OrHalf(o, b.sp4(m.g4));
    o := Or(o, b.sp4(m.g4));
    OrHalf(o, b.sp2(m.g2));
  }

  /** The rounds: each key replaces the halves by (right, left XOR F). */
  function Rounds(b: Boxes, keys: seq<RoundKey>, l: bv64, r: bv64): (bv64, bv64)
    decreases |keys|
  {
    if keys == [] then (l, r) else Rounds(b, keys[1..], r, Xor(l, F(b, r, keys[0])))
  }

  function Reverse(keys: seq<RoundKey>): (r: seq<RoundKey>)
    ensures |r| == |keys| && forall i :: 0 <= i < |keys| ==> r[i] == keys[|keys| - 1 - i]
  {
    if keys == [] then [] else Reverse(keys[1..]) + [keys[0]]
  }

  /** One block through the cipher. */
  function Encipher(b: Boxes, keys: seq<RoundKey>, block: bv64): bv64 {
    var (l, r) := Rounds(b, keys, RotateLeft(InitialLeft(block)), RotateLeft(InitialRight(block)));
    Final(RotateRight(r), RotateRight(l))
  }

  lemma {:induction false} RoundsHalf(b: Boxes, keys: seq<RoundKey>, l: bv64, r: bv64)
    requires Narrow(b) && Half(l) && Half(r)
    ensures Half(Rounds(b, keys, l, r).0) && Half(Rounds(b, keys, l, r).1)
    decreases |keys|
  {
    hide F, Narrow, Xor, Half;
    if keys == [] {
    } else {
      FHalf(b, r, keys[0]);
      XorHalf(l, F(b, r, keys[0]));
      RoundsHalf(b, keys[1..], r, Xor(l, F(b, r, keys[0])));
    }
  }

  lemma XorHalf(x: bv64, y: bv64)
    requires Half(x) && Half(y)
    ensures Half(Xor(x, y))
  {}

  lemma {:induction false} RoundsAppend(b: Boxes, keys: seq<RoundKey>, k: RoundKey, l: bv64, r: bv64)
    ensures var (l', r') := Rounds(b, keys, l, r); Rounds(b, keys + [k], l, r) == (r', Xor(l', F(b, r', k)))
    decreases |keys|
  {
    hide F, Xor;
    if keys == [] {
      assert (keys + [k])[1..] == [];
    } else {
      assert (keys + [k])[1..] == keys[1..] + [k];
      RoundsAppend(b, keys[1..], k, r, Xor(l, F(b, r, keys[0])));
    }
  }

  /** With the halves exchanged and the keys in reverse order, the rounds run backwards. */
  lemma {:induction false} RoundsReverse(b: Boxes, keys: seq<RoundKey>, l: bv64, r: bv64)
    ensures var (l', r') := Rounds(b, keys, l, r); Rounds(b, Reverse(keys), r', l') == (r, l)
    decreases |keys|
  {
    hide F, Xor;
    if keys == [] {
    } else {
      var f := F(b, r, keys[0]);
      var (l', r') := Rounds(b, keys[1..], r, Xor(l, f));
      RoundsReverse(b, keys[1..], r, Xor(l, f));
      RoundsAppend(b, Reverse(keys[1..]), keys[0], r', l');
      XorTwice(l, f);
    }
  }

  lemma XorTwice(x: bv64, y: bv64)
    ensures Xor(Xor(x, y), y) == x
  {}

  /** Deciphering: the same cipher with the keys in reverse order, whatever the keys and the tables. */
  lemma EncipherReverse(b: Boxes, keys: seq<RoundKey>, block: bv64)
    requires Narrow(b)
    ensures Encipher(b, Reverse(keys), Encipher(b, keys, block)) == block
  {
    hide Final, InitialLeft, InitialRight, RotateLeft, RotateRight, Half, Rounds, Reverse, Narrow;
    var l0, r0 := RotateLeft(InitialLeft(block)), RotateLeft(InitialRight(block));
    InitialHalves(block);
    RotateBack(InitialLeft(block));
    RotateBack(InitialRight(block));
    var (l, r) := Rounds(b, keys, l0, r0);
    RoundsHalf(b, keys, l0, r0);
    RotateBack(l);
    RotateBack(r);
    InitialOfFinal(RotateRight(r), RotateRight(l));
    RoundsReverse(b, keys, l0, r0);
    FinalOfInitial(block);
  }

  /** Without any round the cipher only exchanges the halves, as FIPS 46-3 has it after the last round. */
  lemma EncipherNone(b: Boxes, block: bv64)
    ensures InitialLeft(Encipher(b, [], block)) == InitialRight(block)
    ensures InitialRight(Encipher(b, [], block)) == InitialLeft(block)
  {
    hide Final, InitialLeft, InitialRight, RotateLeft, RotateRight, Half;
    InitialHalves(block);
    RotateBack(InitialLeft(block));
    RotateBack(InitialRight(block));
    InitialOfFinal(InitialRight(block), InitialLeft(block));
  }

  /** One more key is one more round: the left half of what came out before, which is the right one before the exchange,
      stays the same and goes through the cipher function into the other. */
  lemma EncipherRound(b: Boxes, keys: seq<RoundKey>, k: RoundKey, block: bv64)
    requires Narrow(b)
    ensures var old0, new0 := Encipher(b, keys, block), Encipher(b, keys + [k], block);
            InitialRight(new0) == InitialLeft(old0) &&
            InitialLeft(new0) ==
            Xor(InitialRight(old0), RotateRight(F(b, RotateLeft(InitialLeft(old0)), k)))
  {
    hide Final, InitialLeft, InitialRight, RotateLeft, RotateRight, Half, Rounds, Narrow, F, Xor;
    var l0, r0 := RotateLeft(InitialLeft(block)), RotateLeft(InitialRight(block));
    InitialHalves(block);
    RotateBack(InitialLeft(block));
    RotateBack(InitialRight(block));
    RoundsHalf(b, keys, l0, r0);
    RoundsAppend(b, keys, k, l0, r0);
    var (l, r) := Rounds(b, keys, l0, r0);
    FHalf(b, r, k);
    var f := F(b, r, k);
    XorHalf(l, f);
    RotateBack(l);
    RotateBack(r);
    RotateBack(Xor(l, f));
    RotateXor(l, f);
    InitialOfFinal(RotateRight(r), RotateRight(l));
    InitialOfFinal(RotateRight(Xor(l, f)), RotateRight(r));
  }

  function LowestFirst(x: bv64): bv64 { (x & 1) << 31 }

  function OthersDown(x: bv64): bv64 { x >> 1 }

  lemma RotateParts(x: bv64)
    requires Half(x)
    ensures RotateRight(x) == Xor(LowestFirst(x), OthersDown(x))
  {}

  lemma LowestXor(x: bv64, y: bv64)
    ensures LowestFirst(Xor(x, y)) == Xor(LowestFirst(x), LowestFirst(y))
  {}

  lemma OthersXor(x: bv64, y: bv64)
    ensures OthersDown(Xor(x, y)) == Xor(OthersDown(x), OthersDown(y))
  {}

  lemma XorPairs(a: bv64, b: bv64, c: bv64, d: bv64)
    ensures Xor(Xor(a, b), Xor(c, d)) == Xor(Xor(a, c), Xor(b, d))
  {
    hide Xor;
    XorAssociates(a, b, Xor(c, d));
    XorAssociates(b, c, d);
    XorCommutes(b, c);
    XorAssociates(c, b, d);
    XorAssociates(a, c, Xor(b, d));
  }

  lemma XorAssociates(x: bv64, y: bv64, z: bv64)
    ensures Xor(Xor(x, y), z) == Xor(x, Xor(y, z))
  {}

  lemma XorCommutes(x: bv64, y: bv64)
    ensures Xor(x, y) == Xor(y, x)
  {}

  lemma RotateXor(x: bv64, y: bv64)
    requires Half(x) && Half(y)
    ensures RotateRight(Xor(x, y)) == Xor(RotateRight(x), RotateRight(y))
  {
    hide RotateRight, Xor, Half, LowestFirst, OthersDown;
    XorHalf(x, y);
    RotateParts(x);
    RotateParts(y);
    RotateParts(Xor(x, y));
    LowestXor(x, y);
    OthersXor(x, y);
    XorPairs(LowestFirst(x), LowestFirst(y), OthersDown(x), OthersDown(y));
  }

  // ------------------------------------------------------------ the code's form of the permutations

  function Difference4(a: bv64, b: bv64): bv64 { ((a >> 4) ^ b) & 0x0f0f0f0f }

  lemma Exchanged4(a: bv64, b: bv64)
    ensures Xor(a, Difference4(a, b) << 4) == (a & 0xffffffff0f0f0f0f) | ((b & 0x0f0f0f0f) << 4)
    ensures Xor(b, Difference4(a, b)) == (b & 0xfffffffff0f0f0f0) | ((a >> 4) & 0x0f0f0f0f)
  {}

  /** `a` gives up its bits in the mask shifted left by 4 in exchange for the bits of `b` in the mask. */
  method Exchange4(a0: bv64, b0: bv64) returns (a: bv64, b: bv64)
    ensures a == (a0 & 0xffffffff0f0f0f0f) | ((b0 & 0x0f0f0f0f) << 4)
    ensures b == (b0 & 0xfffffffff0f0f0f0) | ((a0 >> 4) & 0x0f0f0f0f)
  {
    hide Xor, Difference4;
    Exchanged4(a0, b0);
    var work := Difference4(a0, b0);
    b := Xor(b0, work);
    a := Xor(a0, work << 4);
  }

  function Difference16(a: bv64, b: bv64): bv64 { ((a >> 16) ^ b) & 0x0000ffff }

  lemma Exchanged16(a: bv64, b: bv64)
    ensures Xor(a, Difference16(a, b) << 16) == (a & 0xffffffff0000ffff) | ((b & 0x0000ffff) << 16)
    ensures Xor(b, Difference16(a, b)) == (b & 0xffffffffffff0000) | ((a >> 16) & 0x0000ffff)
  {}

  method Exchange16(a0: bv64, b0: bv64) returns (a: bv64, b: bv64)
    ensures a == (a0 & 0xffffffff0000ffff) | ((b0 & 0x0000ffff) << 16)
    ensures b == (b0 & 0xffffffffffff0000) | ((a0 >> 16) & 0x0000ffff)
  {
    hide Xor, Difference16;
    Exchanged16(a0, b0);
    var work := Difference16(a0, b0);
    b := Xor(b0, work);
    a := Xor(a0, work << 16);
  }

  function Difference2(a: bv64, b: bv64): bv64 { ((a >> 2) ^ b) & 0x33333333 }

  lemma Exchanged2(a: bv64, b: bv64)
    ensures Xor(a, Difference2(a, b) << 2) == (a & 0xffffffff33333333) | ((b & 0x33333333) << 2)
    ensures Xor(b, Difference2(a, b)) == (b & 0xffffffffcccccccc) | ((a >> 2) & 0x33333333)
  {}

  method Exchange2(a0: bv64, b0: bv64) returns (a: bv64, b: bv64)
    ensures a == (a0 & 0xffffffff33333333) | ((b0 & 0x33333333) << 2)
    ensures b == (b0 & 0xffffffffcccccccc) | ((a0 >> 2) & 0x33333333)
  {
    hide Xor, Difference2;
    Exchanged2(a0, b0);
    var work := Difference2(a0, b0);
    b := Xor(b0, work);
    a := Xor(a0, work << 2);
  }

  function Difference8(a: bv64, b: bv64): bv64 { ((a >> 8) ^ b) & 0x00ff00ff }

  lemma Exchanged8(a: bv64, b: bv64)
    ensures Xor(a, Difference8(a, b) << 8) == (a & 0xffffffff00ff00ff) | ((b & 0x00ff00ff) << 8)
    ensures Xor(b, Difference8(a, b)) == (b & 0xffffffffff00ff00) | ((a >> 8) & 0x00ff00ff)
  {}

  method Exchange8(a0: bv64, b0: bv64) returns (a: bv64, b: bv64)
    ensures a == (a0 & 0xffffffff00ff00ff) | ((b0 & 0x00ff00ff) << 8)
    ensures b == (b0 & 0xffffffffff00ff00) | ((a0 >> 8) & 0x00ff00ff)
  {
    hide Xor, Difference8;
    Exchanged8(a0, b0);
    var work := Difference8(a0, b0);
    b := Xor(b0, work);
    a := Xor(a0, work << 8);
  }

  /** The exchange in place of the odd bits. */
  method ExchangeOdd(a0: bv64, b0: bv64) returns (a: bv64, b: bv64)
    ensures a == (a0 & 0xffffffff55555555) | (b0 & 0xaaaaaaaa)
    ensures b == (b0 & 0xffffffff55555555) | (a0 & 0xaaaaaaaa)
  {
    var work := (a0 ^ b0) & 0xaaaaaaaa;
    a := a0 ^ work;
    b := b0 ^ work;
  }

  /** The prologue of desfunc is the initial permutation, each half turned by one place. */
  method Prologue(block0: bv64, block1: bv64) returns (leftt: bv64, right: bv64)
    requires Half(block0) && Half(block1)
    ensures leftt == RotateLeft(InitialLeft((block0 << 32) | block1))
    ensures right == RotateLeft(InitialRight((block0 << 32) | block1))
  {
    leftt, right := block0, block1;
    leftt, right := Exchange4(leftt, right);
    leftt, right := Exchange16(leftt, right);
    right, leftt := Exchange2(right, leftt);
    right, leftt := Exchange8(right, leftt);
    right := ((right << 1) | ((right >> 31) & 1)) & 0xffffffff;
    leftt, right := ExchangeOdd(leftt, right);
    leftt := ((leftt << 1) | ((leftt >> 31) & 1)) & 0xffffffff;
  }

  /** The epilogue of desfunc is the final permutation; above the low 32 bits the words hold rubbish. */
  method Epilogue(leftt0: bv64, right0: bv64) returns (block0: bv64, block1: bv64)
    requires Half(leftt0) && Half(right0)
    ensures (Low(block0) << 32) | Low(block1) == Final(RotateRight(right0), RotateRight(leftt0))
  {
    var leftt, right := leftt0, right0;
    right := (right << 31) | (right >> 1);
    leftt, right := ExchangeOdd(leftt, right);
    leftt := (leftt << 31) | (leftt >> 1);
    leftt, right := Exchange8(leftt, right);
    leftt, right := Exchange2(leftt, right);
    right, leftt := Exchange16(right, leftt);
    right, leftt := Exchange4(right, leftt);
    block0, block1 := right, leftt;
  }

  // ------------------------------------------------------------ cooked keys

  /** cookey: the six-bit groups 1, 3, 5 and 7 of a round key go to one word, 2, 4, 6 and 8 to the next. */
  function CookOdd(k: RoundKey): bv64 {
    ((k.first & 0x00fc0000) << 6) | ((k.first & 0x00000fc0) << 10) |
    ((k.second & 0x00fc0000) >> 10) | ((k.second & 0x00000fc0) >> 6)
  }

  function CookEven(k: RoundKey): bv64 {
    ((k.first & 0x0003f000) << 12) | ((k.first & 0x0000003f) << 16) |
    ((k.second & 0x0003f000) >> 4) | (k.second & 0x0000003f)
  }

  function Turn(right: bv64): bv64 { (right << 28) | (right >> 4) }

  function Byte0(work: bv64): bv64 { work & 0x3f }

  function Byte1(work: bv64): bv64 { (work >> 8) & 0x3f }

  function Byte2(work: bv64): bv64 { (work >> 16) & 0x3f }

  function Byte3(work: bv64): bv64 { (work >> 24) & 0x3f }

  /** A cooked word has one group in each byte, and nothing else. */
  lemma CookOddWord(k: RoundKey)
    ensures var w := CookOdd(k);
            Byte3(w) == Six(k.first >> 18) && Byte2(w) == Six(k.first >> 6) && Byte1(w) == Six(k.second >> 18) &&
            Byte0(w) == Six(k.second >> 6) && w & 0xffffffffc0c0c0c0 == 0
  {}

  lemma CookEvenWord(k: RoundKey)
    ensures var w := CookEven(k);
            Byte3(w) == Six(k.first >> 12) && Byte2(w) == Six(k.first) && Byte1(w) == Six(k.second >> 12) &&
            Byte0(w) == Six(k.second) && w & 0xffffffffc0c0c0c0 == 0
  {}

  /** What the shifts of desfunc select: the odd groups, then the even ones. */
  lemma OddGroups(right: bv64, k: RoundKey)
    requires Half(right)
    ensures var work, m := Xor(Turn(right), CookOdd(k)), Mixed(right, k);
            Byte0(work) == m.g7 && Byte1(work) == m.g5 && Byte2(work) == m.g3 && Byte3(work) == m.g1
  {
    OddGroupsLow(right, k);
    OddGroupsHigh(right, k);
    hide *;
  }

  lemma OddGroupsLow(right: bv64, k: RoundKey)
    requires Half(right)
    ensures var work, m := Xor(Turn(right), CookOdd(k)), Mixed(right, k); Byte0(work) == m.g7 && Byte1(work) == m.g5
  {}

  lemma OddGroupsHigh(right: bv64, k: RoundKey)
    requires Half(right)
    ensures var work, m := Xor(Turn(right), CookOdd(k)), Mixed(right, k); Byte2(work) == m.g3 && Byte3(work) == m.g1
  {}

  lemma EvenGroups(right: bv64, k: RoundKey)
    requires Half(right)
    ensures var work, m := Xor(right, CookEven(k)), Mixed(right, k);
            Byte0(work) == m.g8 && Byte1(work) == m.g6 && Byte2(work) == m.g4 && Byte3(work) == m.g2
  {}

  /** Half of the loop body of desfunc computes the cipher function. */
  method HalfRound(b: Boxes, ghost k: RoundKey, odd: bv64, even: bv64, right: bv64) returns (fval: bv64)
    requires Half(right) && odd == CookOdd(k) && even == CookEven(k)
    ensures fval == F(b, right, k)
  {
    hide Turn, Byte0, Byte1, Byte2, Byte3, Xor, Or, CookOdd, CookEven, Half, Mixed;
    OddGroups(right, k);
    EvenGroups(right, k);
    var work := Xor(Turn(right), odd);
    fval := b.sp7(Byte0(work));
    fval := Or(fval, b.sp5(Byte1(work)));
    fval := Or(fval, b.sp3(Byte2(work)));
    fval := Or(fval, b.sp1(Byte3(work)));
    work := Xor(right, even);
    fval := Or(fval, b.sp8(Byte0(work)));
    fval := Or(fval, b.sp6(Byte1(work)));
    fval := Or(fval, b.sp4(Byte2(work)));
    fval := Or(fval, b.sp2(Byte3(work)));
  }
}
