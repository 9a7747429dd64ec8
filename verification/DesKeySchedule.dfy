/** The key schedule of DES as rfbDesKey computes it, against the shift-by-shift definition of FIPS 46-3. */
module DesKeySchedule {
  import opened Des

  type keyBit = i: nat | i < 64

  type choiceBit = i: nat | i < 56

  const PC1: seq<keyBit> := [
    56, 48, 40, 32, 24, 16, 8, 0, 57, 49, 41, 33, 25, 17,
    9, 1, 58, 50, 42, 34, 26, 18, 10, 2, 59, 51, 43, 35,
    62, 54, 46, 38, 30, 22, 14, 6, 61, 53, 45, 37, 29, 21,
    13, 5, 60, 52, 44, 36, 28, 20, 12, 4, 27, 19, 11, 3]

  const TOTROT: seq<nat> := [1, 2, 4, 6, 8, 10, 12, 14, 15, 17, 19, 21, 23, 25, 27, 28]

  const PC2: seq<choiceBit> := [
    13, 16, 10, 23, 0, 4, 2, 27, 14, 5, 20, 9,
    22, 18, 11, 3, 25, 7, 15, 6, 26, 19, 12, 1,
    40, 51, 30, 36, 46, 54, 29, 39, 50, 44, 32, 47,
    43, 48, 38, 55, 33, 52, 45, 41, 49, 35, 28, 31]

  const BYTEBIT: seq<bv8> := [0x01, 0x02, 0x04, 0x08, 0x10, 0x20, 0x40, 0x80]

  type singleBit = x: bv64 | x != 0 && x & (x - 1) == 0 witness 1

  const BIGBYTE: seq<singleBit> := [
    0x800000, 0x400000, 0x200000, 0x100000, 0x80000, 0x40000, 0x20000, 0x10000,
    0x8000, 0x4000, 0x2000, 0x1000, 0x800, 0x400, 0x200, 0x100,
    0x80, 0x40, 0x20, 0x10, 0x8, 0x4, 0x2, 0x1]

  function Pc1(j: nat): keyBit
    requires j < 56
  {
    PC1[j]
  }

  function Pc2(j: nat): choiceBit
    requires j < 48
  {
    PC2[j]
  }

  function BigByte(j: nat): singleBit
    requires j < 24
  {
    BIGBYTE[j]
  }

  // ------------------------------------------------------------ specification

  /** Key bit `l`, each byte's lowest bit first: VNC reads the bytes of the key mirrored. */
  predicate KeyBit(key: seq<bv8>, l: keyBit)
    requires |key| == 8
  {
    key[l / 8] & BYTEBIT[l % 8] != 0
  }

  /** Bit `k` of byte `j`, counted from the lowest. */
  lemma KeyBitMirrored(key: seq<bv8>, j: nat, k: nat)
    requires |key| == 8 && j < 8 && k < 8
    ensures KeyBit(key, 8 * j + k) <==> (key[j] >> k) & 1 == 1
  {
    assert (8 * j + k) / 8 == j && (8 * j + k) % 8 == k;
    ByteBitShifted(key[j], k);
  }

  lemma ByteBitShifted(x: bv8, k: nat)
    requires k < 8
    ensures x & BYTEBIT[k] != 0 <==> (x >> k) & 1 == 1
  {
    if k < 4 {
      assert k == 0 || k == 1 || k == 2 || k == 3;
    } else {
      assert k == 4 || k == 5 || k == 6 || k == 7;
    }
  }

  /** The first `n` bits chosen by PC1. */
  function Choice(key: seq<bv8>, n: nat): (r: seq<bool>)
    requires |key| == 8 && n <= 56
    ensures |r| == n
  {
    if n == 0 then [] else Choice(key, n - 1) + [KeyBit(key, Pc1(n - 1))]
  }

  /** How far FIPS 46-3 shifts the halves C and D before round i + 1. */
  function Shift(i: nat): nat { if i == 0 || i == 1 || i == 8 || i == 15 then 1 else 2 }

  function Rotate<T>(s: seq<T>, n: nat): (r: seq<T>)
    requires n <= |s|
    ensures |r| == |s|
  {
    s[n..] + s[..n]
  }

  /** C followed by D, after `i` rounds of shifts. */
  function Halves(key: seq<bv8>, i: nat): (r: seq<bool>)
    requires |key| == 8
    ensures |r| == 56
  {
    if i == 0 then Choice(key, 56)
    else var cd := Halves(key, i - 1); Rotate(cd[..28], Shift(i - 1)) + Rotate(cd[28..], Shift(i - 1))
  }

  /** The word made of `n` of the bits PC2 picks from C and D, the first one at bit 23. */
  function Picked(cd: seq<bool>, base: nat, n: nat): bv64
    requires |cd| == 56 && base + n <= 48 && n <= 24
  {
    if n == 0 then 0
    else Or(Picked(cd, base, n - 1), if cd[Pc2(base + n - 1)] then BigByte(n - 1) else 0)
  }

  function KeyOf(key: seq<bv8>, i: nat): RoundKey
    requires |key| == 8
  {
    RoundKey(Picked(Halves(key, i + 1), 0, 24), Picked(Halves(key, i + 1), 24, 24))
  }

  /** The first `n` round keys. */
  function RoundKeys(key: seq<bv8>, n: nat): (r: seq<RoundKey>)
    requires |key| == 8
    ensures |r| == n && forall i :: 0 <= i < n ==> r[i] == KeyOf(key, i)
  {
    if n == 0 then [] else RoundKeys(key, n - 1) + [KeyOf(key, n - 1)]
  }

  datatype Mode = EN0 | DE1

  function Schedule(key: seq<bv8>, edf: Mode): (r: seq<RoundKey>)
    requires |key| == 8
    ensures |r| == 16
  {
    if edf == DE1 then Reverse(RoundKeys(key, 16)) else RoundKeys(key, 16)
  }

  /** Deciphering undoes enciphering, for every key and block. */
  lemma ScheduleInverts(b: Boxes, key: seq<bv8>, block: bv64)
    requires Narrow(b) && |key| == 8
    ensures Encipher(b, Schedule(key, DE1), Encipher(b, Schedule(key, EN0), block)) == block
    ensures Encipher(b, Schedule(key, EN0), Encipher(b, Schedule(key, DE1), block)) == block
  {
    hide RoundKeys, Encipher, Reverse, Narrow;
    EncipherReverse(b, RoundKeys(key, 16), block);
    EncipherReverse(b, Reverse(RoundKeys(key, 16)), block);
    ReverseTwice(RoundKeys(key, 16));
  }

  lemma ReverseTwice(keys: seq<RoundKey>)
    ensures Reverse(Reverse(keys)) == keys
  {
    hide Reverse;
  }

  // ------------------------------------------------------------ meaning of the words

  lemma NextBit(j: nat)
    requires j < 23
    ensures BigByte(j + 1) < BigByte(j)
  {}

  lemma {:induction false} BitsFall(jj: nat, j: nat)
    requires jj < j < 24
    ensures BigByte(j) < BigByte(jj)
    decreases j
  {
    hide BigByte;
    NextBit(j - 1);
    if jj >= j - 1 {
    } else {
      BitsFall(jj, j - 1);
    }
  }

  predicate HasBit(x: bv64, bit: singleBit) { x & bit != 0 }

  lemma DistinctBits(a: singleBit, b: singleBit)
    requires a < b
    ensures !HasBit(a, b) && !HasBit(b, a)
  {}

  lemma OneBit(bit: singleBit)
    ensures HasBit(bit, bit) && !HasBit(0, bit)
  {}

  lemma OrBit(x: bv64, y: bv64, bit: singleBit)
    ensures HasBit(Or(x, y), bit) <==> HasBit(x, bit) || HasBit(y, bit)
  {
    OrAnd(x, y, bit);
    OrZero(x & bit, y & bit);
    hide Or;
  }

  lemma OrAnd(x: bv64, y: bv64, z: bv64)
    ensures Or(x, y) & z == Or(x & z, y & z)
  {}

  lemma OrZero(x: bv64, y: bv64)
    ensures Or(x, y) == 0 <==> x == 0 && y == 0
  {}

  /** A picked word holds bit PC2[base + j] of C and D at place 23 - j. */
  lemma {:induction false} PickedBit(cd: seq<bool>, base: nat, n: nat, j: nat)
    requires |cd| == 56 && base + n <= 48 && n <= 24 && j < 24
    ensures HasBit(Picked(cd, base, n), BigByte(j)) <==> j < n && cd[Pc2(base + j)]
    decreases n
  {
    hide BigByte, Pc2, Or, HasBit;
    if n == 0 {
      NoBit(BigByte(j));
    } else {
      var chosen := if cd[Pc2(base + n - 1)] then BigByte(n - 1) else 0;
      PickedBit(cd, base, n - 1, j);
      OrBit(Picked(cd, base, n - 1), chosen, BigByte(j));
      NoBit(BigByte(j));
      PlaceBit(n - 1, j);
    }
  }

  lemma NoBit(b: singleBit)
    ensures !HasBit(0, b)
  {}

  /** The places of a raw word do not overlap. */
  lemma PlaceBit(i: nat, j: nat)
    requires i < 24 && j < 24
    ensures HasBit(BigByte(i), BigByte(j)) <==> i == j
  {
    hide BigByte, HasBit;
    OneBit(BigByte(j));
    if i > j {
      BitsFall(j, i);
      DistinctBits(BigByte(i), BigByte(j));
    } else if i < j {
      BitsFall(i, j);
      DistinctBits(BigByte(j), BigByte(i));
    }
  }

  /** Round key bit j of FIPS 46-3 is bit PC2[j] of C and D after the round's shifts. */
  lemma KeyBits(key: seq<bv8>, i: nat, j: nat)
    requires |key| == 8 && j < 24
    ensures HasBit(KeyOf(key, i).first, BigByte(j)) <==> Halves(key, i + 1)[Pc2(j)]
    ensures HasBit(KeyOf(key, i).second, BigByte(j)) <==> Halves(key, i + 1)[Pc2(24 + j)]
  {
    hide BigByte, Pc2, HasBit, Picked, Halves;
    PickedBit(Halves(key, i + 1), 0, 24, j);
    PickedBit(Halves(key, i + 1), 24, 24, j);
  }

  // ------------------------------------------------------------ the rotations

  lemma TotalShift(i: nat)
    requires i < 15
    ensures TOTROT[i] + Shift(i + 1) == TOTROT[i + 1] <= 28
  {}

  lemma RotateSum<T>(s: seq<T>, n: nat, k: nat)
    requires n + k <= |s|
    ensures Rotate(Rotate(s, n), k) == Rotate(s, n + k)
  {}

  /** The table `totrot` sums up the shifts. */
  lemma {:induction false} HalvesByTotal(key: seq<bv8>, i: nat)
    requires |key| == 8 && i < 16
    ensures TOTROT[i] <= 28
    ensures Halves(key, i + 1) == Rotate(Choice(key, 56)[..28], TOTROT[i]) + Rotate(Choice(key, 56)[28..], TOTROT[i])
  {
    hide Choice, Rotate;
    var c, d := Choice(key, 56)[..28], Choice(key, 56)[28..];
    if i == 0 {
      assert Halves(key, 0) == c + d;
    } else {
      TotalShift(i - 1);
      HalvesByTotal(key, i - 1);
      RotateSum(c, TOTROT[i - 1], Shift(i));
      RotateSum(d, TOTROT[i - 1], Shift(i));
      assert Halves(key, i)[..28] == Rotate(c, TOTROT[i - 1]) && Halves(key, i)[28..] == Rotate(d, TOTROT[i - 1]);
    }
  }

  // ------------------------------------------------------------ rfbDesKey

  /** The first loop: the 56 key bits PC1 chooses. */
  method ChooseBits(key: seq<bv8>) returns (pc1m: array<bool>)
    requires |key| == 8
    ensures fresh(pc1m) && pc1m[..] == Choice(key, 56)
  {
    hide Pc1, KeyBit;
    pc1m := new bool[56];
    for j := 0 to 56
      invariant pc1m[..j] == Choice(key, j)
    {
      var l := Pc1(j);
      pc1m[j] := KeyBit(key, l);
      assert pc1m[..j + 1] == pc1m[..j] + [pc1m[j]];
    }
    assert pc1m[..56] == pc1m[..];
  }

  /** The loops that turn both halves by `totrot[i]` places. */
  method TurnHalves(pc1m: array<bool>, pcr: array<bool>, total: nat)
    requires pc1m.Length == pcr.Length == 56 && total <= 28 && pc1m != pcr
    modifies pcr
    ensures pcr[..] == Rotate(pc1m[..28], total) + Rotate(pc1m[28..], total)
  {
    for j := 0 to 28
      invariant pcr[..j] == Rotate(pc1m[..28], total)[..j]
    {
      var l := j + total;
      pcr[j] := if l < 28 then pc1m[l] else pc1m[l - 28];
    }
    for j := 28 to 56
      invariant pcr[..28] == Rotate(pc1m[..28], total)
      invariant forall k :: 28 <= k < j ==> pcr[k] == Rotate(pc1m[28..], total)[k - 28]
    {
      var l := j + total;
      pcr[j] := if l < 56 then pc1m[l] else pc1m[l - 28];
    }
  }

  /** The last loop: two words of 24 bits. */
  method PickBits(pcr: array<bool>) returns (first: bv64, second: bv64)
    requires pcr.Length == 56
    ensures first == Picked(pcr[..], 0, 24) && second == Picked(pcr[..], 24, 24)
  {
    hide BigByte, Pc2, Or;
    first, second := 0, 0;
    for j := 0 to 24
      invariant first == Picked(pcr[..], 0, j) && second == Picked(pcr[..], 24, j)
    {
      OrNothing(first);
      OrNothing(second);
      if pcr[Pc2(j)] { first := Or(first, BigByte(j)); }
      if pcr[Pc2(j + 24)] { second := Or(second, BigByte(j)); }
    }
  }

  lemma OrNothing(x: bv64)
    ensures Or(x, 0) == x
  {}

  /** Word pair `i` of the raw keys. */
  ghost predicate RawAt(kn: seq<bv64>, i: nat, k: RoundKey) {
    2 * i + 1 < |kn| && kn[2 * i] == k.first && kn[2 * i + 1] == k.second
  }

  /** Word pair `i` of the key register. */
  ghost predicate CookedAt(knL: seq<bv64>, i: nat, k: RoundKey) {
    2 * i + 1 < |knL| && knL[2 * i] == CookOdd(k) && knL[2 * i + 1] == CookEven(k)
  }

  ghost predicate Loaded(knL: seq<bv64>, keys: seq<RoundKey>) {
    forall i: nat :: i < |keys| ==> CookedAt(knL, i, keys[i])
  }

  /** cookey, with the copy into the register. */
  method Cookey(raw: array<bv64>, knL: array<bv64>, ghost keys: seq<RoundKey>)
    requires raw.Length == knL.Length == 32 && |keys| == 16 && raw != knL
    requires forall i: nat :: i < 16 ==> RawAt(raw[..], i, keys[i])
    modifies knL
    ensures Loaded(knL[..], keys)
  {
    hide CookOdd, CookEven;
    var dough := new bv64[32];
    for i := 0 to 16
      invariant forall k: nat :: k < i ==> CookedAt(dough[..], k, keys[k])
    {
      assert RawAt(raw[..], i, keys[i]);
      var pair := RoundKey(raw[2 * i], raw[2 * i + 1]);
      ghost var before := dough[..];
      dough[2 * i] := CookOdd(pair);
      dough[2 * i + 1] := CookEven(pair);
      forall k: nat | k < i + 1 ensures CookedAt(dough[..], k, keys[k]) {
        assert k < i ==> CookedAt(before, k, keys[k]);
      }
    }
    ghost var cooked := dough[..];
    for i := 0 to 32
      invariant dough[..] == cooked && knL[..i] == dough[..i]
    {
      knL[i] := dough[i];
    }
    assert knL[..] == knL[..32] == dough[..32] == dough[..];
    forall k: nat | k < 16 ensures CookedAt(knL[..], k, keys[k]) {
      assert CookedAt(dough[..], k, keys[k]);
    }
  }

  /** Where the words of round `i` go. */
  function Slot(edf: Mode, i: nat): nat
    requires i < 16
  {
    if edf == DE1 then 15 - i else i
  }

  lemma SlotOf(key: seq<bv8>, edf: Mode, i: nat)
    requires |key| == 8 && i < 16
    ensures Schedule(key, edf)[i] == KeyOf(key, Slot(edf, i)) && Slot(edf, Slot(edf, i)) == i
  {
    hide KeyOf;
  }

  ghost predicate RawUpTo(kn: seq<bv64>, edf: Mode, key: seq<bv8>, n: nat)
    requires |key| == 8 && n <= 16
  {
    forall k: nat :: k < n ==> RawAt(kn, Slot(edf, k), KeyOf(key, k))
  }

  lemma RawNext(before: seq<bv64>, after: seq<bv64>, edf: Mode, key: seq<bv8>, n: nat)
    requires |key| == 8 && n < 16 && |before| == 32 && RawUpTo(before, edf, key, n)
    requires var m := 2 * Slot(edf, n); after == before[m := KeyOf(key, n).first][m + 1 := KeyOf(key, n).second]
    ensures RawUpTo(after, edf, key, n + 1)
  {
    hide KeyOf;
    forall k: nat | k < n + 1 ensures RawAt(after, Slot(edf, k), KeyOf(key, k)) {
      assert k < n ==> RawAt(before, Slot(edf, k), KeyOf(key, k));
    }
  }

  lemma RawComplete(kn: seq<bv64>, edf: Mode, key: seq<bv8>)
    requires |key| == 8 && RawUpTo(kn, edf, key, 16)
    ensures forall i: nat :: i < 16 ==> RawAt(kn, i, Schedule(key, edf)[i])
  {
    hide KeyOf, RawAt, Schedule;
    forall i: nat | i < 16 ensures RawAt(kn, i, Schedule(key, edf)[i]) {
      SlotOf(key, edf, i);
      assert RawAt(kn, Slot(edf, Slot(edf, i)), KeyOf(key, Slot(edf, i)));
    }
  }

  /** rfbDesKey: afterwards the register holds the schedule of `key`. */
  method DesKey(key: seq<bv8>, edf: Mode, knL: array<bv64>)
    requires |key| == 8 && knL.Length == 32
    modifies knL
    ensures Loaded(knL[..], Schedule(key, edf))
  {
    hide Schedule, Choice, Rotate, Picked, Loaded, RawUpTo, RawAt, Halves;
    var pc1m := ChooseBits(key);
    var pcr, kn := new bool[56], new bv64[32];
    NoneRaw(kn[..], edf, key);
    for i := 0 to 16
      invariant pc1m[..] == Choice(key, 56)
      invariant RawUpTo(kn[..], edf, key, i)
    {
      HalvesByTotal(key, i);
      TurnHalves(pc1m, pcr, TOTROT[i]);
      var m := 2 * Slot(edf, i);
      ghost var before := kn[..];
      kn[m], kn[m + 1] := PickBits(pcr);
      RawNext(before, kn[..], edf, key, i);
    }
    RawComplete(kn[..], edf, key);
    Cookey(kn, knL, Schedule(key, edf));
  }

  lemma NoneRaw(kn: seq<bv64>, edf: Mode, key: seq<bv8>)
    requires |key| == 8
    ensures RawUpTo(kn, edf, key, 0)
  {}
}
