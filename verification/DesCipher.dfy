/** rfbDes on the key register, and the block loops of crypto_included.c. */
module DesCipher {
  import opened Des
  import opened DesKeySchedule

  // ------------------------------------------------------------ blocks as bytes

  function Word(s0: bv8, s1: bv8, s2: bv8, s3: bv8): (r: bv64) {
    ((s0 as bv64) << 24) | ((s1 as bv64) << 16) | ((s2 as bv64) << 8) | (s3 as bv64)
  }

  function Join(w0: bv64, w1: bv64): bv64 { (w0 << 32) | w1 }

  /** Eight bytes as a block, the first byte highest. */
  function Block(s: seq<bv8>): bv64
    requires |s| == 8
  {
    Join(Word(s[0], s[1], s[2], s[3]), Word(s[4], s[5], s[6], s[7]))
  }

  function Octet(x: bv64): bv8 { (x & 0xff) as bv8 }

  /** The low 32 bits as bytes. */
  function Four(w: bv64): (r: seq<bv8>)
    ensures |r| == 4
  {
    [Octet(w >> 24), Octet(w >> 16), Octet(w >> 8), Octet(w)]
  }

  function High(x: bv64): bv64 { x >> 32 }

  function Octets(x: bv64): (r: seq<bv8>)
    ensures |r| == 8
  {
    Four(High(x)) + Four(x)
  }

  lemma WordHalf(s0: bv8, s1: bv8, s2: bv8, s3: bv8)
    ensures Half(Word(s0, s1, s2, s3))
  {}

  lemma FourOfWord(s0: bv8, s1: bv8, s2: bv8, s3: bv8)
    ensures Four(Word(s0, s1, s2, s3)) == [s0, s1, s2, s3]
  {
    WordBytes(s0, s1, s2, s3);
    hide Octet, Word;
  }

  lemma WordBytes(s0: bv8, s1: bv8, s2: bv8, s3: bv8)
    ensures var w := Word(s0, s1, s2, s3);
            Octet(w >> 24) == s0 && Octet(w >> 16) == s1 && Octet(w >> 8) == s2 && Octet(w) == s3
  {}

  lemma HighOfJoin(w0: bv64, w1: bv64)
    requires Half(w1) && Half(w0)
    ensures High(Join(w0, w1)) == w0
  {}

  lemma LowOfJoin(w0: bv64, w1: bv64)
    requires Half(w1)
    ensures Low(Join(w0, w1)) == w1
  {}

  lemma LowHalf(w: bv64)
    ensures Half(Low(w)) && Half(High(w)) && Join(High(w), Low(w)) == w
    ensures Half(w) ==> Low(w) == w
  {}

  lemma OctetLow(w: bv64)
    ensures Octet(Low(w) >> 24) == Octet(w >> 24) && Octet(Low(w) >> 16) == Octet(w >> 16)
    ensures Octet(Low(w) >> 8) == Octet(w >> 8) && Octet(Low(w)) == Octet(w)
  {}

  lemma FourLow(w: bv64)
    ensures Four(Low(w)) == Four(w)
  {
    OctetLow(w);
    hide Octet, Low;
  }

  lemma OctetsOfJoin(w0: bv64, w1: bv64)
    requires Half(w0) && Half(w1)
    ensures Octets(Join(w0, w1)) == Four(w0) + Four(w1)
  {
    hide Octet, Join, Low, Four, High, Half;
    HighOfJoin(w0, w1);
    LowOfJoin(w0, w1);
    FourLow(Join(w0, w1));
  }

  lemma OctetsOfBlock(s: seq<bv8>)
    requires |s| == 8
    ensures Octets(Block(s)) == s
  {
    hide Octets, Join, Word, Four, Half;
    WordHalf(s[0], s[1], s[2], s[3]);
    WordHalf(s[4], s[5], s[6], s[7]);
    OctetsOfJoin(Word(s[0], s[1], s[2], s[3]), Word(s[4], s[5], s[6], s[7]));
    FourOfWord(s[0], s[1], s[2], s[3]);
    FourOfWord(s[4], s[5], s[6], s[7]);
  }

  function Whole(s: seq<bv8>): bv64
    requires |s| == 4
  {
    Word(s[0], s[1], s[2], s[3])
  }

  lemma WordOfFour(w: bv64)
    ensures Whole(Four(w)) == Low(w)
  {}

  lemma BlockOfOctets(x: bv64)
    ensures Block(Octets(x)) == x
  {
    hide Join, Low, Word, High, Half, Four;
    WordOfFour(High(x));
    WordOfFour(x);
    LowHalf(x);
    LowHalf(High(x));
  }

  /** unscrun reads the low 32 bits of each word. */
  lemma OctetsOfWords(w0: bv64, w1: bv64)
    ensures Octets(Join(Low(w0), Low(w1))) == Four(w0) + Four(w1)
  {
    hide Octets, Join, Low, Four, Half;
    LowHalf(w0);
    LowHalf(w1);
    OctetsOfJoin(Low(w0), Low(w1));
    FourLow(w0);
    FourLow(w1);
  }

  // ------------------------------------------------------------ specification

  function EncipherBytes(b: Boxes, keys: seq<RoundKey>, s: seq<bv8>): (r: seq<bv8>)
    requires |s| == 8
    ensures |r| == 8
  {
    Octets(Encipher(b, keys, Block(s)))
  }

  /** The bytes of a block are enciphered as the block. */
  lemma EncipheredBlock(b: Boxes, keys: seq<RoundKey>, s: seq<bv8>)
    requires |s| == 8
    ensures Block(EncipherBytes(b, keys, s)) == Encipher(b, keys, Block(s))
  {
    hide Encipher, Octets, Block;
    BlockOfOctets(Encipher(b, keys, Block(s)));
  }

  /** The first four bytes are the high half of a block, the last four the low half. */
  lemma BlockHalves(s: seq<bv8>)
    requires |s| == 8
    ensures High(Block(s)) == Word(s[0], s[1], s[2], s[3]) && Low(Block(s)) == Word(s[4], s[5], s[6], s[7])
  {
    hide High, Low, Join, Word, Half;
    WordHalf(s[0], s[1], s[2], s[3]);
    WordHalf(s[4], s[5], s[6], s[7]);
    HighOfJoin(Word(s[0], s[1], s[2], s[3]), Word(s[4], s[5], s[6], s[7]));
    LowOfJoin(Word(s[0], s[1], s[2], s[3]), Word(s[4], s[5], s[6], s[7]));
  }

  /** One block enciphered and then deciphered, or the other way round. */
  lemma BytesInvert(b: Boxes, key: seq<bv8>, s: seq<bv8>)
    requires Narrow(b) && |key| == |s| == 8
    ensures EncipherBytes(b, Schedule(key, DE1), EncipherBytes(b, Schedule(key, EN0), s)) == s
    ensures EncipherBytes(b, Schedule(key, EN0), EncipherBytes(b, Schedule(key, DE1), s)) == s
  {
    hide Narrow, Schedule, Encipher, Block, Octets;
    ScheduleInverts(b, key, Block(s));
    BlockOfOctets(Encipher(b, Schedule(key, EN0), Block(s)));
    BlockOfOctets(Encipher(b, Schedule(key, DE1), Block(s)));
    OctetsOfBlock(s);
  }

  /** Block by block; a rest of less than a block is left out. */
  function Ecb(b: Boxes, keys: seq<RoundKey>, s: seq<bv8>): (r: seq<bv8>)
    ensures |r| == |s| / 8 * 8
    decreases |s|
  {
    if |s| < 8 then [] else EncipherBytes(b, keys, s[..8]) + Ecb(b, keys, s[8..])
  }

  lemma {:induction false} EcbInverts(b: Boxes, key: seq<bv8>, s: seq<bv8>)
    requires Narrow(b) && |key| == 8 && |s| % 8 == 0
    ensures Ecb(b, Schedule(key, DE1), Ecb(b, Schedule(key, EN0), s)) == s
    decreases |s|
  {
    hide Narrow, Schedule, EncipherBytes;
    if |s| < 8 {
    } else {
      BytesInvert(b, key, s[..8]);
      EcbInverts(b, key, s[8..]);
      var c := Ecb(b, Schedule(key, EN0), s);
      assert c[..8] == EncipherBytes(b, Schedule(key, EN0), s[..8]) && c[8..] == Ecb(b, Schedule(key, EN0), s[8..]);
    }
  }

  /** Block `i` alone decides block `i` of the result. */
  lemma {:induction false} EcbBlock(b: Boxes, keys: seq<RoundKey>, s: seq<bv8>, i: nat)
    requires 8 * i + 8 <= |s|
    ensures 8 * i + 8 <= |Ecb(b, keys, s)|
    ensures Ecb(b, keys, s)[8 * i..8 * i + 8] == EncipherBytes(b, keys, s[8 * i..8 * i + 8])
    decreases i
  {
    hide EncipherBytes;
    var r := Ecb(b, keys, s);
    assert r == EncipherBytes(b, keys, s[..8]) + Ecb(b, keys, s[8..]);
    if i == 0 {
    } else {
      EcbBlock(b, keys, s[8..], i - 1);
      assert s[8 * i..8 * i + 8] == s[8..][8 * (i - 1)..8 * (i - 1) + 8];
      assert r[8 * i..8 * i + 8] == Ecb(b, keys, s[8..])[8 * (i - 1)..8 * (i - 1) + 8];
    }
  }

  // ------------------------------------------------------------ the key register

  /** The static key register of d3des.c, with the tables it is used with. */
  class Register {
    const boxes: Boxes
    const knL: array<bv64>

    constructor (boxes: Boxes)
      ensures this.boxes == boxes && fresh(knL) && knL.Length == 32
    {
      this.boxes := boxes;
      knL := new bv64[32];
    }

    /** The eight iterations of desfunc, two rounds each. */
    method TwoByTwo(leftt0: bv64, right0: bv64, ghost keys: seq<RoundKey>) returns (leftt: bv64, right: bv64)
      requires Narrow(boxes) && Half(leftt0) && Half(right0) && |keys| == 16
      requires knL.Length == 32 && Loaded(knL[..], keys)
      ensures Half(leftt) && Half(right) && (leftt, right) == Rounds(boxes, keys, leftt0, right0)
    {
      hide F, Xor, Half, Narrow, CookOdd, CookEven;
      leftt, right := leftt0, right0;
      for round := 0 to 8
        invariant Half(leftt) && Half(right)
        invariant Rounds(boxes, keys[2 * round..], leftt, right) == Rounds(boxes, keys, leftt0, right0)
      {
        ghost var k0, k1 := keys[2 * round], keys[2 * round + 1];
        assert CookedAt(knL[..], 2 * round, k0) && CookedAt(knL[..], 2 * round + 1, k1);
        assert keys[2 * round..][1..] == keys[2 * round + 1..] && keys[2 * round + 1..][1..] == keys[2 * (round + 1)..];
        var fval := HalfRound(boxes, k0, knL[4 * round], knL[4 * round + 1], right);
        FHalf(boxes, right, k0);
        XorHalf(leftt, fval);
        leftt := Xor(leftt, fval);
        fval := HalfRound(boxes, k1, knL[4 * round + 2], knL[4 * round + 3], leftt);
        FHalf(boxes, leftt, k1);
        XorHalf(right, fval);
        right := Xor(right, fval);
      }
      assert keys[16..] == [];
    }

    /** desfunc; the low 32 bits of the two words are the enciphered block. */
    method Transform(block0: bv64, block1: bv64, ghost keys: seq<RoundKey>) returns (out0: bv64, out1: bv64)
      requires Narrow(boxes) && |keys| == 16 && knL.Length == 32 && Loaded(knL[..], keys)
      requires Half(block0) && Half(block1)
      ensures Join(Low(out0), Low(out1)) == Encipher(boxes, keys, Join(block0, block1))
    {
      hide RotateLeft, RotateRight, InitialLeft, InitialRight, Final, Half, Rounds, Loaded, Narrow, Low;
      var leftt, right := Prologue(block0, block1);
      InitialHalves(Join(block0, block1));
      RotateBack(InitialLeft(Join(block0, block1)));
      RotateBack(InitialRight(Join(block0, block1)));
      leftt, right := TwoByTwo(leftt, right, keys);
      out0, out1 := Epilogue(leftt, right);
    }

    /** rfbDes: the block at `inblock[i..]` goes to `outblock[o..]`; the two may overlap. */
    method Des(inblock: array<bv8>, i: nat, outblock: array<bv8>, o: nat, ghost keys: seq<RoundKey>)
      requires Narrow(boxes) && |keys| == 16 && knL.Length == 32 && Loaded(knL[..], keys)
      requires i + 8 <= inblock.Length && o + 8 <= outblock.Length
      modifies outblock
      ensures Replaced(outblock[..], old(outblock[..]), o, EncipherBytes(boxes, keys, old(inblock[i..i + 8])))
    {
      hide Loaded, Narrow, Low, Encipher, Join, Replaced;
      var block0, block1 := Scrunch(inblock, i);
      block0, block1 := Transform(block0, block1, keys);
      ghost var was := outblock[..];
      Unscrun(block0, block1, outblock, o);
      EightReplaced(outblock[..], was, o, Octets(Join(Low(block0), Low(block1))));
    }
  }

  /** The elements from `at` on have been replaced by `c`. */
  ghost predicate Replaced(next: seq<bv8>, now: seq<bv8>, at: nat, c: seq<bv8>) {
    at + |c| <= |now| && next == now[..at] + c + now[at + |c|..]
  }

  lemma EightReplaced(next: seq<bv8>, now: seq<bv8>, at: nat, c: seq<bv8>)
    requires at + 8 <= |now| && |c| == 8 && next == now[..at] + c + now[at + 8..]
    ensures Replaced(next, now, at, c)
  {}

  method Scrunch(outof: array<bv8>, i: nat) returns (into0: bv64, into1: bv64)
    requires i + 8 <= outof.Length
    ensures Half(into0) && Half(into1) && Join(into0, into1) == Block(outof[i..i + 8])
  {
    hide Word, Join, Half;
    into0 := Word(outof[i], outof[i + 1], outof[i + 2], outof[i + 3]);
    into1 := Word(outof[i + 4], outof[i + 5], outof[i + 6], outof[i + 7]);
    WordHalf(outof[i], outof[i + 1], outof[i + 2], outof[i + 3]);
    WordHalf(outof[i + 4], outof[i + 5], outof[i + 6], outof[i + 7]);
  }

  /** unscrun, which looks only at the low 32 bits of each word. */
  method Unscrun(outof0: bv64, outof1: bv64, into: array<bv8>, o: nat)
    requires o + 8 <= into.Length
    modifies into
    ensures into[..] == old(into[..o]) + Octets(Join(Low(outof0), Low(outof1))) + old(into[o + 8..])
  {
    hide Octet, Join, Low, Octets;
    OctetsOfWords(outof0, outof1);
    into[o] := Octet(outof0 >> 24);
    into[o + 1] := Octet(outof0 >> 16);
    into[o + 2] := Octet(outof0 >> 8);
    into[o + 3] := Octet(outof0);
    into[o + 4] := Octet(outof1 >> 24);
    into[o + 5] := Octet(outof1 >> 16);
    into[o + 6] := Octet(outof1 >> 8);
    into[o + 7] := Octet(outof1);
  }
}
