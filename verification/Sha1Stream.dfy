/** The streaming interface of sha1.c: whatever way a message is split, the digest is that of the whole. */
module Sha1Stream {
  import opened Bytes
  import opened Sha1

  datatype Code = ShaSuccess | ShaNull | ShaInputTooLong | ShaStateError

  const HASH_SIZE := 20

  function WordsOf(s: seq<bv32>): Words
    requires |s| == 5
  {
    Words(s[0], s[1], s[2], s[3], s[4])
  }

  /** The two length words hold the number of bits of `n` bytes. */
  ghost predicate Counts(high: nat, low: nat, n: nat) {
    low < TWO32 && high < TWO32 && high * TWO32 + low == 8 * n
  }

  /** The length words after eight more bits. */
  function NextLow(low: nat): nat { (low + 8) % TWO32 }

  function Carries(low: nat): bool { low + 8 >= TWO32 }

  function NextHigh(high: nat, low: nat): nat { if Carries(low) then (high + 1) % TWO32 else high }

  /** The last bytes of `m` are waiting, and all blocks before them are in `h`. */
  ghost predicate Held(m: seq<bv8>, h: Words, waiting: seq<bv8>) {
    |waiting| == |m| % 64 && waiting == m[|m| - |waiting|..] && h == Chain(INITIAL, m[..|m| - |waiting|])
  }

  lemma HeldMore(m: seq<bv8>, b: bv8, h: Words, waiting: seq<bv8>)
    requires Held(m, h, waiting) && |waiting| < 63
    ensures Held(m + [b], h, waiting + [b])
  {
    var full := |m| - |waiting|;
    assert (m + [b])[full..] == m[full..] + [b] && (m + [b])[..full] == m[..full];
  }

  lemma HeldFull(m: seq<bv8>, b: bv8, h: Words, waiting: seq<bv8>)
    requires Held(m, h, waiting) && |waiting| == 63
    ensures Held(m + [b], Compress(h, waiting + [b]), [])
  {
    hide Compress, Chain;
    var full := |m| - |waiting|;
    ChainNext(INITIAL, m[..full], waiting + [b]);
    assert m[..full] + (waiting + [b]) == m + [b] == (m + [b])[..|m| + 1];
  }

  class SHA1Context {
    const hash: array<bv32>
    const block: array<bv8>
    var index: nat
    var high: nat
    var low: nat
    var computed: bool
    var corrupted: Code
    /** What was put in since the last reset. */
    ghost var message: seq<bv8>

    ghost predicate Shape()
      reads this
    {
      hash.Length == 5 && block.Length == 64 && high < TWO32 && low < TWO32
    }

    /** The last bytes wait in the block, all blocks before them are in the hash, and the two length words hold
        the number of bits. */
    ghost predicate Taking()
      reads this, hash, block
    {
      Shape() && !computed && corrupted == ShaSuccess &&
      index == |message| % 64 && Counts(high, low, |message|) &&
      Held(message, WordsOf(hash[..]), block[..index])
    }

    ghost predicate Done()
      reads this, hash
    {
      Shape() && computed && corrupted == ShaSuccess && WordsOf(hash[..]) == Chain(INITIAL, Padded(message))
    }

    constructor ()
      ensures Shape() && fresh(hash) && fresh(block)
    {
      hash, block := new bv32[5], new bv8[64];
      index, high, low, computed, corrupted, message := 0, 0, 0, false, ShaSuccess, [];
    }

    method Reset() returns (r: Code)
      requires Shape()
      modifies this, hash
      ensures r == ShaSuccess && Taking() && message == []
    {
      high, low, index := 0, 0, 0;
      hash[0], hash[1], hash[2], hash[3], hash[4] := 0x67452301, 0xEFCDAB89, 0x98BADCFE, 0x10325476, 0xC3D2E1F0;
      computed, corrupted, message := false, ShaSuccess, [];
      return ShaSuccess;
    }

    /** SHA1ProcessMessageBlock. */
    method ProcessMessageBlock()
      requires Shape()
      modifies hash, this`index
      ensures WordsOf(hash[..]) == Compress(old(WordsOf(hash[..])), block[..]) && index == 0
    {
      hide Steps, W, Plus;
      var w := Schedule(block[..]);
      var s := EightySteps(w, Words(hash[0], hash[1], hash[2], hash[3], hash[4]), block[..]);
      hash[0] := Plus(hash[0], s.a);
      hash[1] := Plus(hash[1], s.b);
      hash[2] := Plus(hash[2], s.c);
      hash[3] := Plus(hash[3], s.d);
      hash[4] := Plus(hash[4], s.e);
      index := 0;
    }

    /** SHA1AddLength(context, 8): the carry, and the error when the upper word wraps too. */
    method AddLength8() returns (r: Code)
      requires high < TWO32 && low < TWO32
      modifies this`low, this`high, this`corrupted
      ensures low == NextLow(old(low)) && high == NextHigh(old(high), old(low))
      ensures r == corrupted == if Carries(old(low)) && old(high) + 1 == TWO32 then ShaInputTooLong else old(corrupted)
    {
      var addTemp := low;
      low := (low + 8) % TWO32;
      if low < addTemp {
        high := (high + 1) % TWO32;
        if high == 0 { corrupted := ShaInputTooLong; }
      }
      return corrupted;
    }

    /** The loop body of SHA1Input: one byte of a message shorter than 2^61 bytes. */
    method InputByte(b: bv8)
      requires Taking() && |message| + 1 < 0x2000_0000_0000_0000
      modifies this, hash, block
      ensures Taking() && message == old(message) + [b]
    {
      hide Chain, Compress, Held, WordsOf, Counts, NextLow, NextHigh, Carries;
      ghost var h, waiting := WordsOf(hash[..]), block[..index];
      AddLengthExact(high, low, |message|);
      OneMoreByte(|message|);
      PutByte(b);
      ghost var m := message;
      message := message + [b];
      var r := AddLength8();
      if r == ShaSuccess && index == 64 {
        HeldFull(m, b, h, waiting);
        assert block[..] == block[..index];
        ProcessMessageBlock();
        assert block[..0] == [];
      } else {
        HeldMore(m, b, h, waiting);
      }
    }

    /** SHA1Input: after the result has been taken, or after an error, only an error code. */
    method Input(messageArray: array?<bv8>, length: nat) returns (r: Code)
      requires Taking() || Done() || (Shape() && corrupted != ShaSuccess)
      requires messageArray != null ==> length <= messageArray.Length && messageArray != block
      requires |message| + length < 0x2000_0000_0000_0000
      modifies this, hash, block
      ensures length == 0 || messageArray == null ==>
                r == (if length == 0 then ShaSuccess else ShaNull) && corrupted == old(corrupted) &&
                computed == old(computed)
      ensures length > 0 && messageArray != null && old(computed) ==> r == corrupted == ShaStateError
      ensures length > 0 && messageArray != null && old(!computed && corrupted != ShaSuccess) ==>
              r == corrupted == old(corrupted)
      ensures old(Taking()) && length > 0 && messageArray != null ==>
                r == ShaSuccess && Taking() && message == old(message) + messageArray[..length]
      ensures old(Taking()) && (length == 0 || messageArray == null) ==> Taking() && message == old(message)
    {
      hide Chain;
      if length == 0 { return ShaSuccess; }
      if messageArray == null { return ShaNull; }
      if computed {
        corrupted := ShaStateError;
        return ShaStateError;
      }
      if corrupted != ShaSuccess { return corrupted; }
      ghost var data := messageArray[..length];
      for i := 0 to length
        invariant Taking() && messageArray[..length] == data && message == old(message) + data[..i]
      {
        assert data[..i + 1] == data[..i] + [data[i]];
        InputByte(messageArray[i]);
      }
      assert data[..length] == data;
      return corrupted;
    }

    /** The loops of SHA1PadMessage that fill the block with zeros. */
    method FillZeros(limit: nat)
      requires Shape() && index <= limit <= 64
      modifies block, this`index
      ensures block[..limit] == old(block[..index]) + Repeat(0, limit - old(index)) && index == limit
    {
      while index < limit
        invariant old(index) <= index <= limit
        invariant block[..old(index)] == old(block[..index])
        invariant forall k :: old(index) <= k < index ==> block[k] == 0
      {
        block[index] := 0;
        index := index + 1;
      }
    }

    method StoreWord(at: nat, x: nat)
      requires Shape() && at + 4 <= 64
      modifies block
      ensures block[..] == old(block[..at]) + Bytes4(x) + old(block[at + 4..])
    {
      hide Low8;
      block[at] := Low8(x / 0x1000000);
      block[at + 1] := Low8(x / 0x10000);
      block[at + 2] := Low8(x / 0x100);
      block[at + 3] := Low8(x);
    }

    /** The message length as the last eight bytes. */
    method StoreLength()
      requires Shape()
      modifies block
      ensures block[..] == old(block[..56]) + (Bytes4(high) + Bytes4(low))
    {
      hide Bytes4;
      StoreWord(56, high);
      StoreWord(60, low);
    }

    method PutByte(b: bv8)
      requires Shape() && index < 64
      modifies block, this`index
      ensures index == old(index) + 1 && block[..index] == old(block[..index]) + [b]
    {
      block[index] := b;
      index := index + 1;
    }

    /** SHA1PadMessage: one more block, or two. */
    method PadMessage(padByte: bv8)
      requires Taking()
      modifies hash, block, this`index
      ensures WordsOf(hash[..]) == Chain(INITIAL, message + [padByte] + Repeat(0, Zeros(|message|)) +
                                         (Bytes4(high) + Bytes4(low)))
    {
      hide Chain, Compress, WordsOf, Bytes4, Held;
      ghost var h, waiting, i := WordsOf(hash[..]), block[..index], index;
      ghost var length := Bytes4(high) + Bytes4(low);
      HeldLength(message, h, waiting);
      if index >= 64 - 8 {
        PutByte(padByte);
        FillZeros(64);
        assert block[..] == block[..64] == waiting + [padByte] + Repeat(0, 63 - i);
        ProcessMessageBlock();
        assert block[..0] == [];
        FillZeros(56);
        StoreLength();
        assert block[..] == Repeat(0, 56) + length;
        ProcessMessageBlock();
        PadTwo(message, h, waiting, padByte, length);
      } else {
        PutByte(padByte);
        FillZeros(56);
        StoreLength();
        assert block[..] == waiting + [padByte] + Repeat(0, 55 - i) + length;
        ProcessMessageBlock();
        PadOne(message, h, waiting, padByte, length);
      }
    }

    /** SHA1Finalize, with the marker byte of a message of whole bytes. */
    method Finalize(padByte: bv8)
      requires Taking() && padByte == 0x80
      modifies this, hash, block
      ensures Done() && message == old(message)
    {
      hide Chain, WordsOf, Held, Bytes4, Zeros;
      LengthWords(high, low, |message|);
      PadMessage(padByte);
      for i := 0 to 64
        invariant Shape() && message == old(message) && corrupted == ShaSuccess
        invariant WordsOf(hash[..]) == Chain(INITIAL, Padded(message))
      {
        block[i] := 0;
      }
      high, low := 0, 0;
      computed := true;
    }

    /** SHA1Result: the digest of everything put in, as often as it is asked for. */
    method Result(messageDigest: array<bv8>) returns (r: Code)
      requires Taking() || Done() || (Shape() && corrupted != ShaSuccess)
      requires messageDigest.Length == HASH_SIZE && messageDigest != block
      modifies this, hash, block, messageDigest
      ensures old(corrupted) != ShaSuccess ==> r == corrupted == old(corrupted) &&
                                               messageDigest[..] == old(messageDigest[..])
      ensures old(corrupted) == ShaSuccess ==>
                r == ShaSuccess && Done() && message == old(message) && messageDigest[..] == Digest(message)
    {
      hide Chain, Held, Padded, WordByte;
      if corrupted != ShaSuccess { return corrupted; }
      if !computed { Finalize(0x80); }
      for i := 0 to 20
        invariant Done() && message == old(message)
        invariant forall k :: 0 <= k < i ==> messageDigest[k] == WordByte(hash[k / 4], k % 4)
      {
        messageDigest[i] := WordByte(hash[i / 4], i % 4);
      }
      DigestByBytes(hash[..], messageDigest[..]);
      return ShaSuccess;
    }
  }

  lemma HeldLength(m: seq<bv8>, h: Words, waiting: seq<bv8>)
    requires Held(m, h, waiting)
    ensures |waiting| == |m| % 64 && waiting == m[|m| - |waiting|..] && h == Chain(INITIAL, m[..|m| - |waiting|])
    ensures (|m| - |waiting|) % 64 == 0
    ensures Zeros(|m|) == if |waiting| >= 56 then 119 - |waiting| else 55 - |waiting|
  {}

  lemma ChainOne(h: Words, full: seq<bv8>, next: seq<bv8>)
    requires |full| % 64 == 0 && |next| == 64 && h == Chain(INITIAL, full)
    ensures |full + next| % 64 == 0 && Compress(h, next) == Chain(INITIAL, full + next)
  {
    hide Chain, Compress;
    ChainNext(INITIAL, full, next);
  }

  lemma PadOne(m: seq<bv8>, h: Words, waiting: seq<bv8>, padByte: bv8, length: seq<bv8>)
    requires Held(m, h, waiting) && |waiting| < 56 && |length| == 8
    ensures Compress(h, waiting + [padByte] + Repeat(0, 55 - |waiting|) + length)
            == Chain(INITIAL, m + [padByte] + Repeat(0, Zeros(|m|)) + length)
  {
    hide *;
    HeldLength(m, h, waiting);
    var full := m[..|m| - |waiting|];
    var z := Repeat(0, 55 - |waiting|);
    assert m == full + waiting;
    ChainOne(h, full, waiting + [padByte] + z + length);
    Regroup(full, waiting, [padByte], z, length);
  }

  lemma Regroup(full: seq<bv8>, waiting: seq<bv8>, p: seq<bv8>, z: seq<bv8>, l: seq<bv8>)
    ensures full + (waiting + p + z + l) == (full + waiting) + p + z + l
  {}

  lemma PadTwo(m: seq<bv8>, h: Words, waiting: seq<bv8>, padByte: bv8, length: seq<bv8>)
    requires Held(m, h, waiting) && |waiting| >= 56 && |length| == 8 && |waiting| < 64
    ensures Compress(Compress(h, waiting + [padByte] + Repeat(0, 63 - |waiting|)), Repeat(0, 56) + length)
            == Chain(INITIAL, m + [padByte] + Repeat(0, Zeros(|m|)) + length)
  {
    hide *;
    HeldLength(m, h, waiting);
    var full := m[..|m| - |waiting|];
    var z := Repeat(0, 63 - |waiting|);
    TwoBlocks(h, full, waiting + [padByte] + z, Repeat(0, 56) + length);
    assert m == full + waiting;
    RegroupTwo(full, waiting, [padByte], z, Repeat(0, 56), length);
    RepeatSum(0, 63 - |waiting|, 56);
  }

  lemma TwoBlocks(h: Words, full: seq<bv8>, a: seq<bv8>, b: seq<bv8>)
    requires |full| % 64 == 0 && h == Chain(INITIAL, full) && |a| == |b| == 64
    ensures Compress(Compress(h, a), b) == Chain(INITIAL, full + a + b)
  {
    hide *;
    ChainOne(h, full, a);
    ChainOne(Compress(h, a), full + a, b);
  }

  lemma RegroupTwo(full: seq<bv8>, waiting: seq<bv8>, p: seq<bv8>, z: seq<bv8>, z': seq<bv8>, l: seq<bv8>)
    ensures full + (waiting + p + z) + (z' + l) == (full + waiting) + p + (z + z') + l
  {}

  lemma RepeatSum(x: bv8, n: nat, k: nat)
    ensures Repeat(x, n) + Repeat(x, k) == Repeat(x, n + k)
  {}

  lemma LengthWords(high: nat, low: nat, n: nat)
    requires Counts(high, low, n)
    ensures 8 * n / TWO32 == high && 8 * n % TWO32 == low
  {}

  lemma DigestByBytes(hash: seq<bv32>, digest: seq<bv8>)
    requires |hash| == 5 && |digest| == 20 && forall k :: 0 <= k < 20 ==> digest[k] == WordByte(hash[k / 4], k % 4)
    ensures digest == DigestBytes(WordsOf(hash))
  {
    WordInDigest(hash, digest, 0);
    WordInDigest(hash, digest, 1);
    WordInDigest(hash, digest, 2);
    WordInDigest(hash, digest, 3);
    WordInDigest(hash, digest, 4);
    FiveWords(digest);
    hide *;
  }

  lemma FiveWords(digest: seq<bv8>)
    requires |digest| == 20
    ensures digest == digest[0..4] + digest[4..8] + digest[8..12] + digest[12..16] + digest[16..20]
  {}

  lemma WordInDigest(hash: seq<bv32>, digest: seq<bv8>, i: nat)
    requires |hash| == 5 && |digest| == 20 && i < 5
    requires forall k :: 0 <= k < 20 ==> digest[k] == WordByte(hash[k / 4], k % 4)
    ensures digest[4 * i..4 * i + 4] == WordBytes(hash[i])
  {
    hide WordByte;
    var d := digest[4 * i..4 * i + 4];
    assert d == [digest[4 * i], digest[4 * i + 1], digest[4 * i + 2], digest[4 * i + 3]];
  }

  /** The first loops of SHA1ProcessMessageBlock: the 80 words of the schedule. */
  method Schedule(block: seq<bv8>) returns (w: array<bv32>)
    requires |block| == 64
    ensures fresh(w) && w.Length == 80 && forall t: nat :: t < 80 ==> w[t] == W(block, t)
  {
    hide Mix, BigEndian;
    w := new bv32[80];
    for t := 0 to 16
      invariant forall i: nat :: i < t ==> w[i] == W(block, i)
    {
      w[t] := BigEndian(block[4 * t], block[4 * t + 1], block[4 * t + 2], block[4 * t + 3]);
    }
    for t := 16 to 80
      invariant forall i: nat :: i < t ==> w[i] == W(block, i)
    {
      w[t] := Mix(w[t - 3], w[t - 8], w[t - 14], w[t - 16]);
    }
  }

  /** Its four loops of twenty steps. */
  method EightySteps(w: array<bv32>, h: Words, ghost block: seq<bv8>) returns (s: Words)
    requires |block| == 64 && w.Length == 80 && forall t: nat :: t < 80 ==> w[t] == W(block, t)
    ensures s == Steps(h, block, 80)
  {
    hide W, Ch, Parity, Maj, Rotl5, Rotl30, Sum5;
    var a, b, c, d, e := h.a, h.b, h.c, h.d, h.e;
    for t := 0 to 20
      invariant Words(a, b, c, d, e) == Steps(h, block, t)
    {
      var temp := Sum5(Rotl5(a), Ch(b, c, d), e, w[t], 0x5A827999);
      e, d, c, b, a := d, c, Rotl30(b), a, temp;
    }
    for t := 20 to 40
      invariant Words(a, b, c, d, e) == Steps(h, block, t)
    {
      var temp := Sum5(Rotl5(a), Parity(b, c, d), e, w[t], 0x6ED9EBA1);
      e, d, c, b, a := d, c, Rotl30(b), a, temp;
    }
    for t := 40 to 60
      invariant Words(a, b, c, d, e) == Steps(h, block, t)
    {
      var temp := Sum5(Rotl5(a), Maj(b, c, d), e, w[t], 0x8F1BBCDC);
      e, d, c, b, a := d, c, Rotl30(b), a, temp;
    }
    for t := 60 to 80
      invariant Words(a, b, c, d, e) == Steps(h, block, t)
    {
      var temp := Sum5(Rotl5(a), Parity(b, c, d), e, w[t], 0xCA62C1D6);
      e, d, c, b, a := d, c, Rotl30(b), a, temp;
    }
    s := Words(a, b, c, d, e);
  }

  lemma AddLengthExact(high: nat, low: nat, n: nat)
    requires Counts(high, low, n) && n + 1 < 0x2000_0000_0000_0000
    ensures Counts(NextHigh(high, low), NextLow(low), n + 1) && NextHigh(high, low) < TWO32 && NextLow(low) < TWO32
    ensures !(Carries(low) && high + 1 == TWO32)
  {}

  lemma OneMoreByte(n: nat)
    ensures (n + 1) % 64 == if n % 64 == 63 then 0 else n % 64 + 1
  {}

  // ------------------------------------------------------------ any split

  function Join(parts: seq<seq<bv8>>): seq<bv8> {
    if parts == [] then [] else Join(parts[..|parts| - 1]) + parts[|parts| - 1]
  }

  /** One call, with an array of its own. */
  method InputPart(context: SHA1Context, part: seq<bv8>)
    requires context.Taking() && |context.message| + |part| < 0x2000_0000_0000_0000
    modifies context, context.hash, context.block
    ensures context.Taking() && context.message == old(context.message) + part
  {
    hide SHA1Context.Taking;
    var data := new bv8[|part|](k requires 0 <= k < |part| => part[k]);
    assert data[..|part|] == part;
    var code := context.Input(data, |part|);
  }

  /** However a message is split over calls of SHA1Input, the result is the digest of the whole message. */
  method HashParts(parts: seq<seq<bv8>>) returns (digest: seq<bv8>)
    requires |Join(parts)| < 0x2000_0000_0000_0000
    ensures digest == Digest(Join(parts))
  {
    hide Digest;
    var context := new SHA1Context();
    var code := context.Reset();
    for i := 0 to |parts|
      invariant fresh(context) && fresh(context.hash) && fresh(context.block)
      invariant context.Taking() && context.message == Join(parts[..i])
    {
      JoinPrefix(parts, i + 1);
      assert parts[..i + 1][..i] == parts[..i];
      InputPart(context, parts[i]);
    }
    assert parts[..|parts|] == parts;
    var out := new bv8[20];
    code := context.Result(out);
    digest := out[..];
  }

  lemma {:induction false} JoinPrefix(parts: seq<seq<bv8>>, i: nat)
    requires i <= |parts|
    ensures |Join(parts[..i])| <= |Join(parts)|
    decreases |parts| - i
  {
    if i == |parts| {
      assert parts[..i] == parts;
    } else {
      JoinPrefix(parts, i + 1);
      assert parts[..i + 1][..i] == parts[..i];
    }
  }
}
