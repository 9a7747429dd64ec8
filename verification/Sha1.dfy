/** SHA-1 as FIPS 180-3 defines it: the compression of one block, padding, and the digest of a whole message. */
module Sha1 {
  import opened Bytes

  // ------------------------------------------------------------ one block, section 6.1.2

  function Rotl1(w: bv32): bv32 { (w << 1) | (w >> 31) }

  function Rotl5(w: bv32): bv32 { (w << 5) | (w >> 27) }

  function Rotl30(w: bv32): bv32 { (w << 30) | (w >> 2) }

  function Ch(x: bv32, y: bv32, z: bv32): bv32 { (x & y) ^ ((!x) & z) }

  function Parity(x: bv32, y: bv32, z: bv32): bv32 { x ^ y ^ z }

  function Maj(x: bv32, y: bv32, z: bv32): bv32 { (x & y) ^ (x & z) ^ (y & z) }

  function F(t: nat, x: bv32, y: bv32, z: bv32): bv32 {
    if t < 20 then Ch(x, y, z) else if t < 40 then Parity(x, y, z) else if t < 60 then Maj(x, y, z) else Parity(x, y, z)
  }

  function K(t: nat): bv32 {
    if t < 20 then 0x5A827999 else if t < 40 then 0x6ED9EBA1 else if t < 60 then 0x8F1BBCDC else 0xCA62C1D6
  }

  function BigEndian(b0: bv8, b1: bv8, b2: bv8, b3: bv8): bv32 {
    ((b0 as bv32) << 24) | ((b1 as bv32) << 16) | ((b2 as bv32) << 8) | (b3 as bv32)
  }

  function Mix(a: bv32, b: bv32, c: bv32, d: bv32): bv32 { Rotl1(a ^ b ^ c ^ d) }

  /** The message schedule. */
  function W(block: seq<bv8>, t: nat): bv32
    requires |block| == 64
  {
    if t < 16 then BigEndian(block[4 * t], block[4 * t + 1], block[4 * t + 2], block[4 * t + 3])
    else Mix(W(block, t - 3), W(block, t - 8), W(block, t - 14), W(block, t - 16))
  }

  datatype Words = Words(a: bv32, b: bv32, c: bv32, d: bv32, e: bv32)

  function Sum5(v: bv32, w: bv32, x: bv32, y: bv32, z: bv32): bv32 { v + w + x + y + z }

  function Step(s: Words, f: bv32, w: bv32, k: bv32): Words {
    Words(Sum5(Rotl5(s.a), f, s.e, w, k), s.a, Rotl30(s.b), s.c, s.d)
  }

  /** The working variables after `t` of the 80 steps. */
  function Steps(s: Words, block: seq<bv8>, t: nat): Words
    requires |block| == 64
  {
    if t == 0 then s
    else var p := Steps(s, block, t - 1); Step(p, F(t - 1, p.b, p.c, p.d), W(block, t - 1), K(t - 1))
  }

  function Plus(x: bv32, y: bv32): bv32 { x + y }

  function Add(s: Words, t: Words): Words {
    Words(Plus(s.a, t.a), Plus(s.b, t.b), Plus(s.c, t.c), Plus(s.d, t.d), Plus(s.e, t.e))
  }

  function Compress(h: Words, block: seq<bv8>): Words
    requires |block| == 64
  {
    Add(h, Steps(h, block, 80))
  }

  // ------------------------------------------------------------ whole messages, sections 5.1.1 and 5.3.1

  const INITIAL := Words(0x67452301, 0xEFCDAB89, 0x98BADCFE, 0x10325476, 0xC3D2E1F0)

  function Chain(h: Words, s: seq<bv8>): Words
    requires |s| % 64 == 0
    decreases |s|
  {
    if s == [] then h else Chain(Compress(h, s[..64]), s[64..])
  }

  lemma {:induction false} ChainNext(h: Words, s: seq<bv8>, block: seq<bv8>)
    requires |s| % 64 == 0 && |block| == 64
    ensures Chain(h, s + block) == Compress(Chain(h, s), block)
    decreases |s|
  {
    hide Compress;
    if s == [] {
      assert s + block == block && block[..64] == block && block[64..] == [];
    } else {
      assert (s + block)[..64] == s[..64] && (s + block)[64..] == s[64..] + block;
      ChainNext(Compress(h, s[..64]), s[64..], block);
    }
  }

  function Low8(x: nat): bv8 { (x % 256) as bv8 }

  /** A number of 32 bits, highest byte first. */
  function Bytes4(x: nat): (r: seq<bv8>)
    ensures |r| == 4
  {
    [Low8(x / 0x1000000), Low8(x / 0x10000), Low8(x / 0x100), Low8(x)]
  }

  /** The bytes are the digits of the number in base 256. */
  lemma Bytes4Digits(b0: nat, b1: nat, b2: nat, b3: nat)
    requires b0 < 256 && b1 < 256 && b2 < 256 && b3 < 256
    ensures Bytes4(b0 * 0x100_0000 + b1 * 0x1_0000 + b2 * 0x100 + b3) ==
            [b0 as bv8, b1 as bv8, b2 as bv8, b3 as bv8]
  {
    hide Low8;
    Quotients(b0, b1, b2, b3);
    LowDigit(0, b0);
    LowDigit(b0, b1);
    LowDigit(b0 * 0x100 + b1, b2);
    LowDigit(b0 * 0x1_0000 + b1 * 0x100 + b2, b3);
  }

  lemma Quotients(b0: nat, b1: nat, b2: nat, b3: nat)
    requires b0 < 256 && b1 < 256 && b2 < 256 && b3 < 256
    ensures var x := b0 * 0x100_0000 + b1 * 0x1_0000 + b2 * 0x100 + b3;
            x / 0x1000000 == b0 && x / 0x10000 == b0 * 0x100 + b1 && x / 0x100 == b0 * 0x1_0000 + b1 * 0x100 + b2
  {}

  lemma LowDigit(more: nat, b: nat)
    requires b < 256
    ensures Low8(more * 0x100 + b) == b as bv8
  {
    assert (more * 0x100 + b) % 256 == b;
  }

  /** How many zero bytes bring a message of `n` bytes, the marker and eight bytes of length to a multiple of 64. */
  function Zeros(n: nat): (k: nat)
    ensures (n + 1 + k + 8) % 64 == 0 && k < 64
  {
    (119 - n % 64) % 64
  }

  function Repeat(x: bv8, n: nat): (r: seq<bv8>)
    ensures |r| == n && forall i :: 0 <= i < n ==> r[i] == x
  {
    seq(n, _ => x)
  }

  function Padded(m: seq<bv8>): (r: seq<bv8>)
    ensures |r| % 64 == 0
  {
    m + [0x80] + Repeat(0, Zeros(|m|)) + (Bytes4(8 * |m| / TWO32) + Bytes4(8 * |m| % TWO32))
  }

  /** Byte `k` of a word, the highest first: the shift by 8 * (3 - k) places. */
  function WordByte(w: bv32, k: nat): bv8
    requires k < 4
  {
    if k == 0 then ((w >> 24) & 0xff) as bv8
    else if k == 1 then ((w >> 16) & 0xff) as bv8
    else if k == 2 then ((w >> 8) & 0xff) as bv8
    else (w & 0xff) as bv8
  }

  function WordBytes(w: bv32): (r: seq<bv8>)
    ensures |r| == 4
  {
    [WordByte(w, 0), WordByte(w, 1), WordByte(w, 2), WordByte(w, 3)]
  }

  function DigestBytes(s: Words): (r: seq<bv8>)
    ensures |r| == 20
  {
    WordBytes(s.a) + WordBytes(s.b) + WordBytes(s.c) + WordBytes(s.d) + WordBytes(s.e)
  }

  /** The digest of a message. */
  function Digest(m: seq<bv8>): seq<bv8> {
    DigestBytes(Chain(INITIAL, Padded(m)))
  }
}
