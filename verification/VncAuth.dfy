/** crypto_included.c and vncauth.c: DES over whole buffers, cipher block chaining in place, stored passwords. */
module VncAuth {
  import opened Des
  import opened DesKeySchedule
  import opened DesCipher

  datatype Option<T> = None | Some(value: T)

  // ------------------------------------------------------------ crypto_included.c

  lemma {:induction false} EcbSplit(b: Boxes, keys: seq<RoundKey>, s: seq<bv8>, t: seq<bv8>)
    requires |s| % 8 == 0 && |t| == 8
    ensures Ecb(b, keys, s + t) == Ecb(b, keys, s) + EncipherBytes(b, keys, t)
    decreases |s|
  {
    hide EncipherBytes;
    if s == [] {
      assert s + t == t && t[..8] == t && t[8..] == [];
    } else {
      assert (s + t)[..8] == s[..8] && (s + t)[8..] == s[8..] + t;
      EcbSplit(b, keys, s[8..], t);
    }
  }

  lemma {:induction false} EcbRest(b: Boxes, keys: seq<RoundKey>, s: seq<bv8>)
    ensures Ecb(b, keys, s) == Ecb(b, keys, s[..|s| / 8 * 8])
    decreases |s|
  {
    hide EncipherBytes;
    if |s| < 8 {
    } else {
      var whole := s[..|s| / 8 * 8];
      EcbRest(b, keys, s[8..]);
      assert whole[..8] == s[..8] && whole[8..] == s[8..][..|s[8..]| / 8 * 8];
    }
  }

  /** `n` blocks of `source` have been enciphered into `now` at `o`. */
  ghost predicate Enciphered(b: Boxes, keys: seq<RoundKey>, source: seq<bv8>, was: seq<bv8>, now: seq<bv8>, o: nat,
                             n: nat)
  {
    8 * n <= |source| && o + 8 * n <= |was| &&
    now == was[..o] + Ecb(b, keys, source[..8 * n]) + was[o + 8 * n..]
  }

  lemma EncipherNext(b: Boxes, keys: seq<RoundKey>, source: seq<bv8>, was: seq<bv8>, now: seq<bv8>, next: seq<bv8>,
                     o: nat, n: nat)
    requires Enciphered(b, keys, source, was, now, o, n) && 8 * n + 8 <= |source| && o + |source| <= |was|
    requires Replaced(next, now, o + 8 * n, EncipherBytes(b, keys, source[8 * n..8 * n + 8]))
    ensures Enciphered(b, keys, source, was, next, o, n + 1)
  {
    hide EncipherBytes;
    EcbSplit(b, keys, source[..8 * n], source[8 * n..8 * n + 8]);
    assert source[..8 * n] + source[8 * n..8 * n + 8] == source[..8 * (n + 1)];
    hide Ecb;
    assert now[..o + 8 * n] == was[..o] + Ecb(b, keys, source[..8 * n]);
  }

  /** Past the blocks done, the input is as it was. */
  ghost predicate Ahead(inp: seq<bv8>, i: nat, source: seq<bv8>, n: nat) {
    i + |source| <= |inp| && 8 * n <= |source| && inp[i + 8 * n..i + |source|] == source[8 * n..]
  }

  lemma AheadBlock(inp: seq<bv8>, i: nat, source: seq<bv8>, n: nat)
    requires Ahead(inp, i, source, n) && 8 * n + 8 <= |source|
    ensures inp[i + 8 * n..i + 8 * n + 8] == source[8 * n..8 * n + 8] && Ahead(inp, i, source, n + 1)
  {
    assert inp[i + 8 * n..i + 8 * n + 8] == inp[i + 8 * n..i + |source|][..8];
    assert source[8 * n..8 * n + 8] == source[8 * n..][..8];
    assert inp[i + 8 * n..i + |source|][8..] == source[8 * n..][8..];
    assert inp[i + 8 * n..i + |source|][8..] == inp[i + 8 * (n + 1)..i + |source|];
  }

  lemma AheadInPlace(now: seq<bv8>, next: seq<bv8>, i: nat, source: seq<bv8>, n: nat, c: seq<bv8>)
    requires Ahead(now, i, source, n + 1) && |c| == 8
    requires Replaced(next, now, i + 8 * n, c)
    ensures Ahead(next, i, source, n + 1)
  {
    assert next[i + 8 * n + 8..] == now[i + 8 * n + 8..];
    assert next[i + 8 * (n + 1)..i + |source|] == next[i + 8 * n + 8..][..|source| - 8 * (n + 1)];
    assert now[i + 8 * (n + 1)..i + |source|] == now[i + 8 * n + 8..][..|source| - 8 * (n + 1)];
  }

  /** encrypt_rfbdes (EN0) and decrypt_rfbdes (DE1), from `inp[i..]` to `out[o..]`: in place or apart.  A rest of
      less than a block is not written. */
  method RfbDes(r: Register, edf: Mode, out: array<bv8>, o: nat, key: seq<bv8>, inp: array<bv8>, i: nat, inLen: nat)
    returns (outLen: nat)
    requires |key| == 8 && r.knL.Length == 32 && Narrow(r.boxes)
    requires i + inLen <= inp.Length && o + inLen <= out.Length && (inp == out ==> i == o)
    modifies r.knL, out
    ensures outLen == inLen
    ensures out[..] == old(out[..o]) + Ecb(r.boxes, Schedule(key, edf), old(inp[i..i + inLen])) +
            old(out[o + inLen / 8 * 8..])
  {
    hide Loaded, Narrow, Schedule, EncipherBytes, Ecb, Enciphered, Ahead, Replaced;
    var eightbyteblocks := inLen / 8;
    ghost var keys, source, was := Schedule(key, edf), inp[i..i + inLen], out[..];
    NoneEnciphered(r.boxes, keys, source, was, o);
    AllAhead(inp[..], i, source);
    DesKey(key, edf, r.knL);
    for k := 0 to eightbyteblocks
      invariant Loaded(r.knL[..], keys)
      invariant Enciphered(r.boxes, keys, source, was, out[..], o, k)
      invariant Ahead(inp[..], i, source, k)
    {
      ghost var now := out[..];
      AheadBlock(inp[..], i, source, k);
      r.Des(inp, i + 8 * k, out, o + 8 * k, keys);
      ghost var c := EncipherBytes(r.boxes, keys, source[8 * k..8 * k + 8]);
      EncipherNext(r.boxes, keys, source, was, now, out[..], o, k);
      if inp == out { AheadInPlace(now, out[..], i, source, k, c); }
    }
    AllEnciphered(r.boxes, keys, source, was, out[..], o);
    outLen := inLen;
  }

  lemma NoneEnciphered(b: Boxes, keys: seq<RoundKey>, source: seq<bv8>, was: seq<bv8>, o: nat)
    requires o <= |was|
    ensures Enciphered(b, keys, source, was, was, o, 0)
  {
    assert source[..0] == [];
  }

  lemma AllAhead(inp: seq<bv8>, i: nat, source: seq<bv8>)
    requires i + |source| <= |inp| && source == inp[i..i + |source|]
    ensures Ahead(inp, i, source, 0)
  {}

  lemma AllEnciphered(b: Boxes, keys: seq<RoundKey>, source: seq<bv8>, was: seq<bv8>, now: seq<bv8>, o: nat)
    requires Enciphered(b, keys, source, was, now, o, |source| / 8)
    ensures now == was[..o] + Ecb(b, keys, source) + was[o + |source| / 8 * 8..]
  {
    EcbRest(b, keys, source);
    hide Ecb;
  }

  // ------------------------------------------------------------ cipher block chaining

  function XorByte(x: bv8, y: bv8): bv8 { x ^ y }

  lemma XorByteTwice(x: bv8, y: bv8)
    ensures XorByte(XorByte(x, y), y) == x
  {}

  function XorBytes(s: seq<bv8>, t: seq<bv8>): (r: seq<bv8>)
    requires |s| == |t|
    ensures |r| == |s|
  {
    seq(|s|, i requires 0 <= i < |s| => XorByte(s[i], t[i]))
  }

  lemma XorBytesTwice(s: seq<bv8>, t: seq<bv8>)
    requires |s| == |t|
    ensures XorBytes(XorBytes(s, t), t) == s
  {
    hide XorByte;
    forall i | 0 <= i < |s| ensures XorBytes(XorBytes(s, t), t)[i] == s[i] { XorByteTwice(s[i], t[i]); }
  }

  /** CBC encryption, section 6.2 of NIST SP 800-38A. */
  function Cbc(b: Boxes, keys: seq<RoundKey>, iv: seq<bv8>, s: seq<bv8>): (r: seq<bv8>)
    requires |iv| == 8 && |s| % 8 == 0
    ensures |r| == |s|
    decreases |s|
  {
    if s == [] then []
    else var c := EncipherBytes(b, keys, XorBytes(s[..8], iv)); c + Cbc(b, keys, c, s[8..])
  }

  /** CBC decryption, with the deciphering schedule. */
  function CbcOpen(b: Boxes, keys: seq<RoundKey>, iv: seq<bv8>, s: seq<bv8>): (r: seq<bv8>)
    requires |iv| == 8 && |s| % 8 == 0
    ensures |r| == |s|
    decreases |s|
  {
    if s == [] then []
    else XorBytes(EncipherBytes(b, keys, s[..8]), iv) + CbcOpen(b, keys, s[..8], s[8..])
  }

  /** What is mixed into block `i` before it is enciphered: the block of the result before it. */
  function Before(iv: seq<bv8>, c: seq<bv8>, i: nat): seq<bv8>
    requires 8 * i <= |c|
  {
    if i == 0 then iv else c[8 * (i - 1)..8 * i]
  }

  /** Every block of a chain is the cipher of its own bytes, each by exclusive or with one of the block before. */
  lemma {:induction false} CbcBlock(b: Boxes, keys: seq<RoundKey>, iv: seq<bv8>, s: seq<bv8>, i: nat)
    requires |iv| == 8 && |s| % 8 == 0 && 8 * i + 8 <= |s|
    ensures var c := Cbc(b, keys, iv, s);
            |Before(iv, c, i)| == 8 &&
            c[8 * i..8 * i + 8] == EncipherBytes(b, keys, XorBytes(s[8 * i..8 * i + 8], Before(iv, c, i)))
    decreases i
  {
    hide EncipherBytes, XorBytes;
    var first, c := EncipherBytes(b, keys, XorBytes(s[..8], iv)), Cbc(b, keys, iv, s);
    var rest := Cbc(b, keys, first, s[8..]);
    assert c == first + rest;
    hide Cbc;
    if i == 0 {
      assert c[..8] == first;
    } else {
      CbcBlock(b, keys, first, s[8..], i - 1);
      assert s[..8] + s[8..] == s;
      NextBlock(s[..8], s[8..], i - 1);
      NextBlock(first, rest, i - 1);
      if i == 1 { assert c[..8] == first; } else { NextBlock(first, rest, i - 2); }
    }
  }

  /** Behind one block the others count on. */
  lemma NextBlock(block: seq<bv8>, rest: seq<bv8>, i: nat)
    requires |block| == 8 && 8 * i + 8 <= |rest|
    ensures (block + rest)[8 * (i + 1)..8 * (i + 1) + 8] == rest[8 * i..8 * i + 8]
  {}

  /** Exclusive or: one of the two bits, not both. */
  lemma XorByteBits(x: bv8, y: bv8)
    ensures XorByte(x, y) == (x | y) & !(x & y)
  {}

  /** What was chained opens again, for every key and initial vector. */
  lemma {:induction false} CbcInverts(b: Boxes, key: seq<bv8>, iv: seq<bv8>, s: seq<bv8>)
    requires Narrow(b) && |key| == |iv| == 8 && |s| % 8 == 0
    ensures CbcOpen(b, Schedule(key, DE1), iv, Cbc(b, Schedule(key, EN0), iv, s)) == s
    decreases |s|
  {
    hide Narrow, Schedule, EncipherBytes, XorBytes;
    if s == [] {
    } else {
      var mixed := XorBytes(s[..8], iv);
      var c := EncipherBytes(b, Schedule(key, EN0), mixed);
      BytesInvert(b, key, mixed);
      XorBytesTwice(s[..8], iv);
      CbcInverts(b, key, c, s[8..]);
      var all := Cbc(b, Schedule(key, EN0), iv, s);
      assert all[..8] == c && all[8..] == Cbc(b, Schedule(key, EN0), c, s[8..]);
    }
  }

  /** The block the next one is chained to. */
  function Last(iv: seq<bv8>, c: seq<bv8>): (r: seq<bv8>)
    requires |iv| == 8 && |c| % 8 == 0
    ensures |r| == 8
  {
    if c == [] then iv else c[|c| - 8..]
  }

  lemma {:induction false} CbcSplit(b: Boxes, keys: seq<RoundKey>, iv: seq<bv8>, s: seq<bv8>, t: seq<bv8>)
    requires |iv| == 8 && |s| % 8 == 0 && |t| == 8
    ensures var c := Cbc(b, keys, iv, s);
            Cbc(b, keys, iv, s + t) == c + EncipherBytes(b, keys, XorBytes(t, Last(iv, c)))
    decreases |s|
  {
    hide EncipherBytes, XorBytes;
    if s == [] {
      assert s + t == t && t[..8] == t && t[8..] == [];
    } else {
      var c0 := EncipherBytes(b, keys, XorBytes(s[..8], iv));
      assert (s + t)[..8] == s[..8] && (s + t)[8..] == s[8..] + t;
      CbcSplit(b, keys, c0, s[8..], t);
      var rest := Cbc(b, keys, c0, s[8..]);
      assert Last(iv, c0 + rest) == Last(c0, rest);
    }
  }

  /** `i` bytes have been chained in place. */
  ghost predicate Chained(b: Boxes, keys: seq<RoundKey>, iv: seq<bv8>, was: seq<bv8>, now: seq<bv8>, i: nat)
    requires |iv| == 8
  {
    i <= |was| && i % 8 == 0 && now == Cbc(b, keys, iv, was[..i]) + was[i..]
  }

  lemma ChainNext(b: Boxes, keys: seq<RoundKey>, iv: seq<bv8>, was: seq<bv8>, now: seq<bv8>, mixed: seq<bv8>,
                  next: seq<bv8>, i: nat)
    requires |iv| == 8 && Chained(b, keys, iv, was, now, i) && i + 8 <= |was| == |mixed|
    requires mixed == now[..i] + XorBytes(now[i..i + 8], if i == 0 then iv else now[i - 8..i]) + now[i + 8..]
    requires next == mixed[..i] + Ecb(b, keys, mixed[i..i + 8]) + mixed[i + 8..]
    ensures Chained(b, keys, iv, was, next, i + 8)
  {
    hide EncipherBytes, XorBytes;
    var c, t := Cbc(b, keys, iv, was[..i]), was[i..i + 8];
    CbcSplit(b, keys, iv, was[..i], t);
    hide Cbc;
    assert was[..i] + t == was[..i + 8] && now[..i] == c && now[i..i + 8] == t && now[i + 8..] == was[i + 8..];
    assert i > 0 ==> now[i - 8..i] == c[i - 8..];
    var x := XorBytes(t, Last(iv, c));
    assert mixed[i..i + 8] == x;
    assert x[..8] == x && x[8..] == [];
    assert Ecb(b, keys, x) == EncipherBytes(b, keys, x);
  }

  /** `where[i..i + 8] ^= prev`, the loops over `j`. */
  method XorBlock(where: array<bv8>, i: nat, prev: seq<bv8>)
    requires i + 8 <= where.Length && |prev| == 8
    modifies where
    ensures where[..] == old(where[..i]) + XorBytes(old(where[i..i + 8]), prev) + old(where[i + 8..])
  {
    hide XorByte;
    ghost var was := where[..];
    for j := 0 to 8
      invariant forall k :: 0 <= k < where.Length ==>
        where[k] == if i <= k < i + j then XorByte(was[k], prev[k - i]) else was[k]
    {
      where[i + j] := XorByte(where[i + j], prev[j]);
    }
  }

  /** How many bytes rfbEncryptBytes2 works on: whole blocks, at least one. */
  function Chains(length: int): nat { if length <= 8 then 8 else (length + 7) / 8 * 8 }

  lemma ChainFirst(length: int)
    ensures 8 <= Chains(length) && Chains(length) % 8 == 0
  {}

  lemma ChainMore(length: int, i: nat)
    requires i % 8 == 0 && i < length
    ensures i + 8 <= Chains(length) && (i + 8) % 8 == 0
  {}

  lemma ChainEnd(length: int, i: nat)
    requires i % 8 == 0 && 8 <= i <= Chains(length) && length <= i
    ensures i == Chains(length)
  {}

  /** One block: mixed with the one before, then enciphered. */
  method ChainBlock(r: Register, where: array<bv8>, i: nat, prev: seq<bv8>, key: seq<bv8>, ghost was: seq<bv8>)
    requires |key| == |prev| == 8 && r.knL.Length == 32 && Narrow(r.boxes) && i + 8 <= where.Length == |was|
    requires Chained(r.boxes, Schedule(key, EN0), key, was, where[..], i)
    requires prev == if i == 0 then key else where[i - 8..i]
    modifies r.knL, where
    ensures Chained(r.boxes, Schedule(key, EN0), key, was, where[..], i + 8)
  {
    hide Narrow, Schedule, Ecb, Chained, XorBytes;
    ghost var now := where[..];
    XorBlock(where, i, prev);
    ghost var mixed := where[..];
    var outLen := RfbDes(r, EN0, where, i, key, where, i, 8);
    assert where[..] == mixed[..i] + Ecb(r.boxes, Schedule(key, EN0), mixed[i..i + 8]) + mixed[i + 8..];
    ChainNext(r.boxes, Schedule(key, EN0), key, was, now, mixed, where[..], i);
  }

  /** rfbEncryptBytes2 is CBC in place with the key as initial vector. */
  method EncryptBytes2(r: Register, where: array<bv8>, length: int, key: seq<bv8>)
    requires |key| == 8 && r.knL.Length == 32 && Narrow(r.boxes) && Chains(length) <= where.Length
    modifies r.knL, where
    ensures var n := Chains(length);
            where[..] == Cbc(r.boxes, Schedule(key, EN0), key, old(where[..n])) + old(where[n..])
  {
    hide Narrow, Schedule, Chained, Cbc, Chains;
    ghost var keys, was := Schedule(key, EN0), where[..];
    ChainFirst(length);
    NoneChained(r.boxes, keys, key, was);
    ChainBlock(r, where, 0, key, key, was);
    var i := 8;
    while i < length
      invariant i % 8 == 0 && 8 <= i <= Chains(length)
      invariant Chained(r.boxes, keys, key, was, where[..], i)
    {
      ChainMore(length, i);
      ChainBlock(r, where, i, where[i - 8..i], key, was);
      i := i + 8;
    }
    ChainEnd(length, i);
    AllChained(r.boxes, keys, key, was, where[..], i);
  }

  lemma NoneChained(b: Boxes, keys: seq<RoundKey>, iv: seq<bv8>, was: seq<bv8>)
    requires |iv| == 8
    ensures Chained(b, keys, iv, was, was, 0)
  {
    assert was[..0] == [];
  }

  lemma AllChained(b: Boxes, keys: seq<RoundKey>, iv: seq<bv8>, was: seq<bv8>, now: seq<bv8>, i: nat)
    requires |iv| == 8 && Chained(b, keys, iv, was, now, i)
    ensures i <= |was| && i % 8 == 0 && now == Cbc(b, keys, iv, was[..i]) + was[i..]
  {}

  // ------------------------------------------------------------ passwords

  const FIXED_KEY: seq<bv8> := [23, 82, 107, 6, 35, 78, 88, 7]

  /** The first eight characters, padded with nulls. */
  function Padded(passwd: seq<bv8>): (r: seq<bv8>)
    ensures |r| == 8
  {
    if |passwd| >= 8 then passwd[..8] else passwd + seq(8 - |passwd|, _ => 0)
  }

  /** The padding loop of rfbEncryptAndStorePasswd and rfbEncryptBytes. */
  method PadPassword(passwd: seq<bv8>) returns (padded: array<bv8>)
    ensures fresh(padded) && padded[..] == Padded(passwd)
  {
    padded := new bv8[8];
    for i := 0 to 8
      invariant padded[..i] == Padded(passwd)[..i]
    {
      if i < |passwd| {
        padded[i] := passwd[i];
      } else {
        padded[i] := 0;
      }
    }
  }

  /** rfbEncryptAndStorePasswd: the eight bytes written to the file. */
  method StorePassword(r: Register, passwd: seq<bv8>) returns (file: seq<bv8>)
    requires r.knL.Length == 32 && Narrow(r.boxes)
    modifies r.knL
    ensures file == Ecb(r.boxes, Schedule(FIXED_KEY, EN0), Padded(passwd)) && |file| == 8
  {
    hide Narrow, Schedule, Ecb, Padded;
    var encrypted := PadPassword(passwd);
    assert encrypted[0..0 + 8] == encrypted[..];
    var outLen := RfbDes(r, EN0, encrypted, 0, FIXED_KEY, encrypted, 0, 8);
    file := encrypted[..];
  }

  /** rfbDecryptPasswdFromFile: no password when the file is short, otherwise eight characters and a null. */
  method LoadPassword(r: Register, file: seq<bv8>) returns (passwd: Option<seq<bv8>>)
    requires r.knL.Length == 32 && Narrow(r.boxes)
    modifies r.knL
    ensures passwd == if |file| < 8 then None else Some(Ecb(r.boxes, Schedule(FIXED_KEY, DE1), file[..8]) + [0])
  {
    hide Narrow, Schedule, Ecb;
    var buffer := new bv8[9];
    for i := 0 to 8
      invariant i <= |file| && buffer[..i] == file[..i]
    {
      if i >= |file| { return None; }
      buffer[i] := file[i];
    }
    assert buffer[0..0 + 8] == file[..8];
    var outLen := RfbDes(r, DE1, buffer, 0, FIXED_KEY, buffer, 0, 8);
    ghost var plain := Ecb(r.boxes, Schedule(FIXED_KEY, DE1), file[..8]);
    assert buffer[..8] == plain;
    buffer[8] := 0;
    assert buffer[..8] == plain && buffer[..] == buffer[..8] + [0];
    return Some(buffer[..]);
  }

  /** What was stored loads as the first eight characters, padded with nulls. */
  method StoreThenLoad(r: Register, passwd: seq<bv8>) returns (loaded: Option<seq<bv8>>)
    requires r.knL.Length == 32 && Narrow(r.boxes)
    modifies r.knL
    ensures loaded == Some(Padded(passwd) + [0])
  {
    hide Narrow, Schedule, Ecb, Padded;
    var file := StorePassword(r, passwd);
    loaded := LoadPassword(r, file);
    EcbInverts(r.boxes, FIXED_KEY, Padded(passwd));
    assert file[..8] == file;
  }

  const CHALLENGESIZE := 16

  /** rfbEncryptBytes: the challenge, enciphered in place with the padded password as the key. */
  method EncryptBytes(r: Register, bytes: array<bv8>, passwd: seq<bv8>)
    requires r.knL.Length == 32 && Narrow(r.boxes) && CHALLENGESIZE <= bytes.Length
    modifies r.knL, bytes
    ensures bytes[..] == Ecb(r.boxes, Schedule(Padded(passwd), EN0), old(bytes[..16])) + old(bytes[16..])
  {
    hide Narrow, Schedule, Ecb, Padded;
    var key := PadPassword(passwd);
    var outLen := RfbDes(r, EN0, bytes, 0, key[..], bytes, 0, CHALLENGESIZE);
  }
}
