/** lzo1x_1_compress: a greedy matcher over a hash table of earlier positions, run on chunks
    of 49152 bytes with the unmatched literals of one chunk carried into the next. */
module LzoCompress {
  import opened Bytes
  import opened LzoFormat
  import opened LzoRoundTrip
  import opened WordBits

  const DICT_SIZE := 0x4000
  const CHUNK := 49152

  // ---------------------------------------------------------------- size bound

  /** The form the compressor takes: matches of up to 8 bytes within 0x800, matches within 0x4000, and farther ones. */
  function Chosen(len: nat, off: nat): (r: Form)
    requires 4 <= len && 1 <= off <= M4_MAX_OFFSET
    ensures Codes(r, len, off) && r != M1
  {
    if len <= M2_MAX_LEN && off <= M2_MAX_OFFSET then M2 else if off <= M3_MAX_OFFSET then M3 else M4
  }

  function Token(len: nat, off: nat, t: nat): (r: seq<byte>)
    requires 4 <= len && 1 <= off <= M4_MAX_OFFSET && t <= 3
    ensures |r| >= 2
  {
    MatchBytes(Chosen(len, off), len, off, t)
  }

  /** The compressor only emits matches of at least four bytes, and starts with at least four literals. */
  ghost predicate Greedy(instrs: seq<Instr>) {
    instrs == [] ||
    (Greedy(Init(instrs)) &&
     var i := Last(instrs);
     4 <= i.len && 1 <= i.off <= M4_MAX_OFFSET && i.form == Chosen(i.len, i.off) && (|instrs| == 1 ==> 4 <= |i.lits|))
  }

  /** Every token is paid for by the bytes it covers: a match covers at least four, and the
      header of a run grows by one byte in 255. */
  lemma TokenSize(n: nat, len: nat, off: nat, t: nat)
    requires 4 <= len && 1 <= off <= M4_MAX_OFFSET && t <= 3
    ensures 16 * (|RunHeader(n)| + n + |Token(len, off, t)|) <= 17 * (n + len)
    ensures 16 * |RunHeader(n)| <= n + 16
  {
    assert 16 * |RunHeader(n)| <= n + 16 && (n < 4 ==> |RunHeader(n)| == 0);
    assert 16 * |Token(len, off, t)| <= 17 * len - 20;
  }

  /** The encoding is at most one sixteenth longer than what it stands for. */
  lemma {:induction false} EncodeSize(instrs: seq<Instr>, t: nat)
    requires Meaningful(instrs) && Greedy(instrs) && t <= 3
    ensures 16 * |Encode(instrs, t, false)| <= 17 * |Expand(instrs)|
  {
    if instrs == [] {
    } else {
      var i := Last(instrs);
      EncodeSize(Init(instrs), Trail(|i.lits|));
      TokenSize(|i.lits|, i.len, i.off, t);
    }
  }

  /** Only an input without a match, of at most 238 bytes, starts with its own length. */
  predicate Short(instrs: seq<Instr>, lits: seq<byte>) { instrs == [] && 0 < |lits| <= 238 }

  /** The compressor's output. */
  ghost function Output(instrs: seq<Instr>, lits: seq<byte>): seq<byte>
    requires Meaningful(instrs)
  {
    Stream(instrs, lits, Short(instrs, lits))
  }

  /** A whole stream adds at most four bytes to that. */
  lemma StreamSize(instrs: seq<Instr>, lits: seq<byte>)
    requires Meaningful(instrs) && Greedy(instrs)
    ensures var n := |Expand(instrs)| + |lits|; |Output(instrs, lits)| <= n + n / 16 + 4
  {
    EncodeSize(instrs, Trail(|lits|));
    TokenSize(|lits|, 4, 1, 0);
  }

  // ---------------------------------------------------------------- matching

  /** The multiplicative hash of the four bytes at `ip`, reduced to 14 bits. */
  function DictIndex(dv: nat): (r: nat)
    ensures r < DICT_SIZE
  {
    0x1824429d * dv % TWO32 / 0x4_0000 % DICT_SIZE
  }

  /** The `n` bytes at `a` are those at `b`. */
  ghost predicate Same(s: seq<byte>, a: nat, b: nat, n: nat) {
    a + n <= |s| && b + n <= |s| && forall j :: a <= j < a + n ==> s[j] == s[j - a + b]
  }

  lemma SameJoin(s: seq<byte>, a: nat, b: nat, m: nat, n: nat)
    requires Same(s, a, b, m) && Same(s, a + m, b + m, n)
    ensures Same(s, a, b, m + n)
  {}

  /** How many bytes two words with this exclusive or have in common. */
  function Agreeing(v: nat): nat {
    if v == 0 then 8 else TrailingZeros(v) / 8
  }

  /** The exclusive or of the eight-byte words at `a` and `b` shows how many of their bytes agree. */
  method XorWords(s: seq<byte>, a: nat, b: nat) returns (v: nat)
    requires a + 8 <= |s| && b + 8 <= |s|
    ensures if v == 0 then Agreeing(v) == 8 else Agreeing(v) < 8 && s[a + Agreeing(v)] != s[b + Agreeing(v)]
    ensures Same(s, a, b, Agreeing(v))
  {
    hide Xor, Load, Common, TrailingZeros;
    v := Xor(Load(s, a, 8), Load(s, b, 8));
    FirstDifference(s, a, b, 8);
    CommonAgrees(s, a, b, 8);
  }

  /** Extend a match of four bytes eight bytes at a time.  All bytes counted agree, and the count
      stops at a difference or within the last 20 bytes of the chunk. */
  method MatchLength(s: seq<byte>, ip: nat, mPos: nat, ipEnd: nat) returns (mLen: nat)
    requires mPos < ip < ipEnd && ipEnd + 20 <= |s|
    requires Same(s, ip, mPos, 4)
    ensures 4 <= mLen && ip + mLen <= ipEnd + 11 && Same(s, ip, mPos, mLen)
    ensures ip + mLen < ipEnd ==> s[ip + mLen] != s[mPos + mLen]
  {
    hide Agreeing, Same;
    mLen := 4;
    var v := XorWords(s, ip + mLen, mPos + mLen);
    while v == 0
      invariant 4 <= mLen && ip + mLen < ipEnd + 4 && Same(s, ip, mPos, mLen)
      invariant v != 0 ==> Agreeing(v) < 8 && s[ip + mLen + Agreeing(v)] != s[mPos + mLen + Agreeing(v)]
      invariant Same(s, ip + mLen, mPos + mLen, Agreeing(v)) && (v == 0 ==> Agreeing(v) == 8)
      decreases ipEnd + 4 - ip - mLen
    {
      SameJoin(s, ip, mPos, mLen, 8);
      mLen := mLen + 8;
      v := XorWords(s, ip + mLen, mPos + mLen);
      if ip + mLen >= ipEnd { return; }
    }
    SameJoin(s, ip, mPos, mLen, Agreeing(v));
    mLen := mLen + Agreeing(v);
  }

  /** Copying a match reproduces text that really occurred at that distance. */
  lemma {:induction false} CopyOccurrence(s: seq<byte>, ip: nat, off: nat, len: nat)
    requires 1 <= off <= ip && ip + len <= |s|
    requires forall j :: ip <= j < ip + len ==> s[j] == s[j - off]
    ensures CopyMatch(s[..ip], off, len) == s[..ip + len]
  {
    if len == 0 {
    } else {
      CopyOccurrence(s, ip, off, len - 1);
      assert s[..ip + len] == s[..ip + len - 1] + [s[ip + len - 1]];
    }
  }

  // ---------------------------------------------------------------- emitting

  method PutExtension(out: array<byte>, op0: nat, n: nat) returns (op: nat)
    requires n > 0 && op0 + |Extension(n)| <= out.Length
    modifies out
    ensures op == op0 + |Extension(n)| && out[..op] == old(out[..op0]) + Extension(n)
  {
    op := op0;
    var tt := n;
    ghost var done: seq<byte> := [];
    while tt > 255
      invariant tt > 0 && op == op0 + |done| && done + Extension(tt) == Extension(n)
      invariant out[..op] == old(out[..op0]) + done
      invariant op + |Extension(tt)| <= out.Length
    {
      tt := tt - 255;
      out[op] := 0;
      op := op + 1;
      done := done + [0];
    }
    out[op] := tt;
    op := op + 1;
  }

  /** The bytes before a run of `t` literals once their count is recorded. */
  function Patched(o: seq<byte>, t: nat): (r: seq<byte>)
    requires 1 <= t <= 3 ==> |o| >= 2
    ensures |r| == |o|
  {
    if 1 <= t <= 3 then o[|o| - 2 := OrLow2(o[|o| - 2], t)] else o
  }

  /** Record `t` literals, in the last match or in a header of their own. */
  method PutRunHeader(t: nat, out: array<byte>, op0: nat) returns (op: nat)
    requires op0 + |RunHeader(t)| <= out.Length && (1 <= t <= 3 ==> op0 >= 2)
    modifies out
    ensures op == op0 + |RunHeader(t)|
    ensures out[..op] == Patched(old(out[..op0]), t) + RunHeader(t)
  {
    op := op0;
    if t == 0 {
    } else if t <= 3 {
      out[op - 2] := OrLow2(out[op - 2], t);
    } else if t <= 18 {
      out[op] := t - 3;
      op := op + 1;
    } else {
      out[op] := 0;
      op := PutExtension(out, op + 1, t - 18);
    }
  }

  method PutBytes(s: seq<byte>, ii: nat, t: nat, out: array<byte>, op: nat)
    requires ii + t <= |s| && op + t <= out.Length
    modifies out
    ensures out[..op + t] == old(out[..op]) + s[ii..ii + t]
  {
    for k := 0 to t
      invariant out[..op + k] == old(out[..op]) + s[ii..ii + k]
    {
      out[op + k] := s[ii + k];
    }
  }

  /** The marker and count of a long match. */
  method PutCount(marker: byte, width: nat, n: nat, out: array<byte>, op0: nat) returns (op: nat)
    requires 0 < n && 0 < width && marker + width <= 256
    requires op0 + |CountBytes(marker, width, n)| <= out.Length
    modifies out
    ensures op == op0 + |CountBytes(marker, width, n)|
    ensures out[..op] == old(out[..op0]) + CountBytes(marker, width, n)
  {
    if n < width {
      out[op0] := marker + n;
      op := op0 + 1;
    } else {
      out[op0] := marker;
      op := PutExtension(out, op0 + 1, n - (width - 1));
    }
  }

  lemma FarBits(h: nat, u: nat, v: nat)
    requires h <= 1 && u < 256 && v < 64
    ensures var o := 0x4000 * h + 64 * u + v;
            o / 0x800 / 8 % 2 == h && o * 4 % 256 == 4 * v && o / 64 % 256 == u && o / 0x4000 == h &&
            o % 0x4000 == 64 * u + v
  {
    var o := 0x4000 * h + 64 * u + v;
    assert o / 0x4000 == h;
    assert o / 0x800 / 8 == h;
    assert o / 64 == 256 * h + u;
    assert o * 4 == 256 * (256 * h + u) + 4 * v;
  }

  lemma FarOffset(o: nat)
    requires o < 0x8000
    ensures o / 0x800 / 8 % 2 * 8 == o / 0x4000 * 8
    ensures [o * 4 % 256, o / 64 % 256] == OffsetBytes(o % 0x4000, 0)
  {
    var h, low := o / 0x4000, o % 0x4000;
    FarBits(h, low / 64, low % 64);
    FarBits(0, low / 64, low % 64);
  }

  method PutMatch(mLen: nat, mOff0: nat, out: array<byte>, op0: nat) returns (op: nat)
    requires 4 <= mLen && 1 <= mOff0 <= M4_MAX_OFFSET
    requires op0 + |Token(mLen, mOff0, 0)| <= out.Length
    modifies out
    ensures op == op0 + |Token(mLen, mOff0, 0)|
    ensures out[..op] == old(out[..op0]) + Token(mLen, mOff0, 0)
  {
    hide CountBytes;
    var mOff := mOff0;
    if mLen <= M2_MAX_LEN && mOff <= M2_MAX_OFFSET {
      mOff := mOff - 1;
      out[op0] := (mLen - 1) * 32 + mOff % 8 * 4;
      out[op0 + 1] := mOff / 8;
      op := op0 + 2;
    } else if mOff <= M3_MAX_OFFSET {
      mOff := mOff - 1;
      op := PutCount(32, 32, mLen - 2, out, op0);
      out[op] := mOff * 4 % 256;
      out[op + 1] := mOff / 64;
      op := op + 2;
    } else {
      mOff := mOff - 0x4000;
      FarOffset(mOff);
      op := PutCount(16 + mOff / 0x800 / 8 % 2 * 8, 8, mLen - 2, out, op0);
      out[op] := mOff * 4 % 256;
      out[op + 1] := mOff / 64 % 256;
      op := op + 2;
    }
  }

  /** Setting the spare bits of the last match turns its encoding into the one that announces
      `t` trailing literals. */
  lemma PatchEncodes(instrs: seq<Instr>, t: nat)
    requires Meaningful(instrs) && instrs != [] && 1 <= t <= 3
    ensures Patched(Encode(instrs, 0, false), t) == Encode(instrs, t, false)
  {
    hide MatchBytes, Header, OrLow2;
    var i := Last(instrs);
    var pre := Encode(Init(instrs), Trail(|i.lits|), false) + Header(false, |i.lits|) + i.lits;
    PatchMatch(i.form, i.len, i.off, t);
    PatchBehind(pre, MatchBytes(i.form, i.len, i.off, 0), t);
  }

  lemma PatchBehind(pre: seq<byte>, m: seq<byte>, t: nat)
    requires 1 <= t <= 3 && |m| >= 2
    ensures Patched(pre + m, t) == pre + m[|m| - 2 := OrLow2(m[|m| - 2], t)]
  {
    hide OrLow2;
  }

  lemma PatchMatch(form: Form, len: nat, off: nat, t: nat)
    requires Codes(form, len, off) && 1 <= t <= 3
    ensures var m := MatchBytes(form, len, off, 0); MatchBytes(form, len, off, t) == m[|m| - 2 := OrLow2(m[|m| - 2], t)]
  {
    hide CountBytes, OrLow2, OffsetBytes;
    match form
    case M1 => OrZero((if len == 2 then off - 1 else off - 1 - M2_MAX_OFFSET) % 4 * 4, t);
    case M2 =>
      M2Bits(len, off - 1, 0);
      OrZero((len - 1) * 32 + (off - 1) % 8 * 4, t);
    case M3 => PatchOffset(off - 1, t);
    case M4 => PatchOffset((off - 0x4000) % 0x4000, t);
  }

  lemma PatchOffset(o: nat, t: nat)
    requires o < 0x4000 && 1 <= t <= 3
    ensures var m := OffsetBytes(o, 0); OffsetBytes(o, t) == m[0 := OrLow2(m[0], t)]
  {
    hide OrLow2;
    assert o * 4 % 256 == o % 64 * 4;
    OrZero(o * 4 % 256, t);
  }

  lemma OrZero(b: byte, t: nat)
    requires t <= 3 && b % 4 == 0
    ensures OrLow2(b, t) == b + t
  {}

  // ---------------------------------------------------------------- chunks

  /** What has been emitted so far: `out` encodes instructions that stand for the first `ii` bytes. */
  ghost predicate Emitted(s: seq<byte>, ii: nat, out: seq<byte>, instrs: seq<Instr>) {
    Meaningful(instrs) && Greedy(instrs) && ii <= |s| && Expand(instrs) == s[..ii] && out == Encode(instrs, 0, false)
  }

  predicate Roomy(s: seq<byte>, cap: nat) { cap >= |s| + |s| / 16 + 67 }

  /** The bytes of a run of `t` literals and the match behind it, after the output `out`. */
  function RunAndMatch(out: seq<byte>, lits: seq<byte>, len: nat, off: nat): seq<byte>
    requires (1 <= |lits| <= 3 ==> |out| >= 2) && 4 <= len && 1 <= off <= M4_MAX_OFFSET
  {
    Patched(out, |lits|) + RunHeader(|lits|) + lits + Token(len, off, 0)
  }

  lemma Extends(s: seq<byte>, ii: nat, ip: nat, mLen: nat, mOff: nat, out: seq<byte>, instrs: seq<Instr>)
    returns (next: seq<Instr>)
    requires Emitted(s, ii, out, instrs) && ii <= ip && 4 <= mLen && ip + mLen <= |s|
    requires 1 <= mOff <= M4_MAX_OFFSET && mOff <= ip && (out == [] ==> ip - ii >= 4)
    requires forall j :: ip <= j < ip + mLen ==> s[j] == s[j - mOff]
    ensures var t := ip - ii;
            (1 <= t <= 3 ==> |out| >= 2) &&
            Emitted(s, ip + mLen, RunAndMatch(out, s[ii..ip], mLen, mOff), next)
  {
    hide Meaningful, Greedy, Expand, Encode, Token, RunHeader, CopyMatch, Patched;
    var t, i := ip - ii, Instr(s[ii..ip], Chosen(mLen, mOff), mLen, mOff);
    next := instrs + [i];
    assert s[..ii] + s[ii..ip] == s[..ip];
    EmptyEncode(instrs);
    ExpandMore(instrs, i, s[..ip]);
    CopyOccurrence(s, ip, mOff, mLen);
    if 1 <= t <= 3 { PatchEncodes(instrs, t); } else { NotPatched(out, t); }
    EncodeMore(instrs, i);
  }

  /** One more instruction, behind instructions that stand for the text before its literals. */
  lemma ExpandMore(instrs: seq<Instr>, i: Instr, text: seq<byte>)
    requires Meaningful(instrs) && Greedy(instrs) && Expand(instrs) + i.lits == text
    requires 4 <= i.len && 1 <= i.off <= M4_MAX_OFFSET && i.form == Chosen(i.len, i.off)
    requires i.off <= |text| && (instrs == [] ==> 4 <= |i.lits|)
    ensures Meaningful(instrs + [i]) && Greedy(instrs + [i])
    ensures Expand(instrs + [i]) == CopyMatch(text, i.off, i.len)
  {
    hide CopyMatch;
    InitLast(instrs, i);
  }

  lemma EncodeMore(instrs: seq<Instr>, i: Instr)
    requires Meaningful(instrs) && Meaningful(instrs + [i]) && 4 <= i.len && 1 <= i.off <= M4_MAX_OFFSET
    requires i.form == Chosen(i.len, i.off)
    ensures Encode(instrs + [i], 0, false) ==
            Encode(instrs, Trail(|i.lits|), false) + RunHeader(|i.lits|) + i.lits + Token(i.len, i.off, 0)
  {
    hide Expand, RunHeader, MatchBytes;
    InitLast(instrs, i);
  }

  lemma InitLast(instrs: seq<Instr>, i: Instr)
    ensures Init(instrs + [i]) == instrs && Last(instrs + [i]) == i
  {}

  /** What has been emitted always fits. */
  lemma EmittedFits(s: seq<byte>, ii: nat, out: seq<byte>, instrs: seq<Instr>, cap: nat)
    requires Emitted(s, ii, out, instrs) && Roomy(s, cap)
    ensures |out| <= cap
  {
    hide Meaningful, Greedy, Expand, Encode;
    EncodeSize(instrs, 0);
  }

  method EmitMatch(s: seq<byte>, ii: nat, ip: nat, mLen: nat, mPos: nat, out: array<byte>, op0: nat,
                   ghost instrs0: seq<Instr>)
    returns (op: nat, ghost instrs: seq<Instr>)
    requires op0 <= out.Length && Roomy(s, out.Length) && Emitted(s, ii, out[..op0], instrs0)
    requires ii <= ip && 4 <= mLen && ip + mLen <= |s| && mPos < ip && ip - mPos <= M4_MAX_OFFSET
    requires op0 == 0 ==> ip - ii >= 4
    requires Same(s, ip, mPos, mLen)
    modifies out
    ensures op0 < op <= out.Length && Emitted(s, ip + mLen, out[..op], instrs)
  {
    hide RunHeader, Token, Patched, Emitted;
    var t := ip - ii;
    ghost var o := out[..op0];
    instrs := Extends(s, ii, ip, mLen, ip - mPos, o, instrs0);
    EmittedFits(s, ip + mLen, RunAndMatch(o, s[ii..ip], mLen, ip - mPos), instrs, out.Length);
    op := PutRunHeader(t, out, op0);
    PutBytes(s, ii, t, out, op);
    op := op + t;
    op := PutMatch(mLen, ip - mPos, out, op);
  }

  /** Match within the `inLen` bytes from `in0`, the last `ti0` bytes before them being literals not yet
      emitted.  Returns the new output position and the number of literals left over, at least nine. */
  method CompressChunk(s: seq<byte>, in0: nat, inLen: nat, ti0: nat, out: array<byte>, op0: nat, dict: array<nat>,
                       ghost instrs0: seq<Instr>)
    returns (op: nat, rest: nat, ghost instrs: seq<Instr>)
    requires 20 < inLen <= CHUNK && in0 + inLen <= |s| && ti0 <= in0 && out as object != dict
    requires op0 <= out.Length && Roomy(s, out.Length) && Emitted(s, in0 - ti0, out[..op0], instrs0)
    requires dict.Length == DICT_SIZE && forall k :: 0 <= k < DICT_SIZE ==> dict[k] == 0
    modifies out, dict
    ensures op0 <= op <= out.Length && 9 <= rest <= in0 + inLen
    ensures Emitted(s, in0 + inLen - rest, out[..op], instrs)
  {
    hide Emitted, Load, Roomy, DictIndex, Same;
    var ipEnd := in0 + inLen - 20;
    op := op0;
    var ip, ii, ti := in0, in0, ti0;
    instrs := instrs0;
    ip := ip + if ti < 4 then 4 - ti else 0;
    var literal := true;
    while true
      invariant in0 <= ii <= ip <= ipEnd + 20 && 0 <= ti <= ii && in0 < ip + (if literal then 1 else 0)
      invariant ii <= ipEnd + 11 && (literal ==> ip <= ipEnd + 4)
      invariant op0 <= op <= out.Length && Emitted(s, ii - ti, out[..op], instrs)
      invariant op == 0 ==> ip - ii + ti >= 4
      invariant forall k :: 0 <= k < DICT_SIZE ==> dict[k] < ip - in0 + (if literal then 1 else 0)
      decreases ipEnd + 40 - ip, !literal
    {
      if literal { ip := ip + 1 + (ip - ii) / 32; }
      if ip >= ipEnd { break; }
      var dv := Load(s, ip, 4);
      var dindex := DictIndex(dv);
      var mPos := in0 + dict[dindex];
      dict[dindex] := (ip - in0) % 0x1_0000;
      literal := dv != Load(s, mPos, 4);
      if !literal {
        SameWord(s, ip, mPos);
        var mLen := MatchLength(s, ip, mPos, ipEnd);
        op, instrs := EmitMatch(s, ii - ti, ip, mLen, mPos, out, op, instrs);
        ip, ti := ip + mLen, 0;
        ii := ip;
      }
    }
    rest := in0 + inLen - (ii - ti);
  }

  lemma SameWord(s: seq<byte>, a: nat, b: nat)
    requires a + 4 <= |s| && b + 4 <= |s| && Load(s, a, 4) == Load(s, b, 4)
    ensures Same(s, a, b, 4)
  {
    hide Xor, Load;
    CommonAgrees(s, a, b, 4);
    FirstDifference(s, a, b, 4);
    XorZero(Load(s, a, 4), Load(s, b, 4));
  }

  // ---------------------------------------------------------------- the whole input

  /** What comes before the last `t` literals, behind the output `o`. */
  function TailHead(o: seq<byte>, t: nat): seq<byte>
    requires o == [] || |o| >= 2
  {
    if o == [] && 0 < t <= 238 then [17 + t] else if o == [] then RunHeader(t) else Patched(o, t) + RunHeader(t)
  }

  method PutTailHead(t: nat, out: array<byte>, op0: nat) returns (op: nat)
    requires op0 <= out.Length && (op0 == 0 || op0 >= 2) && |TailHead(out[..op0], t)| <= out.Length
    modifies out
    ensures op <= out.Length && out[..op] == TailHead(old(out[..op0]), t)
  {
    hide RunHeader, Patched;
    op := op0;
    if op == 0 && 0 < t <= 238 {
      out[op] := 17 + t;
      op := op + 1;
    } else {
      ShortHeader(t);
      op := PutRunHeader(t, out, op);
    }
  }

  /** The last literals and the end marker. */
  method PutTail(s: seq<byte>, t: nat, out: array<byte>, op0: nat, ghost instrs: seq<Instr>) returns (op: nat)
    requires t <= |s| && op0 <= out.Length && Roomy(s, out.Length)
    requires Emitted(s, |s| - t, out[..op0], instrs)
    modifies out
    ensures op <= |s| + |s| / 16 + 4 <= out.Length
    ensures Meaningful(instrs) && Greedy(instrs) && out[..op] == Output(instrs, s[|s| - t..])
    ensures Expand(instrs) + s[|s| - t..] == s
  {
    hide Meaningful, Greedy, Expand, Encode, Output, TailHead, Emitted;
    ghost var o, lits, n := out[..op0], s[|s| - t..], |s| - t;
    TailStream(s, t, o, instrs);
    StreamSize(instrs, lits);
    op := PutTailHead(t, out, op0);
    assert s[n..n + t] == lits && END_MARKER[0..3] == END_MARKER;
    PutBytes(s, |s| - t, t, out, op);
    op := op + t;
    PutBytes(END_MARKER, 0, 3, out, op);
    op := op + 3;
  }

  lemma ShortHeader(t: nat)
    ensures t == 0 ==> RunHeader(t) == []
  {}

  /** The stream is the output so far, the head of the tail, the last literals and the end marker. */
  lemma TailStream(s: seq<byte>, t: nat, o: seq<byte>, instrs: seq<Instr>)
    requires t <= |s| && Emitted(s, |s| - t, o, instrs)
    ensures Meaningful(instrs) && Greedy(instrs) && (o != [] ==> |o| >= 2) && Expand(instrs) + s[|s| - t..] == s
    ensures TailHead(o, t) + s[|s| - t..] + END_MARKER == Output(instrs, s[|s| - t..])
  {
    hide Meaningful, Greedy, Expand, Encode, RunHeader, Patched;
    EmptyEncode(instrs);
    var lits := s[|s| - t..];
    assert s[..|s| - t] + lits == s;
    if o == [] {
      assert Encode(instrs, Trail(t), Short(instrs, lits)) == [];
      assert [] + Tail(Short(instrs, lits), lits) == Tail(Short(instrs, lits), lits);
    } else {
      if 1 <= t <= 3 { PatchEncodes(instrs, t); } else { NotPatched(o, t); }
      Regrouped(Patched(o, t), RunHeader(t), lits, END_MARKER);
    }
  }

  lemma NotPatched(o: seq<byte>, t: nat)
    requires !(1 <= t <= 3)
    ensures Patched(o, t) == o && Trail(t) == 0
  {}

  lemma Regrouped(a: seq<byte>, b: seq<byte>, c: seq<byte>, d: seq<byte>)
    ensures a + b + c + d == a + (b + c + d)
  {}

  lemma EmptyEncode(instrs: seq<Instr>)
    requires Meaningful(instrs)
    ensures instrs == [] <==> Encode(instrs, 0, false) == []
    ensures instrs == [] ==> forall t, opening :: 0 <= t <= 3 ==> Encode(instrs, t, opening) == []
  {}

  /** For every input, the compressed form fits the room callers provide, is at most four bytes
      more than one sixteenth longer than the input, and the safe decompressor, given room for the
      input, returns it and has consumed the whole stream. */
  method Compress(s: seq<byte>, out: array<byte>, dict: array<nat>) returns (outLen: nat)
    requires |s| < MAX_SIZE && Roomy(s, out.Length) && dict.Length == DICT_SIZE && out as object != dict
    modifies out, dict
    ensures outLen <= |s| + |s| / 16 + 4 <= out.Length
    ensures forall cap :: cap >= |s| ==> Decode(out[..outLen], cap) == Halted(Ok, s)
  {
    hide Meaningful, Greedy, Expand, Encode, Decode;
    var ip, op, l, t := 0, 0, |s|, 0;
    ghost var instrs: seq<Instr> := [];
    NothingEmitted(s);
    assert out[..0] == [];
    while l > 20
      invariant 0 <= l && ip + l == |s| && 0 <= t <= ip && 0 <= op <= out.Length
      invariant Emitted(s, ip - t, out[..op], instrs)
    {
      var ll := if l < CHUNK then l else CHUNK;
      if (t + ll) / 32 == 0 { break; }
      forall k | 0 <= k < DICT_SIZE { dict[k] := 0; }
      op, t, instrs := CompressChunk(s, ip, ll, t, out, op, dict, instrs);
      ip, l := ip + ll, l - ll;
    }
    t := t + l;
    outLen := PutTail(s, t, out, op, instrs);
    forall cap | cap >= |s| ensures Decode(out[..outLen], cap) == Halted(Ok, s) {
      OutputDecodes(instrs, s[|s| - t..], cap);
    }
  }

  /** What the compressor emits is a stream the decoder knows. */
  lemma OutputDecodes(instrs: seq<Instr>, lits: seq<byte>, cap: nat)
    requires Meaningful(instrs) && Greedy(instrs) && |Text(instrs, lits)| <= cap && |Text(instrs, lits)| < MAX_SIZE
    ensures Decode(Output(instrs, lits), cap) == Halted(Ok, Text(instrs, lits))
  {
    hide Meaningful, Expand, Encode, Decode, Stream;
    FirstRun(instrs);
    hide Greedy;
    assert Output(instrs, lits) + [] == Output(instrs, lits);
    StreamDecodes(instrs, lits, Short(instrs, lits), [], cap);
  }

  lemma {:induction false} FirstRun(instrs: seq<Instr>)
    requires Greedy(instrs)
    ensures instrs != [] ==> |instrs[0].lits| >= 4
  {
    if |instrs| <= 1 {
    } else {
      FirstRun(Init(instrs));
      assert Init(instrs)[0] == instrs[0];
    }
  }

  lemma NothingEmitted(s: seq<byte>)
    ensures Emitted(s, 0, [], [])
  {}
}
