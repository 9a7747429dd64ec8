/** Decoding undoes encoding, for every well-formed list of instructions, and the encoding
    is never much longer than what it stands for. */
module LzoRoundTrip {
  import opened Bytes
  import opened LzoFormat

  /** Object sizes in C stay below this, so a count of their bytes never comes near the
      decoder's overflow tests. */
  const MAX_SIZE: nat := 0x8000_0000_0000_0000

  predicate HasAt(s: seq<byte>, ip: nat, part: seq<byte>) {
    ip + |part| <= |s| && s[ip..ip + |part|] == part
  }

  lemma HasParts(s: seq<byte>, ip: nat, a: seq<byte>, b: seq<byte>)
    requires HasAt(s, ip, a + b)
    ensures HasAt(s, ip, a) && HasAt(s, ip + |a|, b)
  {
    assert s[ip..ip + |a|] == s[ip..ip + |a + b|][..|a|] == (a + b)[..|a|] == a;
    assert s[ip + |a|..ip + |a| + |b|] == s[ip..ip + |a + b|][|a|..] == (a + b)[|a|..] == b;
  }

  lemma HasSlice(s: seq<byte>, ip: nat, part: seq<byte>)
    requires HasAt(s, ip, part)
    ensures ip + |part| <= |s| && s[ip..ip + |part|] == part
  {}

  lemma HasByte(s: seq<byte>, ip: nat, part: seq<byte>, k: nat)
    requires HasAt(s, ip, part) && k < |part|
    ensures ip + k < |s| && s[ip + k] == part[k]
  {
    assert s[ip + k] == s[ip..ip + |part|][k];
  }

  lemma {:induction false} ReadExtension(s: seq<byte>, ip: nat, base: nat, n: nat, overflow: Status)
    requires n > 0 && base + n <= MAX_SIZE && HasAt(s, ip, Extension(n))
    ensures ReadCount(s, ip, base, overflow) == Count(base + n, ip + |Extension(n)|)
    decreases n
  {
    hide HasAt;
    HasByte(s, ip, Extension(n), 0);
    if n <= 255 {
    } else {
      HasParts(s, ip, [0], Extension(n - 255));
      hide Extension;
      ReadExtension(s, ip + 1, base + 255, n - 255, overflow);
    }
  }

  /** The mode in which `t` trailing literals are still to come. */
  function Entry(t: nat): Mode { if t == 0 then Top else MatchNext(t) }

  lemma TakeDecodes(s: seq<byte>, cap: nat, out: seq<byte>, off: nat, len: nat, ip: nat, t: nat)
    requires 1 <= off <= |out| && |out| + len <= cap && t <= 3
    requires 2 <= ip <= |s| && s[ip - 2] % 4 == t
    ensures TakeMatch(s, cap, out, off, len, ip) == Running(ip, CopyMatch(out, off, len), Entry(t))
  {}

  lemma M2Bits(len: nat, o: nat, t: nat)
    requires 3 <= len <= M2_MAX_LEN && o < M2_MAX_OFFSET && t <= 3
    ensures var b := (len - 1) * 32 + o % 8 * 4 + t;
            64 <= b < 256 && b / 4 % 8 == o % 8 && b / 32 == len - 1 && b % 4 == t
  {
    M2Digits(len - 1, o % 8, t);
  }

  lemma M2Digits(h: nat, m: nat, t: nat)
    requires m < 8 && t < 4
    ensures var b := h * 32 + m * 4 + t; b / 4 == h * 8 + m && b / 4 % 8 == m && b / 32 == h && b % 4 == t
  {}

  lemma M2Takes(s: seq<byte>, cap: nat, ip: nat, out: seq<byte>, len: nat, off: nat, t: nat)
    requires Codes(M2, len, off) && t <= 3 && HasAt(s, ip, MatchBytes(M2, len, off, t)) && ip + 3 <= |s|
    requires |out| <= cap
    ensures s[ip] >= 16 && MatchStep(s, cap, ip, out) == TakeMatch(s, cap, out, off, len, ip + 2) && s[ip] % 4 == t
  {
    var o, m := off - 1, MatchBytes(M2, len, off, t);
    hide CopyMatch, TakeMatch, LongStep, HasAt;
    M2Bits(len, o, t);
    HasByte(s, ip, m, 0);
    HasByte(s, ip, m, 1);
    assert m[0] == (len - 1) * 32 + o % 8 * 4 + t && m[1] == o / 8;
    assert 1 + o % 8 + o / 8 * 8 == off;
  }

  /** The mode in which the shortest form stands for `len` bytes. */
  function ShortMode(len: nat): Mode { if len == 2 then AfterTrail else AfterRun }

  lemma ShortBits(o: nat, t: nat)
    requires o < 0x400 && t <= 3
    ensures var b := o % 4 * 4 + t; b < 16 && b / 4 == o % 4 && b % 4 == t && o % 4 + o / 4 * 4 == o && o / 4 < 256
  {}

  /** A token below 16: two bytes behind trailing literals, three bytes farther away behind a run. */
  lemma M1Takes(s: seq<byte>, cap: nat, ip: nat, out: seq<byte>, len: nat, off: nat, t: nat)
    requires Codes(M1, len, off) && t <= 3 && HasAt(s, ip, MatchBytes(M1, len, off, t)) && ip + 3 <= |s|
    requires |out| <= cap
    ensures Fits(s, cap, Running(ip, out, ShortMode(len))) && s[ip] % 4 == t
    ensures Step(s, cap, Running(ip, out, ShortMode(len))) == TakeMatch(s, cap, out, off, len, ip + 2)
  {
    var o, m := if len == 2 then off - 1 else off - 1 - M2_MAX_OFFSET, MatchBytes(M1, len, off, t);
    hide CopyMatch, TakeMatch, MatchStep, HasAt;
    ShortBits(o, t);
    HasByte(s, ip, m, 0);
    HasByte(s, ip, m, 1);
    assert m[0] == o % 4 * 4 + t && m[1] == o / 4;
  }

  lemma OffsetDecodes(s: seq<byte>, ip: nat, o: nat, t: nat)
    requires o < 0x4000 && t <= 3 && HasAt(s, ip, OffsetBytes(o, t))
    ensures TokenOffset(s, ip) == o && s[ip] % 4 == t
  {
    HasByte(s, ip, OffsetBytes(o, t), 0);
    HasByte(s, ip, OffsetBytes(o, t), 1);
    hide HasAt;
    assert o * 4 % 256 == o % 64 * 4;
  }

  lemma ShortCount8(q: nat, n: nat)
    requires n < 8
    ensures (8 * q + n) % 8 == n
  {}

  lemma ShortCount32(q: nat, n: nat)
    requires n < 32
    ensures (32 * q + n) % 32 == n
  {}

  lemma ShortCount(marker: nat, width: nat, n: nat)
    requires (width == 8 || width == 32) && marker % width == 0 && n < width
    ensures (marker + n) % width == n
  {
    if width == 8 { ShortCount8(marker / 8, n); } else { ShortCount32(marker / 32, n); }
  }

  lemma CountDecodes(s: seq<byte>, ip: nat, marker: byte, width: nat, n: nat)
    requires 0 < n <= MAX_SIZE && (width == 8 || width == 32) && marker % width == 0 && marker + width <= 256
    requires HasAt(s, ip, CountBytes(marker, width, n)) && ip + 1 < |s|
    ensures marker <= s[ip] < marker + width
    ensures TokenCount(s, ip, width) == Count(n, ip + |CountBytes(marker, width, n)|)
  {
    hide HasAt, ReadCount, Extension;
    HasByte(s, ip, CountBytes(marker, width, n), 0);
    if n < width {
      ShortCount(marker, width, n);
    } else {
      HasParts(s, ip, [marker], Extension(n - (width - 1)));
      ReadExtension(s, ip + 1, 0, n - (width - 1), OutputOverrun);
    }
  }

  lemma M3Takes(s: seq<byte>, cap: nat, ip: nat, out: seq<byte>, len: nat, off: nat, t: nat)
    requires Codes(M3, len, off) && len < MAX_SIZE && t <= 3
    requires HasAt(s, ip, MatchBytes(M3, len, off, t)) && ip + 3 <= |s| && |out| <= cap
    ensures s[ip] >= 16
    ensures var end := ip + |MatchBytes(M3, len, off, t)|;
            MatchStep(s, cap, ip, out) == TakeMatch(s, cap, out, off, len, end) && s[end - 2] % 4 == t
  {
    hide TokenCount, TokenOffset, CopyMatch, CountBytes, OffsetBytes, TakeMatch, HasAt;
    var head := CountBytes(32, 32, len - 2);
    HasParts(s, ip, head, OffsetBytes(off - 1, t));
    CountDecodes(s, ip, 32, 32, len - 2);
    OffsetDecodes(s, ip + |head|, off - 1, t);
  }

  lemma M4Takes(s: seq<byte>, cap: nat, ip: nat, out: seq<byte>, len: nat, off: nat, t: nat)
    requires Codes(M4, len, off) && len < MAX_SIZE && t <= 3
    requires HasAt(s, ip, MatchBytes(M4, len, off, t)) && ip + 3 <= |s| && |out| <= cap
    ensures s[ip] >= 16
    ensures var end := ip + |MatchBytes(M4, len, off, t)|;
            MatchStep(s, cap, ip, out) == TakeMatch(s, cap, out, off, len, end) && s[end - 2] % 4 == t
  {
    hide TokenCount, TokenOffset, CopyMatch, CountBytes, OffsetBytes, TakeMatch, HasAt;
    var o := off - 0x4000;
    var marker := 16 + o / 0x4000 * 8;
    var head := CountBytes(marker, 8, len - 2);
    HasParts(s, ip, head, OffsetBytes(o % 0x4000, t));
    CountDecodes(s, ip, marker, 8, len - 2);
    OffsetDecodes(s, ip + |head|, o % 0x4000, t);
    MarkerBit(o / 0x4000, s[ip]);
  }

  lemma MarkerBit(h: nat, b: nat)
    requires h <= 1 && 16 + h * 8 <= b < 16 + h * 8 + 8
    ensures b / 8 % 2 == h
  {}

  /** The decoder between the literals of an instruction and its match. */
  function Behind(n: nat): Mode { if n == 0 then Top else if n <= 3 then AfterTrail else AfterRun }

  /** Every match token is read back, wherever its form can stand: its length, its distance, its end, and its spare
      bits. */
  lemma MatchTakes(s: seq<byte>, cap: nat, ip: nat, out: seq<byte>, i: Instr, t: nat)
    requires Codable(i) && i.len < MAX_SIZE && t <= 3 && ip + 3 <= |s| && |out| <= cap
    requires HasAt(s, ip, MatchBytes(i.form, i.len, i.off, t))
    ensures Fits(s, cap, Running(ip, out, Behind(|i.lits|)))
    ensures var end := ip + |MatchBytes(i.form, i.len, i.off, t)|;
            end <= |s| && s[end - 2] % 4 == t &&
            Step(s, cap, Running(ip, out, Behind(|i.lits|))) == TakeMatch(s, cap, out, i.off, i.len, end)
  {
    HasSlice(s, ip, MatchBytes(i.form, i.len, i.off, t));
    hide Step, MatchStep, MatchBytes, TakeMatch, HasAt;
    match i.form
    case M1 =>
      ShortLength(i.len, i.off, t);
      M1Takes(s, cap, ip, out, i.len, i.off, t);
    case M2 =>
      ShortLength(i.len, i.off, t);
      M2Takes(s, cap, ip, out, i.len, i.off, t);
      StepsAsMatch(s, cap, ip, out, |i.lits|);
    case M3 =>
      M3Takes(s, cap, ip, out, i.len, i.off, t);
      StepsAsMatch(s, cap, ip, out, |i.lits|);
    case M4 =>
      M4Takes(s, cap, ip, out, i.len, i.off, t);
      StepsAsMatch(s, cap, ip, out, |i.lits|);
  }

  /** With the bytes it copies and room for them, a match is copied. */
  lemma MatchDecodes(s: seq<byte>, cap: nat, ip: nat, out: seq<byte>, i: Instr, t: nat)
    requires Codable(i) && i.len < MAX_SIZE && t <= 3 && ip + 3 <= |s|
    requires HasAt(s, ip, MatchBytes(i.form, i.len, i.off, t)) && i.off <= |out| && |out| + i.len <= cap
    ensures Fits(s, cap, Running(ip, out, Behind(|i.lits|)))
    ensures Step(s, cap, Running(ip, out, Behind(|i.lits|)))
            == Running(ip + |MatchBytes(i.form, i.len, i.off, t)|, CopyMatch(out, i.off, i.len), Entry(t))
  {
    hide Step, MatchBytes, CopyMatch, HasAt, TakeMatch, Behind, Entry;
    assert i.off >= 1;
    hide Codes;
    MatchTakes(s, cap, ip, out, i, t);
    TakeDecodes(s, cap, out, i.off, i.len, ip + |MatchBytes(i.form, i.len, i.off, t)|, t);
  }

  /** A token of at least 16 is a match in every mode. */
  lemma StepsAsMatch(s: seq<byte>, cap: nat, ip: nat, out: seq<byte>, n: nat)
    requires ip + 3 <= |s| && s[ip] >= 16 && |out| <= cap
    ensures Fits(s, cap, Running(ip, out, Behind(n)))
    ensures Step(s, cap, Running(ip, out, Behind(n))) == MatchStep(s, cap, ip, out)
  {
    hide MatchStep;
  }

  lemma ShortLength(len: nat, off: nat, t: nat)
    requires t <= 3
    ensures Codes(M1, len, off) ==> |MatchBytes(M1, len, off, t)| == 2
    ensures Codes(M2, len, off) ==> |MatchBytes(M2, len, off, t)| == 2
  {}

  lemma RunDecodes(s: seq<byte>, cap: nat, ip: nat, out: seq<byte>, lits: seq<byte>)
    requires 4 <= |lits| <= MAX_SIZE && HasAt(s, ip, RunHeader(|lits|) + lits)
    requires ip + |RunHeader(|lits|)| + |lits| + 3 <= |s| && |out| + |lits| <= cap
    ensures Step(s, cap, Running(ip, out, Top)) == Running(ip + |RunHeader(|lits|)| + |lits|, out + lits, AfterRun)
  {
    hide MatchStep, Extension, ReadCount, HasAt;
    var n := |lits|;
    var header := RunHeader(n);
    HasParts(s, ip, header, lits);
    HasByte(s, ip, header, 0);
    HasSlice(s, ip + |header|, lits);
    if n > 18 {
      HasParts(s, ip, [0], Extension(n - 18));
      ReadExtension(s, ip + 1, 0, n - 18, InputOverrun);
    }
  }

  /** Where the decoder stands before the literals of an instruction; the first byte of a stream is special. */
  function Entering(s: seq<byte>, cap: nat, ip: nat, out: seq<byte>, opening: bool, n: nat): State {
    if opening then Start(s, cap) else Running(ip, out, Entry(Trail(n)))
  }

  /** The literals a first byte counts. */
  lemma OpeningDecodes(s: seq<byte>, cap: nat, lits: seq<byte>)
    requires 1 <= |lits| <= 238 && HasAt(s, 0, [17 + |lits|] + lits) && |lits| + 4 <= |s| && |lits| <= cap
    ensures Run(s, cap, Start(s, cap)) == Run(s, cap, Running(1 + |lits|, lits, Behind(|lits|)))
  {
    hide HasAt, MatchStep, TopStep;
    HasByte(s, 0, [17 + |lits|] + lits, 0);
    HasParts(s, 0, [17 + |lits|], lits);
    HasSlice(s, 1, lits);
    assert [] + lits == lits;
    RunStep(s, cap, Start(s, cap));
  }

  /** The literals before a token, wherever their count is kept. */
  lemma LiteralsDecode(s: seq<byte>, cap: nat, ip: nat, out: seq<byte>, lits: seq<byte>, opening: bool)
    requires |lits| <= MAX_SIZE && HasAt(s, ip, Header(opening, |lits|) + lits)
    requires ip + |Header(opening, |lits|)| + |lits| + 3 <= |s| && |out| + |lits| <= cap
    requires opening ==> ip == 0 && out == [] && 1 <= |lits| <= 238
    ensures Fits(s, cap, Entering(s, cap, ip, out, opening, |lits|))
    ensures var st := Running(ip + |Header(opening, |lits|)| + |lits|, out + lits, Behind(|lits|));
            Fits(s, cap, st) && Run(s, cap, Entering(s, cap, ip, out, opening, |lits|)) == Run(s, cap, st)
  {
    if opening {
      OpeningDecodes(s, cap, lits);
      assert out + lits == lits;
    } else if lits == [] {
      assert out + lits == out;
    } else {
      hide Run, TopStep, MatchStep;
      if |lits| >= 4 {
        RunDecodes(s, cap, ip, out, lits);
      } else {
        assert RunHeader(|lits|) + lits == lits;
      }
      RunStep(s, cap, Entering(s, cap, ip, out, opening, |lits|));
    }
  }

  lemma RunStep(s: seq<byte>, cap: nat, st: State)
    requires Fits(s, cap, st) && st.Running?
    ensures Run(s, cap, st) == Run(s, cap, Step(s, cap, st))
  {}

  /** What an instruction is written as. */
  function InstrBytes(i: Instr, t: nat, opening: bool): seq<byte>
    requires Codable(i) && t <= 3
  {
    Header(opening, |i.lits|) + i.lits + MatchBytes(i.form, i.len, i.off, t)
  }

  lemma InstrDecodes(s: seq<byte>, cap: nat, ip: nat, out: seq<byte>, i: Instr, t: nat, opening: bool)
    requires Codable(i) && |i.lits| <= MAX_SIZE && i.len < MAX_SIZE && t <= 3
    requires i.off <= |out| + |i.lits| && |out| + |i.lits| + i.len <= cap
    requires HasAt(s, ip, InstrBytes(i, t, opening)) && ip + |InstrBytes(i, t, opening)| + t + 3 <= |s|
    requires opening ==> ip == 0 && out == [] && 1 <= |i.lits| <= 238
    ensures Fits(s, cap, Entering(s, cap, ip, out, opening, |i.lits|))
    ensures var st := Running(ip + |InstrBytes(i, t, opening)|, CopyMatch(out + i.lits, i.off, i.len), Entry(t));
            Fits(s, cap, st) && Run(s, cap, Entering(s, cap, ip, out, opening, |i.lits|)) == Run(s, cap, st)
  {
    hide Run, Step, Header, MatchBytes, CopyMatch, Entering, HasAt;
    var pre := Header(opening, |i.lits|) + i.lits;
    HasParts(s, ip, pre, MatchBytes(i.form, i.len, i.off, t));
    LiteralsDecode(s, cap, ip, out, i.lits, opening);
    MatchDecodes(s, cap, ip + |pre|, out + i.lits, i, t);
    RunStep(s, cap, Running(ip + |pre|, out + i.lits, Behind(|i.lits|)));
  }

  /** The decoder behind the bytes of `instrs`. */
  ghost function After(s: seq<byte>, cap: nat, instrs: seq<Instr>, t: nat, opening: bool): State
    requires Meaningful(instrs) && t <= 3
  {
    if instrs == [] then Entering(s, cap, 0, [], opening, 0)
    else Running(|Encode(instrs, t, opening)|, Expand(instrs), Entry(t))
  }

  ghost predicate Placed(s: seq<byte>, cap: nat, instrs: seq<Instr>, t: nat, opening: bool)
    requires Meaningful(instrs) && t <= 3
  {
    (instrs == [] || Opens(instrs, [], opening)) && HasAt(s, 0, Encode(instrs, t, opening)) &&
    |Encode(instrs, t, opening)| + t + 3 <= |s| && |Expand(instrs)| <= cap && |Expand(instrs)| < MAX_SIZE
  }

  /** After the bytes of `instrs`, the decoder has written exactly what they stand for. */
  lemma {:induction false} PrefixDecodes(s: seq<byte>, cap: nat, instrs: seq<Instr>, t: nat, opening: bool)
    requires Meaningful(instrs) && t <= 3 && Placed(s, cap, instrs, t, opening)
    ensures Fits(s, cap, After(s, cap, instrs, t, opening))
    ensures Run(s, cap, After(s, cap, [], 0, opening)) == Run(s, cap, After(s, cap, instrs, t, opening))
  {
    hide Run, Start, Header, MatchBytes, CopyMatch, HasAt;
    if instrs == [] {
    } else {
      var init, i := Init(instrs), Last(instrs);
      LastEncoded(instrs, t, opening);
      PlacedInit(s, cap, instrs, t, opening);
      PrefixDecodes(s, cap, init, Trail(|i.lits|), opening);
      InstrDecodes(s, cap, |Encode(init, Trail(|i.lits|), opening)|, Expand(init), i, t, opening && init == []);
    }
  }

  lemma LastEncoded(instrs: seq<Instr>, t: nat, opening: bool)
    requires Meaningful(instrs) && instrs != [] && t <= 3
    ensures var i := Last(instrs);
            Encode(instrs, t, opening) == Encode(Init(instrs), Trail(|i.lits|), opening) +
                                          InstrBytes(i, t, opening && Init(instrs) == [])
    ensures Expand(instrs) == CopyMatch(Expand(Init(instrs)) + Last(instrs).lits, Last(instrs).off, Last(instrs).len)
  {
    hide Header, MatchBytes, CopyMatch;
  }

  lemma PlacedInit(s: seq<byte>, cap: nat, instrs: seq<Instr>, t: nat, opening: bool)
    requires Meaningful(instrs) && instrs != [] && t <= 3 && Placed(s, cap, instrs, t, opening)
    ensures var init, i := Init(instrs), Last(instrs);
            var ip := |Encode(init, Trail(|i.lits|), opening)|;
            Placed(s, cap, init, Trail(|i.lits|), opening) &&
            HasAt(s, ip, InstrBytes(i, t, opening && init == [])) &&
            (init == [] ==> if opening then 1 <= |i.lits| <= 238 else |i.lits| >= 4)
  {
    hide MatchBytes, CopyMatch, HasAt;
    var init, i := Init(instrs), Last(instrs);
    LastEncoded(instrs, t, opening);
    HasParts(s, 0, Encode(init, Trail(|i.lits|), opening), InstrBytes(i, t, opening && init == []));
    if init != [] { assert init[0] == instrs[0]; } else { assert instrs[0] == i; }
    HeaderLength(opening && init == [], |i.lits|);
    hide Header, Encode;
  }

  lemma HeaderLength(opening: bool, n: nat)
    ensures |Header(opening, n)| >= 0 && Trail(n) <= n
  {}

  lemma EndDecodes(s: seq<byte>, cap: nat, st: State)
    requires Fits(s, cap, st) && st.Running? && !st.mode.MatchNext? && HasAt(s, st.ip, END_MARKER)
    ensures Run(s, cap, st) == Halted(if st.ip + 3 == |s| then Ok else InputNotConsumed, st.out)
  {
    HasByte(s, st.ip, END_MARKER, 0);
    HasByte(s, st.ip, END_MARKER, 1);
    HasByte(s, st.ip, END_MARKER, 2);
    hide HasAt;
  }

  /** Any token of the farthest form with distance zero ends the stream, whatever its count and its spare bits. */
  lemma EveryEnd(s: seq<byte>, cap: nat, ip: nat, out: seq<byte>, n: nat, t: nat, k: nat)
    requires 0 < n <= MAX_SIZE && t <= 3 && |out| <= cap && ip + 3 <= |s|
    requires HasAt(s, ip, CountBytes(16, 8, n) + OffsetBytes(0, t))
    ensures Fits(s, cap, Running(ip, out, Behind(k)))
    ensures Step(s, cap, Running(ip, out, Behind(k)))
            == Halted(if ip + |CountBytes(16, 8, n)| + 2 == |s| then Ok else InputNotConsumed, out)
  {
    hide TokenCount, TokenOffset, CountBytes, OffsetBytes, TakeMatch, HasAt, Step;
    var head := CountBytes(16, 8, n);
    HasParts(s, ip, head, OffsetBytes(0, t));
    HasSlice(s, ip + |head|, OffsetBytes(0, t));
    CountDecodes(s, ip, 16, 8, n);
    OffsetDecodes(s, ip + |head|, 0, t);
    MarkerBit(0, s[ip]);
    StepsAsMatch(s, cap, ip, out, k);
  }

  lemma {:induction false} FirstByte(instrs: seq<Instr>, t: nat)
    requires Meaningful(instrs) && instrs != [] && t <= 3 && |instrs[0].lits| >= 4
    ensures Encode(instrs, t, false)[0] <= 15
  {
    hide MatchBytes;
    var init, i := Init(instrs), Last(instrs);
    LastEncoded(instrs, t, false);
    if init == [] {
      assert i == instrs[0];
      assert Encode(instrs, t, false)[0] == InstrBytes(i, t, false)[0] == RunHeader(|i.lits|)[0];
    } else {
      assert init[0] == instrs[0];
      FirstByte(init, Trail(|i.lits|));
      assert Encode(instrs, t, false)[0] == Encode(init, Trail(|i.lits|), false)[0];
    }
  }

  /** A stream without a special first byte starts at the head of the outer loop. */
  lemma PlainStart(instrs: seq<Instr>, lits: seq<byte>, s: seq<byte>, cap: nat)
    requires Meaningful(instrs) && Opens(instrs, lits, false) && s != []
    requires HasAt(s, 0, Encode(instrs, Trail(|lits|), false))
    requires if instrs == [] && lits == [] then s[0] <= 17 else instrs == [] ==> HasAt(s, 0, RunHeader(|lits|) + lits)
    ensures Start(s, cap) == Running(0, [], Top)
  {
    hide Encode, HasAt;
    if instrs != [] {
      FirstByte(instrs, Trail(|lits|));
      HasByte(s, 0, Encode(instrs, Trail(|lits|), false), 0);
    } else if lits != [] {
      HasByte(s, 0, RunHeader(|lits|) + lits, 0);
      assert (RunHeader(|lits|) + lits)[0] == RunHeader(|lits|)[0];
    }
  }

  lemma NothingEncoded(t: nat, opening: bool)
    requires t <= 3
    ensures Meaningful([]) && Encode([], t, opening) == [] && Expand([]) == []
  {}

  /** What a stream stands for. */
  ghost function Text(instrs: seq<Instr>, lits: seq<byte>): seq<byte>
    requires Meaningful(instrs)
  {
    Expand(instrs) + lits
  }

  /** Decoding a stream gives back what its instructions and last literals stand for: for every form of match in every
      place where it can stand, with every count of literals in every place where it can be kept.  Bytes behind the end
      are noticed. */
  lemma StreamDecodes(instrs: seq<Instr>, lits: seq<byte>, opening: bool, extra: seq<byte>, cap: nat)
    requires Meaningful(instrs) && Opens(instrs, lits, opening)
    requires |Text(instrs, lits)| <= cap && |Text(instrs, lits)| < MAX_SIZE
    ensures Decode(Stream(instrs, lits, opening) + extra, cap)
            == Halted(if extra == [] then Ok else InputNotConsumed, Text(instrs, lits))
  {
    hide Run, Step, Start, Encode, Expand, Meaningful, Header, HasAt;
    var stream, t, first := Stream(instrs, lits, opening), Trail(|lits|), opening && instrs == [];
    var s, enc, pre := stream + extra, Encode(instrs, t, opening), Header(first, |lits|) + lits;
    HasFront(stream, extra);
    StreamParts(s, instrs, lits, opening);
    StreamPlaced(s, cap, instrs, lits, opening);
    PrefixDecodes(s, cap, instrs, t, opening);
    StreamEnters(s, cap, instrs, lits, opening);
    LiteralsDecode(s, cap, |enc|, Expand(instrs), lits, first);
    EndDecodes(s, cap, Running(|enc| + |pre|, Text(instrs, lits), Behind(|lits|)));
  }

  lemma HasFront(a: seq<byte>, b: seq<byte>)
    ensures HasAt(a + b, 0, a)
  {}

  /** The parts of a stream, in their places. */
  lemma StreamParts(s: seq<byte>, instrs: seq<Instr>, lits: seq<byte>, opening: bool)
    requires Meaningful(instrs) && HasAt(s, 0, Stream(instrs, lits, opening))
    ensures var enc, pre := Encode(instrs, Trail(|lits|), opening), Header(opening && instrs == [], |lits|) + lits;
            HasAt(s, 0, enc) && HasAt(s, |enc|, pre) && HasAt(s, |enc| + |pre|, END_MARKER) &&
            |Stream(instrs, lits, opening)| == |enc| + |pre| + 3
  {
    hide Encode, Header, HasAt, Meaningful;
    var enc, pre := Encode(instrs, Trail(|lits|), opening), Header(opening && instrs == [], |lits|) + lits;
    HasParts(s, 0, enc, pre + END_MARKER);
    HasParts(s, |enc|, pre, END_MARKER);
  }

  lemma StreamPlaced(s: seq<byte>, cap: nat, instrs: seq<Instr>, lits: seq<byte>, opening: bool)
    requires Meaningful(instrs) && Opens(instrs, lits, opening)
    requires |Expand(instrs)| <= cap && |Expand(instrs)| < MAX_SIZE
    requires HasAt(s, 0, Encode(instrs, Trail(|lits|), opening))
    requires |Encode(instrs, Trail(|lits|), opening)| + |lits| + 3 <= |s|
    ensures Placed(s, cap, instrs, Trail(|lits|), opening)
  {
    hide Encode, Expand, Meaningful, HasAt;
  }

  /** Between the last match and the last literals. */
  lemma EntersAfter(s: seq<byte>, cap: nat, instrs: seq<Instr>, lits: seq<byte>, opening: bool)
    requires Meaningful(instrs) && Opens(instrs, lits, opening)
    ensures After(s, cap, instrs, Trail(|lits|), opening)
            == Entering(s, cap, |Encode(instrs, Trail(|lits|), opening)|, Expand(instrs), opening && instrs == [],
                        |lits|)
    ensures instrs == [] ==> Encode(instrs, Trail(|lits|), opening) == [] && Expand(instrs) == []
  {
    hide Start;
    NothingEncoded(Trail(|lits|), opening);
    hide Encode, Expand;
  }

  lemma StreamEnters(s: seq<byte>, cap: nat, instrs: seq<Instr>, lits: seq<byte>, opening: bool)
    requires Meaningful(instrs) && Opens(instrs, lits, opening)
    requires HasAt(s, 0, Stream(instrs, lits, opening))
    ensures After(s, cap, instrs, Trail(|lits|), opening)
            == Entering(s, cap, |Encode(instrs, Trail(|lits|), opening)|, Expand(instrs), opening && instrs == [],
                        |lits|)
    ensures Start(s, cap) == After(s, cap, [], 0, opening)
    ensures instrs == [] ==> Encode(instrs, Trail(|lits|), opening) == [] && Expand(instrs) == []
  {
    hide Start, HasAt, Stream, Encode, Expand;
    EntersAfter(s, cap, instrs, lits, opening);
    StreamParts(s, instrs, lits, opening);
    if !opening {
      HasSlice(s, 0, Stream(instrs, lits, opening));
      if instrs == [] && lits == [] { HasByte(s, 0, END_MARKER, 0); }
      PlainStart(instrs, lits, s, cap);
    }
  }

  // ------------------------------------------------------------ an example

  const FOUR := Instr([97, 98, 99, 100], M2, 4, 4)
  const TWO := Instr([101], M1, 2, 1)

  lemma OneMore(instrs: seq<Instr>, i: Instr, t: nat, opening: bool)
    requires Meaningful(instrs) && Codable(i) && i.off <= |Expand(instrs)| + |i.lits| && t <= 3
    ensures Meaningful(instrs + [i])
    ensures Expand(instrs + [i]) == CopyMatch(Expand(instrs) + i.lits, i.off, i.len)
    ensures Encode(instrs + [i], t, opening)
            == Encode(instrs, Trail(|i.lits|), opening) + Header(opening && instrs == [], |i.lits|) + i.lits +
               MatchBytes(i.form, i.len, i.off, t)
  {
    assert Init(instrs + [i]) == instrs && Last(instrs + [i]) == i;
  }

  lemma FourCopied()
    ensures CopyMatch(FOUR.lits, 4, 4) == [97, 98, 99, 100, 97, 98, 99, 100]
  {
    var o := FOUR.lits;
    assert CopyMatch(o, 4, 1) == o + [97];
    assert CopyMatch(o, 4, 2) == o + [97, 98];
    assert CopyMatch(o, 4, 3) == o + [97, 98, 99];
  }

  lemma FourMeans()
    ensures Meaningful([FOUR]) && Expand([FOUR]) == [97, 98, 99, 100, 97, 98, 99, 100]
    ensures Encode([FOUR], 1, true) == [21, 97, 98, 99, 100, 109, 0]
  {
    hide CopyMatch, Encode, Expand, Meaningful, MatchBytes, Header;
    FourBytes();
    FourCopied();
    NothingEncoded(0, true);
    OneMore([], FOUR, 1, true);
    assert [] + [FOUR] == [FOUR] && [] + FOUR.lits == FOUR.lits;
    assert [] + [21] + FOUR.lits + [109, 0] == [21, 97, 98, 99, 100, 109, 0];
  }

  lemma FourBytes()
    ensures Codable(FOUR) && Trail(|FOUR.lits|) == 0 && Header(true, |FOUR.lits|) == [21]
    ensures MatchBytes(M2, 4, 4, 1) == [109, 0]
  {}

  lemma TwoMeans()
    ensures Meaningful([FOUR, TWO])
    ensures Expand([FOUR, TWO]) == [97, 98, 99, 100, 97, 98, 99, 100, 101, 101, 101]
    ensures Encode([FOUR, TWO], 0, true) == [21, 97, 98, 99, 100, 109, 0, 101, 0, 0]
  {
    hide Encode, Expand, Meaningful;
    FourMeans();
    OneMore([FOUR], TWO, 0, true);
    assert [FOUR] + [TWO] == [FOUR, TWO];
    var o := Expand([FOUR]) + TWO.lits;
    assert CopyMatch(o, 1, 1) == o + [101];
    assert CopyMatch(o, 1, 2) == o + [101, 101];
  }

  /** Eleven bytes: behind a single literal the token zero is a match of two bytes. */
  lemma TwoBytesBehindTrailing(cap: nat)
    requires cap >= 11
    ensures Decode([21, 97, 98, 99, 100, 109, 0, 101, 0, 0, 17, 0, 0], cap)
            == Halted(Ok, [97, 98, 99, 100, 97, 98, 99, 100, 101, 101, 101])
  {
    hide Decode, Encode, Expand, Meaningful;
    TwoMeans();
    var instrs := [FOUR, TWO];
    assert FirstLits(instrs, []) == [97, 98, 99, 100];
    StreamDecodes(instrs, [], true, [], cap);
    assert Text(instrs, []) == [97, 98, 99, 100, 97, 98, 99, 100, 101, 101, 101];
    assert Tail(false, []) == [17, 0, 0];
    var s := [21, 97, 98, 99, 100, 109, 0, 101, 0, 0, 17, 0, 0];
    assert Stream(instrs, [], true) == [21, 97, 98, 99, 100, 109, 0, 101, 0, 0] + [17, 0, 0] == s;
    assert s + [] == s;
  }
}
