/** Streams that are cut short, output buffers that are too small, and matches that reach back too far: what the decoder
    reports, and how much it has written by then. */
module LzoFailures {
  import opened Bytes
  import opened LzoFormat
  import opened LzoRoundTrip

  /** Decoding stops with `status`, having written the beginning of `text`. */
  ghost predicate Stops(o: State, status: Status, text: seq<byte>) { o.Halted? && o.status == status && o.out <= text }

  // ------------------------------------------------------------ too little room

  /** The literals do not fit. */
  lemma LiteralsTooMany(s: seq<byte>, cap: nat, ip: nat, out: seq<byte>, lits: seq<byte>, opening: bool)
    requires |lits| <= MAX_SIZE && HasAt(s, ip, Header(opening, |lits|) + lits) && |out| <= cap < |out| + |lits|
    requires ip + |Header(opening, |lits|)| + |lits| + 3 <= |s|
    requires opening ==> ip == 0 && out == [] && 1 <= |lits| <= 238
    ensures Fits(s, cap, Entering(s, cap, ip, out, opening, |lits|))
    ensures Run(s, cap, Entering(s, cap, ip, out, opening, |lits|)) == Halted(OutputOverrun, out)
  {
    hide HasAt, MatchStep, ReadCount, Extension;
    var header := Header(opening, |lits|);
    HasParts(s, ip, header, lits);
    if header != [] { HasByte(s, ip, header, 0); }
    if !opening && |lits| > 18 {
      HasParts(s, ip, [0], Extension(|lits| - 18));
      ReadExtension(s, ip + 1, 0, |lits| - 18, InputOverrun);
    }
    var st := Entering(s, cap, ip, out, opening, |lits|);
    if st.Running? {
      hide Run;
      RunStep(s, cap, st);
      StoppedStays(s, cap, OutputOverrun, out);
    }
  }

  lemma StoppedStays(s: seq<byte>, cap: nat, status: Status, out: seq<byte>)
    requires |out| <= cap
    ensures Run(s, cap, Halted(status, out)) == Halted(status, out)
  {}

  /** The text of the instructions does not fit. */
  lemma {:induction false} PrefixTooLong(s: seq<byte>, cap: nat, instrs: seq<Instr>, t: nat, opening: bool)
    requires Meaningful(instrs) && t <= 3 && Placed(s, |Expand(instrs)|, instrs, t, opening) && cap < |Expand(instrs)|
    ensures Stops(Run(s, cap, After(s, cap, [], 0, opening)), OutputOverrun, Expand(instrs))
  {
    hide Run, Start, Step, Encode, InstrBytes, Header, MatchBytes, CopyMatch, TakeMatch, HasAt, Placed, Codable;
    if instrs == [] {
      NothingEncoded(t, opening);
    } else {
      var init, i := Init(instrs), Last(instrs);
      var u := Trail(|i.lits|);
      LastMeaning(instrs);
      LastEncoded(instrs, t, opening);
      PlacedLess(s, |Expand(instrs)|, |Expand(init)|, instrs, t, opening);
      if cap < |Expand(init)| {
        PrefixTooLong(s, cap, init, u, opening);
        CopyExtends(Expand(init) + i.lits, i.off, i.len);
      } else {
        LastTooLong(s, cap, instrs, t, opening);
      }
    }
  }

  lemma LastMeaning(instrs: seq<Instr>)
    requires Meaningful(instrs) && instrs != []
    ensures var i := Last(instrs);
            Meaningful(Init(instrs)) && Codable(i) && 1 <= i.off <= |Expand(Init(instrs))| + |i.lits|
  {}

  /** What a match is copied behind stays in front. */
  lemma {:induction false} CopyExtends(o: seq<byte>, off: nat, len: nat)
    requires 1 <= off <= |o|
    ensures o <= CopyMatch(o, off, len)
  {
    if len == 0 {
    } else {
      CopyExtends(o, off, len - 1);
    }
  }

  /** The instructions before the last one, in a stream with room for `room` bytes. */
  lemma PlacedLess(s: seq<byte>, cap: nat, room: nat, instrs: seq<Instr>, t: nat, opening: bool)
    requires Meaningful(instrs) && instrs != [] && t <= 3 && Placed(s, cap, instrs, t, opening)
    requires |Expand(Init(instrs))| <= room
    ensures var init, i := Init(instrs), Last(instrs);
            var ip := |Encode(init, Trail(|i.lits|), opening)|;
            Placed(s, room, init, Trail(|i.lits|), opening) &&
            HasAt(s, ip, InstrBytes(i, t, opening && init == [])) &&
            ip + |InstrBytes(i, t, opening && init == [])| + t + 3 <= |s| && |i.lits| < MAX_SIZE && i.len < MAX_SIZE &&
            (init == [] ==> if opening then 1 <= |i.lits| <= 238 else |i.lits| >= 4)
  {
    hide HasAt, Encode, InstrBytes, Expand;
    PlacedInit(s, cap, instrs, t, opening);
    LastEncoded(instrs, t, opening);
  }

  /** The decoder at the last instruction. */
  lemma AtLast(s: seq<byte>, cap: nat, instrs: seq<Instr>, opening: bool)
    requires Meaningful(instrs) && instrs != []
    requires Placed(s, cap, Init(instrs), Trail(|Last(instrs).lits|), opening)
    requires Init(instrs) == [] && !opening ==> |Last(instrs).lits| >= 4
    ensures var init, i := Init(instrs), Last(instrs);
            var u, first := Trail(|i.lits|), opening && init == [];
            var st := Entering(s, cap, |Encode(init, u, opening)|, Expand(init), first, |i.lits|);
            Fits(s, cap, st) && Run(s, cap, After(s, cap, [], 0, opening)) == Run(s, cap, st)
    ensures Init(instrs) == [] ==> Encode(Init(instrs), Trail(|Last(instrs).lits|), opening) == []
    ensures Init(instrs) == [] ==> Expand(Init(instrs)) == []
  {
    hide Run, Start, Encode, Expand, HasAt;
    var init, i := Init(instrs), Last(instrs);
    NothingEncoded(Trail(|i.lits|), opening);
    PrefixDecodes(s, cap, init, Trail(|i.lits|), opening);
  }

  /** The literals or the match of the last instruction are too long. */
  lemma LastTooLong(s: seq<byte>, cap: nat, instrs: seq<Instr>, t: nat, opening: bool)
    requires Meaningful(instrs) && instrs != [] && t <= 3 && Placed(s, |Expand(instrs)|, instrs, t, opening)
    requires |Expand(Init(instrs))| <= cap < |Expand(instrs)|
    ensures Stops(Run(s, cap, After(s, cap, [], 0, opening)), OutputOverrun, Expand(instrs))
  {
    hide Run, Start, Step, Encode, Header, MatchBytes, CopyMatch, HasAt, Placed, Codable, Expand, Entering, After;
    var init, i := Init(instrs), Last(instrs);
    var out, ip := Expand(init), |Encode(init, Trail(|i.lits|), opening)|;
    var first := opening && init == [];
    var pre := Header(first, |i.lits|) + i.lits;
    LastMeaning(instrs);
    LastEncoded(instrs, t, opening);
    PlacedLess(s, |Expand(instrs)|, cap, instrs, t, opening);
    AtLast(s, cap, instrs, opening);
    HasParts(s, ip, pre, MatchBytes(i.form, i.len, i.off, t));
    CopyExtends(out + i.lits, i.off, i.len);
    if cap < |out| + |i.lits| {
      LiteralsTooMany(s, cap, ip, out, i.lits, first);
    } else {
      LiteralsDecode(s, cap, ip, out, i.lits, first);
      MatchTakes(s, cap, ip + |pre|, out + i.lits, i, t);
      RunStep(s, cap, Running(ip + |pre|, out + i.lits, Behind(|i.lits|)));
      StoppedStays(s, cap, OutputOverrun, out + i.lits);
    }
  }

  /** With too little room for the text, the decoder says so, having written the text up to a literal run or a match
      that would not fit. */
  lemma TooSmall(instrs: seq<Instr>, lits: seq<byte>, opening: bool, extra: seq<byte>, cap: nat)
    requires Meaningful(instrs) && Opens(instrs, lits, opening)
    requires cap < |Text(instrs, lits)| < MAX_SIZE
    ensures Stops(Decode(Stream(instrs, lits, opening) + extra, cap), OutputOverrun, Text(instrs, lits))
  {
    hide Run, Step, Start, Encode, Expand, Meaningful, Header, HasAt, Placed, Entering, After;
    var stream, t, first := Stream(instrs, lits, opening), Trail(|lits|), opening && instrs == [];
    var s, enc := stream + extra, |Encode(instrs, t, opening)|;
    HasFront(stream, extra);
    StreamParts(s, instrs, lits, opening);
    StreamPlaced(s, |Expand(instrs)|, instrs, lits, opening);
    StreamEnters(s, cap, instrs, lits, opening);
    if cap < |Expand(instrs)| {
      PrefixTooLong(s, cap, instrs, t, opening);
    } else {
      StreamPlaced(s, cap, instrs, lits, opening);
      PrefixDecodes(s, cap, instrs, t, opening);
      LiteralsTooMany(s, cap, enc, Expand(instrs), lits, first);
    }
  }

  // ------------------------------------------------------------ matches that reach back too far

  /** A match that reaches back before the start of the output stops the decoder in front of it, whatever follows. */
  lemma ReachesBack(s: seq<byte>, cap: nat, instrs: seq<Instr>, i: Instr, t: nat, opening: bool)
    requires Meaningful(instrs) && Codable(i) && t <= 3 && |Text(instrs, i.lits)| < MAX_SIZE && i.len < MAX_SIZE
    requires |Text(instrs, i.lits)| < i.off && |Text(instrs, i.lits)| <= cap
    requires Opens(instrs, i.lits, opening) && (instrs == [] ==> i.lits != [])
    requires HasAt(s, 0, Encode(instrs, Trail(|i.lits|), opening) + InstrBytes(i, t, opening && instrs == []))
    requires |Encode(instrs, Trail(|i.lits|), opening) + InstrBytes(i, t, opening && instrs == [])| + 3 <= |s|
    ensures Decode(s, cap) == Halted(LookbehindOverrun, Text(instrs, i.lits))
  {
    hide Run, Step, Start, Encode, Expand, Meaningful, Header, MatchBytes, HasAt, Entering;
    var u, first := Trail(|i.lits|), opening && instrs == [];
    var enc, pre := Encode(instrs, u, opening), Header(first, |i.lits|) + i.lits;
    HasParts(s, 0, enc, InstrBytes(i, t, first));
    HasParts(s, |enc|, pre, MatchBytes(i.form, i.len, i.off, t));
    StreamPlaced(s, cap, instrs, i.lits, opening);
    PrefixDecodes(s, cap, instrs, u, opening);
    EntersAfter(s, cap, instrs, i.lits, opening);
    LiteralsDecode(s, cap, |enc|, Expand(instrs), i.lits, first);
    MatchTakes(s, cap, |enc| + |pre|, Text(instrs, i.lits), i, t);
    RunStep(s, cap, Running(|enc| + |pre|, Text(instrs, i.lits), Behind(|i.lits|)));
    StoppedStays(s, cap, LookbehindOverrun, Text(instrs, i.lits));
    if opening { OpensAfter(s, cap); } else { PlainBefore(instrs, i.lits, s, cap); }
  }

  lemma OpensAfter(s: seq<byte>, cap: nat)
    ensures After(s, cap, [], 0, true) == Start(s, cap)
  {
    hide Start;
  }

  lemma PlainBefore(instrs: seq<Instr>, lits: seq<byte>, s: seq<byte>, cap: nat)
    requires Meaningful(instrs) && Opens(instrs, lits, false) && (instrs == [] ==> lits != [])
    requires HasAt(s, 0, Encode(instrs, Trail(|lits|), false)) && |Encode(instrs, Trail(|lits|), false)| + 3 <= |s|
    requires HasAt(s, |Encode(instrs, Trail(|lits|), false)|, Header(false, |lits|) + lits)
    ensures Start(s, cap) == After(s, cap, [], 0, false)
  {
    hide Encode, HasAt, Start;
    EntersAfter(s, cap, instrs, lits, false);
    PlainStart(instrs, lits, s, cap);
  }

  // ------------------------------------------------------------ streams cut short

  /** `x` is the beginning of `s`. */
  lemma CutByte(x: seq<byte>, s: seq<byte>, ip: nat, part: seq<byte>, k: nat)
    requires x <= s && HasAt(s, ip, part) && k < |part| && ip + k < |x|
    ensures x[ip + k] == part[k]
  {
    HasByte(s, ip, part, k);
  }

  lemma CutKeeps(x: seq<byte>, s: seq<byte>, ip: nat, part: seq<byte>)
    requires x <= s && HasAt(s, ip, part) && ip + |part| <= |x|
    ensures HasAt(x, ip, part)
  {
    assert x[ip..ip + |part|] == s[ip..ip + |part|];
  }

  /** An extended count that is cut short. */
  lemma {:induction false} CountCut(x: seq<byte>, s: seq<byte>, ip: nat, base: nat, n: nat, overflow: Status)
    requires x <= s && n > 0 && base + n <= MAX_SIZE && HasAt(s, ip, Extension(n))
    requires ip < |x| < ip + |Extension(n)|
    ensures ReadCount(x, ip, base, overflow) == CountFailed(InputOverrun)
    decreases n
  {
    hide HasAt;
    if n <= 255 {
    } else {
      CutByte(x, s, ip, Extension(n), 0);
      HasParts(s, ip, [0], Extension(n - 255));
      if ip + 1 < |x| { CountCut(x, s, ip + 1, base + 255, n - 255, overflow); }
    }
  }

  /** Before the literals, nothing is left for what has to follow them. */
  lemma ModeCut(x: seq<byte>, cap: nat, ip: nat, out: seq<byte>, t: nat)
    requires t <= 3 && ip <= |x| < ip + t + 3 && |out| + t <= cap
    ensures Fits(x, cap, Running(ip, out, Entry(t)))
    ensures Run(x, cap, Running(ip, out, Entry(t))) == Halted(InputOverrun, out)
  {
    hide Run;
    RunStep(x, cap, Running(ip, out, Entry(t)));
    StoppedStays(x, cap, InputOverrun, out);
  }

  /** A run header or its literals are cut short, or what has to follow them. */
  lemma RunCut(x: seq<byte>, s: seq<byte>, cap: nat, ip: nat, out: seq<byte>, lits: seq<byte>)
    requires x <= s && 4 <= |lits| <= MAX_SIZE && HasAt(s, ip, RunHeader(|lits|) + lits) && |out| + |lits| <= cap
    requires ip <= |x| < ip + |RunHeader(|lits|)| + |lits| + 3
    ensures Step(x, cap, Running(ip, out, Top)) == Halted(InputOverrun, out)
  {
    hide HasAt, MatchStep, Extension, ReadCount;
    var n, header := |lits|, RunHeader(|lits|);
    if |x| - ip >= 3 {
      HasParts(s, ip, header, lits);
      CutByte(x, s, ip, header, 0);
      if n > 18 {
        HasParts(s, ip, [0], Extension(n - 18));
        if |x| < ip + |header| {
          CountCut(x, s, ip + 1, 0, n - 18, InputOverrun);
        } else {
          CutKeeps(x, s, ip + 1, Extension(n - 18));
          ReadExtension(x, ip + 1, 0, n - 18, InputOverrun);
        }
      }
    }
  }

  lemma OpeningCut(x: seq<byte>, s: seq<byte>, cap: nat, lits: seq<byte>)
    requires x <= s && 1 <= |lits| <= 238 && HasAt(s, 0, [17 + |lits|] + lits) && |lits| <= cap && |x| < |lits| + 4
    ensures Run(x, cap, Start(x, cap)) == Halted(InputOverrun, [])
  {
    hide HasAt, TopStep;
    if x != [] {
      CutByte(x, s, 0, [17 + |lits|] + lits, 0);
      if |lits| < 4 { ModeCut(x, cap, 1, [], |lits|); }
    }
  }

  lemma LiteralsCut(x: seq<byte>, s: seq<byte>, cap: nat, ip: nat, out: seq<byte>, lits: seq<byte>, opening: bool)
    requires x <= s && |lits| <= MAX_SIZE && HasAt(s, ip, Header(opening, |lits|) + lits) && |out| + |lits| <= cap
    requires ip <= |x| < ip + |Header(opening, |lits|)| + |lits| + 3
    requires opening ==> ip == 0 && out == [] && 1 <= |lits| <= 238
    ensures Fits(x, cap, Entering(x, cap, ip, out, opening, |lits|))
    ensures Run(x, cap, Entering(x, cap, ip, out, opening, |lits|)) == Halted(InputOverrun, out)
  {
    hide HasAt, Run, Start, TopStep;
    if opening {
      OpeningCut(x, s, cap, lits);
    } else if |lits| <= 3 {
      ModeCut(x, cap, ip, out, |lits|);
    } else {
      RunCut(x, s, cap, ip, out, lits);
      RunStep(x, cap, Running(ip, out, Top));
      StoppedStays(x, cap, InputOverrun, out);
    }
  }

  /** A match token with an extended count is cut short. */
  lemma MatchCut(x: seq<byte>, s: seq<byte>, cap: nat, ip: nat, out: seq<byte>, i: Instr, t: nat)
    requires x <= s && Codable(i) && i.len < MAX_SIZE && t <= 3 && |out| <= cap
    requires HasAt(s, ip, MatchBytes(i.form, i.len, i.off, t))
    requires ip + 3 <= |x| < ip + |MatchBytes(i.form, i.len, i.off, t)|
    ensures Fits(x, cap, Running(ip, out, Behind(|i.lits|)))
    ensures Step(x, cap, Running(ip, out, Behind(|i.lits|))) == Halted(InputOverrun, out)
  {
    hide HasAt, Step, LongStep;
    ShortLength(i.len, i.off, t);
    var far := i.form == M4;
    var marker := if far then 16 + (i.off - 0x4000) / 0x4000 * 8 else 32;
    var width, n := if far then 8 else 32, i.len - 2;
    var tail := OffsetBytes(if far then (i.off - 0x4000) % 0x4000 else i.off - 1, t);
    hide MatchBytes, CountBytes, OffsetBytes;
    assert MatchBytes(i.form, i.len, i.off, t) == CountBytes(marker, width, n) + tail;
    HasParts(s, ip, CountBytes(marker, width, n), tail);
    LongCut(x, s, cap, ip, out, marker, width, n);
    StepsAsMatch(x, cap, ip, out, |i.lits|);
  }

  lemma LongCut(x: seq<byte>, s: seq<byte>, cap: nat, ip: nat, out: seq<byte>, marker: byte, width: nat, n: nat)
    requires (marker == 32 && width == 32) || ((marker == 16 || marker == 24) && width == 8)
    requires x <= s && 0 < n < MAX_SIZE && |out| <= cap && HasAt(s, ip, CountBytes(marker, width, n))
    requires ip + 3 <= |x| < ip + |CountBytes(marker, width, n)| + 2
    ensures 16 <= x[ip] < 64 && MatchStep(x, cap, ip, out) == Halted(InputOverrun, out)
  {
    hide HasAt, ReadCount, Extension, TakeMatch, TokenOffset;
    CutByte(x, s, ip, CountBytes(marker, width, n), 0);
    if n >= width {
      var e := n - (width - 1);
      HasParts(s, ip, [marker], Extension(e));
      if |x| < ip + |CountBytes(marker, width, n)| {
        CountCut(x, s, ip + 1, 0, e, OutputOverrun);
      } else {
        CutKeeps(x, s, ip + 1, Extension(e));
        ReadExtension(x, ip + 1, 0, e, OutputOverrun);
      }
    }
  }

  /** The bytes of an instruction are cut short, or what has to follow them. */
  lemma InstrCut(x: seq<byte>, s: seq<byte>, cap: nat, ip: nat, out: seq<byte>, i: Instr, t: nat, opening: bool)
    requires x <= s && Codable(i) && |i.lits| <= MAX_SIZE && i.len < MAX_SIZE && t <= 3
    requires i.off <= |out| + |i.lits| && |out| + |i.lits| + i.len + t <= cap
    requires HasAt(s, ip, InstrBytes(i, t, opening)) && ip <= |x| < ip + |InstrBytes(i, t, opening)| + t + 3
    requires opening ==> ip == 0 && out == [] && 1 <= |i.lits| <= 238
    ensures Fits(x, cap, Entering(x, cap, ip, out, opening, |i.lits|))
    ensures Stops(Run(x, cap, Entering(x, cap, ip, out, opening, |i.lits|)), InputOverrun,
                  CopyMatch(out + i.lits, i.off, i.len))
  {
    hide Run, Step, Header, MatchBytes, CopyMatch, Entering, HasAt;
    var pre, bytes := Header(opening, |i.lits|) + i.lits, MatchBytes(i.form, i.len, i.off, t);
    var mid, next := out + i.lits, CopyMatch(out + i.lits, i.off, i.len);
    HasParts(s, ip, pre, bytes);
    CopyExtends(mid, i.off, i.len);
    if |x| < ip + |pre| + 3 {
      LiteralsCut(x, s, cap, ip, out, i.lits, opening);
    } else {
      CutKeeps(x, s, ip, pre);
      LiteralsDecode(x, cap, ip, out, i.lits, opening);
      var st := Running(ip + |pre|, mid, Behind(|i.lits|));
      RunStep(x, cap, st);
      if |x| < ip + |pre| + |bytes| {
        MatchCut(x, s, cap, ip + |pre|, mid, i, t);
        StoppedStays(x, cap, InputOverrun, mid);
      } else {
        CutKeeps(x, s, ip + |pre|, bytes);
        MatchDecodes(x, cap, ip + |pre|, mid, i, t);
        ModeCut(x, cap, ip + |pre| + |bytes|, next, t);
      }
    }
  }

  /** The instructions are cut short, or what has to follow them. */
  lemma {:induction false} PrefixCut(x: seq<byte>, s: seq<byte>, cap: nat, instrs: seq<Instr>, t: nat, opening: bool)
    requires Meaningful(instrs) && instrs != [] && t <= 3 && Placed(s, cap, instrs, t, opening) && x <= s
    requires |x| < |Encode(instrs, t, opening)| + t + 3 && |Expand(instrs)| + t <= cap
    ensures Stops(Run(x, cap, After(x, cap, [], 0, opening)), InputOverrun, Expand(instrs))
  {
    hide Run, Start, Encode, InstrBytes, Header, MatchBytes, CopyMatch, HasAt, Placed, Codable, Expand, Entering, After;
    var init, i := Init(instrs), Last(instrs);
    var u := Trail(|i.lits|);
    var out, ip := Expand(init), |Encode(init, u, opening)|;
    LastMeaning(instrs);
    LastEncoded(instrs, t, opening);
    CopyExtends(out + i.lits, i.off, i.len);
    PlacedLess(s, cap, cap, instrs, t, opening);
    if init != [] && |x| < ip + u + 3 {
      PrefixCut(x, s, cap, init, u, opening);
    } else {
      PlacedCut(x, s, cap, instrs, opening);
      InstrCut(x, s, cap, ip, out, i, t, opening && init == []);
    }
  }

  /** The decoder reaches the last instruction of a stream that is cut short behind its first bytes. */
  lemma PlacedCut(x: seq<byte>, s: seq<byte>, cap: nat, instrs: seq<Instr>, opening: bool)
    requires Meaningful(instrs) && instrs != [] && x <= s
    requires Placed(s, cap, Init(instrs), Trail(|Last(instrs).lits|), opening)
    requires Init(instrs) == [] ==> if opening then 1 <= |Last(instrs).lits| <= 238 else |Last(instrs).lits| >= 4
    requires var u := Trail(|Last(instrs).lits|);
             Init(instrs) == [] || |x| >= |Encode(Init(instrs), u, opening)| + u + 3
    ensures var init, i := Init(instrs), Last(instrs);
            var ip, first := |Encode(init, Trail(|i.lits|), opening)|, opening && init == [];
            Fits(x, cap, Entering(x, cap, ip, Expand(init), first, |i.lits|)) &&
            Run(x, cap, After(x, cap, [], 0, opening)) ==
            Run(x, cap, Entering(x, cap, ip, Expand(init), first, |i.lits|))
    ensures Init(instrs) == [] ==> Encode(Init(instrs), Trail(|Last(instrs).lits|), opening) == []
    ensures Init(instrs) == [] ==> Expand(Init(instrs)) == []
  {
    hide Run, Start, Encode, Expand, HasAt;
    var init, u := Init(instrs), Trail(|Last(instrs).lits|);
    NothingEncoded(u, opening);
    if init != [] {
      CutKeeps(x, s, 0, Encode(init, u, opening));
      PrefixDecodes(x, cap, init, u, opening);
    }
  }

  lemma CutStart(x: seq<byte>, s: seq<byte>, cap: nat, opening: bool)
    requires x <= s && s != [] && Start(s, cap) == After(s, cap, [], 0, opening)
    ensures Run(x, cap, Start(x, cap)) == Run(x, cap, After(x, cap, [], 0, opening))
  {
    if !opening && x == [] { ModeCut(x, cap, 0, [], 0); }
  }

  lemma PlacedKeeps(x: seq<byte>, s: seq<byte>, cap: nat, instrs: seq<Instr>, t: nat, opening: bool)
    requires Meaningful(instrs) && t <= 3 && Placed(s, cap, instrs, t, opening) && x <= s
    requires |x| >= |Encode(instrs, t, opening)| + t + 3
    ensures Placed(x, cap, instrs, t, opening)
  {
    hide HasAt, Encode, Expand;
    CutKeeps(x, s, 0, Encode(instrs, t, opening));
  }

  /** Every proper beginning of a stream is refused for want of input, having given a beginning of the text. */
  lemma CutShort(instrs: seq<Instr>, lits: seq<byte>, opening: bool, n: nat, cap: nat)
    requires Meaningful(instrs) && Opens(instrs, lits, opening) && n < |Stream(instrs, lits, opening)|
    requires |Text(instrs, lits)| <= cap && |Text(instrs, lits)| < MAX_SIZE
    ensures Stops(Decode(Stream(instrs, lits, opening)[..n], cap), InputOverrun, Text(instrs, lits))
  {
    hide Run, Step, Start, Encode, Expand, Meaningful, Header, HasAt, Placed, Entering;
    var s, t, first := Stream(instrs, lits, opening), Trail(|lits|), opening && instrs == [];
    var x, enc := s[..n], |Encode(instrs, t, opening)|;
    assert s + [] == s;
    HasFront(s, []);
    StreamParts(s, instrs, lits, opening);
    StreamPlaced(s, cap, instrs, lits, opening);
    StreamEnters(s, cap, instrs, lits, opening);
    CutStart(x, s, cap, opening);
    if instrs != [] && n < enc + t + 3 {
      PrefixCut(x, s, cap, instrs, t, opening);
    } else {
      if instrs != [] {
        PlacedKeeps(x, s, cap, instrs, t, opening);
        PrefixDecodes(x, cap, instrs, t, opening);
      }
      EntersAfter(x, cap, instrs, lits, opening);
      LiteralsCut(x, s, cap, enc, Expand(instrs), lits, first);
    }
  }
}
