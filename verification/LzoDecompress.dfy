/** lzo1x_decompress_safe: the decoder as the C code runs it, over an output array it
    fills in place with 8-, 4- and 1-byte block copies. */
module LzoDecompress {
  import opened Bytes
  import opened LzoFormat

  // ------------------------------------------------------- overlapping copies

  lemma {:induction false} CopySplit(o: seq<byte>, off: nat, a: nat, b: nat)
    requires 1 <= off <= |o|
    ensures CopyMatch(CopyMatch(o, off, a), off, b) == CopyMatch(o, off, a + b)
  {
    if b == 0 {
    } else {
      CopySplit(o, off, a, b - 1);
    }
  }

  /** As long as source and target do not overlap, a match is a slice of what is there. */
  lemma {:induction false} CopyDisjoint(o: seq<byte>, off: nat, n: nat)
    requires n <= off <= |o| && 1 <= off
    ensures CopyMatch(o, off, n) == o + o[|o| - off..|o| - off + n]
  {
    if n == 0 {
    } else {
      CopyDisjoint(o, off, n - 1);
      var p, k := CopyMatch(o, off, n - 1), |o| - off;
      assert p == o + o[k..k + n - 1] && |p| == |o| + n - 1;
      assert p[|p| - off] == o[k + n - 1];
      assert o[k..k + n] == o[k..k + n - 1] + [o[k + n - 1]];
    }
  }

  /** One unaligned load and store of `n` bytes, going on with a match of which `done` bytes are there. */
  method CopyBlock(out: array<byte>, op: nat, mPos: nat, n: nat, ghost o: seq<byte>, ghost done: nat)
    requires mPos < op && n <= op - mPos <= |o| && op + n <= out.Length
    requires out[..op] == CopyMatch(o, op - mPos, done)
    modifies out
    ensures out[..op + n] == CopyMatch(o, op - mPos, done + n)
    ensures forall k :: op + n <= k < out.Length ==> out[k] == old(out[k])
  {
    hide CopyMatch;
    CopySplit(o, op - mPos, done, n);
    CopyDisjoint(out[..op], op - mPos, n);
    forall i | 0 <= i < n { out[op + i] := out[mPos + i]; }
    assert out[..op + n] == old(out[..op]) + old(out[mPos..mPos + n]);
  }

  /** The byte-at-a-time loop at `copy_match`, right for every overlap. */
  method CopyBytes(out: array<byte>, op: nat, mPos: nat, n: nat, ghost o: seq<byte>, ghost done: nat)
    requires mPos < op && op - mPos <= |o| && op + n <= out.Length
    requires out[..op] == CopyMatch(o, op - mPos, done)
    modifies out
    ensures out[..op + n] == CopyMatch(o, op - mPos, done + n)
    ensures forall k :: op + n <= k < out.Length ==> out[k] == old(out[k])
  {
    for i := 0 to n
      invariant out[..op + i] == CopyMatch(o, op - mPos, done + i)
      invariant forall k :: op + i <= k < out.Length ==> out[k] == old(out[k])
    {
      ghost var before := out[..op + i];
      out[op + i] := out[mPos + i];
      assert out[..op + i + 1] == before + [before[mPos + i]];
    }
  }

  lemma NoCopy(o: seq<byte>, off: nat)
    requires 1 <= off <= |o|
    ensures CopyMatch(o, off, 0) == o
  {}

  /** The block copies guarded by a distance of at least 8 write the same bytes. */
  method CopyWide(out: array<byte>, op0: nat, mPos0: nat, n: nat)
    requires mPos0 < op0 && op0 - mPos0 >= 8 && op0 + n <= out.Length
    modifies out
    ensures out[..op0 + n] == CopyMatch(old(out[..op0]), op0 - mPos0, n)
    ensures forall k :: op0 + n <= k < out.Length ==> out[k] == old(out[k])
  {
    hide CopyMatch;
    ghost var o := out[..op0];
    NoCopy(o, op0 - mPos0);
    var op, mPos, t: int := op0, mPos0, n;
    while t >= 8
      invariant 0 <= t && op + t == op0 + n && op - mPos == op0 - mPos0 && 0 <= mPos
      invariant out[..op] == CopyMatch(o, op - mPos, n - t)
      invariant forall k :: op0 + n <= k < out.Length ==> out[k] == old(out[k])
    {
      CopyBlock(out, op, mPos, 8, o, n - t);
      op, mPos, t := op + 8, mPos + 8, t - 8;
    }
    if t >= 4 {
      CopyBlock(out, op, mPos, 4, o, n - t);
      op, mPos, t := op + 4, mPos + 4, t - 4;
    }
    CopyBytes(out, op, mPos, t, o, n - t);
  }

  // ------------------------------------------------------------ input side

  /** Copy `n` literals with 8-, 4- and 1-byte loads and stores. */
  method CopyLiterals(s: seq<byte>, ip0: nat, out: array<byte>, op0: nat, n: nat)
    requires ip0 + n <= |s| && op0 + n <= out.Length
    modifies out
    ensures out[..op0 + n] == old(out[..op0]) + s[ip0..ip0 + n]
    ensures forall k :: op0 + n <= k < out.Length ==> out[k] == old(out[k])
  {
    var op, ip, t: int := op0, ip0, n;
    while t > 0
      invariant 0 <= t && op + t == op0 + n && ip + t == ip0 + n
      invariant forall k :: 0 <= k < op0 ==> out[k] == old(out[k])
      invariant forall k :: op0 <= k < op ==> out[k] == s[ip0 + k - op0]
      invariant forall k :: op0 + n <= k < out.Length ==> out[k] == old(out[k])
    {
      var w := if t >= 8 then 8 else if t >= 4 then 4 else 1;
      forall i | 0 <= i < w { out[op + i] := s[ip + i]; }
      op, ip, t := op + w, ip + w, t - w;
    }
  }

  method CountZeros(s: seq<byte>, ip0: nat, overflow: Status) returns (c: Count)
    requires ip0 < |s|
    ensures c == ReadCount(s, ip0, 0, overflow)
  {
    var ip, t := ip0, 0;
    while s[ip] == 0
      invariant ip0 <= ip < |s|
      invariant ReadCount(s, ip, t, overflow) == ReadCount(s, ip0, 0, overflow)
      decreases |s| - ip
    {
      t, ip := t + 255, ip + 1;
      if t > TWO64 - 511 { return CountFailed(overflow); }
      if ip == |s| { return CountFailed(InputOverrun); }
    }
    return Count(t + s[ip], ip + 1);
  }

  // ------------------------------------------------------------ the decoder

  /** The decoder's registers: positions in both buffers and the label to go on from,
      or the status it returned with. */
  datatype Cursor = Going(ip: nat, op: nat, mode: Mode) | Stopped(status: Status, op: nat)

  ghost function View(c: Cursor, out: seq<byte>): State
    requires c.op <= |out|
  {
    match c
    case Going(ip, op, mode) => Running(ip, out[..op], mode)
    case Stopped(status, op) => Halted(status, out[..op])
  }

  method CopyMatchOut(s: seq<byte>, out: array<byte>, op: nat, off: nat, len: nat, ip: nat, wide: bool)
    returns (c: Cursor)
    requires op <= out.Length && 2 <= ip <= |s| && 1 <= off
    modifies out
    ensures op <= c.op <= out.Length && View(c, out[..]) == TakeMatch(s, out.Length, old(out[..op]), off, len, ip)
    ensures forall k :: c.op <= k < out.Length ==> out[k] == old(out[k])
  {
    var mPos := op - off;
    if mPos < 0 || mPos >= op { return Stopped(LookbehindOverrun, op); }
    if out.Length - op < len { return Stopped(OutputOverrun, op); }
    if wide && op - mPos >= 8 {
      CopyWide(out, op, mPos, len);
    } else {
      CopyBytes(out, op, mPos, len, out[..op], 0);
    }
    var t := s[ip - 2] % 4;
    c := Going(ip, op + len, if t == 0 then Top else MatchNext(t));
  }

  method MatchToken(s: seq<byte>, out: array<byte>, ip0: nat, op: nat) returns (c: Cursor)
    requires op <= out.Length && ip0 + 3 <= |s| && s[ip0] >= 16
    modifies out
    ensures op <= c.op <= out.Length && View(c, out[..]) == MatchStep(s, out.Length, ip0, old(out[..op]))
    ensures forall k :: c.op <= k < out.Length ==> out[k] == old(out[k])
  {
    hide CopyMatch, LongStep, TakeMatch;
    var t: int, ip := s[ip0], ip0 + 1;
    if t >= 64 {
      c := CopyMatchOut(s, out, op, 1 + t / 4 % 8 + s[ip] as int * 8, t / 32 - 1 + 2, ip + 1, false);
    } else {
      c := LongToken(s, out, ip0, op);
    }
  }

  /** The match forms with an extended count, and the end marker. */
  method LongToken(s: seq<byte>, out: array<byte>, ip0: nat, op: nat) returns (c: Cursor)
    requires op <= out.Length && ip0 + 3 <= |s| && 16 <= s[ip0] < 64
    modifies out
    ensures op <= c.op <= out.Length && View(c, out[..]) == LongStep(s, out.Length, ip0, old(out[..op]))
    ensures forall k :: c.op <= k < out.Length ==> out[k] == old(out[k])
  {
    hide CopyMatch, ReadCount, TakeMatch;
    var t: int, ip := s[ip0], ip0 + 1;
    var far := t < 32;
    var width := if far then 8 else 32;
    var high := if far then t / 8 % 2 * 0x4000 else 0;
    t := t % width;
    if t == 0 {
      var n := CountZeros(s, ip, OutputOverrun);
      if n.CountFailed? { return Stopped(n.status, op); }
      t, ip := n.n + (width - 1), n.ip;
      if |s| - ip < 2 { return Stopped(InputOverrun, op); }
    }
    var off := s[ip] as int / 4 + s[ip + 1] as int * 64;
    ip := ip + 2;
    if !far {
      c := CopyMatchOut(s, out, op, 1 + off, t + 2, ip, true);
    } else if high + off == 0 {
      c := Stopped(if ip == |s| then Ok else InputNotConsumed, op);
    } else {
      c := CopyMatchOut(s, out, op, high + off + 0x4000, t + 2, ip, true);
    }
  }

  method LiteralToken(s: seq<byte>, out: array<byte>, ip: nat, op: nat, n: nat, mode: Mode) returns (c: Cursor)
    requires op <= out.Length && ip <= |s| && !mode.MatchNext?
    modifies out
    ensures op <= c.op <= out.Length
    ensures View(c, out[..]) == if out.Length - op < n then Halted(OutputOverrun, old(out[..op]))
                                else if |s| - ip < n + 3 then Halted(InputOverrun, old(out[..op]))
                                else Running(ip + n, old(out[..op]) + s[ip..ip + n], mode)
    ensures forall k :: c.op <= k < out.Length ==> out[k] == old(out[k])
  {
    if out.Length - op < n { return Stopped(OutputOverrun, op); }
    if |s| - ip < n + 3 { return Stopped(InputOverrun, op); }
    CopyLiterals(s, ip, out, op, n);
    c := Going(ip + n, op + n, mode);
  }

  /** The head of the outer loop. */
  method TopToken(s: seq<byte>, out: array<byte>, ip: nat, op: nat) returns (c: Cursor)
    requires op <= out.Length && ip <= |s|
    modifies out
    ensures op <= c.op <= out.Length && View(c, out[..]) == TopStep(s, out.Length, ip, old(out[..op]))
    ensures forall k :: c.op <= k < out.Length ==> out[k] == old(out[k])
  {
    hide ReadCount, MatchStep;
    if |s| - ip < 3 { return Stopped(InputOverrun, op); }
    if s[ip] >= 16 {
      c := MatchToken(s, out, ip, op);
    } else if s[ip] == 0 {
      var n := CountZeros(s, ip + 1, InputOverrun);
      if n.CountFailed? { return Stopped(n.status, op); }
      c := LiteralToken(s, out, n.ip, op, n.n + 15 + 3, AfterRun);
    } else {
      c := LiteralToken(s, out, ip + 1, op, s[ip] + 3, AfterRun);
    }
  }

  /** From one label of the decoder to the next. */
  method Advance(s: seq<byte>, out: array<byte>, ip: nat, op: nat, mode: Mode) returns (c: Cursor)
    requires op <= out.Length && Fits(s, out.Length, Running(ip, out[..op], mode))
    modifies out
    ensures op <= c.op <= out.Length
    ensures View(c, out[..]) == Step(s, out.Length, Running(ip, old(out[..op]), mode))
    ensures forall k :: c.op <= k < out.Length ==> out[k] == old(out[k])
  {
    hide CopyMatch, MatchStep, TopStep, TakeMatch;
    match mode
    case Top =>
      c := TopToken(s, out, ip, op);
    case AfterRun =>
      if s[ip] >= 16 {
        c := MatchToken(s, out, ip, op);
      } else {
        c := CopyMatchOut(s, out, op, 1 + M2_MAX_OFFSET + s[ip] as int / 4 + s[ip + 1] as int * 4, 3, ip + 2, false);
      }
    case MatchNext(t) =>
      c := LiteralToken(s, out, ip, op, t, AfterTrail);
    case AfterTrail =>
      if s[ip] >= 16 {
        c := MatchToken(s, out, ip, op);
      } else {
        c := CopyMatchOut(s, out, op, 1 + s[ip] as int / 4 + s[ip + 1] as int * 4, 2, ip + 2, false);
      }
  }

  method Begin(s: seq<byte>, out: array<byte>) returns (c: Cursor)
    modifies out
    ensures c.op <= out.Length && View(c, out[..]) == Start(s, out.Length)
    ensures forall k :: c.op <= k < out.Length ==> out[k] == old(out[k])
  {
    if |s| < 1 { return Stopped(InputOverrun, 0); }
    if s[0] <= 17 { return Going(0, 0, Top); }
    var t := s[0] - 17;
    if t < 4 { return Going(1, 0, MatchNext(t)); }
    c := LiteralToken(s, out, 1, 0, t, AfterRun);
  }

  /** For every input and every output buffer, the decoder stays inside both buffers, reports what
      `Decode` says and leaves everything past the reported length alone. */
  method DecompressSafe(s: seq<byte>, out: array<byte>) returns (status: Status, outLen: nat)
    modifies out
    ensures outLen <= out.Length && Decode(s, out.Length) == Halted(status, out[..outLen])
    ensures forall k :: outLen <= k < out.Length ==> out[k] == old(out[k])
  {
    hide CopyMatch, Start, Step;
    var c := Begin(s, out);
    while c.Going?
      invariant c.op <= out.Length && Fits(s, out.Length, View(c, out[..]))
      invariant Run(s, out.Length, View(c, out[..])) == Decode(s, out.Length)
      invariant forall k :: c.op <= k < out.Length ==> out[k] == old(out[k])
      decreases if c.Going? then |s| - c.ip + 1 else 0
    {
      assert out[..][..c.op] == out[..c.op];
      c := Advance(s, out, c.ip, c.op, c.mode);
    }
    return c.status, c.op;
  }
}
