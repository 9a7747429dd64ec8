/** The LZO1X stream format: what the compressor of common/minilzo.c emits and what
    its safe decompressor does with any stream, byte by byte and test by test. */
module LzoFormat {
  import opened Bytes

  const M1_MAX_OFFSET := 0x0400
  const MX_MAX_OFFSET := 0x0c00
  const M2_MAX_OFFSET := 0x0800
  const M3_MAX_OFFSET := 0x4000
  const M4_MAX_OFFSET := 0xbfff
  const M2_MAX_LEN := 8

  // ---------------------------------------------------------------- meaning

  /** The forms of a match token. */
  datatype Form = M1 | M2 | M3 | M4

  /** One step of a stream: copy `lits`, then `len` bytes that already occurred `off` positions back. */
  datatype Instr = Instr(lits: seq<byte>, form: Form, len: nat, off: nat)

  /** The lengths and distances each form can hold.  The shortest one is for two bytes close by, or for three bytes just
      out of the reach of the next form. */
  predicate Codes(form: Form, len: nat, off: nat) {
    match form
    case M1 => (len == 2 && 1 <= off <= M1_MAX_OFFSET) || (len == 3 && M2_MAX_OFFSET < off <= MX_MAX_OFFSET)
    case M2 => 3 <= len <= M2_MAX_LEN && 1 <= off <= M2_MAX_OFFSET
    case M3 => 3 <= len && 1 <= off <= M3_MAX_OFFSET
    case M4 => 3 <= len && M3_MAX_OFFSET < off <= M4_MAX_OFFSET
  }

  /** The shortest form stands for two bytes behind one to three literals and for three bytes behind a longer run, and
      cannot follow another match. */
  predicate Codable(i: Instr) {
    Codes(i.form, i.len, i.off) &&
    (i.form.M1? ==> i.lits != [] && (i.len == 2 <==> |i.lits| <= 3))
  }

  /** Append `len` bytes to `o`, each equal to the byte `off` places before it.  The source
      of the copy may overlap the bytes being written. */
  function CopyMatch(o: seq<byte>, off: nat, len: nat): (r: seq<byte>)
    requires 1 <= off <= |o|
    ensures |r| == |o| + len
  {
    if len == 0 then o
    else
      var p := CopyMatch(o, off, len - 1);
      p + [p[|p| - off]]
  }

  ghost predicate Meaningful(instrs: seq<Instr>)
    decreases |instrs|, 0
  {
    instrs == [] ||
    (Meaningful(Init(instrs)) &&
     var i := Last(instrs);
     Codable(i) && i.off <= |Expand(Init(instrs))| + |i.lits|)
  }

  ghost function Expand(instrs: seq<Instr>): seq<byte>
    requires Meaningful(instrs)
    decreases |instrs|, 1
  {
    if instrs == [] then []
    else CopyMatch(Expand(Init(instrs)) + Last(instrs).lits, Last(instrs).off, Last(instrs).len)
  }

  function Init<T>(s: seq<T>): seq<T>
    requires s != []
  { s[..|s| - 1] }

  function Last<T>(s: seq<T>): T
    requires s != []
  { s[|s| - 1] }

  // ---------------------------------------------------------------- encoding

  /** The value of `b | t` for a two-bit `t`. */
  function OrLow2(b: byte, t: nat): byte
    requires t <= 3
  {
    var low := b % 4;
    b - low + (if low == 0 then t else if t == 0 || t == low then low else 3)
  }

  /** A count above the range of its token: zero bytes worth 255 each, then the rest. */
  function Extension(n: nat): (r: seq<byte>)
    requires n > 0
    ensures |r| == (n - 1) / 255 + 1
  {
    if n <= 255 then [n] else [0] + Extension(n - 255)
  }

  /** Runs of at most three literals hide their length in the previous match. */
  function Trail(n: nat): nat { if n <= 3 then n else 0 }

  /** The count of the literals a stream opens with can be in a first byte above 17. */
  function Header(opening: bool, n: nat): seq<byte> {
    if opening && n <= 238 then [17 + n] else RunHeader(n)
  }

  function RunHeader(n: nat): seq<byte> {
    if n <= 3 then [] else if n <= 18 then [n - 3] else [0] + Extension(n - 18)
  }

  /** A marker with a short count in its low bits, or a marker and an extended count. */
  function CountBytes(marker: byte, width: nat, n: nat): (r: seq<byte>)
    requires 0 < n && 0 < width && marker + width <= 256
    ensures |r| >= 1
  {
    if n < width then [marker + n] else [marker] + Extension(n - (width - 1))
  }

  /** Fourteen offset bits above two spare bits that hold `t`. */
  function OffsetBytes(o: nat, t: nat): (r: seq<byte>)
    requires o < 0x4000 && t <= 3
    ensures |r| == 2
  {
    [o * 4 % 256 + t, o / 64]
  }

  /** A match token whose two spare bits hold `t`.  The count stored is `len - 2`, and the extended counts start above
      lengths 33 and 9. */
  function MatchBytes(form: Form, len: nat, off: nat, t: nat): (r: seq<byte>)
    requires Codes(form, len, off) && t <= 3
    ensures |r| >= 2
  {
    match form
    case M1 => var o := if len == 2 then off - 1 else off - 1 - M2_MAX_OFFSET; [o % 4 * 4 + t, o / 4]
    case M2 => [(len - 1) * 32 + (off - 1) % 8 * 4 + t, (off - 1) / 8]
    case M3 => CountBytes(32, 32, len - 2) + OffsetBytes(off - 1, t)
    case M4 => CountBytes(16 + (off - 0x4000) / 0x4000 * 8, 8, len - 2) + OffsetBytes((off - 0x4000) % 0x4000, t)
  }

  /** The bytes for `instrs`, the last match carrying `t` in its spare bits.  `opening` tells whether the first byte
      counts the first literals. */
  ghost function Encode(instrs: seq<Instr>, t: nat, opening: bool): (r: seq<byte>)
    requires Meaningful(instrs) && t <= 3
    ensures instrs != [] ==> |r| >= 2
  {
    if instrs == [] then []
    else
      var i := Last(instrs);
      Encode(Init(instrs), Trail(|i.lits|), opening) + Header(opening && |instrs| == 1, |i.lits|) + i.lits +
      MatchBytes(i.form, i.len, i.off, t)
  }

  const END_MARKER: seq<byte> := [17, 0, 0]

  /** The literals left after the last match, and the end marker. */
  function Tail(opening: bool, lits: seq<byte>): seq<byte> { Header(opening, |lits|) + lits + END_MARKER }

  /** The literals a stream starts with. */
  function FirstLits(instrs: seq<Instr>, lits: seq<byte>): seq<byte> { if instrs == [] then lits else instrs[0].lits }

  /** A run of one to three literals is counted in the match before it, so a stream can start with one only if its first
      byte counts it. */
  predicate Opens(instrs: seq<Instr>, lits: seq<byte>, opening: bool) {
    var n := |FirstLits(instrs, lits)|;
    if opening then 1 <= n <= 238 else n >= 4 || (n == 0 && instrs == [])
  }

  /** A whole compressed stream. */
  ghost function Stream(instrs: seq<Instr>, lits: seq<byte>, opening: bool): seq<byte>
    requires Meaningful(instrs)
  {
    Encode(instrs, Trail(|lits|), opening) + Tail(opening && instrs == [], lits)
  }

  // ---------------------------------------------------------------- decoding

  datatype Status = Ok | InputNotConsumed | InputOverrun | OutputOverrun | LookbehindOverrun

  /** Where the decoder stands between two tokens: at the head of its outer loop, just after
      a literal run, before the trailing literals of a match, or just after them. */
  datatype Mode = Top | AfterRun | MatchNext(t: nat) | AfterTrail

  datatype State =
    | Running(ip: nat, out: seq<byte>, mode: Mode)
    | Halted(status: Status, out: seq<byte>)

  predicate Fits(s: seq<byte>, cap: nat, st: State) {
    |st.out| <= cap &&
    (st.Running? ==>
      st.ip <= |s| &&
      (st.mode.AfterRun? || st.mode.AfterTrail? ==> st.ip + 3 <= |s|) &&
      (st.mode.MatchNext? ==> 1 <= st.mode.t <= 3))
  }

  datatype Count = Count(n: nat, ip: nat) | CountFailed(status: Status)

  /** Add up an extended count, starting from `n`; `overflow` is the error for a count
      that comes within 511 of wrapping around. */
  function ReadCount(s: seq<byte>, ip: nat, n: nat, overflow: Status): (r: Count)
    requires ip < |s|
    ensures r.Count? ==> ip < r.ip <= |s|
    decreases |s| - ip
  {
    if s[ip] != 0 then Count(n + s[ip], ip + 1)
    else if n + 255 > TWO64 - 511 then CountFailed(overflow)
    else if ip + 1 == |s| then CountFailed(InputOverrun)
    else ReadCount(s, ip + 1, n + 255, overflow)
  }

  /** Copy a match and look at the spare bits of the token that ends before `ip`. */
  function TakeMatch(s: seq<byte>, cap: nat, out: seq<byte>, off: nat, len: nat, ip: nat): (r: State)
    requires |out| <= cap && 2 <= ip <= |s| && 1 <= off
    ensures Fits(s, cap, r) && (r.Running? ==> r.ip == ip)
  {
    if off > |out| then Halted(LookbehindOverrun, out)
    else if cap - |out| < len then Halted(OutputOverrun, out)
    else
      var t := s[ip - 2] % 4;
      Running(ip, CopyMatch(out, off, len), if t == 0 then Top else MatchNext(t))
  }

  /** The low bits of a long match token, or the extended count that a zero announces. */
  function TokenCount(s: seq<byte>, ip: nat, width: nat): (r: Count)
    requires ip + 1 < |s| && width > 0
    ensures r.Count? ==> ip < r.ip <= |s|
  {
    if s[ip] % width != 0 then Count(s[ip] % width, ip + 1)
    else AddCount(ReadCount(s, ip + 1, 0, OutputOverrun), width - 1)
  }

  /** The fourteen offset bits that end a long match token. */
  function TokenOffset(s: seq<byte>, ip: nat): nat
    requires ip + 2 <= |s|
  {
    s[ip] as int / 4 + s[ip + 1] as int * 64
  }

  /** A token of value 16 to 63: a match whose count and distance follow, or the end marker. */
  function LongStep(s: seq<byte>, cap: nat, ip: nat, out: seq<byte>): (r: State)
    requires |out| <= cap && ip + 3 <= |s| && 16 <= s[ip] < 64
    ensures Fits(s, cap, r) && (r.Running? ==> r.ip > ip)
  {
    var t := s[ip] as int;
    var c := TokenCount(s, ip, if t >= 32 then 32 else 8);
    if c.CountFailed? then Halted(c.status, out)
    else if |s| - c.ip < 2 then Halted(InputOverrun, out)
    else if t >= 32 then TakeMatch(s, cap, out, 1 + TokenOffset(s, c.ip), c.n + 2, c.ip + 2)
    else
      var off := t / 8 % 2 * 0x4000 + TokenOffset(s, c.ip);
      if off == 0 then Halted(if c.ip + 2 == |s| then Ok else InputNotConsumed, out)
      else TakeMatch(s, cap, out, off + 0x4000, c.n + 2, c.ip + 2)
  }

  /** A token of value at least 16: a match, or the end marker. */
  function MatchStep(s: seq<byte>, cap: nat, ip: nat, out: seq<byte>): (r: State)
    requires |out| <= cap && ip + 3 <= |s| && s[ip] >= 16
    ensures Fits(s, cap, r) && (r.Running? ==> r.ip > ip)
  {
    var t := s[ip] as int;
    if t >= 64 then TakeMatch(s, cap, out, 1 + t / 4 % 8 + s[ip + 1] as int * 8, t / 32 - 1 + 2, ip + 2)
    else LongStep(s, cap, ip, out)
  }

  function AddCount(c: Count, base: nat): Count {
    if c.Count? then Count(c.n + base, c.ip) else c
  }

  function LiteralRun(s: seq<byte>, cap: nat, ip: nat, out: seq<byte>, n: nat): (r: State)
    requires |out| <= cap && ip <= |s| && n > 0
    ensures Fits(s, cap, r) && (r.Running? ==> r.ip == ip + n)
  {
    if cap - |out| < n then Halted(OutputOverrun, out)
    else if |s| - ip < n + 3 then Halted(InputOverrun, out)
    else Running(ip + n, out + s[ip..ip + n], AfterRun)
  }

  /** A token at the head of the outer loop: a literal run unless its value is at least 16. */
  function TopStep(s: seq<byte>, cap: nat, ip: nat, out: seq<byte>): (r: State)
    requires |out| <= cap && ip <= |s|
    ensures Fits(s, cap, r) && (r.Running? ==> r.ip > ip)
  {
    if |s| - ip < 3 then Halted(InputOverrun, out)
    else if s[ip] >= 16 then MatchStep(s, cap, ip, out)
    else
      var c := if s[ip] != 0 then Count(s[ip], ip + 1) else AddCount(ReadCount(s, ip + 1, 0, InputOverrun), 15);
      if c.CountFailed? then Halted(c.status, out)
      else LiteralRun(s, cap, c.ip, out, c.n + 3)
  }

  function Step(s: seq<byte>, cap: nat, st: State): (r: State)
    requires Fits(s, cap, st) && st.Running?
    ensures Fits(s, cap, r) && (r.Running? ==> r.ip > st.ip)
  {
    var ip, out := st.ip, st.out;
    match st.mode
    case Top => TopStep(s, cap, ip, out)
    case AfterRun =>
      if s[ip] >= 16 then MatchStep(s, cap, ip, out)
      else TakeMatch(s, cap, out, 1 + M2_MAX_OFFSET + s[ip] as int / 4 + s[ip + 1] as int * 4, 3, ip + 2)
    case MatchNext(t) =>
      if cap - |out| < t then Halted(OutputOverrun, out)
      else if |s| - ip < t + 3 then Halted(InputOverrun, out)
      else Running(ip + t, out + s[ip..ip + t], AfterTrail)
    case AfterTrail =>
      if s[ip] >= 16 then MatchStep(s, cap, ip, out)
      else TakeMatch(s, cap, out, 1 + s[ip] as int / 4 + s[ip + 1] as int * 4, 2, ip + 2)
  }

  function Start(s: seq<byte>, cap: nat): (r: State)
    ensures Fits(s, cap, r)
  {
    if |s| < 1 then Halted(InputOverrun, [])
    else if s[0] <= 17 then Running(0, [], Top)
    else if s[0] - 17 < 4 then Running(1, [], MatchNext(s[0] - 17))
    else LiteralRun(s, cap, 1, [], s[0] - 17)
  }

  function Run(s: seq<byte>, cap: nat, st: State): (r: State)
    requires Fits(s, cap, st)
    ensures r.Halted? && |r.out| <= cap
    decreases if st.Running? then |s| - st.ip + 1 else 0
  {
    if st.Halted? then st else Run(s, cap, Step(s, cap, st))
  }

  /** What the safe decompressor returns for stream `s` and `cap` bytes of output room. */
  function Decode(s: seq<byte>, cap: nat): (r: State)
    ensures r.Halted? && |r.out| <= cap
  {
    Run(s, cap, Start(s, cap))
  }
}
