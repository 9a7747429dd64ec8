/** TRLE tiles, section 7.7.5 of RFC 6143: what a tile's bytes mean to the decoder, and how a tile is written down.
    A pixel is kept as its bytes. */
module TrleFormat {
  import opened Bytes
  import opened Arith

  type pixel = seq<byte>

  /** What one tile leaves behind for the next: the last subencoding that set a colour or a palette. */
  datatype Memory = Memory(last: nat, color: pixel, palette: seq<pixel>)

  datatype Outcome = Fail | Done(pixels: seq<pixel>, rest: seq<byte>, memory: Memory)

  function Repeat(p: pixel, n: nat): (r: seq<pixel>)
    ensures |r| == n && forall i :: 0 <= i < n ==> r[i] == p
  {
    seq(n, _ => p)
  }

  // ------------------------------------------------------------ reading

  /** `n` pixels of `b` bytes each. */
  function ReadPixels(s: seq<byte>, b: nat, n: nat): (r: seq<pixel>)
    requires n * b <= |s|
    ensures |r| == n
    decreases n
  {
    if n == 0 then [] else
    MulStep(n, b);
    [s[..b]] + ReadPixels(s[b..], b, n - 1)
  }

  /** Bits of an index into a palette of `n` colours. */
  function Bits(n: nat): (r: nat)
    ensures r == 1 || r == 2 || r == 4 || r == 8
  {
    if n > 4 then (if n > 16 then 8 else 4) else if n > 2 then 2 else 1
  }

  predicate Packs(bits: nat) { bits == 1 || bits == 2 || bits == 4 }

  function RowBytes(w: nat, bits: nat): nat
    requires Packs(bits)
  {
    (w + 8 / bits - 1) / (8 / bits)
  }

  /** Index number `k` in a byte, the first one highest. */
  function Index(x: byte, k: nat, bits: nat): (r: nat)
    requires bits * (k + 1) <= 8
    ensures r < Pow2(bits)
  {
    var d, n := Pow2(8 - bits * (k + 1)), Pow2(bits);
    DivNat(x, d);
    DivModDef(x / d, n);
    x / d % n
  }

  lemma IndexFits(i: nat, bits: nat)
    requires Packs(bits)
    ensures var d := 8 / bits; 0 <= i / d && 0 <= i % d < d && bits * (i % d + 1) <= 8
  {}

  lemma RowCovers(i: nat, w: nat, bits: nat)
    requires Packs(bits) && i < w
    ensures 0 <= i / (8 / bits) < RowBytes(w, bits)
  {}

  lemma SixteenColors(bits: nat)
    requires Packs(bits)
    ensures Pow2(bits) <= 16
  {
    assert Pow2(1) == 2 && Pow2(2) == 4 && Pow2(4) == 16;
  }

  /** Pixel `i` of a row. */
  function RowPixel(row: seq<byte>, i: nat, bits: nat, palette: seq<pixel>): pixel
    requires Packs(bits) && i / (8 / bits) < |row| && |palette| == 128
  {
    IndexFits(i, bits);
    SixteenColors(bits);
    palette[Index(row[i / (8 / bits)], i % (8 / bits), bits)]
  }

  /** The first `n` pixels of a row. */
  function Row(row: seq<byte>, n: nat, bits: nat, palette: seq<pixel>): (r: seq<pixel>)
    requires Packs(bits) && RowBytes(n, bits) <= |row| && |palette| == 128
    ensures |r| == n
  {
    if n == 0 then [] else
    RowCovers(n - 1, n, bits);
    RowGrows(n - 1, bits);
    Row(row, n - 1, bits, palette) + [RowPixel(row, n - 1, bits, palette)]
  }

  lemma RowGrows(n: nat, bits: nat)
    requires Packs(bits)
    ensures RowBytes(n, bits) <= RowBytes(n + 1, bits)
  {}

  /** The rows of a packed tile, each starting on a byte. */
  function Rows(s: seq<byte>, w: nat, h: nat, bits: nat, palette: seq<pixel>): (r: seq<pixel>)
    requires Packs(bits) && RowBytes(w, bits) * h <= |s| && |palette| == 128
    ensures |r| == h * w
  {
    if h == 0 then [] else
    var n := RowBytes(w, bits);
    MulBack(n, h);
    MulStep(h, w);
    Rows(s, w, h - 1, bits, palette) + Row(s[n * (h - 1)..n * h], w, bits, palette)
  }

  lemma MulBack(n: nat, h: nat)
    requires h > 0
    ensures n * h == n * (h - 1) + n && n * (h - 1) >= 0
  {}

  datatype Length = NoLength | Length(value: nat, rest: seq<byte>)

  /** The bytes of a run length; at most `budget` of them are followed by another. */
  function ReadLength(s: seq<byte>, budget: nat): (r: Length)
    ensures r.Length? ==> |r.rest| < |s|
  {
    if s == [] then NoLength
    else if s[0] == 255 && budget > 0 then
      var more := ReadLength(s[1..], budget - 1);
      if more.NoLength? then NoLength else Length(255 + more.value, more.rest)
    else Length(s[0], s[1..])
  }

  datatype Runs = NoRuns | Runs(pixels: seq<pixel>, rest: seq<byte>)

  function Min(a: nat, b: nat): nat { if a < b then a else b }

  /** Runs of plain colours until `n` pixels are painted; what a run has too much is dropped.  `size` is the size
      of the receiving buffer. */
  function ReadRuns(s: seq<byte>, b: nat, n: nat, size: nat): (r: Runs)
    requires b + 1 < size
    ensures r.Runs? ==> |r.pixels| == n
    decreases n
  {
    if n == 0 then Runs([], s)
    else if |s| < b + 1 then NoRuns
    else
      var length := ReadLength(s[b..], size - 1 - b);
      if length.NoLength? then NoRuns
      else
        var run := Min(length.value + 1, n);
        var more := ReadRuns(length.rest, b, n - run, size);
        if more.NoRuns? then NoRuns else Runs(Repeat(s[..b], run) + more.pixels, more.rest)
  }

  function ReadPaletteLength(s: seq<byte>, size: nat): (r: Length)
    requires 2 < size && s != []
    ensures r.Length? ==> |r.rest| < |s|
  {
    if s[0] < 128 then Length(0, s[1..]) else ReadLength(s[1..], size - 2)
  }

  /** Runs of palette colours; a byte below 128 is a single pixel. */
  function ReadPaletteRuns(s: seq<byte>, n: nat, palette: seq<pixel>, size: nat): (r: Runs)
    requires 2 < size && |palette| == 128
    ensures r.Runs? ==> |r.pixels| == n
    decreases n
  {
    if n == 0 then Runs([], s)
    else if s == [] then NoRuns
    else
      var length := ReadPaletteLength(s, size);
      if length.NoLength? then NoRuns
      else
        var run := Min(length.value + 1, n);
        var more := ReadPaletteRuns(length.rest, n - run, palette, size);
        if more.NoRuns? then NoRuns else Runs(Repeat(palette[s[0] % 128], run) + more.pixels, more.rest)
  }

  /** Number of colours of the remembered palette. */
  function Count(last: nat): nat { if last >= 130 then last - 128 else last }

  function Load(palette: seq<pixel>, colors: seq<pixel>): (r: seq<pixel>)
    requires |colors| <= |palette|
    ensures |r| == |palette|
  {
    colors + palette[|colors|..]
  }

  ghost predicate Remembers(m: Memory) {
    |m.palette| == 128 && (m.last <= 16 || 130 <= m.last <= 255)
  }

  /** Indices into the remembered palette, one byte or less each. */
  function ReadPacked(s: seq<byte>, w: nat, h: nat, m: Memory): Outcome
    requires |m.palette| == 128 && 2 <= m.last <= 16
  {
    MulMonotone(0, RowBytes(w, Bits(m.last)), h);
    var n := RowBytes(w, Bits(m.last)) * h;
    if |s| < n then Fail
    else Done(Rows(s, w, h, Bits(m.last), m.palette), s[n..], m)
  }

  /** Subencoding 127: the last colour or palette again. */
  function Reuse(t: seq<byte>, w: nat, h: nat, m: Memory): (r: Outcome)
    requires Remembers(m)
    ensures r.Done? ==> |r.pixels| == h * w && Remembers(r.memory)
  {
    RawSize(w, h, 1);
    if m.last == 1 then Done(Repeat(m.color, h * w), t, m)
    else if 2 <= Count(m.last) <= 16 then ReadPacked(t, w, h, m.(last := Count(m.last)))
    else Fail
  }

  function AfterRuns(runs: Runs, m: Memory): Outcome {
    if runs.NoRuns? then Fail else Done(runs.pixels, runs.rest, m)
  }

  /** One tile, `w` by `h`, of pixels of `b` bytes. */
  function DecodeTile(s: seq<byte>, b: nat, w: nat, h: nat, m: Memory, size: nat): (r: Outcome)
    requires b <= 4 && 512 * b <= size && size >= 512 && Remembers(m)
    ensures r.Done? ==> |r.pixels| == h * w && Remembers(r.memory)
  {
    if s == [] then Fail else
    var subencoding, t := s[0], s[1..];
    if subencoding == 0 then
      RawSize(w, h, b);
      if |t| < h * w * b then Fail else Done(ReadPixels(t, b, h * w), t[h * w * b..], m)
    else if subencoding == 1 then
      RawSize(w, h, b);
      if |t| < b then Fail else Done(Repeat(t[..b], h * w), t[b..], m.(last := 1, color := t[..b]))
    else if subencoding == 127 then
      Reuse(t, w, h, m)
    else if subencoding == 128 then
      RawSize(w, h, b);
      AfterRuns(ReadRuns(t, b, h * w, size), m)
    else if subencoding == 129 then
      RawSize(w, h, b);
      AfterRuns(ReadPaletteRuns(t, h * w, m.palette, size), m)
    else if subencoding <= 16 then
      RawSize(1, subencoding, b);
      if |t| < subencoding * b then Fail
      else
        var m' := Memory(subencoding, m.color, Load(m.palette, ReadPixels(t, b, subencoding)));
        ReadPacked(t[subencoding * b..], w, h, m')
    else if subencoding >= 130 then
      var n := subencoding - 128;
      RawSize(1, n, b);
      RawSize(w, h, b);
      if |t| < n * b then Fail
      else
        var m' := Memory(subencoding, m.color, Load(m.palette, ReadPixels(t, b, n)));
        AfterRuns(ReadPaletteRuns(t[n * b..], h * w, m'.palette, size), m')
    else Fail
  }

  lemma RawSize(w: nat, h: nat, b: nat)
    ensures h * w >= 0 && h * w * b >= 0 && h * b >= 0
  {
    MulMonotone(0, h, w);
    MulMonotone(0, h * w, b);
    MulMonotone(0, h, b);
  }
}
