/** Tiles as an encoder describes them, their bytes, and the proof that the bytes decode to the tile's pixels. */
module TrleRoundTrip {
  import opened Bytes
  import opened Arith
  import opened TrleFormat

  datatype Run<T> = Run(value: T, length: nat)

  datatype Tile =
    | Raw(pixels: seq<pixel>)
    | Solid(color: pixel)
    | SolidAgain
    | Packed(colors: seq<pixel>, indices: seq<nat>)
    | PackedAgain(indices: seq<nat>)
    | PlainRle(plain: seq<Run<pixel>>)
    | PaletteRle(colors: seq<pixel>, runs: seq<Run<nat>>)
    | PaletteRleAgain(runs: seq<Run<nat>>)

  // ------------------------------------------------------------ what a tile shows

  function Colors(palette: seq<pixel>, indices: seq<nat>): (r: seq<pixel>)
    requires forall i :: 0 <= i < |indices| ==> indices[i] < |palette|
    ensures |r| == |indices|
  {
    seq(|indices|, i requires 0 <= i < |indices| => palette[indices[i]])
  }

  function Expand(runs: seq<Run<pixel>>): seq<pixel> {
    if runs == [] then [] else Repeat(runs[0].value, runs[0].length) + Expand(runs[1..])
  }

  function Colored(palette: seq<pixel>, runs: seq<Run<nat>>): (r: seq<Run<pixel>>)
    requires forall i :: 0 <= i < |runs| ==> runs[i].value < |palette|
    ensures |r| == |runs|
  {
    seq(|runs|, i requires 0 <= i < |runs| => Run(palette[runs[i].value], runs[i].length))
  }

  /** The memory the tile's own colours or palette leave. */
  function After(t: Tile, m: Memory): Memory
    requires |m.palette| == 128
  {
    match t
    case Solid(c) => m.(last := 1, color := c)
    case Packed(colors, _) => if |colors| <= 16 then Memory(|colors|, m.color, Load(m.palette, colors)) else m
    case PackedAgain(_) => m.(last := Count(m.last))
    case PaletteRle(colors, _) =>
      if |colors| <= 127 then Memory(128 + |colors|, m.color, Load(m.palette, colors)) else m
    case _ => m
  }

  ghost predicate Below(indices: seq<nat>, n: nat) { forall i :: 0 <= i < |indices| ==> indices[i] < n }

  ghost predicate RunsBelow(runs: seq<Run<nat>>, n: nat) { forall i :: 0 <= i < |runs| ==> runs[i].value < n }

  ghost predicate AllPixels(pixels: seq<pixel>, b: nat) { forall i :: 0 <= i < |pixels| ==> |pixels[i]| == b }

  function Total<T>(runs: seq<Run<T>>): nat {
    if runs == [] then 0 else runs[0].length + Total(runs[1..])
  }

  ghost predicate Positive<T>(runs: seq<Run<T>>) { forall i :: 0 <= i < |runs| ==> runs[i].length > 0 }

  ghost predicate AllValues(runs: seq<Run<pixel>>, b: nat) { forall i :: 0 <= i < |runs| ==> |runs[i].value| == b }

  /** A tile is well formed for its size and what came before: palettes of 2 to 16 or 2 to 127 colours, indices below
      the palette's size, runs that fill the tile exactly, and reuse only of what is there. */
  ghost predicate WellFormed(t: Tile, b: nat, w: nat, h: nat, m: Memory) {
    match t
    case Raw(pixels) => AllPixels(pixels, b) && |pixels| == h * w
    case Solid(c) => |c| == b
    case SolidAgain => m.last == 1
    case Packed(colors, indices) =>
      2 <= |colors| <= 16 && AllPixels(colors, b) && Below(indices, |colors|) && |indices| == h * w
    case PackedAgain(indices) => 2 <= Count(m.last) <= 16 && Below(indices, Count(m.last)) && |indices| == h * w
    case PlainRle(runs) => AllValues(runs, b) && Positive(runs) && Total(runs) == h * w
    case PaletteRle(colors, runs) =>
      2 <= |colors| <= 127 && AllPixels(colors, b) && RunsBelow(runs, |colors|) && Positive(runs) &&
      Total(runs) == h * w
    case PaletteRleAgain(runs) =>
      m.last >= 2 && RunsBelow(runs, Count(m.last)) && Positive(runs) && Total(runs) == h * w
  }

  /** The pixels of a tile, row by row. */
  ghost function Pixels(t: Tile, b: nat, w: nat, h: nat, m: Memory): seq<pixel>
    requires WellFormed(t, b, w, h, m) && Remembers(m)
  {
    RawSize(w, h, 1);
    match t
    case Raw(pixels) => pixels
    case Solid(c) => Repeat(c, h * w)
    case SolidAgain => Repeat(m.color, h * w)
    case Packed(colors, indices) => Colors(colors, indices)
    case PackedAgain(indices) => Colors(m.palette, indices)
    case PlainRle(runs) => Expand(runs)
    case PaletteRle(colors, runs) => Expand(Colored(colors, runs))
    case PaletteRleAgain(runs) => Expand(Colored(m.palette, runs))
  }

  // ------------------------------------------------------------ what is written down

  function Flat(pixels: seq<pixel>): seq<byte> {
    if pixels == [] then [] else pixels[0] + Flat(pixels[1..])
  }

  /** Some indices in one number, the first one highest. */
  function Pack(indices: seq<nat>, bits: nat): nat {
    if indices == [] then 0
    else
      MulMonotone(0, Pack(indices[..|indices| - 1], bits), Pow2(bits));
      Pack(indices[..|indices| - 1], bits) * Pow2(bits) + indices[|indices| - 1]
  }

  /** The indices that share byte `q` of a row; the last byte is filled up with zeros. */
  function Group(row: seq<nat>, q: nat, d: nat): (r: seq<nat>)
    requires d == 8 || d == 4 || d == 2
    ensures |r| == d && forall k :: 0 <= k < d ==> r[k] == (if q * d + k < |row| then row[q * d + k] else 0)
  {
    seq(d, k requires 0 <= k < d => if q * d + k < |row| then row[q * d + k] else 0)
  }

  lemma PowSum(j: nat, k: nat)
    ensures Pow2(j + k) == Pow2(j) * Pow2(k)
  {
    if j == 0 {
    } else {
      PowSum(j - 1, k);
      MulAssoc(2, Pow2(j - 1), Pow2(k));
    }
  }

  lemma DivDiv(v: nat, a: nat, b: nat)
    requires a > 0 && b > 0
    ensures a * b > 0 && 0 <= v / a && v / (a * b) == v / a / b
  {
    DivModDef(v, a);
    DivNat(v, a);
    var q := v / a;
    DivModDef(q, b);
    DivNat(q, b);
    MulAtLeast(a, b);
    FlatBelow(v % a, q % b, a, b);
    Regroup(q / b, q % b, a, b);
    MulMonotone(0, q % b, a);
    MulCommute(a, b);
    DivUnique(v, q / b, (q % b) * a + v % a, a * b);
  }

  lemma Regroup(t: nat, u: nat, a: nat, b: nat)
    ensures (t * b + u) * a == t * (a * b) + u * a
  {
    MulDistr(t * b, u, a);
    MulCommute(a, b);
    MulAssoc(t, b, a);
  }

  lemma LastOfPack(g: seq<nat>, bits: nat)
    requires g != [] && Below(g, Pow2(bits))
    ensures Pack(g, bits) / Pow2(bits) == Pack(g[..|g| - 1], bits) && Pack(g, bits) % Pow2(bits) == g[|g| - 1]
  {
    DivUnique(Pack(g, bits), Pack(g[..|g| - 1], bits), g[|g| - 1], Pow2(bits));
  }

  lemma {:induction false} PackShift(g: seq<nat>, j: nat, bits: nat)
    requires j <= |g| && Below(g, Pow2(bits))
    ensures bits * j >= 0 && Pack(g, bits) / Pow2(bits * j) == Pack(g[..|g| - j], bits)
    decreases j
  {
    hide Pack;
    MulMonotone(0, j, bits);
    if j == 0 {
      assert g[..|g|] == g && Pow2(0) == 1;
    } else {
      var init := g[..|g| - 1];
      LastOfPack(g, bits);
      PackShift(init, j - 1, bits);
      assert init[..|init| - (j - 1)] == g[..|g| - j];
      Step(bits, j);
      PowSum(bits, bits * (j - 1));
      DivDiv(Pack(g, bits), Pow2(bits), Pow2(bits * (j - 1)));
    }
  }

  lemma Step(bits: nat, j: nat)
    requires j > 0
    ensures bits * j == bits + bits * (j - 1) && bits * (j - 1) >= 0
  {}

  /** Each index is found again in its place. */
  lemma PackIndex(g: seq<nat>, k: nat, bits: nat)
    requires Packs(bits) && |g| == 8 / bits && k < |g| && Below(g, Pow2(bits))
    ensures Pack(g, bits) < 256 && bits * (k + 1) <= 8 && Index(Pack(g, bits), k, bits) == g[k]
  {
    hide Pack, Pow2;
    PackByte(g, bits);
    var j := |g| - 1 - k;
    PackShift(g, j, bits);
    LastOfPack(g[..k + 1], bits);
    assert 8 - bits * (k + 1) == bits * j;
  }

  lemma {:induction false} PackBelow(g: seq<nat>, bits: nat)
    requires Below(g, Pow2(bits))
    ensures bits * |g| >= 0 && Pack(g, bits) < Pow2(bits * |g|)
  {
    MulMonotone(0, |g|, bits);
    if g == [] {
      assert Pow2(0) == 1;
    } else {
      var init := g[..|g| - 1];
      PackBelow(init, bits);
      Step(bits, |g|);
      PowSum(bits * |init|, bits);
      FlatBelow(g[|g| - 1], Pack(init, bits), Pow2(bits), Pow2(bits * |init|));
    }
  }

  lemma PackByte(g: seq<nat>, bits: nat)
    requires Packs(bits) && |g| == 8 / bits && Below(g, Pow2(bits))
    ensures Pack(g, bits) < 256
  {
    hide Pack;
    PackBelow(g, bits);
    assert Pow2(8) == 256 && bits * |g| == 8;
  }

  /** Byte `q` of a packed row. */
  function RowByte(row: seq<nat>, q: nat, bits: nat): byte
    requires Packs(bits)
  {
    Pack(Group(row, q, 8 / bits), bits) % 256
  }

  function PackRow(row: seq<nat>, bits: nat): (r: seq<byte>)
    requires Packs(bits)
    ensures |r| == RowBytes(|row|, bits)
  {
    seq(RowBytes(|row|, bits), q requires 0 <= q => RowByte(row, q, bits))
  }

  function PackRows(indices: seq<nat>, w: nat, h: nat, bits: nat): (r: seq<byte>)
    requires Packs(bits) && |indices| == h * w
    ensures |r| == RowBytes(w, bits) * h
  {
    if h == 0 then [] else
    MulStep(h, w);
    MulBack(RowBytes(w, bits), h);
    MulMonotone(0, h - 1, w);
    PackRows(indices[..(h - 1) * w], w, h - 1, bits) + PackRow(indices[(h - 1) * w..], bits)
  }

  lemma RowPixelDecodes(row: seq<nat>, i: nat, bits: nat, palette: seq<pixel>)
    requires Packs(bits) && i < |row| && |palette| == 128 && Below(row, Pow2(bits))
    ensures 0 <= i / (8 / bits) < RowBytes(|row|, bits) && row[i] < 128
    ensures RowPixel(PackRow(row, bits), i, bits, palette) == palette[row[i]]
  {
    hide Pack, Index, Pow2;
    var d := 8 / bits;
    RowCovers(i, |row|, bits);
    IndexFits(i, bits);
    var g := Group(row, i / d, d);
    DivModDef(i, d);
    assert g[i % d] == row[i];
    GroupBelow(row, i / d, bits);
    PackIndex(g, i % d, bits);
    SixteenColors(bits);
  }

  lemma GroupBelow(row: seq<nat>, q: nat, bits: nat)
    requires Packs(bits) && Below(row, Pow2(bits))
    ensures Below(Group(row, q, 8 / bits), Pow2(bits))
  {
    hide Pow2;
  }

  lemma {:induction false} RowDecodes(row: seq<nat>, n: nat, bits: nat, palette: seq<pixel>)
    requires Packs(bits) && n <= |row| && |palette| == 128 && Below(row, Pow2(bits))
    ensures Below(row, 128) && RowBytes(n, bits) <= RowBytes(|row|, bits)
    ensures Row(PackRow(row, bits), n, bits, palette) == Colors(palette, row[..n])
    decreases n
  {
    hide RowPixel, PackRow, Pow2;
    SixteenColors(bits);
    RowsGrow(n, |row|, bits);
    if n == 0 {
    } else {
      RowDecodes(row, n - 1, bits, palette);
      RowPixelDecodes(row, n - 1, bits, palette);
      assert row[..n] == row[..n - 1] + [row[n - 1]];
    }
  }

  lemma RowsGrow(n: nat, k: nat, bits: nat)
    requires Packs(bits) && n <= k
    ensures RowBytes(n, bits) <= RowBytes(k, bits)
  {}

  lemma {:induction false} RowsDecode(indices: seq<nat>, w: nat, h: nat, bits: nat, palette: seq<pixel>,
                                      rest: seq<byte>)
    requires Packs(bits) && |indices| == h * w && |palette| == 128 && Below(indices, Pow2(bits))
    ensures Below(indices, 128)
    ensures Rows(PackRows(indices, w, h, bits) + rest, w, h, bits, palette) == Colors(palette, indices)
    decreases h
  {
    hide Row, PackRow, Pow2, RowBytes, Colors;
    SixteenColors(bits);
    if h == 0 {
      NoColors(palette);
    } else {
      var n, k := RowBytes(w, bits), (h - 1) * w;
      MulStep(h, w);
      MulBack(n, h);
      MulMonotone(0, h - 1, w);
      var upper, last := indices[..k], indices[k..];
      assert indices == upper + last;
      RowsDecode(upper, w, h - 1, bits, palette, PackRow(last, bits) + rest);
      LastRow(PackRows(upper, w, h - 1, bits), PackRow(last, bits), rest);
      RowDecodes(last, |last|, bits, palette);
      assert last[..|last|] == last;
      ColorsJoin(palette, upper, last);
      hide Below;
    }
  }

  lemma NoColors(palette: seq<pixel>)
    ensures Colors(palette, []) == []
  {}

  lemma ColorsJoin(palette: seq<pixel>, a: seq<nat>, b: seq<nat>)
    requires Below(a, |palette|) && Below(b, |palette|)
    ensures Below(a + b, |palette|) && Colors(palette, a + b) == Colors(palette, a) + Colors(palette, b)
  {}

  lemma LastRow(upper: seq<byte>, row: seq<byte>, rest: seq<byte>)
    ensures var s := upper + row + rest; s == upper + (row + rest) && s[|upper|..|upper| + |row|] == row
  {}

  // ------------------------------------------------------------ runs

  function LengthBytes(k: nat): (r: seq<byte>) {
    if k < 255 then [k] else [255] + LengthBytes(k - 255)
  }

  lemma {:induction false} LengthDecodes(k: nat, budget: nat, rest: seq<byte>)
    requires k < 255 * (budget + 1)
    ensures ReadLength(LengthBytes(k) + rest, budget) == Length(k, rest)
    decreases k
  {
    var s := LengthBytes(k) + rest;
    if k < 255 {
      assert s[1..] == rest;
    } else {
      LengthDecodes(k - 255, budget - 1, rest);
      assert s[1..] == LengthBytes(k - 255) + rest;
    }
  }

  function PlainRun(run: Run<pixel>): seq<byte>
    requires run.length > 0
  {
    run.value + LengthBytes(run.length - 1)
  }

  ghost function RunBytes(runs: seq<Run<pixel>>): seq<byte>
    requires Positive(runs)
  {
    if runs == [] then []
    else PlainRun(runs[0]) + RunBytes(runs[1..])
  }

  function PaletteRun(run: Run<nat>): (r: seq<byte>)
    requires run.length > 0 && run.value < 128
    ensures r != []
  {
    if run.length == 1 then [run.value] else [run.value + 128] + LengthBytes(run.length - 1)
  }

  ghost function PaletteRunBytes(runs: seq<Run<nat>>): seq<byte>
    requires Positive(runs) && RunsBelow(runs, 128)
  {
    if runs == [] then [] else PaletteRun(runs[0]) + PaletteRunBytes(runs[1..])
  }

  lemma {:induction false} RunsDecode(runs: seq<Run<pixel>>, b: nat, size: nat, rest: seq<byte>)
    requires AllValues(runs, b) && Positive(runs) && Total(runs) <= 256 && b <= 4 && 512 <= size
    ensures ReadRuns(RunBytes(runs) + rest, b, Total(runs), size) == Runs(Expand(runs), rest)
    decreases |runs|
  {
    hide ReadRuns, PlainRun, Repeat, Expand, AllValues, Positive;
    if runs == [] {
      NothingDecodes(b, size, rest);
    } else {
      RunsBehind(runs, b);
      FirstExpanded(runs);
      RunsDecode(runs[1..], b, size, rest);
      RunDecodes(runs[0], RunBytes(runs[1..]), b, Total(runs[1..]), size, Expand(runs[1..]), rest);
    }
  }

  lemma NothingDecodes(b: nat, size: nat, rest: seq<byte>)
    requires b + 1 < size
    ensures [] + rest == rest && ReadRuns(rest, b, 0, size) == Runs([], rest) && Expand([]) == []
  {}

  lemma NoPaletteRunDecodes(palette: seq<pixel>, size: nat, rest: seq<byte>)
    requires 2 < size && |palette| == 128
    ensures [] + rest == rest && ReadPaletteRuns(rest, 0, palette, size) == Runs([], rest)
    ensures Expand(Colored(palette, [])) == []
  {}

  lemma FirstExpanded(runs: seq<Run<pixel>>)
    requires runs != []
    ensures Expand(runs) == Repeat(runs[0].value, runs[0].length) + Expand(runs[1..])
  {}

  lemma RunsBehind(runs: seq<Run<pixel>>, b: nat)
    requires AllValues(runs, b) && Positive(runs) && runs != []
    ensures AllValues(runs[1..], b) && Positive(runs[1..]) && |runs[0].value| == b && runs[0].length > 0
  {}

  lemma PaletteRunsBehind(runs: seq<Run<nat>>)
    requires RunsBelow(runs, 128) && Positive(runs) && runs != []
    ensures RunsBelow(runs[1..], 128) && Positive(runs[1..]) && runs[0].value < 128 && runs[0].length > 0
  {}

  /** One run in front of `n` pixels that decode. */
  lemma RunDecodes(run: Run<pixel>, coded: seq<byte>, b: nat, n: nat, size: nat, px: seq<pixel>, rest: seq<byte>)
    requires |run.value| == b && 0 < run.length && run.length + n <= 256 && b <= 4 && 512 <= size
    requires ReadRuns(coded + rest, b, n, size) == Runs(px, rest)
    ensures ReadRuns(PlainRun(run) + coded + rest, b, run.length + n, size) ==
            Runs(Repeat(run.value, run.length) + px, rest)
  {
    hide ReadRuns, ReadLength, LengthBytes, Repeat;
    var length, more := LengthBytes(run.length - 1), coded + rest;
    LengthDecodes(run.length - 1, size - 1 - b, more);
    LengthSome(run.length - 1);
    RunHead(run.value, length, coded, rest);
    FirstRun(run.value + length + coded + rest, b, run.length + n, size, Length(run.length - 1, more));
  }

  lemma FirstRun(s: seq<byte>, b: nat, n: nat, size: nat, l: Length)
    requires b + 1 < size && n > 0 && |s| >= b + 1 && l.Length? && ReadLength(s[b..], size - 1 - b) == l
    ensures var run := Min(l.value + 1, n);
            var more := ReadRuns(l.rest, b, n - run, size);
            ReadRuns(s, b, n, size) ==
            if more.NoRuns? then NoRuns else Runs(Repeat(s[..b], run) + more.pixels, more.rest)
  {
    hide ReadLength;
  }

  lemma RunHead(c: pixel, length: seq<byte>, more: seq<byte>, rest: seq<byte>)
    ensures var s := c + length + more + rest; s[..|c|] == c && s[|c|..] == length + (more + rest)
  {}

  lemma LengthSome(k: nat)
    ensures |LengthBytes(k)| >= 1
  {}

  lemma PaletteRunDecodes(run: Run<nat>, size: nat, more: seq<byte>)
    requires 0 < run.length <= 256 && run.value < 128 && 512 <= size
    ensures ReadPaletteLength(PaletteRun(run) + more, size) == Length(run.length - 1, more)
    ensures (PaletteRun(run) + more)[0] % 128 == run.value
  {
    hide ReadLength, LengthBytes;
    var s := PaletteRun(run) + more;
    if run.length == 1 {
      assert s[1..] == more;
    } else {
      LengthDecodes(run.length - 1, size - 2, more);
      assert s[1..] == LengthBytes(run.length - 1) + more;
    }
  }

  lemma {:induction false} PaletteRunsDecode(runs: seq<Run<nat>>, palette: seq<pixel>, size: nat, rest: seq<byte>)
    requires RunsBelow(runs, 128) && Positive(runs) && Total(runs) <= 256 && |palette| == 128 && 512 <= size
    ensures ReadPaletteRuns(PaletteRunBytes(runs) + rest, Total(runs), palette, size) ==
            Runs(Expand(Colored(palette, runs)), rest)
    decreases |runs|
  {
    hide ReadPaletteRuns, PaletteRun, Repeat, Expand, Colored, RunsBelow, Positive;
    if runs == [] {
      NoPaletteRunDecodes(palette, size, rest);
    } else {
      PaletteRunsBehind(runs);
      PaletteRunsDecode(runs[1..], palette, size, rest);
      FirstColored(palette, runs);
      PaletteRunInFront(runs[0], PaletteRunBytes(runs[1..]), Total(runs[1..]), palette, size,
                        Expand(Colored(palette, runs[1..])), rest);
    }
  }

  lemma PaletteRunInFront(run: Run<nat>, coded: seq<byte>, n: nat, palette: seq<pixel>, size: nat, px: seq<pixel>,
                          rest: seq<byte>)
    requires 0 < run.length && run.length + n <= 256 && run.value < 128 == |palette| && 512 <= size
    requires ReadPaletteRuns(coded + rest, n, palette, size) == Runs(px, rest)
    ensures ReadPaletteRuns(PaletteRun(run) + coded + rest, run.length + n, palette, size) ==
            Runs(Repeat(palette[run.value], run.length) + px, rest)
  {
    hide ReadPaletteRuns, ReadPaletteLength, PaletteRun, Repeat;
    var s, more := PaletteRun(run) + coded + rest, coded + rest;
    assert s == PaletteRun(run) + more;
    PaletteRunDecodes(run, size, more);
    FirstPaletteRun(s, run.length + n, palette, size, Length(run.length - 1, more));
  }

  lemma FirstColored(palette: seq<pixel>, runs: seq<Run<nat>>)
    requires RunsBelow(runs, |palette|) && runs != []
    ensures Expand(Colored(palette, runs)) ==
            Repeat(palette[runs[0].value], runs[0].length) + Expand(Colored(palette, runs[1..]))
  {
    hide Repeat;
    assert Colored(palette, runs)[1..] == Colored(palette, runs[1..]);
  }

  lemma FirstPaletteRun(s: seq<byte>, n: nat, palette: seq<pixel>, size: nat, l: Length)
    requires 2 < size && n > 0 && s != [] && |palette| == 128 && l.Length? && ReadPaletteLength(s, size) == l
    ensures var run := Min(l.value + 1, n);
            var more := ReadPaletteRuns(l.rest, n - run, palette, size);
            ReadPaletteRuns(s, n, palette, size) ==
            if more.NoRuns? then NoRuns else Runs(Repeat(palette[s[0] % 128], run) + more.pixels, more.rest)
  {
    hide ReadPaletteLength;
  }

  lemma {:induction false} PixelsDecode(pixels: seq<pixel>, b: nat, rest: seq<byte>)
    requires AllPixels(pixels, b)
    ensures |Flat(pixels)| == |pixels| * b
    ensures var s := Flat(pixels) + rest;
            |pixels| * b <= |s| && ReadPixels(s, b, |pixels|) == pixels && s[|pixels| * b..] == rest
    decreases |pixels|
  {
    var s := Flat(pixels) + rest;
    if pixels == [] {
    } else {
      MulStep(|pixels|, b);
      PixelsDecode(pixels[1..], b, rest);
      assert s[..b] == pixels[0] && s[b..] == Flat(pixels[1..]) + rest;
      assert pixels == [pixels[0]] + pixels[1..];
    }
  }

  // ------------------------------------------------------------ tiles

  /** The bytes of a well-formed tile. */
  ghost function TileBytes(t: Tile, b: nat, w: nat, h: nat, m: Memory): seq<byte>
    requires WellFormed(t, b, w, h, m) && Remembers(m)
  {
    match t
    case Raw(pixels) => [0] + Flat(pixels)
    case Solid(c) => [1] + c
    case SolidAgain => [127]
    case Packed(colors, indices) => [|colors|] + Flat(colors) + PackRows(indices, w, h, Bits(|colors|))
    case PackedAgain(indices) => [127] + PackRows(indices, w, h, Bits(Count(m.last)))
    case PlainRle(runs) => [128] + RunBytes(runs)
    case PaletteRle(colors, runs) => [128 + |colors|] + Flat(colors) + PaletteRunBytes(runs)
    case PaletteRleAgain(runs) => [129] + PaletteRunBytes(runs)
  }

  /** Sizes the decoder meets: tiles of at most 16 by 16, pixels of at most four bytes, and its buffer. */
  ghost predicate Sizes(b: nat, w: nat, h: nat, size: nat) {
    b <= 4 && w <= 16 && h <= 16 && 512 * b <= size && 512 <= size
  }

  /** A tile's bytes decode to its pixels, and nothing more is read. */
  ghost predicate Decodes(t: Tile, b: nat, w: nat, h: nat, m: Memory, size: nat, rest: seq<byte>)
    requires WellFormed(t, b, w, h, m) && Remembers(m) && Sizes(b, w, h, size)
  {
    Remembers(After(t, m)) &&
    DecodeTile(TileBytes(t, b, w, h, m) + rest, b, w, h, m, size) == Done(Pixels(t, b, w, h, m), rest, After(t, m))
  }

  lemma TileSize(w: nat, h: nat)
    requires w <= 16 && h <= 16
    ensures 0 <= h * w <= 256
  {
    MulMonotone(h, 16, w);
    MulMonotone(0, h, w);
  }

  lemma RawDecodes(pixels: seq<pixel>, b: nat, w: nat, h: nat, m: Memory, size: nat, rest: seq<byte>)
    requires WellFormed(Raw(pixels), b, w, h, m) && Remembers(m) && Sizes(b, w, h, size)
    ensures Decodes(Raw(pixels), b, w, h, m, size, rest)
  {
    hide ReadPixels;
    var s := [0] + Flat(pixels) + rest;
    assert s[1..] == Flat(pixels) + rest;
    PixelsDecode(pixels, b, rest);
  }

  lemma SolidDecodes(c: pixel, b: nat, w: nat, h: nat, m: Memory, size: nat, rest: seq<byte>)
    requires WellFormed(Solid(c), b, w, h, m) && Remembers(m) && Sizes(b, w, h, size)
    ensures Decodes(Solid(c), b, w, h, m, size, rest)
  {
    var s := [1] + c + rest;
    assert s[1..] == c + rest && s[1..][..b] == c && s[1..][b..] == rest;
  }

  lemma SolidAgainDecodes(b: nat, w: nat, h: nat, m: Memory, size: nat, rest: seq<byte>)
    requires WellFormed(SolidAgain, b, w, h, m) && Remembers(m) && Sizes(b, w, h, size)
    ensures Decodes(SolidAgain, b, w, h, m, size, rest)
  {
    assert ([127] + rest)[1..] == rest;
  }

  lemma EnoughBits(n: nat)
    requires 2 <= n <= 16
    ensures Packs(Bits(n)) && n <= Pow2(Bits(n)) && Bits(n) == if n <= 2 then 1 else if n <= 4 then 2 else 4
  {
    assert Pow2(1) == 2 && Pow2(2) == 4 && Pow2(4) == 16;
  }

  lemma PackedReads(indices: seq<nat>, w: nat, h: nat, m: Memory, rest: seq<byte>)
    requires 2 <= m.last <= 16 && |m.palette| == 128 && Below(indices, m.last) && |indices| == h * w
    ensures Packs(Bits(m.last)) && Below(indices, 128)
    ensures ReadPacked(PackRows(indices, w, h, Bits(m.last)) + rest, w, h, m) ==
            Done(Colors(m.palette, indices), rest, m)
  {
    hide Rows, PackRows, Pow2, Bits;
    EnoughBits(m.last);
    RowsDecode(indices, w, h, Bits(m.last), m.palette, rest);
  }

  lemma PackedAgainDecodes(indices: seq<nat>, b: nat, w: nat, h: nat, m: Memory, size: nat, rest: seq<byte>)
    requires WellFormed(PackedAgain(indices), b, w, h, m) && Remembers(m) && Sizes(b, w, h, size)
    ensures Decodes(PackedAgain(indices), b, w, h, m, size, rest)
  {
    hide PackRows, ReadPacked, Bits;
    EnoughBits(Count(m.last));
    var packed := PackRows(indices, w, h, Bits(Count(m.last)));
    assert ([127] + packed + rest)[1..] == packed + rest;
    PackedReads(indices, w, h, m.(last := Count(m.last)), rest);
  }

  lemma ColorsLoaded(palette: seq<pixel>, colors: seq<pixel>, indices: seq<nat>)
    requires |palette| == 128 && |colors| <= 128 && Below(indices, |colors|)
    ensures Colors(Load(palette, colors), indices) == Colors(colors, indices)
  {}

  lemma RunsLoaded(palette: seq<pixel>, colors: seq<pixel>, runs: seq<Run<nat>>)
    requires |palette| == 128 && |colors| <= 128 && RunsBelow(runs, |colors|)
    ensures Colored(Load(palette, colors), runs) == Colored(colors, runs)
  {}

  lemma PackedDecodes(colors: seq<pixel>, indices: seq<nat>, b: nat, w: nat, h: nat, m: Memory, size: nat,
                      rest: seq<byte>)
    requires WellFormed(Packed(colors, indices), b, w, h, m) && Remembers(m) && Sizes(b, w, h, size)
    ensures Decodes(Packed(colors, indices), b, w, h, m, size, rest)
  {
    hide PackRows, ReadPacked, Bits, Load, Flat, ReadPixels;
    EnoughBits(|colors|);
    var packed := PackRows(indices, w, h, Bits(|colors|));
    var m' := Memory(|colors|, m.color, Load(m.palette, colors));
    assert ([|colors|] + Flat(colors) + packed + rest)[1..] == Flat(colors) + (packed + rest);
    PixelsDecode(colors, b, packed + rest);
    ColorsLoaded(m.palette, colors, indices);
    PackedReads(indices, w, h, m', rest);
  }

  lemma PlainDecodes(runs: seq<Run<pixel>>, b: nat, w: nat, h: nat, m: Memory, size: nat, rest: seq<byte>)
    requires WellFormed(PlainRle(runs), b, w, h, m) && Remembers(m) && Sizes(b, w, h, size)
    ensures Decodes(PlainRle(runs), b, w, h, m, size, rest)
  {
    hide ReadRuns, RunBytes, Expand;
    TileSize(w, h);
    assert ([128] + RunBytes(runs) + rest)[1..] == RunBytes(runs) + rest;
    RunsDecode(runs, b, size, rest);
  }

  lemma PaletteDecodes(colors: seq<pixel>, runs: seq<Run<nat>>, b: nat, w: nat, h: nat, m: Memory, size: nat,
                       rest: seq<byte>)
    requires WellFormed(PaletteRle(colors, runs), b, w, h, m) && Remembers(m) && Sizes(b, w, h, size)
    ensures Decodes(PaletteRle(colors, runs), b, w, h, m, size, rest)
  {
    hide ReadPaletteRuns, PaletteRunBytes, Expand, Load, Flat, ReadPixels, Colored;
    TileSize(w, h);
    var coded := PaletteRunBytes(runs);
    assert ([128 + |colors|] + Flat(colors) + coded + rest)[1..] == Flat(colors) + (coded + rest);
    PixelsDecode(colors, b, coded + rest);
    RunsLoaded(m.palette, colors, runs);
    PaletteRunsDecode(runs, Load(m.palette, colors), size, rest);
  }

  lemma PaletteAgainDecodes(runs: seq<Run<nat>>, b: nat, w: nat, h: nat, m: Memory, size: nat, rest: seq<byte>)
    requires WellFormed(PaletteRleAgain(runs), b, w, h, m) && Remembers(m) && Sizes(b, w, h, size)
    ensures Decodes(PaletteRleAgain(runs), b, w, h, m, size, rest)
  {
    hide ReadPaletteRuns, PaletteRunBytes, Expand, Colored;
    TileSize(w, h);
    assert ([129] + PaletteRunBytes(runs) + rest)[1..] == PaletteRunBytes(runs) + rest;
    PaletteRunsDecode(runs, m.palette, size, rest);
  }

  lemma TileDecodes(t: Tile, b: nat, w: nat, h: nat, m: Memory, size: nat, rest: seq<byte>)
    requires WellFormed(t, b, w, h, m) && Remembers(m) && Sizes(b, w, h, size)
    ensures Decodes(t, b, w, h, m, size, rest)
  {
    hide Decodes, WellFormed;
    match t
    case Raw(pixels) => RawDecodes(pixels, b, w, h, m, size, rest);
    case Solid(c) => SolidDecodes(c, b, w, h, m, size, rest);
    case SolidAgain => SolidAgainDecodes(b, w, h, m, size, rest);
    case Packed(colors, indices) => PackedDecodes(colors, indices, b, w, h, m, size, rest);
    case PackedAgain(indices) => PackedAgainDecodes(indices, b, w, h, m, size, rest);
    case PlainRle(runs) => PlainDecodes(runs, b, w, h, m, size, rest);
    case PaletteRle(colors, runs) => PaletteDecodes(colors, runs, b, w, h, m, size, rest);
    case PaletteRleAgain(runs) => PaletteAgainDecodes(runs, b, w, h, m, size, rest);
  }
}
