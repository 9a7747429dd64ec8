/** Where the bytes of a tile go in the buffer they are received in.  They are written one behind the other, and the
    decoder limits what a single run length may take, but not what the runs of a tile take together. */
module TrleBuffer {
  import opened Bytes
  import opened Arith
  import opened TrleFormat
  import opened TrleRoundTrip
  import opened TrlePainting

  // ------------------------------------------------------------ how far a tile goes

  /** The end of a run length whose first byte lies at `pos`. */
  function LengthEnd(s: seq<byte>, budget: nat, pos: nat): (e: nat)
    ensures e > pos
  {
    if s != [] && s[0] == 255 && budget > 0 then LengthEnd(s[1..], budget - 1, pos + 1) else pos + 1
  }

  /** The end of the runs of plain colors that paint `n` pixels, or of the read that fails. */
  function RunsEnd(s: seq<byte>, b: nat, n: nat, size: nat, pos: nat): (e: nat)
    requires b + 1 < size
    ensures e >= pos
    decreases n
  {
    if n == 0 then pos
    else if |s| < b + 1 then pos + b + 1
    else
      var e, length := LengthEnd(s[b..], size - 1 - b, pos + b), ReadLength(s[b..], size - 1 - b);
      if length.NoLength? then e else RunsEnd(length.rest, b, n - Min(length.value + 1, n), size, e)
  }

  function PaletteLengthEnd(s: seq<byte>, size: nat, pos: nat): (e: nat)
    requires 2 < size
    ensures e > pos
  {
    if s == [] || s[0] < 128 then pos + 1 else LengthEnd(s[1..], size - 2, pos + 1)
  }

  function PaletteRunsEnd(s: seq<byte>, n: nat, size: nat, pos: nat): (e: nat)
    requires 2 < size
    ensures e >= pos
    decreases n
  {
    if n == 0 then pos
    else if s == [] then pos + 1
    else
      var e, length := PaletteLengthEnd(s, size, pos), ReadPaletteLength(s, size);
      if length.NoLength? then e else PaletteRunsEnd(length.rest, n - Min(length.value + 1, n), size, e)
  }

  /** Packed rows from `pos` on, of a palette that has been remembered. */
  function ReuseEnd(w: nat, h: nat, last: nat, pos: nat): (e: nat)
    ensures e >= pos
  {
    if 2 <= Count(last) <= 16 then
      MulMonotone(0, RowBytes(w, Bits(Count(last))), h);
      pos + RowBytes(w, Bits(Count(last))) * h
    else pos
  }

  /** How far the decoder goes in the buffer while it reads one tile, whether it succeeds or not. */
  function TileEnd(s: seq<byte>, b: nat, w: nat, h: nat, m: Memory, size: nat): nat
    requires b + 2 < size
  {
    if s == [] then 0 else
    var subencoding, t := s[0], s[1..];
    RawSize(w, h, b);
    if subencoding == 0 then h * w * b
    else if subencoding == 1 then b
    else if subencoding == 127 then ReuseEnd(w, h, m.last, 0)
    else if subencoding == 128 then RunsEnd(t, b, h * w, size, 0)
    else if subencoding == 129 then PaletteRunsEnd(t, h * w, size, 0)
    else if subencoding <= 16 then
      RawSize(1, subencoding, b);
      if |t| < subencoding * b then subencoding * b else ReuseEnd(w, h, subencoding, subencoding * b)
    else if subencoding >= 130 then
      RawSize(1, subencoding - 128, b);
      var n := (subencoding - 128) * b;
      if |t| < n then n else PaletteRunsEnd(t[n..], h * w, size, n)
    else 0
  }

  // ------------------------------------------------------------ it is what the tile takes of the stream

  lemma {:induction false} LengthEndTaken(s: seq<byte>, budget: nat, pos: nat)
    ensures var l := ReadLength(s, budget); l.Length? ==> LengthEnd(s, budget, pos) == pos + |s| - |l.rest|
    decreases budget
  {
    if s != [] && s[0] == 255 && budget > 0 {
      LengthEndTaken(s[1..], budget - 1, pos + 1);
    }
  }

  lemma {:induction false} RunsEndTaken(s: seq<byte>, b: nat, n: nat, size: nat, pos: nat)
    requires b + 1 < size
    ensures var runs := ReadRuns(s, b, n, size); runs.Runs? ==> RunsEnd(s, b, n, size, pos) == pos + |s| - |runs.rest|
    decreases n
  {
    hide ReadLength, LengthEnd;
    if n > 0 && |s| >= b + 1 {
      var e, l := LengthEnd(s[b..], size - 1 - b, pos + b), ReadLength(s[b..], size - 1 - b);
      LengthEndTaken(s[b..], size - 1 - b, pos + b);
      if l.Length? { RunsEndTaken(l.rest, b, n - Min(l.value + 1, n), size, e); }
    }
  }

  lemma {:induction false} PaletteRunsEndTaken(s: seq<byte>, n: nat, palette: seq<pixel>, size: nat, pos: nat)
    requires 2 < size && |palette| == 128
    ensures var runs := ReadPaletteRuns(s, n, palette, size);
            runs.Runs? ==> PaletteRunsEnd(s, n, size, pos) == pos + |s| - |runs.rest|
    decreases n
  {
    hide ReadLength, LengthEnd;
    if n > 0 && s != [] {
      var e, l := PaletteLengthEnd(s, size, pos), ReadPaletteLength(s, size);
      LengthEndTaken(s[1..], size - 2, pos + 1);
      if l.Length? { PaletteRunsEndTaken(l.rest, n - Min(l.value + 1, n), palette, size, e); }
    }
  }

  /** A tile that is decoded takes as much of the buffer as of the stream, behind its first byte. */
  lemma TileEndTaken(s: seq<byte>, b: nat, w: nat, h: nat, m: Memory, size: nat)
    requires b <= 4 && 512 * b <= size && 512 <= size && Remembers(m)
    ensures var o := DecodeTile(s, b, w, h, m, size); o.Done? ==> TileEnd(s, b, w, h, m, size) == |s| - |o.rest| - 1
  {
    hide ReadPixels, ReadRuns, ReadPaletteRuns, RunsEnd, PaletteRunsEnd, Rows, RowBytes, Load, Bits;
    if s != [] {
      var subencoding, t := s[0], s[1..];
      RawSize(w, h, b);
      if subencoding == 128 {
        RunsEndTaken(t, b, h * w, size, 0);
      } else if subencoding == 129 {
        PaletteRunsEndTaken(t, h * w, m.palette, size, 0);
      } else if subencoding >= 130 {
        RawSize(1, subencoding - 128, b);
        var n := (subencoding - 128) * b;
        if |t| >= n {
          var palette := Load(m.palette, ReadPixels(t, b, subencoding - 128));
          PaletteRunsEndTaken(t[n..], h * w, palette, size, n);
        }
      } else if 2 <= subencoding <= 16 {
        RawSize(1, subencoding, b);
      }
    }
  }

  // ------------------------------------------------------------ well-formed tiles fit

  lemma {:induction false} LengthBytesCount(k: nat)
    ensures |LengthBytes(k)| == k / 255 + 1
  {
    if k < 255 {
    } else {
      LengthBytesCount(k - 255);
      assert k / 255 == (k - 255) / 255 + 1;
    }
  }

  lemma {:induction false} RunBytesCount(runs: seq<Run<pixel>>, b: nat)
    requires AllValues(runs, b) && Positive(runs)
    ensures 0 <= |runs| * b && |RunBytes(runs)| <= |runs| * b + Total(runs) && |runs| <= Total(runs)
    decreases |runs|
  {
    hide LengthBytes;
    MulMonotone(0, |runs|, b);
    if runs == [] {
    } else {
      RunBytesCount(runs[1..], b);
      LengthBytesCount(runs[0].length - 1);
      MulStep(|runs|, b);
    }
  }

  lemma {:induction false} PaletteRunBytesCount(runs: seq<Run<nat>>)
    requires RunsBelow(runs, 128) && Positive(runs)
    ensures |PaletteRunBytes(runs)| <= Total(runs)
    decreases |runs|
  {
    hide LengthBytes;
    if runs == [] {
    } else {
      PaletteRunBytesCount(runs[1..]);
      LengthBytesCount(runs[0].length - 1);
    }
  }

  lemma PackedCount(w: nat, h: nat, bits: nat)
    requires Packs(bits) && w <= 16 && h <= 16
    ensures 0 <= RowBytes(w, bits) * h <= 128
  {
    assert RowBytes(w, bits) <= 8;
    MulMonotone(RowBytes(w, bits), 8, h);
    MulMonotone(0, RowBytes(w, bits), h);
  }

  /** No well-formed tile goes beyond the buffer. */
  lemma TileFits(t: Tile, b: nat, w: nat, h: nat, m: Memory, size: nat)
    requires WellFormed(t, b, w, h, m) && Remembers(m) && Sizes(b, w, h, size)
    ensures |TileBytes(t, b, w, h, m)| - 1 <= size
  {
    hide RunBytes, PaletteRunBytes, PackRows, Flat, RowBytes, Total, Bits;
    TileSize(w, h);
    match t
    case Raw(pixels) =>
      PixelsDecode(pixels, b, []);
      MulMonotone(h * w, 256, b);
    case Solid(c) =>
    case SolidAgain =>
    case Packed(colors, indices) =>
      PixelsDecode(colors, b, []);
      MulMonotone(|colors|, 16, b);
      EnoughBits(|colors|);
      PackedCount(w, h, Bits(|colors|));
    case PackedAgain(indices) =>
      EnoughBits(Count(m.last));
      PackedCount(w, h, Bits(Count(m.last)));
    case PlainRle(runs) =>
      RunBytesCount(runs, b);
      MulMonotone(|runs|, 256, b);
      if b == 0 { assert |runs| * b == 0; }
    case PaletteRle(colors, runs) =>
      PixelsDecode(colors, b, []);
      MulMonotone(|colors|, 127, b);
      PaletteRunBytesCount(runs);
    case PaletteRleAgain(runs) =>
      PaletteRunBytesCount(runs);
  }

  /** `n` runs of one pixel each. */
  function Singles(c: pixel, n: nat): (r: seq<Run<pixel>>)
    ensures |r| == n
  {
    seq(n, _ => Run(c, 1))
  }

  lemma {:induction false} SinglesCount(c: pixel, n: nat)
    ensures Total(Singles(c, n)) == n && |RunBytes(Singles(c, n))| == n * (|c| + 1)
  {
    if n == 0 {
    } else {
      SinglesCount(c, n - 1);
      assert Singles(c, n)[1..] == Singles(c, n - 1) && Singles(c, n)[0] == Run(c, 1);
      MulStep(n, |c| + 1);
    }
  }

  /** The bound is met: a tile of single pixels of one byte each fills a buffer of 512 bytes to the end. */
  lemma FullBuffer(c: byte, m: Memory)
    requires Remembers(m)
    ensures var t := PlainRle(Singles([c], 256)); WellFormed(t, 1, 16, 16, m) && |TileBytes(t, 1, 16, 16, m)| - 1 == 512
  {
    hide RunBytes, Total;
    SinglesCount([c], 256);
  }

  /** The bytes of any other tile always fit: only runs can go beyond the buffer. */
  lemma OnlyRunsOverrun(s: seq<byte>, b: nat, w: nat, h: nat, m: Memory, size: nat)
    requires Sizes(b, w, h, size) && Remembers(m) && (s == [] || s[0] < 128)
    ensures TileEnd(s, b, w, h, m, size) <= size
  {
    hide RowBytes, Bits;
    TileSize(w, h);
    MulMonotone(h * w, 256, b);
    if s != [] {
      var n := if 2 <= s[0] <= 16 then s[0] else Count(m.last);
      if 2 <= n <= 16 {
        EnoughBits(n);
        PackedCount(w, h, Bits(n));
        MulMonotone(n, 16, b);
      }
    }
  }

  /** `n` bytes 255. */
  function Longs(n: nat): (r: seq<byte>)
    ensures |r| == n && forall i :: 0 <= i < n ==> r[i] == 255
  {
    seq(n, _ => 255)
  }

  lemma {:induction false} LongsLength(n: nat, last: byte, budget: nat, pos: nat)
    requires n <= budget && last < 255
    ensures ReadLength(Longs(n) + [last], budget) == Length(255 * n + last, [])
    ensures LengthEnd(Longs(n) + [last], budget, pos) == pos + n + 1
    decreases n
  {
    var s := Longs(n) + [last];
    if n == 0 {
      assert s[1..] == [];
    } else {
      LongsLength(n - 1, last, budget - 1, pos + 1);
      assert s[1..] == Longs(n - 1) + [last];
    }
  }

  /** One run. */
  lemma RunStep(s: seq<byte>, b: nat, n: nat, size: nat, pos: nat, l: Length)
    requires b + 1 < size && n > 0 && |s| >= b + 1 && l == ReadLength(s[b..], size - 1 - b) && l.Length?
    ensures var k, e := n - Min(l.value + 1, n), LengthEnd(s[b..], size - 1 - b, pos + b);
            RunsEnd(s, b, n, size, pos) == RunsEnd(l.rest, b, k, size, e) &&
            (ReadRuns(s, b, n, size).Runs? <==> ReadRuns(l.rest, b, k, size).Runs?)
  {
    hide ReadLength, LengthEnd;
  }

  /** A run of one pixel, then a run whose length takes as many bytes as the limit allows. */
  function Overlong(c: byte, size: nat): (r: seq<byte>)
    requires 2 <= size
  { [c, 0] + ([c] + (Longs(size - 2) + [0])) }

  /** A tile the decoder accepts although it goes beyond the buffer. */
  lemma RunsOverrun(c: byte, m: Memory, size: nat)
    requires Remembers(m) && 512 <= size
    ensures var s := [128] + Overlong(c, size);
            TileEnd(s, 1, 16, 16, m, size) == size + 2 && DecodeTile(s, 1, 16, 16, m, size).Done?
  {
    hide RunsEnd, ReadRuns;
    var tail, s := Longs(size - 2) + [0], Overlong(c, size);
    assert ([128] + s)[1..] == s && s[1..] == [0] + ([c] + tail) && ([0] + ([c] + tail))[1..] == [c] + tail;
    assert ([c] + tail)[1..] == tail;
    RunStep(s, 1, 256, size, 0, Length(0, [c] + tail));
    LongsLength(size - 2, 0, size - 2, 3);
    RunStep([c] + tail, 1, 255, size, 2, Length(255 * (size - 2), []));
    AllPainted(1, size, size + 2);
  }

  lemma AllPainted(b: nat, size: nat, pos: nat)
    requires b + 1 < size
    ensures RunsEnd([], b, 0, size, pos) == pos && ReadRuns([], b, 0, size).Runs?
  {}

  // ------------------------------------------------------------ whole rectangles

  /** No tile of the rectangle, from the one at (x, y) on, goes beyond the receiving buffer. */
  ghost predicate Contained(s: seq<byte>, r: Frame, x: nat, y: nat, m: Memory)
    requires Buffered(r) && Remembers(m)
    decreases r.ry + r.rh - y, r.rx + r.rw - x
  {
    if y >= r.ry + r.rh then true
    else if x >= r.rx + r.rw then Contained(s, r, r.rx, y + 16, m)
    else
      var w, h := TileWidth(r, x), TileHeight(r, y);
      TileEnd(s, r.b, w, h, m, r.size) <= r.size &&
      var o := DecodeTile(s, r.b, w, h, m, r.size);
      o.Done? ==> Contained(o.rest, r, x + 16, y, o.memory)
  }

  /** Every well-formed rectangle is contained. */
  lemma {:induction false} StreamContained(tiles: seq<Tile>, img: (nat, nat) -> pixel, r: Frame, x: nat, y: nat,
                                           m: Memory,
                                           len: nat, rest: seq<byte>)
    requires Fits(r, len) && Remembers(m) && Describes(tiles, img, r, x, y, m)
    ensures Contained(Stream(tiles, img, r, x, y, m) + rest, r, x, y, m)
    decreases r.ry + r.rh - y, r.rx + r.rw - x
  {
    hide DecodeTile, TileEnd, WellFormed, TileBytes, Pixels, After, Shows;
    var s := Stream(tiles, img, r, x, y, m);
    if y >= r.ry + r.rh {
    } else if x >= r.rx + r.rw {
      StreamContained(tiles, img, r, r.rx, y + 16, m, len, rest);
    } else {
      var w, h := TileWidth(r, x), TileHeight(r, y);
      var more := Stream(tiles[1..], img, r, x + 16, y, After(tiles[0], m)) + rest;
      assert s + rest == TileBytes(tiles[0], r.b, w, h, m) + more;
      SizesHold(r, len, x, y);
      TileDecodes(tiles[0], r.b, w, h, m, r.size, more);
      TileEndTaken(s + rest, r.b, w, h, m, r.size);
      TileFits(tiles[0], r.b, w, h, m, r.size);
      StreamContained(tiles[1..], img, r, x + 16, y, After(tiles[0], m), len, rest);
    }
  }
}
