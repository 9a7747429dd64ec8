/** Rectangles the decoder refuses: reserved subencodings, reuse of what is not there, and every rectangle cut short. */
module TrleFailures {
  import opened Bytes
  import opened Arith
  import opened Rectangles
  import opened TrleFormat
  import opened TrleRoundTrip
  import opened TrlePainting

  // ------------------------------------------------------------ refused and clipped

  /** Subencodings 17 to 126 are refused, whatever follows, and 127 unless the last tile that set colors set one color
      or a palette of 2 to 16. */
  lemma Reserved(s: seq<byte>, b: nat, w: nat, h: nat, m: Memory, size: nat)
    requires b <= 4 && 512 * b <= size && size >= 512 && Remembers(m) && s != []
    ensures 17 <= s[0] <= 126 ==> DecodeTile(s, b, w, h, m, size).Fail?
    ensures s[0] == 127 && (m.last == 0 || 145 <= m.last) ==> DecodeTile(s, b, w, h, m, size).Fail?
    ensures s[0] == 127 && m.last == 1 ==> DecodeTile(s, b, w, h, m, size).Done?
  {}

  /** What a run has too much is dropped. */
  lemma Overlong(c: pixel, length: nat, n: nat, size: nat, rest: seq<byte>)
    requires |c| <= 4 && size >= 512 && 0 < n <= length <= 255 * (size - |c|)
    ensures ReadRuns(c + LengthBytes(length - 1) + rest, |c|, n, size) == Runs(Repeat(c, n), rest)
  {
    hide ReadLength, LengthBytes, Repeat;
    var s := c + LengthBytes(length - 1) + rest;
    LengthDecodes(length - 1, size - 1 - |c|, rest);
    LengthSome(length - 1);
    RunHead(c, LengthBytes(length - 1), [], rest);
    assert c + LengthBytes(length - 1) + [] + rest == s && [] + rest == rest;
    FirstRun(s, |c|, n, size, Length(length - 1, rest));
    NothingDecodes(|c|, size, rest);
    assert Repeat(c, n) + [] == Repeat(c, n);
  }

  // ------------------------------------------------------------ more bytes behind

  lemma {:induction false} LengthExtends(s: seq<byte>, budget: nat, extra: seq<byte>)
    requires ReadLength(s, budget).Length?
    ensures ReadLength(s + extra, budget) ==
            Length(ReadLength(s, budget).value, ReadLength(s, budget).rest + extra)
  {
    assert (s + extra)[1..] == s[1..] + extra;
    if s[0] == 255 && budget > 0 {
      LengthExtends(s[1..], budget - 1, extra);
    }
  }

  lemma {:induction false} RunsExtend(s: seq<byte>, b: nat, n: nat, size: nat, extra: seq<byte>)
    requires b + 1 < size && ReadRuns(s, b, n, size).Runs?
    ensures ReadRuns(s + extra, b, n, size) ==
            Runs(ReadRuns(s, b, n, size).pixels, ReadRuns(s, b, n, size).rest + extra)
    decreases n
  {
    hide ReadRuns, ReadLength, Repeat;
    if n == 0 {
      NoRunExtends(s, b, size, extra);
    } else {
      RunRead(s, b, n, size);
      var length := ReadLength(s[b..], size - 1 - b);
      LengthExtends(s[b..], size - 1 - b, extra);
      assert (s + extra)[b..] == s[b..] + extra && (s + extra)[..b] == s[..b];
      RunsExtend(length.rest, b, n - Min(length.value + 1, n), size, extra);
      FirstRun(s, b, n, size, length);
      FirstRun(s + extra, b, n, size, Length(length.value, length.rest + extra));
    }
  }

  lemma NoRunExtends(s: seq<byte>, b: nat, size: nat, extra: seq<byte>)
    requires b + 1 < size
    ensures ReadRuns(s, b, 0, size) == Runs([], s) && ReadRuns(s + extra, b, 0, size) == Runs([], s + extra)
  {}

  /** What decoding the first of the runs has found. */
  lemma RunRead(s: seq<byte>, b: nat, n: nat, size: nat)
    requires b + 1 < size && n > 0 && ReadRuns(s, b, n, size).Runs?
    ensures |s| >= b + 1 && ReadLength(s[b..], size - 1 - b).Length?
    ensures var length := ReadLength(s[b..], size - 1 - b);
            ReadRuns(length.rest, b, n - Min(length.value + 1, n), size).Runs?
  {
    hide ReadLength;
  }

  lemma PaletteLengthExtends(s: seq<byte>, size: nat, extra: seq<byte>)
    requires 2 < size && s != [] && ReadPaletteLength(s, size).Length?
    ensures ReadPaletteLength(s + extra, size) ==
            Length(ReadPaletteLength(s, size).value, ReadPaletteLength(s, size).rest + extra)
  {
    assert (s + extra)[1..] == s[1..] + extra;
    if s[0] >= 128 { LengthExtends(s[1..], size - 2, extra); }
  }

  lemma {:induction false} PaletteRunsExtend(s: seq<byte>, n: nat, palette: seq<pixel>, size: nat, extra: seq<byte>)
    requires 2 < size && |palette| == 128 && ReadPaletteRuns(s, n, palette, size).Runs?
    ensures ReadPaletteRuns(s + extra, n, palette, size) ==
            Runs(ReadPaletteRuns(s, n, palette, size).pixels, ReadPaletteRuns(s, n, palette, size).rest + extra)
    decreases n
  {
    hide ReadPaletteLength, Repeat;
    if n == 0 {
    } else {
      var length := ReadPaletteLength(s, size);
      PaletteLengthExtends(s, size, extra);
      PaletteRunsExtend(length.rest, n - Min(length.value + 1, n), palette, size, extra);
    }
  }

  lemma {:induction false} PixelsExtend(s: seq<byte>, b: nat, n: nat, extra: seq<byte>)
    requires n * b <= |s|
    ensures ReadPixels(s + extra, b, n) == ReadPixels(s, b, n) && (s + extra)[n * b..] == s[n * b..] + extra
    decreases n
  {
    if n == 0 {
    } else {
      MulStep(n, b);
      PixelsExtend(s[b..], b, n - 1, extra);
      assert (s + extra)[..b] == s[..b] && (s + extra)[b..] == s[b..] + extra;
    }
  }

  lemma {:induction false} RowsExtend(s: seq<byte>, w: nat, h: nat, bits: nat, palette: seq<pixel>, extra: seq<byte>)
    requires Packs(bits) && RowBytes(w, bits) * h <= |s| && |palette| == 128
    ensures Rows(s + extra, w, h, bits, palette) == Rows(s, w, h, bits, palette)
    decreases h
  {
    hide Row, RowBytes;
    if h == 0 {
    } else {
      var n := RowBytes(w, bits);
      MulBack(n, h);
      RowsExtend(s, w, h - 1, bits, palette, extra);
      assert (s + extra)[n * (h - 1)..n * h] == s[n * (h - 1)..n * h];
    }
  }

  /** What more bytes behind make of an outcome. */
  function Longer(o: Outcome, extra: seq<byte>): Outcome {
    match o
    case Fail => Fail
    case Done(pixels, rest, memory) => Done(pixels, rest + extra, memory)
  }

  lemma PackedExtends(s: seq<byte>, w: nat, h: nat, m: Memory, extra: seq<byte>)
    requires |m.palette| == 128 && 2 <= m.last <= 16 && ReadPacked(s, w, h, m).Done?
    ensures ReadPacked(s + extra, w, h, m) == Longer(ReadPacked(s, w, h, m), extra)
  {
    hide Rows, RowBytes;
    var bits := Bits(m.last);
    MulMonotone(0, RowBytes(w, bits), h);
    RowsExtend(s, w, h, bits, m.palette, extra);
    var n := RowBytes(w, bits) * h;
    assert (s + extra)[n..] == s[n..] + extra;
  }

  /** The sizes and the memory DecodeTile asks for, and a tile it decodes. */
  ghost predicate Decoded(s: seq<byte>, b: nat, w: nat, h: nat, m: Memory, size: nat) {
    b <= 4 && 512 * b <= size && size >= 512 && Remembers(m) && DecodeTile(s, b, w, h, m, size).Done?
  }

  ghost predicate Extends(s: seq<byte>, b: nat, w: nat, h: nat, m: Memory, size: nat, extra: seq<byte>)
    requires Decoded(s, b, w, h, m, size)
  {
    DecodeTile(s + extra, b, w, h, m, size) == Longer(DecodeTile(s, b, w, h, m, size), extra)
  }

  lemma ColorsExtend(s: seq<byte>, b: nat, w: nat, h: nat, m: Memory, size: nat, extra: seq<byte>)
    requires Decoded(s, b, w, h, m, size) && s[0] in {0, 1}
    ensures Extends(s, b, w, h, m, size, extra)
  {
    hide ReadPixels, Repeat;
    assert (s + extra)[1..] == s[1..] + extra;
    RawSize(w, h, b);
    if s[0] == 0 {
      PixelsExtend(s[1..], b, h * w, extra);
    } else {
      assert (s[1..] + extra)[..b] == s[1..][..b] && (s[1..] + extra)[b..] == s[1..][b..] + extra;
    }
  }

  lemma ReuseExtends(s: seq<byte>, b: nat, w: nat, h: nat, m: Memory, size: nat, extra: seq<byte>)
    requires Decoded(s, b, w, h, m, size) && s[0] == 127
    ensures Extends(s, b, w, h, m, size, extra)
  {
    hide ReadPacked, Repeat;
    assert (s + extra)[1..] == s[1..] + extra;
    if m.last != 1 { PackedExtends(s[1..], w, h, m.(last := Count(m.last)), extra); }
  }

  lemma PlainExtends(s: seq<byte>, b: nat, w: nat, h: nat, m: Memory, size: nat, extra: seq<byte>)
    requires Decoded(s, b, w, h, m, size) && s[0] in {128, 129}
    ensures Extends(s, b, w, h, m, size, extra)
  {
    hide ReadRuns, ReadPaletteRuns;
    assert (s + extra)[1..] == s[1..] + extra;
    RawSize(w, h, b);
    if s[0] == 128 {
      RunsExtend(s[1..], b, h * w, size, extra);
    } else {
      PaletteRunsExtend(s[1..], h * w, m.palette, size, extra);
    }
  }

  lemma NewPackedExtends(s: seq<byte>, b: nat, w: nat, h: nat, m: Memory, size: nat, extra: seq<byte>)
    requires Decoded(s, b, w, h, m, size) && 2 <= s[0] <= 16
    ensures Extends(s, b, w, h, m, size, extra)
  {
    hide ReadPacked, ReadPixels, Load;
    var n, t := s[0], s[1..];
    assert (s + extra)[1..] == t + extra;
    RawSize(1, n, b);
    PixelsExtend(t, b, n, extra);
    PackedExtends(t[n * b..], w, h, Memory(n, m.color, Load(m.palette, ReadPixels(t, b, n))), extra);
  }

  lemma NewPaletteExtends(s: seq<byte>, b: nat, w: nat, h: nat, m: Memory, size: nat, extra: seq<byte>)
    requires Decoded(s, b, w, h, m, size) && s[0] >= 130
    ensures Extends(s, b, w, h, m, size, extra)
  {
    hide ReadPaletteRuns, ReadPixels, Load;
    var n, t := s[0] - 128, s[1..];
    assert (s + extra)[1..] == t + extra;
    RawSize(1, n, b);
    RawSize(w, h, b);
    PixelsExtend(t, b, n, extra);
    PaletteRunsExtend(t[n * b..], h * w, Load(m.palette, ReadPixels(t, b, n)), size, extra);
  }

  /** A tile is read from its own bytes: with more behind them, the same is decoded and the more is left. */
  lemma TileExtends(s: seq<byte>, b: nat, w: nat, h: nat, m: Memory, size: nat, extra: seq<byte>)
    requires Decoded(s, b, w, h, m, size)
    ensures Extends(s, b, w, h, m, size, extra)
  {
    hide Extends;
    Reserved(s, b, w, h, m, size);
    assert s != [];
    hide Decoded, DecodeTile;
    if s[0] <= 1 {
      ColorsExtend(s, b, w, h, m, size, extra);
    } else if s[0] <= 16 {
      NewPackedExtends(s, b, w, h, m, size, extra);
    } else if s[0] == 127 {
      ReuseExtends(s, b, w, h, m, size, extra);
    } else if s[0] <= 129 {
      PlainExtends(s, b, w, h, m, size, extra);
    } else {
      NewPaletteExtends(s, b, w, h, m, size, extra);
    }
  }

  // ------------------------------------------------------------ whole rectangles

  /** The same of all the tiles from one position on. */
  lemma {:induction false} FrameExtends(s: seq<byte>, r: Frame, x: nat, y: nat, m: Memory, fb: seq<pixel>,
                                        extra: seq<byte>)
    requires Fits(r, |fb|) && Remembers(m) && DecodeFrom(s, r, x, y, m, fb).Shown?
    ensures var o := DecodeFrom(s, r, x, y, m, fb);
            DecodeFrom(s + extra, r, x, y, m, fb) == Shown(o.fb, o.rest + extra, o.memory)
    decreases r.ry + r.rh - y, r.rx + r.rw - x
  {
    hide DecodeTile, WithTile, TileWidth, TileHeight;
    if y >= r.ry + r.rh {
    } else if x >= r.rx + r.rw {
      FrameExtends(s, r, r.rx, y + 16, m, fb, extra);
    } else {
      var o := DecodeTile(s, r.b, TileWidth(r, x), TileHeight(r, y), m, r.size);
      TileExtends(s, r.b, TileWidth(r, x), TileHeight(r, y), m, r.size, extra);
      FrameExtends(o.rest, r, x + 16, y, o.memory, WithTile(fb, r, x, y, o.pixels), extra);
    }
  }

  /** A rectangle of which the last bytes are missing, however few, is refused; this holds of every rectangle the
      decoder accepts, also of those no encoder would write. */
  lemma CutShort(s: seq<byte>, r: Frame, m: Memory, fb: seq<pixel>, i: nat)
    requires Fits(r, |fb|) && Remembers(m) && DecodeFrom(s, r, r.rx, r.ry, m, fb).Shown?
    requires i < |s| - |DecodeFrom(s, r, r.rx, r.ry, m, fb).rest|
    ensures DecodeFrom(s[..i], r, r.rx, r.ry, m, fb).Broken?
  {
    hide DecodeFrom, Fits, Remembers;
    assert s[..i] + s[i..] == s;
    if DecodeFrom(s[..i], r, r.rx, r.ry, m, fb).Shown? {
      FrameExtends(s[..i], r, r.rx, r.ry, m, fb, s[i..]);
      assert false;
    }
  }
}
