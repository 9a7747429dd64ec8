/** HandleTRLE: the tile loops, for pixels that come over the wire as they lie in the frame buffer. */
module TrleDecoder {
  import opened Bytes
  import opened Arith
  import opened Rectangles
  import opened TrleFormat
  import opened TrleRoundTrip
  import opened TrlePainting
  import opened TrleBuffer

  // ------------------------------------------------------------ bridges to the reading functions

  function Prepend(px: seq<pixel>, runs: Runs): Runs {
    if runs.NoRuns? then NoRuns else Runs(px + runs.pixels, runs.rest)
  }

  lemma PrependTwice(px: seq<pixel>, qx: seq<pixel>, runs: Runs)
    ensures Prepend(px, Prepend(qx, runs)) == Prepend(px + qx, runs)
  {
    if runs.Runs? { assert px + (qx + runs.pixels) == px + qx + runs.pixels; }
  }

  function Further(k: nat, length: Length): Length {
    if length.NoLength? then NoLength else Length(k + length.value, length.rest)
  }

  /** What has been painted of a tile so far, and where. */
  ghost predicate Painting(fb: seq<pixel>, was: seq<pixel>, base: nat, w: nat, scan: nat, px: seq<pixel>) {
    Room(|was|, base, w, scan, |px|) && fb == Paint(was, base, w, scan, px)
  }

  /** Pixel (i, j) of the tile is the next one after `n` pixels. */
  ghost predicate At(n: nat, i: nat, j: nat, w: nat, h: nat) {
    n == j * w + i && j <= h && i < w && (j == h ==> i == 0)
  }

  lemma AtLimits(n: nat, i: nat, j: nat, w: nat, h: nat)
    requires At(n, i, j, w, h)
    ensures 0 <= h * w && n <= h * w && (j < h <==> n < h * w)
    ensures j < h ==> if i + 1 == w then At(n + 1, 0, j + 1, w, h) else At(n + 1, i + 1, j, w, h)
  {
    MulMonotone(0, h, w);
    MulDistr(j, 1, w);
    if j < h {
      FlatBelow(i, j, w, h);
    }
  }

  class Client {
    const frameBuffer: array<pixel>
    const r: Frame
    /** The buffer tiles are received in. */
    const raw: array<byte>
    /** What the server has sent and nobody has read. */
    var input: seq<byte>

    constructor (frameBuffer: array<pixel>, r: Frame, raw: array<byte>, input: seq<byte>)
      ensures this.frameBuffer == frameBuffer && this.r == r && this.raw == raw && this.input == input
    {
      this.frameBuffer, this.r, this.raw, this.input := frameBuffer, r, raw, input;
    }

    ghost predicate Ready() { Fits(r, frameBuffer.Length) && raw.Length == r.size }

    /** ReadFromRFBServer into the receiving buffer at `pos`: fails when the connection ends too early. */
    method Read(pos: nat, n: nat) returns (ok: bool)
      requires pos + n <= raw.Length
      modifies this`input, raw
      ensures ok == (n <= |old(input)|)
      ensures ok ==> raw[pos..pos + n] == old(input)[..n] && input == old(input)[n..]
      ensures forall i :: 0 <= i < pos ==> raw[i] == old(raw[i])
    {
      if n > |input| { return false; }
      forall i | 0 <= i < n { raw[pos + i] := input[i]; }
      input := input[n..];
      return true;
    }

    /** ReadFromRFBServer of one byte into a variable. */
    method ReadKind() returns (ok: bool, kind: byte)
      modifies this`input
      ensures ok == (old(input) != [])
      ensures ok ==> old(input) == [kind] + input
    {
      if input == [] { return false, 0; }
      kind, input := input[0], input[1..];
      return true, kind;
    }

    /** One pixel into the tile at (x, y). */
    method Put(x: nat, y: nat, w: nat, h: nat, i: nat, j: nat, p: pixel, ghost was: seq<pixel>, ghost px: seq<pixel>)
      requires h > 0 && x + w <= r.width && (y + h) * r.width <= frameBuffer.Length && |was| == frameBuffer.Length
      requires At(|px|, i, j, w, h) && j < h
      requires Painting(frameBuffer[..], was, Place(x, y, r.width), w, r.width, px)
      modifies frameBuffer
      ensures Painting(frameBuffer[..], was, Place(x, y, r.width), w, r.width, px + [p])
    {
      hide Paint;
      TileRoom(|was|, x, y, w, h, r.width);
      AtLimits(|px|, i, j, w, h);
      RoomLess(|was|, Place(x, y, r.width), w, r.width, h * w, |px|);
      PaintMore(was, Place(x, y, r.width), w, r.width, px, p);
      PixelAt(i, j, w, r.width);
      MulDistr(y, j, r.width);
      assert (y + j) * r.width + x + i == Place(x, y, r.width) + Pixel(|px|, w, r.width);
      frameBuffer[(y + j) * r.width + x + i] := p;
    }

    /** The innermost loop of both run-length cases. */
    method PaintRun(x: nat, y: nat, w: nat, h: nat, i0: nat, j0: nat, length0: nat, color: pixel,
                    ghost was: seq<pixel>, ghost px0: seq<pixel>)
      returns (i: nat, j: nat, ghost px: seq<pixel>)
      requires h > 0 && x + w <= r.width && (y + h) * r.width <= frameBuffer.Length && |was| == frameBuffer.Length
      requires At(|px0|, i0, j0, w, h)
      requires Painting(frameBuffer[..], was, Place(x, y, r.width), w, r.width, px0)
      modifies frameBuffer
      ensures At(|px|, i, j, w, h) && |px0| <= h * w && px == px0 + Repeat(color, Min(length0, h * w - |px0|))
      ensures Painting(frameBuffer[..], was, Place(x, y, r.width), w, r.width, px)
    {
      hide Painting, At, Place;
      i, j, px := i0, j0, px0;
      var length: nat := length0;
      AtLimits(|px0|, i0, j0, w, h);
      while j < h && length > 0
        invariant At(|px|, i, j, w, h) && |px| + length == |px0| + length0 && |px| <= h * w
        invariant |px| >= |px0| && px == px0 + Repeat(color, |px| - |px0|)
        invariant Painting(frameBuffer[..], was, Place(x, y, r.width), w, r.width, px)
        decreases length
      {
        AtLimits(|px|, i, j, w, h);
        Put(x, y, w, h, i, j, color, was, px);
        px := px + [color];
        length := length - 1;
        i := i + 1;
        if i >= w { i, j := 0, j + 1; }
      }
      AtLimits(|px|, i, j, w, h);
    }
  
    /** GotFillRect. */
    method FillRect(x: nat, y: nat, w: nat, h: nat, color: pixel)
      requires w > 0 && h > 0 && x + w <= r.width && (y + h) * r.width <= frameBuffer.Length
      modifies frameBuffer
      ensures 0 <= h * w
      ensures Painting(frameBuffer[..], old(frameBuffer[..]), Place(x, y, r.width), w, r.width, Repeat(color, h * w))
    {
      hide Painting, At, Place;
      ghost var was := frameBuffer[..];
      NothingPainted(was, Place(x, y, r.width), w, r.width);
      StartAt(w, h);
      AtLimits(0, 0, 0, w, h);
      MulMonotone(0, h, w);
      var area := h * w;
      ghost var px;
      var i, j;
      i, j, px := PaintRun(x, y, w, h, 0, 0, area, color, was, []);
      assert [] + Repeat(color, area) == Repeat(color, area);
    }

    /** GotBitmap. */
    method Bitmap(x: nat, y: nat, w: nat, h: nat)
      requires w > 0 && h > 0 && x + w <= r.width && (y + h) * r.width <= frameBuffer.Length
      requires 0 <= h * w && h * w * r.b <= raw.Length
      modifies frameBuffer
      ensures Painting(frameBuffer[..], old(frameBuffer[..]), Place(x, y, r.width), w, r.width,
                       ReadPixels(raw[..], r.b, h * w))
    {
      hide Painting, At, Place, ReadPixels, PixelsRead;
      ghost var was, px: seq<pixel>, buffer := frameBuffer[..], [], raw[..];
      AllPixelsLeft(buffer, r.b, h * w);
      NothingPainted(was, Place(x, y, r.width), w, r.width);
      StartAt(w, h);
      AtLimits(0, 0, 0, w, h);
      var i: nat, j: nat, p: nat := 0, 0, 0;
      while j < h
        invariant At(|px|, i, j, w, h) && |px| <= h * w && PixelsRead(buffer, r.b, h * w, px, p)
        invariant Painting(frameBuffer[..], was, Place(x, y, r.width), w, r.width, px)
        decreases h * w - |px|
      {
        AtLimits(|px|, i, j, w, h);
        NextPixel(buffer, r.b, h * w, px, p);
        assert buffer[p..p + r.b] == raw[p..p + r.b];
        Put(x, y, w, h, i, j, raw[p..p + r.b], was, px);
        px := px + [raw[p..p + r.b]];
        p := p + r.b;
        i := i + 1;
        if i >= w { i, j := 0, j + 1; }
      }
      AtLimits(|px|, i, j, w, h);
      NoPixelsLeft(buffer, r.b, h * w, px, p);
    }

    /** The run length whose first byte lies at `pos0`, with `bufferPos` bytes of the run before it. */
    method ReadRunLength(pos0: nat, bufferPos: nat) returns (ok: bool, length: nat, pos: nat)
      requires bufferPos < r.size == raw.Length && pos0 < r.size
      requires LengthEnd([raw[pos0]] + input, r.size - 1 - bufferPos, pos0) <= r.size
      modifies this`input, raw
      ensures var l := ReadLength(old([raw[pos0]] + input), r.size - 1 - bufferPos);
              ok == l.Length? && (ok ==> length == l.value + 1 && input == l.rest)
      ensures ok ==> pos == LengthEnd(old([raw[pos0]] + input), r.size - 1 - bufferPos, pos0)
    {
      hide ReadLength, LengthEnd;
      ghost var s := [raw[pos0]] + input;
      var taken := bufferPos;
      pos, length := pos0, 1;
      LengthHead(raw[pos], input, r.size - 1 - taken, pos);
      while raw[pos] == 255 && taken < r.size - 1
        invariant bufferPos <= taken < r.size && length >= 1 && pos < r.size
        invariant ReadLength(s, r.size - 1 - bufferPos)
                  == Further(length - 1, ReadLength([raw[pos]] + input, r.size - 1 - taken))
        invariant LengthEnd(s, r.size - 1 - bufferPos, pos0) == LengthEnd([raw[pos]] + input, r.size - 1 - taken, pos)
        decreases r.size - taken
      {
        LengthHead(raw[pos], input, r.size - 1 - taken, pos);
        ghost var before := input;
        ok := Read(pos + 1, 1);
        if !ok {
          NoHead(before, r.size - 2 - taken);
          return;
        }
        OneByte(before, raw[pos + 1..pos + 2], raw[pos + 1], input);
        LengthHead(raw[pos + 1], input, r.size - 2 - taken, pos + 1);
        length := length + raw[pos];
        pos, taken := pos + 1, taken + 1;
      }
      LengthHead(raw[pos], input, r.size - 1 - taken, pos);
      length := length + raw[pos];
      pos := pos + 1;
      ok := true;
    }

    /** Case 128. */
    method PlainRle(x: nat, y: nat, w: nat, h: nat) returns (ok: bool, ghost px: seq<pixel>)
      requires Ready() && w > 0 && h > 0 && x + w <= r.width && (y + h) * r.width <= frameBuffer.Length
      requires RunsEnd(input, r.b, RunArea(w, h), r.size, 0) <= r.size
      modifies frameBuffer, this`input, raw
      ensures 0 <= h * w && |px| <= h * w
      ensures Painting(frameBuffer[..], old(frameBuffer[..]), Place(x, y, r.width), w, r.width, px)
      ensures ReadRuns(old(input), r.b, h * w, r.size) == if ok then Runs(px, input) else NoRuns
    {
      hide Painting, At, Place, ReadLength, ReadRuns, Prepend, LengthEnd, RunsEnd;
      NothingYet(ReadRuns(input, r.b, RunArea(w, h), r.size));
      ghost var was, s := frameBuffer[..], input;
      NothingPainted(was, Place(x, y, r.width), w, r.width);
      StartAt(w, h);
      AtLimits(0, 0, 0, w, h);
      var i: nat, j: nat, pos: nat := 0, 0, 0;
      px := [];
      while j < h
        invariant At(|px|, i, j, w, h) && |px| <= h * w
        invariant ReadRuns(s, r.b, h * w, r.size) == Prepend(px, ReadRuns(input, r.b, h * w - |px|, r.size))
        invariant RunsEnd(input, r.b, h * w - |px|, r.size, pos) <= r.size
        invariant Painting(frameBuffer[..], was, Place(x, y, r.width), w, r.width, px)
        decreases h * w - |px|
      {
        AtLimits(|px|, i, j, w, h);
        ghost var done, before := px, input;
        var color, length;
        ok, color, length, pos := ReadPlainRun(pos, h * w - |px|);
        if !ok { return; }
        i, j, px := PaintRun(x, y, w, h, i, j, length, color, was, px);
        PrependTwice(done, Repeat(color, Min(length, h * w - |done|)),
                     ReadRuns(input, r.b, h * w - |px|, r.size));
      }
      AtLimits(|px|, i, j, w, h);
      NoRunsLeft(px, input, r.b, r.size);
      ok := true;
    }

    /** The head of one plain run, when `n` pixels are left. */
    method ReadPlainRun(pos0: nat, ghost n: nat) returns (ok: bool, color: pixel, length: nat, pos: nat)
      requires Ready() && n > 0 && RunsEnd(input, r.b, n, r.size, pos0) <= r.size
      modifies this`input, raw
      ensures !ok ==> ReadRuns(old(input), r.b, n, r.size) == NoRuns
      ensures ok ==> length >= 1 && var run := Min(length, n);
                     ReadRuns(old(input), r.b, n, r.size)
                     == Prepend(Repeat(color, run), ReadRuns(input, r.b, n - run, r.size)) &&
                     RunsEnd(input, r.b, n - run, r.size, pos) <= r.size
    {
      hide ReadLength, ReadRuns, Prepend, LengthEnd, RunsEnd;
      ghost var before := input;
      PlainEnd(before, r.b, n, r.size, pos0);
      color, length, pos := [], 0, pos0;
      ok := Read(pos, r.b + 1);
      if !ok {
        ShortRun(before, r.b, n, r.size);
        return;
      }
      color := raw[pos..pos + r.b];
      HeadBytes(before, raw[pos..pos + r.b + 1], r.b, input);
      assert raw[pos..pos + r.b] == raw[pos..pos + r.b + 1][..r.b];
      PlainStep(before, r.b, n, r.size);
      ok, length, pos := ReadRunLength(pos + r.b, r.b);
    }

    /** The head of one palette run. */
    method ReadPaletteRun(palette: seq<pixel>, pos0: nat, ghost n: nat)
      returns (ok: bool, color: pixel, length: nat, pos: nat)
      requires Ready() && |palette| == 128 && n > 0 && PaletteRunsEnd(input, n, r.size, pos0) <= r.size
      modifies this`input, raw
      ensures !ok ==> ReadPaletteRuns(old(input), n, palette, r.size) == NoRuns
      ensures ok ==> length >= 1 && var run := Min(length, n);
                     ReadPaletteRuns(old(input), n, palette, r.size)
                     == Prepend(Repeat(color, run), ReadPaletteRuns(input, n - run, palette, r.size)) &&
                     PaletteRunsEnd(input, n - run, r.size, pos) <= r.size
    {
      hide ReadLength, ReadPaletteRuns, Prepend, LengthEnd, PaletteRunsEnd;
      ghost var before := input;
      PaletteEnd(before, n, r.size, pos0);
      PaletteStep(before, n, palette, r.size);
      color, length, pos := [], 1, pos0;
      ok := Read(pos, 1);
      if !ok { return; }
      OneByte(before, raw[pos..pos + 1], raw[pos], input);
      color := palette[raw[pos] % 128];
      if raw[pos] >= 128 {
        ghost var second := input;
        SecondEnd(second, r.size - 2, pos + 1);
        ok := Read(pos + 1, 1);
        if !ok {
          NoHead(second, r.size - 2);
          return;
        }
        pos := pos + 1;
        OneByte(second, raw[pos..pos + 1], raw[pos], input);
        ok, length, pos := ReadRunLength(pos, 1);
      } else {
        pos := pos + 1;
      }
    }

    /** Case 129, also reached from the palettes of 130 and above, whose colors lie in front of `pos0`. */
    method PaletteRle(x: nat, y: nat, w: nat, h: nat, palette: seq<pixel>, pos0: nat)
      returns (ok: bool, ghost px: seq<pixel>)
      requires Ready() && w > 0 && h > 0 && x + w <= r.width && (y + h) * r.width <= frameBuffer.Length
      requires |palette| == 128 && PaletteRunsEnd(input, RunArea(w, h), r.size, pos0) <= r.size
      modifies frameBuffer, this`input, raw
      ensures 0 <= h * w && |px| <= h * w
      ensures Painting(frameBuffer[..], old(frameBuffer[..]), Place(x, y, r.width), w, r.width, px)
      ensures ReadPaletteRuns(old(input), h * w, palette, r.size) == if ok then Runs(px, input) else NoRuns
    {
      hide Painting, At, Place, ReadPaletteLength, ReadPaletteRuns, Prepend, PaletteRunsEnd;
      NothingYet(ReadPaletteRuns(input, RunArea(w, h), palette, r.size));
      ghost var was, s := frameBuffer[..], input;
      NothingPainted(was, Place(x, y, r.width), w, r.width);
      StartAt(w, h);
      AtLimits(0, 0, 0, w, h);
      var i: nat, j: nat, pos: nat := 0, 0, pos0;
      px := [];
      while j < h
        invariant At(|px|, i, j, w, h) && |px| <= h * w
        invariant ReadPaletteRuns(s, h * w, palette, r.size)
                  == Prepend(px, ReadPaletteRuns(input, h * w - |px|, palette, r.size))
        invariant PaletteRunsEnd(input, h * w - |px|, r.size, pos) <= r.size
        invariant Painting(frameBuffer[..], was, Place(x, y, r.width), w, r.width, px)
        decreases h * w - |px|
      {
        AtLimits(|px|, i, j, w, h);
        ghost var done := px;
        var color, length;
        ok, color, length, pos := ReadPaletteRun(palette, pos, h * w - |px|);
        if !ok { return; }
        i, j, px := PaintRun(x, y, w, h, i, j, length, color, was, px);
        PrependTwice(done, Repeat(color, Min(length, h * w - |done|)),
                     ReadPaletteRuns(input, h * w - |px|, palette, r.size));
      }
      AtLimits(|px|, i, j, w, h);
      NoPaletteRunsLeft(px, input, palette, r.size);
      ok := true;
    }

    /** The loop that reads a palette of `n` colors from the front of the buffer. */
    method ReadColors(palette: array<pixel>, n: nat) returns (ok: bool)
      requires n <= palette.Length == 128 && palette != frameBuffer && 0 <= n * r.b <= raw.Length
      modifies palette, this`input, raw
      ensures ok == (n * r.b <= |old(input)|)
      ensures ok ==> palette[..] == Load(old(palette[..]), ReadPixels(old(input), r.b, n)) &&
                     input == old(input)[n * r.b..]
      ensures !ok ==> palette[..] == old(palette[..])
    {
      hide ReadPixels, Loaded, Load, PixelsRead;
      ghost var s, was := input, palette[..];
      NoneLoaded(was);
      ok := Read(0, n * r.b);
      if !ok { return; }
      ghost var buffer := raw[..];
      PixelsReceived(s, buffer, r.b, n);
      AllPixelsLeft(buffer, r.b, n);
      ghost var px: seq<pixel> := [];
      var p: nat := 0;
      for i := 0 to n
        invariant |px| == i && PixelsRead(buffer, r.b, n, px, p) && raw[..] == buffer
        invariant Loaded(palette[..], px, was) && input == s[n * r.b..]
      {
        NextPixel(buffer, r.b, n, px, p);
        assert buffer[p..p + r.b] == raw[p..p + r.b];
        LoadNext(palette[..], px, was, raw[p..p + r.b]);
        palette[i] := raw[p..p + r.b];
        px := px + [raw[p..p + r.b]];
        p := p + r.b;
      }
      NoPixelsLeft(buffer, r.b, n, px, p);
      AllLoaded(palette[..], px, was);
    }

    /** One row of packed pixels; `row` is what the buffer holds from `pos0` on. */
    method PackedRow(x: nat, y: nat, w: nat, h: nat, j: nat, pos0: nat, bpp: nat, palette: seq<pixel>,
                     ghost row: seq<byte>, ghost was: seq<pixel>, ghost above: seq<pixel>)
      returns (pos: nat, ghost px: seq<pixel>)
      requires w > 0 && j < h && x + w <= r.width && (y + h) * r.width <= frameBuffer.Length &&
               |was| == frameBuffer.Length
      requires |palette| == 128 && Packs(bpp) && |row| == RowBytes(w, bpp)
      requires pos0 + |row| <= raw.Length && row == raw[pos0..pos0 + |row|] && At(|above|, 0, j, w, h)
      requires Painting(frameBuffer[..], was, Place(x, y, r.width), w, r.width, above)
      modifies frameBuffer
      ensures At(|px|, 0, j + 1, w, h) && pos == pos0 + |row| && px == above + Row(row, w, bpp, palette)
      ensures Painting(frameBuffer[..], was, Place(x, y, r.width), w, r.width, px)
    {
      hide Painting, At, Place, Row, RowBytes, Cursor, RowPixel;
      var mask, shift := Pow2(bpp) - 1, 8 - bpp;
      hide Pow2;
      pos, px := pos0, above;
      NoRow(row, bpp, palette, w);
      ghost var q := 0;
      for i := 0 to w
        invariant if i < w then At(|px|, i, j, w, h) else At(|px|, 0, j + 1, w, h)
        invariant Cursor(q, shift, i, bpp) && pos == pos0 + q && 0 <= q
        invariant RowBytes(i, bpp) <= |row| && px == above + Row(row, i, bpp, palette)
        invariant Painting(frameBuffer[..], was, Place(x, y, r.width), w, r.width, px)
      {
        AtLimits(|px|, i, j, w, h);
        CursorIndex(row, q, shift, i, w, bpp, palette);
        var p := palette[raw[pos] / Pow2(shift) % (mask + 1)];
        Put(x, y, w, h, i, j, p, was, px);
        RowNext(above, row, i, w, bpp, palette);
        px := px + [p];
        CursorNext(q, shift, i, bpp);
        shift := shift - bpp;
        if shift < 0 {
          shift := 8 - bpp;
          pos, q := pos + 1, q + 1;
        }
      }
      CursorEnd(q, shift, w, bpp);
      if shift < 8 - bpp { pos := pos + 1; }
    }

    /** Case 127: indices of `bpp` bits into the remembered palette, read behind `pos0`. */
    method PackedPixels(x: nat, y: nat, w: nat, h: nat, bpp: nat, palette: seq<pixel>, pos0: nat)
      returns (ok: bool, ghost px: seq<pixel>)
      requires Ready() && w > 0 && h > 0 && x + w <= r.width && (y + h) * r.width <= frameBuffer.Length
      requires |palette| == 128 && Packs(bpp) && pos0 + RowBytes(w, bpp) * h <= r.size
      modifies frameBuffer, this`input, raw
      ensures 0 <= h * w && 0 <= RowBytes(w, bpp) * h && |px| <= h * w
      ensures Painting(frameBuffer[..], old(frameBuffer[..]), Place(x, y, r.width), w, r.width, px)
      ensures ok == (RowBytes(w, bpp) * h <= |old(input)|)
      ensures ok ==> px == Rows(old(input), w, h, bpp, palette) && input == old(input)[RowBytes(w, bpp) * h..]
    {
      hide Painting, At, Place, Row, Rows, RowBytes;
      var divider := 8 / bpp;
      ghost var was, s, n := frameBuffer[..], input, RowBytes(w, bpp);
      NothingPainted(was, Place(x, y, r.width), w, r.width);
      StartAt(w, h);
      AtLimits(0, 0, 0, w, h);
      px := [];
      MulMonotone(0, n, h);
      RowSize(w, bpp);
      ok := Read(pos0, (w + divider - 1) / divider * h);
      if !ok { return; }
      ghost var buffer := raw[pos0..pos0 + n * h];
      var pos: nat := pos0;
      NoRows(buffer, w, bpp, palette);
      for j := 0 to h
        invariant At(|px|, 0, j, w, h) && pos == pos0 + n * j && 0 <= n * j <= |buffer|
        invariant px == Rows(buffer, w, j, bpp, palette) && input == s[n * h..]
        invariant pos0 + n * h <= raw.Length && buffer == raw[pos0..pos0 + n * h]
        invariant Painting(frameBuffer[..], was, Place(x, y, r.width), w, r.width, px)
      {
        ghost var row := RowSlice(buffer, n, j, h);
        SliceOfSlice(raw[..], pos0, n * h, n * j, n * (j + 1));
        RowsNext(buffer, w, j, bpp, palette);
        pos, px := PackedRow(x, y, w, h, j, pos, bpp, palette, row, was, px);
      }
      AtLimits(|px|, 0, h, w, h);
      RowsPrefix(s, w, h, bpp, palette);
    }

    /** What holds between tiles of the variables `last_type`, `color`, `palette` and `bpp`. */
    ghost predicate Keeps(last: nat, color: pixel, palette: seq<pixel>, bpp: nat) {
      Remembers(Memory(last, color, palette)) && (2 <= last <= 16 ==> bpp == Bits(last))
    }

    /** The tile as far as it was painted, and what the reading functions say of it. */
    twostate predicate Follows(x: nat, y: nat, w: nat, h: nat, ok: bool, px: seq<pixel>, m: Memory, o: Outcome)
      requires 0 < w
      reads this, frameBuffer
    {
      ok == o.Done? && Painting(frameBuffer[..], old(frameBuffer[..]), Place(x, y, r.width), w, r.width, px) &&
      RunArea(w, h) >= |px| && (ok ==> o == Done(px, input, m))
    }

    /** Label case_127. */
    method Case127(x: nat, y: nat, w: nat, h: nat, last0: nat, color: pixel, bpp0: nat, palette: seq<pixel>, pos: nat)
      returns (ok: bool, last: nat, bpp: nat, ghost px: seq<pixel>)
      requires Ready() && w > 0 && h > 0 && x + w <= r.width && (y + h) * r.width <= frameBuffer.Length
      requires Keeps(last0, color, palette, bpp0) && ReuseEnd(w, h, last0, pos) <= r.size
      modifies frameBuffer, this`input, raw
      ensures Follows(x, y, w, h, ok, px, Memory(last, color, palette),
                      Reuse(old(input), w, h, Memory(last0, color, palette)))
      ensures ok ==> Keeps(last, color, palette, bpp)
    {
      hide Painting, Place, ReadPacked, Bits, ReuseEnd;
      last, bpp, px := last0, bpp0, [];
      NothingPainted(frameBuffer[..], Place(x, y, r.width), w, r.width);
      MulMonotone(0, h, w);
      if last == 0 {
        ok := false;
      } else if last == 1 {
        FillRect(x, y, w, h, color);
        px := Repeat(color, h * w);
        ok := true;
      } else {
        if last >= 130 {
          last := last % 128;
          bpp := if last > 4 then (if last > 16 then 8 else 4) else if last > 2 then 2 else 1;
          BitsAre(last);
        }
        if last <= 16 {
          SmallPalette(w, h, last0, last, pos);
          ok, px := PackedPixels(x, y, w, h, bpp, palette, pos);
          PackedRead(old(input), w, h, Memory(last, color, palette));
        } else {
          ok := false;
        }
      }
    }

    /** The body of the tile loops. */
    method DecodeOne(x: nat, y: nat, w: nat, h: nat, last0: nat, color0: pixel, bpp0: nat, palette: array<pixel>)
      returns (ok: bool, last: nat, color: pixel, bpp: nat, ghost px: seq<pixel>)
      requires Ready() && w > 0 && h > 0 && x + w <= r.width && (y + h) * r.width <= frameBuffer.Length
      requires palette.Length == 128 && palette != frameBuffer && Keeps(last0, color0, palette[..], bpp0)
      requires TileEnd(input, r.b, w, h, Memory(last0, color0, palette[..]), r.size) <= r.size
      modifies frameBuffer, palette, this`input, raw
      ensures Follows(x, y, w, h, ok, px, Memory(last, color, palette[..]),
                      DecodeTile(old(input), r.b, w, h, old(Memory(last0, color0, palette[..])), r.size))
      ensures ok ==> Keeps(last, color, palette[..], bpp)
    {
      hide Painting, Place, ReadPixels, ReadRuns, ReadPaletteRuns, Load, RunsEnd, PaletteRunsEnd, ReuseEnd;
      last, color, bpp, px := last0, color0, bpp0, [];
      ghost var s := input;
      NothingPainted(frameBuffer[..], Place(x, y, r.width), w, r.width);
      RawSize(w, h, r.b);
      var kind;
      ok, kind := ReadKind();
      if !ok { return; }
      assert s[0] == kind && s[1..] == input;
      if kind == 0 {
        ok := Read(0, h * w * r.b);
        if !ok { return; }
        PixelsReceived(s[1..], raw[..], r.b, h * w);
        Bitmap(x, y, w, h);
        px := ReadPixels(raw[..], r.b, h * w);
      } else if kind == 1 {
        ok := Read(0, r.b);
        if !ok { return; }
        color := raw[0..r.b];
        FillRect(x, y, w, h, color);
        px := Repeat(color, h * w);
        last := 1;
      } else if kind == 127 {
        ok, last, bpp, px := Case127(x, y, w, h, last, color, bpp, palette[..], 0);
      } else if kind == 128 {
        ok, px := PlainRle(x, y, w, h);
      } else if kind == 129 {
        ok, px := PaletteRle(x, y, w, h, palette[..], 0);
      } else if kind <= 16 {
        bpp := if kind > 4 then 4 else if kind > 2 then 2 else 1;
        ColorsFit(s, r.b, w, h, Memory(last, color, palette[..]), r.size);
        ok := ReadColors(palette, kind);
        if !ok { return; }
        last := kind;
        ok, last, bpp, px := Case127(x, y, w, h, last, color, bpp, palette[..], kind * r.b);
      } else if kind >= 130 {
        ColorsFit(s, r.b, w, h, Memory(last, color, palette[..]), r.size);
        ok := ReadColors(palette, kind - 128);
        if !ok { return; }
        last := kind;
        ok, px := PaletteRle(x, y, w, h, palette[..], (kind - 128) * r.b);
      } else {
        ok := false;
      }
    }

    /** HandleTRLE; `palette` is its uninitialised local.  As long as no tile goes beyond the receiving buffer, the
        result is that of the reading functions, failures included, and nothing outside the rectangle is touched. */
    method HandleTRLE(palette: array<pixel>) returns (ok: bool)
      requires Ready() && palette.Length == 128 && palette != frameBuffer
      requires Contained(input, r, r.rx, r.ry, Memory(0, [], palette[..]))
      modifies frameBuffer, palette, this`input, raw
      ensures var o := DecodeFrom(old(input), r, r.rx, r.ry, old(Memory(0, [], palette[..])), old(frameBuffer[..]));
              ok == o.Shown? && (ok ==> frameBuffer[..] == o.fb && input == o.rest)
      ensures OutsideSame(frameBuffer[..], old(frameBuffer[..]), r)
    {
      hide Paint, Place, DecodeTile, TileEnd, Fits, OutsideSame, Reuse;
      SizesEnough(r, frameBuffer.Length);
      ghost var s, m, was := input, Memory(0, [], palette[..]), frameBuffer[..];
      SameOutside(was, r);
      var last: nat, color: pixel, bpp: nat := 0, [], 0;
      var x: nat, y: nat := r.rx, r.ry;
      while y < r.ry + r.rh
        invariant OnGrid(r, x, y) && x == r.rx && Keeps(last, color, palette[..], bpp)
        invariant OutsideSame(frameBuffer[..], was, r)
        invariant Contained(input, r, x, y, Memory(last, color, palette[..]))
        invariant DecodeFrom(s, r, r.rx, r.ry, m, was)
                  == DecodeFrom(input, r, x, y, Memory(last, color, palette[..]), frameBuffer[..])
        decreases r.ry + r.rh - y
      {
        while x < r.rx + r.rw
          invariant OnGrid(r, x, y) && Keeps(last, color, palette[..], bpp)
          invariant OutsideSame(frameBuffer[..], was, r)
          invariant Contained(input, r, x, y, Memory(last, color, palette[..]))
          invariant DecodeFrom(s, r, r.rx, r.ry, m, was)
                    == DecodeFrom(input, r, x, y, Memory(last, color, palette[..]), frameBuffer[..])
          decreases r.rx + r.rw - x
        {
          var w: nat, h: nat := 16, 16;
          if r.rx + r.rw - x < 16 { w := r.rx + r.rw - x; }
          if r.ry + r.rh - y < 16 { h := r.ry + r.rh - y; }
          assert w == TileWidth(r, x) && h == TileHeight(r, y);
          TileRows(r, frameBuffer.Length, x, y);
          ghost var before := frameBuffer[..];
          ghost var px;
          ok, last, color, bpp, px := DecodeOne(x, y, w, h, last, color, bpp, palette);
          TileStaysInside(before, was, r, x, y, px);
          if !ok { return; }
          x := x + 16;
        }
        x, y := r.rx, y + 16;
      }
      ok := true;
    }

    /** A well-formed rectangle: the frame buffer shows the image it describes, and exactly its bytes are consumed. */
    method ShowImage(palette: array<pixel>, ghost tiles: seq<Tile>, ghost img: (nat, nat) -> pixel,
                     ghost rest: seq<byte>)
      returns (ok: bool)
      requires Ready() && palette.Length == 128 && palette != frameBuffer
      requires Describes(tiles, img, r, r.rx, r.ry, Memory(0, [], palette[..]))
      requires input == Stream(tiles, img, r, r.rx, r.ry, Memory(0, [], palette[..])) + rest
      modifies frameBuffer, palette, this`input, raw
      ensures ok && input == rest
      ensures forall a: nat, c: nat :: a < r.width && Place(a, c, r.width) < frameBuffer.Length ==>
                frameBuffer[Place(a, c, r.width)] ==
                if InFrame(r, a, c) then img(a, c) else old(frameBuffer[..])[Place(a, c, r.width)]
    {
      hide Describes, Stream, DecodeFrom, Contained, Place, InFrame, OutsideSame, Fits;
      StreamContained(tiles, img, r, r.rx, r.ry, Memory(0, [], palette[..]), frameBuffer.Length, rest);
      RectangleDecodes(tiles, img, r, Memory(0, [], palette[..]), frameBuffer[..], rest);
      ok := HandleTRLE(palette);
    }
  }

  lemma BitsAre(n: nat)
    ensures Bits(n) == if n > 4 then (if n > 16 then 8 else 4) else if n > 2 then 2 else 1
  {}

  /** The rows of a remembered palette of `n` colors fit. */
  lemma SmallPalette(w: nat, h: nat, last: nat, n: nat, pos: nat)
    requires n == Count(last) && 2 <= n <= 16
    ensures Packs(Bits(n)) && ReuseEnd(w, h, last, pos) == pos + RowBytes(w, Bits(n)) * h
  {
    hide RowBytes;
  }

  lemma PackedRead(s: seq<byte>, w: nat, h: nat, m: Memory)
    requires |m.palette| == 128 && 2 <= m.last <= 16
    ensures Packs(Bits(m.last)) && 0 <= RowBytes(w, Bits(m.last)) * h
    ensures var n := RowBytes(w, Bits(m.last)) * h;
            ReadPacked(s, w, h, m) ==
            if |s| < n then Fail else Done(Rows(s, w, h, Bits(m.last), m.palette), s[n..], m)
  {
    hide Rows, RowBytes;
    MulMonotone(0, RowBytes(w, Bits(m.last)), h);
  }

  lemma SameOutside(fb: seq<pixel>, r: Frame)
    ensures OutsideSame(fb, fb, r)
  {}

  lemma TileRows(r: Frame, len: nat, x: nat, y: nat)
    requires Fits(r, len) && OnGrid(r, x, y) && x < r.rx + r.rw && y < r.ry + r.rh
    ensures 0 < TileWidth(r, x) && 0 < TileHeight(r, y) && x + TileWidth(r, x) <= r.width
    ensures (y + TileHeight(r, y)) * r.width <= len
  {
    MulMonotone(y + TileHeight(r, y), r.ry + r.rh, r.width);
  }

  /** The byte and the shift of index number `i` of a row. */
  ghost predicate Cursor(q: int, shift: int, i: nat, bits: nat) {
    Packs(bits) && q == i / (8 / bits) && shift == 8 - bits - i % (8 / bits) * bits
  }

  ghost function RunArea(w: nat, h: nat): nat {
    MulMonotone(0, h, w);
    h * w
  }

  lemma NothingYet(runs: Runs)
    ensures Prepend([], runs) == runs
    ensures forall px: seq<pixel> :: Prepend(px, NoRuns) == NoRuns
  {
    if runs.Runs? { assert [] + runs.pixels == runs.pixels; }
  }

  lemma ShortRun(s: seq<byte>, b: nat, n: nat, size: nat)
    requires b + 1 < size && n > 0 && |s| < b + 1
    ensures ReadRuns(s, b, n, size) == NoRuns
  {}

  /** One run. */
  lemma PlainStep(s: seq<byte>, b: nat, n: nat, size: nat)
    requires b + 1 < size && n > 0 && |s| >= b + 1
    ensures var l := ReadLength(s[b..], size - 1 - b);
            ReadRuns(s, b, n, size) ==
            if l.NoLength? then NoRuns
            else var run := Min(l.value + 1, n); Prepend(Repeat(s[..b], run), ReadRuns(l.rest, b, n - run, size))
  {
    hide ReadLength;
  }

  lemma NoRunsLeft(px: seq<pixel>, s: seq<byte>, b: nat, size: nat)
    requires b + 1 < size
    ensures Prepend(px, ReadRuns(s, b, 0, size)) == Runs(px, s)
  {}

  lemma PaletteStep(s: seq<byte>, n: nat, palette: seq<pixel>, size: nat)
    requires 2 < size && n > 0 && |palette| == 128
    ensures s == [] ==> ReadPaletteRuns(s, n, palette, size) == NoRuns
    ensures s != [] ==>
              var l := ReadPaletteLength(s, size);
              ReadPaletteRuns(s, n, palette, size) ==
              if l.NoLength? then NoRuns
              else var run := Min(l.value + 1, n);
                   Prepend(Repeat(palette[s[0] % 128], run), ReadPaletteRuns(l.rest, n - run, palette, size))
  {
    hide ReadPaletteLength;
  }

  lemma NoPaletteRunsLeft(px: seq<pixel>, s: seq<byte>, palette: seq<pixel>, size: nat)
    requires 2 < size && |palette| == 128
    ensures Prepend(px, ReadPaletteRuns(s, 0, palette, size)) == Runs(px, s)
  {}

  /** `px` are the first pixels of the buffer, and `p` is where the next one starts. */
  ghost predicate PixelsRead(buffer: seq<byte>, b: nat, n: nat, px: seq<pixel>, p: nat) {
    |px| <= n && p == |px| * b && 0 <= n * b <= |buffer| && p <= |buffer| && (n - |px|) * b <= |buffer[p..]| &&
    ReadPixels(buffer, b, n) == px + ReadPixels(buffer[p..], b, n - |px|)
  }

  lemma AllPixelsLeft(buffer: seq<byte>, b: nat, n: nat)
    requires 0 <= n * b <= |buffer|
    ensures PixelsRead(buffer, b, n, [], 0)
  {
    assert buffer[0..] == buffer;
  }

  lemma NextPixel(buffer: seq<byte>, b: nat, n: nat, px: seq<pixel>, p: nat)
    requires PixelsRead(buffer, b, n, px, p) && |px| < n
    ensures p + b <= |buffer| && PixelsRead(buffer, b, n, px + [buffer[p..p + b]], p + b)
  {
    var k := |px|;
    MulDistr(k, 1, b);
    MulDistr(n, k, b);
    MulDistr(n, k + 1, b);
    MulMonotone(k + 1, n, b);
    assert buffer[p..][..b] == buffer[p..p + b] && buffer[p..][b..] == buffer[p + b..];
    PixelFirst(buffer[p..], b, n - k);
    hide ReadPixels;
    assert px + ([buffer[p..p + b]] + ReadPixels(buffer[p + b..], b, n - k - 1))
        == px + [buffer[p..p + b]] + ReadPixels(buffer[p + b..], b, n - k - 1);
  }

  lemma PixelFirst(s: seq<byte>, b: nat, n: nat)
    requires n > 0 && n * b <= |s|
    ensures b <= |s| && (n - 1) * b <= |s[b..]| && ReadPixels(s, b, n) == [s[..b]] + ReadPixels(s[b..], b, n - 1)
  {
    MulStep(n, b);
    MulMonotone(0, n - 1, b);
  }

  lemma NoPixelsLeft(buffer: seq<byte>, b: nat, n: nat, px: seq<pixel>, p: nat)
    requires PixelsRead(buffer, b, n, px, p) && |px| == n
    ensures px == ReadPixels(buffer, b, n)
  {}

  lemma NoHead(s: seq<byte>, budget: nat)
    requires |s| < 1
    ensures ReadLength(s, budget).NoLength?
  {}

  /** The first byte of a run length, and what follows it. */
  lemma LengthHead(first: byte, input: seq<byte>, budget: nat, pos: nat)
    ensures var s := [first] + input;
            if first == 255 && budget > 0
            then ReadLength(s, budget) == Further(255, ReadLength(input, budget - 1)) &&
                 LengthEnd(s, budget, pos) == LengthEnd(input, budget - 1, pos + 1) > pos + 1
            else ReadLength(s, budget) == Length(first, input) && LengthEnd(s, budget, pos) == pos + 1
  {
    assert ([first] + input)[1..] == input;
  }

  lemma OneByte(before: seq<byte>, slice: seq<byte>, x: byte, input: seq<byte>)
    requires |before| >= 1 && slice == [x] && slice == before[..1] && input == before[1..]
    ensures before == [x] + input
  {}

  lemma HeadBytes(before: seq<byte>, slice: seq<byte>, b: nat, input: seq<byte>)
    requires |before| >= b + 1 && slice == before[..b + 1] && input == before[b + 1..]
    ensures before[..b] == slice[..b] && before[b..] == [slice[b]] + input
  {}

  lemma SecondEnd(s: seq<byte>, budget: nat, pos: nat)
    ensures LengthEnd(s, budget, pos) >= pos + 1
  {}

  /** The head of a plain run fits when all the runs do, and so does its length. */
  lemma PlainEnd(s: seq<byte>, b: nat, n: nat, size: nat, pos: nat)
    requires b + 1 < size && n > 0
    ensures RunsEnd(s, b, n, size, pos) >= pos + b + 1
    ensures |s| >= b + 1 ==>
              var e, l := LengthEnd(s[b..], size - 1 - b, pos + b), ReadLength(s[b..], size - 1 - b);
              RunsEnd(s, b, n, size, pos) >= e &&
              (l.Length? ==> RunsEnd(s, b, n, size, pos) == RunsEnd(l.rest, b, n - Min(l.value + 1, n), size, e))
  {
    hide ReadLength, LengthEnd;
  }

  lemma PaletteEnd(s: seq<byte>, n: nat, size: nat, pos: nat)
    requires 2 < size && n > 0
    ensures PaletteRunsEnd(s, n, size, pos) >= pos + 1
    ensures s != [] ==>
              var e, l := PaletteLengthEnd(s, size, pos), ReadPaletteLength(s, size);
              PaletteRunsEnd(s, n, size, pos) >= e &&
              (l.Length? ==>
                 PaletteRunsEnd(s, n, size, pos) == PaletteRunsEnd(l.rest, n - Min(l.value + 1, n), size, e))
  {
    hide ReadLength, LengthEnd;
  }

  lemma SliceOfSlice(s: seq<byte>, p: nat, m: nat, a: nat, b: nat)
    requires a <= b <= m && p + m <= |s|
    ensures s[p..p + m][a..b] == s[p + a..p + b]
  {
    var part, same := s[p..p + m][a..b], s[p + a..p + b];
    assert forall k :: 0 <= k < |same| ==> part[k] == same[k];
  }

  /** Pixels received at the front of the buffer. */
  lemma PixelsReceived(s: seq<byte>, buffer: seq<byte>, b: nat, n: nat)
    requires 0 <= n * b <= |s| && n * b <= |buffer| && buffer[0..n * b] == s[..n * b]
    ensures ReadPixels(buffer, b, n) == ReadPixels(s, b, n)
  {
    PixelsPrefix(buffer, b, n);
    PixelsPrefix(s, b, n);
    assert buffer[..n * b] == buffer[0..n * b];
  }

  /** The colors of a tile's own palette fit when the tile does. */
  lemma ColorsFit(s: seq<byte>, b: nat, w: nat, h: nat, m: Memory, size: nat)
    requires b + 2 < size && s != [] && 2 <= Count(s[0]) && (s[0] <= 16 || s[0] >= 130)
    requires TileEnd(s, b, w, h, m, size) <= size
    ensures 0 <= Count(s[0]) * b <= size
  {
    hide ReuseEnd, PaletteRunsEnd;
    RawSize(1, Count(s[0]), b);
  }

  lemma SizesEnough(r: Frame, len: nat)
    requires Fits(r, len)
    ensures Buffered(r)
  {}

  lemma NothingPainted(was: seq<pixel>, base: nat, w: nat, scan: nat)
    requires 0 < w <= scan
    ensures Painting(was, was, base, w, scan, [])
  {}

  lemma StartAt(w: nat, h: nat)
    requires w > 0 && h > 0
    ensures At(0, 0, 0, w, h)
  {}

  /** The first colors of the palette have been replaced by `px`. */
  ghost predicate Loaded(now: seq<pixel>, px: seq<pixel>, was: seq<pixel>) {
    |px| <= |was| && now == px + was[|px|..]
  }

  lemma NoneLoaded(was: seq<pixel>)
    ensures Loaded(was, [], was)
  {}

  lemma LoadNext(now: seq<pixel>, px: seq<pixel>, was: seq<pixel>, p: pixel)
    requires Loaded(now, px, was) && |px| < |was|
    ensures |px| < |now| && Loaded(now[|px| := p], px + [p], was)
  {}

  lemma AllLoaded(now: seq<pixel>, px: seq<pixel>, was: seq<pixel>)
    requires Loaded(now, px, was)
    ensures |px| <= |was| && now == Load(was, px)
  {}

  lemma {:induction false} PixelsPrefix(s: seq<byte>, b: nat, n: nat)
    requires 0 <= n * b <= |s|
    ensures ReadPixels(s[..n * b], b, n) == ReadPixels(s, b, n)
    decreases n
  {
    if n == 0 {
    } else {
      var m := n * b;
      MulStep(n, b);
      MulMonotone(0, n - 1, b);
      PixelFirst(s, b, n);
      PixelFirst(s[..m], b, n);
      CutBehind(s, m, b);
      hide ReadPixels;
      PixelsPrefix(s[b..], b, n - 1);
    }
  }

  lemma CutBehind(s: seq<byte>, m: nat, b: nat)
    requires b <= m <= |s|
    ensures s[..m][..b] == s[..b] && s[..m][b..] == s[b..][..m - b]
  {
  }

  lemma RowSize(w: nat, bits: nat)
    requires Packs(bits)
    ensures (w + 8 / bits - 1) / (8 / bits) == RowBytes(w, bits)
  {}

  lemma NoRows(s: seq<byte>, w: nat, bits: nat, palette: seq<pixel>)
    requires Packs(bits) && |palette| == 128
    ensures RowBytes(w, bits) * 0 == 0 && Rows(s, w, 0, bits, palette) == []
  {}

  ghost function RowSlice(s: seq<byte>, n: nat, j: nat, h: nat): (r: seq<byte>)
    requires j < h && 0 <= n * h <= |s|
    ensures 0 <= n * j && n * (j + 1) <= |s| && r == s[n * j..n * (j + 1)] && |r| == n
  {
    MulCommute(n, j);
    MulCommute(n, j + 1);
    MulCommute(n, h);
    FlatOrder(n, j, h);
    s[n * j..n * (j + 1)]
  }

  lemma FlatOrder(n: nat, j: nat, h: nat)
    requires j < h
    ensures 0 <= j * n && (j + 1) * n == j * n + n && (j + 1) * n <= h * n
  {
    MulMonotone(0, j, n);
    MulDistr(j, 1, n);
    MulMonotone(j + 1, h, n);
  }

  lemma NoRow(row: seq<byte>, bits: nat, palette: seq<pixel>, w: nat)
    requires Packs(bits) && |palette| == 128 && |row| == RowBytes(w, bits)
    ensures RowBytes(0, bits) == 0 && Row(row, 0, bits, palette) == [] && Cursor(0, 8 - bits, 0, bits)
  {
    if bits == 1 {
    } else if bits == 2 {
    } else {
    }
  }

  lemma CursorIndex(row: seq<byte>, q: int, shift: int, i: nat, w: nat, bits: nat, palette: seq<pixel>)
    requires Cursor(q, shift, i, bits) && i < w && |row| == RowBytes(w, bits) && |palette| == 128
    ensures 0 <= q < |row| && 0 <= shift && row[q] / Pow2(shift) % Pow2(bits) < 128
    ensures 0 <= row[q] / Pow2(shift) % Pow2(bits)
    ensures palette[row[q] / Pow2(shift) % Pow2(bits)] == RowPixel(row, i, bits, palette)
  {
    hide Pow2;
    RowCovers(i, w, bits);
    IndexFits(i, bits);
    SixteenColors(bits);
    assert 8 - bits * (i % (8 / bits) + 1) == shift;
  }

  lemma CursorNext(q: int, shift: int, i: nat, bits: nat)
    requires Cursor(q, shift, i, bits)
    ensures if shift - bits < 0 then Cursor(q + 1, 8 - bits, i + 1, bits) else Cursor(q, shift - bits, i + 1, bits)
  {
    if bits == 1 {
      NextOfEight(i);
    } else if bits == 2 {
      NextOfFour(i);
    } else {
      NextOfTwo(i);
    }
  }

  lemma NextOfEight(i: nat)
    ensures if i % 8 == 7 then (i + 1) / 8 == i / 8 + 1 && (i + 1) % 8 == 0
            else (i + 1) / 8 == i / 8 && (i + 1) % 8 == i % 8 + 1
  {}

  lemma NextOfFour(i: nat)
    ensures if i % 4 == 3 then (i + 1) / 4 == i / 4 + 1 && (i + 1) % 4 == 0
            else (i + 1) / 4 == i / 4 && (i + 1) % 4 == i % 4 + 1
  {}

  lemma NextOfTwo(i: nat)
    ensures if i % 2 == 1 then (i + 1) / 2 == i / 2 + 1 && (i + 1) % 2 == 0
            else (i + 1) / 2 == i / 2 && (i + 1) % 2 == i % 2 + 1
  {}

  lemma CursorEnd(q: int, shift: int, w: nat, bits: nat)
    requires Cursor(q, shift, w, bits)
    ensures RowBytes(w, bits) == if shift < 8 - bits then q + 1 else q
  {}

  lemma RowNext(above: seq<pixel>, row: seq<byte>, i: nat, w: nat, bits: nat, palette: seq<pixel>)
    requires Packs(bits) && i < w && |row| == RowBytes(w, bits) && |palette| == 128
    ensures 0 <= i / (8 / bits) < |row| && RowBytes(i, bits) <= |row| && RowBytes(i + 1, bits) <= |row|
    ensures above + Row(row, i + 1, bits, palette) == above + Row(row, i, bits, palette) +
            [RowPixel(row, i, bits, palette)]
  {
    hide RowPixel;
    RowCovers(i, w, bits);
    RowsGrow(i, w, bits);
    RowsGrow(i + 1, w, bits);
  }

  lemma RowsNext(s: seq<byte>, w: nat, j: nat, bits: nat, palette: seq<pixel>)
    requires Packs(bits) && |palette| == 128 && 0 <= RowBytes(w, bits) * (j + 1) <= |s|
    ensures var n := RowBytes(w, bits);
            n * (j + 1) == n * j + n && 0 <= n * j &&
            Rows(s, w, j + 1, bits, palette) == Rows(s, w, j, bits, palette) +
            Row(s[n * j..n * (j + 1)], w, bits, palette)
  {
    hide Row;
    MulBack(RowBytes(w, bits), j + 1);
  }

  lemma {:induction false} RowsPrefix(s: seq<byte>, w: nat, h: nat, bits: nat, palette: seq<pixel>)
    requires Packs(bits) && |palette| == 128 && 0 <= RowBytes(w, bits) * h <= |s|
    ensures Rows(s[..RowBytes(w, bits) * h], w, h, bits, palette) == Rows(s, w, h, bits, palette)
  {
    RowsSame(s[..RowBytes(w, bits) * h], s, w, h, bits, palette);
  }

  lemma {:induction false} RowsSame(s: seq<byte>, t: seq<byte>, w: nat, h: nat, bits: nat, palette: seq<pixel>)
    requires Packs(bits) && |palette| == 128 && 0 <= RowBytes(w, bits) * h <= |s| && s <= t
    ensures Rows(s, w, h, bits, palette) == Rows(t, w, h, bits, palette)
    decreases h
  {
    hide Row, RowBytes;
    if h == 0 {
    } else {
      var n := RowBytes(w, bits);
      MulBack(n, h);
      assert s[n * (h - 1)..n * h] == t[n * (h - 1)..n * h];
      RowsSame(s, t, w, h - 1, bits, palette);
    }
  }
}
