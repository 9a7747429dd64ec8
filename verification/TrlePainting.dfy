/** A whole TRLE rectangle: its tiles painted one after the other into a frame buffer. */
module TrlePainting {
  import opened Bytes
  import opened Arith
  import opened Rectangles
  import opened TrleFormat
  import opened TrleRoundTrip

  /** Pixel `k` of a rectangle with upper left corner at `base` lies inside the buffer. */
  ghost predicate Room(len: nat, base: nat, w: nat, scan: nat, n: nat) {
    0 < w <= scan && (n == 0 || base + Pixel(n - 1, w, scan) < len)
  }

  lemma RoomLess(len: nat, base: nat, w: nat, scan: nat, n: nat, k: nat)
    requires Room(len, base, w, scan, n) && k < n
    ensures Room(len, base, w, scan, k) && base + Pixel(k, w, scan) < len && Room(len, base, w, scan, k + 1)
  {
    hide Pixel;
    if k < n - 1 { PixelMonotone(k, n - 1, w, scan); }
    if 0 < k { PixelMonotone(k - 1, k, w, scan); }
  }

  /** Pixels painted row by row into a rectangle `w` wide. */
  ghost function Paint(fb: seq<pixel>, base: nat, w: nat, scan: nat, px: seq<pixel>): (r: seq<pixel>)
    requires Room(|fb|, base, w, scan, |px|)
    ensures |r| == |fb|
    decreases |px|
  {
    if px == [] then fb
    else
      RoomLess(|fb|, base, w, scan, |px|, |px| - 1);
      Paint(fb, base, w, scan, px[..|px| - 1])[base + Pixel(|px| - 1, w, scan) := px[|px| - 1]]
  }

  lemma PaintMore(fb: seq<pixel>, base: nat, w: nat, scan: nat, px: seq<pixel>, p: pixel)
    requires Room(|fb|, base, w, scan, |px| + 1)
    ensures Room(|fb|, base, w, scan, |px|) && base + Pixel(|px|, w, scan) < |fb|
    ensures Paint(fb, base, w, scan, px + [p]) == Paint(fb, base, w, scan, px)[base + Pixel(|px|, w, scan) := p]
  {
    RoomLess(|fb|, base, w, scan, |px| + 1, |px|);
    assert (px + [p])[..|px|] == px;
  }

  /** Each painted pixel is where it belongs. */
  lemma {:induction false} PaintedAt(fb: seq<pixel>, base: nat, w: nat, scan: nat, px: seq<pixel>, k: nat)
    requires Room(|fb|, base, w, scan, |px|) && k < |px|
    ensures base + Pixel(k, w, scan) < |fb| && Paint(fb, base, w, scan, px)[base + Pixel(k, w, scan)] == px[k]
    decreases |px|
  {
    hide Pixel;
    RoomLess(|fb|, base, w, scan, |px|, k);
    RoomLess(|fb|, base, w, scan, |px|, |px| - 1);
    if k >= |px| - 1 {
    } else {
      PaintedAt(fb, base, w, scan, px[..|px| - 1], k);
      PixelMonotone(k, |px| - 1, w, scan);
    }
  }

  /** Nothing else is touched. */
  lemma {:induction false} UntouchedAt(fb: seq<pixel>, base: nat, w: nat, scan: nat, px: seq<pixel>, q: nat)
    requires Room(|fb|, base, w, scan, |px|) && q < |fb|
    requires forall k: nat :: k < |px| ==> base + Pixel(k, w, scan) != q
    ensures Paint(fb, base, w, scan, px)[q] == fb[q]
    decreases |px|
  {
    hide Pixel;
    if px == [] {
    } else {
      RoomLess(|fb|, base, w, scan, |px|, |px| - 1);
      UntouchedAt(fb, base, w, scan, px[..|px| - 1], q);
    }
  }

  // ------------------------------------------------------------ coordinates

  /** A place of the frame buffer has one column and one row. */
  lemma OnePlace(a: nat, c: nat, a': nat, c': nat, width: nat)
    requires a < width && a' < width && c * width + a == c' * width + a'
    ensures a == a' && c == c'
  {
    MulMonotone(0, c, width);
    DivUnique(c * width + a, c, a, width);
    DivUnique(c * width + a, c', a', width);
  }

  ghost predicate InTile(a: nat, c: nat, x: nat, y: nat, w: nat, h: nat) { x <= a < x + w && y <= c < y + h }

  /** Where pixel `k` of a tile goes. */
  lemma TilePlace(x: nat, y: nat, w: nat, h: nat, width: nat, k: nat)
    requires 0 < w && k < h * w
    ensures 0 <= k / w < h && 0 <= k % w < w && Place(x, y, width) + Pixel(k, w, width) ==
            Place(x + k % w, y + k / w, width)
  {
    DivNat(k, w);
    DivModDef(k, w);
    RowBelow(k, w, h);
    MulDistr(y, k / w, width);
  }

  lemma TileRoom(len: nat, x: nat, y: nat, w: nat, h: nat, width: nat)
    requires 0 < w && 0 < h && x + w <= width && (y + h) * width <= len
    ensures 0 <= h * w && Room(len, Place(x, y, width), w, width, h * w)
  {
    MulStep(h, w);
    MulMonotone(0, h - 1, w);
    var k := h * w - 1;
    TilePlace(x, y, w, h, width, k);
    FlatBelow(x + k % w, y + k / w, width, y + h);
  }

  lemma TilePainted(fb: seq<pixel>, x: nat, y: nat, w: nat, h: nat, width: nat, px: seq<pixel>, a: nat, c: nat)
    requires 0 < w && 0 < h && x + w <= width && (y + h) * width <= |fb| && |px| == h * w
    requires a < width && Place(a, c, width) < |fb|
    ensures Room(|fb|, Place(x, y, width), w, width, |px|)
    ensures InTile(a, c, x, y, w, h) ==> 0 <= (c - y) * w + (a - x) < |px|
    ensures Paint(fb, Place(x, y, width), w, width, px)[Place(a, c, width)] ==
            if InTile(a, c, x, y, w, h) then px[(c - y) * w + (a - x)] else fb[Place(a, c, width)]
  {
    hide Pixel;
    TileRoom(|fb|, x, y, w, h, width);
    if InTile(a, c, x, y, w, h) {
      PlaceOfTile(x, y, w, h, width, a, c);
      PaintedAt(fb, Place(x, y, width), w, width, px, (c - y) * w + (a - x));
    } else {
      hide Place, Paint;
      forall k: nat | k < |px| ensures Place(x, y, width) + Pixel(k, w, width) != Place(a, c, width) {
        PlaceInTile(x, y, w, h, width, k, a, c);
      }
      UntouchedAt(fb, Place(x, y, width), w, width, px, Place(a, c, width));
    }
  }

  /** The number of a place of the tile. */
  lemma PlaceOfTile(x: nat, y: nat, w: nat, h: nat, width: nat, a: nat, c: nat)
    requires 0 < w && InTile(a, c, x, y, w, h)
    ensures 0 <= (c - y) * w + (a - x) < h * w
    ensures Place(x, y, width) + Pixel((c - y) * w + (a - x), w, width) == Place(a, c, width)
  {
    hide Pixel;
    var k := (c - y) * w + (a - x);
    MulMonotone(0, c - y, w);
    FlatBelow(a - x, c - y, w, h);
    TilePlace(x, y, w, h, width, k);
    DivUnique(k, c - y, a - x, w);
  }

  /** The pixels of a tile lie in it. */
  lemma PlaceInTile(x: nat, y: nat, w: nat, h: nat, width: nat, k: nat, a: nat, c: nat)
    requires 0 < w && x + w <= width && k < h * w && a < width && !InTile(a, c, x, y, w, h)
    ensures Place(x, y, width) + Pixel(k, w, width) != Place(a, c, width)
  {
    hide Pixel;
    TilePlace(x, y, w, h, width, k);
    if Place(x + k % w, y + k / w, width) == Place(a, c, width) { OnePlace(x + k % w, y + k / w, a, c, width); }
  }

  // ------------------------------------------------------------ tile by tile

  /** A rectangle of the frame buffer, pixels of `b` bytes and the client's receiving buffer. */
  datatype Frame = Frame(rx: nat, ry: nat, rw: nat, rh: nat, width: nat, b: nat, size: nat)

  /** The buffer has at least the size HandleTRLE sees to. */
  ghost predicate Buffered(r: Frame) { r.b <= 4 && 512 * r.b <= r.size && 512 <= r.size }

  ghost predicate Fits(r: Frame, len: nat) {
    r.rx + r.rw <= r.width && (r.ry + r.rh) * r.width <= len && Buffered(r)
  }

  function TileWidth(r: Frame, x: nat): nat
    requires x < r.rx + r.rw
  {
    Min(16, r.rx + r.rw - x)
  }

  function TileHeight(r: Frame, y: nat): nat
    requires y < r.ry + r.rh
  {
    Min(16, r.ry + r.rh - y)
  }

  datatype Painted = Broken | Shown(fb: seq<pixel>, rest: seq<byte>, memory: Memory)

  /** The tile at (x, y) painted. */
  ghost function WithTile(fb: seq<pixel>, r: Frame, x: nat, y: nat, px: seq<pixel>): (s: seq<pixel>)
    requires Fits(r, |fb|) && x < r.rx + r.rw && y < r.ry + r.rh && |px| == TileHeight(r, y) * TileWidth(r, x)
    ensures |s| == |fb|
  {
    var w, h := TileWidth(r, x), TileHeight(r, y);
    MulMonotone(y + h, r.ry + r.rh, r.width);
    TileRoom(|fb|, x, y, w, h, r.width);
    Paint(fb, Place(x, y, r.width), w, r.width, px)
  }

  /** The tiles from (x, y) on, left to right and top to bottom. */
  ghost function DecodeFrom(s: seq<byte>, r: Frame, x: nat, y: nat, m: Memory, fb: seq<pixel>): (o: Painted)
    requires Fits(r, |fb|) && Remembers(m)
    ensures o.Shown? ==> |o.fb| == |fb|
    decreases r.ry + r.rh - y, r.rx + r.rw - x
  {
    if y >= r.ry + r.rh then Shown(fb, s, m)
    else if x >= r.rx + r.rw then DecodeFrom(s, r, r.rx, y + 16, m, fb)
    else
      match DecodeTile(s, r.b, TileWidth(r, x), TileHeight(r, y), m, r.size)
      case Fail => Broken
      case Done(px, rest, m') => DecodeFrom(rest, r, x + 16, y, m', WithTile(fb, r, x, y, px))
  }

  /** What the tiles before (x, y) cover. */
  ghost predicate Before(r: Frame, a: nat, c: nat, x: nat, y: nat) {
    r.rx <= a < r.rx + r.rw && r.ry <= c < r.ry + r.rh && (c < y || (c < y + 16 && a < x))
  }

  ghost predicate InFrame(r: Frame, a: nat, c: nat) { r.rx <= a < r.rx + r.rw && r.ry <= c < r.ry + r.rh }

  /** A list of tiles, well formed one after the other, that together show an image: the tile at (x, y) first. */
  ghost predicate Describes(tiles: seq<Tile>, img: (nat, nat) -> pixel, r: Frame, x: nat, y: nat, m: Memory)
    requires Remembers(m)
    decreases r.ry + r.rh - y, r.rx + r.rw - x
  {
    if y >= r.ry + r.rh then tiles == []
    else if x >= r.rx + r.rw then Describes(tiles, img, r, r.rx, y + 16, m)
    else
      var w, h := TileWidth(r, x), TileHeight(r, y);
      tiles != [] && WellFormed(tiles[0], r.b, w, h, m) && Remembers(After(tiles[0], m)) &&
      Shows(Pixels(tiles[0], r.b, w, h, m), img, x, y, w, h) &&
      Describes(tiles[1..], img, r, x + 16, y, After(tiles[0], m))
  }

  ghost predicate Shows(px: seq<pixel>, img: (nat, nat) -> pixel, x: nat, y: nat, w: nat, h: nat) {
    |px| == h * w &&
    forall a: nat, c: nat :: InTile(a, c, x, y, w, h) ==>
      0 <= (c - y) * w + (a - x) < |px| && px[(c - y) * w + (a - x)] == img(a, c)
  }

  ghost function Stream(tiles: seq<Tile>, img: (nat, nat) -> pixel, r: Frame, x: nat, y: nat, m: Memory): seq<byte>
    requires Remembers(m) && Describes(tiles, img, r, x, y, m)
    decreases r.ry + r.rh - y, r.rx + r.rw - x
  {
    if y >= r.ry + r.rh then []
    else if x >= r.rx + r.rw then Stream(tiles, img, r, r.rx, y + 16, m)
    else
      TileBytes(tiles[0], r.b, TileWidth(r, x), TileHeight(r, y), m) +
      Stream(tiles[1..], img, r, x + 16, y, After(tiles[0], m))
  }

  /** From (x, y) on, the image is shown; everything else is as it was. */
  ghost predicate ShownFrom(fb: seq<pixel>, was: seq<pixel>, img: (nat, nat) -> pixel, r: Frame, x: nat, y: nat) {
    |fb| == |was| &&
    forall a: nat, c: nat :: a < r.width && Place(a, c, r.width) < |fb| ==>
      fb[Place(a, c, r.width)] ==
      if InFrame(r, a, c) && !Before(r, a, c, x, y) then img(a, c) else was[Place(a, c, r.width)]
  }

  /** Positions the loops pass through: tiles start at multiples of 16 from the corner. */
  ghost predicate OnGrid(r: Frame, x: nat, y: nat) { x >= r.rx && y >= r.ry }

  lemma {:induction false} StreamDecodes(tiles: seq<Tile>, img: (nat, nat) -> pixel, r: Frame, x: nat, y: nat,
                                         m: Memory,
                                         fb: seq<pixel>, rest: seq<byte>)
    requires Fits(r, |fb|) && Remembers(m) && Describes(tiles, img, r, x, y, m) && OnGrid(r, x, y)
    ensures var o := DecodeFrom(Stream(tiles, img, r, x, y, m) + rest, r, x, y, m, fb);
            o.Shown? && o.rest == rest && ShownFrom(o.fb, fb, img, r, x, y)
    decreases r.ry + r.rh - y, r.rx + r.rw - x
  {
    hide DecodeTile, WellFormed, TileBytes, Pixels, After, Shows, Place, ShownFrom, Fits;
    var s := Stream(tiles, img, r, x, y, m);
    if y >= r.ry + r.rh {
      assert s + rest == rest;
      NothingLeft(fb, img, r, x, y);
    } else if x >= r.rx + r.rw {
      StreamDecodes(tiles, img, r, r.rx, y + 16, m, fb, rest);
      NextBand(DecodeFrom(s + rest, r, r.rx, y + 16, m, fb).fb, fb, img, r, x, y);
    } else {
      var w, h := TileWidth(r, x), TileHeight(r, y);
      var more := Stream(tiles[1..], img, r, x + 16, y, After(tiles[0], m));
      var px := Pixels(tiles[0], r.b, w, h, m);
      assert s + rest == TileBytes(tiles[0], r.b, w, h, m) + (more + rest);
      SizesHold(r, |fb|, x, y);
      TileDecodes(tiles[0], r.b, w, h, m, r.size, more + rest);
      ShowsCount(px, img, x, y, w, h);
      var next := WithTile(fb, r, x, y, px);
      StreamDecodes(tiles[1..], img, r, x + 16, y, After(tiles[0], m), next, rest);
      NextTile(DecodeFrom(more + rest, r, x + 16, y, After(tiles[0], m), next).fb, next, fb, img, r, x, y, px);
    }
  }

  lemma SizesHold(r: Frame, len: nat, x: nat, y: nat)
    requires Fits(r, len) && x < r.rx + r.rw && y < r.ry + r.rh
    ensures Sizes(r.b, TileWidth(r, x), TileHeight(r, y), r.size)
  {}

  lemma ShowsCount(px: seq<pixel>, img: (nat, nat) -> pixel, x: nat, y: nat, w: nat, h: nat)
    requires Shows(px, img, x, y, w, h)
    ensures |px| == h * w
  {}

  lemma NothingLeft(fb: seq<pixel>, img: (nat, nat) -> pixel, r: Frame, x: nat, y: nat)
    requires y >= r.ry + r.rh
    ensures ShownFrom(fb, fb, img, r, x, y)
  {}

  lemma NextBand(fb: seq<pixel>, was: seq<pixel>, img: (nat, nat) -> pixel, r: Frame, x: nat, y: nat)
    requires x >= r.rx + r.rw && ShownFrom(fb, was, img, r, r.rx, y + 16)
    ensures ShownFrom(fb, was, img, r, x, y)
  {
    hide Place;
    forall a: nat, c: nat | InFrame(r, a, c) ensures Before(r, a, c, r.rx, y + 16) <==> Before(r, a, c, x, y) {}
  }

  /** The places of a tile are exactly those between two positions of the loops. */
  lemma TileBetween(r: Frame, x: nat, y: nat, a: nat, c: nat)
    requires OnGrid(r, x, y) && x < r.rx + r.rw && y < r.ry + r.rh
    ensures InTile(a, c, x, y, TileWidth(r, x), TileHeight(r, y)) <==>
            InFrame(r, a, c) && Before(r, a, c, x + 16, y) && !Before(r, a, c, x, y)
    ensures InFrame(r, a, c) && Before(r, a, c, x, y) ==> Before(r, a, c, x + 16, y)
  {}

  lemma NextTile(fb: seq<pixel>, next: seq<pixel>, was: seq<pixel>, img: (nat, nat) -> pixel, r: Frame, x: nat,
                 y: nat, px: seq<pixel>)
    requires Fits(r, |was|) && OnGrid(r, x, y) && x < r.rx + r.rw && y < r.ry + r.rh
    requires Shows(px, img, x, y, TileWidth(r, x), TileHeight(r, y)) && next == WithTile(was, r, x, y, px)
    requires ShownFrom(fb, next, img, r, x + 16, y)
    ensures ShownFrom(fb, was, img, r, x, y)
  {
    hide Place, Before, Paint;
    forall a: nat, c: nat | a < r.width && Place(a, c, r.width) < |fb|
      ensures fb[Place(a, c, r.width)] ==
              if InFrame(r, a, c) && !Before(r, a, c, x, y) then img(a, c) else was[Place(a, c, r.width)]
    {
      OnePixel(fb, next, was, img, r, x, y, px, a, c);
    }
  }

  lemma OnePixel(fb: seq<pixel>, next: seq<pixel>, was: seq<pixel>, img: (nat, nat) -> pixel, r: Frame, x: nat,
                 y: nat, px: seq<pixel>,
                 a: nat, c: nat)
    requires Fits(r, |was|) && OnGrid(r, x, y) && x < r.rx + r.rw && y < r.ry + r.rh
    requires Shows(px, img, x, y, TileWidth(r, x), TileHeight(r, y)) && next == WithTile(was, r, x, y, px)
    requires ShownFrom(fb, next, img, r, x + 16, y) && a < r.width && Place(a, c, r.width) < |fb|
    ensures fb[Place(a, c, r.width)] ==
            if InFrame(r, a, c) && !Before(r, a, c, x, y) then img(a, c) else was[Place(a, c, r.width)]
  {
    hide Place, Before, Paint, InFrame, InTile, TileWidth, TileHeight;
    var w, h := TileWidth(r, x), TileHeight(r, y);
    TileBetween(r, x, y, a, c);
    TileInside(r, x, y);
    MulMonotone(y + h, r.ry + r.rh, r.width);
    TilePainted(was, x, y, w, h, r.width, px, a, c);
  }

  lemma TileInside(r: Frame, x: nat, y: nat)
    requires OnGrid(r, x, y) && x < r.rx + r.rw && y < r.ry + r.rh
    ensures 0 < TileWidth(r, x) <= r.rx + r.rw - x && 0 < TileHeight(r, y) <= r.ry + r.rh - y
  {}

  /** Every well-formed rectangle is decoded to the image it describes, with nothing outside it touched and nothing
      after it read. */
  lemma RectangleDecodes(tiles: seq<Tile>, img: (nat, nat) -> pixel, r: Frame, m: Memory, fb: seq<pixel>,
                         rest: seq<byte>)
    requires Fits(r, |fb|) && Remembers(m) && Describes(tiles, img, r, r.rx, r.ry, m)
    ensures var o := DecodeFrom(Stream(tiles, img, r, r.rx, r.ry, m) + rest, r, r.rx, r.ry, m, fb);
            o.Shown? && o.rest == rest && |o.fb| == |fb| &&
            forall a: nat, c: nat :: a < r.width && Place(a, c, r.width) < |fb| ==>
              o.fb[Place(a, c, r.width)] == if InFrame(r, a, c) then img(a, c) else fb[Place(a, c, r.width)]
  {
    hide Place, DecodeFrom, Stream, Describes, Fits;
    StreamDecodes(tiles, img, r, r.rx, r.ry, m, fb, rest);
    forall a: nat, c: nat ensures !Before(r, a, c, r.rx, r.ry) {}
  }

  /** Outside the rectangle nothing has changed. */
  ghost predicate OutsideSame(fb: seq<pixel>, was: seq<pixel>, r: Frame) {
    |fb| == |was| &&
    forall a: nat, c: nat :: a < r.width && Place(a, c, r.width) < |fb| && !InFrame(r, a, c) ==>
      fb[Place(a, c, r.width)] == was[Place(a, c, r.width)]
  }

  /** A tile, even one painted only in part, stays inside the rectangle. */
  lemma TileStaysInside(fb: seq<pixel>, was: seq<pixel>, r: Frame, x: nat, y: nat, px: seq<pixel>)
    requires Fits(r, |fb|) && OnGrid(r, x, y) && x < r.rx + r.rw && y < r.ry + r.rh && OutsideSame(fb, was, r)
    requires 0 <= TileHeight(r, y) * TileWidth(r, x) && |px| <= TileHeight(r, y) * TileWidth(r, x)
    requires Room(|fb|, Place(x, y, r.width), TileWidth(r, x), r.width, |px|)
    ensures OutsideSame(Paint(fb, Place(x, y, r.width), TileWidth(r, x), r.width, px), was, r)
  {
    hide Pixel, Place, Paint, InFrame, TileWidth, TileHeight;
    var w, h := TileWidth(r, x), TileHeight(r, y);
    forall a: nat, c: nat | a < r.width && Place(a, c, r.width) < |fb| && !InFrame(r, a, c)
      ensures Paint(fb, Place(x, y, r.width), w, r.width, px)[Place(a, c, r.width)] == was[Place(a, c, r.width)]
    {
      forall k: nat | k < |px| ensures Place(x, y, r.width) + Pixel(k, w, r.width) != Place(a, c, r.width) {
        TileInside(r, x, y);
        TilePlace(x, y, w, h, r.width, k);
        Elsewhere(r, x, y, k / w, k % w, a, c);
      }
      UntouchedAt(fb, Place(x, y, r.width), w, r.width, px, Place(a, c, r.width));
    }
  }

  lemma Elsewhere(r: Frame, x: nat, y: nat, j: nat, i: nat, a: nat, c: nat)
    requires OnGrid(r, x, y) && x + i < r.rx + r.rw && y + j < r.ry + r.rh && r.rx + r.rw <= r.width
    requires a < r.width && !InFrame(r, a, c)
    ensures Place(x + i, y + j, r.width) != Place(a, c, r.width)
  {
    if Place(x + i, y + j, r.width) == Place(a, c, r.width) { OnePlace(x + i, y + j, a, c, r.width); }
  }
}
