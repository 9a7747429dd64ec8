/** ZYWRLE's color conversion, between the pixels of an image and the coefficients in front of the buffer. */
module ZywrleColor {
  import opened Arith
  import opened Rectangles
  import opened ZywrleCells
  import opened ZywrleWavelet
  import opened ZywrlePacking

  // ------------------------------------------------------------ one color

  type channel = x: int | 0 <= x < 256

  datatype Rgb = Rgb(r: channel, g: channel, b: channel)

  /** `x & mask` for the mask that clears the bits below `unit`, a power of two. */
  function Masked(x: int, unit: nat): int
    requires unit > 0
  { x - x % unit }

  function Clear128(x: int, unit: nat): int { if x == -128 then x + unit else x }

  /** ZYWRLE_RGBYUV1: bits below `yUnit` and `uvUnit` are not kept.  Shifts of negative numbers round down. */
  function Yuv(p: Rgb, yUnit: nat, uvUnit: nat): (int, int, int)
    requires yUnit > 0 && uvUnit > 0
  {
    var y := (p.r + p.g * 2 + p.b as int) / 4 - 128;
    var u := (p.b as int - p.g) / 2;
    var v := (p.r as int - p.g) / 2;
    (Clear128(Masked(y, yUnit), yUnit), Clear128(Masked(u, uvUnit), uvUnit), Clear128(Masked(v, uvUnit), uvUnit))
  }

  predicate MaskUnit(m: nat) { m in {1, 2, 4, 8, 16, 32, 64, 128} }

  lemma MaskedOdd7(x: int, m: nat)
    requires -128 <= x <= 127 && MaskUnit(m)
    ensures -127 <= Clear128(Masked(x, m), m) <= 127
  {}

  /** The conversion always produces values on which the transform is lossless. */
  lemma YuvOdd7(p: Rgb, yUnit: nat, uvUnit: nat)
    requires MaskUnit(yUnit) && MaskUnit(uvUnit)
    ensures var (y, u, v) := Yuv(p, yUnit, uvUnit); -127 <= y <= 127 && -127 <= u <= 127 && -127 <= v <= 127
  {
    hide Clear128, Masked, MaskUnit;
    assert -128 <= (p.r + p.g * 2 + p.b as int) / 4 - 128 <= 127;
    assert -128 <= (p.b as int - p.g) / 2 <= 127 && -128 <= (p.r as int - p.g) / 2 <= 127;
    MaskedOdd7((p.r + p.g * 2 + p.b as int) / 4 - 128, yUnit);
    MaskedOdd7((p.b as int - p.g) / 2, uvUnit);
    MaskedOdd7((p.r as int - p.g) / 2, uvUnit);
  }

  /** ROUND. */
  function Clamp(x: int): channel { if x < 0 then 0 else if x > 255 then 255 else x }

  /** Values of a channel stay, others become the nearest one. */
  lemma ClampNearest(x: int)
    ensures (0 <= x <= 255 ==> Clamp(x) == x) && (x < 0 ==> Clamp(x) == 0) && (x > 255 ==> Clamp(x) == 255)
  {}

  /** ZYWRLE_YUVRGB1. */
  function ToRgb(y: int, u: int, v: int): Rgb {
    var g := y + 128 - (2 * u + 2 * v) / 4;
    Rgb(Clamp(2 * v + g), Clamp(g), Clamp(2 * u + g))
  }

  predicate Near(x: int, y: int) { -1 <= x - y <= 1 }

  /** What rounding down loses: `u`, `v` and `m` are the halves and the quarter, `k` is the quarter taken back. */
  lemma RoundingNear(p: Rgb, u: int, v: int, m: int, k: int)
    requires 2 * u <= p.b as int - p.g <= 2 * u + 1 && 2 * v <= p.r as int - p.g <= 2 * v + 1
    requires 4 * m <= p.b as int - p.g + (p.r as int - p.g) <= 4 * m + 3
    requires var u', v' := if u == -128 then -127 else u, if v == -128 then -127 else v;
             4 * k <= 2 * u' + 2 * v' <= 4 * k + 3
    ensures var u', v' := if u == -128 then -127 else u, if v == -128 then -127 else v;
            var g := (if p.g + m == 0 then 1 else p.g + m) - k;
            Near(Clamp(2 * v' + g), p.r) && Near(Clamp(g), p.g) && Near(Clamp(2 * u' + g), p.b)
  {}

  lemma KeepAll(x: int)
    ensures Clear128(Masked(x, 1), 1) == if x == -128 then -127 else x
  {}

  /** The halves and the quarter of the conversion, rounded down. */
  lemma KeptYuv(p: Rgb) returns (u: int, v: int, m: int)
    ensures 2 * u <= p.b as int - p.g <= 2 * u + 1 && 2 * v <= p.r as int - p.g <= 2 * v + 1
    ensures 4 * m <= p.b as int - p.g + (p.r as int - p.g) <= 4 * m + 3
    ensures Yuv(p, 1, 1) ==
            (if p.g + m == 0 then -127 else p.g + m - 128, if u == -128 then -127 else u, if v == -128 then -127 else v)
  {
    hide Clear128, Masked;
    u, v, m := (p.b as int - p.g) / 2, (p.r as int - p.g) / 2, (p.b as int - p.g + (p.r as int - p.g)) / 4;
    assert (p.r + p.g * 2 + p.b as int) / 4 == p.g + m;
    KeepAll(p.g + m - 128);
    KeepAll(u);
    KeepAll(v);
  }

  /** With all bits kept, no channel of any color is off by more than one after both conversions. */
  lemma ColorNear(p: Rgb)
    ensures var (y, u, v) := Yuv(p, 1, 1); var q := ToRgb(y, u, v); Near(q.r, p.r) && Near(q.g, p.g) && Near(q.b, p.b)
  {
    hide Clamp, Near, Yuv;
    var u, v, m := KeptYuv(p);
    var (y', u', v') := Yuv(p, 1, 1);
    var k := (2 * u' + 2 * v') / 4;
    assert 4 * k <= 2 * u' + 2 * v' <= 4 * k + 3;
    RoundingNear(p, u, v, m, k);
  }

  // ------------------------------------------------------------ one pixel

  function Channel(b: sbyte): channel { if b < 0 then b + 256 else b }

  function FromChannel(x: channel): sbyte { if x >= 128 then x - 256 else x }

  /** ZYWRLE_LOAD_PIXEL32: blue is the lowest byte. */
  function Color(c: Cell): Rgb { Rgb(Channel(c.v), Channel(c.y), Channel(c.u)) }

  /** A pixel as a coefficient: U, Y and V in that byte order. */
  function YuvCell(c: Cell, yUnit: nat, uvUnit: nat): (r: Cell)
    requires MaskUnit(yUnit) && MaskUnit(uvUnit)
  {
    YuvOdd7(Color(c), yUnit, uvUnit);
    var (y, u, v) := Yuv(Color(c), yUnit, uvUnit);
    Cell(u, y, v)
  }

  predicate OddCell(c: Cell) { Odd7(c.u) && Odd7(c.y) && Odd7(c.v) }

  lemma YuvCellOdd(c: Cell, yUnit: nat, uvUnit: nat)
    requires MaskUnit(yUnit) && MaskUnit(uvUnit)
    ensures OddCell(YuvCell(c, yUnit, uvUnit))
  {
    hide Yuv, MaskUnit;
    YuvOdd7(Color(c), yUnit, uvUnit);
  }

  /** A coefficient as a pixel. */
  function RgbCell(c: Cell): Cell {
    var p := ToRgb(c.y, c.u, c.v);
    Cell(FromChannel(p.b), FromChannel(p.g), FromChannel(p.r))
  }

  predicate NearCell(c: Cell, d: Cell) {
    Near(Color(c).r, Color(d).r) && Near(Color(c).g, Color(d).g) && Near(Color(c).b, Color(d).b)
  }

  lemma ColorBack(c: Cell)
    ensures NearCell(RgbCell(YuvCell(c, 1, 1)), c)
  {
    hide Yuv, ToRgb, Near;
    ColorNear(Color(c));
    YuvOdd7(Color(c), 1, 1);
  }

  // ------------------------------------------------------------ a whole rectangle

  /** The first `h * w` pixels of the rectangle, converted. */
  ghost predicate Converted(cells: seq<Cell>, px: seq<Cell>, n: nat, w: nat, scanline: nat, yUnit: nat, uvUnit: nat)
    requires w > 0 && MaskUnit(yUnit) && MaskUnit(uvUnit)
  {
    n <= |cells| && forall q :: 0 <= q < n ==>
      Pixel(q, w, scanline) < |px| && cells[q] == YuvCell(px[Pixel(q, w, scanline)], yUnit, uvUnit)
  }

  /** ZYWRLE_RGBYUV: the coefficients are the colors of the rectangle, and what stands behind them stays. */
  method RgbYuv(a: array<sbyte>, px: array<Cell>, w: nat, h: nat, scanline: nat, yUnit: nat, uvUnit: nat)
    requires w > 0 && a.Length % 4 == 0 && h * w <= a.Length / 4 && w <= scanline && h * scanline <= px.Length
    requires MaskUnit(yUnit) && MaskUnit(uvUnit)
    modifies a
    ensures Converted(Cells(a[..]), px[..], h * w, w, scanline, yUnit, uvUnit)
    ensures forall i :: 4 * (h * w) <= i < a.Length ==> a[i] == old(a[i])
  {
    hide YuvCell, MaskUnit, Cells, Pixel;
    var p, data := 0, 0;
    for y := 0 to h
      invariant p == y * w && data == y * scanline
      invariant Converted(Cells(a[..]), px[..], p, w, scanline, yUnit, uvUnit)
      invariant forall i :: 4 * (h * w) <= i < a.Length ==> a[i] == old(a[i])
    {
      MulDistr(y, 1, w);
      MulDistr(y, 1, scanline);
      for x := 0 to w
        invariant p == y * w + x && data == y * scanline + x
        invariant Converted(Cells(a[..]), px[..], p, w, scanline, yUnit, uvUnit)
        invariant forall i :: 4 * (h * w) <= i < a.Length ==> a[i] == old(a[i])
      {
        FlatBelow(x, y, w, h);
        FlatBelow(x, y, scanline, h);
        PixelAt(x, y, w, scanline);
        SaveCoeff(a, p, YuvCell(px[data], yUnit, uvUnit));
        p, data := p + 1, data + 1;
      }
      data := data + (scanline - w);
    }
  }

  /** The first `n` pixels of the rectangle are those coefficients, converted back, and nothing else has changed. */
  ghost predicate Restored(px: seq<Cell>, px0: seq<Cell>, cells: seq<Cell>, n: nat, w: nat, scanline: nat)
    requires w > 0
  {
    Outside(px, px0, n, w, scanline) && Shown(px, cells, n, w, scanline)
  }

  ghost predicate Shown(px: seq<Cell>, cells: seq<Cell>, n: nat, w: nat, scanline: nat)
    requires w > 0
  {
    n <= |cells| && forall q :: 0 <= q < n ==>
      Pixel(q, w, scanline) < |px| && px[Pixel(q, w, scanline)] == RgbCell(cells[q])
  }

  lemma RestoredMore(px: seq<Cell>, px0: seq<Cell>, cells: seq<Cell>, n: nat, w: nat, scanline: nat)
    requires 0 < w <= scanline && Restored(px, px0, cells, n, w, scanline)
    requires n < |cells| && Pixel(n, w, scanline) < |px|
    ensures Restored(px[Pixel(n, w, scanline) := RgbCell(cells[n])], px0, cells, n + 1, w, scanline)
  {
    hide Pixel, Outside, RgbCell;
    OutsideMore(px, px0, n, w, scanline, RgbCell(cells[n]));
    forall q | 0 <= q < n ensures Pixel(q, w, scanline) != Pixel(n, w, scanline) { PixelMonotone(q, n, w, scanline); }
  }

  /** ZYWRLE_YUVRGB. */
  method YuvRgb(a: array<sbyte>, px: array<Cell>, w: nat, h: nat, scanline: nat)
    requires w > 0 && a.Length % 4 == 0 && h * w <= a.Length / 4 && w <= scanline && h * scanline <= px.Length
    modifies px
    ensures Restored(px[..], old(px[..]), Cells(a[..]), h * w, w, scanline)
  {
    hide RgbCell, Cells, Pixel, Restored;
    var p, data := 0, 0;
    ghost var cells := Cells(a[..]);
    NothingRestored(px[..], cells, w, scanline);
    for y := 0 to h
      invariant p == y * w && data == y * scanline
      invariant Restored(px[..], old(px[..]), cells, p, w, scanline)
    {
      MulDistr(y, 1, w);
      MulDistr(y, 1, scanline);
      for x := 0 to w
        invariant p == y * w + x && data == y * scanline + x
        invariant Restored(px[..], old(px[..]), cells, p, w, scanline)
      {
        FlatBelow(x, y, w, h);
        FlatBelow(x, y, scanline, h);
        PixelAt(x, y, w, scanline);
        RestoredMore(px[..], old(px[..]), cells, p, w, scanline);
        var c := LoadCoeff(a, p);
        px[data] := RgbCell(c);
        p, data := p + 1, data + 1;
      }
      data := data + (scanline - w);
    }
  }

  lemma NothingRestored(px: seq<Cell>, cells: seq<Cell>, w: nat, scanline: nat)
    requires w > 0
    ensures Restored(px, px, cells, 0, w, scanline)
  {}
}
