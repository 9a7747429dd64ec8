/** What analysis sends of an image of one color: the color itself on the grid of the last level, and zeros. */
module ZywrleFlat {
  import opened Arith
  import opened Rectangles
  import opened ZywrleCells
  import opened ZywrleWavelet
  import opened ZywrleColor
  import opened ZywrlePacking
  import opened ZywrleBlocks
  import opened ZywrleCodec

  // ------------------------------------------------------------ known colors

  /** With all bits kept: luminance has twice as much green as red or blue, U is blue and V red against green. */
  lemma YuvPlain(p: Rgb, y: int, u: int, v: int)
    requires 4 * y <= p.r + 2 * p.g + p.b - 512 <= 4 * y + 3
    requires 2 * u <= p.b as int - p.g <= 2 * u + 1 && 2 * v <= p.r as int - p.g <= 2 * v + 1
    requires -128 < y && -128 < u && -128 < v
    ensures Yuv(p, 1, 1) == (y, u, v)
  {
    hide Clear128, Masked;
    assert (p.r + p.g * 2 + p.b as int) / 4 - 128 == y;
    assert (p.b as int - p.g) / 2 == u && (p.r as int - p.g) / 2 == v;
    KeepAll(y);
    KeepAll(u);
    KeepAll(v);
  }

  lemma Red()
    ensures Yuv(Rgb(255, 0, 0), 1, 1) == (-65, 0, 127)
  {
    YuvPlain(Rgb(255, 0, 0), -65, 0, 127);
  }

  lemma Blue()
    ensures Yuv(Rgb(0, 0, 255), 1, 1) == (-65, 127, 0)
  {
    YuvPlain(Rgb(0, 0, 255), -65, 127, 0);
  }

  /** And back. */
  lemma KnownBack()
    ensures ToRgb(-65, 0, 127) == Rgb(254, 0, 0) && ToRgb(-65, 127, 0) == Rgb(0, 0, 254)
    ensures ToRgb(-28, 0, 0) == Rgb(100, 100, 100)
  {}

  // ------------------------------------------------------------ the transform

  const NONE := Cell(0, 0, 0)

  /** What is left of a coefficient that is `c` everywhere. */
  function Left(c: Cell, q: nat, w: nat, level: nat): Cell
    requires w > 0
  {
    if q % w % Pow2(level) == 0 && q / w % Pow2(level) == 0 then c else NONE
  }

  function Color3(c: Cell, ch: nat): sbyte
    requires ch < 3
  { if ch == 0 then c.u else if ch == 1 then c.y else c.v }

  ghost predicate AllCells(cs: seq<Cell>, c: Cell) { forall q :: 0 <= q < |cs| ==> cs[q] == c }

  lemma CellBytes(cs: seq<Cell>, q: nat)
    requires q < |cs|
    ensures var b := Bytes(cs); Cell(b[4 * q], b[4 * q + 1], b[4 * q + 2]) == cs[q]
  {
    hide Bytes, Cells;
    CellsOfBytes(cs);
    CellAt(Bytes(cs), q);
  }

  lemma CellAt(b: seq<sbyte>, q: nat)
    requires |b| % 4 == 0 && q < |b| / 4
    ensures Cells(b)[q] == Cell(b[4 * q], b[4 * q + 1], b[4 * q + 2])
  {}

  lemma UniformBytes(cs: seq<Cell>, c: Cell, w: nat, h: nat, ch: nat)
    requires |cs| == w * h && AllCells(cs, c) && ch < 3
    ensures Uniform(Bytes(cs), ch, Color3(c, ch), w, h, 0)
  {
    forall x: nat, y: nat | x < w && y < h
      ensures Byte(x, y, w, ch) < 4 * (w * h) && Bytes(cs)[Byte(x, y, w, ch)] == Remains(Color3(c, ch), x, y, 0)
    {
      ByteInside(x, y, w, h, ch);
      CellBytes(cs, Place(x, y, w));
    }
  }

  lemma FlatCells(cs: seq<Cell>, c: Cell, w: nat, h: nat, level: nat, q: nat)
    requires Aligned(w, h, level) && w > 0 && |cs| == w * h && AllCells(cs, c) && q < w * h
    ensures ForwardCells(cs, w, h, level)[q] == Left(c, q, w, level)
  {
    hide Forward, Byte, Remains, Aligned;
    var x, y, b := q % w, q / w, Forward(Bytes(cs), w, h, level);
    PlaceOf(q, w, h);
    forall ch: nat | ch < 3
      ensures Byte(x, y, w, ch) < |b| && b[Byte(x, y, w, ch)] == Remains(Color3(c, ch), x, y, level)
    {
      UniformBytes(cs, c, w, h, ch);
      ForwardConstant(Bytes(cs), ch, Color3(c, ch), w, h, level);
    }
    ThreeBytes(b, c, q, w, h, level);
  }

  lemma PlaceOf(q: nat, w: nat, h: nat)
    requires w > 0 && q < w * h
    ensures 0 <= q / w < h && Place(q % w, q / w, w) == q
  {
    DivModDef(q, w);
    DivNat(q, w);
    MulCommute(w, h);
    if q / w >= h { MulMonotone(h, q / w, w); }
  }

  lemma ThreeBytes(b: seq<sbyte>, c: Cell, q: nat, w: nat, h: nat, level: nat)
    requires w > 0 && |b| == 4 * (w * h) && q < w * h && 0 <= q / w && Place(q % w, q / w, w) == q
    requires forall ch: nat :: ch < 3 ==>
               Byte(q % w, q / w, w, ch) < |b| &&
               b[Byte(q % w, q / w, w, ch)] == Remains(Color3(c, ch), q % w, q / w, level)
    ensures Cells(b)[q] == Left(c, q, w, level)
  {
    assert Byte(q % w, q / w, w, 0) == 4 * q;
    assert Byte(q % w, q / w, w, 1) == 4 * q + 1;
    assert Byte(q % w, q / w, w, 2) == 4 * q + 2;
  }

  // ------------------------------------------------------------ the whole of analysis

  /** The aligned part of the image has one color. */
  ghost predicate Flat(s: Shape, px: seq<Cell>, c: Cell)
    requires Fitting(s, |px|)
  {
    forall q: nat :: q < Coefs(s) ==> Pixel(q, s.w, s.scanline) < |px| && px[Pixel(q, s.w, s.scanline)] == c
  }

  /** Every pixel analysis writes for a coefficient is zero, but for the last grid's, which are the color's. */
  lemma FlatAnalysis(s: Shape, px0: seq<Cell>, px1: seq<Cell>, c: Cell, k: nat)
    requires Fitting(s, |px0|) && Flat(s, px0, c) && Analyzed(s, px0, px1)
    requires k < |OrderOf(s)| && OrderOf(s)[k] < Coefs(s)
    ensures Pixel(k, s.w + s.uw, Walked(s)) < |px1|
    ensures px1[Pixel(k, s.w + s.uw, Walked(s))] == Left(YuvCell(c, 1, 1), OrderOf(s)[k], s.w, s.level)
  {
    hide YuvCell, ForwardCells, FullOrder, Pixel, Left, Outside, Aligned, EdgeCells, Words;
    FlatYuvs(s, px0, c);
    FlatCells(Yuvs(s, px0), YuvCell(c, 1, 1), s.w, s.h, s.level, OrderOf(s)[k]);
  }

  lemma FlatYuvs(s: Shape, px: seq<Cell>, c: Cell)
    requires Fitting(s, |px|) && Flat(s, px, c)
    ensures AllCells(Yuvs(s, px), YuvCell(c, 1, 1))
  {
    hide YuvCell;
  }

  // ------------------------------------------------------------ an image of two by two

  lemma SmallLines()
    ensures Line(3, 5, 2) == [3] && Line(2, 4, 2) == [2] && Line(1, 3, 2) == [1] && Line(0, 2, 2) == [0]
    ensures Line(4, 4, 1) == []
  {}

  lemma SmallSubbands()
    ensures Subband(2, 2, 0, 3) == [3] && Subband(2, 2, 0, 2) == [2]
    ensures Subband(2, 2, 0, 1) == [1] && Subband(2, 2, 0, 0) == [0]
  {
    PowerOne();
    assert Pow2(0) == 1;
    hide Pow2, Line;
    SmallLines();
    assert Lines(3, 3, 1, 2, 2) == [] && Lines(1, 3, 1, 2, 2) == Line(3, 5, 2);
    assert Lines(3, 3, 0, 2, 2) == [] && Lines(1, 3, 0, 2, 2) == Line(2, 4, 2);
    assert Lines(2, 2, 1, 2, 2) == [] && Lines(0, 2, 1, 2, 2) == Line(1, 3, 2);
    assert Lines(2, 2, 0, 2, 2) == [] && Lines(0, 2, 0, 2, 2) == Line(0, 2, 2);
  }

  lemma SmallOrder()
    ensures FullOrder(2, 2, 0, 0, 1) == [3, 2, 1, 0]
  {
    hide Pow2, Line, Subband;
    SmallLines();
    SmallSubbands();
    assert HighBands(2, 2, 0) == [];
    assert HighBands(2, 2, 1) == [] + [3] + [2] + [1];
  }

  const GRAY := Cell(100, 100, 100)

  const SQUARE := Shape(2, 2, 0, 0, 1, 2)

  lemma SquareFits()
    ensures Fitting(SQUARE, 4) && Walked(SQUARE) == 2 && Coefs(SQUARE) == 4 && RowsWalked(SQUARE)
    ensures forall k: nat :: k < 4 ==> Pixel(k, 2, 2) == k
  {
    SmallAligned();
    PowerOne();
  }

  lemma SquareLeft(c: Cell)
    ensures Left(c, 0, 2, 1) == c && Left(c, 1, 2, 1) == Left(c, 2, 2, 1) == Left(c, 3, 2, 1) == NONE
  {
    PowerOne();
  }

  lemma GrayCell()
    ensures YuvCell(GRAY, 1, 1) == Cell(0, -28, 0) && RgbCell(Cell(0, -28, 0)) == GRAY
  {
    hide Yuv;
    YuvPlain(Rgb(100, 100, 100), -28, 0, 0);
  }

  const GRAYS := [GRAY, GRAY, GRAY, GRAY]
  const GRAYS_SENT := [NONE, NONE, NONE, Cell(0, -28, 0)]

  /** Two by two pixels of gray 100: analysis leaves three zeros, and then the luminance. */
  lemma GraySquare(px1: seq<Cell>)
    ensures Fitting(SQUARE, 4) && (Analyzed(SQUARE, GRAYS, px1) <==> px1 == GRAYS_SENT)
  {
    hide FullOrder, Left, Pow2, YuvCell, Fitting, Pixel, Analysis, Yuvs, Sent;
    SmallOrder();
    SquareFits();
    GrayWords();
    SquareSent([Cell(0, -28, 0), NONE, NONE, NONE], px1);
    assert SQUARE.w + SQUARE.uw == 2 && Words(SQUARE) == 4;
    forall q: nat | q < 4 ensures Among(q, 4, 2, 2) { assert Pixel(q, 2, 2) == q; }
  }

  lemma SquareSent(words: seq<Cell>, px: seq<Cell>)
    requires |words| == 4 && forall k: nat :: k < 4 ==> Pixel(k, 2, 2) == k
    ensures |px| == 4 ==> (Sent(words, px, [3, 2, 1, 0], 2, 2) <==> px == [words[3], words[2], words[1], words[0]])
  {
    hide Pixel;
    var order := [3, 2, 1, 0];
    assert Pixel(0, 2, 2) == 0 && Pixel(1, 2, 2) == 1 && Pixel(2, 2, 2) == 2 && Pixel(3, 2, 2) == 3;
    if |px| == 4 && Sent(words, px, order, 2, 2) {
      assert px[Pixel(0, 2, 2)] == words[order[0]] && px[Pixel(1, 2, 2)] == words[order[1]];
      assert px[Pixel(2, 2, 2)] == words[order[2]] && px[Pixel(3, 2, 2)] == words[order[3]];
    }
  }

  lemma GrayWords()
    ensures Fitting(SQUARE, 4) && Analysis(SQUARE, GRAYS) == [Cell(0, -28, 0), NONE, NONE, NONE]
  {
    hide ForwardCells, Left, Pow2, YuvCell, Fitting, Pixel, EdgeCells;
    SquareFits();
    GrayCell();
    SquareLeft(Cell(0, -28, 0));
    FlatYuvs(SQUARE, GRAYS, GRAY);
    forall q: nat | q < 4 ensures Analysis(SQUARE, GRAYS)[q] == Left(Cell(0, -28, 0), q, 2, 1) {
      FlatCells(Yuvs(SQUARE, GRAYS), Cell(0, -28, 0), 2, 2, 1, q);
    }
    var r := Analysis(SQUARE, GRAYS);
    assert |r| == 4 && r[0] == Cell(0, -28, 0) && r[1] == r[2] == r[3] == NONE;
  }

  /** Synthesis makes four pixels of gray 100 of them. */
  lemma GraySquareBack(px2: seq<Cell>)
    ensures Fitting(SQUARE, 4) && (|px2| == 4 && Synthesized(SQUARE, GRAYS_SENT, px2) ==> px2 == GRAYS)
  {
    hide Synthesized, Analyzed, Fitting, YuvCell, RgbCell, RowsWalked;
    SquareFits();
    GraySquare(GRAYS_SENT);
    GrayCell();
    if |px2| == 4 && Synthesized(SQUARE, GRAYS_SENT, px2) {
      forall q: nat | q < 4 ensures px2[q] == GRAY {
        SynthesisUndoesAnalysis(SQUARE, GRAYS, GRAYS_SENT, px2, q);
      }
    }
  }
}
