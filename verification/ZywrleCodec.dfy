/** Analysis and synthesis as a whole: color conversion, transform, packing and border, in place on an image, with the
    quantising filter left out. */
module ZywrleCodec {
  import opened Arith
  import opened Rectangles
  import opened ZywrleCells
  import opened ZywrleWavelet
  import opened ZywrleColor
  import opened ZywrlePacking
  import opened ZywrleBorder

  /** Two buffers that differ in fourth bytes at most. */
  ghost predicate Agree(a: seq<sbyte>, b: seq<sbyte>) {
    |a| == |b| && forall i :: 0 <= i < |a| && i % 4 != 3 ==> a[i] == b[i]
  }

  lemma AgreeCells(a: seq<sbyte>, b: seq<sbyte>)
    requires |a| % 4 == 0 && |b| % 4 == 0
    ensures Cells(a) == Cells(b) ==> Agree(a, b)
    ensures Agree(a, b) ==> Cells(a) == Cells(b)
  {
    if Cells(a) == Cells(b) {
      assert |a| == 4 * |Cells(a)| == |b|;
      forall i | 0 <= i < |a| && i % 4 != 3 ensures a[i] == b[i] {
        assert Cells(a)[i / 4] == Cells(b)[i / 4] && i == 4 * (i / 4) + i % 4;
      }
    }
  }

  lemma {:induction false} ApplyAgree(a: seq<sbyte>, b: seq<sbyte>, ps: seq<Pair>)
    requires Agree(a, b) && Inside(|a|, ps) && ColorBytes(ps)
    ensures Agree(Apply(a, ps), Apply(b, ps))
    decreases |ps|
  {
    hide Harr;
    if ps == [] {
    } else {
      ApplyAgree(a, b, Front(ps));
    }
  }

  lemma PassAgree(a: seq<sbyte>, b: seq<sbyte>, w: nat, h: nat, l: nat)
    requires Aligned(w, h, l + 1) && |a| == |b| == 4 * (w * h) && Agree(a, b)
    ensures Agree(Rows(a, w, h, l), Rows(b, w, h, l)) && Agree(Cols(a, w, h, l), Cols(b, w, h, l))
  {
    hide Agree, RowPass, ColPass;
    PassesSound(w, h, l);
    ApplyAgree(a, b, RowPass(w, h, l));
    ApplyAgree(a, b, ColPass(w, h, l));
  }

  lemma {:induction false} ForwardAgree(a: seq<sbyte>, b: seq<sbyte>, w: nat, h: nat, level: nat)
    requires Aligned(w, h, level) && |a| == |b| == 4 * (w * h) && Agree(a, b)
    ensures Agree(Forward(a, w, h, level), Forward(b, w, h, level))
    decreases level
  {
    hide Agree, Rows, Cols, Aligned;
    if level == 0 {
    } else {
      AlignedAt(w, h, level, level - 1);
      ForwardAgree(a, b, w, h, level - 1);
      LevelAgree(Forward(a, w, h, level - 1), Forward(b, w, h, level - 1), w, h, level - 1);
    }
  }

  lemma LevelAgree(a: seq<sbyte>, b: seq<sbyte>, w: nat, h: nat, l: nat)
    requires Aligned(w, h, l + 1) && |a| == |b| == 4 * (w * h) && Agree(a, b)
    ensures Agree(Cols(Rows(a, w, h, l), w, h, l), Cols(Rows(b, w, h, l), w, h, l))
    ensures Agree(Rows(Cols(a, w, h, l), w, h, l), Rows(Cols(b, w, h, l), w, h, l))
  {
    hide Agree, Rows, Cols, Aligned;
    PassAgree(a, b, w, h, l);
    PassAgree(Rows(a, w, h, l), Rows(b, w, h, l), w, h, l);
    PassAgree(Cols(a, w, h, l), Cols(b, w, h, l), w, h, l);
  }

  lemma {:induction false} InverseAgree(a: seq<sbyte>, b: seq<sbyte>, w: nat, h: nat, level: nat)
    requires Aligned(w, h, level) && |a| == |b| == 4 * (w * h) && Agree(a, b)
    ensures Agree(Inverse(a, w, h, level), Inverse(b, w, h, level))
    decreases level
  {
    hide Agree, Rows, Cols, Aligned;
    if level == 0 {
    } else {
      var l := level - 1;
      AlignedAt(w, h, level, l);
      LevelAgree(a, b, w, h, l);
      InverseAgree(Rows(Cols(a, w, h, l), w, h, l), Rows(Cols(b, w, h, l), w, h, l), w, h, l);
    }
  }

  // ------------------------------------------------------------ the transform on coefficients

  /** The coefficients as bytes, with nothing in the fourth. */
  function Bytes(cs: seq<Cell>): (r: seq<sbyte>)
    ensures |r| == 4 * |cs|
  {
    if cs == [] then [] else [cs[0].u, cs[0].y, cs[0].v, 0] + Bytes(cs[1..])
  }

  lemma {:induction false} CellsOfBytes(cs: seq<Cell>)
    ensures Cells(Bytes(cs)) == cs
  {
    if cs == [] {
    } else {
      var first, rest := [cs[0].u, cs[0].y, cs[0].v, 0], Bytes(cs[1..]);
      CellsOfBytes(cs[1..]);
      CellsJoin(first, rest);
      assert Cells(first) == [cs[0]];
    }
  }

  function ForwardCells(cs: seq<Cell>, w: nat, h: nat, level: nat): (r: seq<Cell>)
    requires Aligned(w, h, level) && |cs| == w * h
    ensures |r| == w * h
  {
    hide Aligned;
    Cells(Forward(Bytes(cs), w, h, level))
  }

  function InverseCells(cs: seq<Cell>, w: nat, h: nat, level: nat): (r: seq<Cell>)
    requires Aligned(w, h, level) && |cs| == w * h
    ensures |r| == w * h
  {
    hide Aligned;
    Cells(Inverse(Bytes(cs), w, h, level))
  }

  /** The colors after the transform depend on the colors before it only. */
  lemma ForwardColors(b: seq<sbyte>, cs: seq<Cell>, w: nat, h: nat, level: nat)
    requires |b| == 4 * |cs| && Cells(b) == cs && |cs| == w * h && Aligned(w, h, level)
    ensures Cells(Forward(b, w, h, level)) == ForwardCells(cs, w, h, level)
  {
    hide Forward, Cells, Agree, Aligned;
    CellsOfBytes(cs);
    AgreeCells(b, Bytes(cs));
    ForwardAgree(b, Bytes(cs), w, h, level);
    AgreeCells(Forward(b, w, h, level), Forward(Bytes(cs), w, h, level));
  }

  lemma InverseColors(b: seq<sbyte>, cs: seq<Cell>, w: nat, h: nat, level: nat)
    requires |b| == 4 * |cs| && Cells(b) == cs && |cs| == w * h && Aligned(w, h, level)
    ensures Cells(Inverse(b, w, h, level)) == InverseCells(cs, w, h, level)
  {
    hide Inverse, Cells, Agree, Aligned;
    CellsOfBytes(cs);
    AgreeCells(b, Bytes(cs));
    InverseAgree(b, Bytes(cs), w, h, level);
    AgreeCells(Inverse(b, w, h, level), Inverse(Bytes(cs), w, h, level));
  }

  ghost predicate OddCells(cs: seq<Cell>) { forall k :: 0 <= k < |cs| ==> OddCell(cs[k]) }

  lemma {:induction false} OddBytes(cs: seq<Cell>)
    requires OddCells(cs)
    ensures AllOdd7(Bytes(cs))
  {
    if cs == [] {
    } else {
      OddBytes(cs[1..]);
      assert OddCell(cs[0]);
    }
  }

  /** The inverse transform gives coefficients in the odd range back. */
  lemma ColorsBack(cs: seq<Cell>, w: nat, h: nat, level: nat)
    requires Aligned(w, h, level) && |cs| == w * h && OddCells(cs)
    ensures InverseCells(ForwardCells(cs, w, h, level), w, h, level) == cs
  {
    hide Forward, Inverse, Cells, AllOdd7, Aligned;
    OddBytes(cs);
    InverseForward(Bytes(cs), w, h, level);
    InverseColors(Forward(Bytes(cs), w, h, level), ForwardCells(cs, w, h, level), w, h, level);
    CellsOfBytes(cs);
  }

  // ------------------------------------------------------------ analysis

  /** A rectangle of an image: its aligned part, what is left over on the right and below, and the rows' distance. */
  datatype Shape = Shape(w: nat, h: nat, uw: nat, uh: nat, level: nat, scanline: nat)

  function ShapeOf(width: nat, height: nat, level: nat, scanline: nat): Shape {
    var w, h := CalcSize(width, level), CalcSize(height, level);
    Shape(w, h, width - w, height - h, level, scanline)
  }

  function Coefs(s: Shape): (r: nat)
    ensures r == s.w * s.h == s.h * s.w
  {
    MulCommute(s.w, s.h);
    MulNonNegative(s.w, s.h);
    s.w * s.h
  }

  function Words(s: Shape): (r: nat)
    ensures r == (s.h + s.uh) * (s.w + s.uw) && Coefs(s) <= r
  {
    BorderAfter(s.w, s.h, s.uw, s.uh);
    MulNonNegative(s.h + s.uh, s.w + s.uw);
    (s.h + s.uh) * (s.w + s.uw)
  }

  /** The shape of an image of `len` pixels that has an aligned part. */
  ghost predicate Fitting(s: Shape, len: nat) {
    s.level > 0 && Aligned(s.w, s.h, s.level) && s.w > 0 && s.h > 0 && s.uw < Pow2(s.level) && s.uh < Pow2(s.level) &&
    s.w + s.uw <= s.scanline && (s.h + s.uh) * s.scanline <= len
  }

  lemma CoefPixel(s: Shape, len: nat, q: nat)
    requires Fitting(s, len) && q < Coefs(s)
    ensures Pixel(q, s.w, s.scanline) < len
  {
    PixelBelow(q, s.w, s.h, s.scanline);
    MulMonotone(s.h, s.h + s.uh, s.scanline);
  }

  /** The colors of the aligned part. */
  function Yuvs(s: Shape, px: seq<Cell>): (r: seq<Cell>)
    requires Fitting(s, |px|)
    ensures |r| == Coefs(s)
  {
    seq(Coefs(s), q requires 0 <= q < Coefs(s) =>
      CoefPixel(s, |px|, q);
      YuvCell(px[Pixel(q, s.w, s.scanline)], 1, 1))
  }

  function Edge(s: Shape): seq<nat> { Border(s.w, s.h, s.uw, s.uh, s.scanline) }

  lemma EdgePixels(s: Shape, len: nat)
    requires Fitting(s, len)
    ensures |Edge(s)| == Words(s) - Coefs(s) && NoDup(Edge(s)) && forall k :: 0 <= k < |Edge(s)| ==> Edge(s)[k] < len
  {
    hide Border, NoDup;
    BorderFits(s.w, s.h, s.uw, s.uh, s.scanline, Words(s), len);
    BorderCompletes(s.w, s.h, s.uw, s.uh, s.scanline, 0);
  }

  function EdgeCells(s: Shape, px: seq<Cell>): (r: seq<Cell>)
    requires Fitting(s, |px|)
    ensures |r| == Words(s) - Coefs(s)
  {
    EdgePixels(s, |px|);
    seq(|Edge(s)|, k requires 0 <= k < |Edge(s)| => px[Edge(s)[k]])
  }

  /** What the buffer holds before packing. */
  function Analysis(s: Shape, px: seq<Cell>): (r: seq<Cell>)
    requires Fitting(s, |px|)
    ensures |r| == Words(s)
  { ForwardCells(Yuvs(s, px), s.w, s.h, s.level) + EdgeCells(s, px) }

  function OrderOf(s: Shape): seq<nat>
    requires s.level > 0
  { FullOrder(s.w, s.h, s.uw, s.uh, s.level) }

  /** How far apart the rows are that analysis fills.  INC_PTR compares with the start of the row, which is where
      LOAD_UNALIGN left it, behind the rectangle, if there is a border. */
  function Walked(s: Shape): nat { if s.uw == 0 && s.uh == 0 then s.scanline else s.w + s.uw }

  /** The result of analysis on an image: the words lie in the walked rows, and all other pixels have stayed. */
  ghost predicate Analyzed(s: Shape, px0: seq<Cell>, px1: seq<Cell>)
    requires Fitting(s, |px0|)
  {
    Sent(Analysis(s, px0), px1, OrderOf(s), s.w + s.uw, Walked(s)) &&
    Outside(px1, px0, Words(s), s.w + s.uw, Walked(s))
  }

  lemma SavedEdge(s: Shape, c: seq<Cell>, c0: seq<Cell>, px1: seq<Cell>, px: seq<Cell>)
    requires Fitting(s, |px|) && State(true, c, c0, px1, px, Edge(s), Coefs(s))
    ensures px1 == px && |c| >= Words(s) && c[Coefs(s)..Words(s)] == EdgeCells(s, px)
  {
    hide Border, NoDup;
    EdgePixels(s, |px|);
  }

  lemma ConvertedYuvs(s: Shape, c: seq<Cell>, px: seq<Cell>)
    requires Fitting(s, |px|) && MaskUnit(1) && Converted(c, px, Coefs(s), s.w, s.scanline, 1, 1)
    ensures c[..Coefs(s)] == Yuvs(s, px)
  {
    hide YuvCell, Pixel, Aligned;
  }

  lemma SentPart(buf: seq<Cell>, n: nat, px: seq<Cell>, order: seq<nat>, w: nat, stride: nat)
    requires w > 0 && n <= |buf| && Sent(buf, px, order, w, stride) && forall p: nat :: p in order <==> p < n
    ensures Sent(buf[..n], px, order, w, stride)
  {
    hide Pixel;
    forall k | 0 <= k < |order| ensures order[k] < n { assert order[k] in order; }
  }

  lemma CellsSlice(b: seq<sbyte>, m: nat, n: nat)
    requires |b| % 4 == 0 && m <= n <= |b| / 4
    ensures Cells(b[4 * m..4 * n]) == Cells(b)[m..n]
  {}

  lemma CellsKept(b: seq<sbyte>, b': seq<sbyte>, m: nat)
    requires |b| == |b'| && |b| % 4 == 0 && m <= |b| / 4 && forall i :: 4 * m <= i < |b| ==> b'[i] == b[i]
    ensures Cells(b')[m..] == Cells(b)[m..]
  {}

  /** The buffer after conversion, `b`, and after the transform, `t`. */
  lemma FilledBuffer(s: Shape, px: seq<Cell>, b0: seq<sbyte>, b: seq<sbyte>, t: seq<sbyte>, n: nat)
    requires Fitting(s, |px|) && n == Coefs(s) && |b0| == |b| && |b0| % 4 == 0 && Words(s) <= |b0| / 4
    requires Cells(b0)[n..Words(s)] == EdgeCells(s, px)
    requires Cells(b)[..n] == Yuvs(s, px) && Cells(b)[n..] == Cells(b0)[n..]
    requires Holds(t, Forward(b[..4 * n], s.w, s.h, s.level), b)
    ensures |t| == |b| && Cells(t)[..Words(s)] == Analysis(s, px)
  {
    hide Cells, Forward, Holds, EdgeCells, Yuvs, Aligned, Words;
    var f := Forward(b[..4 * n], s.w, s.h, s.level);
    HoldsParts(t, f, b);
    assert forall i :: 4 * n <= i < |b| ==> t[i] == t[4 * n..][i - 4 * n];
    CellsKept(b, t, n);
    CellsSlice(t, 0, n);
    CellsSlice(b, 0, n);
    assert b[4 * 0..4 * n] == b[..4 * n] && t[4 * 0..4 * n] == t[..4 * n];
    ForwardColors(b[..4 * n], Cells(b)[..n], s.w, s.h, s.level);
    assert Cells(t)[..Words(s)] == Cells(t)[..n] + Cells(t)[n..][..Words(s) - n];
    assert Cells(b0)[n..Words(s)] == Cells(b0)[n..][..Words(s) - n];
  }

  /** Color conversion and transform: the aligned part of the image becomes the front of the buffer. */
  method FillBuffer(px: array<Cell>, buf: array<sbyte>, w: nat, h: nat, level: nat, scanline: nat, ghost s: Shape)
    requires w == s.w && h == s.h && level == s.level && scanline == s.scanline && Fitting(s, px.Length)
    requires buf.Length % 4 == 0 && Words(s) <= buf.Length / 4
    requires Cells(buf[..])[Coefs(s)..Words(s)] == EdgeCells(s, px[..])
    modifies buf
    ensures Cells(buf[..])[..Words(s)] == Analysis(s, px[..])
  {
    hide Cells, Forward, Holds, EdgeCells, Yuvs, Aligned, Words, Converted, Analysis;
    ghost var n, b0 := Coefs(s), buf[..];
    MulMonotone(h, h + s.uh, scanline);
    RgbYuv(buf, px, w, h, scanline, 1, 1);
    ghost var b := buf[..];
    ConvertedYuvs(s, Cells(b), px[..]);
    CellsKept(b0, b, n);
    Wavelet(buf, w, h, level);
    FilledBuffer(s, px[..], b0, b, buf[..], n);
  }

  lemma FittingShape(width: nat, height: nat, level: nat, scanline: nat, len: nat)
    requires level > 0 && width <= scanline && height * scanline <= len
    requires CalcSize(width, level) > 0 && CalcSize(height, level) > 0
    ensures Fitting(ShapeOf(width, height, level, scanline), len)
  {
    hide CalcSize, Pow2;
  }

  function AreaOf(s: Shape): Area { Area(s.w + s.uw, s.h + s.uh, s.scanline, Walked(s)) }

  /** The row pointer LOAD_UNALIGN leaves makes INC_PTR walk as `Walked` says. */
  lemma Park(s: Shape, len: nat)
    requires Fitting(s, len)
    ensures BorderEnd(s.w, s.h, s.uw, s.uh, s.scanline, 0) >= 0
    ensures Proper(AreaOf(s), len) && Parked(AreaOf(s), BorderEnd(s.w, s.h, s.uw, s.uh, s.scanline, 0))
  {
    hide Aligned;
    MulMonotone(s.w + s.uw, s.scanline, s.h + s.uh);
    MulCommute(s.w + s.uw, s.h + s.uh);
    MulCommute(s.scanline, s.h + s.uh);
  }

  /** ZYWRLE_ANALYZE in place: nothing without an aligned part, otherwise the buffer's words in the walked rows. */
  method Analyze(px: array<Cell>, buf: array<sbyte>, width: nat, height: nat, scanline: nat, level: nat)
    returns (ok: bool)
    requires level > 0 && width <= scanline && height * scanline <= px.Length
    requires buf.Length % 4 == 0 && height * width <= buf.Length / 4
    modifies px, buf
    ensures ok <==> CalcSize(width, level) > 0 && CalcSize(height, level) > 0
    ensures !ok ==> px[..] == old(px[..])
    ensures ok ==> Fitting(ShapeOf(width, height, level, scanline), |px[..]|) &&
                   Analyzed(ShapeOf(width, height, level, scanline), old(px[..]), px[..])
  {
    hide Sent, Outside, State, Fitting, Cells, Border, CalcSize, EdgeCells, Analysis, FullOrder, Words, Parked,
         BorderEnd;
    var w, h := CalcSize(width, level), CalcSize(height, level);
    if w == 0 || h == 0 { return false; }
    var uw, uh := width - w, height - h;
    ghost var s, px0 := ShapeOf(width, height, level, scanline), px[..];
    FittingShape(width, height, level, scanline, px.Length);
    FittingParts(s, px.Length);
    var pData := LoadUnalign(true, buf, px, w, h, uw, uh, scanline, 0);
    SavedEdge(s, Cells(buf[..]), old(Cells(buf[..])), px[..], px0);
    FillBuffer(px, buf, w, h, level, scanline, s);
    Park(s, px.Length);
    Transfer(true, buf, px, w, h, uw, uh, level, scanline, pData, AreaOf(s));
    FullOrderIsPermutation(w, h, uw, uh, level);
    SentPart(Cells(buf[..]), Words(s), px[..], OrderOf(s), w + uw, Walked(s));
    return true;
  }

  lemma FittingParts(s: Shape, len: nat)
    requires Fitting(s, len)
    ensures Aligned(s.w, s.h, s.level) && s.level > 0 && s.w > 0 && s.h > 0 && s.w + s.uw <= s.scanline
    ensures (s.h + s.uh) * s.scanline <= len
  {}

  // ------------------------------------------------------------ synthesis

  /** Pixel `q` lies in the rectangle, or in its aligned part. */
  ghost predicate InWhole(s: Shape, q: nat)
    requires s.scanline > 0
  {
    q % s.scanline < s.w + s.uw && q / s.scanline < s.h + s.uh
  }

  ghost predicate InAligned(s: Shape, q: nat)
    requires s.scanline > 0
  {
    q % s.scanline < s.w && q / s.scanline < s.h
  }

  /** The coefficients among the words, transformed back. */
  function Decoded(s: Shape, words: seq<Cell>): (r: seq<Cell>)
    requires Aligned(s.w, s.h, s.level) && Coefs(s) <= |words|
    ensures |r| == Coefs(s)
  { InverseCells(words[..Coefs(s)], s.w, s.h, s.level) }

  ghost predicate KeptOutside(s: Shape, px0: seq<Cell>, px1: seq<Cell>)
    requires s.scanline > 0
  {
    |px1| == |px0| && forall q: nat :: q < |px1| && !InWhole(s, q) ==> px1[q] == px0[q]
  }

  /** The words of the buffer shown in an image: the aligned part transformed back and converted, the border as it is,
      and nothing outside the rectangle. */
  ghost predicate Painted(s: Shape, words: seq<Cell>, px0: seq<Cell>, px1: seq<Cell>)
    requires Fitting(s, |px0|) && Coefs(s) <= |words|
  {
    Shown(px1, Decoded(s, words), Coefs(s), s.w, s.scanline) && Kept(words, px1, Edge(s), Coefs(s)) &&
    KeptOutside(s, px0, px1)
  }

  /** The result of synthesis on an image: the words read from the rectangle's rows are shown in it. */
  ghost predicate Synthesized(s: Shape, px0: seq<Cell>, px1: seq<Cell>)
    requires Fitting(s, |px0|)
  {
    exists words :: |words| == Words(s) && Sent(words, px0, OrderOf(s), s.w + s.uw, s.scanline) &&
                    Painted(s, words, px0, px1)
  }

  /** The buffer after unpacking, `b`, and after the inverse transform, `t`. */
  lemma InvertedBuffer(s: Shape, len: nat, b: seq<sbyte>, t: seq<sbyte>, n: nat)
    requires Fitting(s, len) && n == Coefs(s) && |b| % 4 == 0 && Words(s) <= |b| / 4
    requires Holds(t, Inverse(b[..4 * n], s.w, s.h, s.level), b)
    ensures |t| == |b| && Cells(t)[n..] == Cells(b)[n..]
    ensures Cells(t)[..n] == Decoded(s, Cells(b))
  {
    hide Cells, Inverse, Holds, Aligned, Words;
    var f := Inverse(b[..4 * n], s.w, s.h, s.level);
    HoldsParts(t, f, b);
    assert forall i :: 4 * n <= i < |b| ==> t[i] == t[4 * n..][i - 4 * n];
    CellsKept(b, t, n);
    CellsSlice(t, 0, n);
    CellsSlice(b, 0, n);
    assert b[4 * 0..4 * n] == b[..4 * n] && t[4 * 0..4 * n] == t[..4 * n];
    InverseColors(b[..4 * n], Cells(b)[..n], s.w, s.h, s.level);
  }

  lemma CoefPlace(s: Shape, p: nat)
    requires 0 < s.w <= s.scanline && p < Coefs(s)
    ensures var q := Pixel(p, s.w, s.scanline);
            InAligned(s, q) && q / s.scanline == p / s.w && q % s.scanline == p % s.w
  {
    DivModDef(p, s.w);
    RowBelow(p, s.w, s.h);
    DivUnique(Pixel(p, s.w, s.scanline), p / s.w, p % s.w, s.scanline);
  }

  /** The aligned part and the border share no pixel, so restoring the border leaves the colors. */
  lemma ShownStays(s: Shape, cells: seq<Cell>, mid: seq<Cell>, px1: seq<Cell>, len: nat)
    requires Fitting(s, len) && |px1| == |mid| && Shown(mid, cells, Coefs(s), s.w, s.scanline)
    requires forall q: nat :: q < |px1| && q !in Edge(s) ==> px1[q] == mid[q]
    ensures Shown(px1, cells, Coefs(s), s.w, s.scanline)
  {
    hide Border, Aligned, RgbCell, Pixel, NoDup;
    forall p | 0 <= p < Coefs(s) ensures Pixel(p, s.w, s.scanline) !in Edge(s) {
      CoefPlace(s, p);
      BorderCompletes(s.w, s.h, s.uw, s.uh, s.scanline, Pixel(p, s.w, s.scanline));
    }
  }

  lemma WholeStays(s: Shape, px0: seq<Cell>, mid: seq<Cell>, px1: seq<Cell>, len: nat)
    requires Fitting(s, len) && |px1| == |mid| && Outside(mid, px0, Coefs(s), s.w, s.scanline)
    requires forall q: nat :: q < |px1| && q !in Edge(s) ==> px1[q] == mid[q]
    ensures KeptOutside(s, px0, px1)
  {
    hide Border, Aligned, Pixel, NoDup, Among;
    forall q: nat | q < |px1| && !InWhole(s, q) ensures px1[q] == px0[q] {
      BorderCompletes(s.w, s.h, s.uw, s.uh, s.scanline, q);
      NotAmong(s, q);
    }
  }

  lemma NotAmong(s: Shape, q: nat)
    requires 0 < s.w <= s.scanline
    ensures Among(q, Coefs(s), s.w, s.scanline) ==> InAligned(s, q)
  {
    if Among(q, Coefs(s), s.w, s.scanline) {
      var p: nat :| p < Coefs(s) && Pixel(p, s.w, s.scanline) == q;
      CoefPlace(s, p);
    }
  }

  /** After the aligned part, the border: each pixel shows its word. */
  lemma PaintedBoth(s: Shape, words: seq<Cell>, c: seq<Cell>, px0: seq<Cell>, mid: seq<Cell>, px1: seq<Cell>)
    requires Fitting(s, |px0|) && |words| == Words(s) <= |c|
    requires c[..Coefs(s)] == Decoded(s, words) && c[Coefs(s)..Words(s)] == words[Coefs(s)..]
    requires Restored(mid, px0, c, Coefs(s), s.w, s.scanline) && State(false, c, c, px1, mid, Edge(s), Coefs(s))
    ensures Painted(s, words, px0, px1)
  {
    hide Fitting, Aligned, Decoded, RgbCell, Pixel, Edge, Words, Outside;
    FittingParts(s, |px0|);
    EdgePixels(s, |px0|);
    ShownStays(s, Decoded(s, words), mid, px1, |px0|);
    WholeStays(s, px0, mid, px1, |px0|);
    KeptPart(c, words, px1, Edge(s), Coefs(s));
  }

  lemma KeptPart(c: seq<Cell>, words: seq<Cell>, px: seq<Cell>, order: seq<nat>, base: nat)
    requires Kept(c, px, order, base) && base + |order| == |words| <= |c| && c[base..|words|] == words[base..]
    ensures Kept(words, px, order, base)
  {
    forall k | 0 <= k < |order| ensures px[order[k]] == words[base + k] {
      assert words[base..][k] == c[base..|words|][k];
    }
  }

  /** ZYWRLE_SYNTHESIZE in place, for any distance of the rows. */
  method Synthesize(px: array<Cell>, buf: array<sbyte>, width: nat, height: nat, scanline: nat, level: nat)
    returns (ok: bool)
    requires level > 0 && width <= scanline && height * scanline <= px.Length
    requires buf.Length % 4 == 0 && height * width <= buf.Length / 4
    modifies px, buf
    ensures ok <==> CalcSize(width, level) > 0 && CalcSize(height, level) > 0
    ensures !ok ==> px[..] == old(px[..])
    ensures ok ==> Fitting(ShapeOf(width, height, level, scanline), |old(px[..])|) &&
                   Synthesized(ShapeOf(width, height, level, scanline), old(px[..]), px[..])
  {
    hide Sent, Outside, State, Fitting, Cells, Border, CalcSize, Decoded, Inverse, FullOrder, Words, Parked,
      Painted, Restored, Holds, BorderEnd;
    var w, h := CalcSize(width, level), CalcSize(height, level);
    if w == 0 || h == 0 { return false; }
    var uw, uh := width - w, height - h;
    ghost var s, px0 := ShapeOf(width, height, level, scanline), px[..];
    FittingShape(width, height, level, scanline, px.Length);
    FittingParts(s, px.Length);
    ParkFront(s, px.Length);
    Transfer(false, buf, px, w, h, uw, uh, level, scanline, 0, Area(w + uw, h + uh, scanline, scanline));
    FullOrderIsPermutation(w, h, uw, uh, level);
    ghost var b, words := buf[..], Cells(buf[..])[..Words(s)];
    SentPart(Cells(b), Words(s), px0, OrderOf(s), w + uw, scanline);
    InvWavelet(buf, w, h, level);
    InvertedBuffer(s, px.Length, b, buf[..], Coefs(s));
    MulMonotone(h, height, scanline);
    YuvRgb(buf, px, w, h, scanline);
    ghost var c, mid := Cells(buf[..]), px[..];
    var pData := LoadUnalign(false, buf, px, w, h, uw, uh, scanline, 0);
    SameWords(c, Cells(buf[..]), mid, px[..], Edge(s), Coefs(s));
    CutWords(s, words, c, Cells(b));
    PaintedBoth(s, words, c, px0, mid, px[..]);
    return true;
  }

  lemma ParkFront(s: Shape, len: nat)
    requires Fitting(s, len)
    ensures var a := Area(s.w + s.uw, s.h + s.uh, s.scanline, s.scanline); Proper(a, len) && Parked(a, 0)
  {}

  lemma SameWords(c: seq<Cell>, c': seq<Cell>, mid: seq<Cell>, px1: seq<Cell>, order: seq<nat>, base: nat)
    requires State(false, c', c, px1, mid, order, base)
    ensures State(false, c, c, px1, mid, order, base)
  {}

  lemma CutWords(s: Shape, words: seq<Cell>, c: seq<Cell>, d: seq<Cell>)
    requires Aligned(s.w, s.h, s.level) && Words(s) <= |d| == |c| && words == d[..Words(s)]
    requires c[Coefs(s)..] == d[Coefs(s)..]
    ensures Decoded(s, words) == Decoded(s, d) && c[Coefs(s)..Words(s)] == words[Coefs(s)..]
  {
    hide InverseCells;
    var n, m := Coefs(s), Words(s);
    assert words[..n] == d[..n];
    assert c[n..m] == c[n..][..m - n] && d[n..m] == d[n..][..m - n];
  }

  // ------------------------------------------------------------ there and back

  /** What a caller can check: INC_PTR's rows are the rows of the image. */
  predicate RowsWalked(s: Shape) { (s.uw == 0 && s.uh == 0) || s.scanline == s.w + s.uw }

  /** Analysis fills the pixels of the rectangle, each with its own word, exactly when there is no border or the
      rectangle is as wide as the image. */
  lemma FillsExactly(s: Shape, len: nat)
    requires Fitting(s, len)
    ensures InPlace(AreaOf(s)) <==> RowsWalked(s)
  {
    AtLeastTwo(s.h, s.level);
    InPlaceExactly(AreaOf(s));
  }

  lemma AtLeastTwo(v: nat, level: nat)
    requires v > 0 && level > 0 && v % Pow2(level) == 0
    ensures v >= Pow2(level) >= 2
  {
    if v < Pow2(level) { DivUnique(v, 0, v, Pow2(level)); }
  }

  /** The first word of the second row. */
  function Spilled(s: Shape, px: seq<Cell>): Cell
    requires Fitting(s, |px|)
  {
    hide Fitting, OrderOf, Words;
    FittingParts(s, |px|);
    SecondRow(s);
    Analysis(s, px)[OrderOf(s)[s.w + s.uw]]
  }

  lemma SecondRow(s: Shape)
    requires Aligned(s.w, s.h, s.level) && s.level > 0 && s.w > 0 && s.h > 0
    ensures s.w + s.uw < |OrderOf(s)| == Words(s) && OrderOf(s)[s.w + s.uw] < Words(s)
  {
    hide FullOrder, Aligned, NoDup, Pow2;
    AlignedParts(s);
    AtLeastTwo(s.h, s.level);
    FullOrderIsPermutation(s.w, s.h, s.uw, s.uh, s.level);
    MulMonotone(2, s.h + s.uh, s.w + s.uw);
    assert OrderOf(s)[s.w + s.uw] in OrderOf(s);
  }

  /** Otherwise it writes outside the rectangle: the pixel behind the first row receives the first word of the second
      one. */
  lemma SpillsOver(s: Shape, px0: seq<Cell>, px1: seq<Cell>)
    requires Fitting(s, |px0|) && !RowsWalked(s) && Analyzed(s, px0, px1)
    ensures s.w + s.uw < |px1| && !InWhole(s, s.w + s.uw) && px1[s.w + s.uw] == Spilled(s, px0)
  {
    hide FullOrder, Analysis, Outside, Aligned;
    var width := s.w + s.uw;
    SecondRow(s);
    PixelDense(width, width);
    DivUnique(width, 0, width, s.scanline);
  }

  /** The smallest case: three by two pixels of an image four pixels wide, at level one. */
  const SMALL := Shape(2, 2, 1, 0, 1, 4)

  lemma SmallShape(len: nat)
    requires len >= 8
    ensures ShapeOf(3, 2, 1, 4) == SMALL && Fitting(SMALL, len) && !RowsWalked(SMALL)
  {
    hide CalcSize, Aligned, Pow2;
    PowerOne();
    SmallSides();
    SmallAligned();
  }

  lemma PowerOne()
    ensures Pow2(1) == 2
  {
    assert Pow2(0) == 1;
  }

  lemma SmallSides()
    ensures CalcSize(3, 1) == 2 && CalcSize(2, 1) == 2
  {
    PowerOne();
    hide Pow2;
    DivUnique(3, 1, 1, Pow2(1));
    DivUnique(2, 1, 0, Pow2(1));
  }

  lemma SmallAligned()
    ensures Aligned(2, 2, 1)
  {
    PowerOne();
    hide Pow2;
    DivUnique(2, 1, 0, Pow2(1));
  }

  /** Its fourth word belongs to the place 4 and goes to the place 3, right of the rectangle. */
  lemma SmallSpills(px0: seq<Cell>, px1: seq<Cell>)
    requires Fitting(SMALL, |px0|) && Analyzed(SMALL, px0, px1)
    ensures 3 < |px1| && px1[3] == Spilled(SMALL, px0) && !InWhole(SMALL, 3)
    ensures Pixel(3, 3, 4) == 4 && Pixel(3, 3, Walked(SMALL)) == 3
  {
    hide *;
    SmallPlaces();
    SpillsOver(SMALL, px0, px1);
  }

  lemma SmallPlaces()
    ensures !RowsWalked(SMALL) && SMALL.w + SMALL.uw == 3 && Walked(SMALL) == 3
    ensures Pixel(3, 3, 4) == 4 && Pixel(3, 3, 3) == 3
  {}

  /** Synthesis leaves that pixel as it is, and its color before analysis, `c`, makes no difference: it is lost. */
  lemma OutsideOverwritten(s: Shape, px0: seq<Cell>, px1: seq<Cell>, px2: seq<Cell>, c: Cell)
    requires Fitting(s, |px0|) && !RowsWalked(s) && s.w + s.uw < |px0|
    requires Analyzed(s, px0[s.w + s.uw := c], px1) && |px1| == |px0| && Synthesized(s, px1, px2)
    ensures |px2| == |px0| && px2[s.w + s.uw] == Spilled(s, px0)
  {
    hide FullOrder, Analysis, Outside, Aligned, Sent, Decoded;
    SpillsOver(s, px0[s.w + s.uw := c], px1);
    AnalysisInside(s, px0, s.w + s.uw, c);
  }

  /** Analysis depends on the pixels of the rectangle only. */
  lemma AnalysisInside(s: Shape, px: seq<Cell>, q: nat, c: Cell)
    requires Fitting(s, |px|) && q < |px| && !InWhole(s, q)
    ensures Analysis(s, px[q := c]) == Analysis(s, px)
  {
    hide YuvCell, Pixel, Edge, NoDup, ForwardCells, Aligned, Pow2;
    forall p | 0 <= p < Coefs(s) ensures Yuvs(s, px[q := c])[p] == Yuvs(s, px)[p] {
      CoefPlace(s, p);
      CoefPixel(s, |px|, p);
    }
    assert Yuvs(s, px[q := c]) == Yuvs(s, px);
    EdgePixels(s, |px|);
    forall k | 0 <= k < |Edge(s)| ensures EdgeCells(s, px[q := c])[k] == EdgeCells(s, px)[k] { EdgeInside(s, k); }
    assert EdgeCells(s, px[q := c]) == EdgeCells(s, px);
  }

  lemma EdgeInside(s: Shape, k: nat)
    requires 0 < s.w && s.w + s.uw <= s.scanline && k < |Edge(s)|
    ensures InWhole(s, Edge(s)[k])
  {
    hide Border, NoDup;
    BorderCompletes(s.w, s.h, s.uw, s.uh, s.scanline, Edge(s)[k]);
    assert Edge(s)[k] in Edge(s);
  }

  lemma AlignedParts(s: Shape)
    requires Aligned(s.w, s.h, s.level)
    ensures s.w % Pow2(s.level) == 0 && s.h % Pow2(s.level) == 0
  {}

  /** Synthesis reads the very words that analysis wrote. */
  lemma ReadsBack(s: Shape, px0: seq<Cell>, px1: seq<Cell>, words: seq<Cell>)
    requires Fitting(s, |px0|) && RowsWalked(s) && Analyzed(s, px0, px1)
    requires |words| == Words(s) && Sent(words, px1, OrderOf(s), s.w + s.uw, s.scanline)
    ensures words == Analysis(s, px0)
  {
    hide Sent, FullOrder, Analysis, Outside, Aligned;
    GatherRebuilds(Analysis(s, px0), words, px1, s.w, s.h, s.uw, s.uh, s.level, s.scanline);
  }

  lemma YuvsOdd(s: Shape, px: seq<Cell>)
    requires Fitting(s, |px|)
    ensures OddCells(Yuvs(s, px))
  {
    hide YuvCell, Pixel, OddCell, Fitting;
    forall k | 0 <= k < Coefs(s) ensures OddCell(Yuvs(s, px)[k]) {
      CoefPixel(s, |px|, k);
      YuvCellOdd(px[Pixel(k, s.w, s.scanline)], 1, 1);
    }
  }

  /** The words of analysis, decoded, are the converted colors, and behind them stands the border. */
  lemma AnalysisParts(s: Shape, px: seq<Cell>)
    requires Fitting(s, |px|)
    ensures Decoded(s, Analysis(s, px)) == Yuvs(s, px) && Analysis(s, px)[Coefs(s)..] == EdgeCells(s, px)
  {
    hide ForwardCells, InverseCells, Yuvs, EdgeCells, OddCells, Pow2;
    YuvsOdd(s, px);
    ColorsBack(Yuvs(s, px), s.w, s.h, s.level);
    assert Analysis(s, px)[..Coefs(s)] == ForwardCells(Yuvs(s, px), s.w, s.h, s.level);
  }

  /** A pixel of the whole rectangle is one of the aligned part or one of the border. */
  lemma WholeParts(s: Shape, q: nat)
    requires 0 < s.w && s.w + s.uw <= s.scanline && InWhole(s, q)
    ensures if InAligned(s, q) then exists p: nat :: p < Coefs(s) && Pixel(p, s.w, s.scanline) == q else q in Edge(s)
  {
    hide Border, NoDup;
    DivModDef(q, s.scanline);
    DivNat(q, s.scanline);
    BorderCompletes(s.w, s.h, s.uw, s.uh, s.scanline, q);
    if InAligned(s, q) {
      FlatBelow(q % s.scanline, q / s.scanline, s.w, s.h);
      MulNonNegative(q / s.scanline, s.w);
      PixelAt(q % s.scanline, q / s.scanline, s.w, s.scanline);
      assert q / s.scanline * s.w + q % s.scanline < Coefs(s);
    }
  }

  /** Synthesis after analysis, without quantisation: no channel of the aligned part is off by more than the color
      conversion's one, and the border and everything outside the rectangle are what they were. */
  lemma SynthesisUndoesAnalysis(s: Shape, px0: seq<Cell>, px1: seq<Cell>, px2: seq<Cell>, q: nat)
    requires Fitting(s, |px0|) && RowsWalked(s) && q < |px0|
    requires Analyzed(s, px0, px1) && |px1| == |px0| && Synthesized(s, px1, px2)
    ensures |px2| == |px0|
    ensures InWhole(s, q) && InAligned(s, q) ==> px2[q] == RgbCell(YuvCell(px0[q], 1, 1)) && NearCell(px2[q], px0[q])
    ensures !(InWhole(s, q) && InAligned(s, q)) ==> px2[q] == px0[q]
  {
    hide Sent, FullOrder, Analysis, Aligned, Outside, Border, RgbCell, YuvCell, Pixel, Decoded, NearCell;
    var words :| |words| == Words(s) && Sent(words, px1, OrderOf(s), s.w + s.uw, s.scanline) &&
                 Painted(s, words, px1, px2);
    ReadsBack(s, px0, px1, words);
    AnalysisParts(s, px0);
    if !InWhole(s, q) {
      OutsideWhole(s, px0, px1, q);
    } else {
      WholeParts(s, q);
      if InAligned(s, q) {
        var p: nat :| p < Coefs(s) && Pixel(p, s.w, s.scanline) == q;
        ColorBack(px0[q]);
      } else {
        var k :| 0 <= k < |Edge(s)| && Edge(s)[k] == q;
        assert words[Coefs(s) + k] == words[Coefs(s)..][k] == EdgeCells(s, px0)[k];
      }
    }
  }

  /** Walking the rows of the image, analysis leaves everything outside the rectangle. */
  lemma OutsideWhole(s: Shape, px0: seq<Cell>, px1: seq<Cell>, q: nat)
    requires Fitting(s, |px0|) && RowsWalked(s) && q < |px0| && Analyzed(s, px0, px1) && !InWhole(s, q)
    ensures |px1| == |px0| && px1[q] == px0[q]
  {
    hide Sent, Analysis, FullOrder, Pixel;
    var width, n := s.w + s.uw, Words(s);
    if Among(q, n, width, s.scanline) {
      var k: nat :| k < n && Pixel(k, width, s.scanline) == q;
      WholePlace(s, k);
      assert false;
    }
  }

  lemma WholePlace(s: Shape, k: nat)
    requires 0 < s.w && s.w + s.uw <= s.scanline && k < Words(s)
    ensures InWhole(s, Pixel(k, s.w + s.uw, s.scanline))
  {
    var width := s.w + s.uw;
    DivModDef(k, width);
    RowBelow(k, width, s.h + s.uh);
    DivUnique(Pixel(k, width, s.scanline), k / width, k % width, s.scanline);
  }

  /** The pixel whose color the first pixel right of the aligned part ends up with when the rows are not walked. */
  function Mistaken(s: Shape): nat
    requires s.w + s.uw > 0
  {
    var p := Pixel(Coefs(s), s.w + s.uw, s.scanline);
    if Coefs(s) <= p < Words(s) && p - Coefs(s) < |Edge(s)| then Edge(s)[p - Coefs(s)] else p
  }

  /** With a border on the right inside a wider image, synthesis does not undo analysis: the first border pixel gets
      the color of another pixel, so it is changed in every image in which these two differ. */
  lemma BorderLost(s: Shape, px0: seq<Cell>, px1: seq<Cell>, px2: seq<Cell>)
    requires Fitting(s, |px0|) && s.uw > 0 && s.scanline > s.w + s.uw
    requires Analyzed(s, px0, px1) && |px1| == |px0| && Synthesized(s, px1, px2)
    ensures s.w < |px2| == |px0| && Mistaken(s) < |px0| && Mistaken(s) != s.w && px2[s.w] == px0[Mistaken(s)]
  {
    hide Sent, FullOrder, Analysis, Aligned, Outside, Border, RgbCell, YuvCell, Pixel, Decoded;
    var words :| |words| == Words(s) && Sent(words, px1, OrderOf(s), s.w + s.uw, s.scanline) &&
                 Painted(s, words, px1, px2);
    var width, n, m := s.w + s.uw, Coefs(s), Words(s);
    var p := Pixel(n, width, s.scanline);
    FirstEdge(s);
    EdgePixels(s, |px0|);
    FirstWord(s, |px0|);
    WordAt(s, words, px1, s.scanline, n);
    assert px2[s.w] == words[n] == px1[p];
    if p < m {
      PixelDense(p, width);
      WordAt(s, Analysis(s, px0), px1, width, p);
      AnalysisParts(s, px0);
      assert Analysis(s, px0)[p] == Analysis(s, px0)[n..][p - n] == EdgeCells(s, px0)[p - n];
      assert Edge(s)[p - n] != Edge(s)[0];
    } else {
      DenseOutside(s, px0, px1, p);
    }
  }

  lemma FirstEdge(s: Shape)
    requires s.uw > 0 && s.h > 0 && s.scanline > 0
    ensures |Edge(s)| > 0 && Edge(s)[0] == s.w
  {
    assert 0 * s.scanline == 0;
    var line := Line(0 * s.scanline + s.w, 0 * s.scanline + s.w + s.uw, 1);
    assert line[0] == s.w;
    assert Strip(0, s.h, s.w, s.uw, s.scanline)[0] == s.w;
  }

  /** The first word behind the coefficients is read from a later row, behind its own place. */
  lemma FirstWord(s: Shape, len: nat)
    requires Fitting(s, len) && s.uw > 0 && s.scanline > s.w + s.uw
    ensures var p := Pixel(Coefs(s), s.w + s.uw, s.scanline); Coefs(s) < Words(s) && Coefs(s) < p < len && s.w < p
  {
    var width, n := s.w + s.uw, Coefs(s);
    AtLeastTwo(s.w, s.level);
    AtLeastTwo(s.h, s.level);
    MulMonotone(2, s.h, s.w);
    EdgeNotEmpty(s);
    DivModDef(n, width);
    var y := n / width;
    if y <= 0 { MulMonotone(y, 0, width); }
    MulMonotone(1, y, s.scanline - width);
    MulDistr(s.scanline, width, y);
    MulCommute(y, width);
    MulCommute(y, s.scanline);
    MulCommute(y, s.scanline - width);
    PixelBelow(n, width, s.h + s.uh, s.scanline);
  }

  lemma EdgeNotEmpty(s: Shape)
    requires s.uw > 0 && s.h > 0
    ensures Coefs(s) < Words(s)
  {
    Areas(s.w, s.h, s.uw, s.uh);
    MulAtLeast(s.h, s.uw);
    MulNonNegative(s.uh, s.w);
    MulNonNegative(s.uh, s.uw);
  }

  /** Behind the coefficients the order goes through the words one by one. */
  lemma WordAt(s: Shape, buf: seq<Cell>, px: seq<Cell>, stride: nat, k: nat)
    requires Aligned(s.w, s.h, s.level) && s.level > 0 && s.w > 0 && Coefs(s) <= k < Words(s)
    requires Sent(buf, px, OrderOf(s), s.w + s.uw, stride)
    ensures k < |buf| && Pixel(k, s.w + s.uw, stride) < |px| && px[Pixel(k, s.w + s.uw, stride)] == buf[k]
  {
    hide Pixel, Order, Aligned;
    OrderIsPermutation(s.w, s.h, s.level);
    LineAt(Coefs(s), Words(s), k - Coefs(s));
    assert OrderOf(s)[k] == Line(Coefs(s), Words(s), 1)[k - Coefs(s)];
  }

  lemma {:induction false} LineAt(p: nat, end: nat, k: nat)
    requires p + k < end
    ensures |Line(p, end, 1)| == end - p && Line(p, end, 1)[k] == p + k
    decreases k
  {
    CountUp(p, end);
    if k == 0 {
    } else {
      LineAt(p + 1, end, k - 1);
    }
  }

  lemma DenseOutside(s: Shape, px0: seq<Cell>, px1: seq<Cell>, p: nat)
    requires Fitting(s, |px0|) && Analyzed(s, px0, px1) && s.uw > 0 && Words(s) <= p < |px0|
    ensures |px1| == |px0| && px1[p] == px0[p]
  {
    hide Sent, Analysis, FullOrder, Pixel;
    var width := s.w + s.uw;
    if Among(p, Words(s), width, width) {
      var k: nat :| k < Words(s) && Pixel(k, width, width) == p;
      PixelDense(k, width);
      assert false;
    }
  }
}
