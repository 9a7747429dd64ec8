/** Pixels of a rectangle inside a wider image, numbered row by row. */
module Rectangles {
  import opened Arith

  /** Where column `a` of row `c` lies in an image of `width` pixels a row. */
  function Place(a: nat, c: nat, width: nat): nat {
    MulMonotone(0, c, width);
    c * width + a
  }

  /** Where pixel `q` of a rectangle `w` wide lies in an image of `scanline` pixels a row. */
  function Pixel(q: nat, w: nat, scanline: nat): nat
    requires w > 0
  {
    DivNat(q, w);
    q / w * scanline + q % w
  }

  lemma PixelAt(x: nat, y: nat, w: nat, scanline: nat)
    requires x < w
    ensures Pixel(y * w + x, w, scanline) == y * scanline + x
  {
    DivUnique(y * w + x, y, x, w);
  }

  /** One more pixel is one position on, or the start of the next row. */
  lemma PixelStep(q: nat, w: nat, scanline: nat)
    requires 0 < w <= scanline
    ensures var row := q / w * scanline;
            if q % w == w - 1
            then (q + 1) / w == q / w + 1 && Pixel(q + 1, w, scanline) == row + scanline
            else (q + 1) / w == q / w && Pixel(q + 1, w, scanline) == Pixel(q, w, scanline) + 1
    ensures Pixel(q, w, scanline) < Pixel(q + 1, w, scanline)
  {
    var y, x := q / w, q % w;
    DivModDef(q, w);
    if x == w - 1 {
      MulDistr(y, 1, w);
      MulDistr(y, 1, scanline);
      DivUnique(q + 1, y + 1, 0, w);
    } else {
      DivUnique(q + 1, y, x + 1, w);
    }
  }

  lemma {:induction false} PixelMonotone(p: nat, q: nat, w: nat, scanline: nat)
    requires 0 < w <= scanline && p < q
    ensures Pixel(p, w, scanline) < Pixel(q, w, scanline)
  {
    PixelStep(q - 1, w, scanline);
    if p >= q - 1 {
    } else {
      PixelMonotone(p, q - 1, w, scanline);
    }
  }

  lemma PixelBelow(q: nat, w: nat, h: nat, scanline: nat)
    requires 0 < w <= scanline && q < h * w
    ensures Pixel(q, w, scanline) < h * scanline
  {
    var y, x := q / w, q % w;
    DivModDef(q, w);
    RowBelow(q, w, h);
    FlatBelow(x, y, scanline, h);
  }

  /** A size ZYWRLE works on at some level: both sides divisible by 2^level. */
  ghost predicate Aligned(w: nat, h: nat, level: nat) {
    w > 0 && h > 0 && w % Pow2(level) == 0 && h % Pow2(level) == 0
  }

  lemma {:induction false} AlignedAt(w: nat, h: nat, level: nat, l: nat)
    requires Aligned(w, h, level) && l <= level
    ensures Aligned(w, h, l)
    decreases level - l
  {
    if l >= level {
    } else {
      AlignedAt(w, h, level, l + 1);
      DivisibleHalf(w, Pow2(l));
      DivisibleHalf(h, Pow2(l));
    }
  }

  /** zywrleCalcSize clears the low bits of a side; what is left is aligned, or nothing. */
  function CalcSize(side: nat, level: nat): (r: nat)
    ensures r <= side && r % Pow2(level) == 0 && side - r < Pow2(level)
  {
    DivModDef(side, Pow2(level));
    DivNat(side, Pow2(level));
    MulMonotone(0, side / Pow2(level), Pow2(level));
    DivUnique(side - side % Pow2(level), side / Pow2(level), 0, Pow2(level));
    side - side % Pow2(level)
  }
}
