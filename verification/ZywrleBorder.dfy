/** The unaligned border: ZYWRLE_LOAD_UNALIGN keeps the pixels right of and below the part the transform works on,
    and puts them back. */
module ZywrleBorder {
  import opened Arith
  import opened Rectangles
  import opened ZywrleCells
  import opened ZywrlePacking

  /** Rows `y` up to `yEnd` of a strip `cols` wide that starts in column `x`. */
  function Strip(y: nat, yEnd: nat, x: nat, cols: nat, scanline: nat): seq<nat>
    decreases yEnd - y
  {
    if y >= yEnd then [] else
    MulMonotone(0, y, scanline);
    Line(y * scanline + x, y * scanline + x + cols, 1) + Strip(y + 1, yEnd, x, cols, scanline)
  }

  /** Right of the aligned part, below it, and the corner. */
  function Border(w: nat, h: nat, uw: nat, uh: nat, scanline: nat): seq<nat> {
    Strip(0, h, w, uw, scanline) + Strip(h, h + uh, 0, w, scanline) + Strip(h, h + uh, w, uw, scanline)
  }

  lemma RowElems(y: nat, x: nat, cols: nat, scanline: nat, q: nat)
    requires 0 < scanline && x + cols <= scanline
    ensures 0 <= y * scanline && 0 <= q / scanline && 0 <= q % scanline
    ensures q in Line(y * scanline + x, y * scanline + x + cols, 1) <==>
            q / scanline == y && x <= q % scanline < x + cols
  {
    MulMonotone(0, y, scanline);
    DivModDef(q, scanline);
    DivNat(q, scanline);
    LineElems(y * scanline + x, y * scanline + x + cols, 1, q);
    if y * scanline + x <= q < y * scanline + x + cols { DivUnique(q, y, q - y * scanline, scanline); }
  }

  lemma {:induction false} StripElems(y: nat, yEnd: nat, x: nat, cols: nat, scanline: nat, q: nat)
    requires 0 < scanline && x + cols <= scanline
    ensures q in Strip(y, yEnd, x, cols, scanline) <==> y <= q / scanline < yEnd && x <= q % scanline < x + cols
    decreases yEnd - y
  {
    hide Line;
    if y >= yEnd {
    } else {
      RowElems(y, x, cols, scanline, q);
      StripElems(y + 1, yEnd, x, cols, scanline, q);
    }
  }

  lemma {:induction false} StripNoDup(y: nat, yEnd: nat, x: nat, cols: nat, scanline: nat)
    requires 0 < scanline && x + cols <= scanline
    ensures NoDup(Strip(y, yEnd, x, cols, scanline))
    decreases yEnd - y
  {
    hide Line, NoDup;
    if y >= yEnd {
      NoneListed();
    } else {
      MulMonotone(0, y, scanline);
      var line, rest := Line(y * scanline + x, y * scanline + x + cols, 1), Strip(y + 1, yEnd, x, cols, scanline);
      LineNoDup(y * scanline + x, y * scanline + x + cols, 1);
      StripNoDup(y + 1, yEnd, x, cols, scanline);
      forall q | q in line ensures q !in rest {
        RowElems(y, x, cols, scanline, q);
        StripElems(y + 1, yEnd, x, cols, scanline, q);
      }
      Joined(line, rest);
    }
  }

  lemma {:induction false} StripCount(y: nat, yEnd: nat, x: nat, cols: nat, scanline: nat)
    ensures y <= yEnd ==> |Strip(y, yEnd, x, cols, scanline)| == (yEnd - y) * cols
    decreases yEnd - y
  {
    if y >= yEnd {
    } else {
      MulMonotone(0, y, scanline);
      CountUp(y * scanline + x, y * scanline + x + cols);
      StripCount(y + 1, yEnd, x, cols, scanline);
      MulStep(yEnd - y, cols);
    }
  }

  /** The border and the aligned part share no pixel and make up the whole rectangle; no pixel of the border is met
      twice, and there are as many as words behind the coefficients. */
  lemma BorderCompletes(w: nat, h: nat, uw: nat, uh: nat, scanline: nat, q: nat)
    requires 0 < scanline && w + uw <= scanline
    ensures NoDup(Border(w, h, uw, uh, scanline)) && |Border(w, h, uw, uh, scanline)| == (h + uh) * (w + uw) - h * w
    ensures 0 <= q % scanline && 0 <= q / scanline
    ensures q in Border(w, h, uw, uh, scanline) <==>
            (q % scanline < w + uw && q / scanline < h + uh) && !(q % scanline < w && q / scanline < h)
  {
    hide Strip, NoDup;
    var right, below := Strip(0, h, w, uw, scanline), Strip(h, h + uh, 0, w, scanline);
    var corner := Strip(h, h + uh, w, uw, scanline);
    DivModDef(q, scanline);
    DivNat(q, scanline);
    StripElems(0, h, w, uw, scanline, q);
    StripElems(h, h + uh, 0, w, scanline, q);
    StripElems(h, h + uh, w, uw, scanline, q);
    StripNoDup(0, h, w, uw, scanline);
    StripNoDup(h, h + uh, 0, w, scanline);
    StripNoDup(h, h + uh, w, uw, scanline);
    forall p | p in right ensures p !in below && p !in corner {
      StripElems(0, h, w, uw, scanline, p);
      StripElems(h, h + uh, 0, w, scanline, p);
      StripElems(h, h + uh, w, uw, scanline, p);
    }
    Joined(right, below);
    forall p | p in right + below ensures p !in corner {
      StripElems(h, h + uh, 0, w, scanline, p);
      StripElems(h, h + uh, w, uw, scanline, p);
    }
    Joined(right + below, corner);
    StripCount(0, h, w, uw, scanline);
    StripCount(h, h + uh, 0, w, scanline);
    StripCount(h, h + uh, w, uw, scanline);
    Areas(w, h, uw, uh);
  }

  lemma Areas(w: nat, h: nat, uw: nat, uh: nat)
    ensures h * uw + uh * w + uh * uw == (h + uh) * (w + uw) - h * w
  {
    MulDistr(h, uh, w + uw);
    Expanded(h, w, uw);
    Expanded(uh, w, uw);
  }

  lemma Expanded(a: nat, b: nat, c: nat)
    ensures a * (b + c) == a * b + a * c
  {}

  // ------------------------------------------------------------ keeping and restoring

  /** The pixels met so far are in the buffer from `base` on, in the order they were met. */
  ghost predicate Kept<T>(buf: seq<T>, px: seq<T>, order: seq<nat>, base: nat) {
    base + |order| <= |buf| && forall k :: 0 <= k < |order| ==> order[k] < |px| && px[order[k]] == buf[base + k]
  }

  /** Only pixels of the order and buffer words behind `base` may change. */
  ghost predicate OnlyThese<T>(save: bool, buf: seq<T>, buf0: seq<T>, px: seq<T>, px0: seq<T>, order: seq<nat>,
                               base: nat)
  {
    |buf| == |buf0| && |px| == |px0| && base <= |buf0| && buf[..base] == buf0[..base] &&
    if save then px == px0 else buf == buf0 && forall q: nat :: q < |px| && q !in order ==> px[q] == px0[q]
  }

  ghost predicate State<T>(save: bool, buf: seq<T>, buf0: seq<T>, px: seq<T>, px0: seq<T>, done: seq<nat>, base: nat) {
    Kept(buf, px, done, base) && OnlyThese(save, buf, buf0, px, px0, done, base)
  }

  /** One word. */
  lemma KeptMore<T>(save: bool, buf: seq<T>, buf0: seq<T>, px: seq<T>, px0: seq<T>, done: seq<nat>, base: nat, p: nat)
    requires State(save, buf, buf0, px, px0, done, base) && base + |done| < |buf| && p < |px| && NoDup(done + [p])
    ensures State(save, if save then buf[base + |done| := px[p]] else buf, buf0,
                  if save then px else px[p := buf[base + |done|]], px0, done + [p], base)
  {
    forall k | 0 <= k < |done| ensures done[k] != p {
      assert (done + [p])[k] == done[k] && (done + [p])[|done|] == p;
    }
    assert forall q :: q in done ==> q in done + [p];
    assert p in done + [p];
  }

  ghost predicate FitsIn(order: seq<nat>, base: nat, bufLength: nat, pxLength: nat) {
    NoDup(order) && AllBelow(order, pxLength) && base + |order| <= bufLength
  }

  lemma FitsPart(a: seq<nat>, b: seq<nat>, base: nat, bufLength: nat, pxLength: nat)
    requires FitsIn(a + b, base, bufLength, pxLength)
    ensures FitsIn(a, base, bufLength, pxLength)
  {
    NoDupPrefix(a, b);
    BelowParts(a, b, pxLength);
  }

  lemma FitsNext(a: seq<nat>, p: nat, base: nat, bufLength: nat, pxLength: nat)
    requires FitsIn(a + [p], base, bufLength, pxLength)
    ensures NoDup(a + [p]) && p < pxLength && base + |a| < bufLength
  {
    assert (a + [p])[|a|] == p;
  }

  /** The inner loop: `pData` up to `pLine`. */
  method KeepLine(save: bool, buf: array<sbyte>, px: array<Cell>, pData0: nat, pLine: nat, pTop0: nat,
                  ghost buf0: seq<Cell>, ghost px0: seq<Cell>, ghost done: seq<nat>, ghost base: nat)
    returns (pTop: nat, pData: nat)
    requires buf.Length % 4 == 0 && pData0 <= pLine && pTop0 == base + |done|
    requires FitsIn(done + Line(pData0, pLine, 1), base, buf.Length / 4, px.Length)
    requires State(save, Cells(buf[..]), buf0, px[..], px0, done, base)
    modifies buf, px
    ensures State(save, Cells(buf[..]), buf0, px[..], px0, done + Line(pData0, pLine, 1), base)
    ensures pTop == base + |done + Line(pData0, pLine, 1)| && pData == pLine
  {
    hide State, FitsIn, NoDup, Cells;
    pTop, pData := pTop0, pData0;
    ghost var all, met: seq<nat> := done + Line(pData0, pLine, 1), done;
    while pData < pLine
      invariant pData0 <= pData <= pLine && pTop == base + |met|
      invariant met + Line(pData, pLine, 1) == all
      invariant State(save, Cells(buf[..]), buf0, px[..], px0, met, base)
    {
      ghost var rest := Line(pData + 1, pLine, 1);
      FirstFits(all, met, pData, rest, base, buf.Length / 4, px.Length);
      KeptMore(save, Cells(buf[..]), buf0, px[..], px0, met, base, pData);
      if save {
        SaveCoeff(buf, pTop, px[pData]);
      } else {
        ghost var was := buf[..];
        px[pData] := LoadCoeff(buf, pTop);
        assert buf[..] == was;
      }
      met := met + [pData];
      pData, pTop := pData + 1, pTop + 1;
    }
    assert met == all;
  }

  lemma FirstFits(all: seq<nat>, met: seq<nat>, p: nat, rest: seq<nat>, base: nat, bufLength: nat, pxLength: nat)
    requires all == met + ([p] + rest) && FitsIn(all, base, bufLength, pxLength)
    ensures all == met + [p] + rest && NoDup(met + [p]) && p < pxLength && base + |met| < bufLength
  {
    hide NoDup;
    assert all == met + [p] + rest;
    FitsPart(met + [p], rest, base, bufLength, pxLength);
    FitsNext(met, p, base, bufLength, pxLength);
  }

  /** One of the three strips. */
  method KeepStrip(save: bool, buf: array<sbyte>, px: array<Cell>, y: nat, yEnd: nat, x: nat, cols: nat,
                   scanline: nat, pTop0: nat, ghost buf0: seq<Cell>, ghost px0: seq<Cell>, ghost done: seq<nat>,
                   ghost base: nat)
    returns (pTop: nat, pData: nat)
    requires buf.Length % 4 == 0 && y <= yEnd && 0 < scanline && x + cols <= scanline && pTop0 == base + |done|
    requires FitsIn(done + Strip(y, yEnd, x, cols, scanline), base, buf.Length / 4, px.Length)
    requires State(save, Cells(buf[..]), buf0, px[..], px0, done, base)
    modifies buf, px
    ensures State(save, Cells(buf[..]), buf0, px[..], px0, done + Strip(y, yEnd, x, cols, scanline), base)
    ensures pTop == base + |done + Strip(y, yEnd, x, cols, scanline)| && pData == yEnd * scanline + x
  {
    hide State, FitsIn, Line, Cells;
    pTop := pTop0;
    MulMonotone(0, y, scanline);
    MulMonotone(y, yEnd, scanline);
    pData := y * scanline + x;
    var pEnd := yEnd * scanline + x;
    ghost var row: nat, all, met: seq<nat> := y, done + Strip(y, yEnd, x, cols, scanline), done;
    while pData < pEnd
      invariant y <= row <= yEnd && pData == row * scanline + x && pTop == base + |met|
      invariant met + Strip(row, yEnd, x, cols, scanline) == all
      invariant State(save, Cells(buf[..]), buf0, px[..], px0, met, base)
      decreases pEnd - pData
    {
      RowOrder(row, yEnd, scanline);
      ghost var line, rest := Line(pData, pData + cols, 1), Strip(row + 1, yEnd, x, cols, scanline);
      assert met + (line + rest) == met + line + rest;
      FitsPart(met + line, rest, base, buf.Length / 4, px.Length);
      pTop, pData := KeepLine(save, buf, px, pData, pData + cols, pTop, buf0, px0, met, base);
      met := met + line;
      MulDistr(row, 1, scanline);
      pData := pData + (scanline - cols);
      row := row + 1;
    }
    RowOrder(row, yEnd, scanline);
    assert met == all;
  }

  /** Where ZYWRLE_LOAD_UNALIGN leaves `pData`: behind the last strip it went down, or where it was. */
  function BorderEnd(w: nat, h: nat, uw: nat, uh: nat, scanline: nat, pData0: nat): int {
    if uw == 0 && uh == 0 then pData0 else (h + uh) * scanline + if uw > 0 then w else 0
  }

  /** ZYWRLE_LOAD_UNALIGN, saving the border behind the coefficients or restoring it from there. */
  method LoadUnalign(save: bool, buf: array<sbyte>, px: array<Cell>, w: nat, h: nat, uw: nat, uh: nat, scanline: nat,
                     pData0: nat)
    returns (pData: nat)
    requires w > 0 && h > 0 && w + uw <= scanline && (h + uh) * scanline <= px.Length
    requires 0 <= h * w && buf.Length % 4 == 0 && (h + uh) * (w + uw) <= buf.Length / 4
    modifies buf, px
    ensures State(save, Cells(buf[..]), old(Cells(buf[..])), px[..], old(px[..]), Border(w, h, uw, uh, scanline), h * w)
    ensures pData == BorderEnd(w, h, uw, uh, scanline, pData0)
  {
    hide State, FitsIn, Strip, Cells;
    ghost var buf0, px0, base, size := Cells(buf[..]), px[..], h * w, buf.Length / 4;
    ghost var right, below := Strip(0, h, w, uw, scanline), Strip(h, h + uh, 0, w, scanline);
    ghost var corner := Strip(h, h + uh, w, uw, scanline);
    BorderFits(w, h, uw, uh, scanline, size, px.Length);
    StripsFit(right, below, corner, base, size, px.Length);
    EmptyStrips(w, h, uw, uh, scanline);
    NothingKept(save, buf0, px0, base);
    var pTop := h * w;
    pData := pData0;
    if uw > 0 { pTop, pData := KeepStrip(save, buf, px, 0, h, w, uw, scanline, pTop, buf0, px0, [], base); }
    if uh > 0 { pTop, pData := KeepStrip(save, buf, px, h, h + uh, 0, w, scanline, pTop, buf0, px0, right, base); }
    if uw > 0 && uh > 0 {
      pTop, pData := KeepStrip(save, buf, px, h, h + uh, w, uw, scanline, pTop, buf0, px0, right + below, base);
    }
  }

  lemma StripsFit(right: seq<nat>, below: seq<nat>, corner: seq<nat>, base: nat, bufLength: nat, pxLength: nat)
    requires FitsIn(right + below + corner, base, bufLength, pxLength)
    ensures FitsIn(right + below, base, bufLength, pxLength) && FitsIn([] + right, base, bufLength, pxLength)
    ensures [] + right == right && right + [] == right && right + below + [] == right + below
  {
    hide FitsIn;
    FitsPart(right + below, corner, base, bufLength, pxLength);
    FitsPart(right, below, base, bufLength, pxLength);
    assert [] + right == right;
  }

  lemma NothingKept<T>(save: bool, buf: seq<T>, px: seq<T>, base: nat)
    requires base <= |buf|
    ensures State(save, buf, buf, px, px, [], base)
  {}

  lemma {:induction false} NoColumns(y: nat, yEnd: nat, x: nat, scanline: nat)
    ensures Strip(y, yEnd, x, 0, scanline) == []
    decreases yEnd - y
  {
    if y >= yEnd {
    } else {
      NoColumns(y + 1, yEnd, x, scanline);
    }
  }

  lemma EmptyStrips(w: nat, h: nat, uw: nat, uh: nat, scanline: nat)
    ensures var right, below := Strip(0, h, w, uw, scanline), Strip(h, h + uh, 0, w, scanline);
            var corner := Strip(h, h + uh, w, uw, scanline);
            (uw == 0 ==> right == []) && (uh == 0 ==> below == []) && (uw == 0 || uh == 0 ==> corner == [])
  {
    if uw == 0 {
      NoColumns(0, h, w, scanline);
      NoColumns(h, h + uh, w, scanline);
    }
  }

  lemma BorderFits(w: nat, h: nat, uw: nat, uh: nat, scanline: nat, bufLength: nat, pxLength: nat)
    requires 0 < scanline && w + uw <= scanline && (h + uh) * scanline <= pxLength
    requires 0 <= h * w && (h + uh) * (w + uw) <= bufLength
    ensures FitsIn(Border(w, h, uw, uh, scanline), h * w, bufLength, pxLength)
  {
    hide Border, NoDup;
    var order := Border(w, h, uw, uh, scanline);
    BorderCompletes(w, h, uw, uh, scanline, 0);
    forall k | 0 <= k < |order| ensures order[k] < pxLength {
      BorderCompletes(w, h, uw, uh, scanline, order[k]);
      DivModDef(order[k], scanline);
      FlatBelow(order[k] % scanline, order[k] / scanline, scanline, h + uh);
    }
  }

  /** What was saved from one image and restored into another gives the second the first one's border, and leaves
      every other pixel alone. */
  lemma BorderRestored<T>(buf: seq<T>, buf0: seq<T>, src: seq<T>, rest: seq<T>, dst: seq<T>, dst0: seq<T>,
                          w: nat, h: nat, uw: nat, uh: nat, scanline: nat, q: nat)
    requires 0 < scanline && w + uw <= scanline && 0 <= h * w && q < |dst| && q < |src|
    requires State(true, buf, buf0, src, src, Border(w, h, uw, uh, scanline), h * w)
    requires State(false, rest, rest, dst, dst0, Border(w, h, uw, uh, scanline), h * w)
    requires |rest| == |buf| && rest[h * w..] == buf[h * w..]
    ensures 0 <= q % scanline && 0 <= q / scanline
    ensures dst[q] == if (q % scanline < w + uw && q / scanline < h + uh) && !(q % scanline < w && q / scanline < h)
                      then src[q] else dst0[q]
  {
    hide Border, NoDup;
    var order := Border(w, h, uw, uh, scanline);
    BorderCompletes(w, h, uw, uh, scanline, q);
    if q in order {
      var k :| 0 <= k < |order| && order[k] == q;
      assert rest[h * w + k] == rest[h * w..][k] == buf[h * w..][k] == buf[h * w + k];
    }
  }
}
