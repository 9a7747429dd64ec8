/** ZYWRLE's coefficient packing: the subbands of the interleaved transform are sent one after the other,
    from Hxy of the first level to L of the last, and put back in the same order. */
module ZywrlePacking {
  import opened Arith
  import opened Rectangles
  import opened ZywrleCells

  // ------------------------------------------------------------ lists of positions

  ghost predicate NoDup(s: seq<nat>) { forall i, j :: 0 <= i < j < |s| ==> s[i] != s[j] }

  ghost function Elems(s: seq<nat>): set<nat> { set x | x in s }

  lemma Joined(a: seq<nat>, b: seq<nat>)
    requires NoDup(a) && NoDup(b) && Elems(a) !! Elems(b)
    ensures NoDup(a + b) && Elems(a + b) == Elems(a) + Elems(b)
  {
    forall i, j | 0 <= i < j < |a + b| ensures (a + b)[i] != (a + b)[j] {
      if i < |a| <= j {
        assert a[i] in Elems(a) && b[j - |a|] in Elems(b);
      }
    }
  }

  // ------------------------------------------------------------ one subband

  /** The inner loop of ZYWRLE_TRANSFER_COEFF. */
  function Line(pH: nat, pLine: nat, s: nat): seq<nat>
    requires s > 0
    decreases pLine - pH
  {
    if pH >= pLine then [] else [pH] + Line(pH + s, pLine, s)
  }

  /** The outer loop, row `y` up to `yEnd`, starting each row at column `sx` of a buffer `w` wide. */
  function Lines(y: nat, yEnd: nat, sx: nat, w: nat, s: nat): seq<nat>
    requires s > 0
    decreases yEnd - y
  {
    if y >= yEnd then [] else Line(y * w + sx, y * w + sx + w, s) + Lines(y + s, yEnd, sx, w, s)
  }

  /** Where subband `r` of level `l` starts. */
  function StartX(r: nat, l: nat): nat { if r % 2 == 1 then Pow2(l) else 0 }

  function StartY(r: nat, l: nat): nat { if r / 2 == 1 then Pow2(l) else 0 }

  /** The positions of subband `r` of level `l`, in the order they are sent. */
  function Subband(w: nat, h: nat, l: nat, r: nat): seq<nat> {
    Lines(StartY(r, l), StartY(r, l) + h, StartX(r, l), w, Pow2(l + 1))
  }

  /** The same as a set: every 2^(l+1)-th column and row. */
  ghost predicate InBand(p: nat, w: nat, h: nat, l: nat, r: nat)
    requires w > 0
  {
    p < w * h && p % w % Pow2(l + 1) == StartX(r, l) && p / w % Pow2(l + 1) == StartY(r, l)
  }

  lemma {:induction false} LineElems(pH: nat, pLine: nat, s: nat, p: nat)
    requires s > 0
    ensures p in Line(pH, pLine, s) <==> pH <= p < pLine && (p - pH) % s == 0
    decreases pLine - pH
  {
    if pH >= pLine {
    } else {
      LineElems(pH + s, pLine, s, p);
      if p >= pH + s {
        DivModDef(p - pH - s, s);
        MulDistr((p - pH - s) / s, 1, s);
        DivUnique(p - pH, (p - pH - s) / s + 1, (p - pH - s) % s, s);
      } else if p >= pH {
        DivUnique(p - pH, 0, p - pH, s);
      }
    }
  }

  lemma {:induction false} LineNoDup(pH: nat, pLine: nat, s: nat)
    requires s > 0
    ensures NoDup(Line(pH, pLine, s))
    decreases pLine - pH
  {
    if pH >= pLine {
    } else {
      LineNoDup(pH + s, pLine, s);
      var rest := Line(pH + s, pLine, s);
      forall p | p in rest ensures p >= pH + s { LineElems(pH + s, pLine, s, p); }
      Joined([pH], rest);
    }
  }

  /** Starting at `a` below the step, a run as long as the period meets exactly the places
      congruent to `a`. */
  lemma Progression(t: nat, a: nat, n: nat, s: nat)
    requires s > 0 && a < s && n % s == 0
    ensures a <= t < a + n && (t - a) % s == 0 <==> t < n && t % s == a
  {
    DivModDef(n, s);
    if a <= t && (t - a) % s == 0 {
      var q := (t - a) / s;
      DivModDef(t - a, s);
      DivUnique(t, q, a, s);
      if t < a + n {
        if q >= n / s { MulMonotone(n / s, q, s); }
        MulDistr(q, 1, s);
        MulMonotone(q + 1, n / s, s);
      }
    }
    if t < n && t % s == a {
      var q := t / s;
      DivModDef(t, s);
      DivNat(t, s);
      MulNonNegative(q, s);
      DivUnique(t - a, q, 0, s);
    }
  }

  /** A row of the subband. */
  lemma LineRow(y: nat, sx: nat, w: nat, s: nat, p: nat)
    requires s > 0 && sx < s && w > 0 && w % s == 0
    ensures p in Line(y * w + sx, y * w + sx + w, s) <==> p / w == y && p % w % s == sx
  {
    LineElems(y * w + sx, y * w + sx + w, s, p);
    DivModDef(p, w);
    if p >= y * w {
      var t := p - y * w;
      Progression(t, sx, w, s);
      if t < w { DivUnique(p, y, t, w); }
    } else if p / w >= y {
      MulMonotone(y, p / w, w);
    }
  }

  lemma StepMod(d: nat, s: nat)
    requires s > 0
    ensures d >= s ==> (d - s) % s == d % s
    ensures d < s ==> (d % s == 0 <==> d == 0)
  {
    if d >= s {
      DivModDef(d - s, s);
      DivNat(d - s, s);
      MulDistr((d - s) / s, 1, s);
      DivUnique(d, (d - s) / s + 1, (d - s) % s, s);
    } else {
      DivUnique(d, 0, d, s);
    }
  }

  lemma {:induction false} LinesElems(y: nat, yEnd: nat, sx: nat, w: nat, s: nat, p: nat)
    requires s > 0 && sx < s && w > 0 && w % s == 0
    ensures p in Lines(y, yEnd, sx, w, s) <==> y <= p / w < yEnd && (p / w - y) % s == 0 && p % w % s == sx
    decreases yEnd - y
  {
    hide Line;
    if y >= yEnd {
    } else {
      LineRow(y, sx, w, s, p);
      LinesElems(y + s, yEnd, sx, w, s, p);
      if p / w >= y { StepMod(p / w - y, s); }
    }
  }

  lemma {:induction false} LinesNoDup(y: nat, yEnd: nat, sx: nat, w: nat, s: nat)
    requires s > 0 && sx < s && w > 0 && w % s == 0
    ensures NoDup(Lines(y, yEnd, sx, w, s))
    decreases yEnd - y
  {
    hide Line, NoDup;
    if y >= yEnd {
      NoneListed();
    } else {
      var line, rest := Line(y * w + sx, y * w + sx + w, s), Lines(y + s, yEnd, sx, w, s);
      LineNoDup(y * w + sx, y * w + sx + w, s);
      LinesNoDup(y + s, yEnd, sx, w, s);
      forall p | p in line ensures p !in rest {
        LineRow(y, sx, w, s, p);
        LinesElems(y + s, yEnd, sx, w, s, p);
      }
      Joined(line, rest);
    }
  }

  ghost function Band(w: nat, h: nat, l: nat, r: nat): set<nat>
    requires w > 0
  {
    set p: nat | p < w * h && InBand(p, w, h, l, r)
  }

  /** A subband is met completely, each place once. */
  lemma SubbandIsBand(w: nat, h: nat, l: nat, r: nat)
    requires Aligned(w, h, l + 1) && r < 4
    ensures NoDup(Subband(w, h, l, r)) && Elems(Subband(w, h, l, r)) == Band(w, h, l, r)
  {
    var s, sx, sy := Pow2(l + 1), StartX(r, l), StartY(r, l);
    LinesNoDup(sy, sy + h, sx, w, s);
    forall p: nat ensures p in Subband(w, h, l, r) <==> InBand(p, w, h, l, r) {
      LinesElems(sy, sy + h, sx, w, s, p);
      Progression(p / w, sy, h, s);
      InRectangle(p, w, h);
    }
  }

  lemma InRectangle(p: nat, w: nat, h: nat)
    requires w > 0
    ensures p < w * h <==> p / w < h
  {
    DivModDef(p, w);
    if p < w * h {
      RowBelow(p, w, h);
    } else if p / w < h {
      FlatBelow(p % w, p / w, w, h);
    }
  }

  // ------------------------------------------------------------ all subbands

  /** The places whose row and column are multiples of 2^l: what the levels below `l` leave as L. */
  ghost predicate InGrid(p: nat, w: nat, h: nat, l: nat)
    requires w > 0
  {
    p < w * h && p % w % Pow2(l) == 0 && p / w % Pow2(l) == 0
  }

  lemma HalfMod(v: nat, g: nat)
    requires g > 0
    ensures v % g == 0 <==> v % (2 * g) == 0 || v % (2 * g) == g
  {
    var q := v / (2 * g);
    var r := v % (2 * g);
    DivModDef(v, 2 * g);
    DivNat(v, 2 * g);
    MulAssoc(q, 2, g);
    if r < g {
      DivUnique(v, 2 * q, r, g);
    } else {
      MulDistr(2 * q, 1, g);
      DivUnique(v, 2 * q + 1, r - g, g);
    }
  }

  ghost function Grid(w: nat, h: nat, l: nat): set<nat>
    requires w > 0
  {
    set p: nat | p < w * h && InGrid(p, w, h, l)
  }

  /** The four subbands of a level split its grid, and subband 0 is the next grid. */
  lemma GridSplits(w: nat, h: nat, l: nat)
    requires w > 0
    ensures Grid(w, h, l) == Grid(w, h, l + 1) + Band(w, h, l, 3) + Band(w, h, l, 2) + Band(w, h, l, 1)
    ensures Band(w, h, l, 0) == Grid(w, h, l + 1)
    ensures Band(w, h, l, 1) !! Band(w, h, l, 2) !! Band(w, h, l, 3) !! Grid(w, h, l + 1)
    ensures Grid(w, h, l) <= Grid(w, h, 0)
  {
    forall p: nat
      ensures InGrid(p, w, h, l) <==>
                InGrid(p, w, h, l + 1) || InBand(p, w, h, l, 1) || InBand(p, w, h, l, 2) || InBand(p, w, h, l, 3)
      ensures InBand(p, w, h, l, 0) <==> InGrid(p, w, h, l + 1)
      ensures !(InBand(p, w, h, l, 1) && InBand(p, w, h, l, 2)) && !(InBand(p, w, h, l, 1) && InBand(p, w, h, l, 3)) &&
              !(InBand(p, w, h, l, 2) && InBand(p, w, h, l, 3))
      ensures InGrid(p, w, h, l + 1) ==>
                !InBand(p, w, h, l, 1) && !InBand(p, w, h, l, 2) && !InBand(p, w, h, l, 3)
      ensures InGrid(p, w, h, l) ==> InGrid(p, w, h, 0)
    {
      PlaceSplits(p, w, h, l);
    }
    hide InGrid, InBand;
  }

  /** One place of the grid of level `l`. */
  lemma PlaceSplits(p: nat, w: nat, h: nat, l: nat)
    requires w > 0
    ensures InGrid(p, w, h, l) <==>
              InGrid(p, w, h, l + 1) || InBand(p, w, h, l, 1) || InBand(p, w, h, l, 2) || InBand(p, w, h, l, 3)
    ensures InBand(p, w, h, l, 0) <==> InGrid(p, w, h, l + 1)
    ensures !(InBand(p, w, h, l, 1) && InBand(p, w, h, l, 2)) && !(InBand(p, w, h, l, 1) && InBand(p, w, h, l, 3)) &&
            !(InBand(p, w, h, l, 2) && InBand(p, w, h, l, 3))
    ensures InGrid(p, w, h, l + 1) ==>
              !InBand(p, w, h, l, 1) && !InBand(p, w, h, l, 2) && !InBand(p, w, h, l, 3)
    ensures InGrid(p, w, h, l) ==> InGrid(p, w, h, 0)
  {
    var x, y, g := p % w, p / w, Pow2(l);
    DivModDef(p, w);
    DivNat(p, w);
    assert Pow2(l + 1) == 2 * g && Pow2(0) == 1;
    HalfMod(x, g);
    HalfMod(y, g);
    hide Pow2;
  }

  /** The order in which the first `l` levels' high bands go out. */
  function HighBands(w: nat, h: nat, l: nat): seq<nat> {
    if l == 0 then []
    else HighBands(w, h, l - 1) + Subband(w, h, l - 1, 3) + Subband(w, h, l - 1, 2) + Subband(w, h, l - 1, 1)
  }

  /** The whole order: the high bands of every level, then L of the last one. */
  function Order(w: nat, h: nat, level: nat): seq<nat>
    requires level > 0
  {
    HighBands(w, h, level) + Subband(w, h, level - 1, 0)
  }

  lemma {:induction false} HighBandsElems(w: nat, h: nat, l: nat)
    requires Aligned(w, h, l)
    ensures NoDup(HighBands(w, h, l)) && Elems(HighBands(w, h, l)) == Grid(w, h, 0) - Grid(w, h, l)
  {
    hide Band, Grid, Subband, NoDup, Elems;
    if l == 0 {
      NoneListed();
    } else {
      var high := HighBands(w, h, l - 1);
      var b1, b2, b3 := Subband(w, h, l - 1, 1), Subband(w, h, l - 1, 2), Subband(w, h, l - 1, 3);
      AlignedAt(w, h, l, l - 1);
      HighBandsElems(w, h, l - 1);
      GridSplits(w, h, l - 1);
      SubbandIsBand(w, h, l - 1, 1);
      SubbandIsBand(w, h, l - 1, 2);
      SubbandIsBand(w, h, l - 1, 3);
      Joined(high, b3);
      Joined(high + b3, b2);
      Joined(high + b3 + b2, b1);
    }
  }

  lemma NoneListed()
    ensures NoDup([]) && Elems([]) == {}
  {}

  ghost function Below(n: nat): set<nat> {
    if n == 0 then {} else Below(n - 1) + {n - 1}
  }

  lemma {:induction false} InBelow(n: nat, p: nat)
    ensures p in Below(n) <==> p < n
  {
    if n == 0 {
    } else {
      InBelow(n - 1, p);
    }
  }

  lemma Rejoin(a: set<nat>, b: set<nat>)
    requires b <= a
    ensures a - b !! b && (a - b) + b == a
  {}

  lemma WholeGrid(w: nat, h: nat)
    requires w > 0
    ensures Grid(w, h, 0) == Below(w * h)
  {
    forall p: nat ensures p in Below(w * h) <==> p < w * h { InBelow(w * h, p); }
  }

  /** For every level and aligned size, the subbands together visit every coefficient exactly once. */
  lemma OrderIsPermutation(w: nat, h: nat, level: nat)
    requires Aligned(w, h, level) && level > 0
    ensures NoDup(Order(w, h, level)) && Elems(Order(w, h, level)) == Below(w * h) && |Order(w, h, level)| == w * h
  {
    hide HighBands, Subband, NoDup, Elems, Band, InBand, Grid, Below;
    WholeGrid(w, h);
    HighBandsElems(w, h, level);
    SubbandIsBand(w, h, level - 1, 0);
    GridSplits(w, h, level - 1);
    GridSplits(w, h, level);
    Rejoin(Grid(w, h, 0), Grid(w, h, level));
    Joined(HighBands(w, h, level), Subband(w, h, level - 1, 0));
    CountElems(Order(w, h, level));
    CountBelow(w * h);
  }

  lemma {:induction false} CountElems(s: seq<nat>)
    requires NoDup(s)
    ensures |Elems(s)| == |s|
  {
    if s == [] {
    } else {
      var init, last := s[..|s| - 1], s[|s| - 1];
      CountElems(init);
      assert s == init + [last];
      assert Elems(s) == Elems(init) + {last} && last !in Elems(init);
    }
  }

  lemma {:induction false} CountBelow(n: nat)
    ensures |Below(n)| == n
  {
    if n == 0 {
    } else {
      CountBelow(n - 1);
      InBelow(n - 1, n - 1);
    }
  }

  // ------------------------------------------------------------ sending

  /** A rectangle of an image whose rows are `scanline` pixels apart.  `stride` is how far apart the rows are that
      INC_PTR really walks through. */
  datatype Area = Area(width: nat, height: nat, scanline: nat, stride: nat)

  ghost predicate Proper(a: Area, len: nat) {
    0 < a.width <= a.stride <= a.scanline && a.height * a.scanline <= len
  }

  /** Everything sent so far lies in the pixels, row by row, in order. */
  ghost predicate Sent<T>(buf: seq<T>, pixels: seq<T>, order: seq<nat>, w: nat, stride: nat)
    requires w > 0
  {
    forall k :: 0 <= k < |order| ==>
      order[k] < |buf| && Pixel(k, w, stride) < |pixels| && pixels[Pixel(k, w, stride)] == buf[order[k]]
  }

  /** One of the first `n` pixels. */
  ghost predicate Among(q: nat, n: nat, w: nat, stride: nat)
    requires w > 0
  {
    exists k: nat :: k < n && Pixel(k, w, stride) == q
  }

  /** Only the first `n` pixels may have changed. */
  ghost predicate Outside<T>(pixels: seq<T>, before: seq<T>, n: nat, w: nat, stride: nat)
    requires w > 0
  {
    |pixels| == |before| && forall q: nat :: q < |pixels| && !Among(q, n, w, stride) ==> pixels[q] == before[q]
  }

  lemma OutsideMore<T>(pixels: seq<T>, before: seq<T>, n: nat, w: nat, stride: nat, c: T)
    requires w > 0 && Outside(pixels, before, n, w, stride) && Pixel(n, w, stride) < |pixels|
    ensures Outside(pixels[Pixel(n, w, stride) := c], before, n + 1, w, stride)
    ensures Outside(pixels, before, n + 1, w, stride)
  {
    hide Pixel;
    forall q: nat ensures Among(q, n, w, stride) || q == Pixel(n, w, stride) ==> Among(q, n + 1, w, stride) {
      if Among(q, n, w, stride) || q == Pixel(n, w, stride) { AmongMore(q, n, w, stride); }
    }
  }

  lemma AmongMore(q: nat, n: nat, w: nat, stride: nat)
    requires w > 0 && (Among(q, n, w, stride) || q == Pixel(n, w, stride))
    ensures Among(q, n + 1, w, stride)
  {
    hide Pixel;
    if q != Pixel(n, w, stride) {
      var k: nat :| k < n && Pixel(k, w, stride) == q;
      assert k < n + 1;
    }
  }

  /** The pointers of INC_PTR after `k` pixels.  It starts a new row of the image when `pData` is where the row began.
      When `pData` starts behind the whole rectangle, it never does. */
  ghost predicate Cursor(k: nat, a: Area, data: int, pData: int)
    requires a.width > 0
  {
    data == Pixel(k, a.width, a.stride) &&
    ((a.stride == a.scanline && pData == data - k % a.width) || (a.stride == a.width && a.height * a.width <= pData))
  }

  lemma PixelDense(k: nat, w: nat)
    requires w > 0
    ensures Pixel(k, w, w) == k
  {
    DivModDef(k, w);
  }

  /** INC_PTR. */
  method Increment(data0: nat, pData0: nat, w: nat, scanline: nat, ghost a: Area, ghost k: nat)
    returns (data: nat, pData: nat)
    requires a.width == w > 0 && a.scanline == scanline >= w && k < a.height * a.width && Cursor(k, a, data0, pData0)
    ensures Cursor(k + 1, a, data, pData)
  {
    if a.stride == a.scanline && pData0 == data0 - k % w {
      PixelStep(k, w, scanline);
      DivModDef(k, w);
      DivModDef(k + 1, w);
    } else {
      PixelDense(k, w);
      PixelDense(k + 1, w);
    }
    data, pData := data0 + 1, pData0;
    if data - pData >= w {
      data := data + (scanline - w);
      pData := data;
    }
  }

  lemma SentMore<T>(buf: seq<T>, pixels: seq<T>, order: seq<nat>, w: nat, stride: nat, p: nat)
    requires 0 < w <= stride && Sent(buf, pixels, order, w, stride)
    requires p < |buf| && Pixel(|order|, w, stride) < |pixels|
    ensures Sent(buf, pixels[Pixel(|order|, w, stride) := buf[p]], order + [p], w, stride)
    ensures NoDup(order + [p]) ==> Sent(buf[p := pixels[Pixel(|order|, w, stride)]], pixels, order + [p], w, stride)
  {
    hide Pixel;
    forall k | 0 <= k < |order|
      ensures Pixel(k, w, stride) != Pixel(|order|, w, stride)
      ensures NoDup(order + [p]) ==> order[k] != p
    {
      PixelMonotone(k, |order|, w, stride);
      assert (order + [p])[k] == order[k] && (order + [p])[|order|] == p;
    }
  }

  /** The area has pixels for all positions of `order`. */
  ghost predicate Room(order: seq<nat>, a: Area, len: nat) {
    Proper(a, len) && |order| <= a.height * a.width
  }

  lemma RoomPixel(k: nat, a: Area, len: nat)
    requires Proper(a, len) && k < a.height * a.width
    ensures Pixel(k, a.width, a.stride) < len
  {
    PixelBelow(k, a.width, a.height, a.stride);
    MulMonotone(a.stride, a.scanline, a.height);
    MulCommute(a.stride, a.height);
    MulCommute(a.scanline, a.height);
  }

  ghost predicate Progress(cells: seq<Cell>, px: seq<Cell>, px0: seq<Cell>, done: seq<nat>, a: Area, data: nat,
                           pData: nat)
    requires a.width > 0
  {
    Sent(cells, px, done, a.width, a.stride) && Outside(px, px0, |done|, a.width, a.stride) &&
    Cursor(|done|, a, data, pData)
  }

  ghost predicate AllBelow(s: seq<nat>, n: nat) { forall k :: 0 <= k < |s| ==> s[k] < n }

  lemma NoDupPrefix(a: seq<nat>, b: seq<nat>)
    requires NoDup(a + b)
    ensures NoDup(a)
  {
    forall i, j | 0 <= i < j < |a| ensures a[i] != a[j] { assert (a + b)[i] == a[i] && (a + b)[j] == a[j]; }
  }

  /** One word in the direction `pack` tells, before INC_PTR. */
  lemma ProgressMore(pack: bool, cells: seq<Cell>, px: seq<Cell>, px0: seq<Cell>, done: seq<nat>, a: Area, p: nat)
    requires a.width > 0 && Room(done + [p], a, |px|) && NoDup(done + [p]) && p < |cells|
    requires Sent(cells, px, done, a.width, a.stride) && Outside(px, px0, |done|, a.width, a.stride)
    ensures var d := Pixel(|done|, a.width, a.stride);
            d < |px| &&
            if pack
            then Sent(cells, px[d := cells[p]], done + [p], a.width, a.stride) &&
                 Outside(px[d := cells[p]], px0, |done + [p]|, a.width, a.stride)
            else Sent(cells[p := px[d]], px, done + [p], a.width, a.stride) &&
                 Outside(px, px0, |done + [p]|, a.width, a.stride)
  {
    hide Pixel, Sent, Outside, NoDup;
    RoomPixel(|done|, a, |px|);
    SentMore(cells, px, done, a.width, a.stride, p);
    OutsideMore(px, px0, |done|, a.width, a.stride, cells[p]);
  }

  /** The inner loop of ZYWRLE_TRANSFER_COEFF, and with step 1 the loop of ZYWRLE_SAVE_UNALIGN.  `pack` tells
      which way the coefficients move. */
  method TransferLine(pack: bool, buf: array<sbyte>, px: array<Cell>, pH0: nat, pLine: nat, s: nat, width: nat,
                      scanline: nat, data0: nat, pData0: nat, ghost a: Area, ghost px0: seq<Cell>, ghost sent: seq<nat>)
    returns (data: nat, pData: nat, pH: nat)
    requires s > 0 && Hits(pH0, pLine, s) && buf.Length % 4 == 0 && AllBelow(Line(pH0, pLine, s), buf.Length / 4)
    requires a.width == width && a.scanline == scanline && Room(sent + Line(pH0, pLine, s), a, px.Length)
    requires NoDup(sent + Line(pH0, pLine, s)) && Progress(Cells(buf[..]), px[..], px0, sent, a, data0, pData0)
    modifies buf, px
    ensures if pack then buf[..] == old(buf[..]) else px[..] == old(px[..])
    ensures Progress(Cells(buf[..]), px[..], px0, sent + Line(pH0, pLine, s), a, data, pData) && pH == pLine
  {
    hide Pixel, Sent, NoDup, Outside, Cells, Cursor;
    data, pData, pH := data0, pData0, pH0;
    ghost var all, done := sent + Line(pH0, pLine, s), sent;
    while pH < pLine
      invariant Hits(pH, pLine, s) && done + Line(pH, pLine, s) == all && AllBelow(Line(pH, pLine, s), buf.Length / 4)
      invariant Progress(Cells(buf[..]), px[..], px0, done, a, data, pData)
      invariant if pack then buf[..] == old(buf[..]) else px[..] == old(px[..])
      decreases pLine - pH
    {
      ghost var rest := Line(pH + s, pLine, s);
      LineFirst(all, done, pH, rest, buf.Length / 4);
      ProgressMore(pack, Cells(buf[..]), px[..], px0, done, a, pH);
      CursorPlace(|done|, a, data, pData);
      if pack {
        ghost var was := buf[..];
        px[data] := LoadCoeff(buf, pH);
        assert buf[..] == was;
      } else {
        SaveCoeff(buf, pH, px[data]);
      }
      data, pData := Increment(data, pData, width, scanline, a, |done|);
      done := done + [pH];
      pH := pH + s;
    }
    assert done == all;
  }

  lemma CursorPlace(k: nat, a: Area, data: int, pData: int)
    requires a.width > 0 && Cursor(k, a, data, pData)
    ensures data == Pixel(k, a.width, a.stride)
  {}

  lemma LineFirst(all: seq<nat>, done: seq<nat>, p: nat, rest: seq<nat>, n: nat)
    requires all == done + ([p] + rest) && AllBelow([p] + rest, n)
    ensures all == done + [p] + rest && p < n && AllBelow(rest, n) && (NoDup(all) ==> NoDup(done + [p]))
  {
    assert all == done + [p] + rest;
    if NoDup(all) { NoDupPrefix(done + [p], rest); }
    assert ([p] + rest)[0] == p;
    BelowParts([p], rest, n);
  }

  /** ZYWRLE_TRANSFER_COEFF: one subband of the w by h buffer and the pixels after those already done. */
  method TransferBand(pack: bool, buf: array<sbyte>, px: array<Cell>, w: nat, h: nat, l: nat, r: nat, width: nat,
                      scanline: nat, data0: nat, pData0: nat, ghost a: Area, ghost px0: seq<Cell>, ghost sent: seq<nat>)
    returns (data: nat, pData: nat)
    requires Aligned(w, h, l + 1) && w > 0 && r < 4 && buf.Length % 4 == 0 && w * h <= buf.Length / 4
    requires a.width == width && a.scanline == scanline && Fits(sent + Subband(w, h, l, r), a, px.Length)
    requires a.width > 0 && Progress(Cells(buf[..]), px[..], px0, sent, a, data0, pData0)
    modifies buf, px
    ensures if pack then buf[..] == old(buf[..]) else px[..] == old(px[..])
    ensures Progress(Cells(buf[..]), px[..], px0, sent + Subband(w, h, l, r), a, data, pData)
  {
    hide Progress, Line, InBand, Fits, Room, Aligned, NoDup, Cells;
    var s, pH := Pow2(l + 1), StartY(r, l) * w + StartX(r, l);
    var pEnd := pH + h * w;
    data, pData := data0, pData0;
    ghost var y, yEnd, sx := StartY(r, l), StartY(r, l) + h, StartX(r, l);
    ghost var all, done := sent + Subband(w, h, l, r), sent;
    BandBelow(w, h, l, r);
    MulDistr(StartY(r, l), h, w);
    while pH < pEnd
      invariant pH == y * w + sx && pEnd == yEnd * w + sx && done + Lines(y, yEnd, sx, w, s) == all
      invariant AllBelow(Lines(y, yEnd, sx, w, s), buf.Length / 4)
      invariant Progress(Cells(buf[..]), px[..], px0, done, a, data, pData)
      invariant if pack then buf[..] == old(buf[..]) else px[..] == old(px[..])
      decreases pEnd - pH
    {
      ghost var line, rest := Line(pH, pH + w, s), Lines(y + s, yEnd, sx, w, s);
      RowOrder(y, yEnd, w);
      LinesFirst(all, done, line, rest, a, px.Length, buf.Length / 4);
      LineHits(pH, w, h, l);
      FitsBoth(done + line, a, px.Length);
      data, pData, pH := TransferLine(pack, buf, px, pH, pH + w, s, width, scanline, data, pData, a, px0, done);
      RowAdvance(y, s, w);
      done := done + line;
      pH := pH + (s - 1) * w;
      y := y + s;
    }
    RowOrder(y, yEnd, w);
    assert done == all;
  }

  lemma LinesFirst(all: seq<nat>, done: seq<nat>, line: seq<nat>, rest: seq<nat>, a: Area, len: nat, n: nat)
    requires all == done + (line + rest) && Fits(all, a, len) && AllBelow(line + rest, n)
    ensures all == done + line + rest && Fits(done + line, a, len) && AllBelow(line, n) && AllBelow(rest, n)
  {
    hide NoDup;
    assert all == done + line + rest;
    FitsPrefix(done + line, rest, a, len);
    BelowParts(line, rest, n);
  }

  ghost predicate Fits(order: seq<nat>, a: Area, len: nat) { NoDup(order) && Room(order, a, len) }

  lemma FitsBoth(order: seq<nat>, a: Area, len: nat)
    requires Fits(order, a, len)
    ensures NoDup(order) && Room(order, a, len)
  {}

  lemma FitsPrefix(p: seq<nat>, q: seq<nat>, a: Area, len: nat)
    requires Fits(p + q, a, len)
    ensures Fits(p, a, len)
  {
    NoDupPrefix(p, q);
  }

  lemma RowOrder(y: nat, z: nat, w: nat)
    requires w > 0
    ensures y < z <==> y * w < z * w
  {
    if y < z {
      MulMonotone(y + 1, z, w);
      MulDistr(y, 1, w);
    } else {
      MulMonotone(z, y, w);
    }
  }

  lemma RowAdvance(y: nat, s: nat, w: nat)
    requires s > 0
    ensures y * w + w + (s - 1) * w == (y + s) * w && (s - 1) * w >= 0
  {
    MulStep(s, w);
    MulDistr(y, s, w);
    MulMonotone(0, s - 1, w);
  }

  lemma LineHits(pH: nat, w: nat, h: nat, l: nat)
    requires Aligned(w, h, l + 1)
    ensures Hits(pH, pH + w, Pow2(l + 1))
  {
    var s := Pow2(l + 1);
    DivModDef(w, s);
    DivNat(w, s);
    HitsMultiple(pH, w / s, s);
  }

  lemma BelowParts(a: seq<nat>, b: seq<nat>, n: nat)
    requires AllBelow(a + b, n)
    ensures AllBelow(a, n) && AllBelow(b, n)
  {
    forall k | 0 <= k < |a| ensures a[k] < n { assert (a + b)[k] == a[k]; }
    forall k | 0 <= k < |b| ensures b[k] < n { assert (a + b)[|a| + k] == b[k]; }
  }

  lemma BandBelow(w: nat, h: nat, l: nat, r: nat)
    requires Aligned(w, h, l + 1) && r < 4
    ensures AllBelow(Subband(w, h, l, r), w * h)
  {
    SubbandIsBand(w, h, l, r);
    hide Subband;
    forall k | 0 <= k < |Subband(w, h, l, r)| ensures Subband(w, h, l, r)[k] < w * h {
      assert Subband(w, h, l, r)[k] in Elems(Subband(w, h, l, r));
    }
  }

  // ------------------------------------------------------------ whole images

  /** The order in which ZYWRLE_ANALYZE fills and ZYWRLE_SYNTHESIZE empties the pixels: all subbands of the
      aligned part, then the words kept behind it for the unaligned border. */
  function FullOrder(w: nat, h: nat, uw: nat, uh: nat, level: nat): seq<nat>
    requires level > 0
  {
    Order(w, h, level) + Line(w * h, (h + uh) * (w + uw), 1)
  }

  lemma {:induction false} CountUp(p: nat, end: nat)
    ensures p <= end ==> |Line(p, end, 1)| == end - p && Hits(p, end, 1)
    ensures AllBelow(Line(p, end, 1), end)
    decreases end - p
  {
    if p >= end {
    } else {
      CountUp(p + 1, end);
    }
  }

  lemma BorderAfter(w: nat, h: nat, uw: nat, uh: nat)
    ensures w * h <= (h + uh) * (w + uw)
  {
    MulMonotone(h, h + uh, w);
    MulMonotone(w, w + uw, h + uh);
  }

  /** Every word of the buffer is sent exactly once, and there are as many pixels as words. */
  lemma FullOrderIsPermutation(w: nat, h: nat, uw: nat, uh: nat, level: nat)
    requires Aligned(w, h, level) && level > 0
    ensures var o, n := FullOrder(w, h, uw, uh, level), (h + uh) * (w + uw);
            NoDup(o) && |o| == n && forall p: nat :: p in o <==> p < n
  {
    var n, tail := (h + uh) * (w + uw), Line(w * h, (h + uh) * (w + uw), 1);
    OrderIsPermutation(w, h, level);
    BorderAfter(w, h, uw, uh);
    CountUp(w * h, n);
    LineNoDup(w * h, n, 1);
    forall p: nat ensures (p in Order(w, h, level) <==> p < w * h) && (p in tail <==> w * h <= p < n) {
      InBelow(w * h, p);
      assert p in Elems(Order(w, h, level)) <==> p in Order(w, h, level);
      LineElems(w * h, n, 1, p);
    }
    Joined(Order(w, h, level), tail);
  }

  lemma {:induction false} HighBandsPrefix(w: nat, h: nat, l: nat, level: nat) returns (suffix: seq<nat>)
    requires l <= level
    ensures HighBands(w, h, level) == HighBands(w, h, l) + suffix
    decreases level
  {
    if l == level {
      suffix := [];
    } else {
      suffix := HighBandsPrefix(w, h, l, level - 1);
      var b1, b2, b3 := Subband(w, h, level - 1, 1), Subband(w, h, level - 1, 2), Subband(w, h, level - 1, 3);
      assert HighBands(w, h, level) == HighBands(w, h, l) + (suffix + b3 + b2 + b1);
      suffix := suffix + b3 + b2 + b1;
    }
  }

  /** Where the row pointer starts: at the first pixel, or, left over from the border, behind the rectangle. */
  ghost predicate Parked(a: Area, pData: nat) {
    (a.stride == a.scanline && pData == 0) || (a.stride == a.width && a.height * a.width <= pData)
  }

  /** The transfer loops of ZYWRLE_ANALYZE (`pack`) and ZYWRLE_SYNTHESIZE. */
  method Transfer(pack: bool, buf: array<sbyte>, px: array<Cell>, w: nat, h: nat, uw: nat, uh: nat, level: nat,
                  scanline: nat, pData0: nat, ghost a: Area)
    requires Aligned(w, h, level) && level > 0 && a.width == w + uw && a.height == h + uh && a.scanline == scanline
    requires Proper(a, px.Length) && Parked(a, pData0) && buf.Length % 4 == 0 && (h + uh) * (w + uw) <= buf.Length / 4
    modifies buf, px
    ensures if pack then buf[..] == old(buf[..]) else px[..] == old(px[..])
    ensures Sent(Cells(buf[..]), px[..], FullOrder(w, h, uw, uh, level), w + uw, a.stride)
    ensures Outside(px[..], old(px[..]), (h + uh) * (w + uw), w + uw, a.stride)
  {
    hide Sent, Outside, Cursor, HighBands, Subband, NoDup, Fits, Room, Cells;
    var width, height := w + uw, h + uh;
    ghost var full, len, px0 := FullOrder(w, h, uw, uh, level), px.Length, px[..];
    FullOrderIsPermutation(w, h, uw, uh, level);
    FullFits(full, a, len);
    BorderAfter(w, h, uw, uh);
    var data, pData := 0, pData0;
    StartProgress(Cells(buf[..]), px0, a, pData);
    NoBands(w, h);
    for l := 0 to level
      invariant Progress(Cells(buf[..]), px[..], px0, HighBands(w, h, l), a, data, pData)
      invariant if pack then buf[..] == old(buf[..]) else px[..] == old(px[..])
    {
      AlignedAt(w, h, level, l + 1);
      data, pData := TransferLevel(pack, buf, px, w, h, uw, uh, l, level, scanline, data, pData, a, px0);
    }
    FitsPrefix(Order(w, h, level), Line(w * h, height * width, 1), a, len);
    data, pData := TransferBand(pack, buf, px, w, h, level - 1, 0, width, scanline, data, pData, a, px0,
                                HighBands(w, h, level));
    CountUp(w * h, height * width);
    FitsBoth(full, a, len);
    var end;
    data, pData, end := TransferLine(pack, buf, px, w * h, height * width, 1, width, scanline, data, pData, a, px0,
                                     Order(w, h, level));
  }

  /** The three high subbands of a level. */
  method TransferLevel(pack: bool, buf: array<sbyte>, px: array<Cell>, w: nat, h: nat, uw: nat, uh: nat, l: nat,
                       level: nat, scanline: nat, data0: nat, pData0: nat, ghost a: Area, ghost px0: seq<Cell>)
    returns (data: nat, pData: nat)
    requires Aligned(w, h, l + 1) && w > 0 && l < level && buf.Length % 4 == 0 && w * h <= buf.Length / 4
    requires a.width == w + uw > 0 && a.scanline == scanline && Fits(FullOrder(w, h, uw, uh, level), a, px.Length)
    requires Progress(Cells(buf[..]), px[..], px0, HighBands(w, h, l), a, data0, pData0)
    modifies buf, px
    ensures if pack then buf[..] == old(buf[..]) else px[..] == old(px[..])
    ensures Progress(Cells(buf[..]), px[..], px0, HighBands(w, h, l + 1), a, data, pData)
  {
    hide Progress, HighBands, Subband, Fits, Cells, Aligned;
    ghost var high := HighBands(w, h, l);
    ghost var b3, b2 := Subband(w, h, l, 3), Subband(w, h, l, 2);
    var width := w + uw;
    NextBands(w, h, uw, uh, l, level, a, px.Length);
    data, pData := TransferBand(pack, buf, px, w, h, l, 3, width, scanline, data0, pData0, a, px0, high);
    data, pData := TransferBand(pack, buf, px, w, h, l, 2, width, scanline, data, pData, a, px0, high + b3);
    data, pData := TransferBand(pack, buf, px, w, h, l, 1, width, scanline, data, pData, a, px0, high + b3 + b2);
  }

  lemma FullFits(full: seq<nat>, a: Area, len: nat)
    requires NoDup(full) && |full| == a.height * a.width && Proper(a, len)
    ensures Fits(full, a, len)
  {}

  lemma StartProgress(cells: seq<Cell>, px: seq<Cell>, a: Area, pData: nat)
    requires 0 < a.width && Parked(a, pData)
    ensures Progress(cells, px, px, [], a, 0, pData)
  {
    DivUnique(0, 0, 0, a.width);
  }

  lemma NoBands(w: nat, h: nat)
    ensures HighBands(w, h, 0) == []
  {}

  lemma NextBands(w: nat, h: nat, uw: nat, uh: nat, l: nat, level: nat, a: Area, len: nat)
    requires l < level && Fits(FullOrder(w, h, uw, uh, level), a, len)
    ensures var high, b3, b2, b1 := HighBands(w, h, l), Subband(w, h, l, 3), Subband(w, h, l, 2), Subband(w, h, l, 1);
            HighBands(w, h, l + 1) == high + b3 + b2 + b1 && Fits(high + b3 + b2 + b1, a, len) &&
            Fits(high + b3 + b2, a, len) && Fits(high + b3, a, len)
  {
    hide Subband, Fits;
    var high, b3, b2, b1 := HighBands(w, h, l), Subband(w, h, l, 3), Subband(w, h, l, 2), Subband(w, h, l, 1);
    var suffix := HighBandsPrefix(w, h, l + 1, level);
    var tail := suffix + Subband(w, h, level - 1, 0) + Line(w * h, (h + uh) * (w + uw), 1);
    assert FullOrder(w, h, uw, uh, level) == (high + b3 + b2 + b1) + tail;
    FitsPrefix(high + b3 + b2 + b1, tail, a, len);
    FitsPrefix(high + b3 + b2, b1, a, len);
    FitsPrefix(high + b3, b2, a, len);
  }

  /** Pixel (x, y) of the rectangle holds the word at place y * width + x of the order, if INC_PTR walked the rows of
      the image. */
  lemma PixelsFilled<T>(buf: seq<T>, px: seq<T>, w: nat, h: nat, uw: nat, uh: nat, level: nat, scanline: nat,
                        x: nat, y: nat)
    requires Aligned(w, h, level) && w > 0 && level > 0 && x < w + uw <= scanline && y < h + uh
    requires Sent(buf, px, FullOrder(w, h, uw, uh, level), w + uw, scanline)
    ensures var k, order := Place(x, y, w + uw), FullOrder(w, h, uw, uh, level);
            k < |order| && Place(x, y, scanline) < |px| && order[k] < |buf| &&
            px[Place(x, y, scanline)] == buf[order[k]]
  {
    hide FullOrder;
    FullOrderIsPermutation(w, h, uw, uh, level);
    FlatBelow(x, y, w + uw, h + uh);
    PixelAt(x, y, w + uw, scanline);
    assert Pixel(Place(x, y, w + uw), w + uw, scanline) == Place(x, y, scanline);
  }

  /** Where every word of the order goes is the pixel of the rectangle with its number. */
  ghost predicate InPlace(a: Area)
    requires a.width > 0
  {
    forall k: nat :: k < a.height * a.width ==> Pixel(k, a.width, a.stride) == Pixel(k, a.width, a.scanline)
  }

  /** With more than one row, INC_PTR fills exactly the pixels of the rectangle, each with its own word, if and only if
      it walks rows that are as far apart as those of the image. */
  lemma InPlaceExactly(a: Area)
    requires 0 < a.width <= a.stride <= a.scanline && a.height > 1
    ensures InPlace(a) <==> a.stride == a.scanline
  {
    MulAtLeast(a.height - 1, a.width);
    MulStep(a.height, a.width);
    PixelAt(0, 1, a.width, a.stride);
    PixelAt(0, 1, a.width, a.scanline);
    assert 1 * a.width == a.width && 1 * a.stride == a.stride && 1 * a.scanline == a.scanline;
    if InPlace(a) {
      assert a.width < a.height * a.width;
      assert Pixel(a.width, a.width, a.stride) == Pixel(a.width, a.width, a.scanline);
    }
  }

  lemma SameSource<T>(buf: seq<T>, other: seq<T>, px: seq<T>, order: seq<nat>, w: nat, scanline: nat)
    requires w > 0 && |buf| == |other| && forall p: nat :: p in order <==> p < |buf|
    requires Sent(buf, px, order, w, scanline) && Sent(other, px, order, w, scanline)
    ensures other == buf
  {
    hide Sent;
    forall p: nat | p < |buf| ensures other[p] == buf[p] {
      assert p in order;
      var k :| 0 <= k < |order| && order[k] == p;
      SameAt(buf, other, px, order, w, scanline, k);
    }
  }

  lemma SameAt<T>(buf: seq<T>, other: seq<T>, px: seq<T>, order: seq<nat>, w: nat, scanline: nat, k: nat)
    requires w > 0 && k < |order|
    requires Sent(buf, px, order, w, scanline) && Sent(other, px, order, w, scanline)
    ensures order[k] < |buf| && order[k] < |other| && other[order[k]] == buf[order[k]]
  {
    hide Pixel;
  }

  /** Gathering what was scattered rebuilds the whole buffer. */
  lemma GatherRebuilds<T>(buf: seq<T>, other: seq<T>, px: seq<T>, w: nat, h: nat, uw: nat, uh: nat, level: nat,
                          scanline: nat)
    requires Aligned(w, h, level) && w > 0 && level > 0 && |buf| == |other| == (h + uh) * (w + uw)
    requires Sent(buf, px, FullOrder(w, h, uw, uh, level), w + uw, scanline)
    requires Sent(other, px, FullOrder(w, h, uw, uh, level), w + uw, scanline)
    ensures other == buf
  {
    hide FullOrder, Sent, NoDup;
    FullOrderIsPermutation(w, h, uw, uh, level);
    SameSource(buf, other, px, FullOrder(w, h, uw, uh, level), w + uw, scanline);
  }
}
