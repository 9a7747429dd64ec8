/** What the wavelet transform computes, place by place: each level works on blocks of two by two coefficients of its
    grid, and leaves everything else alone. */
module ZywrleBlocks {
  import opened Arith
  import opened Rectangles
  import opened ZywrleCells
  import opened ZywrleWavelet

  // ------------------------------------------------------------ steps on disjoint pairs

  lemma {:induction false} ApplyElsewhere(b: seq<sbyte>, ps: seq<Pair>, p: nat)
    requires Inside(|b|, ps) && p < |b| && p !in Positions(ps)
    ensures Apply(b, ps)[p] == b[p]
  {
    hide Harr;
    if ps == [] {
    } else {
      ApplyElsewhere(b, Front(ps), p);
    }
  }

  lemma {:induction false} InPositions(ps: seq<Pair>, k: nat)
    requires k < |ps|
    ensures ps[k].i in Positions(ps) && ps[k].j in Positions(ps)
  {
    if k == |ps| - 1 {
    } else {
      InPositions(Front(ps), k);
    }
  }

  /** Each pair is stepped once, on what it held before. */
  lemma {:induction false} ApplyPair(b: seq<sbyte>, ps: seq<Pair>, k: nat)
    requires Inside(|b|, ps) && Disjoint(ps) && k < |ps|
    ensures (Apply(b, ps)[ps[k].i], Apply(b, ps)[ps[k].j]) == HarrPlain(b[ps[k].i], b[ps[k].j])
  {
    hide Harr, HarrPlain;
    var init, last := Front(ps), Last(ps);
    if k == |ps| - 1 {
      ApplyElsewhere(b, init, last.i);
      ApplyElsewhere(b, init, last.j);
      HarrIsPlain(b[last.i], b[last.j]);
    } else {
      ApplyPair(b, init, k);
      InPositions(init, k);
    }
  }

  // ------------------------------------------------------------ where the pairs are

  /** Two color bytes `ofs` apart, the first in the word at byte `q`. */
  function Apart(q: nat, ch: nat, ofs: nat): Pair { Pair(q + ch, q + ch + ofs) }

  /** `q` is one of the places from `p` up to `end`, `step` apart. */
  ghost predicate Steps(q: nat, p: nat, end: nat, step: nat)
    requires step > 0
  {
    p <= q < end && (q - p) % step == 0
  }

  lemma StepsNext(q: nat, p: nat, end: nat, step: nat)
    requires step > 0 && q != p
    ensures Steps(q, p, end, step) <==> Steps(q, p + step, end, step)
  {
    if q >= p + step {
      DivModDef(q - p - step, step);
      DivNat(q - p - step, step);
      MulDistr((q - p - step) / step, 1, step);
      DivUnique(q - p, (q - p - step) / step + 1, (q - p - step) % step, step);
    } else if q > p {
      DivUnique(q - p, 0, q - p, step);
    }
  }

  lemma StepsFirst(p: nat, end: nat, step: nat)
    requires step > 0 && p < end
    ensures Steps(p, p, end, step)
  {
    DivUnique(0, 0, 0, step);
  }

  lemma {:induction false} LevelHas(p: nat, end: nat, ofs: nat, q: nat, ch: nat)
    requires ofs > 0 && Steps(q, p, end, 2 * ofs) && ch < 3
    ensures Apart(q, ch, ofs) in LevelPairs(p, end, ofs)
    decreases end - p
  {
    hide Steps;
    if q == p {
      InBlock(p, ofs, ch);
      StepsBounds(q, p, end, 2 * ofs);
    } else {
      StepsBounds(q, p, end, 2 * ofs);
      StepsNext(q, p, end, 2 * ofs);
      LevelHas(p + 2 * ofs, end, ofs, q, ch);
    }
  }

  lemma StepsBounds(q: nat, p: nat, end: nat, step: nat)
    requires step > 0 && Steps(q, p, end, step)
    ensures p <= q < end
  {}

  lemma InBlock(p: nat, ofs: nat, ch: nat)
    requires ch < 3
    ensures Apart(p, ch, ofs) in Block(p, ofs)
  {
    assert Block(p, ofs)[ch] == Apart(p, ch, ofs);
  }

  lemma {:induction false} LevelOnly(p: nat, end: nat, ofs: nat, r: Pair) returns (q: nat, ch: nat)
    requires ofs > 0 && r in LevelPairs(p, end, ofs)
    ensures Steps(q, p, end, 2 * ofs) && ch < 3 && r == Apart(q, ch, ofs)
    decreases end - p
  {
    hide Steps;
    StepsFirst(p, end, 2 * ofs);
    if r in Block(p, ofs) {
      q := p;
      ch := if r == Apart(p, 0, ofs) then 0 else if r == Apart(p, 1, ofs) then 1 else 2;
    } else {
      q, ch := LevelOnly(p + 2 * ofs, end, ofs, r);
      StepsBehind(q, p, end, 2 * ofs);
    }
  }

  lemma StepsBehind(q: nat, p: nat, end: nat, step: nat)
    requires step > 0 && Steps(q, p + step, end, step)
    ensures Steps(q, p, end, step)
  {
    StepsNext(q, p, end, step);
  }

  lemma {:induction false} PassHas(top: nat, end: nat, step: nat, span: nat, ofs: nat, t: nat, q: nat, ch: nat)
    requires ofs > 0 && step > 0 && Steps(t, top, end, step) && Steps(q, 4 * t, 4 * t + span, 2 * ofs) && ch < 3
    ensures Apart(q, ch, ofs) in PassPairs(top, end, step, span, ofs)
    decreases end - top
  {
    hide Steps, LevelPairs;
    StepsBounds(t, top, end, step);
    if t == top {
      LevelHas(4 * t, 4 * t + span, ofs, q, ch);
    } else {
      StepsNext(t, top, end, step);
      PassHas(top + step, end, step, span, ofs, t, q, ch);
    }
  }

  lemma {:induction false} PassOnly(top: nat, end: nat, step: nat, span: nat, ofs: nat, r: Pair)
    returns (t: nat, q: nat, ch: nat)
    requires ofs > 0 && step > 0 && r in PassPairs(top, end, step, span, ofs)
    ensures Steps(t, top, end, step) && Steps(q, 4 * t, 4 * t + span, 2 * ofs) && ch < 3 && r == Apart(q, ch, ofs)
    decreases end - top
  {
    hide Steps, LevelPairs;
    StepsFirst(top, end, step);
    if r in LevelPairs(4 * top, 4 * top + span, ofs) {
      t := top;
      q, ch := LevelOnly(4 * top, 4 * top + span, ofs, r);
    } else {
      t, q, ch := PassOnly(top + step, end, step, span, ofs, r);
      StepsBehind(t, top, end, step);
    }
  }

  /** Color byte `ch` of the coefficient in column `x` of row `y`. */
  function Byte(x: nat, y: nat, w: nat, ch: nat): nat { 4 * Place(x, y, w) + ch }

  lemma ByteInside(x: nat, y: nat, w: nat, h: nat, ch: nat)
    requires x < w && y < h && ch < 4
    ensures Byte(x, y, w, ch) < 4 * (w * h) && 0 <= w * h
  {
    FlatBelow(x, y, w, h);
    MulCommute(w, h);
  }

  /** A byte has one column, one row and one channel. */
  lemma OneByte(x: nat, y: nat, ch: nat, x': nat, y': nat, ch': nat, w: nat)
    requires x < w && x' < w && ch < 4 && ch' < 4 && Byte(x, y, w, ch) == Byte(x', y', w, ch')
    ensures x == x' && y == y' && ch == ch'
  {
    MulMonotone(0, y, w);
    MulMonotone(0, y', w);
    DivUnique(Place(x, y, w), y, x, w);
    DivUnique(Place(x, y, w), y', x', w);
  }

  /** `a` steps of `m` are `a * k` steps of a part of it. */
  lemma StepsScaled(v: nat, m: nat, k: nat, n: nat, limit: nat)
    requires m > 0 && k > 0 && v % m == 0 && v < n && n * k <= limit
    ensures m * k > 0 && 0 <= v * k && Steps(v * k, 0, limit, m * k)
  {
    var q := v / m;
    DivModDef(v, m);
    DivNat(v, m);
    MulAtLeast(m, k);
    MulAssoc(q, m, k);
    MulDistr(v, 1, k);
    MulMonotone(v + 1, n, k);
    MulNonNegative(v, k);
    MulNonNegative(q, m * k);
    DivUnique(v * k, q, 0, m * k);
  }

  lemma StepsMoved(q: nat, end: nat, step: nat, p: nat)
    requires step > 0 && Steps(q, 0, end, step)
    ensures Steps(p + q, p, p + end, step)
  {}

  lemma NextStep(v: nat, n: nat, g: nat)
    requires g > 0 && v % (2 * g) == 0 && v < n && n % (2 * g) == 0
    ensures v % g == 0 && v + g < n && (v + g) % g == 0
  {
    DivModDef(v, 2 * g);
    DivModDef(n, 2 * g);
    DivNat(v, 2 * g);
    DivNat(n, 2 * g);
    var a, b := v / (2 * g), n / (2 * g);
    if a >= b { MulMonotone(b, a, 2 * g); }
    MulMonotone(a + 1, b, 2 * g);
    MulDistr(a, 1, 2 * g);
    MulAssoc(a, 2, g);
    MulDistr(2 * a, 1, g);
    DivUnique(v, 2 * a, 0, g);
    DivUnique(v + g, 2 * a + 1, 0, g);
  }

  // ------------------------------------------------------------ rows

  lemma RowHas(x: nat, y: nat, w: nat, h: nat, l: nat, ch: nat)
    requires Aligned(w, h, l + 1) && x < w && y < h && x % Pow2(l + 1) == 0 && y % Pow2(l) == 0 && ch < 3
    ensures x + Pow2(l) < w
    ensures Pair(Byte(x, y, w, ch), Byte(x + Pow2(l), y, w, ch)) in RowPass(w, h, l)
  {
    hide PassPairs, Stride, Span, Byte;
    var g := Pow2(l);
    assert Pow2(l + 1) == 2 * g;
    NextStep(x, w, g);
    RowSpan(w, l);
    StrideRows(w, l);
    RowHasAt(x, y, w, h, g, ch);
    RowBytes(x, y, w, g, ch);
  }

  lemma RowBytes(x: nat, y: nat, w: nat, g: nat, ch: nat)
    ensures Place(x, y, w) == y * w + x
    ensures Apart(4 * Place(x, y, w), ch, 4 * g) == Pair(Byte(x, y, w, ch), Byte(x + g, y, w, ch))
  {}

  lemma RowHasAt(x: nat, y: nat, w: nat, h: nat, g: nat, ch: nat)
    requires w > 0 && g > 0 && x < w && y < h && x % (2 * g) == 0 && y % g == 0 && ch < 3
    ensures g * w > 0 && 0 <= w * h
    ensures Apart(4 * Place(x, y, w), ch, 4 * g) in PassPairs(0, w * h, g * w, 4 * w, 4 * g)
  {
    hide PassPairs, Steps, Apart;
    RowSteps(x, y, w, h, g);
    RowBytes(x, y, w, g, ch);
    var t, q := y * w, 4 * Place(x, y, w);
    PassHas(0, w * h, g * w, 4 * w, 4 * g, t, q, ch);
  }

  lemma RowSteps(x: nat, y: nat, w: nat, h: nat, g: nat)
    requires w > 0 && g > 0 && x < w && y < h && x % (2 * g) == 0 && y % g == 0
    ensures 0 <= y * w && 0 <= w * h && g * w > 0 && Steps(y * w, 0, w * h, g * w)
    ensures Steps(4 * (y * w) + 4 * x, 4 * (y * w), 4 * (y * w) + 4 * w, 2 * (4 * g))
  {
    hide Steps;
    MulCommute(w, h);
    MulNonNegative(w, h);
    StepsScaled(y, g, w, h, w * h);
    StepsScaled(x, 2 * g, 4, w, 4 * w);
    assert x * 4 == 4 * x && 2 * g * 4 == 2 * (4 * g);
    StepsMoved(4 * x, 4 * w, 2 * (4 * g), 4 * (y * w));
  }

  lemma StepsBack(q: nat, p: nat, end: nat, step: nat)
    requires step > 0 && Steps(q, p, end, step)
    ensures q >= p && (q - p) % step == 0 && q < end
  {}

  /** What row and column the pairs of a row pass are in. */
  lemma RowOnly(w: nat, h: nat, l: nat, r: Pair) returns (x: nat, y: nat, ch: nat)
    requires Aligned(w, h, l + 1) && r in RowPass(w, h, l)
    ensures x + Pow2(l) < w && y < h && x % Pow2(l + 1) == 0 && y % Pow2(l) == 0 && ch < 3
    ensures r == Pair(Byte(x, y, w, ch), Byte(x + Pow2(l), y, w, ch))
  {
    hide PassPairs, Steps;
    var g := Pow2(l);
    assert Pow2(l + 1) == 2 * g;
    StrideRows(w, l);
    RowSpan(w, l);
    var t, q;
    t, q, ch := PassOnly(0, w * h, Stride(w, l), Span(w, l, 4 * g), 4 * g, r);
    StepsBack(t, 0, w * h, Stride(w, l));
    StepsBack(q, 4 * t, 4 * t + 4 * w, 2 * (4 * g));
    y := RowOf(t, w, h, g);
    x := ColumnOf(q - 4 * t, w, g);
    NextStep(x, w, g);
  }

  lemma RowOf(t: nat, w: nat, h: nat, g: nat) returns (y: nat)
    requires w > 0 && g > 0 && g * w > 0 && t % (g * w) == 0 && t < w * h
    ensures y < h && t == y * w && y % g == 0
  {
    var i := t / (g * w);
    DivModDef(t, g * w);
    DivNat(t, g * w);
    MulAssoc(i, g, w);
    MulNonNegative(i, g);
    y := i * g;
    DivUnique(y, i, 0, g);
    MulCommute(w, h);
    if y >= h { MulMonotone(h, y, w); }
  }

  lemma ColumnOf(d: nat, w: nat, g: nat) returns (x: nat)
    requires g > 0 && d % (2 * (4 * g)) == 0 && d < 4 * w
    ensures x < w && d == 4 * x && x % (2 * g) == 0
  {
    var i := d / (2 * (4 * g));
    DivModDef(d, 2 * (4 * g));
    DivNat(d, 2 * (4 * g));
    MulNonNegative(i, 2 * g);
    x := i * (2 * g);
    MulAssoc(i, 2 * g, 4);
    DivUnique(x, i, 0, 2 * g);
  }

  /** A row pass puts the two results of a step where its operands were. */
  lemma RowsAt(b: seq<sbyte>, x: nat, y: nat, w: nat, h: nat, l: nat, ch: nat)
    requires Aligned(w, h, l + 1) && |b| == 4 * (w * h) && x < w && y < h && ch < 3
    requires x % Pow2(l + 1) == 0 && y % Pow2(l) == 0
    ensures x + Pow2(l) < w && Byte(x, y, w, ch) < |b| && Byte(x + Pow2(l), y, w, ch) < |b|
    ensures var i, j := Byte(x, y, w, ch), Byte(x + Pow2(l), y, w, ch);
            (Rows(b, w, h, l)[i], Rows(b, w, h, l)[j]) == HarrPlain(b[i], b[j])
  {
    hide RowPass, HarrPlain, Apply, Byte;
    RowHas(x, y, w, h, l, ch);
    ByteInside(x, y, w, h, ch);
    ByteInside(x + Pow2(l), y, w, h, ch);
    PassesSound(w, h, l);
    var ps := RowPass(w, h, l);
    var k :| 0 <= k < |ps| && ps[k] == Pair(Byte(x, y, w, ch), Byte(x + Pow2(l), y, w, ch));
    ApplyPair(b, ps, k);
  }

  /** Everything off the grid of the level stays. */
  lemma RowsElsewhere(b: seq<sbyte>, x: nat, y: nat, w: nat, h: nat, l: nat, ch: nat)
    requires Aligned(w, h, l + 1) && |b| == 4 * (w * h) && x < w && y < h && ch < 3
    requires x % Pow2(l) != 0 || y % Pow2(l) != 0
    ensures Byte(x, y, w, ch) < |b| && Rows(b, w, h, l)[Byte(x, y, w, ch)] == b[Byte(x, y, w, ch)]
  {
    hide RowPass, Apply, Byte;
    ByteInside(x, y, w, h, ch);
    PassesSound(w, h, l);
    var ps, p := RowPass(w, h, l), Byte(x, y, w, ch);
    if p in Positions(ps) {
      var k := PositionsIndex(ps, p);
      var x', y', ch' := RowOnly(w, h, l, ps[k]);
      assert Pow2(l + 1) == 2 * Pow2(l);
      NextStep(x', w, Pow2(l));
      if ps[k].i == p { OneByte(x, y, ch, x', y', ch', w); } else { OneByte(x, y, ch, x' + Pow2(l), y', ch', w); }
      assert false;
    }
    ApplyElsewhere(b, ps, p);
  }

  // ------------------------------------------------------------ columns

  lemma ColHas(x: nat, y: nat, w: nat, h: nat, l: nat, ch: nat)
    requires Aligned(w, h, l + 1) && x < w && y < h && x % Pow2(l) == 0 && y % Pow2(l + 1) == 0 && ch < 3
    ensures y + Pow2(l) < h
    ensures Pair(Byte(x, y, w, ch), Byte(x, y + Pow2(l), w, ch)) in ColPass(w, h, l)
  {
    hide PassPairs, Steps;
    var g, ofs := Pow2(l), 4 * Stride(w, l);
    assert Pow2(l + 1) == 2 * g;
    NextStep(y, h, g);
    StrideRows(w, l);
    ColSpan(w, h, l);
    StepsScaled(x, g, 1, w, w);
    assert x * 1 == x && g * 1 == g;
    ColumnSteps(y, w, h, g, ofs);
    StepsMoved(4 * (y * w), 4 * (w * h), 2 * ofs, 4 * x);
    PassHas(0, w, g, Span(h, l, ofs), ofs, x, 4 * x + 4 * (y * w), ch);
    MulDistr(y, g, w);
    assert Apart(4 * x + 4 * (y * w), ch, ofs) == Pair(Byte(x, y, w, ch), Byte(x, y + g, w, ch));
  }

  lemma ColumnSteps(y: nat, w: nat, h: nat, g: nat, ofs: nat)
    requires w > 0 && g > 0 && y < h && y % (2 * g) == 0 && ofs == 4 * (g * w)
    ensures ofs > 0 && 0 <= y * w && 0 <= w * h && Steps(4 * (y * w), 0, 4 * (w * h), 2 * ofs)
  {
    MulCommute(w, h);
    MulNonNegative(w, h);
    MulNonNegative(y, w);
    MulAtLeast(g, w);
    MulAssoc(2, g, w);
    StepsScaled(y, 2 * g, w, h, w * h);
    var k := y * w / (2 * g * w);
    DivModDef(y * w, 2 * g * w);
    DivNat(y * w, 2 * g * w);
    MulAssoc(k, 2 * g * w, 4);
    DivUnique(4 * (y * w), k, 0, 2 * ofs);
  }

  lemma ColOnly(w: nat, h: nat, l: nat, r: Pair) returns (x: nat, y: nat, ch: nat)
    requires Aligned(w, h, l + 1) && r in ColPass(w, h, l)
    ensures x < w && y + Pow2(l) < h && x % Pow2(l) == 0 && y % Pow2(l + 1) == 0 && ch < 3
    ensures r == Pair(Byte(x, y, w, ch), Byte(x, y + Pow2(l), w, ch))
  {
    hide PassPairs, Steps;
    var g, ofs := Pow2(l), 4 * Stride(w, l);
    assert Pow2(l + 1) == 2 * g;
    StrideRows(w, l);
    ColSpan(w, h, l);
    var q;
    x, q, ch := PassOnly(0, w, g, Span(h, l, ofs), ofs, r);
    StepsBack(x, 0, w, g);
    StepsBack(q, 4 * x, 4 * x + 4 * (w * h), 2 * ofs);
    y := HeightOf(q - 4 * x, w, h, g, ofs);
    NextStep(y, h, g);
    MulDistr(y, g, w);
  }

  lemma HeightOf(d: nat, w: nat, h: nat, g: nat, ofs: nat) returns (y: nat)
    requires w > 0 && g > 0 && ofs == 4 * (g * w) > 0 && d % (2 * ofs) == 0 && d < 4 * (w * h)
    ensures y < h && d == 4 * (y * w) && y % (2 * g) == 0
  {
    var i := d / (2 * ofs);
    DivModDef(d, 2 * ofs);
    DivNat(d, 2 * ofs);
    MulNonNegative(i, 2 * g);
    y := i * (2 * g);
    DivUnique(y, i, 0, 2 * g);
    MulAssoc(i, 2 * g, w);
    MulAssoc(2, g, w);
    MulAssoc(i, 4, 2 * g * w);
    MulCommute(i, 4);
    MulAssoc(4, i, 2 * g * w);
    MulCommute(w, h);
    if y >= h { MulMonotone(h, y, w); }
  }

  lemma ColsAt(b: seq<sbyte>, x: nat, y: nat, w: nat, h: nat, l: nat, ch: nat)
    requires Aligned(w, h, l + 1) && |b| == 4 * (w * h) && x < w && y < h && ch < 3
    requires x % Pow2(l) == 0 && y % Pow2(l + 1) == 0
    ensures y + Pow2(l) < h && Byte(x, y, w, ch) < |b| && Byte(x, y + Pow2(l), w, ch) < |b|
    ensures var i, j := Byte(x, y, w, ch), Byte(x, y + Pow2(l), w, ch);
            (Cols(b, w, h, l)[i], Cols(b, w, h, l)[j]) == HarrPlain(b[i], b[j])
  {
    hide ColPass, HarrPlain, Apply, Byte;
    ColHas(x, y, w, h, l, ch);
    ByteInside(x, y, w, h, ch);
    ByteInside(x, y + Pow2(l), w, h, ch);
    PassesSound(w, h, l);
    var ps := ColPass(w, h, l);
    var k :| 0 <= k < |ps| && ps[k] == Pair(Byte(x, y, w, ch), Byte(x, y + Pow2(l), w, ch));
    ApplyPair(b, ps, k);
  }

  lemma ColsElsewhere(b: seq<sbyte>, x: nat, y: nat, w: nat, h: nat, l: nat, ch: nat)
    requires Aligned(w, h, l + 1) && |b| == 4 * (w * h) && x < w && y < h && ch < 3
    requires x % Pow2(l) != 0 || y % Pow2(l) != 0
    ensures Byte(x, y, w, ch) < |b| && Cols(b, w, h, l)[Byte(x, y, w, ch)] == b[Byte(x, y, w, ch)]
  {
    hide ColPass, Apply, Byte;
    ByteInside(x, y, w, h, ch);
    PassesSound(w, h, l);
    var ps, p := ColPass(w, h, l), Byte(x, y, w, ch);
    if p in Positions(ps) {
      var k := PositionsIndex(ps, p);
      var x', y', ch' := ColOnly(w, h, l, ps[k]);
      assert Pow2(l + 1) == 2 * Pow2(l);
      NextStep(y', h, Pow2(l));
      if ps[k].i == p { OneByte(x, y, ch, x', y', ch', w); } else { OneByte(x, y, ch, x', y' + Pow2(l), ch', w); }
      assert false;
    }
    ApplyElsewhere(b, ps, p);
  }

  // ------------------------------------------------------------ one level

  /** The four corners of a block. */
  datatype Corners = Corners(a: sbyte, b: sbyte, c: sbyte, d: sbyte)

  /** Color byte `ch` of the block with its upper left corner at (x, y), `g` coefficients apart. */
  function Block4(s: seq<sbyte>, x: nat, y: nat, g: nat, w: nat, h: nat, ch: nat): Corners
    requires x + g < w && y + g < h && ch < 3 && |s| == 4 * (w * h)
  {
    ByteInside(x, y, w, h, ch);
    ByteInside(x + g, y, w, h, ch);
    ByteInside(x, y + g, w, h, ch);
    ByteInside(x + g, y + g, w, h, ch);
    Corners(s[Byte(x, y, w, ch)], s[Byte(x + g, y, w, ch)], s[Byte(x, y + g, w, ch)], s[Byte(x + g, y + g, w, ch)])
  }

  /** The subbands of a block: its rows are stepped first, then its columns. */
  function Split(q: Corners): Corners {
    var (l0, h0) := HarrPlain(q.a, q.b);
    var (l1, h1) := HarrPlain(q.c, q.d);
    var (ll, lh) := HarrPlain(l0, l1);
    var (hl, hh) := HarrPlain(h0, h1);
    Corners(ll, hl, lh, hh)
  }

  /** Columns first, then rows. */
  function Merge(q: Corners): Corners {
    var (l0, l1) := HarrPlain(q.a, q.c);
    var (h0, h1) := HarrPlain(q.b, q.d);
    var (a, b) := HarrPlain(l0, h0);
    var (c, d) := HarrPlain(l1, h1);
    Corners(a, b, c, d)
  }

  lemma OnGrid(x: nat, y: nat, w: nat, h: nat, l: nat)
    requires Aligned(w, h, l + 1) && x < w && y < h && x % Pow2(l + 1) == 0 && y % Pow2(l + 1) == 0
    ensures var g := Pow2(l); x + g < w && y + g < h && x % g == 0 && y % g == 0 && (x + g) % g == 0 && (y + g) % g == 0
  {
    assert Pow2(l + 1) == 2 * Pow2(l);
    NextStep(x, w, Pow2(l));
    NextStep(y, h, Pow2(l));
  }

  /** A level of the forward transform puts the four subband values of every block in its corners. */
  lemma BlockSplits(b: seq<sbyte>, x: nat, y: nat, w: nat, h: nat, l: nat, ch: nat)
    requires Aligned(w, h, l + 1) && |b| == 4 * (w * h) && x < w && y < h && ch < 3
    requires x % Pow2(l + 1) == 0 && y % Pow2(l + 1) == 0
    ensures x + Pow2(l) < w && y + Pow2(l) < h
    ensures Block4(Cols(Rows(b, w, h, l), w, h, l), x, y, Pow2(l), w, h, ch) ==
            Split(Block4(b, x, y, Pow2(l), w, h, ch))
  {
    hide Rows, Cols, HarrPlain, Pow2, Byte, Aligned;
    var g, r := Pow2(l), Rows(b, w, h, l);
    OnGrid(x, y, w, h, l);
    RowsAt(b, x, y, w, h, l, ch);
    RowsAt(b, x, y + g, w, h, l, ch);
    ColsAt(r, x, y, w, h, l, ch);
    ColsAt(r, x + g, y, w, h, l, ch);
  }

  /** And a level of the inverse transform puts them together again. */
  lemma BlockMerges(b: seq<sbyte>, x: nat, y: nat, w: nat, h: nat, l: nat, ch: nat)
    requires Aligned(w, h, l + 1) && |b| == 4 * (w * h) && x < w && y < h && ch < 3
    requires x % Pow2(l + 1) == 0 && y % Pow2(l + 1) == 0
    ensures x + Pow2(l) < w && y + Pow2(l) < h
    ensures Block4(Rows(Cols(b, w, h, l), w, h, l), x, y, Pow2(l), w, h, ch) ==
            Merge(Block4(b, x, y, Pow2(l), w, h, ch))
  {
    hide Rows, Cols, HarrPlain, Pow2, Byte, Aligned;
    var g, r := Pow2(l), Cols(b, w, h, l);
    OnGrid(x, y, w, h, l);
    ColsAt(b, x, y, w, h, l, ch);
    ColsAt(b, x + g, y, w, h, l, ch);
    RowsAt(r, x, y, w, h, l, ch);
    RowsAt(r, x, y + g, w, h, l, ch);
  }

  /** Off its grid a level changes nothing. */
  lemma LevelElsewhere(b: seq<sbyte>, x: nat, y: nat, w: nat, h: nat, l: nat, ch: nat)
    requires Aligned(w, h, l + 1) && |b| == 4 * (w * h) && x < w && y < h && ch < 3
    requires x % Pow2(l) != 0 || y % Pow2(l) != 0
    ensures var p := Byte(x, y, w, ch);
            p < |b| && Cols(Rows(b, w, h, l), w, h, l)[p] == Rows(Cols(b, w, h, l), w, h, l)[p] == b[p]
  {
    hide Rows, Cols, Pow2, Byte, Aligned;
    RowsElsewhere(b, x, y, w, h, l, ch);
    ColsElsewhere(Rows(b, w, h, l), x, y, w, h, l, ch);
    ColsElsewhere(b, x, y, w, h, l, ch);
    RowsElsewhere(Cols(b, w, h, l), x, y, w, h, l, ch);
  }

  // ------------------------------------------------------------ a channel of one value

  /** What is left of a channel that is `c` everywhere, after `level` levels. */
  function Remains(c: sbyte, x: nat, y: nat, level: nat): sbyte {
    if x % Pow2(level) == 0 && y % Pow2(level) == 0 then c else 0
  }

  ghost predicate Uniform(b: seq<sbyte>, ch: nat, c: sbyte, w: nat, h: nat, level: nat) {
    |b| == 4 * (w * h) && ch < 3 &&
    forall x: nat, y: nat :: x < w && y < h ==>
      Byte(x, y, w, ch) < |b| && b[Byte(x, y, w, ch)] == Remains(c, x, y, level)
  }

  lemma ConstantBlock(c: sbyte)
    ensures Split(Corners(c, c, c, c)) == Corners(c, 0, 0, 0)
  {}

  /** The corner of the block a place of the grid belongs to. */
  lemma BlockOf(v: nat, n: nat, g: nat) returns (v0: nat)
    requires g > 0 && v % g == 0 && v < n && n % (2 * g) == 0
    ensures v0 < n && v0 % (2 * g) == 0 && (v == v0 || v == v0 + g)
    ensures v % (2 * g) == 0 <==> v == v0
  {
    DivModDef(v, 2 * g);
    DivNat(v, 2 * g);
    var q, r := v / (2 * g), v % (2 * g);
    v0 := q * (2 * g);
    DivUnique(v0, q, 0, 2 * g);
    DivModDef(v, g);
    DivNat(v, g);
    MulAssoc(q, 2, g);
    MulDistr(v / g, 2 * q, g);
    var k := v / g - 2 * q;
    if k >= 2 { MulMonotone(2, k, g); }
    if k < 0 { MulMonotone(1, -k, g); MulDistr(0, k, g); }
  }

  lemma ConstantStep(b: seq<sbyte>, ch: nat, c: sbyte, x: nat, y: nat, w: nat, h: nat, l: nat)
    requires Aligned(w, h, l + 1) && Uniform(b, ch, c, w, h, l) && x < w && y < h
    ensures var p := Byte(x, y, w, ch); p < |b| && Cols(Rows(b, w, h, l), w, h, l)[p] == Remains(c, x, y, l + 1)
  {
    hide Rows, Cols, Split, Byte;
    var g, next := Pow2(l), Cols(Rows(b, w, h, l), w, h, l);
    assert Pow2(l + 1) == 2 * g;
    if x % g != 0 || y % g != 0 {
      LevelElsewhere(b, x, y, w, h, l, ch);
      if x % g != 0 { OffGrid(x, g); } else { OffGrid(y, g); }
    } else {
      var x0 := BlockOf(x, w, g);
      var y0 := BlockOf(y, h, g);
      OnGrid(x0, y0, w, h, l);
      BlockSplits(b, x0, y0, w, h, l, ch);
      ConstantBlock(c);
      assert Block4(b, x0, y0, g, w, h, ch) == Corners(c, c, c, c);
      assert Block4(next, x0, y0, g, w, h, ch) == Corners(c, 0, 0, 0);
      ByteInside(x, y, w, h, ch);
    }
  }

  lemma OffGrid(v: nat, g: nat)
    requires g > 0 && v % g != 0
    ensures v % (2 * g) != 0
  {
    if v % (2 * g) == 0 {
      DivModDef(v, 2 * g);
      DivNat(v, 2 * g);
      MulAssoc(v / (2 * g), 2, g);
      DivUnique(v, v / (2 * g) * 2, 0, g);
    }
  }

  /** A channel of one value keeps it on the last grid, and is zero everywhere else. */
  lemma {:induction false} ForwardConstant(b: seq<sbyte>, ch: nat, c: sbyte, w: nat, h: nat, level: nat)
    requires Aligned(w, h, level) && Uniform(b, ch, c, w, h, 0)
    ensures Uniform(Forward(b, w, h, level), ch, c, w, h, level)
  {
    hide Rows, Cols, Remains, Byte;
    if level == 0 {
    } else {
      AlignedAt(w, h, level, level - 1);
      ForwardConstant(b, ch, c, w, h, level - 1);
      var f := Forward(b, w, h, level - 1);
      forall x: nat, y: nat | x < w && y < h
        ensures Byte(x, y, w, ch) < |b| && Forward(b, w, h, level)[Byte(x, y, w, ch)] == Remains(c, x, y, level)
      {
        ConstantStep(f, ch, c, x, y, w, h, level - 1);
      }
    }
  }
}
