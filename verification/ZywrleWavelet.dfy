/** ZYWRLE's in-place wavelet transform: a piecewise-linear Haar step on pairs of signed bytes, run over
    the rows and columns of a coefficient buffer level by level, and undone by the same steps. */
module ZywrleWavelet {
  import opened Arith
  import opened Rectangles
  import opened ZywrleCells

  // ------------------------------------------------------------ one step

  /** Bit 7 of a two's complement integer. */
  predicate Bit7(n: int) { n % 256 >= 128 }

  function ToSByte(n: int): sbyte { (n + 128) % 256 - 128 }

  /** The two bytes `Harr` writes for the two it reads. */
  function Harr(org0: sbyte, org1: sbyte): (sbyte, sbyte) {
    if Bit7(org0) != Bit7(org1) then
      var x1 := org1 as int + org0;
      var x0 := if Bit7(x1) == Bit7(org1) then org0 as int - x1 else org0;
      (ToSByte(x1), ToSByte(x0))
    else
      var x0 := org0 as int - org1;
      var x1 := if Bit7(x0) == Bit7(org0) then org1 as int + x0 else org1;
      (ToSByte(x1), ToSByte(x0))
  }

  predicate Odd7(x: sbyte) { -127 <= x }

  lemma ByteSign(n: int)
    requires -128 <= n < 128
    ensures (Bit7(n) <==> n < 0) && ToSByte(n) == n
  {}

  /** The step without machine words: opposite signs keep the sum, equal signs the value of larger
      magnitude, next to what is needed to get the other one back. */
  function HarrPlain(x0: sbyte, x1: sbyte): (sbyte, sbyte) {
    if (x0 < 0) != (x1 < 0) then
      (x0 + x1, if (x0 + x1 < 0) != (x1 < 0) then x0 else if x1 == -128 then -128 else -x1)
    else
      (if (x0 - x1 < 0) == (x0 < 0) then x0 else x1, x0 - x1)
  }

  lemma HarrIsPlain(x0: sbyte, x1: sbyte)
    ensures Harr(x0, x1) == HarrPlain(x0, x1)
  {
    ByteSign(x0);
    ByteSign(x1);
    if (x0 < 0) != (x1 < 0) {
      ByteSign(x0 + x1);
      if x1 != -128 { ByteSign(-x1); }
    } else {
      ByteSign(x0 - x1);
    }
    hide Bit7;
  }

  /** The step undoes itself, except where the second byte is -128 and the first is not negative. */
  lemma HarrTwice(x0: sbyte, x1: sbyte)
    ensures var (y0, y1) := Harr(x0, x1); Harr(y0, y1) == (x0, x1) <==> !(x0 >= 0 && x1 == -128)
  {
    HarrIsPlain(x0, x1);
    HarrIsPlain(Harr(x0, x1).0, Harr(x0, x1).1);
    hide Harr;
  }

  /** It never leaves the odd range -127..127. */
  lemma HarrClosed(x0: sbyte, x1: sbyte)
    requires Odd7(x0) && Odd7(x1)
    ensures var (y0, y1) := Harr(x0, x1); Odd7(y0) && Odd7(y1)
  {
    HarrIsPlain(x0, x1);
    hide Harr;
  }

  // ------------------------------------------------------------ many steps

  /** Two positions in the buffer that one step works on. */
  datatype Pair = Pair(i: nat, j: nat)

  predicate Inside(n: nat, ps: seq<Pair>) {
    forall k :: 0 <= k < |ps| ==> ps[k].i < n && ps[k].j < n && ps[k].i != ps[k].j
  }

  function HarrAt(b: seq<sbyte>, p: Pair): (r: seq<sbyte>)
    requires p.i < |b| && p.j < |b| && p.i != p.j
    ensures |r| == |b|
  {
    var (y0, y1) := Harr(b[p.i], b[p.j]);
    b[p.i := y0][p.j := y1]
  }

  function Front<T>(s: seq<T>): seq<T>
    requires s != []
  { s[..|s| - 1] }

  function Last<T>(s: seq<T>): T
    requires s != []
  { s[|s| - 1] }

  /** The steps of `ps`, first to last. */
  function Apply(b: seq<sbyte>, ps: seq<Pair>): (r: seq<sbyte>)
    requires Inside(|b|, ps)
    ensures |r| == |b|
  {
    if ps == [] then b else HarrAt(Apply(b, Front(ps)), Last(ps))
  }

  ghost function Positions(ps: seq<Pair>): set<nat> {
    if ps == [] then {} else Positions(Front(ps)) + {Last(ps).i, Last(ps).j}
  }

  /** No position belongs to two pairs. */
  ghost predicate Disjoint(ps: seq<Pair>) {
    ps == [] || (Disjoint(Front(ps)) && Last(ps).i != Last(ps).j && Last(ps).i !in Positions(Front(ps)) &&
                 Last(ps).j !in Positions(Front(ps)))
  }

  /** Every color byte is in the odd range; the fourth byte of a coefficient takes no part. */
  ghost predicate AllOdd7(b: seq<sbyte>) {
    forall p :: 0 <= p < |b| && p % 4 != 3 ==> Odd7(b[p])
  }

  ghost predicate ColorBytes(ps: seq<Pair>) {
    forall k :: 0 <= k < |ps| ==> ps[k].i % 4 != 3 && ps[k].j % 4 != 3
  }

  lemma {:induction false} ApplyClosed(b: seq<sbyte>, ps: seq<Pair>)
    requires Inside(|b|, ps) && ColorBytes(ps) && AllOdd7(b)
    ensures AllOdd7(Apply(b, ps))
  {
    if ps == [] {
    } else {
      ApplyClosed(b, Front(ps));
      var c, p := Apply(b, Front(ps)), Last(ps);
      HarrClosed(c[p.i], c[p.j]);
    }
  }

  lemma HarrAtTwice(b: seq<sbyte>, p: Pair)
    requires p.i < |b| && p.j < |b| && p.i != p.j && Odd7(b[p.i]) && Odd7(b[p.j])
    ensures HarrAt(HarrAt(b, p), p) == b
  {
    HarrTwice(b[p.i], b[p.j]);
  }

  /** Steps on other positions do not matter to a step. */
  lemma {:induction false} Commute(b: seq<sbyte>, ps: seq<Pair>, q: Pair)
    requires Inside(|b|, ps) && q.i < |b| && q.j < |b| && q.i != q.j
    requires q.i !in Positions(ps) && q.j !in Positions(ps)
    ensures Apply(HarrAt(b, q), ps) == HarrAt(Apply(b, ps), q)
  {
    hide Harr;
    if ps == [] {
    } else {
      Commute(b, Front(ps), q);
    }
  }

  /** Steps on disjoint pairs, taken twice, change nothing. */
  lemma {:induction false} ApplyTwice(b: seq<sbyte>, ps: seq<Pair>)
    requires Inside(|b|, ps) && ColorBytes(ps) && Disjoint(ps) && AllOdd7(b)
    ensures Apply(Apply(b, ps), ps) == b
  {
    if ps == [] {
    } else {
      hide Harr;
      var f, q := Front(ps), Last(ps);
      Commute(Apply(b, f), f, q);
      ApplyTwice(b, f);
      HarrAtTwice(b, q);
    }
  }

  lemma {:induction false} ApplyJoin(b: seq<sbyte>, ps: seq<Pair>, qs: seq<Pair>)
    requires Inside(|b|, ps) && Inside(|b|, qs)
    ensures Inside(|b|, ps + qs) && Apply(b, ps + qs) == Apply(Apply(b, ps), qs)
  {
    hide Harr;
    if qs == [] {
      assert ps + qs == ps;
    } else {
      ApplyJoin(b, ps, Front(qs));
      assert Front(ps + qs) == ps + Front(qs) && Last(ps + qs) == Last(qs);
    }
  }

  lemma {:induction false} DisjointJoin(ps: seq<Pair>, qs: seq<Pair>)
    requires Disjoint(ps) && Disjoint(qs) && Positions(ps) !! Positions(qs)
    ensures Disjoint(ps + qs) && Positions(ps + qs) == Positions(ps) + Positions(qs)
  {
    if qs == [] {
      assert ps + qs == ps;
    } else {
      DisjointJoin(ps, Front(qs));
      assert Front(ps + qs) == ps + Front(qs) && Last(ps + qs) == Last(qs);
    }
  }

  // ------------------------------------------------------------ where the steps are

  /** The three color bytes of two coefficients `ofs` bytes apart. */
  function Block(p: nat, ofs: nat): seq<Pair> {
    [Pair(p, p + ofs), Pair(p + 1, p + 1 + ofs), Pair(p + 2, p + 2 + ofs)]
  }

  /** One run of WaveletLevel, from byte `p` up to `end`. */
  function LevelPairs(p: nat, end: nat, ofs: nat): seq<Pair>
    requires ofs > 0
    decreases end - p
  {
    if p >= end then [] else Block(p, ofs) + LevelPairs(p + 2 * ofs, end, ofs)
  }

  /** One pass: a run of `span` bytes from every `step`-th coefficient. */
  function PassPairs(top: nat, end: nat, step: nat, span: nat, ofs: nat): seq<Pair>
    requires ofs > 0 && step > 0
    decreases end - top
  {
    if top >= end then [] else LevelPairs(4 * top, 4 * top + span, ofs) + PassPairs(top + step, end, step, span, ofs)
  }

  ghost predicate Within(ps: seq<Pair>, lo: nat, hi: nat) {
    forall k :: 0 <= k < |ps| ==>
      lo <= ps[k].i < hi && lo <= ps[k].j < hi && ps[k].i != ps[k].j && ps[k].i % 4 != 3 && ps[k].j % 4 != 3
  }

  ghost predicate ColumnsIn(ps: seq<Pair>, w: nat, lo: nat, hi: nat)
    requires w > 0
  {
    forall k :: 0 <= k < |ps| ==> lo <= ps[k].i / 4 % w < hi && lo <= ps[k].j / 4 % w < hi
  }

  lemma {:induction false} PositionsIndex(ps: seq<Pair>, p: nat) returns (k: nat)
    requires p in Positions(ps)
    ensures k < |ps| && (ps[k].i == p || ps[k].j == p)
  {
    if p == Last(ps).i || p == Last(ps).j { k := |ps| - 1; } else { k := PositionsIndex(Front(ps), p); }
  }

  lemma WithinJoin(ps: seq<Pair>, qs: seq<Pair>, lo: nat, mid: nat, hi: nat)
    requires Within(ps, lo, mid) && Within(qs, mid, hi) && lo <= mid <= hi && Disjoint(ps) && Disjoint(qs)
    ensures Within(ps + qs, lo, hi) && Disjoint(ps + qs)
  {
    forall p | p in Positions(ps) && p in Positions(qs) ensures false {
      var k := PositionsIndex(ps, p);
      var l := PositionsIndex(qs, p);
    }
    DisjointJoin(ps, qs);
  }

  lemma ColumnsJoin(ps: seq<Pair>, qs: seq<Pair>, w: nat, lo: nat, mid: nat, hi: nat)
    requires w > 0 && ColumnsIn(ps, w, lo, mid) && ColumnsIn(qs, w, mid, hi) && lo <= mid <= hi && Disjoint(ps) &&
             Disjoint(qs)
    ensures ColumnsIn(ps + qs, w, lo, hi) && Disjoint(ps + qs)
  {
    forall p | p in Positions(ps) && p in Positions(qs) ensures false {
      var k := PositionsIndex(ps, p);
      var l := PositionsIndex(qs, p);
    }
    DisjointJoin(ps, qs);
  }

  lemma BlockDisjoint(p: nat, ofs: nat)
    requires p % 4 == 0 && ofs % 4 == 0 && ofs >= 4
    ensures Within(Block(p, ofs), p, p + 2 * ofs) && Disjoint(Block(p, ofs))
  {
    var a, b, c := Pair(p, p + ofs), Pair(p + 1, p + 1 + ofs), Pair(p + 2, p + 2 + ofs);
    assert Front([a, b, c]) == [a, b] && Front([a, b]) == [a] && Front([a]) == [];
    assert Positions([a]) == {a.i, a.j} && Disjoint([a]);
    assert Positions([a, b]) == {a.i, a.j, b.i, b.j} && Disjoint([a, b]);
  }

  lemma {:induction false} LevelDisjoint(p: nat, end: nat, ofs: nat)
    requires p % 4 == 0 && ofs % 4 == 0 && ofs >= 4 && Hits(p, end, 2 * ofs)
    ensures Within(LevelPairs(p, end, ofs), p, end) && Disjoint(LevelPairs(p, end, ofs))
    decreases end - p
  {
    hide Within, Disjoint, Block;
    if p >= end {
      NoPairs(p, end);
    } else {
      BlockDisjoint(p, ofs);
      LevelDisjoint(p + 2 * ofs, end, ofs);
      WithinJoin(Block(p, ofs), LevelPairs(p + 2 * ofs, end, ofs), p, p + 2 * ofs, end);
    }
  }

  lemma NoPairs(lo: nat, hi: nat)
    ensures Within([], lo, hi) && Disjoint([])
  {}

  lemma WithinWider(ps: seq<Pair>, lo: nat, mid: nat, hi: nat)
    requires Within(ps, lo, mid) && mid <= hi
    ensures Within(ps, lo, hi)
  {}

  /** A pass whose runs end before the next one starts. */
  lemma {:induction false} RowsDisjoint(top: nat, end: nat, step: nat, span: nat, ofs: nat)
    requires ofs % 4 == 0 && ofs >= 4 && Hits(0, span, 2 * ofs) && span <= 4 * step && Hits(top, end, step) && step > 0
    ensures var ps := PassPairs(top, end, step, span, ofs); Within(ps, 4 * top, 4 * end) && Disjoint(ps)
    decreases end - top
  {
    hide Within, Disjoint, LevelPairs;
    if top >= end {
      NoPairs(4 * top, 4 * end);
    } else {
      var run := LevelPairs(4 * top, 4 * top + span, ofs);
      HitsShift(0, span, 2 * ofs, 4 * top);
      LevelDisjoint(4 * top, 4 * top + span, ofs);
      RowsDisjoint(top + step, end, step, span, ofs);
      WithinWider(run, 4 * top, 4 * top + span, 4 * (top + step));
      WithinJoin(run, PassPairs(top + step, end, step, span, ofs), 4 * top, 4 * (top + step), 4 * end);
    }
  }

  /** The pairs of a run down column `x` from row `y`, in blocks of `2 * g` rows, stay in that column. */
  lemma {:induction false} ColumnRun(x: nat, y: nat, w: nat, g: nat, p: nat, end: nat)
    requires x < w && g >= 1 && p == 4 * (x + y * w) && g * w > 0
    ensures ColumnsIn(LevelPairs(p, end, 4 * (g * w)), w, x, x + 1)
    decreases end - p
  {
    if p >= end {
    } else {
      var ofs := 4 * (g * w);
      MulDistr(y, g, w);
      MulDistr(y + g, g, w);
      ColumnRun(x, y + 2 * g, w, g, p + 2 * ofs, end);
      DivUnique(x + y * w, y, x, w);
      DivUnique(x + (y + g) * w, y + g, x, w);
      BlockColumn(x, w, p, ofs);
    }
  }

  lemma ColumnsWider(ps: seq<Pair>, w: nat, lo: nat, mid: nat, hi: nat)
    requires w > 0 && ColumnsIn(ps, w, mid, hi) && lo <= mid
    ensures ColumnsIn(ps, w, lo, hi)
  {}

  /** A pass down columns: runs interleave, but no two share a column. */
  lemma {:induction false} ColsDisjoint(top: nat, w: nat, g: nat, span: nat, ofs: nat)
    requires g >= 1 && w > 0 && g * w > 0 && ofs == 4 * (g * w) && Hits(0, span, 2 * ofs)
    ensures var ps := PassPairs(top, w, g, span, ofs);
            ColorBytes(ps) && ColumnsIn(ps, w, top, if top < w then w else top) && Disjoint(ps)
    decreases w - top
  {
    hide LevelPairs, ColumnsIn, Disjoint;
    if top >= w {
      NoPairs(0, 0);
      NoColumns(w, top);
    } else {
      var run, rest := LevelPairs(4 * top, 4 * top + span, ofs), PassPairs(top + g, w, g, span, ofs);
      HitsShift(0, span, 2 * ofs, 4 * top);
      LevelDisjoint(4 * top, 4 * top + span, ofs);
      ColumnRun(top, 0, w, g, 4 * top, 4 * top + span);
      ColsDisjoint(top + g, w, g, span, ofs);
      if top + g < w {
        ColumnsWider(rest, w, top + 1, top + g, w);
        ColumnsJoin(run, rest, w, top, top + 1, w);
      } else {
        assert rest == [] && run + rest == run;
        ColumnsWider2(run, w, top, top + 1, w);
      }
    }
  }

  lemma NoColumns(w: nat, lo: nat)
    requires w > 0
    ensures ColumnsIn([], w, lo, lo)
  {}

  lemma ColumnsWider2(ps: seq<Pair>, w: nat, lo: nat, mid: nat, hi: nat)
    requires w > 0 && ColumnsIn(ps, w, lo, mid) && mid <= hi
    ensures ColumnsIn(ps, w, lo, hi)
  {}

  lemma BlockColumn(x: nat, w: nat, p: nat, ofs: nat)
    requires w > 0 && p % 4 == 0 && ofs % 4 == 0 && p / 4 % w == x && (p + ofs) / 4 % w == x
    ensures ColumnsIn(Block(p, ofs), w, x, x + 1)
  {
    SameWord(p);
    SameWord(p + ofs);
    assert p + 1 + ofs == p + ofs + 1 && p + 2 + ofs == p + ofs + 2;
  }

  lemma SameWord(p: nat)
    requires p % 4 == 0
    ensures (p + 1) / 4 == p / 4 && (p + 2) / 4 == p / 4
  {}

  ghost predicate Below(ps: seq<Pair>, bound: nat) {
    forall k :: 0 <= k < |ps| ==> ps[k].i < ps[k].j < bound
  }

  lemma {:induction false} LevelBelow(p: nat, end: nat, ofs: nat)
    requires ofs >= 4 && Hits(p, end, 2 * ofs)
    ensures p < end ==> p + 2 * ofs <= end && Below(LevelPairs(p, end, ofs), end + 3 - ofs)
    decreases end - p
  {
    if p >= end {
    } else {
      LevelBelow(p + 2 * ofs, end, ofs);
      var q := p + 2 * ofs;
      assert Below(Block(p, ofs), end + 3 - ofs);
      assert q >= end ==> LevelPairs(q, end, ofs) == [];
    }
  }

  lemma RunInside(top: nat, w: nat, span: nat, ofs: nat)
    requires top < w && ofs >= 4 * w && Hits(0, span, 2 * ofs)
    ensures Inside(span, LevelPairs(4 * top, 4 * top + span, ofs))
  {
    HitsShift(0, span, 2 * ofs, 4 * top);
    LevelBelow(4 * top, 4 * top + span, ofs);
  }

  lemma {:induction false} ColsInside(top: nat, w: nat, g: nat, span: nat, ofs: nat)
    requires g >= 1 && ofs >= 4 * w > 0 && Hits(0, span, 2 * ofs)
    ensures Inside(span, PassPairs(top, w, g, span, ofs))
    decreases w - top
  {
    hide LevelPairs;
    if top >= w {
    } else {
      RunInside(top, w, span, ofs);
      ColsInside(top + g, w, g, span, ofs);
    }
  }

  // ------------------------------------------------------------ the transform

  /** The steps of a pass touch color bytes of the buffer only, each at most once. */
  ghost predicate Sound(ps: seq<Pair>, len: nat) {
    Inside(len, ps) && ColorBytes(ps) && Disjoint(ps)
  }

  /** Coefficients from one row, or one row of columns, to the next of the level. */
  function Stride(w: nat, l: nat): (r: nat)
    ensures r >= w
  {
    MulAtLeast(Pow2(l), w);
    Pow2(l) * w
  }

  /** How many pairs of coefficients the level makes of `size`. */
  function Blocks(size: nat, l: nat): nat {
    DivNat(size, Pow2(l + 1));
    size / Pow2(l + 1)
  }

  /** Bytes a run over `size` coefficients of the level covers. */
  function Span(size: nat, l: nat, ofs: nat): nat { Blocks(size, l) * (2 * ofs) }

  function RowPass(w: nat, h: nat, l: nat): seq<Pair>
    requires w > 0
  {
    PassPairs(0, w * h, Stride(w, l), Span(w, l, 4 * Pow2(l)), 4 * Pow2(l))
  }

  function ColPass(w: nat, h: nat, l: nat): seq<Pair>
    requires w > 0
  {
    PassPairs(0, w, Pow2(l), Span(h, l, 4 * Stride(w, l)), 4 * Stride(w, l))
  }

  lemma SpanExact(size: nat, l: nat, s: nat)
    requires size % Pow2(l + 1) == 0
    ensures Span(size, l, 4 * (Pow2(l) * s)) == 4 * (size * s)
  {
    var g, n := Pow2(l), Blocks(size, l);
    DivModDef(size, Pow2(l + 1));
    MulAssoc(n, 2 * g, s);
    MulAssoc(2, g, s);
    MulAssoc(n, 8, g * s);
    MulAssoc(n, 2, g * s);
  }

  lemma SpanHits(size: nat, l: nat, ofs: nat)
    requires ofs > 0
    ensures Hits(0, Span(size, l, ofs), 2 * ofs)
  {
    HitsMultiple(0, Blocks(size, l), 2 * ofs);
  }

  lemma RowSpan(w: nat, l: nat)
    requires w % Pow2(l + 1) == 0
    ensures Span(w, l, 4 * Pow2(l)) == 4 * w
  {
    SpanExact(w, l, 1);
    assert Pow2(l) * 1 == Pow2(l) && w * 1 == w;
  }

  lemma RowPassSound(w: nat, h: nat, l: nat)
    requires w > 0 && w % Pow2(l + 1) == 0 && h % Pow2(l) == 0
    ensures Sound(RowPass(w, h, l), 4 * (w * h))
  {
    hide Span, Stride, PassPairs, Hits, Disjoint, Within, Sound, Pow2;
    var g := Pow2(l);
    RowSpan(w, l);
    SpanHits(w, l, 4 * g);
    RowsHit(w, h, l);
    RowsDisjoint(0, w * h, Stride(w, l), Span(w, l, 4 * g), 4 * g);
    WithinSound(RowPass(w, h, l), 4 * (w * h));
  }

  lemma WithinSound(ps: seq<Pair>, len: nat)
    requires Within(ps, 0, len) && Disjoint(ps)
    ensures Sound(ps, len)
  {}

  lemma RowsHit(w: nat, h: nat, l: nat)
    requires w > 0 && h % Pow2(l) == 0
    ensures Hits(0, w * h, Stride(w, l))
  {
    var g, n := Pow2(l), h / Pow2(l);
    DivModDef(h, g);
    DivNat(h, g);
    HeightInStrides(w, h, g, n);
    MulAtLeast(g, w);
    HitsMultiple(0, n, g * w);
  }

  lemma HeightInStrides(w: nat, h: nat, g: nat, n: nat)
    requires h == n * g
    ensures w * h == n * (g * w)
  {
    MulCommute(w, h);
    MulAssoc(n, g, w);
  }

  lemma ColPassSound(w: nat, h: nat, l: nat)
    requires w > 0 && h % Pow2(l + 1) == 0
    ensures Sound(ColPass(w, h, l), 4 * (w * h))
  {
    hide Span, Stride, PassPairs, Hits, Disjoint, ColumnsIn, ColorBytes, Inside, Sound, Pow2;
    var g, ofs := Pow2(l), 4 * Stride(w, l);
    StrideRows(w, l);
    ColSpan(w, h, l);
    SpanHits(h, l, ofs);
    ColsInside(0, w, g, Span(h, l, ofs), ofs);
    ColsDisjoint(0, w, g, Span(h, l, ofs), ofs);
    PassSound(ColPass(w, h, l), 4 * (w * h));
  }

  lemma StrideRows(w: nat, l: nat)
    requires w > 0
    ensures Stride(w, l) == Pow2(l) * w >= w
  {}

  lemma ColSpan(w: nat, h: nat, l: nat)
    requires h % Pow2(l + 1) == 0
    ensures Span(h, l, 4 * Stride(w, l)) == 4 * (w * h)
  {
    SpanExact(h, l, w);
    MulCommute(w, h);
    hide Span, Pow2;
  }

  lemma PassSound(ps: seq<Pair>, len: nat)
    requires Inside(len, ps) && ColorBytes(ps) && Disjoint(ps)
    ensures Sound(ps, len)
  {}

  lemma PassesSound(w: nat, h: nat, l: nat)
    requires Aligned(w, h, l + 1)
    ensures Sound(RowPass(w, h, l), 4 * (w * h)) && Sound(ColPass(w, h, l), 4 * (w * h))
  {
    AlignedAt(w, h, l + 1, l);
    RowPassSound(w, h, l);
    ColPassSound(w, h, l);
  }

  function Rows(b: seq<sbyte>, w: nat, h: nat, l: nat): (r: seq<sbyte>)
    requires Aligned(w, h, l + 1) && |b| == 4 * (w * h)
    ensures |r| == |b|
  {
    PassesSound(w, h, l);
    Apply(b, RowPass(w, h, l))
  }

  function Cols(b: seq<sbyte>, w: nat, h: nat, l: nat): (r: seq<sbyte>)
    requires Aligned(w, h, l + 1) && |b| == 4 * (w * h)
    ensures |r| == |b|
  {
    PassesSound(w, h, l);
    Apply(b, ColPass(w, h, l))
  }

  /** Rows, then columns, level after level. */
  function Forward(b: seq<sbyte>, w: nat, h: nat, level: nat): (r: seq<sbyte>)
    requires Aligned(w, h, level) && |b| == 4 * (w * h)
    ensures |r| == |b|
  {
    if level == 0 then b
    else
      AlignedAt(w, h, level, level - 1);
      Cols(Rows(Forward(b, w, h, level - 1), w, h, level - 1), w, h, level - 1)
  }

  /** Columns, then rows, from the last level down. */
  function Inverse(b: seq<sbyte>, w: nat, h: nat, level: nat): (r: seq<sbyte>)
    requires Aligned(w, h, level) && |b| == 4 * (w * h)
    ensures |r| == |b|
    decreases level
  {
    if level == 0 then b
    else
      AlignedAt(w, h, level, level - 1);
      Inverse(Rows(Cols(b, w, h, level - 1), w, h, level - 1), w, h, level - 1)
  }

  lemma PassTwice(b: seq<sbyte>, w: nat, h: nat, l: nat)
    requires Aligned(w, h, l + 1) && |b| == 4 * (w * h) && AllOdd7(b)
    ensures AllOdd7(Rows(b, w, h, l)) && Rows(Rows(b, w, h, l), w, h, l) == b
    ensures AllOdd7(Cols(b, w, h, l)) && Cols(Cols(b, w, h, l), w, h, l) == b
  {
    hide AllOdd7, RowPass, ColPass, Inside, ColorBytes, Disjoint;
    PassesSound(w, h, l);
    ApplyClosed(b, RowPass(w, h, l));
    ApplyTwice(b, RowPass(w, h, l));
    ApplyClosed(b, ColPass(w, h, l));
    ApplyTwice(b, ColPass(w, h, l));
  }

  lemma {:induction false} ForwardClosed(b: seq<sbyte>, w: nat, h: nat, level: nat)
    requires Aligned(w, h, level) && |b| == 4 * (w * h) && AllOdd7(b)
    ensures AllOdd7(Forward(b, w, h, level))
  {
    hide AllOdd7, Rows, Cols;
    if level == 0 {
    } else {
      AlignedAt(w, h, level, level - 1);
      ForwardClosed(b, w, h, level - 1);
      PassTwice(Forward(b, w, h, level - 1), w, h, level - 1);
      PassTwice(Rows(Forward(b, w, h, level - 1), w, h, level - 1), w, h, level - 1);
    }
  }

  /** Without quantisation the transform loses nothing: for every size, level and buffer whose color bytes
      are in the odd range, the inverse transform gives the buffer back. */
  lemma {:induction false} InverseForward(b: seq<sbyte>, w: nat, h: nat, level: nat)
    requires Aligned(w, h, level) && |b| == 4 * (w * h) && AllOdd7(b)
    ensures Inverse(Forward(b, w, h, level), w, h, level) == b
    decreases level
  {
    hide AllOdd7, Rows, Cols;
    if level == 0 {
    } else {
      AlignedAt(w, h, level, level - 1);
      ForwardClosed(b, w, h, level - 1);
      var c := Forward(b, w, h, level - 1);
      PassTwice(c, w, h, level - 1);
      PassTwice(Rows(c, w, h, level - 1), w, h, level - 1);
      InverseForward(b, w, h, level - 1);
    }
  }

  // ------------------------------------------------------------ in place

  method HarrInPlace(a: array<sbyte>, i: nat, j: nat)
    requires i < a.Length && j < a.Length && i != j
    modifies a
    ensures (a[i], a[j]) == HarrPlain(old(a[i]), old(a[j]))
    ensures forall k :: 0 <= k < a.Length && k != i && k != j ==> a[k] == old(a[k])
    ensures a[..] == HarrAt(old(a[..]), Pair(i, j))
  {
    HarrIsPlain(a[i], a[j]);
    hide HarrPlain;
    var (y0, y1) := Harr(a[i], a[j]);
    a[i] := y0;
    a[j] := y1;
  }

  /** WaveletLevel on the coefficients from index `data`, `skip` apart at level 0. */
  method WaveletLevel(a: array<sbyte>, data: nat, size: nat, l: nat, skip: nat)
    requires skip > 0 && Pow2(l) * skip > 0
    requires Inside(a.Length, LevelPairs(4 * data, 4 * data + Span(size, l, 4 * (Pow2(l) * skip)),
                                         4 * (Pow2(l) * skip)))
    modifies a
    ensures a[..] == Apply(old(a[..]), LevelPairs(4 * data, 4 * data + Span(size, l, 4 * (Pow2(l) * skip)),
                                                  4 * (Pow2(l) * skip)))
  {
    hide Span, Harr, Apply;
    var ofs := 4 * (Pow2(l) * skip);
    var pX0 := 4 * data;
    var end := pX0 + Span(size, l, ofs);
    ghost var all, done := LevelPairs(pX0, end, ofs), [];
    NoSteps(a[..]);
    while pX0 < end
      invariant done + LevelPairs(pX0, end, ofs) == all && Inside(a.Length, done)
      invariant a[..] == Apply(old(a[..]), done)
      decreases end - pX0
    {
      var rest := LevelPairs(pX0 + 2 * ofs, end, ofs);
      BlockFirst(all, done, pX0, ofs, rest);
      OneStep(old(a[..]), done, Pair(pX0, pX0 + ofs));
      HarrInPlace(a, pX0, pX0 + ofs);
      OneStep(old(a[..]), done + [Pair(pX0, pX0 + ofs)], Pair(pX0 + 1, pX0 + 1 + ofs));
      HarrInPlace(a, pX0 + 1, pX0 + 1 + ofs);
      OneStep(old(a[..]), done + [Pair(pX0, pX0 + ofs)] + [Pair(pX0 + 1, pX0 + 1 + ofs)], Pair(pX0 + 2, pX0 + 2 + ofs));
      HarrInPlace(a, pX0 + 2, pX0 + 2 + ofs);
      done := done + [Pair(pX0, pX0 + ofs)] + [Pair(pX0 + 1, pX0 + 1 + ofs)] + [Pair(pX0 + 2, pX0 + 2 + ofs)];
      pX0 := pX0 + 2 * ofs;
    }
    assert done == all;
  }

  lemma NoSteps(b: seq<sbyte>)
    ensures Apply(b, []) == b
  {}

  lemma OneStep(b: seq<sbyte>, ps: seq<Pair>, p: Pair)
    requires Inside(|b|, ps) && p.i < |b| && p.j < |b| && p.i != p.j
    ensures Inside(|b|, ps + [p]) && Apply(b, ps + [p]) == HarrAt(Apply(b, ps), p)
  {
    hide Harr;
    assert Front(ps + [p]) == ps;
  }

  lemma BlockFirst(all: seq<Pair>, done: seq<Pair>, p: nat, ofs: nat, rest: seq<Pair>)
    requires all == done + (Block(p, ofs) + rest)
    ensures all[|done|] == Pair(p, p + ofs)
    ensures all[|done| + 1] == Pair(p + 1, p + 1 + ofs)
    ensures all[|done| + 2] == Pair(p + 2, p + 2 + ofs)
    ensures all == done + [Pair(p, p + ofs)] + [Pair(p + 1, p + 1 + ofs)] + [Pair(p + 2, p + 2 + ofs)] + rest
  {}

  /** The first loop of Wavelet for level `l`. */
  method TransformRows(a: array<sbyte>, w: nat, h: nat, l: nat)
    requires Aligned(w, h, l + 1) && 0 <= w * h && 4 * (w * h) <= a.Length
    modifies a
    ensures a[..] == Rows(old(a[..4 * (w * h)]), w, h, l) + old(a[4 * (w * h)..])
  {
    hide Span, Harr, Apply, LevelPairs, Disjoint, Stride;
    PassesSound(w, h, l);
    InsideWider(RowPass(w, h, l), 4 * (w * h), a.Length);
    var top, end, s := 0, w * h, Stride(w, l);
    ghost var ofs := 4 * Pow2(l);
    ghost var span, done := Span(w, l, ofs), [];
    assert Pow2(l) * 1 == Pow2(l);
    NoSteps(a[..]);
    while top < end
      invariant done + PassPairs(top, end, s, span, ofs) == RowPass(w, h, l) && Inside(a.Length, done)
      invariant a[..] == Apply(old(a[..]), done)
      decreases end - top
    {
      ghost var run := LevelPairs(4 * top, 4 * top + span, ofs);
      RunFirst(RowPass(w, h, l), done, run, PassPairs(top + s, end, s, span, ofs), a.Length);
      ApplyJoin(old(a[..]), done, run);
      WaveletLevel(a, top, w, l, 1);
      done := done + run;
      top := top + s;
    }
    assert done == RowPass(w, h, l);
    ApplyPrefix(old(a[..]), 4 * (w * h), done);
  }

  /** The second loop of Wavelet for level `l`. */
  method TransformCols(a: array<sbyte>, w: nat, h: nat, l: nat)
    requires Aligned(w, h, l + 1) && 0 <= w * h && 4 * (w * h) <= a.Length
    modifies a
    ensures a[..] == Cols(old(a[..4 * (w * h)]), w, h, l) + old(a[4 * (w * h)..])
  {
    hide Span, Harr, Apply, LevelPairs, Disjoint;
    PassesSound(w, h, l);
    InsideWider(ColPass(w, h, l), 4 * (w * h), a.Length);
    var top, s := 0, Pow2(l);
    ghost var ofs := 4 * Stride(w, l);
    ghost var span, done := Span(h, l, ofs), [];
    NoSteps(a[..]);
    while top < w
      invariant done + PassPairs(top, w, s, span, ofs) == ColPass(w, h, l) && Inside(a.Length, done)
      invariant a[..] == Apply(old(a[..]), done)
      decreases w - top
    {
      ghost var run := LevelPairs(4 * top, 4 * top + span, ofs);
      RunFirst(ColPass(w, h, l), done, run, PassPairs(top + s, w, s, span, ofs), a.Length);
      ApplyJoin(old(a[..]), done, run);
      WaveletLevel(a, top, h, l, w);
      done := done + run;
      top := top + s;
    }
    assert done == ColPass(w, h, l);
    ApplyPrefix(old(a[..]), 4 * (w * h), done);
  }

  lemma InsideWider(ps: seq<Pair>, n: nat, len: nat)
    requires Inside(n, ps) && n <= len
    ensures Inside(len, ps)
  {}

  /** Steps inside the first `n` bytes leave the rest. */
  lemma {:induction false} ApplyPrefix(b: seq<sbyte>, n: nat, ps: seq<Pair>)
    requires n <= |b| && Inside(n, ps)
    ensures Inside(|b|, ps) && Apply(b, ps) == Apply(b[..n], ps) + b[n..]
  {
    hide HarrAt;
    InsideWider(ps, n, |b|);
    if ps == [] {
      assert b == b[..n] + b[n..];
    } else {
      ApplyPrefix(b, n, Front(ps));
      HarrAtPrefix(Apply(b[..n], Front(ps)), b[n..], Last(ps));
    }
  }

  lemma HarrAtPrefix(b: seq<sbyte>, rest: seq<sbyte>, p: Pair)
    requires p.i < |b| && p.j < |b| && p.i != p.j
    ensures HarrAt(b + rest, p) == HarrAt(b, p) + rest
  {
    hide Harr;
  }

  lemma RunFirst(all: seq<Pair>, done: seq<Pair>, run: seq<Pair>, rest: seq<Pair>, len: nat)
    requires all == done + (run + rest) && Inside(len, all)
    ensures Inside(len, run) && all == done + run + rest
  {
    forall k | 0 <= k < |run| ensures run[k].i < len && run[k].j < len && run[k].i != run[k].j {
      assert all[|done| + k] == run[k];
    }
  }

  /** The buffer holds `r` followed by what stood behind the coefficients. */
  ghost predicate Holds(b: seq<sbyte>, r: seq<sbyte>, was: seq<sbyte>) {
    |r| <= |was| && b == r + was[|r|..]
  }

  lemma HoldsParts(b: seq<sbyte>, r: seq<sbyte>, was: seq<sbyte>)
    requires Holds(b, r, was)
    ensures |b| == |was| && b[..|r|] == r && b[|r|..] == was[|r|..]
  {}

  /** Wavelet without the quantising filter, on the coefficients in front of the border words. */
  method Wavelet(a: array<sbyte>, w: nat, h: nat, level: nat)
    requires Aligned(w, h, level) && 0 <= w * h && 4 * (w * h) <= a.Length
    modifies a
    ensures Holds(a[..], Forward(old(a[..4 * (w * h)]), w, h, level), old(a[..]))
  {
    hide Rows, Cols;
    ghost var n, b := 4 * (w * h), a[..];
    for l := 0 to level
      invariant Aligned(w, h, l) && Holds(a[..], Forward(b[..n], w, h, l), b)
    {
      AlignedAt(w, h, level, l + 1);
      HoldsParts(a[..], Forward(b[..n], w, h, l), b);
      TransformRows(a, w, h, l);
      HoldsParts(a[..], Rows(Forward(b[..n], w, h, l), w, h, l), b);
      TransformCols(a, w, h, l);
    }
  }

  method InvWavelet(a: array<sbyte>, w: nat, h: nat, level: nat)
    requires Aligned(w, h, level) && 0 <= w * h && 4 * (w * h) <= a.Length
    modifies a
    ensures Holds(a[..], Inverse(old(a[..4 * (w * h)]), w, h, level), old(a[..]))
  {
    hide Rows, Cols;
    ghost var n, b := 4 * (w * h), a[..];
    var l: int := level - 1;
    while l >= 0
      invariant -1 <= l < level && Aligned(w, h, l + 1)
      invariant a.Length == |b| && a[n..] == b[n..] && Inverse(a[..n], w, h, l + 1) == Inverse(b[..n], w, h, level)
    {
      AlignedAt(w, h, l + 1, l);
      TransformCols(a, w, h, l);
      TransformRows(a, w, h, l);
      l := l - 1;
    }
    assert a[..] == a[..n] + a[n..];
  }
}
