/** The words of the coefficient buffer and the pixels they travel in: four bytes each, of which three are colors. */
module ZywrleCells {
  type sbyte = x: int | -128 <= x < 128

  /** The color bytes of a coefficient or a pixel, in their order in memory; the fourth byte is not sent. */
  datatype Cell = Cell(u: sbyte, y: sbyte, v: sbyte)

  function Cells(b: seq<sbyte>): (r: seq<Cell>)
    requires |b| % 4 == 0
    ensures |r| == |b| / 4
  {
    seq(|b| / 4, k requires 0 <= k < |b| / 4 => Cell(b[4 * k], b[4 * k + 1], b[4 * k + 2]))
  }

  /** ZYWRLE_LOAD_COEFF. */
  method LoadCoeff(buf: array<sbyte>, p: nat) returns (c: Cell)
    requires buf.Length % 4 == 0 && p < buf.Length / 4
    ensures c == Cells(buf[..])[p]
  {
    c := Cell(buf[4 * p], buf[4 * p + 1], buf[4 * p + 2]);
  }

  /** ZYWRLE_SAVE_COEFF: one word takes the color bytes of `c`, and every other word keeps its bytes. */
  method SaveCoeff(buf: array<sbyte>, p: nat, c: Cell)
    requires buf.Length % 4 == 0 && p < buf.Length / 4
    modifies buf
    ensures Cells(buf[..]) == old(Cells(buf[..]))[p := c]
    ensures forall i :: 0 <= i < buf.Length && i / 4 != p ==> buf[i] == old(buf[i])
  {
    buf[4 * p] := c.u;
    buf[4 * p + 1] := c.y;
    buf[4 * p + 2] := c.v;
    CellsUpdate(old(buf[..]), buf[..], p, c);
  }

  lemma CellsUpdate(b: seq<sbyte>, b': seq<sbyte>, p: nat, c: Cell)
    requires |b| % 4 == 0 && p < |b| / 4 && b' == b[4 * p := c.u][4 * p + 1 := c.y][4 * p + 2 := c.v]
    ensures Cells(b') == Cells(b)[p := c]
  {}

  /** Bytes put together are words put together. */
  lemma CellsJoin(a: seq<sbyte>, b: seq<sbyte>)
    requires |a| % 4 == 0 && |b| % 4 == 0
    ensures |a + b| % 4 == 0 && Cells(a + b) == Cells(a) + Cells(b)
  {
    forall k | 0 <= k < |a + b| / 4 ensures Cells(a + b)[k] == (Cells(a) + Cells(b))[k] {
      if k >= |a| / 4 {
        assert 4 * k - |a| == 4 * (k - |a| / 4);
      }
    }
  }
}
