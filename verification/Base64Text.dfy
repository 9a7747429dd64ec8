/** The base64 text of a byte string, section 5.2 of RFC 1521, and how text is taken apart again. */
module Base64Text {
  import opened Bytes

  type sextet = v: int | 0 <= v < 64

  const BASE64: string := "ABCDEFGHIJKLMNOPQRSTUVWXYZ" + "abcdefghijklmnopqrstuvwxyz" + "0123456789" + "+/"
  const PAD64 := '='

  /** The digit of a value, as the alphabet of RFC 1521 lists them. */
  function Digit(v: sextet): char {
    if v < 26 then 'A' + v as char
    else if v < 52 then 'a' + (v - 26) as char
    else if v < 62 then '0' + (v - 52) as char
    else if v == 62 then '+' else '/'
  }

  function Table(v: sextet): char { BASE64[v] }

  lemma TableIsAlphabet(v: sextet)
    ensures Table(v) == Digit(v)
  {}

  predicate IsDigit(c: char) {
    'A' <= c <= 'Z' || 'a' <= c <= 'z' || '0' <= c <= '9' || c == '+' || c == '/'
  }

  function Value(c: char): (v: sextet)
    requires IsDigit(c)
  {
    if 'A' <= c <= 'Z' then (c - 'A') as int
    else if 'a' <= c <= 'z' then 26 + (c - 'a') as int
    else if '0' <= c <= '9' then 52 + (c - '0') as int
    else if c == '+' then 62 else 63
  }

  lemma DigitValue(v: sextet)
    ensures IsDigit(Digit(v)) && Value(Digit(v)) == v && Digit(v) != PAD64
  {}

  lemma ValueDigit(c: char)
    requires IsDigit(c)
    ensures Digit(Value(c)) == c
  {}

  function Digits(vs: seq<sextet>): (r: string)
    ensures |r| == |vs| && forall i :: 0 <= i < |vs| ==> r[i] == Digit(vs[i])
  {
    seq(|vs|, i requires 0 <= i < |vs| => Digit(vs[i]))
  }

  // ------------------------------------------------------------ groups

  /** The six-bit values of three bytes. */
  function First(a: byte): sextet { a / 4 }

  function Second(a: byte, b: byte): sextet { a % 4 * 16 + b / 16 }

  function Third(b: byte, c: byte): sextet { b % 16 * 4 + c / 64 }

  function Fourth(c: byte): sextet { c % 64 }

  /** The bytes of four six-bit values, high part and low part. */
  function ByteA(u: sextet, v: sextet): byte { u * 4 + v / 16 }

  function ByteB(v: sextet, w: sextet): byte { v % 16 * 16 + w / 4 }

  function ByteC(w: sextet, x: sextet): byte { w % 4 * 64 + x }

  lemma GroupOfBytes(a: byte, b: byte, c: byte)
    ensures ByteA(First(a), Second(a, b)) == a && ByteB(Second(a, b), Third(b, c)) == b &&
            ByteC(Third(b, c), Fourth(c)) == c
    ensures Second(a, 0) % 16 == 0 && Third(b, 0) % 4 == 0
  {
    Rejoined(a);
    Rejoined(b);
    Rejoined(c);
    Parted(a % 4, b / 16, 16);
    Parted(b % 16, c / 64, 4);
  }

  /** The digits of a byte in the three bases it is cut in. */
  lemma Rejoined(a: byte)
    ensures a / 4 * 4 + a % 4 == a && a / 16 * 16 + a % 16 == a && a / 64 * 64 + a % 64 == a
  {}

  lemma Parted(h: nat, l: nat, n: nat)
    requires (n == 16 || n == 4) && l < n
    ensures (h * n + l) / n == h && (h * n + l) % n == l && h * n % n == 0
  {}

  /** The four values are the digits, in base 64, of the 24-bit number the three bytes make. */
  lemma GroupNumber(a: byte, b: byte, c: byte)
    ensures First(a) * 0x40000 + Second(a, b) * 0x1000 + Third(b, c) * 0x40 + Fourth(c) == a * 0x10000 + b * 0x100 + c
  {
    Rejoined(a);
    Rejoined(b);
    Rejoined(c);
  }

  lemma BytesOfGroup(u: sextet, v: sextet, w: sextet, x: sextet)
    ensures var a, b, c := ByteA(u, v), ByteB(v, w), ByteC(w, x);
            First(a) == u && Second(a, b) == v && Third(b, c) == w && Fourth(c) == x
    ensures v % 16 == 0 ==> Second(ByteA(u, v), 0) == v
    ensures w % 4 == 0 ==> Third(ByteB(v, w), 0) == w
  {}

  // ------------------------------------------------------------ encoding

  /** Three bytes make four digits; one or two bytes left over make two or three, and padding. */
  function Encode(x: seq<byte>): string {
    if x == [] then ""
    else if |x| == 1 then [Digit(First(x[0])), Digit(Second(x[0], 0)), PAD64, PAD64]
    else if |x| == 2 then [Digit(First(x[0])), Digit(Second(x[0], x[1])), Digit(Third(x[1], 0)), PAD64]
    else [Digit(First(x[0])), Digit(Second(x[0], x[1])), Digit(Third(x[1], x[2])), Digit(Fourth(x[2]))] + Encode(x[3..])
  }

  // ------------------------------------------------------------ decoding

  /** The bytes complete in a run of digits. */
  function Complete(vs: seq<sextet>): seq<byte> {
    if |vs| < 2 then []
    else if |vs| == 2 then [ByteA(vs[0], vs[1])]
    else if |vs| == 3 then [ByteA(vs[0], vs[1]), ByteB(vs[1], vs[2])]
    else [ByteA(vs[0], vs[1]), ByteB(vs[1], vs[2]), ByteC(vs[2], vs[3])] + Complete(vs[4..])
  }

  lemma {:induction false} CompleteLength(vs: seq<sextet>)
    ensures |Complete(vs)| == |vs| * 3 / 4
    decreases |vs|
  {
    if |vs| < 4 {
    } else {
      CompleteLength(vs[4..]);
    }
  }

  /** The high bits of the byte still being put together. */
  function Partial(vs: seq<sextet>): byte {
    if |vs| == 0 then 0
    else if |vs| == 1 then vs[0] * 4
    else if |vs| == 2 then vs[1] % 16 * 16
    else if |vs| == 3 then vs[2] % 4 * 64
    else Partial(vs[4..])
  }

  /** How one more digit moves on what is complete and what is partial. */
  ghost predicate Moves(state: nat, c: seq<byte>, p: byte, v: sextet, c': seq<byte>, p': byte) {
    match state
    case 0 => p == 0 && c' == c && p' == v * 4
    case 1 => p % 4 == 0 && c' == c + [p + v / 16] && p' == v % 16 * 16
    case 2 => p % 16 == 0 && c' == c + [p + v / 4] && p' == v % 4 * 64
    case 3 => p % 64 == 0 && c' == c + [p + v] && p' == 0
    case _ => false
  }

  lemma FourMore(n: nat)
    ensures (4 + n) % 4 == n % 4
  {}

  lemma {:induction false} OneMore(vs: seq<sextet>, v: sextet)
    ensures Moves(|vs| % 4, Complete(vs), Partial(vs), v, Complete(vs + [v]), Partial(vs + [v]))
    decreases |vs|
  {
    hide Moves, Complete, Partial, ByteA, ByteB, ByteC;
    if |vs| < 4 {
      OneMoreShort(vs, v);
    } else {
      var rest, more := vs[4..], vs + [v];
      assert more[4..] == rest + [v] && more[0] == vs[0] && more[1] == vs[1] && more[2] == vs[2] && more[3] == vs[3];
      FourMore(|rest|);
      OneMore(rest, v);
      var head := [ByteA(vs[0], vs[1]), ByteB(vs[1], vs[2]), ByteC(vs[2], vs[3])];
      FirstGroup(vs);
      FirstGroup(more);
      MovesAfter(head, |vs| % 4, Complete(rest), Partial(rest), v, Complete(rest + [v]), Partial(rest + [v]));
    }
  }

  lemma FirstGroup(vs: seq<sextet>)
    requires |vs| >= 4
    ensures Complete(vs) == [ByteA(vs[0], vs[1]), ByteB(vs[1], vs[2]), ByteC(vs[2], vs[3])] + Complete(vs[4..])
    ensures Partial(vs) == Partial(vs[4..])
  {}

  lemma MovesAfter(h: seq<byte>, state: nat, c: seq<byte>, p: byte, v: sextet, c': seq<byte>, p': byte)
    requires Moves(state, c, p, v, c', p')
    ensures Moves(state, h + c, p, v, h + c', p')
  {}

  lemma OneMoreShort(vs: seq<sextet>, v: sextet)
    requires |vs| < 4
    ensures Moves(|vs|, Complete(vs), Partial(vs), v, Complete(vs + [v]), Partial(vs + [v]))
  {
    hide *;
    if |vs| == 0 {
      assert vs == [] && vs + [v] == [v];
      AfterNone(v);
    } else if |vs| == 1 {
      assert vs == [vs[0]] && vs + [v] == [vs[0], v];
      AfterOne(vs[0], v);
    } else if |vs| == 2 {
      assert vs == [vs[0], vs[1]] && vs + [v] == [vs[0], vs[1], v];
      AfterTwo(vs[0], vs[1], v);
    } else {
      assert vs == [vs[0], vs[1], vs[2]] && vs + [v] == [vs[0], vs[1], vs[2], v];
      AfterThree(vs[0], vs[1], vs[2], v);
    }
  }

  lemma AfterNone(v: sextet)
    ensures Moves(0, Complete([]), Partial([]), v, Complete([v]), Partial([v]))
  {}

  lemma AfterOne(t: sextet, v: sextet)
    ensures Moves(1, Complete([t]), Partial([t]), v, Complete([t, v]), Partial([t, v]))
  {}

  lemma AfterTwo(t: sextet, u: sextet, v: sextet)
    ensures Moves(2, Complete([t, u]), Partial([t, u]), v, Complete([t, u, v]), Partial([t, u, v]))
  {}

  lemma AfterThree(t: sextet, u: sextet, w: sextet, v: sextet)
    ensures Moves(3, Complete([t, u, w]), Partial([t, u, w]), v, Complete([t, u, w, v]), Partial([t, u, w, v]))
  {
    WholeGroup(t, u, w, v);
    assert Complete([t, u, w]) == [ByteA(t, u), ByteB(u, w)] && Partial([t, u, w]) == w % 4 * 64;
    hide Complete, Partial, ByteA, ByteB;
  }

  lemma WholeGroup(t: sextet, u: sextet, w: sextet, v: sextet)
    ensures Complete([t, u, w, v]) == [ByteA(t, u), ByteB(u, w), ByteC(w, v)] && Partial([t, u, w, v]) == 0
  {
    hide ByteA, ByteB, ByteC;
    assert [t, u, w, v][4..] == [];
  }

  // ------------------------------------------------------------ the text of some bytes

  /** What has to follow the digits. */
  function Padding(n: nat): string {
    if n % 4 == 2 then [PAD64, PAD64] else if n % 4 == 3 then [PAD64] else []
  }

  /** The digits of an encoding. */
  function Sextets(x: seq<byte>): seq<sextet> {
    if x == [] then []
    else if |x| == 1 then [First(x[0]), Second(x[0], 0)]
    else if |x| == 2 then [First(x[0]), Second(x[0], x[1]), Third(x[1], 0)]
    else [First(x[0]), Second(x[0], x[1]), Third(x[1], x[2]), Fourth(x[2])] + Sextets(x[3..])
  }

  lemma DigitsJoin(vs: seq<sextet>, ws: seq<sextet>)
    ensures Digits(vs + ws) == Digits(vs) + Digits(ws)
  {
    hide Digit;
  }

  lemma FourDigits(t: sextet, u: sextet, v: sextet, w: sextet)
    ensures Digits([t, u, v, w]) == [Digit(t), Digit(u), Digit(v), Digit(w)]
  {
    hide Digit;
  }

  lemma {:induction false} EncodeIsDigits(x: seq<byte>)
    ensures Encode(x) == Digits(Sextets(x)) + Padding(|Sextets(x)|)
    decreases |x|
  {
    hide Digit, First, Second, Third, Fourth;
    if |x| < 3 {
    } else {
      hide Digits;
      EncodeIsDigits(x[3..]);
      var rest := Sextets(x[3..]);
      FourDigits(First(x[0]), Second(x[0], x[1]), Third(x[1], x[2]), Fourth(x[2]));
      DigitsJoin([First(x[0]), Second(x[0], x[1]), Third(x[1], x[2]), Fourth(x[2])], rest);
      FourMore(|rest|);
      hide Padding;
    }
  }

  lemma {:induction false} SextetsComplete(x: seq<byte>)
    ensures Complete(Sextets(x)) == x && Partial(Sextets(x)) == 0 && |Sextets(x)| % 4 != 1
    decreases |x|
  {
    hide First, Second, Third, Fourth, ByteA, ByteB, ByteC;
    if |x| >= 3 {
      SextetsComplete(x[3..]);
      GroupOfBytes(x[0], x[1], x[2]);
      assert Sextets(x)[4..] == Sextets(x[3..]);
      assert x == [x[0], x[1], x[2]] + x[3..];
    } else if |x| > 0 {
      GroupOfBytes(x[0], if |x| == 2 then x[1] else 0, 0);
    }
  }

  /** Digits whose left-over bits are zero are the digits of the bytes they denote. */
  lemma {:induction false} DigitsAreSextets(vs: seq<sextet>)
    requires |vs| % 4 != 1 && Partial(vs) == 0
    ensures Sextets(Complete(vs)) == vs
    decreases |vs|
  {
    hide First, Second, Third, Fourth, ByteA, ByteB, ByteC;
    if |vs| >= 4 {
      DigitsAreSextets(vs[4..]);
      BytesOfGroup(vs[0], vs[1], vs[2], vs[3]);
      assert Complete(vs)[3..] == Complete(vs[4..]);
      assert vs == [vs[0], vs[1], vs[2], vs[3]] + vs[4..];
    } else if |vs| > 0 {
      BytesOfGroup(vs[0], vs[1], if |vs| == 3 then vs[2] else 0, 0);
    }
  }

  /** Different byte strings have different texts. */
  lemma EncodeInjective(x: seq<byte>, y: seq<byte>)
    requires Encode(x) == Encode(y)
    ensures x == y
  {
    hide Encode, Sextets, Digits, Complete;
    EncodeIsDigits(x);
    EncodeIsDigits(y);
    SextetsComplete(x);
    SextetsComplete(y);
    SplitUnique(Sextets(x), Padding(|Sextets(x)|), Sextets(y), Padding(|Sextets(y)|));
  }

  /** A text has one longest run of digits at its start. */
  lemma SplitUnique(vs: seq<sextet>, rest: string, ws: seq<sextet>, rest': string)
    requires Digits(vs) + rest == Digits(ws) + rest'
    requires (rest != [] ==> !IsDigit(rest[0])) && (rest' != [] ==> !IsDigit(rest'[0]))
    ensures vs == ws && rest == rest'
  {
    hide Digit, IsDigit, Value;
    var t := Digits(vs) + rest;
    if |vs| < |ws| {
      assert t[|vs|] == rest[0] == Digit(ws[|vs|]);
      DigitValue(ws[|vs|]);
    } else if |ws| < |vs| {
      assert t[|ws|] == rest'[0] == Digit(vs[|ws|]);
      DigitValue(vs[|ws|]);
    } else {
      forall i | 0 <= i < |vs| ensures vs[i] == ws[i] {
        assert t[i] == Digit(vs[i]) == Digit(ws[i]);
        DigitValue(vs[i]);
        DigitValue(ws[i]);
      }
      assert rest == t[|vs|..] == rest';
    }
  }
}
