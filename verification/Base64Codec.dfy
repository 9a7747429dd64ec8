/** __b64_ntop and __b64_pton. */
module Base64Codec {
  import opened Bytes
  import opened Base64Text
  import W = WordBits
  import Arith

  // ------------------------------------------------------------ encoding

  /** __b64_ntop: the text and a terminating null, or -1 when both do not fit. */
  method Ntop(src: seq<byte>, target: array<char>, targsize: nat) returns (r: int)
    requires targsize <= target.Length
    modifies target
    ensures r == if |Encode(src)| < targsize then |Encode(src)| else -1
    ensures r >= 0 ==> target[..r] == Encode(src) && target[r] == '\0'
    ensures target[targsize..] == old(target[targsize..])
  {
    hide First, Second, Third, Fourth, Table, Digit, Encode;
    var datalength, i := 0, 0;
    while 2 < |src| - i
      invariant i <= |src| && datalength <= targsize
      invariant Encode(src) == target[..datalength] + Encode(src[i..])
      invariant target[targsize..] == old(target[targsize..])
    {
      WholeGroup(src, i);
      ghost var before, rest := target[..datalength], Encode(src[i + 3..]);
      if datalength + 4 > targsize { return -1; }
      var group := [Table(First(src[i])), Table(Second(src[i], src[i + 1])), Table(Third(src[i + 1], src[i + 2])),
                    Table(Fourth(src[i + 2]))];
      PutFour(target, datalength, targsize, group);
      i, datalength := i + 3, datalength + 4;
      assert before + (group + rest) == (before + group) + rest;
    }
    if i != |src| {
      var input0, input1 := src[i], if |src| - i == 2 then src[i + 1] else 0;
      LastGroup(src, i);
      if datalength + 4 > targsize { return -1; }
      var group := [Table(First(input0)), Table(Second(input0, input1)),
                    if |src| - i == 1 then PAD64 else Table(Third(input1, 0)), PAD64];
      PutFour(target, datalength, targsize, group);
      datalength := datalength + 4;
    } else {
      NoGroup(src, i);
    }
    if datalength >= targsize { return -1; }
    target[datalength] := '\0';
    return datalength;
  }

  lemma WholeGroup(src: seq<byte>, i: nat)
    requires i + 3 <= |src|
    ensures Encode(src[i..]) == [Table(First(src[i])), Table(Second(src[i], src[i + 1])),
                                 Table(Third(src[i + 1], src[i + 2])),
                                 Table(Fourth(src[i + 2]))] + Encode(src[i + 3..])
  {
    hide First, Second, Third, Fourth, Table, Digit;
    TableIsAlphabet(First(src[i]));
    TableIsAlphabet(Second(src[i], src[i + 1]));
    TableIsAlphabet(Third(src[i + 1], src[i + 2]));
    TableIsAlphabet(Fourth(src[i + 2]));
    assert src[i..][3..] == src[i + 3..];
  }

  lemma LastGroup(src: seq<byte>, i: nat)
    requires |src| - 3 < i < |src|
    ensures var input1 := if |src| - i == 2 then src[i + 1] else 0;
            Encode(src[i..]) == [Table(First(src[i])), Table(Second(src[i], input1)),
                                 if |src| - i == 1 then PAD64 else Table(Third(input1, 0)), PAD64]
  {
    hide First, Second, Third, Fourth, Table, Digit;
    var input1 := if |src| - i == 2 then src[i + 1] else 0;
    TableIsAlphabet(First(src[i]));
    TableIsAlphabet(Second(src[i], input1));
    TableIsAlphabet(Third(input1, 0));
  }

  lemma NoGroup(src: seq<byte>, i: nat)
    requires i == |src|
    ensures Encode(src[i..]) == []
  {}

  method PutFour(target: array<char>, at: nat, targsize: nat, group: string)
    requires at + 4 <= targsize <= target.Length && |group| == 4
    modifies target
    ensures target[..at + 4] == old(target[..at]) + group && target[targsize..] == old(target[targsize..])
  {
    target[at], target[at + 1], target[at + 2], target[at + 3] := group[0], group[1], group[2], group[3];
  }

  // ------------------------------------------------------------ decoding

  /** isspace in the C locale. */
  predicate IsSpace(c: char) { c == ' ' || '\t' <= c <= '\r' }

  /** Tab, line feed, vertical tab, form feed, carriage return and blank. */
  lemma Spaces(c: char)
    ensures IsSpace(c) <==> c as int in {9, 10, 11, 12, 13, 32}
  {}

  function Strip(s: string): string {
    if s == [] then [] else if IsSpace(s[0]) then Strip(s[1..]) else [s[0]] + Strip(s[1..])
  }

  lemma {:induction false} StripNothing(s: string)
    requires forall i :: 0 <= i < |s| ==> !IsSpace(s[i])
    ensures Strip(s) == s
  {
    if s == [] {
    } else {
      StripNothing(s[1..]);
      assert s == [s[0]] + s[1..];
    }
  }

  /** What the buffer holds in state `st`: the complete bytes `c`, and behind them the partial one, unless there
      is no room for it and it is zero. */
  ghost predicate Holds(buf: seq<byte>, size: nat, st: nat, c: seq<byte>, p: byte) {
    |c| <= size <= |buf| && buf[..|c|] == c &&
    (st == 1 ==> |c| < size) &&
    (st != 0 ==> if |c| < size then buf[|c|] == p else p == 0)
  }

  ghost predicate Stored(buf: seq<byte>, size: nat, vs: seq<sextet>) {
    Holds(buf, size, |vs| % 4, Complete(vs), Partial(vs))
  }

  /** The least number of bytes a text starting with these digits can stand for. */
  ghost function Needed(vs: seq<sextet>): nat {
    |Complete(vs)| + if |vs| % 4 == 1 || Partial(vs) != 0 then 1 else 0
  }

  /** Case 0: the high bits of a new byte. */
  method PutHigh(target: array<byte>, targsize: nat, tarindex: nat, v: sextet, ghost c: seq<byte>, ghost p: byte)
    returns (ok: bool)
    requires Holds(target[..], targsize, 0, c, p) && tarindex == |c|
    modifies target
    ensures target[targsize..] == old(target[targsize..])
    ensures if ok then Holds(target[..], targsize, 1, c, v * 4) else targsize < |c| + 1
  {
    if tarindex >= targsize { return false; }
    target[tarindex] := v * 4;
    return true;
  }

  /** Cases 1 and 2: the low bits of one byte and the high bits of the next. */
  method PutMiddle(target: array<byte>, targsize: nat, tarindex: nat, st: nat, low: byte, nextbyte: byte,
                   ghost c: seq<byte>, ghost p: byte, ghost k: nat)
    returns (ok: bool)
    requires 1 <= st <= 2 && Holds(target[..], targsize, st, c, p) && tarindex == |c|
    requires k <= 6 && p % Arith.Pow2(k) == 0 && low < Arith.Pow2(k) && p + low < 256
    modifies target
    ensures target[targsize..] == old(target[targsize..])
    ensures if ok then Holds(target[..], targsize, st + 1, c + [p + low], nextbyte)
            else targsize < |c| + 1 + (if nextbyte != 0 then 1 else 0)
  {
    if tarindex >= targsize { return false; }
    OrPart(k, p, low);
    target[tarindex] := W.Or(target[tarindex], low);
    assert target[..tarindex + 1] == c + [p + low];
    if tarindex + 1 < targsize {
      target[tarindex + 1] := nextbyte;
    } else if nextbyte != 0 {
      return false;
    }
    return true;
  }

  /** Case 3: the low bits of the last byte of a group. */
  method PutLow(target: array<byte>, targsize: nat, tarindex: nat, v: sextet, ghost c: seq<byte>, ghost p: byte)
    returns (ok: bool)
    requires Holds(target[..], targsize, 3, c, p) && tarindex == |c| && p % 64 == 0 && p + v < 256
    modifies target
    ensures target[targsize..] == old(target[targsize..])
    ensures if ok then Holds(target[..], targsize, 0, c + [p + v], 0) else targsize < |c| + 1
  {
    if tarindex >= targsize { return false; }
    assert Arith.Pow2(6) == 64;
    OrPart(6, p, v);
    target[tarindex] := W.Or(target[tarindex], v);
    assert target[..tarindex + 1] == c + [p + v];
    return true;
  }

  lemma OrPart(k: nat, p: nat, v: nat)
    requires k <= 6 && v < Arith.Pow2(k) && p % Arith.Pow2(k) == 0
    ensures W.Or(p, v) == p + v
  {
    hide *;
    var s := Arith.Pow2(k);
    Arith.DivModDef(p, s);
    Arith.DivNat(p, s);
    Arith.MulCommute(p / s, s);
    W.OrSum(k, p / s, v);
  }

  /** The switch of __b64_pton: one digit more. */
  method PutDigit(target: array?<byte>, targsize: nat, state: nat, tarindex: nat, v: sextet, ghost vs: seq<sextet>)
    returns (ok: bool, state': nat, tarindex': nat)
    requires target != null ==> targsize <= target.Length && Stored(target[..], targsize, vs)
    requires state == |vs| % 4 && tarindex == |Complete(vs)|
    modifies if target == null then {} else {target}
    ensures ok ==> state' == |vs + [v]| % 4 && tarindex' == |Complete(vs + [v])|
    ensures ok && target != null ==> Stored(target[..], targsize, vs + [v])
    ensures !ok ==> target != null && targsize < Needed(vs + [v])
    ensures target != null ==> target[targsize..] == old(target[targsize..])
  {
    hide Complete, Partial, Holds;
    OneMore(vs, v);
    ghost var c, p := Complete(vs), Partial(vs);
    assert Arith.Pow2(2) == 4 && Arith.Pow2(4) == 16;
    state', tarindex', ok := (state + 1) % 4, tarindex, true;
    match state
    case 0 =>
      if target != null { ok := PutHigh(target, targsize, tarindex, v, c, p); }
    case 1 =>
      if target != null { ok := PutMiddle(target, targsize, tarindex, 1, v / 16, v % 16 * 16, c, p, 2); }
      tarindex' := tarindex + 1;
    case 2 =>
      if target != null { ok := PutMiddle(target, targsize, tarindex, 2, v / 4, v % 4 * 64, c, p, 4); }
      tarindex' := tarindex + 1;
    case 3 =>
      if target != null { ok := PutLow(target, targsize, tarindex, v, c, p); }
      tarindex' := tarindex + 1;
  }

  // ------------------------------------------------------------ verdicts on a text

  /** No byte string of at most `size` bytes has the text `t`. */
  ghost predicate Refused(t: string, size: nat) {
    forall x: seq<byte> :: |x| <= size ==> Encode(x) != t
  }

  /** What __b64_pton owes its caller for the text `t`, whitespace removed, with a buffer. */
  ghost predicate Answer(t: string, buf: seq<byte>, size: nat, r: int) {
    if r < 0 then r == -1 && Refused(t, size) else r <= size && r <= |buf| && t == Encode(buf[..r])
  }

  /** Without a buffer the bits left over are not looked at. */
  ghost predicate Shaped(t: string, vs: seq<sextet>) {
    |vs| % 4 != 1 && t == Digits(vs) + Padding(|vs|)
  }

  ghost predicate CountAnswer(t: string, r: int) {
    if r < 0 then r == -1 && forall vs :: !Shaped(t, vs) else exists vs :: Shaped(t, vs) && r == |Complete(vs)|
  }

  /** `rest` does not start with a digit. */
  ghost predicate Stops(rest: string) { rest != [] ==> !IsDigit(rest[0]) }

  lemma PaddingStops(n: nat)
    ensures Stops(Padding(n))
  {}

  /** A text accepted by shape has one reading; it is some byte string's text exactly when no bits are left over. */
  lemma ShapeUnique(t: string, vs: seq<sextet>, rest: string, ws: seq<sextet>)
    requires t == Digits(vs) + rest && Stops(rest) && Shaped(t, ws)
    ensures ws == vs && rest == Padding(|vs|)
  {
    hide Digits, Padding, IsDigit;
    PaddingStops(|ws|);
    SplitStops(vs, rest, ws, Padding(|ws|));
  }

  lemma SplitStops(vs: seq<sextet>, rest: string, ws: seq<sextet>, rest': string)
    requires Digits(vs) + rest == Digits(ws) + rest' && Stops(rest) && Stops(rest')
    ensures vs == ws && rest == rest'
  {
    hide Digits;
    SplitUnique(vs, rest, ws, rest');
  }

  lemma EncodeShaped(x: seq<byte>)
    ensures Shaped(Encode(x), Sextets(x)) && Complete(Sextets(x)) == x && Partial(Sextets(x)) == 0
  {
    hide Encode, Sextets, Complete, Partial, Digits, Padding;
    EncodeIsDigits(x);
    SextetsComplete(x);
  }

  lemma ShapedEncodes(t: string, vs: seq<sextet>)
    requires Shaped(t, vs) && Partial(vs) == 0
    ensures t == Encode(Complete(vs))
  {
    hide Encode, Sextets, Complete, Partial, Digits, Padding;
    DigitsAreSextets(vs);
    EncodeIsDigits(Complete(vs));
  }

  /** The longest run of digits is known, and what follows is not its padding, or bits are left over. */
  lemma RefuseEnd(t: string, vs: seq<sextet>, rest: string, size: nat)
    requires t == Digits(vs) + rest && Stops(rest)
    requires |vs| % 4 == 1 || rest != Padding(|vs|) || Partial(vs) != 0
    ensures Refused(t, size)
    ensures |vs| % 4 == 1 || rest != Padding(|vs|) ==> forall ws :: !Shaped(t, ws)
  {
    hide Encode, Sextets, Complete, Partial, Digits, Padding, Stops, Shaped;
    forall x: seq<byte> | |x| <= size ensures Encode(x) != t {
      EncodeShaped(x);
      if Encode(x) == t {
        ShapeUnique(t, vs, rest, Sextets(x));
        ShapedNot1(t, vs);
      }
    }
    forall ws | |vs| % 4 == 1 || rest != Padding(|vs|) ensures !Shaped(t, ws) {
      if Shaped(t, ws) {
        ShapeUnique(t, vs, rest, ws);
        ShapedNot1(t, vs);
      }
    }
  }

  lemma ShapedNot1(t: string, vs: seq<sextet>)
    requires Shaped(t, vs)
    ensures |vs| % 4 != 1
  {}

  lemma {:induction false} GrowOne(vs: seq<sextet>, v: sextet)
    ensures |Complete(vs + [v])| == |Complete(vs)| + (if |vs| % 4 == 0 then 0 else 1)
    ensures |vs| % 4 == 0 ==> Partial(vs) == 0
  {
    hide Complete, Partial;
    OneMore(vs, v);
  }

  lemma {:induction false} GrowMore(vs: seq<sextet>, more: seq<sextet>)
    ensures |Complete(vs + more)| >= |Complete(vs)|
    ensures more != [] && |vs| % 4 != 0 ==> |Complete(vs + more)| > |Complete(vs)|
    decreases |more|
  {
    hide Complete;
    if more == [] {
      assert vs + more == vs;
    } else {
      GrowOne(vs, more[0]);
      GrowMore(vs + [more[0]], more[1..]);
      assert vs + more == vs + [more[0]] + more[1..];
    }
  }

  /** A text that starts with digits needing more room than there is. */
  lemma RefuseRoom(t: string, ws: seq<sextet>, rest: string, size: nat)
    requires t == Digits(ws) + rest && size < Needed(ws)
    ensures Refused(t, size)
  {
    hide Encode, Sextets, Complete, Partial, Digit, IsDigit;
    forall x: seq<byte> | |x| <= size ensures Encode(x) != t {
      EncodeShaped(x);
      var all := Sextets(x);
      if Encode(x) == t {
        PrefixDigits(ws, rest, all, Padding(|all|));
        var more := all[|ws|..];
        assert all == ws + more && (more == [] ==> ws == all);
        GrowOne(ws, 0);
        GrowMore(ws, more);
      }
    }
  }

  lemma PrefixDigits(ws: seq<sextet>, rest: string, all: seq<sextet>, pad: string)
    requires Digits(ws) + rest == Digits(all) + pad && forall i :: 0 <= i < |pad| ==> pad[i] == PAD64
    ensures ws <= all
  {
    hide Digit;
    var t := Digits(ws) + rest;
    if |ws| > |all| {
      assert t[|all|] == Digit(ws[|all|]) && t[|all|] == pad[0];
      DigitValue(ws[|all|]);
    }
    forall i | 0 <= i < |ws| ensures ws[i] == all[i] {
      assert t[i] == Digit(ws[i]) == Digit(all[i]);
      DigitValue(ws[i]);
      DigitValue(all[i]);
    }
  }

  // ------------------------------------------------------------ __b64_pton

  /** The next character of a C string; past the end its null. */
  function At(s: string, i: nat): char { if i < |s| then s[i] else '\0' }

  lemma StripAt(s: string, i: nat)
    requires i < |s|
    ensures Strip(s[i..]) == if IsSpace(s[i]) then Strip(s[i + 1..]) else [s[i]] + Strip(s[i + 1..])
  {
    assert s[i..][1..] == s[i + 1..];
  }

  /** strchr in the alphabet. */
  method Find(ch: char) returns (pos: int)
    ensures if IsDigit(ch) then 0 <= pos < 64 && pos == Value(ch) else pos == -1
  {
    hide IsDigit, Value, Table, Digit;
    for i := 0 to 64
      invariant forall v: sextet :: v < i ==> Table(v) != ch
    {
      TableIsAlphabet(i);
      DigitValue(i);
      if Table(i) == ch { return i; }
    }
    if IsDigit(ch) {
      ValueDigit(ch);
      TableIsAlphabet(Value(ch));
      assert false;
    }
    return -1;
  }

  lemma StartStored(src: string, target: array?<byte>, targsize: nat)
    requires target != null ==> targsize <= target.Length
    ensures Complete([]) == [] && Strip(src) == Digits([]) + Strip(src[0..])
    ensures target != null ==> Stored(target[..], targsize, [])
  {
    assert src[0..] == src;
  }

  lemma AllRead(src: string)
    ensures Strip(src[|src|..]) == []
  {}

  lemma NextDigit(vs: seq<sextet>, ch: char, rest: string)
    requires IsDigit(ch)
    ensures Digits(vs) + ([ch] + rest) == Digits(vs + [Value(ch)]) + rest
  {
    hide Digit, Value, IsDigit;
    ValueDigit(ch);
    DigitsJoin(vs, [Value(ch)]);
    assert Digits([Value(ch)]) == [ch];
  }

  /** The bytes read are the answer. */
  lemma Accept(t: string, vs: seq<sextet>, target: array?<byte>, size: nat)
    requires |vs| % 4 != 1 && t == Digits(vs) + Padding(|vs|)
    requires target != null ==> size <= target.Length && Stored(target[..], size, vs) && Partial(vs) == 0
    ensures target != null ==> Answer(t, target[..], size, |Complete(vs)|)
    ensures target == null ==> CountAnswer(t, |Complete(vs)|)
  {
    hide Encode, Complete, Partial, Digits, Padding;
    assert Shaped(t, vs);
    if target != null { ShapedEncodes(t, vs); }
  }

  /** What follows the first pad character, which is at `i - 1`. */
  method AfterPad(src: string, i0: nat, state: nat, tarindex: nat, target: array?<byte>, targsize: nat,
                  ghost vs: seq<sextet>)
    returns (r: int)
    requires forall k :: 0 <= k < |src| ==> src[k] != '\0'
    requires target != null ==> targsize <= target.Length && Stored(target[..], targsize, vs)
    requires i0 <= |src| && state == |vs| % 4 && tarindex == |Complete(vs)|
    requires Strip(src) == Digits(vs) + ([PAD64] + Strip(src[i0..]))
    ensures target != null ==> Answer(Strip(src), target[..], targsize, r)
    ensures target == null ==> CountAnswer(Strip(src), r)
  {
    hide Strip, IsSpace, Complete, Partial, Digits, Refused, Shaped;
    ghost var t, first := Strip(src), [PAD64] + Strip(src[i0..]);
    var i := i0;
    if state == 0 || state == 1 {
      RefuseEnd(t, vs, first, targsize);
      return -1;
    }
    if state == 2 {
      while i < |src| && IsSpace(src[i])
        invariant i <= |src| && Strip(src[i..]) == Strip(src[i0..])
      {
        StripAt(src, i);
        i := i + 1;
      }
      if At(src, i) != PAD64 {
        if i < |src| {
          StripAt(src, i);
          assert first[1] == src[i];
        } else {
          AllRead(src);
          assert |first| == 1;
        }
        RefuseEnd(t, vs, first, targsize);
        return -1;
      }
      StripAt(src, i);
      i := i + 1;
    }
    ghost var second := Strip(src[i..]);
    while i < |src|
      invariant i <= |src| && Strip(src[i..]) == second
    {
      StripAt(src, i);
      if !IsSpace(src[i]) {
        RefuseEnd(t, vs, first, targsize);
        return -1;
      }
      i := i + 1;
    }
    AllRead(src);
    if target != null && tarindex < targsize && target[tarindex] != 0 {
      RefuseEnd(t, vs, first, targsize);
      return -1;
    }
    Accept(t, vs, target, targsize);
    return tarindex;
  }

  /** __b64_pton.  With a buffer it fails exactly when the text, whitespace removed, is not the text of a byte
      string that fits, and otherwise yields that byte string.  Without one it counts. */
  method Pton(src: string, target: array?<byte>, targsize: nat) returns (r: int)
    requires forall i :: 0 <= i < |src| ==> src[i] != '\0'
    requires target != null ==> targsize <= target.Length
    modifies if target == null then {} else {target}
    ensures target != null ==> Answer(Strip(src), target[..], targsize, r) &&
                               target[targsize..] == old(target[targsize..])
    ensures target == null ==> CountAnswer(Strip(src), r)
  {
    hide Strip, IsSpace, IsDigit, Complete, Partial, Digits, Refused, Shaped, Holds, Needed;
    var state, tarindex, i := 0, 0, 0;
    ghost var vs: seq<sextet> := [];
    StartStored(src, target, targsize);
    var ch;
    while true
      invariant i <= |src| && state == |vs| % 4 && tarindex == |Complete(vs)|
      invariant Strip(src) == Digits(vs) + Strip(src[i..])
      invariant target != null ==> Stored(target[..], targsize, vs) && target[targsize..] == old(target[targsize..])
      decreases |src| - i
    {
      ch := At(src, i);
      if ch == '\0' { break; }
      StripAt(src, i);
      i := i + 1;
      if IsSpace(ch) { continue; }
      if ch == PAD64 { break; }
      var pos := Find(ch);
      if pos < 0 {
        RefuseEnd(Strip(src), vs, [ch] + Strip(src[i..]), targsize);
        return -1;
      }
      ghost var rest := Strip(src[i..]);
      NextDigit(vs, ch, rest);
      var ok;
      ok, state, tarindex := PutDigit(target, targsize, state, tarindex, pos, vs);
      vs := vs + [pos];
      if !ok {
        RefuseRoom(Strip(src), vs, rest, targsize);
        return -1;
      }
    }
    if ch == PAD64 {
      r := AfterPad(src, i, state, tarindex, target, targsize, vs);
    } else {
      AllRead(src);
      if state != 0 {
        RefuseEnd(Strip(src), vs, [], targsize);
        return -1;
      }
      GrowOne(vs, 0);
      Accept(Strip(src), vs, target, targsize);
      return tarindex;
    }
  }

  // ------------------------------------------------------------ round trips

  lemma {:induction false} TextIsPlain(x: seq<byte>, i: nat)
    requires i < |Encode(x)|
    ensures Encode(x)[i] == PAD64 || IsDigit(Encode(x)[i])
  {
    hide Digit, IsDigit, Sextets, Encode;
    EncodeIsDigits(x);
    if i < |Sextets(x)| { DigitValue(Sextets(x)[i]); }
  }

  lemma TextStripped(x: seq<byte>)
    ensures Strip(Encode(x)) == Encode(x) && forall i :: 0 <= i < |Encode(x)| ==> Encode(x)[i] != '\0'
  {
    hide Encode;
    forall i | 0 <= i < |Encode(x)| ensures !IsSpace(Encode(x)[i]) && Encode(x)[i] != '\0' { TextIsPlain(x, i); }
    StripNothing(Encode(x));
  }

  /** Whatever is printed parses back, into a buffer of exactly the right size or any larger one. */
  method PrintThenParse(x: seq<byte>, room: nat) returns (y: seq<byte>)
    ensures y == x
  {
    hide Encode, Strip;
    var text := new char[|Encode(x)| + 1];
    var n := Ntop(x, text, |Encode(x)| + 1);
    TextStripped(x);
    var target := new byte[|x| + room];
    var r := Pton(text[..n], target, |x| + room);
    assert r != -1;
    EncodeInjective(target[..r], x);
    y := target[..r];
  }

  /** Whatever parses is canonical: printing the result gives the text without its whitespace. */
  method ParseThenPrint(s: string, size: nat) returns (t: string)
    requires forall i :: 0 <= i < |s| ==> s[i] != '\0'
    ensures t == Strip(s) || (t == "" && Refused(Strip(s), size))
  {
    hide Encode, Strip;
    var target := new byte[size];
    var r := Pton(s, target, size);
    if r < 0 { return ""; }
    var text := new char[|Encode(target[..r])| + 1];
    var n := Ntop(target[..r], text, text.Length);
    t := text[..n];
  }

  /** Without a buffer the bits left over are not checked: this text is counted as one byte, and yet it is the text
      of no byte string. */
  lemma CountedNotCanonical(size: nat)
    ensures CountAnswer("QR==", 1) && Refused("QR==", size)
  {
    var vs: seq<sextet> := [16, 17];
    assert Digits(vs) == "QR";
    assert Shaped("QR==", vs) && |Complete(vs)| == 1;
    RefuseEnd("QR==", vs, "==", size);
  }
}
