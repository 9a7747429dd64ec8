/** X keysyms and Unicode: binary search one way, linear search the other, over any table sorted like keysymtab. */
module Keysym {
  datatype Pair = Pair(keysym: nat, ucs: nat)

  const NOT_FOUND := 0xffff_ffff
  const NO_SYMBOL := 0
  const DIRECT := 0x100_0000

  /** Strictly sorted by keysym, all of them two bytes long and none of one byte. */
  ghost predicate Sorted(table: seq<Pair>) {
    (forall i :: 0 <= i < |table| ==> 0x100 <= table[i].keysym <= 0xffff && table[i].ucs <= 0xffff) &&
    (forall i, j :: 0 <= i < j < |table| ==> table[i].keysym < table[j].keysym)
  }

  predicate Latin1(c: nat) { 0x20 <= c <= 0x7e || 0xa0 <= c <= 0xff }

  // ------------------------------------------------------------ specification: look through the table in order

  function UcsOf(table: seq<Pair>, keysym: nat): nat {
    if table == [] then NOT_FOUND
    else if table[0].keysym == keysym then table[0].ucs
    else UcsOf(table[1..], keysym)
  }

  function KeysymOf(table: seq<Pair>, ucs: nat): nat {
    if table == [] then NO_SYMBOL
    else if table[0].ucs == ucs then table[0].keysym
    else KeysymOf(table[1..], ucs)
  }

  function ToUcs(table: seq<Pair>, keysym: nat): nat {
    if Latin1(keysym) then keysym
    else if keysym / DIRECT == 1 then keysym % DIRECT
    else UcsOf(table, keysym)
  }

  function ToKeysym(table: seq<Pair>, ucs: nat): nat {
    if Latin1(ucs) then ucs
    else if exists i :: 0 <= i < |table| && table[i].ucs == ucs then KeysymOf(table, ucs)
    else if ucs < DIRECT then DIRECT + ucs
    else NO_SYMBOL
  }

  lemma {:induction false} UcsFound(table: seq<Pair>, i: nat)
    requires i < |table| && forall j :: 0 <= j < i ==> table[j].keysym != table[i].keysym
    ensures UcsOf(table, table[i].keysym) == table[i].ucs
  {
    if i == 0 {
    } else {
      UcsFound(table[1..], i - 1);
    }
  }

  lemma {:induction false} UcsMissing(table: seq<Pair>, keysym: nat)
    requires forall j :: 0 <= j < |table| ==> table[j].keysym != keysym
    ensures UcsOf(table, keysym) == NOT_FOUND
  {
    if table == [] {
    } else {
      UcsMissing(table[1..], keysym);
    }
  }

  lemma {:induction false} KeysymFound(table: seq<Pair>, i: nat)
    requires i < |table| && forall j :: 0 <= j < i ==> table[j].ucs != table[i].ucs
    ensures KeysymOf(table, table[i].ucs) == table[i].keysym
  {
    if i == 0 {
    } else {
      KeysymFound(table[1..], i - 1);
    }
  }

  /** Of the keysyms of one byte exactly the printable Latin-1 characters are themselves, and the others are nothing;
      0x1000000 and up to 0xffffff more are the characters themselves. */
  lemma ByteKeysyms(table: seq<Pair>, c: nat)
    requires Sorted(table)
    ensures c <= 0xff ==> ToUcs(table, c) == if 0x20 <= c <= 0x7e || 0xa0 <= c <= 0xff then c else 0xffff_ffff
    ensures c <= 0xff ==> (ToKeysym(table, c) == c <==> 0x20 <= c <= 0x7e || 0xa0 <= c <= 0xff)
    ensures 0x100_0000 <= c <= 0x1ff_ffff ==> ToUcs(table, c) == c - 0x100_0000
  {
    if c <= 0xff {
      UcsMissing(table, c);
      if exists i :: 0 <= i < |table| && table[i].ucs == c {
        var i := FirstEntry(table, c);
        KeysymFound(table, i);
      }
    }
  }

  /** Characters above Latin-1 that the table does not have: those of 24 bits are encoded directly, others have no
      keysym; and keysyms neither of one byte nor encoded directly nor in the table have no character. */
  lemma NotInTable(table: seq<Pair>, c: nat)
    requires c > 0xff
    ensures (forall i :: 0 <= i < |table| ==> table[i].ucs != c) ==>
              ToKeysym(table, c) == if c < 0x100_0000 then 0x100_0000 + c else 0
    ensures (forall i :: 0 <= i < |table| ==> table[i].keysym != c) && !(0x100_0000 <= c <= 0x1ff_ffff) ==>
              ToUcs(table, c) == 0xffff_ffff
  {
    if forall i :: 0 <= i < |table| ==> table[i].keysym != c { UcsMissing(table, c); }
  }

  // ------------------------------------------------------------ the code

  /** keysym2ucs: the binary search finds what looking through the table finds. */
  method Keysym2ucs(table: seq<Pair>, keysym: nat) returns (ucs: nat)
    requires Sorted(table) && keysym <= 0xffff_ffff
    ensures ucs == ToUcs(table, keysym)
  {
    if Latin1(keysym) { return keysym; }
    if keysym / DIRECT == 1 { return keysym % DIRECT; }
    var min, max := 0, |table| - 1;
    while max >= min
      invariant 0 <= min <= |table| && -1 <= max < |table|
      invariant forall j :: 0 <= j < min ==> table[j].keysym < keysym
      invariant forall j :: max < j < |table| ==> table[j].keysym > keysym
    {
      var mid := (min + max) / 2;
      if table[mid].keysym < keysym {
        min := mid + 1;
      } else if table[mid].keysym > keysym {
        max := mid - 1;
      } else {
        UcsFound(table, mid);
        return table[mid].ucs;
      }
    }
    UcsMissing(table, keysym);
    return NOT_FOUND;
  }

  /** ucs2keysym. */
  method Ucs2keysym(table: seq<Pair>, ucs: nat) returns (keysym: nat)
    requires ucs <= 0xffff_ffff
    ensures keysym == ToKeysym(table, ucs)
  {
    if Latin1(ucs) { return ucs; }
    var cur := 0;
    while cur <= |table| - 1
      invariant 0 <= cur <= |table| && forall j :: 0 <= j < cur ==> table[j].ucs != ucs
    {
      if table[cur].ucs == ucs {
        KeysymFound(table, cur);
        return table[cur].keysym;
      }
      cur := cur + 1;
    }
    if ucs < DIRECT { return DIRECT + ucs; }
    return NO_SYMBOL;
  }

  // ------------------------------------------------------------ round trips

  lemma FirstEntry(table: seq<Pair>, ucs: nat) returns (i: nat)
    requires exists k :: 0 <= k < |table| && table[k].ucs == ucs
    ensures i < |table| && table[i].ucs == ucs && forall j :: 0 <= j < i ==> table[j].ucs != ucs
  {
    i := 0;
    while table[i].ucs != ucs
      invariant i < |table| && forall j :: 0 <= j < i ==> table[j].ucs != ucs
      decreases |table| - i
    {
      i := i + 1;
    }
  }

  /** Every character of 24 bits comes back. */
  lemma RoundTrip(table: seq<Pair>, u: nat)
    requires Sorted(table) && u < DIRECT
    ensures ToUcs(table, ToKeysym(table, u)) == u
  {
    if !Latin1(u) && exists i :: 0 <= i < |table| && table[i].ucs == u {
      var i := FirstEntry(table, u);
      KeysymFound(table, i);
      UcsFound(table, i);
    }
  }

  /** The keysym chosen for its character: a Latin-1 one, a table entry that no earlier entry and no Latin-1 character
      duplicates, or a directly encoded character that has neither. */
  predicate Preferred(table: seq<Pair>, keysym: nat) {
    keysym == NO_SYMBOL || Latin1(keysym) ||
    (exists i :: 0 <= i < |table| && table[i].keysym == keysym && !Latin1(table[i].ucs) &&
                 forall j :: 0 <= j < i ==> table[j].ucs != table[i].ucs) ||
    (keysym / DIRECT == 1 && !Latin1(keysym % DIRECT) &&
     forall j :: 0 <= j < |table| ==> table[j].ucs != keysym % DIRECT)
  }

  /** The other way round exactly the preferred keysyms come back. */
  lemma KeysymRoundTrip(table: seq<Pair>, keysym: nat)
    requires Sorted(table) && keysym <= 0xffff_ffff
    ensures ToKeysym(table, ToUcs(table, keysym)) == keysym <==> Preferred(table, keysym)
  {
    if Latin1(keysym) {
    } else if keysym / DIRECT == 1 {
      DirectRoundTrip(table, keysym);
    } else if exists i :: 0 <= i < |table| && table[i].keysym == keysym {
      var i :| 0 <= i < |table| && table[i].keysym == keysym;
      TableRoundTrip(table, i);
    } else {
      UcsMissing(table, keysym);
    }
  }

  lemma DirectRoundTrip(table: seq<Pair>, keysym: nat)
    requires Sorted(table) && keysym <= 0xffff_ffff && !Latin1(keysym) && keysym / DIRECT == 1
    ensures ToKeysym(table, ToUcs(table, keysym)) == keysym <==> Preferred(table, keysym)
  {
    var u := keysym % DIRECT;
    if !Latin1(u) && exists i :: 0 <= i < |table| && table[i].ucs == u {
      var i := FirstEntry(table, u);
      KeysymFound(table, i);
    }
  }

  lemma TableRoundTrip(table: seq<Pair>, i: nat)
    requires Sorted(table) && i < |table|
    ensures ToKeysym(table, ToUcs(table, table[i].keysym)) == table[i].keysym <==> Preferred(table, table[i].keysym)
  {
    UcsFound(table, i);
    if !Latin1(table[i].ucs) {
      var k := FirstEntry(table, table[i].ucs);
      KeysymFound(table, k);
    }
  }
}
