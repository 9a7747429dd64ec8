/** What a frame does to the stacking order of microui's containers: bringing to the front, the root under the mouse,
    and the click at the end of the frame. */
module MicroUiStacking {
  const CONTAINERPOOL_SIZE: nat := 48
  const NULL: int := -1

  /** A clip, rectangle, text or icon command. */
  datatype Drawing = Drawing(kind: nat, data: seq<int>)

  /** What a program does between mu_begin and mu_end.  `Raise` is mu_bring_to_front, which get_container also calls
      for every container it sets up; `Popup` is mu_open_popup; `under` says whether the mouse is over the container. */
  datatype Call =
    | Begin(c: nat, under: bool) | Push(size: nat, drawing: Drawing) | End | Raise(c: nat) | Popup(c: nat)

  function Front<T>(s: seq<T>): seq<T>
    requires s != []
  { s[..|s| - 1] }

  function Last<T>(s: seq<T>): T
    requires s != []
  { s[|s| - 1] }

  /** The zindex of every container, the highest one given away, and the next hover root. */
  datatype Order = Order(zs: seq<int>, last: int, hover: int)

  /** mu_bring_to_front. */
  function Raised(z: Order, c: nat): Order {
    if c < |z.zs| then z.(zs := z.zs[c := z.last + 1], last := z.last + 1) else z
  }

  /** begin_root_container: a root under the mouse takes the place of one that is not above it. */
  function Hovered(z: Order, c: nat, under: bool): Order {
    if under && c < |z.zs| && (!(0 <= z.hover < |z.zs|) || z.zs[c] > z.zs[z.hover]) then z.(hover := c) else z
  }

  function Called(z: Order, call: Call): Order {
    match call
    case Begin(c, under) => Hovered(z, c, under)
    case Raise(c) => Raised(z, c)
    case Popup(c) => Raised(z.(hover := c), c)
    case _ => z
  }

  /** After a list of calls. */
  function Stacked(z: Order, calls: seq<Call>): Order {
    if calls == [] then z else Called(Stacked(z, Front(calls)), Last(calls))
  }

  /** mu_end: the mouse is pressed over a root that is not the front one. */
  predicate Clicks(z: Order, pressed: bool) {
    pressed && 0 <= z.hover < |z.zs| && 0 <= z.zs[z.hover] < z.last
  }

  function Clicked(z: Order, pressed: bool): Order { if Clicks(z, pressed) then Raised(z, z.hover) else z }

  // ------------------------------------------------------------ the zindex of every container

  predicate Raises(call: Call, c: nat) { call == Raise(c) || call == Popup(c) }

  ghost predicate InPool(calls: seq<Call>, n: nat) {
    forall i :: 0 <= i < |calls| && (calls[i].Begin? || calls[i].Raise? || calls[i].Popup?) ==> calls[i].c < n
  }

  /** How often something is brought to the front. */
  function RaiseCount(calls: seq<Call>): nat {
    if calls == [] then 0
    else RaiseCount(Front(calls)) + if Last(calls).Raise? || Last(calls).Popup? then 1 else 0
  }

  lemma {:induction false} StackedSize(z: Order, calls: seq<Call>)
    requires InPool(calls, |z.zs|)
    ensures |Stacked(z, calls).zs| == |z.zs| && Stacked(z, calls).last == z.last + RaiseCount(calls)
    ensures z.hover == NULL || 0 <= z.hover < |z.zs| ==>
              Stacked(z, calls).hover == NULL || 0 <= Stacked(z, calls).hover < |z.zs|
  {
    if calls == [] {
    } else {
      StackedSize(z, Front(calls));
      assert Last(calls) == calls[|calls| - 1];
    }
  }

  /** A container that is not brought to the front keeps its zindex. */
  lemma {:induction false} Unraised(z: Order, calls: seq<Call>, c: nat)
    requires InPool(calls, |z.zs|) && c < |z.zs| && forall i :: 0 <= i < |calls| ==> !Raises(calls[i], c)
    ensures |Stacked(z, calls).zs| == |z.zs| && Stacked(z, calls).zs[c] == z.zs[c]
  {
    if calls == [] {
    } else {
      Unraised(z, Front(calls), c);
      assert Last(calls) == calls[|calls| - 1];
    }
  }

  /** One that is has the number of its last time, counted from the highest zindex at the start of the frame. */
  lemma {:induction false} RaisedLast(z: Order, calls: seq<Call>, c: nat, k: nat)
    requires InPool(calls, |z.zs|) && c < |z.zs| && k < |calls| && Raises(calls[k], c)
    requires forall i :: k < i < |calls| ==> !Raises(calls[i], c)
    ensures |Stacked(z, calls).zs| == |z.zs| && Stacked(z, calls).zs[c] == z.last + RaiseCount(calls[..k + 1])
  {
    var init := Front(calls);
    StackedSize(z, init);
    assert Last(calls) == calls[|calls| - 1];
    if k == |calls| - 1 {
      assert calls[..k + 1] == calls && calls[..k] == init;
    } else {
      RaisedLast(z, init, c, k);
      assert init[..k + 1] == calls[..k + 1];
    }
  }

  /** No container is above the last one brought to the front. */
  ghost predicate Bounded(z: Order) { forall c :: 0 <= c < |z.zs| ==> z.zs[c] <= z.last }

  lemma {:induction false} StackedBounded(z: Order, calls: seq<Call>)
    requires Bounded(z)
    ensures Bounded(Stacked(z, calls))
  {
    if calls == [] {
    } else {
      StackedBounded(z, Front(calls));
    }
  }

  // ------------------------------------------------------------ the root under the mouse

  predicate UnderMouse(call: Call) { call.Begin? && call.under }

  /** Nothing is brought to the front after it has begun under the mouse, and no popup is opened. */
  ghost predicate Settled(calls: seq<Call>) {
    (forall i :: 0 <= i < |calls| ==> !calls[i].Popup?) &&
    forall i, j :: 0 <= i < j < |calls| && UnderMouse(calls[i]) ==> !Raises(calls[j], calls[i].c)
  }

  ghost predicate NoneUnder(calls: seq<Call>) { forall i :: 0 <= i < |calls| ==> !UnderMouse(calls[i]) }

  ghost predicate NoneAbove(zs: seq<int>, z: int, calls: seq<Call>) {
    forall i :: 0 <= i < |calls| && UnderMouse(calls[i]) ==> calls[i].c < |zs| && zs[calls[i].c] <= z
  }

  /** The hover root is the topmost of the roots begun under the mouse; without one there is none. */
  ghost predicate Topmost(z: Order, calls: seq<Call>) {
    if z.hover == NULL then NoneUnder(calls)
    else
      0 <= z.hover < |z.zs| && NoneAbove(z.zs, z.zs[z.hover], calls) &&
      exists i :: 0 <= i < |calls| && UnderMouse(calls[i]) && calls[i].c == z.hover
  }

  lemma {:induction false} HoverTopmost(z: Order, calls: seq<Call>)
    requires InPool(calls, |z.zs|) && Settled(calls) && z.hover == NULL
    ensures Topmost(Stacked(z, calls), calls)
  {
    if calls == [] {
    } else {
      var init, call := Front(calls), Last(calls);
      assert init + [call] == calls && call == calls[|calls| - 1];
      HoverTopmost(z, init);
      StackedSize(z, init);
      HoverStep(Stacked(z, init), init, call);
    }
  }

  lemma HoverStep(z: Order, calls: seq<Call>, call: Call)
    requires Topmost(z, calls) && !call.Popup? && (call.Begin? ==> call.c < |z.zs|)
    requires forall i :: 0 <= i < |calls| && UnderMouse(calls[i]) ==> !Raises(call, calls[i].c)
    ensures Topmost(Called(z, call), calls + [call])
  {
    var next, w := calls + [call], Called(z, call);
    assert next[|calls|] == call;
    if w.hover != NULL {
      if w.hover == z.hover {
        var k :| 0 <= k < |calls| && UnderMouse(calls[k]) && calls[k].c == z.hover;
        assert UnderMouse(next[k]) && next[k].c == w.hover;
      } else {
        assert UnderMouse(next[|calls|]) && next[|calls|].c == w.hover;
      }
    }
  }

  // ------------------------------------------------------------ the click

  /** A click brings exactly the hover root to the front, above everything else. */
  lemma ClickOnTop(z: Order)
    requires Clicks(z, true)
    ensures var w := Clicked(z, true);
            |w.zs| == |z.zs| && w.zs[z.hover] == w.last == z.last + 1 &&
            (forall c :: 0 <= c < |z.zs| && c != z.hover ==> w.zs[c] == z.zs[c]) &&
            (Bounded(z) ==> forall c :: 0 <= c < |z.zs| && c != z.hover ==> w.zs[c] < w.zs[z.hover])
  {}
}
