/** The command list of microui: a flat buffer of variable-size records in which each root
    container brackets its commands with a head and a tail jump, patched so that walking the
    buffer visits the roots in z-order.  Positions are byte offsets into the buffer. */
module MicroUiFrame {
  import opened MicroUiStacking

  const COMMANDLIST_SIZE: nat := 0x4_0000
  const ROOTLIST_SIZE: nat := 32
  const CONTAINERSTACK_SIZE: nat := 32
  const JUMP_SIZE: nat := 16

  datatype Record = Jump(dst: int) | Draw(size: nat, drawing: Drawing)

  datatype Container = Container(head: nat, tail: nat, zindex: int)

  /** A drawing, and the root container it was pushed in. */
  datatype Entry = Entry(owner: nat, drawing: Drawing)

  /** What the frame drew inside `c`, in push order. */
  ghost function Own(log: seq<Entry>, c: nat): seq<Drawing> {
    if log == [] then []
    else
      var last := log[|log| - 1];
      Own(log[..|log| - 1], c) + if last.owner == c then [last.drawing] else []
  }

  /** What each of `order` drew, one after the other. */
  ghost function OwnAll(log: seq<Entry>, order: seq<nat>): seq<Drawing> {
    if order == [] then [] else OwnAll(log, order[..|order| - 1]) + Own(log, order[|order| - 1])
  }

  // ------------------------------------------------------------ walks

  /** Where the walk goes from the record at `o`. */
  function Succ(items: seq<Record>, o: nat): int
    requires o < |items|
  {
    match items[o]
    case Jump(dst) => dst
    case Draw(size, _) => o + size
  }

  /** Each position of `p` leads to the next. */
  ghost predicate Links(items: seq<Record>, idx: nat, p: seq<nat>) {
    idx <= |items| && forall k :: 0 <= k < |p| - 1 ==> p[k] < idx && Succ(items, p[k]) == p[k + 1]
  }

  function ShownAt(items: seq<Record>, o: nat): seq<Drawing> {
    if o < |items| && items[o].Draw? then [items[o].drawing] else []
  }

  /** The drawings met at the positions of `p`. */
  ghost function Shown(items: seq<Record>, p: seq<nat>): seq<Drawing> {
    if p == [] then [] else Shown(items, Front(p)) + ShownAt(items, Last(p))
  }

  lemma {:induction false} ShownFrame(items: seq<Record>, items': seq<Record>, p: seq<nat>)
    requires |items| == |items'|
    requires forall k :: 0 <= k < |p| ==> p[k] < |items| && items[p[k]] == items'[p[k]]
    ensures Shown(items, p) == Shown(items', p)
  {
    if p == [] {
    } else {
      ShownFrame(items, items', Front(p));
    }
  }

  lemma {:induction false} ShownJoin(items: seq<Record>, p: seq<nat>, q: seq<nat>)
    ensures Shown(items, p + q) == Shown(items, p) + Shown(items, q)
  {
    if q == [] {
      assert p + q == p;
    } else {
      ShownJoin(items, p, Front(q));
      assert Front(p + q) == p + Front(q) && Last(p + q) == Last(q);
    }
  }

  // ------------------------------------------------------------ the invariant

  /** The state of a frame.  `trails[c]` lists the positions a walk takes from behind the head of
      root `c`, up to where it stands now; `linked` holds every position a trail goes on from. */
  datatype View = View(items: seq<Record>, cs: seq<Container>, idx: nat, roots: seq<nat>, stack: seq<nat>,
                       trails: seq<seq<nat>>, linked: set<nat>, log: seq<Entry>)

  ghost predicate Distinct(s: seq<nat>) {
    forall i, j :: 0 <= i < j < |s| ==> s[i] != s[j]
  }

  ghost predicate Basic(v: View) {
    && |v.items| == COMMANDLIST_SIZE && |v.cs| == |v.trails| == CONTAINERPOOL_SIZE && v.idx < COMMANDLIST_SIZE
    && Distinct(v.roots) && Distinct(v.stack)
    && (forall i :: 0 <= i < |v.roots| ==> v.roots[i] < CONTAINERPOOL_SIZE)
    && (forall i :: 0 <= i < |v.stack| ==> v.stack[i] < CONTAINERPOOL_SIZE && v.stack[i] in v.roots)
    && (v.roots == [] ==> v.idx == 0)
    && (v.roots != [] ==> v.cs[v.roots[0]].head == 0)
    && (forall e :: e in v.log ==> e.owner in v.roots)
  }

  /** Where the trail of root `c` must have got to: its tail once it is closed, the head of the root
      nested in it while that is open, and else the end of the buffer. */
  ghost predicate Reaches(v: View, c: nat, at: nat)
    requires Basic(v) && c in v.roots
  {
    && (c !in v.stack ==> at == v.cs[c].tail)
    && (forall i :: 0 <= i < |v.stack| && v.stack[i] == c ==> at == OpenEnd(v, i))
  }

  ghost function OpenEnd(v: View, i: nat): nat
    requires Basic(v) && i < |v.stack|
  {
    if i == |v.stack| - 1 then v.idx else v.cs[v.stack[i + 1]].head
  }

  ghost predicate RootOk(v: View, c: nat)
    requires Basic(v) && c in v.roots
  {
    var r, t := v.cs[c], v.trails[c];
    && r.head + JUMP_SIZE <= v.idx && v.items[r.head].Jump?
    && (c !in v.stack ==> JUMP_SIZE <= r.tail && r.tail + JUMP_SIZE <= v.idx && v.items[r.tail].Jump? &&
                          r.tail !in v.linked)
    && (c in v.stack ==> r.head !in v.linked)
    && |t| > 0 && t[0] == r.head + JUMP_SIZE
    && Links(v.items, v.idx, t)
    && (forall k :: 0 <= k < |t| - 1 ==> t[k] in v.linked)
    && (forall k :: 0 <= k < |t| ==> t[k] >= JUMP_SIZE)
    && Shown(v.items, Front(t)) == Own(v.log, c)
    && Reaches(v, c, Last(t))
  }

  ghost predicate ApartFrom(v: View, c: nat, d: nat)
    requires c < |v.cs| && d < |v.cs|
  {
    && v.cs[c].head != v.cs[d].head
    && (d !in v.stack ==> v.cs[c].head != v.cs[d].tail)
    && (c !in v.stack && d !in v.stack ==> v.cs[c].tail != v.cs[d].tail)
  }

  /** No two roots share a jump record. */
  ghost predicate Apart(v: View)
    requires Basic(v)
  {
    forall c, d :: c in v.roots && d in v.roots && c != d ==> ApartFrom(v, c, d)
  }

  ghost predicate Wf(v: View) {
    Basic(v) && Apart(v) && (forall o :: o in v.linked ==> 0 < o < v.idx) &&
    forall c :: c in v.roots ==> RootOk(v, c)
  }

  ghost function Top(v: View): nat
    requires v.stack != []
  { v.stack[|v.stack| - 1] }

  // ------------------------------------------------------------ the steps

  ghost function DrawStep(v: View, size: nat, d: Drawing): View
    requires Wf(v) && v.stack != []
  {
    var c := Top(v);
    v.(items := v.items[v.idx := Draw(size, d)], idx := v.idx + size,
       trails := v.trails[c := v.trails[c] + [v.idx + size]], linked := v.linked + {v.idx},
       log := v.log + [Entry(c, d)])
  }

  ghost function BeginStep(v: View, c: nat): View
    requires Wf(v) && c < CONTAINERPOOL_SIZE
  {
    v.(items := v.items[v.idx := Jump(NULL)], idx := v.idx + JUMP_SIZE,
       cs := v.cs[c := v.cs[c].(head := v.idx)], roots := v.roots + [c], stack := v.stack + [c],
       trails := v.trails[c := [v.idx + JUMP_SIZE]])
  }

  ghost function EndStep(v: View): View
    requires Wf(v) && v.stack != []
  {
    var c, end := Top(v), v.idx + JUMP_SIZE;
    var rest := v.stack[..|v.stack| - 1];
    var w := v.(items := v.items[v.idx := Jump(NULL)][v.cs[c].head := Jump(end)], idx := end,
                cs := v.cs[c := v.cs[c].(tail := v.idx)], stack := rest);
    if rest == [] then w
    else
      var p := rest[|rest| - 1];
      w.(trails := v.trails[p := v.trails[p] + [end]], linked := v.linked + {v.cs[c].head})
  }

  /** Every record a trail goes on from is the same in both states. */
  ghost predicate SameLinks(v: View, w: View) {
    |v.items| == |w.items| && forall o :: o in v.linked && o < |v.items| ==> w.items[o] == v.items[o]
  }

  lemma TrailKept(v: View, w: View, c: nat)
    requires Basic(v) && Basic(w) && c in v.roots && RootOk(v, c) && v.idx <= w.idx && SameLinks(v, w)
    ensures Links(w.items, w.idx, v.trails[c]) && Shown(w.items, Front(v.trails[c])) == Own(v.log, c)
  {
    ShownFrame(v.items, w.items, Front(v.trails[c]));
  }

  /** What a step leaves of a root it does not touch. */
  lemma RootKept(v: View, w: View, c: nat)
    requires Basic(v) && Basic(w) && c in v.roots && c in w.roots && v.idx <= w.idx && RootOk(v, c)
    requires w.trails[c] == v.trails[c] && w.cs[c] == v.cs[c] && (c in w.stack <==> c in v.stack)
    requires SameLinks(v, w) && v.linked <= w.linked
    requires w.items[v.cs[c].head].Jump? && (c !in v.stack ==> w.items[v.cs[c].tail].Jump?)
    requires (c in v.stack ==> v.cs[c].head !in w.linked) && (c !in v.stack ==> v.cs[c].tail !in w.linked)
    requires Own(w.log, c) == Own(v.log, c) && Reaches(w, c, Last(v.trails[c]))
    ensures RootOk(w, c)
  {
    hide Links, Shown, Own, Reaches;
    TrailKept(v, w, c);
  }

  /** The trail of `c` goes on past the record at its end. */
  lemma RootGrows(v: View, w: View, c: nat, at: nat)
    requires Basic(v) && Basic(w) && c in v.roots && c in w.roots && v.idx < w.idx && RootOk(v, c)
    requires w.trails[c] == v.trails[c] + [at] && w.cs[c] == v.cs[c] && c in w.stack && c in v.stack
    requires SameLinks(v, w)
    requires w.items[v.cs[c].head].Jump? && v.cs[c].head !in w.linked && at >= JUMP_SIZE
    requires var end := Last(v.trails[c]); w.linked == v.linked + {end} && end < w.idx && Succ(w.items, end) == at
    requires Own(w.log, c) == Own(v.log, c) + ShownAt(w.items, Last(v.trails[c])) && Reaches(w, c, at)
    ensures RootOk(w, c)
  {
    hide Own, Reaches;
    var t := v.trails[c];
    TrailKept(v, w, c);
    assert Front(w.trails[c]) == t;
  }

  lemma TopReaches(v: View)
    requires Wf(v) && v.stack != []
    ensures var c := Top(v); c in v.roots && RootOk(v, c) && Last(v.trails[c]) == v.idx
  {
    var n, c := |v.stack| - 1, Top(v);
    assert RootOk(v, c);
    assert Reaches(v, c, Last(v.trails[c]));
    assert v.stack[n] == c;
  }

  lemma OwnGrows(log: seq<Entry>, e: Entry, c: nat)
    ensures Own(log + [e], c) == Own(log, c) + if e.owner == c then [e.drawing] else []
  {
    assert (log + [e])[..|log + [e]| - 1] == log;
  }

  lemma {:induction false} OwnEmpty(log: seq<Entry>, c: nat)
    requires forall e :: e in log ==> e.owner != c
    ensures Own(log, c) == []
  {
    if log == [] {
    } else {
      OwnEmpty(log[..|log| - 1], c);
    }
  }

  /** The parts of the invariant that do not follow the trails. */
  ghost predicate Frame(v: View) {
    Basic(v) && Apart(v) && forall o :: o in v.linked ==> 0 < o < v.idx
  }

  lemma RootFacts(v: View, c: nat)
    requires Wf(v) && c in v.roots
    ensures Basic(v) && c < CONTAINERPOOL_SIZE && RootOk(v, c) && v.trails[c] != [] && Reaches(v, c, Last(v.trails[c]))
    ensures v.cs[c].head + JUMP_SIZE <= v.idx < COMMANDLIST_SIZE == |v.items| && v.items[v.cs[c].head].Jump?
    ensures c in v.stack ==> v.cs[c].head !in v.linked
    ensures c !in v.stack ==> v.cs[c].tail + JUMP_SIZE <= v.idx && v.items[v.cs[c].tail].Jump? &&
                              v.cs[c].tail !in v.linked
    ensures v.idx !in v.linked
  {}

  lemma DrawReaches(v: View, size: nat, d: Drawing, c: nat, at: nat)
    requires Wf(v) && v.stack != [] && Basic(DrawStep(v, size, d)) && c in v.roots && Reaches(v, c, at)
    ensures Reaches(DrawStep(v, size, d), c, if c == Top(v) then v.idx + size else at)
  {
    hide Apart, RootOk;
    var w := DrawStep(v, size, d);
    forall i | 0 <= i < |w.stack| && w.stack[i] == c
      ensures OpenEnd(w, i) == if c == Top(v) then v.idx + size else at
    {
      assert v.stack[i] == c && at == OpenEnd(v, i);
      if c == Top(v) { assert v.stack[i] == v.stack[|v.stack| - 1]; }
    }
  }

  lemma DrawTop(v: View, size: nat, d: Drawing)
    requires Wf(v) && v.stack != [] && 0 < size && v.idx + size < COMMANDLIST_SIZE && Frame(DrawStep(v, size, d))
    ensures RootOk(DrawStep(v, size, d), Top(v))
  {
    hide Links, Shown, Own, Apart, Wf, RootOk, Reaches, Basic, DrawStep;
    var w, c := DrawStep(v, size, d), Top(v);
    TopReaches(v);
    RootFacts(v, c);
    DrawFields(v, size, d, c);
    DrawReaches(v, size, d, c, Last(v.trails[c]));
    OwnGrows(v.log, Entry(c, d), c);
    RootGrows(v, w, c, v.idx + size);
  }

  /** What a drawing changes, as a root sees it. */
  lemma DrawFields(v: View, size: nat, d: Drawing, c: nat)
    requires Wf(v) && v.stack != [] && c in v.roots && 0 < size && v.idx + size < COMMANDLIST_SIZE
    ensures var w := DrawStep(v, size, d);
            w.cs == v.cs && w.roots == v.roots && w.stack == v.stack && w.idx == v.idx + size &&
            w.linked == v.linked + {v.idx} && w.log == v.log + [Entry(Top(v), d)] && SameLinks(v, w) &&
            |w.trails| == |v.trails| && c < |v.trails| &&
            w.trails[c] == (if c == Top(v) then v.trails[c] + [v.idx + size] else v.trails[c]) &&
            v.idx < |w.items| == |v.items| && w.items[v.idx] == Draw(size, d)
    ensures forall o :: 0 <= o < v.idx ==> DrawStep(v, size, d).items[o] == v.items[o]
    ensures v.idx !in v.linked
  {
    hide RootOk, Apart, Reaches, Own, Shown, Links;
    TopReaches(v);
  }

  lemma DrawOther(v: View, size: nat, d: Drawing, c: nat)
    requires Wf(v) && v.stack != [] && 0 < size && v.idx + size < COMMANDLIST_SIZE
    requires Frame(DrawStep(v, size, d)) && c in v.roots && c != Top(v)
    ensures RootOk(DrawStep(v, size, d), c)
  {
    hide Links, Shown, Own, Apart, Wf, RootOk, Reaches, Basic, DrawStep;
    var w := DrawStep(v, size, d);
    RootFacts(v, c);
    TopReaches(v);
    RootFacts(v, Top(v));
    DrawFields(v, size, d, c);
    DrawReaches(v, size, d, c, Last(v.trails[c]));
    OwnGrows(v.log, Entry(Top(v), d), c);
    RootKept(v, w, c);
  }

  lemma DrawKeeps(v: View, size: nat, d: Drawing)
    requires Wf(v) && v.stack != [] && 0 < size && v.idx + size < COMMANDLIST_SIZE
    ensures Wf(DrawStep(v, size, d))
  {
    hide Links, Shown, Own, Reaches;
    var w := DrawStep(v, size, d);
    TopReaches(v);
    assert Frame(w);
    forall c | c in w.roots ensures RootOk(w, c) {
      if c == Top(v) { DrawTop(v, size, d); } else { DrawOther(v, size, d, c); }
    }
  }

  lemma BeginRoot(v: View, c: nat, e: nat)
    requires Wf(v) && c < CONTAINERPOOL_SIZE && c !in v.roots && v.idx + JUMP_SIZE < COMMANDLIST_SIZE
    requires Frame(BeginStep(v, c)) && e in v.roots
    ensures RootOk(BeginStep(v, c), e)
  {
    hide Links, Shown, Own;
    assert RootOk(v, e);
    assert Reaches(v, e, Last(v.trails[e]));
    RootKept(v, BeginStep(v, c), e);
  }

  lemma BeginKeeps(v: View, c: nat)
    requires Wf(v) && c < CONTAINERPOOL_SIZE && c !in v.roots && v.idx + JUMP_SIZE < COMMANDLIST_SIZE
    ensures Wf(BeginStep(v, c))
  {
    hide Links, Shown, Own, Reaches, RootOk;
    var w := BeginStep(v, c);
    BeginFrameKept(v, c);
    forall e | e in v.roots ensures RootOk(w, e) { BeginRoot(v, c, e); }
    BeginNew(v, c);
  }

  lemma BeginBasic(v: View, c: nat)
    requires Wf(v) && c < CONTAINERPOOL_SIZE && c !in v.roots && v.idx + JUMP_SIZE < COMMANDLIST_SIZE
    ensures Basic(BeginStep(v, c))
  {
    hide RootOk, Apart, Reaches, Own, Links, Shown;
  }

  lemma BeginFrameKept(v: View, c: nat)
    requires Wf(v) && c < CONTAINERPOOL_SIZE && c !in v.roots && v.idx + JUMP_SIZE < COMMANDLIST_SIZE
    ensures Frame(BeginStep(v, c))
  {
    hide Links, Shown, Own, Reaches, RootOk, Distinct;
    BeginBasic(v, c);
    forall e | e in v.roots ensures v.cs[e].head < v.idx && (e !in v.stack ==> v.cs[e].tail < v.idx) {
      RootFacts(v, e);
    }
    hide Basic;
  }

  lemma BeginNew(v: View, c: nat)
    requires Wf(v) && c < CONTAINERPOOL_SIZE && c !in v.roots && v.idx + JUMP_SIZE < COMMANDLIST_SIZE
    requires Frame(BeginStep(v, c))
    ensures RootOk(BeginStep(v, c), c)
  {
    OwnEmpty(v.log, c);
  }

  lemma EndBasic(v: View)
    requires Wf(v) && v.stack != [] && v.idx + JUMP_SIZE < COMMANDLIST_SIZE
    ensures Basic(EndStep(v))
  {
    hide RootOk, Apart, Reaches, Own, Links, Shown, Distinct;
    RootFacts(v, Top(v));
    DistinctFront(v.stack);
    hide Wf;
  }

  lemma DistinctFront(s: seq<nat>)
    requires Distinct(s) && s != []
    ensures Distinct(Front(s))
  {}

  lemma EndOpen(v: View, c: nat)
    requires Basic(v) && v.stack != []
    ensures c in v.stack[..|v.stack| - 1] <==> c in v.stack && c != Top(v)
  {
    if c in v.stack && c != Top(v) {
      var i :| 0 <= i < |v.stack| && v.stack[i] == c;
      assert v.stack[..|v.stack| - 1][i] == c;
    }
  }

  lemma EndApartFrom(v: View, c: nat, d: nat)
    requires Wf(v) && v.stack != [] && v.idx + JUMP_SIZE < COMMANDLIST_SIZE && Basic(EndStep(v))
    requires c in v.roots && d in v.roots && c != d
    ensures ApartFrom(EndStep(v), c, d)
  {
    RootFacts(v, c);
    RootFacts(v, d);
    assert ApartFrom(v, c, d) && ApartFrom(v, d, c);
    EndOpen(v, c);
    EndOpen(v, d);
    hide Wf, RootOk, Apart, Basic, Reaches;
  }

  lemma EndApart(v: View)
    requires Wf(v) && v.stack != [] && v.idx + JUMP_SIZE < COMMANDLIST_SIZE && Basic(EndStep(v))
    ensures Apart(EndStep(v))
  {
    hide RootOk, ApartFrom;
    forall c, d | c in v.roots && d in v.roots && c != d ensures ApartFrom(EndStep(v), c, d) { EndApartFrom(v, c, d); }
  }

  lemma EndShape(v: View)
    requires Wf(v) && v.stack != [] && v.idx + JUMP_SIZE < COMMANDLIST_SIZE
    ensures Frame(EndStep(v))
  {
    EndBasic(v);
    EndApart(v);
    var n := |v.stack| - 1;
    RootFacts(v, v.stack[n]);
    if n > 0 {
      var p := v.stack[n - 1];
      RootFacts(v, p);
      assert Reaches(v, p, Last(v.trails[p]));
    }
    hide RootOk, Apart, Basic;
  }

  /** The records a later step relies on are not the ones patched when a root ends. */
  lemma EndItems(v: View)
    requires Wf(v) && v.stack != [] && v.idx + JUMP_SIZE < COMMANDLIST_SIZE
    ensures SameLinks(v, EndStep(v))
    ensures forall o :: 0 <= o < v.idx && v.items[o].Jump? ==> EndStep(v).items[o].Jump?
  {
    var w, c := EndStep(v), Top(v);
    TopReaches(v);
    RootFacts(v, c);
    hide Wf, RootOk, Basic, Apart, Reaches;
    assert w.items == v.items[v.idx := Jump(NULL)][v.cs[c].head := Jump(v.idx + JUMP_SIZE)];
  }

  /** What ending a root changes, as the other roots see it. */
  lemma EndFields(v: View, c: nat)
    requires Wf(v) && v.stack != [] && v.idx + JUMP_SIZE < COMMANDLIST_SIZE && c in v.roots && c != Top(v)
    ensures var w := EndStep(v);
            w.cs[c] == v.cs[c] && w.log == v.log && w.roots == v.roots && w.idx == v.idx + JUMP_SIZE &&
            v.linked <= w.linked <= v.linked + {v.cs[Top(v)].head} && (c in w.stack <==> c in v.stack)
    ensures var w := EndStep(v);
            if |v.stack| >= 2 && c == v.stack[|v.stack| - 2]
            then w.trails[c] == v.trails[c] + [w.idx] && w.linked == v.linked + {v.cs[Top(v)].head}
            else w.trails[c] == v.trails[c]
  {
    hide RootOk, Apart, Reaches;
    EndOpen(v, c);
    assert c < CONTAINERPOOL_SIZE && Top(v) < CONTAINERPOOL_SIZE;
    if |v.stack| >= 2 { assert v.stack[|v.stack| - 2] < CONTAINERPOOL_SIZE; }
    hide Wf, Basic;
  }

  lemma HeadsApart(v: View, c: nat, d: nat)
    requires Basic(v) && Apart(v) && c in v.roots && d in v.roots && c != d
    ensures v.cs[c].head != v.cs[d].head && (c !in v.stack ==> v.cs[c].tail != v.cs[d].head)
  {
    assert ApartFrom(v, c, d) && ApartFrom(v, d, c);
  }

  lemma EndParent(v: View)
    requires Wf(v) && |v.stack| >= 2 && v.idx + JUMP_SIZE < COMMANDLIST_SIZE && Frame(EndStep(v))
    ensures RootOk(EndStep(v), v.stack[|v.stack| - 2])
  {
    hide Links, Shown, Own, Apart, ApartFrom, Wf, RootOk, Reaches, Basic, EndStep;
    var w, p := EndStep(v), v.stack[|v.stack| - 2];
    ParentReaches(v);
    RootFacts(v, p);
    TopReaches(v);
    RootFacts(v, Top(v));
    EndItems(v);
    EndFields(v, p);
    WfApart(v);
    HeadsApart(v, p, Top(v));
    EndHead(v);
    assert ShownAt(w.items, Last(v.trails[p])) == [];
    RootGrows(v, w, p, w.idx);
  }

  lemma WfApart(v: View)
    requires Wf(v)
    ensures Basic(v) && Apart(v)
  {}

  /** Ending a root makes its head jump behind its tail. */
  lemma EndHead(v: View)
    requires Wf(v) && v.stack != [] && v.idx + JUMP_SIZE < COMMANDLIST_SIZE
    ensures v.cs[Top(v)].head < |EndStep(v).items|
    ensures EndStep(v).items[v.cs[Top(v)].head] == Jump(v.idx + JUMP_SIZE)
  {
    TopReaches(v);
    RootFacts(v, Top(v));
    hide Wf, RootOk, Basic, Apart, Reaches;
  }

  lemma ParentReaches(v: View)
    requires Wf(v) && |v.stack| >= 2 && v.idx + JUMP_SIZE < COMMANDLIST_SIZE && Basic(EndStep(v))
    ensures var p := v.stack[|v.stack| - 2];
            p in v.roots && p != Top(v) && p in v.stack && p in EndStep(v).stack && v.trails[p] != [] &&
            Last(v.trails[p]) == v.cs[Top(v)].head && Reaches(EndStep(v), p, EndStep(v).idx)
  {
    hide RootOk, Apart, Links, Shown, Own;
    var w, p, n := EndStep(v), v.stack[|v.stack| - 2], |v.stack| - 2;
    assert p in v.roots && v.stack[n] == p && w.stack[n] == p && v.stack[n + 1] == Top(v);
    RootFacts(v, p);
    assert Last(v.trails[p]) == OpenEnd(v, n);
    hide Wf;
    forall i | 0 <= i < |w.stack| && w.stack[i] == p ensures i == n { assert v.stack[i] == v.stack[n]; }
  }

  lemma EndReaches(v: View, c: nat, at: nat)
    requires Wf(v) && v.stack != [] && Basic(EndStep(v)) && c in v.roots && c != Top(v) && Reaches(v, c, at)
    requires |v.stack| >= 2 ==> c != v.stack[|v.stack| - 2]
    ensures Reaches(EndStep(v), c, at)
  {
    hide RootOk, Apart;
    var w := EndStep(v);
    forall i | 0 <= i < |w.stack| && w.stack[i] == c ensures at == OpenEnd(w, i) {
      assert v.stack[i] == c;
    }
  }

  lemma EndOther(v: View, c: nat)
    requires Wf(v) && v.stack != [] && v.idx + JUMP_SIZE < COMMANDLIST_SIZE
    requires Frame(EndStep(v)) && c in v.roots && c != Top(v)
    requires |v.stack| >= 2 ==> c != v.stack[|v.stack| - 2]
    ensures RootOk(EndStep(v), c)
  {
    hide Links, Shown, Own, Apart, ApartFrom, Wf, RootOk, Reaches, Basic, EndStep;
    var w := EndStep(v);
    RootFacts(v, c);
    TopReaches(v);
    RootFacts(v, Top(v));
    EndItems(v);
    EndReaches(v, c, Last(v.trails[c]));
    WfApart(v);
    HeadsApart(v, c, Top(v));
    EndFields(v, c);
    RootKept(v, w, c);
  }

  /** A root that has just been closed by a tail jump at the end of its trail. */
  lemma RootCloses(v: View, w: View, c: nat)
    requires Basic(v) && Basic(w) && c in v.roots && c in w.roots && v.idx + JUMP_SIZE <= w.idx && RootOk(v, c)
    requires w.trails[c] == v.trails[c] && w.cs[c] == v.cs[c].(tail := v.idx) && Last(v.trails[c]) == v.idx
    requires c !in w.stack && SameLinks(v, w) && v.linked <= w.linked && v.idx !in w.linked
    requires w.items[v.cs[c].head].Jump? && w.items[v.idx].Jump?
    requires Own(w.log, c) == Own(v.log, c) && Reaches(w, c, v.idx)
    ensures RootOk(w, c)
  {
    hide Links, Shown, Own, Reaches;
    TrailKept(v, w, c);
  }

  lemma EndTop(v: View)
    requires Wf(v) && v.stack != [] && v.idx + JUMP_SIZE < COMMANDLIST_SIZE
    requires Frame(EndStep(v))
    ensures RootOk(EndStep(v), Top(v))
  {
    var w, c := EndStep(v), Top(v);
    TopReaches(v);
    RootFacts(v, c);
    EndItems(v);
    EndTopReaches(v);
    hide Links, Shown, Own, Apart, Wf, RootOk, Reaches, Basic;
    RootCloses(v, w, c);
  }

  lemma EndTopReaches(v: View)
    requires Wf(v) && v.stack != [] && Basic(EndStep(v))
    ensures Top(v) !in EndStep(v).stack && Reaches(EndStep(v), Top(v), v.idx)
  {}

  lemma EndReady(v: View)
    requires Wf(v) && v.stack != []
    ensures Basic(v) && Top(v) < CONTAINERPOOL_SIZE && v.cs[Top(v)].head < v.idx
    ensures |v.stack| >= 2 ==> v.stack[|v.stack| - 2] < CONTAINERPOOL_SIZE
  {
    assert RootOk(v, Top(v));
  }

  lemma EndKeeps(v: View)
    requires Wf(v) && v.stack != [] && v.idx + JUMP_SIZE < COMMANDLIST_SIZE
    ensures Wf(EndStep(v))
  {
    hide Links, Shown, Own, Reaches, RootOk;
    EndShape(v);
    forall c | c in v.roots ensures RootOk(EndStep(v), c) {
      if c == Top(v) { EndTop(v); }
      else if |v.stack| >= 2 && c == v.stack[|v.stack| - 2] { EndParent(v); }
      else { EndOther(v, c); }
    }
  }

  // ------------------------------------------------------------ the end of a frame

  /** Where a walk enters root `c`. */
  function Entrance(v: View, c: nat): nat
    requires c < |v.cs|
  { v.cs[c].head + JUMP_SIZE }

  /** Roots of the frame, none of them open, each at most once. */
  ghost predicate Closed(v: View, order: seq<nat>) {
    Basic(v) && Distinct(order) &&
    forall i :: 0 <= i < |order| ==> order[i] < CONTAINERPOOL_SIZE && order[i] in v.roots && order[i] !in v.stack
  }

  /** The record that jumps to the `k`-th root of `order`, or past the last one. */
  ghost function Slot(v: View, order: seq<nat>, k: nat): nat
    requires Closed(v, order) && k <= |order|
  {
    if k == 0 then 0 else v.cs[order[k - 1]].tail
  }

  ghost function Target(v: View, order: seq<nat>, k: nat, last: int): int
    requires Closed(v, order) && k <= |order|
  {
    if k < |order| then Entrance(v, order[k]) else last
  }

  ghost predicate SlotSet(v: View, items: seq<Record>, order: seq<nat>, k: nat, dst: int)
    requires Closed(v, order) && k <= |order|
  {
    Slot(v, order, k) < |items| && items[Slot(v, order, k)] == Jump(dst)
  }

  /** `items` is the buffer of `v` with the first record jumping to the first root of `order` and
      each tail jumping to the root after it; the last jump goes to `last`. */
  ghost predicate Chained(v: View, items: seq<Record>, order: seq<nat>, last: int)
    requires Closed(v, order)
  {
    SameLinks(v, v.(items := items)) && 0 < v.idx &&
    forall k :: 0 <= k <= |order| ==> SlotSet(v, items, order, k, Target(v, order, k, last))
  }

  /** The walk from the start of the buffer through the roots of `order`. */
  ghost function Path(v: View, order: seq<nat>): seq<nat>
    requires Closed(v, order)
  {
    if order == [] then [0] else Path(v, Front(order)) + v.trails[Last(order)]
  }

  lemma LinksJoin(items: seq<Record>, idx: nat, p: seq<nat>, q: seq<nat>)
    requires Links(items, idx, p) && Links(items, idx, q) && p != [] && q != []
    requires Last(p) < idx && Succ(items, Last(p)) == q[0]
    ensures Links(items, idx, p + q)
  {}

  lemma ClosedTrail(v: View, items: seq<Record>, c: nat)
    requires Wf(v) && c in v.roots && c !in v.stack && SameLinks(v, v.(items := items))
    requires v.cs[c].tail < |items| && items[v.cs[c].tail].Jump?
    ensures var t := v.trails[c];
            t != [] && t[0] == Entrance(v, c) && Last(t) == v.cs[c].tail < v.idx &&
            Links(items, v.idx, t) && Shown(items, t) == Own(v.log, c)
  {
    hide Links, Own, Apart;
    assert RootOk(v, c);
    assert Reaches(v, c, Last(v.trails[c]));
    TrailKept(v, v.(items := items), c);
  }

  /** The buffer with its jumps set: the walk passes through the roots in order and shows what each drew. */
  lemma {:induction false} PathShows(v: View, items: seq<Record>, order: seq<nat>, last: int)
    requires Wf(v) && Closed(v, order) && Chained(v, items, order, last)
    ensures var p := Path(v, order);
            p != [] && p[0] == 0 && Last(p) < v.idx && items[Last(p)] == Jump(last) &&
            Links(items, v.idx, p) && Shown(items, p) == OwnAll(v.log, order)
  {
    hide Links, Shown, Own, RootOk, Apart, Reaches;
    assert SlotSet(v, items, order, |order|, Target(v, order, |order|, last));
    if order == [] {
      StartShows(items, v.idx);
    } else {
      var init, c := Front(order), Last(order);
      ClosedTrail(v, items, c);
      ChainFront(v, items, order, last);
      hide Wf, Basic, Closed, Chained;
      PathShows(v, items, init, Entrance(v, c));
      LinksJoin(items, v.idx, Path(v, init), v.trails[c]);
      ShownJoin(items, Path(v, init), v.trails[c]);
    }
  }

  lemma StartShows(items: seq<Record>, idx: nat)
    requires 0 < idx <= |items| && items[0].Jump?
    ensures Links(items, idx, [0]) && Shown(items, [0]) == []
  {
    assert ShownAt(items, 0) == [];
    assert Front([0]) == [];
  }

  lemma ChainFront(v: View, items: seq<Record>, order: seq<nat>, last: int)
    requires Closed(v, order) && Chained(v, items, order, last) && order != []
    ensures Closed(v, Front(order)) && Chained(v, items, Front(order), Entrance(v, Last(order)))
  {
    var init := Front(order);
    assert Closed(v, init);
    forall k | 0 <= k <= |init| ensures SlotSet(v, items, init, k, Target(v, init, k, Entrance(v, Last(order)))) {
      assert SlotSet(v, items, order, k, Target(v, order, k, last));
    }
  }

  /** The records that mu_end patches are distinct, and no trail goes on from them. */
  lemma SlotFacts(v: View, order: seq<nat>, k: nat)
    requires Wf(v) && Closed(v, order) && k <= |order| && 0 < v.idx
    ensures Slot(v, order, k) < v.idx && Slot(v, order, k) !in v.linked && (k > 0 ==> Slot(v, order, k) > 0)
    ensures forall j :: 0 <= j < k ==> Slot(v, order, j) != Slot(v, order, k)
  {
    hide Links, Shown, Own, Reaches;
    if k > 0 {
      RootFacts(v, order[k - 1]);
      assert RootOk(v, order[k - 1]);
      forall j | 0 < j < k ensures Slot(v, order, j) != Slot(v, order, k) {
        assert ApartFrom(v, order[j - 1], order[k - 1]);
      }
    }
  }

  /** Once the chain runs through all roots and ends at the end of the buffer, the walk is complete. */
  lemma FrameShows(v: View, items: seq<Record>, order: seq<nat>) returns (path: seq<nat>)
    requires Wf(v) && Closed(v, order) && |items| == |v.items|
    requires if order == [] then v.idx == 0 else Chained(v, items, order, v.idx)
    ensures path != [] && path[0] == 0 && Last(path) == v.idx && Links(items, v.idx, path)
    ensures Shown(items, Front(path)) == OwnAll(v.log, order)
  {
    if order == [] {
      path := [0];
    } else {
      hide Wf, Chained, Closed;
      PathShows(v, items, order, v.idx);
      LinksJoin(items, v.idx, Path(v, order), [v.idx]);
      path := Path(v, order) + [v.idx];
      assert Front(path) == Path(v, order);
    }
  }

  // ------------------------------------------------------------ the context

  ghost predicate SortedBy(cs: seq<Container>, order: seq<nat>) {
    (forall i :: 0 <= i < |order| ==> order[i] < |cs|) &&
    forall i, j :: 0 <= i < j < |order| ==> cs[order[i]].zindex <= cs[order[j]].zindex
  }

  lemma {:induction false} DistinctCount(s: seq<nat>, x: nat)
    requires Distinct(s)
    ensures multiset(s)[x] <= 1
  {
    if s == [] {
    } else {
      assert s == Front(s) + [Last(s)];
      DistinctCount(Front(s), x);
      assert Last(s) !in Front(s);
    }
  }

  lemma TwiceCounted(s: seq<nat>, i: nat, j: nat)
    requires i < j < |s| && s[i] == s[j]
    ensures multiset(s)[s[i]] >= 2
  {
    assert s == s[..j] + s[j..];
    assert s[i] == s[..j][i] && s[j] == s[j..][0];
    assert s[i] in multiset(s[..j]) && s[i] in multiset(s[j..]);
  }

  function Inserted(order: seq<nat>, j: nat, c: nat): seq<nat>
    requires j <= |order|
  {
    order[..j] + [c] + order[j..]
  }

  lemma InsertedAt(order: seq<nat>, j: nat, c: nat, a: nat)
    requires j <= |order| && a <= |order|
    ensures Inserted(order, j, c)[a] == if a < j then order[a] else if a == j then c else order[a - 1]
  {}

  lemma CountInserted(order: seq<nat>, j: nat, c: nat)
    requires j <= |order|
    ensures multiset(Inserted(order, j, c)) == multiset(order) + multiset{c}
  {
    assert order == order[..j] + order[j..];
  }

  lemma SortedInsert(cs: seq<Container>, order: seq<nat>, j: nat, c: nat)
    requires SortedBy(cs, order) && j <= |order| && c < |cs|
    requires forall k :: j <= k < |order| ==> cs[order[k]].zindex > cs[c].zindex
    requires forall k :: 0 <= k < j ==> cs[order[k]].zindex <= cs[c].zindex
    ensures SortedBy(cs, Inserted(order, j, c)) && multiset(Inserted(order, j, c)) == multiset(order) + multiset{c}
  {
    CountInserted(order, j, c);
    forall a | 0 <= a <= |order|
      ensures Inserted(order, j, c)[a] == if a < j then order[a] else if a == j then c else order[a - 1]
    {
      InsertedAt(order, j, c, a);
    }
    assert |Inserted(order, j, c)| == |order| + 1;
    hide Inserted;
  }

  lemma BeforeInsert(cs: seq<Container>, order: seq<nat>, j: nat, c: nat)
    requires SortedBy(cs, order) && j <= |order| && c < |cs| && (j > 0 ==> cs[order[j - 1]].zindex <= cs[c].zindex)
    ensures forall k :: 0 <= k < j ==> cs[order[k]].zindex <= cs[c].zindex
  {
    forall k | 0 <= k < j - 1 ensures cs[order[k]].zindex <= cs[order[j - 1]].zindex {}
  }

  /** A rearrangement of the closed roots of a frame is still a list of closed roots. */
  lemma PermutedRoots(v: View, order: seq<nat>)
    requires Wf(v) && v.stack == [] && multiset(order) == multiset(v.roots)
    ensures Closed(v, order)
  {
    hide RootOk, Apart;
    forall i, j | 0 <= i < j < |order| ensures order[i] != order[j] {
      DistinctCount(v.roots, order[i]);
      if order[i] == order[j] { TwiceCounted(order, i, j); }
    }
    forall i | 0 <= i < |order| ensures order[i] < CONTAINERPOOL_SIZE && order[i] in v.roots {
      assert order[i] in multiset(v.roots);
    }
  }

  lemma SameEmptiness(v: View, order: seq<nat>)
    requires Wf(v) && multiset(order) == multiset(v.roots)
    ensures order == [] <==> v.idx == 0
  {
    assert |order| == |multiset(order)| == |multiset(v.roots)| == |v.roots|;
    if v.roots != [] { RootFacts(v, v.roots[0]); }
  }

  lemma WfSized(v: View)
    requires Wf(v)
    ensures |v.cs| == |v.trails| == CONTAINERPOOL_SIZE && v.idx < COMMANDLIST_SIZE == |v.items|
    ensures forall i :: 0 <= i < |v.roots| ==> v.roots[i] < CONTAINERPOOL_SIZE
  {}

  lemma ZindexKeeps(v: View, c: nat, z: int)
    requires Wf(v) && c < CONTAINERPOOL_SIZE
    ensures Wf(v.(cs := v.cs[c := v.cs[c].(zindex := z)]))
  {
    hide Links, Shown, Own;
    var w := v.(cs := v.cs[c := v.cs[c].(zindex := z)]);
    forall e | e in v.roots ensures RootOk(w, e) {
      RootFacts(v, e);
      assert Reaches(w, e, Last(v.trails[e]));
    }
    forall e, f | e in v.roots && f in v.roots && e != f ensures ApartFrom(w, e, f) {
      assert ApartFrom(v, e, f);
    }
  }

  // ------------------------------------------------------------ whole frames

  /** What a list of calls adds up to: the roots begun, those still open, the drawings with the root
      each was made in, and the bytes of buffer used. */
  datatype Play = Play(roots: seq<nat>, open: seq<nat>, log: seq<Entry>, size: nat)

  ghost function Played(p: Play, call: Call): Play {
    match call
    case Begin(c, _) => Play(p.roots + [c], p.open + [c], p.log, p.size + JUMP_SIZE)
    case Push(size, d) =>
      p.(size := p.size + size, log := if p.open == [] then p.log else p.log + [Entry(Last(p.open), d)])
    case End => p.(size := p.size + JUMP_SIZE, open := if p.open == [] then [] else Front(p.open))
    case Raise(_) => p
    case Popup(_) => p
  }

  ghost function Playing(calls: seq<Call>): Play {
    if calls == [] then Play([], [], [], 0) else Played(Playing(Front(calls)), Last(calls))
  }

  ghost predicate Nests(p: Play, call: Call) {
    Played(p, call).size < COMMANDLIST_SIZE &&
    match call
    case Begin(c, _) =>
      c < CONTAINERPOOL_SIZE && c !in p.roots && |p.roots| < ROOTLIST_SIZE && |p.open| < CONTAINERSTACK_SIZE
    case Push(size, _) => p.open != [] && 0 < size
    case End => p.open != []
    case Raise(c) => c < CONTAINERPOOL_SIZE
    case Popup(c) => c < CONTAINERPOOL_SIZE
  }

  /** Calls that are nested properly, begin no container twice, draw only inside roots and
      stay within the fixed sizes that microui insists on. */
  ghost predicate WellNested(calls: seq<Call>) {
    calls == [] || (WellNested(Front(calls)) && Nests(Playing(Front(calls)), Last(calls)))
  }

  function ZIndexes(cs: seq<Container>): (r: seq<int>)
    ensures |r| == |cs|
  {
    seq(|cs|, i requires 0 <= i < |cs| => cs[i].zindex)
  }

  /** Only the zindex matters to the stacking order. */
  lemma SameOrder(cs: seq<Container>, c: nat, d: Container)
    requires c < |cs|
    ensures ZIndexes(cs[c := d]) == ZIndexes(cs)[c := d.zindex]
    ensures d.zindex == cs[c].zindex ==> ZIndexes(cs[c := d]) == ZIndexes(cs)
  {}

  /** The part of mu_Context that the command list is made of.  Containers are named by their index
      in the context's own array of them. */
  class Context {
    var items: array<Record>
    var idx: nat
    var containers: array<Container>
    var rootList: seq<nat>
    var containerStack: seq<nat>
    var lastZindex: int
    var nextHoverRoot: int
    ghost var trails: seq<seq<nat>>
    ghost var linked: set<nat>
    ghost var log: seq<Entry>
    ghost var path: seq<nat>

    ghost function V(): View
      reads this, items, containers
    {
      View(items[..], containers[..], idx, rootList, containerStack, trails, linked, log)
    }

    /** The stacking order. */
    ghost function Z(): Order
      reads this, containers
    {
      Order(ZIndexes(containers[..]), lastZindex, nextHoverRoot)
    }

    ghost predicate Valid()
      reads this, items, containers
    {
      Wf(V())
    }

    /** Between frames: all jumps are set and `path` is the walk they make. */
    ghost predicate Linked()
      reads this, items
    {
      idx < COMMANDLIST_SIZE == items.Length && path != [] && path[0] == 0 && Last(path) == idx &&
      Links(items[..], idx, path)
    }

    ghost predicate Idle()
      reads this
    {
      items.Length == COMMANDLIST_SIZE && containers.Length == CONTAINERPOOL_SIZE == |trails| && containerStack == []
    }

    constructor ()
      ensures Idle() && fresh(items) && fresh(containers)
      ensures Z() == Order(seq(CONTAINERPOOL_SIZE, _ => 0), 0, NULL)
    {
      items := new Record[COMMANDLIST_SIZE](_ => Jump(NULL));
      containers := new Container[CONTAINERPOOL_SIZE](_ => Container(0, 0, 0));
      idx, rootList, containerStack, lastZindex, nextHoverRoot := 0, [], [], 0, NULL;
      trails, linked, log, path := seq(CONTAINERPOOL_SIZE, _ => []), {}, [], [0];
    }

    /** mu_begin: forget the last frame's commands and roots. */
    method BeginFrame()
      requires Idle()
      modifies this
      ensures Valid() && idx == 0 && rootList == [] && containerStack == [] && log == []
      ensures items == old(items) && containers == old(containers) && Z() == old(Z()).(hover := NULL)
    {
      idx, rootList, nextHoverRoot := 0, [], NULL;
      linked, log := {}, [];
    }

    method PushCommand(r: Record, size: nat) returns (o: nat)
      requires idx + size < COMMANDLIST_SIZE == items.Length
      modifies items, this`idx
      ensures o == old(idx) && idx == old(idx) + size && items[..] == old(items[..])[o := r]
    {
      o := idx;
      items[o] := r;
      idx := idx + size;
    }

    method Draw(size: nat, d: Drawing)
      requires Valid() && containerStack != [] && 0 < size && idx + size < COMMANDLIST_SIZE
      modifies this, items
      ensures Valid() && V() == DrawStep(old(V()), size, d) && Z() == old(Z())
      ensures items == old(items) && containers == old(containers)
    {
      hide RootOk, Apart;
      DrawKeeps(V(), size, d);
      ghost var c := Top(V());
      ghost var o := PushCommand(Record.Draw(size, d), size);
      trails, linked, log := trails[c := trails[c] + [idx]], linked + {o}, log + [Entry(c, d)];
    }

    /** begin_root_container; `under` says whether the mouse is over the container. */
    method BeginRoot(c: nat, under: bool)
      requires Valid() && c < CONTAINERPOOL_SIZE && c !in rootList && idx + JUMP_SIZE < COMMANDLIST_SIZE
      requires |rootList| < ROOTLIST_SIZE && |containerStack| < CONTAINERSTACK_SIZE
      modifies this, items, containers
      ensures Valid() && V() == BeginStep(old(V()), c) && Z() == Hovered(old(Z()), c, under)
      ensures items == old(items) && containers == old(containers)
    {
      hide RootOk, Apart;
      BeginKeeps(V(), c);
      SameOrder(containers[..], c, containers[c].(head := idx));
      containerStack := containerStack + [c];
      rootList := rootList + [c];
      var head := PushCommand(Jump(NULL), JUMP_SIZE);
      containers[c] := containers[c].(head := head);
      if under && (!(0 <= nextHoverRoot < CONTAINERPOOL_SIZE) ||
                   containers[c].zindex > containers[nextHoverRoot].zindex) {
        nextHoverRoot := c;
      }
      trails := trails[c := [idx]];
    }

    /** end_root_container. */
    method EndRoot()
      requires Valid() && containerStack != [] && idx + JUMP_SIZE < COMMANDLIST_SIZE
      modifies this, items, containers
      ensures Valid() && V() == EndStep(old(V())) && Z() == old(Z())
      ensures items == old(items) && containers == old(containers)
    {
      hide Wf;
      EndKeeps(V());
      EndReady(V());
      SameOrder(containers[..], Top(V()), containers[Top(V())].(tail := idx));
      ghost var w := EndStep(V());
      var c := containerStack[|containerStack| - 1];
      var tail := PushCommand(Jump(NULL), JUMP_SIZE);
      containers[c] := containers[c].(tail := tail);
      items[containers[c].head] := Jump(idx);
      containerStack := containerStack[..|containerStack| - 1];
      if containerStack != [] {
        ghost var p := containerStack[|containerStack| - 1];
        trails, linked := trails[p := trails[p] + [idx]], linked + {containers[c].head};
      }
      assert V() == w;
    }

    /** What qsort does with the root list: some rearrangement in ascending zindex. */
    method SortRoots()
      requires containers.Length == CONTAINERPOOL_SIZE
      requires forall i :: 0 <= i < |rootList| ==> rootList[i] < CONTAINERPOOL_SIZE
      modifies this`rootList
      ensures multiset(rootList) == multiset(old(rootList)) && SortedBy(containers[..], rootList)
    {
      var roots, order: seq<nat> := rootList, [];
      for i := 0 to |roots|
        invariant multiset(order) == multiset(roots[..i]) && SortedBy(containers[..], order)
      {
        var c, j: nat := roots[i], |order|;
        while j > 0 && containers[order[j - 1]].zindex > containers[c].zindex
          invariant 0 <= j <= |order|
          invariant forall k :: j <= k < |order| ==> containers[order[k]].zindex > containers[c].zindex
        {
          j := j - 1;
        }
        assert roots[..i + 1] == roots[..i] + [c];
        BeforeInsert(containers[..], order, j, c);
        SortedInsert(containers[..], order, j, c);
        order := Inserted(order, j, c);
      }
      assert roots[..|roots|] == roots;
      rootList := order;
    }

    /** mu_bring_to_front. */
    method BringToFront(c: nat)
      requires Valid() && c < CONTAINERPOOL_SIZE
      modifies this`lastZindex, containers
      ensures Valid() && lastZindex == old(lastZindex) + 1
      ensures V() == old(V()).(cs := old(V()).cs[c := old(V()).cs[c].(zindex := lastZindex)])
      ensures Z() == Raised(old(Z()), c)
    {
      hide Wf;
      ghost var v := V();
      ZindexKeeps(v, c, lastZindex + 1);
      WfSized(v);
      SameOrder(containers[..], c, containers[c].(zindex := lastZindex + 1));
      lastZindex := lastZindex + 1;
      containers[c] := containers[c].(zindex := lastZindex);
      assert V() == v.(cs := v.cs[c := v.cs[c].(zindex := lastZindex)]);
    }

    /** mu_open_popup. */
    method OpenPopup(c: nat)
      requires Valid() && c < CONTAINERPOOL_SIZE
      modifies this`lastZindex, this`nextHoverRoot, containers
      ensures Valid() && Z() == Raised(old(Z()).(hover := c), c)
      ensures V() == old(V()).(cs := old(V()).cs[c := old(V()).cs[c].(zindex := lastZindex)])
    {
      nextHoverRoot := c;
      BringToFront(c);
    }

    /** mu_end brings the root under a pressed mouse to the front, unless it is there. */
    method ClickRoot(mousePressed: bool)
      requires Valid()
      modifies this`lastZindex, containers
      ensures Valid() && V() == old(V()).(cs := containers[..]) && containers.Length == CONTAINERPOOL_SIZE
      ensures var click := mousePressed && 0 <= nextHoverRoot < CONTAINERPOOL_SIZE &&
                           0 <= old(containers[..])[nextHoverRoot].zindex < old(lastZindex);
              lastZindex == old(lastZindex) + (if click then 1 else 0) &&
              forall c :: 0 <= c < CONTAINERPOOL_SIZE ==>
                containers[c].zindex ==
                if click && c == nextHoverRoot then old(lastZindex) + 1 else old(containers[..])[c].zindex
      ensures Z() == Clicked(old(Z()), mousePressed)
    {
      hide Wf;
      WfSized(V());
      if mousePressed && 0 <= nextHoverRoot < CONTAINERPOOL_SIZE &&
         0 <= containers[nextHoverRoot].zindex < lastZindex
      {
        BringToFront(nextHoverRoot);
      }
    }

    /** mu_end, as far as the command list goes: bring the root under a pressed mouse to the front,
        sort the roots and set the jumps.  The walk it leaves behind shows what each root drew, root after
        root in ascending zindex. */
    method EndFrame(mousePressed: bool)
      requires Valid() && containerStack == []
      modifies this, items, containers
      ensures Linked() && Idle()
      ensures multiset(rootList) == multiset(old(rootList)) && SortedBy(containers[..], rootList)
      ensures Shown(items[..], Front(path)) == OwnAll(old(log), rootList)
      ensures items == old(items) && containers == old(containers)
      ensures var click := mousePressed && 0 <= nextHoverRoot < CONTAINERPOOL_SIZE &&
                           0 <= old(containers[..])[nextHoverRoot].zindex < old(lastZindex);
              lastZindex == old(lastZindex) + (if click then 1 else 0) &&
              forall c :: 0 <= c < CONTAINERPOOL_SIZE ==>
                containers[c].zindex ==
                if click && c == nextHoverRoot then old(lastZindex) + 1 else old(containers[..])[c].zindex
      ensures nextHoverRoot == old(nextHoverRoot) && Z() == Clicked(old(Z()), mousePressed)
    {
      hide Wf, Chained, Closed, Shown, Links, SortedBy, Clicked, ZIndexes;
      ClickRoot(mousePressed);
      ghost var v := V();
      WfSized(v);
      SortRoots();
      PermutedRoots(v, rootList);
      SameEmptiness(v, rootList);
      LinkRoots(v);
      path := FrameShows(v, items[..], rootList);
    }

    /** The loop of mu_end that sets the jumps. */
    method LinkRoots(ghost v: View)
      requires Wf(v) && Closed(v, rootList) && V() == v.(roots := rootList) && (rootList != [] ==> 0 < v.idx)
      modifies items
      ensures items.Length == COMMANDLIST_SIZE && (rootList != [] ==> Chained(v, items[..], rootList, idx))
    {
      hide RootOk, Apart, Reaches, Wf;
      var n := |rootList|;
      for i := 0 to n
        invariant SameLinks(v, v.(items := items[..]))
        invariant forall k :: 0 <= k < i ==> SlotSet(v, items[..], rootList, k, Target(v, rootList, k, idx))
        invariant i == n > 0 ==> SlotSet(v, items[..], rootList, n, idx)
      {
        var cnt := rootList[i];
        SlotFacts(v, rootList, i);
        if i == 0 {
          items[0] := Jump(containers[cnt].head + JUMP_SIZE);
        } else {
          items[containers[rootList[i - 1]].tail] := Jump(containers[cnt].head + JUMP_SIZE);
        }
        if i == n - 1 {
          SlotFacts(v, rootList, n);
          items[containers[cnt].tail] := Jump(idx);
        }
      }
    }

    /** mu_next_command: from the command at `cmd`, or from the start for NULL, to the next one
        that is not a jump.  `k` is the place of `cmd` on the walk. */
    method NextCommand(cmd: int, ghost k: int) returns (more: bool, next: nat, ghost k': nat)
      requires Linked()
      requires if cmd == NULL then k == -1 else 0 <= k < |path| - 1 && path[k] == cmd && items[cmd].Draw?
      ensures k < k' < |path| && next == path[k'] && (more <==> k' < |path| - 1)
      ensures more ==> items[next].Draw?
      ensures forall j :: k < j < k' ==> items[path[j]].Jump?
    {
      if cmd != NULL {
        next := cmd + items[cmd].size;
      } else {
        next := 0;
      }
      k' := k + 1;
      while next != idx
        invariant k < k' < |path| && next == path[k']
        invariant forall j :: k < j < k' ==> items[path[j]].Jump?
        decreases |path| - k'
      {
        assert Succ(items[..], path[k']) == path[k' + 1] && items[..][path[k']] == items[path[k']];
        if !items[next].Jump? { return true, next, k'; }
        next := items[next].dst;
        k' := k' + 1;
      }
      more := false;
    }

    /** The renderer's loop over the command list: it comes to an end, having met every drawing of the walk once. */
    method Walk() returns (shown: seq<Drawing>)
      requires Linked()
      ensures shown == Shown(items[..], Front(path))
    {
      hide Shown;
      shown := [];
      NothingShown(items[..], path);
      var cmd: int := NULL;
      ghost var k := -1;
      while true
        invariant -1 <= k < |path| - 1 && (if k == -1 then cmd == NULL else path[k] == cmd && items[cmd].Draw?)
        invariant shown == Shown(items[..], path[..k + 1])
        decreases |path| - k
      {
        var more, next, k' := NextCommand(cmd, k);
        SkipJumps(items[..], path, k + 1, k');
        if !more { break; }
        ShownStep(items[..], path, k');
        shown, cmd, k := shown + [items[next].drawing], next, k';
      }
    }

    /** One call of the program that draws the frame. */
    method Perform(call: Call, ghost before: seq<Call>)
      requires Valid() && WellNested(before + [call])
      requires var p := Playing(before);
               rootList == p.roots && containerStack == p.open && log == p.log && idx == p.size
      modifies this, items, containers
      ensures Valid() && items == old(items) && containers == old(containers)
      ensures var p := Playing(before + [call]);
              rootList == p.roots && containerStack == p.open && log == p.log && idx == p.size
      ensures Z() == Called(old(Z()), call)
    {
      hide Wf;
      assert Front(before + [call]) == before && Last(before + [call]) == call;
      match call
      case Begin(c, under) => BeginRoot(c, under);
      case Push(size, d) => Draw(size, d);
      case End => EndRoot();
      case Raise(c) => BringToFront(c);
      case Popup(c) => OpenPopup(c);
    }

    /** mu_begin and the calls of a frame. */
    method PerformAll(calls: seq<Call>)
      requires Idle() && WellNested(calls)
      modifies this, items, containers
      ensures Valid() && items == old(items) && containers == old(containers)
      ensures rootList == Playing(calls).roots && containerStack == Playing(calls).open && log == Playing(calls).log
      ensures Z() == Stacked(old(Z()).(hover := NULL), calls)
    {
      hide Wf;
      BeginFrame();
      ghost var z := Z();
      for i := 0 to |calls|
        invariant Valid() && items == old(items) && containers == old(containers) && Z() == Stacked(z, calls[..i])
        invariant var p := Playing(calls[..i]);
                  rootList == p.roots && containerStack == p.open && log == p.log && idx == p.size
      {
        assert calls[..i] + [calls[i]] == calls[..i + 1];
        NestedPrefix(calls, i + 1);
        StackedMore(z, calls[..i], calls[i]);
        Perform(calls[i], calls[..i]);
      }
      assert calls[..|calls|] == calls;
    }

    /** A whole frame: whatever well-nested calls draw it, walking the command list afterwards meets exactly
        the drawings made in each root, root after root in ascending zindex, each root's in the order it made them. */
    method RunFrame(calls: seq<Call>, mousePressed: bool) returns (shown: seq<Drawing>)
      requires Idle() && WellNested(calls) && Playing(calls).open == []
      modifies this, items, containers
      ensures Idle() && items == old(items) && containers == old(containers)
      ensures multiset(rootList) == multiset(Playing(calls).roots) && SortedBy(containers[..], rootList)
      ensures shown == OwnAll(Playing(calls).log, rootList)
      ensures Z() == Clicked(Stacked(old(Z()).(hover := NULL), calls), mousePressed)
      ensures Bounded(old(Z())) ==> Bounded(Z())
      ensures var z := Stacked(old(Z()).(hover := NULL), calls);
              Bounded(old(Z())) && Clicks(z, mousePressed) && z.hover in rootList ==> Last(rootList) == z.hover
    {
      hide Wf, Clicks, WellNested, Playing, Stacked, Clicked, SortedBy, OwnAll;
      ghost var z := Z().(hover := NULL);
      PerformAll(calls);
      if Bounded(z) { StackedBounded(z, calls); }
      EndFrame(mousePressed);
      ClickedLast(Stacked(z, calls), mousePressed, containers[..], rootList);
      shown := Walk();
    }
  }

  lemma StackedMore(z: Order, calls: seq<Call>, call: Call)
    ensures Stacked(z, calls + [call]) == Called(Stacked(z, calls), call)
  {
    assert Front(calls + [call]) == calls;
  }

  /** The root that was clicked comes last, and everything stays below the last one brought to the front. */
  lemma ClickedLast(z: Order, pressed: bool, cs: seq<Container>, order: seq<nat>)
    requires SortedBy(cs, order) && ZIndexes(cs) == Clicked(z, pressed).zs
    ensures Bounded(z) ==> Bounded(Clicked(z, pressed))
    ensures Bounded(z) && Clicks(z, pressed) && z.hover in order ==> Last(order) == z.hover
  {
    if Bounded(z) && Clicks(z, pressed) && z.hover in order {
      ClickOnTop(z);
      var i :| 0 <= i < |order| && order[i] == z.hover;
      var n := |order| - 1;
      var zs := ZIndexes(cs);
      assert zs[order[i]] == cs[order[i]].zindex && zs[order[n]] == cs[order[n]].zindex;
      assert zs[order[i]] <= zs[order[n]];
    }
  }

  /** What is drawn in the last root is drawn over everything else. */
  lemma LastOnTop(log: seq<Entry>, order: seq<nat>)
    requires order != []
    ensures OwnAll(log, order) == OwnAll(log, Front(order)) + Own(log, Last(order))
  {}

  /** A click on the lower one of two windows that overlap: it is drawn over the other one. */
  method ClickOnLower(a: Drawing, b: Drawing) returns (shown: seq<Drawing>)
    ensures shown == [b, a]
  {
    hide WellNested, Playing, Stacked, SortedBy;
    var context := new Context();
    var calls := [Raise(0), Raise(1), Begin(0, true), Push(8, a), End, Begin(1, false), Push(8, b), End];
    TwoWindows(a, b);
    shown := context.RunFrame(calls, true);
    assert 0 in multiset(context.rootList);
    TwoSorted(context.containers[..], context.rootList);
    TwoShown(a, b);
  }

  const START := Order(seq(CONTAINERPOOL_SIZE, _ => 0), 0, NULL)

  lemma CallMore(calls: seq<Call>, call: Call)
    requires WellNested(calls) && Nests(Playing(calls), call)
    ensures WellNested(calls + [call]) && Playing(calls + [call]) == Played(Playing(calls), call)
    ensures Stacked(START, calls + [call]) == Called(Stacked(START, calls), call)
  {
    assert Front(calls + [call]) == calls;
  }

  /** A window's calls: what it draws is its own. */
  lemma WindowMore(calls: seq<Call>, c: nat, under: bool, d: Drawing)
    requires WellNested(calls) && Playing(calls).open == [] && Playing(calls).size < 1000 && |Playing(calls).roots| < 2
    requires c < 2 && c !in Playing(calls).roots
    ensures var p, next := Playing(calls), calls + [Begin(c, under)] + [Push(8, d)] + [End];
            WellNested(next) && Playing(next) == Play(p.roots + [c], [], p.log + [Entry(c, d)], p.size + 40) &&
            Stacked(START, next) == Hovered(Stacked(START, calls), c, under)
  {
    hide WellNested, Playing, Stacked;
    CallMore(calls, Begin(c, under));
    CallMore(calls + [Begin(c, under)], Push(8, d));
    CallMore(calls + [Begin(c, under)] + [Push(8, d)], End);
  }

  lemma TwoWindows(a: Drawing, b: Drawing)
    ensures var calls := [Raise(0), Raise(1), Begin(0, true), Push(8, a), End, Begin(1, false), Push(8, b), End];
            WellNested(calls) && Playing(calls) == Play([0, 1], [], [Entry(0, a), Entry(1, b)], 80) &&
            Stacked(START, calls) == START.(zs := START.zs[0 := 1][1 := 2], last := 2, hover := 0)
  {
    hide WellNested, Playing, Stacked, Nests, Played, Called, Hovered;
    var second := [Raise(0)] + [Raise(1)];
    TwoRaises();
    WindowMore(second, 0, true, a);
    var third := second + [Begin(0, true)] + [Push(8, a)] + [End];
    WindowMore(third, 1, false, b);
    HoverLower();
    assert third + [Begin(1, false)] + [Push(8, b)] + [End]
        == [Raise(0), Raise(1), Begin(0, true), Push(8, a), End, Begin(1, false), Push(8, b), End];
  }

  const RAISED := START.(zs := START.zs[0 := 1][1 := 2], last := 2)

  lemma TwoRaises()
    ensures var calls := [Raise(0)] + [Raise(1)];
            WellNested(calls) && Playing(calls) == Play([], [], [], 0) && Stacked(START, calls) == RAISED
  {
    hide WellNested, Playing, Stacked;
    NothingCalled();
    assert [] + [Raise(0)] == [Raise(0)];
    CallMore([], Raise(0));
    CallMore([Raise(0)], Raise(1));
  }

  lemma HoverLower()
    ensures Hovered(Hovered(RAISED, 0, true), 1, false) == RAISED.(hover := 0)
  {}

  lemma NothingCalled()
    ensures Playing([]) == Play([], [], [], 0) && WellNested([]) && Stacked(START, []) == START
  {}

  lemma TwoSorted(cs: seq<Container>, order: seq<nat>)
    requires SortedBy(cs, order) && multiset(order) == multiset([0, 1]) && Last(order) == 0
    ensures order == [1, 0]
  {
    assert |order| == |multiset(order)| == |multiset([0, 1])| == 2;
    assert order == [order[0], order[1]] && order[1] == 0;
    assert order[0] in multiset(order);
    assert multiset(order)[0] == 1;
  }

  lemma TwoShown(a: Drawing, b: Drawing)
    ensures OwnAll([Entry(0, a), Entry(1, b)], [1, 0]) == [b, a]
  {
    var log := [Entry(0, a), Entry(1, b)];
    assert log[..1] == [Entry(0, a)] && log[..1][..0] == [];
    assert Own([], 0) == [] && Own([], 1) == [];
    assert Own(log[..1], 0) == [a] && Own(log[..1], 1) == [];
    assert Own(log, 0) == [a] && Own(log, 1) == [b];
    assert [1, 0][..1] == [1] && [1][..0] == [];
    assert OwnAll(log, []) == [] && OwnAll(log, [1]) == [b];
  }

  lemma {:induction false} NestedPrefix(calls: seq<Call>, i: nat)
    requires WellNested(calls) && i <= |calls|
    ensures WellNested(calls[..i])
  {
    if i == |calls| {
      assert calls[..i] == calls;
    } else {
      NestedPrefix(Front(calls), i);
      assert Front(calls)[..i] == calls[..i];
    }
  }

  lemma NothingShown(items: seq<Record>, p: seq<nat>)
    ensures Shown(items, p[..0]) == []
  {}

  lemma ShownStep(items: seq<Record>, p: seq<nat>, k: nat)
    requires k < |p|
    ensures Shown(items, p[..k + 1]) == Shown(items, p[..k]) + ShownAt(items, p[k])
  {
    assert Front(p[..k + 1]) == p[..k];
  }

  lemma {:induction false} SkipJumps(items: seq<Record>, p: seq<nat>, i: nat, j: nat)
    requires i <= j <= |p| && forall k :: i <= k < j ==> p[k] < |items| && items[p[k]].Jump?
    ensures Shown(items, p[..j]) == Shown(items, p[..i])
  {
    if i >= j {
    } else {
      SkipJumps(items, p, i, j - 1);
      assert Front(p[..j]) == p[..j - 1] && Last(p[..j]) == p[j - 1];
    }
  }
}
