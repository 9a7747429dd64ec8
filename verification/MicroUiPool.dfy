/** microui's retained-state pools: fixed arrays of slots, looked up by id and recycled
    least recently updated first. */
module MicroUiPool {

  const POOL_SIZE: nat := 48

  datatype PoolItem = PoolItem(id: nat, lastUpdate: int)

  datatype Slot = None | Some(idx: nat)

  /** A non-zero id has at most one slot, and no slot is ahead of the frame counter. */
  ghost predicate Consistent(s: seq<PoolItem>, frame: int) {
    |s| == POOL_SIZE && 0 < frame &&
    (forall i, j :: 0 <= i < j < |s| && s[i].id == s[j].id ==> s[i].id == 0) &&
    forall i :: 0 <= i < |s| ==> s[i].lastUpdate <= frame
  }

  /** `n` is the slot to recycle: the first of those updated longest ago, none of them in this frame. */
  ghost predicate Oldest(s: seq<PoolItem>, frame: int, n: nat) {
    n < |s| && s[n].lastUpdate < frame &&
    (forall i :: 0 <= i < |s| ==> s[n].lastUpdate <= s[i].lastUpdate) &&
    forall i :: 0 <= i < n ==> s[n].lastUpdate < s[i].lastUpdate
  }

  ghost predicate Holds(s: seq<PoolItem>, id: nat) { exists i :: 0 <= i < |s| && s[i].id == id }

  /** Some slot has not been touched in this frame. */
  ghost predicate HasIdle(s: seq<PoolItem>, frame: int) { exists i :: 0 <= i < |s| && s[i].lastUpdate < frame }

  /** Recycling keeps ids unique and leaves every slot touched in this frame alone. */
  lemma RecycleKeeps(s: seq<PoolItem>, frame: int, n: nat, id: nat)
    requires Consistent(s, frame) && Oldest(s, frame, n) && !Holds(s, id)
    ensures var s' := s[n := PoolItem(id, frame)];
            Consistent(s', frame) && Holds(s', id) &&
            forall i :: 0 <= i < |s| && s[i].lastUpdate == frame ==> s'[i] == s[i]
  {
    var s' := s[n := PoolItem(id, frame)];
    assert s'[n].id == id;
  }

  class Pool {
    const items: array<PoolItem>
    var frame: int

    ghost predicate Valid()
      reads this, items
    {
      items.Length == POOL_SIZE && Consistent(items[..], frame)
    }

    /** After mu_init and the first mu_begin. */
    constructor ()
      ensures Valid() && fresh(items) && frame == 1 && forall i :: 0 <= i < POOL_SIZE ==> items[i] == PoolItem(0, 0)
    {
      items := new PoolItem[POOL_SIZE](_ => PoolItem(0, 0));
      frame := 1;
    }

    /** mu_begin: from here on no slot counts as touched. */
    method BeginFrame()
      requires Valid()
      modifies this
      ensures Valid() && frame == old(frame) + 1 && forall i :: 0 <= i < POOL_SIZE ==> items[i].lastUpdate < frame
    {
      frame := frame + 1;
    }

    /** mu_pool_get: the first slot with the id. */
    method Get(id: nat) returns (r: Slot)
      requires items.Length == POOL_SIZE
      ensures r.None? <==> !Holds(items[..], id)
      ensures r.Some? ==> r.idx < POOL_SIZE && items[r.idx].id == id && forall i :: 0 <= i < r.idx ==> items[i].id != id
    {
      for i := 0 to items.Length
        invariant forall k :: 0 <= k < i ==> items[k].id != id
      {
        if items[i].id == id {
          assert items[..][i].id == id;
          return Some(i);
        }
      }
      r := None;
    }

    method Update(idx: nat)
      requires Valid() && idx < POOL_SIZE
      modifies items
      ensures Valid() && items[..] == old(items[..])[idx := old(items[idx]).(lastUpdate := frame)]
    {
      items[idx] := items[idx].(lastUpdate := frame);
    }

    /** mu_pool_init, for an id that has no slot.  None stands for the failed `expect`. */
    method Init(id: nat) returns (r: Slot)
      requires Valid() && !Holds(items[..], id)
      modifies items
      ensures Valid()
      ensures r.Some? <==> HasIdle(old(items[..]), frame)
      ensures r.Some? ==> Oldest(old(items[..]), frame, r.idx) &&
                          items[..] == old(items[..])[r.idx := PoolItem(id, frame)]
      ensures r.None? ==> items[..] == old(items[..])
    {
      ghost var s := items[..];
      var n, f := -1, frame;
      for i := 0 to items.Length
        invariant -1 <= n < i && f <= frame && items[..] == s
        invariant n == -1 ==> f == frame
        invariant n >= 0 ==> f == s[n].lastUpdate < frame && forall k :: 0 <= k < n ==> f < s[k].lastUpdate
        invariant forall k :: 0 <= k < i ==> f <= s[k].lastUpdate
      {
        if items[i].lastUpdate < f {
          f := items[i].lastUpdate;
          n := i;
        }
      }
      if n == -1 { return None; }
      RecycleKeeps(s, frame, n, id);
      items[n] := items[n].(id := id);
      items[n] := items[n].(lastUpdate := frame);
      assert items[..] == s[n := PoolItem(id, frame)];
      r := Some(n);
    }

    /** Every slot touched in this frame is as it was. */
    twostate predicate KeepsTouched()
      reads this, items
    {
      forall i :: 0 <= i < items.Length && old(items[i].lastUpdate) == old(frame) ==> items[i] == old(items[i])
    }

    /** get_container: `isOpen` is the open flag of the container in the slot found, `closed` the option
        bit.  None is the NULL returned for a closed container without a slot, or the failed `expect`. */
    method GetContainer(id: nat, isOpen: bool, closed: bool) returns (r: Slot)
      requires Valid()
      modifies items
      ensures Valid() && KeepsTouched()
      ensures r.None? ==> items[..] == old(items[..])
      ensures r.None? <==> !Holds(old(items[..]), id) && (closed || !HasIdle(old(items[..]), frame))
      ensures r.Some? ==> r.idx < POOL_SIZE && items[r.idx].id == id &&
                          (isOpen || !closed ==> items[r.idx].lastUpdate == frame)
      ensures r.Some? ==> forall i :: 0 <= i < POOL_SIZE && i != r.idx ==> items[i] == old(items[i])
      ensures r.Some? && !Holds(old(items[..]), id) ==> Oldest(old(items[..]), frame, r.idx)
    {
      r := Get(id);
      if r.Some? {
        if isOpen || !closed { Update(r.idx); }
        return;
      }
      if closed { return None; }
      r := Init(id);
    }

    /** The pool work of `header`: a click flips whether the tree node is in the pool; a node that stays is
        touched, one that goes has its slot cleared.  Returns false for the failed `expect`. */
    method Header(id: nat, clicked: bool) returns (ok: bool)
      requires Valid() && id != 0
      modifies items
      ensures Valid()
      ensures ok ==> (Holds(items[..], id) <==> Holds(old(items[..]), id) != clicked)
      ensures !ok <==> clicked && !Holds(old(items[..]), id) && !HasIdle(old(items[..]), frame)
      ensures forall i :: 0 <= i < POOL_SIZE && old(items[i].id) != id && items[i] != old(items[i]) ==>
                clicked && Oldest(old(items[..]), frame, i)
    {
      var r := Get(id);
      var active := r.Some? != clicked;
      ok := true;
      if r.Some? {
        if active {
          Update(r.idx);
          assert items[..][r.idx].id == id;
        } else {
          items[r.idx] := PoolItem(0, 0);
        }
      } else if active {
        r := Init(id);
        ok := r.Some?;
        assert ok ==> items[..][r.idx].id == id;
      }
    }

    /** All the containers a frame asks for: a slot handed out is never given to another container before the
        frame ends, so two requests share a slot exactly when they share an id. */
    method GetAll(ids: seq<nat>) returns (slots: seq<Slot>)
      requires Valid()
      modifies items
      ensures Valid() && |slots| == |ids|
      ensures forall k :: 0 <= k < |ids| && slots[k].Some? ==>
                slots[k].idx < POOL_SIZE && items[slots[k].idx] == PoolItem(ids[k], frame)
      ensures forall j, k :: 0 <= j < |ids| && 0 <= k < |ids| && slots[j].Some? && slots[k].Some? && ids[j] != 0 ==>
                (slots[j] == slots[k] <==> ids[j] == ids[k])
    {
      slots := [];
      for i := 0 to |ids|
        invariant Valid() && |slots| == i
        invariant forall k :: 0 <= k < i && slots[k].Some? ==>
                    slots[k].idx < POOL_SIZE && items[slots[k].idx] == PoolItem(ids[k], frame)
      {
        label before:
        var r := GetContainer(ids[i], true, false);
        assert forall k :: 0 <= k < i && slots[k].Some? ==> items[slots[k].idx] == old@before(items[slots[k].idx]);
        slots := slots + [r];
      }
    }
  }
}
