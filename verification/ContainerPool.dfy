// The retained containers of microui: a fixed pool of slots, the least recently used one being
// reused (fs/user/microui.um).
module ContainerPool {

  const RETAINEDPOOL_SIZE := 48

  datatype PoolItem = PoolItem(id: nat, lastUpdate: nat)

  /** The slot that has gone unused for longest, the first of these. */
  predicate LeastRecent(items: seq<PoolItem>, n: int) {
    && 0 <= n < |items|
    && (forall k | 0 <= k < n :: items[n].lastUpdate < items[k].lastUpdate)
    && (forall k | n <= k < |items| :: items[n].lastUpdate <= items[k].lastUpdate)
  }

  /** Id 0 marks the slots that were never used. */
  predicate UniqueIds(items: seq<PoolItem>) {
    forall m, n | 0 <= m < n < |items| && items[m].id != 0 :: items[m].id != items[n].id
  }

  /** Giving a slot to an id no slot has keeps the ids unique. */
  lemma NewIdKeepsUnique(items: seq<PoolItem>, n: nat, id: nat, frame: nat)
    requires n < |items| && UniqueIds(items) && forall k | 0 <= k < |items| :: items[k].id != id
    ensures UniqueIds(items[n := PoolItem(id, frame)])
  {
    var t := items[n := PoolItem(id, frame)];
    forall i, j | 0 <= i < j < |t| && t[i].id != 0 ensures t[i].id != t[j].id {
      assert i != n ==> t[i] == items[i];
      assert j != n ==> t[j] == items[j];
    }
  }

  datatype Lookup = Slot(n: nat) | NoContainer | PoolExhausted

  class Pool {
    const items: array<PoolItem>
    const open: array<bool>
    var frame: nat

    ghost predicate Valid()
      reads this, items
    {
      && items.Length == open.Length == RETAINEDPOOL_SIZE && items as object != open && UniqueIds(items[..])
      && forall k | 0 <= k < RETAINEDPOOL_SIZE :: items[k].lastUpdate <= frame
    }

    constructor ()
      ensures Valid() && frame == 0 && fresh(items) && fresh(open) && items.Length == 48
    {
      items := new PoolItem[RETAINEDPOOL_SIZE](_ => PoolItem(0, 0));
      open := new bool[RETAINEDPOOL_SIZE](_ => false);
      frame := 0;
    }

    /** The first slot with the id, or -1. */
    method PoolGet(id: nat) returns (n: int)
      requires Valid()
      ensures if n >= 0 then n < RETAINEDPOOL_SIZE && items[n].id == id && forall k | 0 <= k < n :: items[k].id != id
              else n == -1 && forall k | 0 <= k < RETAINEDPOOL_SIZE :: items[k].id != id
    {
      for i := 0 to items.Length
        invariant forall k | 0 <= k < i :: items[k].id != id
      {
        if items[i].id == id {
          return i;
        }
      }
      return -1;
    }

    method PoolUpdate(n: nat)
      requires Valid() && n < RETAINEDPOOL_SIZE
      modifies items
      ensures Valid() && items[..] == old(items[..])[n := old(items[n]).(lastUpdate := frame)]
    {
      items[n] := PoolItem(items[n].id, frame);
    }

    /** Give the least recently used slot to a new id. A slot already used in this frame is never
        taken; if there is no other, the code's assertion fails (n is -1 then). */
    method PoolInit(id: nat) returns (n: int)
      requires Valid() && forall k | 0 <= k < RETAINEDPOOL_SIZE :: items[k].id != id
      modifies items
      ensures Valid()
      ensures if n >= 0
              then n < 48 && LeastRecent(old(items[..]), n) && old(items[..])[n].lastUpdate < frame
                   && (forall k | 0 <= k < 48 :: old(items[n].lastUpdate) <= old(items[k].lastUpdate))
                   && (forall k | 0 <= k < n :: old(items[n].lastUpdate) < old(items[k].lastUpdate))
                   && items[..] == old(items[..])[n := PoolItem(id, frame)]
              else n == -1 && items[..] == old(items[..])
                   && forall k | 0 <= k < RETAINEDPOOL_SIZE :: items[k].lastUpdate == frame
    {
      n := -1;
      var f := frame;
      for i := 0 to items.Length
        invariant -1 <= n < i
        invariant n >= 0 ==> f == items[n].lastUpdate < frame
        invariant n >= 0 ==> forall k | 0 <= k < i ::
          if k < n then f < items[k].lastUpdate else f <= items[k].lastUpdate
        invariant n < 0 ==> f == frame && forall k | 0 <= k < i :: items[k].lastUpdate == frame
      {
        if items[i].lastUpdate < f {
          f, n := items[i].lastUpdate, i;
        }
      }
      if n > -1 {
        NewIdKeepsUnique(items[..], n, id, frame);
        items[n] := PoolItem(id, frame);
      }
    }

    /** The container of an id: the slot that has it, else a fresh one unless the caller only wants
        an open container. */
    method GetContainer(id: nat, closed: bool) returns (r: Lookup)
      requires Valid()
      modifies items, open
      ensures Valid()
      ensures r.Slot? ==> r.n < RETAINEDPOOL_SIZE && items[r.n].id == id
      ensures r.Slot? && id != 0 ==> forall k | 0 <= k < RETAINEDPOOL_SIZE && k != r.n :: items[k].id != id
      ensures r.Slot? && old(items[r.n].id) == id ==>
        && open[r.n] == old(open[r.n])
        && items[r.n].lastUpdate == if open[r.n] || !closed then frame else old(items[r.n].lastUpdate)
      ensures forall k | 0 <= k < RETAINEDPOOL_SIZE && !(r.Slot? && k == r.n) ::
        items[k] == old(items[k]) && open[k] == old(open[k])
      ensures r.Slot? && old(items[r.n].id) != id ==>
        && !closed && open[r.n] && items[r.n].lastUpdate == frame
        && LeastRecent(old(items[..]), r.n) && old(items[r.n].lastUpdate) < frame
        && (forall k | 0 <= k < 48 :: old(items[r.n].lastUpdate) <= old(items[k].lastUpdate))
        && forall k | 0 <= k < RETAINEDPOOL_SIZE :: old(items[..])[k].id != id
      ensures r.NoContainer? ==> closed && forall k | 0 <= k < RETAINEDPOOL_SIZE :: items[k].id != id
      ensures r.PoolExhausted? ==>
        !closed && forall k | 0 <= k < RETAINEDPOOL_SIZE :: items[k].lastUpdate == frame && items[k].id != id
    {
      var n := PoolGet(id);
      if n >= 0 {
        if open[n] || !closed {
          PoolUpdate(n);
        }
        return Slot(n);
      }
      if closed {
        return NoContainer;
      }
      n := PoolInit(id);
      if n < 0 {
        return PoolExhausted;
      }
      open[n] := true;
      return Slot(n);
    }
  }
}
