/**
 * Size-classed array pools and the buffers that own arrays from them (common/bytespool/pool.go,
 * common/buf/buffer.go).
 */
module BytesPools {
  import opened Basics

  const NUM_POOLS := 4
  const POOL_SIZES: seq<nat> := [2048, 8192, 32768, 131072]

  type Id = nat                         // identity of a byte array

  datatype Ownership = Managed | Unmanaged | Bytespools
  datatype Buf = Buf(v: Option<Id>, ownership: Ownership)

  /** A live buffer that will give its array back. An unmanaged one only borrows an array that others may hold. */
  predicate Owns(b: Buf) {
    b.v.Some? && b.ownership != Unmanaged
  }

  /** Who holds an array: a pool, a caller, a buffer that owns it, or nobody any more. */
  datatype Owner = InPool(i: nat) | OfCaller | OfBuffer(b: nat) | Dropped

  /** The smallest class that covers `size`, or NUM_POOLS. */
  predicate CoveringClass(size: int, i: nat) {
    i <= NUM_POOLS && (i < NUM_POOLS ==> size <= POOL_SIZES[i]) && forall j :: 0 <= j < i ==> size > POOL_SIZES[j]
  }

  /** The pool holds exactly the arrays it owns. */
  ghost predicate PoolExact(pool: set<Id>, owner: seq<Owner>, i: nat) {
    forall x: Id :: x in pool <==> x < |owner| && owner[x] == InPool(i)
  }

  class Pools {
    var caps: seq<nat>                  // capacity of every array made so far
    var pools: seq<set<Id>>
    var slices: set<Id>                 // arrays callers hold: given out by Alloc and not yet freed, or their own
    var buffers: seq<Buf>
    ghost var owner: seq<Owner>         // of every array

    constructor ()
      ensures Valid() && caps == [] && buffers == []
    {
      caps, pools, slices, buffers, owner := [], [{}, {}, {}, {}], {}, [], [];
    }

    /** Every array has exactly one holder, and every pooled array is at least its class size. */
    ghost predicate Valid()
      reads this
    {
      && |owner| == |caps| && |pools| == NUM_POOLS
      && (forall i :: 0 <= i < NUM_POOLS ==> PoolExact(pools[i], owner, i))
      && (forall x: Id :: x in slices <==> x < |caps| && owner[x] == OfCaller)
      && (forall b :: 0 <= b < |buffers| && buffers[b].v.Some? ==> buffers[b].v.value < |caps|)
      && (forall b :: 0 <= b < |buffers| && Owns(buffers[b]) ==> owner[buffers[b].v.value] == OfBuffer(b))
      && (forall x: Id :: x < |caps| && owner[x].OfBuffer? ==>
            owner[x].b < |buffers| && Owns(buffers[owner[x].b]) && buffers[owner[x].b].v == Some(x))
      && (forall x: Id :: x < |caps| && owner[x].InPool? ==>
          owner[x].i < NUM_POOLS && caps[x] >= POOL_SIZES[owner[x].i])
      && (forall b :: 0 <= b < |buffers| && Owns(buffers[b]) && buffers[b].ownership == Managed ==>
            caps[buffers[b].v.value] >= SIZE)
    }

    /** GetPool: the first class that covers the size, or none. */
    static method GetPool(size: int) returns (i: nat)
      ensures CoveringClass(size, i)
    {
      i := 0;
      while i < NUM_POOLS
        invariant 0 <= i <= NUM_POOLS && forall j :: 0 <= j < i ==> size > POOL_SIZES[j]
      {
        if size <= POOL_SIZES[i] {
          return;
        }
        i := i + 1;
      }
    }

    /**
     * sync.Pool.Get: some pooled array, as `pick` says, or a new one of the class size. The caller becomes its
     * holder.
     */
    method Get(i: nat, pick: Option<Id>) returns (x: Id)
      requires Valid() && i < NUM_POOLS && (pick.Some? ==> pick.value in pools[i])
      modifies this
      ensures Valid() && x < |caps| && caps[x] >= POOL_SIZES[i]
      ensures x in slices && x !in old(slices) && slices == old(slices) + {x}
      ensures buffers == old(buffers) && old(caps) <= caps
    {
      if pick.Some? {
        x := pick.value;
        pools := pools[i := pools[i] - {x}];
        owner := owner[x := OfCaller];
      } else {
        x := |caps|;
        caps, owner := caps + [POOL_SIZES[i]], owner + [OfCaller];
      }
      slices := slices + {x};
    }

    /** Alloc: at least `size` bytes, from the covering class or made to measure. */
    method Alloc(size: int, pick: Option<Id>) returns (x: Id)
      requires Valid() && (pick.Some? ==> forall i :: 0 <= i < NUM_POOLS && CoveringClass(size, i) ==>
          pick.value in pools[i])
      modifies this
      ensures Valid() && x < |caps| && caps[x] >= size && caps[x] >= SIZE
      ensures x !in old(slices) && slices == old(slices) + {x} && buffers == old(buffers) && old(caps) <= caps
    {
      var i := GetPool(size);
      if i < NUM_POOLS {
        x := Get(i, pick);
      } else {
        assert size > POOL_SIZES[NUM_POOLS - 1];
        x := |caps|;
        caps, owner, slices := caps + [size], owner + [OfCaller], slices + {x};
      }
    }

    /**
     * Free: back to the largest class the array covers, or dropped when it covers none. The array is not in
     * that pool already.
     */
    method Free(x: Id)
      requires Valid() && x in slices
      modifies this
      ensures Valid() && slices == old(slices) - {x} && buffers == old(buffers) && caps == old(caps)
      ensures forall i :: 0 <= i < NUM_POOLS ==> x !in old(pools)[i]
      ensures forall i :: 0 <= i < NUM_POOLS ==>
        var fits := caps[x] >= POOL_SIZES[i] && (i + 1 < NUM_POOLS ==> caps[x] < POOL_SIZES[i + 1]);
        pools[i] == old(pools)[i] + if fits then {x} else {}
    {
      assert forall i :: 0 <= i < NUM_POOLS ==> PoolExact(pools[i], owner, i);
      slices := slices - {x};
      var i := LargestCovered(caps[x]);
      if i >= 0 {
        pools := pools[i := pools[i] + {x}];
        owner := owner[x := InPool(i)];
      } else {
        owner := owner[x := Dropped];
      }
    }

    /** The search of Free, from the largest class down; -1 when the array is smaller than every class. */
    static method LargestCovered(size: nat) returns (i: int)
      ensures -1 <= i < NUM_POOLS && (i >= 0 ==> size >= POOL_SIZES[i])
      ensures forall j :: 0 <= j < NUM_POOLS ==>
          (j == i <==> size >= POOL_SIZES[j] && (j + 1 < NUM_POOLS ==> size < POOL_SIZES[j + 1]))
    {
      i := NUM_POOLS - 1;
      while i >= 0
        invariant -1 <= i < NUM_POOLS && forall j :: i < j < NUM_POOLS ==> size < POOL_SIZES[j]
      {
        if size >= POOL_SIZES[i] {
          return;
        }
        i := i - 1;
      }
    }

    /** A buffer of a kind that owns its array takes it over from its maker. */
    method Adopt(x: Id, ownership: Ownership) returns (b: nat)
      requires Valid() && x in slices && ownership != Unmanaged && (ownership == Managed ==> caps[x] >= SIZE)
      modifies this
      ensures Valid() && b == old(|buffers|) && buffers == old(buffers) + [Buf(Some(x), ownership)]
      ensures slices == old(slices) - {x} && caps == old(caps)
    {
      b := |buffers|;
      buffers := buffers + [Buf(Some(x), ownership)];
      slices := slices - {x};
      owner := owner[x := OfBuffer(b)];
    }

    /** New: a regular buffer over at least 2048 bytes that nothing else holds. */
    method New(pick: Option<Id>) returns (b: nat)
      requires Valid() && (pick.Some? ==> pick.value in pools[0])
      modifies this
      ensures Valid() && b == old(|buffers|) && |buffers| == b + 1 && buffers[..b] == old(buffers)
      ensures buffers[b].v.Some? && buffers[b].ownership == Managed && caps[buffers[b].v.value] >= SIZE
    {
      var x := Get(0, pick);
      b := Adopt(x, Managed);
    }

    /** NewWithSize: a buffer over at least n bytes that nothing else holds. */
    method NewWithSize(n: int, pick: Option<Id>) returns (b: nat)
      requires Valid() && (pick.Some? ==> forall i :: 0 <= i < NUM_POOLS && CoveringClass(n, i) ==>
          pick.value in pools[i])
      modifies this
      ensures Valid() && b == old(|buffers|) && |buffers| == b + 1 && buffers[..b] == old(buffers)
      ensures buffers[b].v.Some? && buffers[b].ownership == Bytespools && caps[buffers[b].v.value] >= n
    {
      var x := Alloc(n, pick);
      b := Adopt(x, Bytespools);
    }

    /** A caller makes an array of its own. */
    method Make(size: nat) returns (x: Id)
      requires Valid()
      modifies this
      ensures Valid() && x == old(|caps|) && caps == old(caps) + [size]
      ensures slices == old(slices) + {x} && buffers == old(buffers) && pools == old(pools)
    {
      x := |caps|;
      caps, owner, slices := caps + [size], owner + [OfCaller], slices + {x};
    }

    /** FromBytes: a buffer over any array whatever, held elsewhere or not. Who holds the array does not change. */
    method FromBytes(x: Id) returns (b: nat)
      requires Valid() && x < |caps|
      modifies this
      ensures Valid() && b == old(|buffers|) && buffers == old(buffers) + [Buf(Some(x), Unmanaged)]
      ensures pools == old(pools) && slices == old(slices) && caps == old(caps) && owner == old(owner)
    {
      b := |buffers|;
      buffers := buffers + [Buf(Some(x), Unmanaged)];
    }

    /** Release: gives the array back once; a second Release, or one of an unmanaged buffer, does nothing. */
    method Release(b: nat)
      requires Valid() && b < |buffers|
      modifies this
      ensures Valid() && caps == old(caps)
      ensures old(buffers[b].v.None?) || old(buffers[b].ownership) == Unmanaged ==>
          buffers == old(buffers) && pools == old(pools) && slices == old(slices)
      ensures old(buffers[b].v.Some?) && old(buffers[b].ownership) != Unmanaged ==>
        buffers == old(buffers)[b := Buf(None, old(buffers[b].ownership))]
      ensures old(buffers[b].v.Some?) && old(buffers[b].ownership) == Managed ==>
        pools == old(pools)[0 := old(pools)[0] + {old(buffers[b].v.value)}] && old(buffers[b].v.value) !in old(pools)[0]
    {
      if buffers[b].v.None? || buffers[b].ownership == Unmanaged {
        return;
      }
      var x := buffers[b].v.value;
      var ownership := buffers[b].ownership;
      buffers := buffers[b := Buf(None, ownership)];
      if ownership == Managed {
        pools := pools[0 := pools[0] + {x}];
        owner := owner[x := InPool(0)];
      } else {
        slices := slices + {x};
        owner := owner[x := OfCaller];
        Free(x);
      }
    }

    /**
     * In a valid state no array belongs to two live owning buffers, to two pools, or to an owning buffer and a pool
     * or caller; buffers from FromBytes own nothing.
     */
    lemma SoleHolder(b1: nat, b2: nat, i: nat, j: nat)
      requires Valid() && b1 < |buffers| && b2 < |buffers| && i < NUM_POOLS && j < NUM_POOLS
      ensures b1 != b2 && Owns(buffers[b1]) && Owns(buffers[b2]) ==> buffers[b1].v != buffers[b2].v
      ensures Owns(buffers[b1]) ==> buffers[b1].v.value !in pools[i] && buffers[b1].v.value !in slices
      ensures pools[i] !! slices && (i != j ==> pools[i] !! pools[j])
      ensures forall x: Id :: x in pools[i] ==> x < |caps| && caps[x] >= POOL_SIZES[i]
    {
      assert PoolExact(pools[i], owner, i) && PoolExact(pools[j], owner, j);
    }
  }
}
