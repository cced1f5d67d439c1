/**
 * The vppinfra pool: an arena of slots, each live or free, with a free list of
 * slot indices. `pool_get` reuses the most recently freed slot if there is
 * one and appends a slot otherwise; `pool_put_index` frees a slot and pushes
 * its index on the free list. Sessions, interfaces and mapper pool entries
 * all live in pools.
 */
module Pools {
  import opened Machine

  datatype Pool<T> = Pool(elts: seq<Option<T>>, freeIndices: seq<nat>)
  {
    /** The free list names exactly the free slots, each once. */
    ghost predicate Valid() {
      && (forall j :: 0 <= j < |freeIndices| ==> freeIndices[j] < |elts| && elts[freeIndices[j]].None?)
      && (forall j, k :: 0 <= j < k < |freeIndices| ==> freeIndices[j] != freeIndices[k])
      && (forall i :: 0 <= i < |elts| && elts[i].None? ==> i in freeIndices)
    }

    /** `pool_is_free_index`: an index past the end counts as free. */
    predicate IsFree(i: nat) {
      i >= |elts| || elts[i].None?
    }

    /** `pool_elt_at_index` on a live slot. */
    function Elt(i: nat): T
      requires !IsFree(i)
    {
      elts[i].value
    }

    /** `pool_get` followed by storing `x` in the new slot: returns the new pool
        and the index of the slot, which was free before and holds `x` after;
        no other slot changes. */
    function Get(x: T): (r: (Pool<T>, nat))
      requires Valid()
      ensures r.0.Valid()
      ensures IsFree(r.1) && r.1 <= |elts|
      ensures !r.0.IsFree(r.1) && r.0.Elt(r.1) == x
      ensures forall i :: i != r.1 ==> (r.0.IsFree(i) <==> IsFree(i))
      ensures forall i :: i != r.1 && !IsFree(i) ==> r.0.Elt(i) == Elt(i)
      ensures |elts| <= |r.0.elts| <= |elts| + 1
    {
      if |freeIndices| > 0 then
        var i := freeIndices[|freeIndices| - 1];
        var p := Pool(elts[i := Some(x)], freeIndices[..|freeIndices| - 1]);
        assert forall j :: 0 <= j < |elts| && p.elts[j].None? ==> j in p.freeIndices by {
          forall j | 0 <= j < |elts| && p.elts[j].None? ensures j in p.freeIndices {
            var k :| 0 <= k < |freeIndices| && freeIndices[k] == j;
            assert k != |freeIndices| - 1;
          }
        }
        (p, i)
      else
        (Pool(elts + [Some(x)], freeIndices), |elts|)
    }

    /** `pool_put_index` of a live slot: that slot becomes free, no other changes. */
    function Put(i: nat): (p: Pool<T>)
      requires Valid() && !IsFree(i)
      ensures p.Valid() && p.IsFree(i) && |p.elts| == |elts|
      ensures forall j :: j != i ==> (p.IsFree(j) <==> IsFree(j))
      ensures forall j :: j != i && !IsFree(j) ==> p.Elt(j) == Elt(j)
    {
      Pool(elts[i := None], freeIndices + [i])
    }

    /** A write through the pointer `pool_elt_at_index` returned: slot `i`
        now holds `x`, no other slot changes and no slot is freed or allocated. */
    function Set(i: nat, x: T): (p: Pool<T>)
      requires Valid() && !IsFree(i)
      ensures p.Valid() && !p.IsFree(i) && p.Elt(i) == x && |p.elts| == |elts|
      ensures forall j :: (p.IsFree(j) <==> IsFree(j))
      ensures forall j :: j != i && !IsFree(j) ==> p.Elt(j) == Elt(j)
    {
      Pool(elts[i := Some(x)], freeIndices)
    }
  }

  /** The pool of a zero-initialised structure: no slots at all. */
  function EmptyPool<T>(): (p: Pool<T>)
    ensures p.Valid() && forall i :: p.IsFree(i)
  {
    Pool([], [])
  }

  /** Freeing a slot and allocating again hands the same slot back (the free
      list is last-in first-out). */
  lemma PutThenGetReusesSlot<T>(p: Pool<T>, i: nat, x: T)
    requires p.Valid() && !p.IsFree(i)
    ensures p.Put(i).Get(x).1 == i
  {
  }
}
