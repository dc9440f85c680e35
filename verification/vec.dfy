/** The growable array (fz_Vec): a header holding `caps` and `used`, followed by storage
    for `caps` elements. The model keeps the storage as a sequence of exactly `caps`
    elements, of which the first `used` are the array's contents; slots past `used` hold
    whatever the memory held (`fill` stands for memory that was never written). The
    allocator the header names is left abstract: growing returns the block sizes it would
    be asked for. */
module Vec {
  import opened Mem

  datatype Vec<T> = Vec(caps: nat, used: nat, store: seq<T>)

  /** Storage for exactly `caps` elements, `used` of them in use. */
  predicate Valid<T>(v: Vec<T>) {
    |v.store| == v.caps && v.used <= v.caps
  }

  /** The contents of the array. */
  function Elements<T>(v: Vec<T>): (s: seq<T>)
    requires v.used <= |v.store|
    ensures |s| == v.used
  {
    v.store[..v.used]
  }

  /** The bytes fz__vec_create asks the allocator for: the header and `caps` elements. */
  function BlockSize(elementSize: nat, caps: nat): nat {
    ArrayHeaderSize + elementSize * caps
  }

  /** r is cap doubled zero or more times. */
  predicate IsDoubling(cap: nat, r: nat)
    decreases r
  {
    r == cap || (r > cap && r % 2 == 0 && IsDoubling(cap, r / 2))
  }

  /** A doubling of 2 * cap is a doubling of cap. */
  lemma {:induction false} DoublingOfDouble(cap: nat, r: nat)
    requires cap >= 1 && IsDoubling(2 * cap, r)
    ensures IsDoubling(cap, r)
    decreases r
  {
    if r != 2 * cap {
      DoublingOfDouble(cap, r / 2);
    } else {
      assert IsDoubling(cap, r / 2);
    }
  }

  /** a <= b gives e * a <= e * b. */
  lemma MulMonotone(e: nat, a: nat, b: nat)
    requires a <= b
    ensures e * a <= e * b
  {
    assert e * b == e * a + e * (b - a);
  }

  // ---------------------------------------------------------------------------
  // fz__vec_create and fz__vec_grow
  // ---------------------------------------------------------------------------

  /** fz__vec_create: an empty array with room for `capacity` elements. */
  function Create<T>(capacity: nat, fill: T): (v: Vec<T>)
    ensures Valid(v) && v.caps == capacity && Elements(v) == []
  {
    Vec(capacity, 0, seq(capacity, _ => fill))
  }

  /** The doubling loop of fz__vec_grow: the smallest cap * 2^k that exceeds `length`. */
  function NextCap(cap: nat, length: nat): (r: nat)
    requires cap >= 1
    ensures r > length && IsDoubling(cap, r)
    ensures r == cap || r <= 2 * length
    decreases length + 1 - cap
  {
    if cap > length then cap
    else
      var r := NextCap(2 * cap, length);
      DoublingOfDouble(cap, r);
      r
  }

  /** The capacity after fz__vec_grow: an empty capacity counts as 1, then it doubles
      until it exceeds the length the caller needs. */
  function GrownCaps<T>(v: Vec<T>, growCount: nat): (c: nat)
    ensures c > v.used + growCount && c >= v.caps
  {
    NextCap(if v.caps == 0 then 1 else v.caps, v.used + growCount)
  }

  /** fz__vec_grow: the storage is extended to the new capacity; the contents and `used`
      do not change. */
  function Grow<T>(v: Vec<T>, growCount: nat, fill: T): (r: Vec<T>)
    requires Valid(v)
    ensures Valid(r) && r.used == v.used && r.caps == GrownCaps(v, growCount)
    ensures r.caps > v.used + growCount
    ensures Elements(r) == Elements(v)
  {
    var caps := GrownCaps(v, growCount);
    Vec(caps, v.used, v.store + seq(caps - v.caps, _ => fill))
  }

  /** The (old_size, new_size) pair fz__vec_grow passes to fz_realloc_ex, as written:
      the element bytes only, with an empty capacity already raised to 1. */
  function GrowSizesAsWritten<T>(v: Vec<T>, elementSize: nat, growCount: nat): (sizes: (nat, nat))
  {
    ((if v.caps == 0 then 1 else v.caps) * elementSize, GrownCaps(v, growCount) * elementSize)
  }

  /** The (old_size, new_size) pair as intended: the block fz__vec_create allocated, and a
      block with room for the header and the grown storage. */
  function GrowSizes<T>(v: Vec<T>, elementSize: nat, growCount: nat): (sizes: (nat, nat))
    ensures sizes.0 == BlockSize(elementSize, v.caps)
    ensures sizes.1 >= BlockSize(elementSize, v.used + growCount + 1)
  {
    MulMonotone(elementSize, v.used + growCount + 1, GrownCaps(v, growCount));
    (BlockSize(elementSize, v.caps), BlockSize(elementSize, GrownCaps(v, growCount)))
  }

  /** The as-written new size is one header short of what the grown array occupies, so
      the last element slots lie past the end of the reallocated block; and the old size
      it reports is not the size of the block being reallocated. */
  lemma GrowSizesAsWrittenShort<T>(v: Vec<T>, elementSize: nat, growCount: nat)
    requires v.caps > 0
    ensures GrowSizesAsWritten(v, elementSize, growCount).1 + ArrayHeaderSize == GrowSizes(v, elementSize, growCount).1
    ensures GrowSizesAsWritten(v, elementSize, growCount).0 + ArrayHeaderSize == GrowSizes(v, elementSize, growCount).0
  {
  }

  /** A concrete instance: an array of two 8-byte elements, full, grown by one. The grown
      array needs 24 + 4 * 8 = 56 bytes, but the allocator is asked for 32. */
  lemma GrowSizesAsWrittenExample()
    ensures GrownCaps(Vec(2, 2, [0, 0]), 1) == 4
    ensures GrowSizesAsWritten(Vec(2, 2, [0, 0]), 8, 1) == (16, 32)
    ensures GrowSizes(Vec(2, 2, [0, 0]), 8, 1) == (40, 56)
  {
  }

  /** _FV_MAYBEGROW: grow only when the array is full. */
  function MaybeGrow<T>(v: Vec<T>, growCount: nat, fill: T): (r: Vec<T>)
    requires Valid(v)
    ensures Valid(r) && r.used == v.used && Elements(r) == Elements(v)
    ensures v.used < v.caps ==> r == v
    ensures v.used == v.caps ==> r.caps > v.used + growCount
  {
    if v.used == v.caps then Grow(v, growCount, fill) else v
  }

  // ---------------------------------------------------------------------------
  // The element macros
  // ---------------------------------------------------------------------------

  /** fz_Vec_Length: 0 for a null array. */
  function Length<T>(a: Option<Vec<T>>): (n: nat)
    ensures a.None? ==> n == 0
    ensures a.Some? ==> n == a.value.used
  {
    if a.Some? then a.value.used else 0
  }

  /** fz_Vec_Capacity: 0 for a null array. */
  function Capacity<T>(a: Option<Vec<T>>): (n: nat)
    ensures a.None? ==> n == 0
    ensures a.Some? ==> n == a.value.caps
  {
    if a.Some? then a.value.caps else 0
  }

  /** fz_Vec_Push: grow when full, then store the object at `used` and count it. */
  function Push<T>(v: Vec<T>, x: T, fill: T): (r: Vec<T>)
    requires Valid(v)
    ensures Valid(r) && r.used == v.used + 1
    ensures Elements(r) == Elements(v) + [x]
    ensures r.caps >= v.caps && (v.used < v.caps ==> r.caps == v.caps)
  {
    var g := MaybeGrow(v, 1, fill);
    assert g.store[..g.used] == v.store[..v.used];
    var r := g.(used := g.used + 1, store := g.store[g.used := x]);
    assert r.store[..r.used] == g.store[..g.used] + [x];
    r
  }

  /** fz_Vec_Pop: count one element fewer and hand back the element that was last. */
  function Pop<T>(v: Vec<T>): (r: (Vec<T>, T))
    requires Valid(v) && v.used > 0
    ensures Valid(r.0) && r.0.caps == v.caps && r.0.store == v.store
    ensures Elements(r.0) == Elements(v)[..v.used - 1]
    ensures r.1 == Elements(v)[v.used - 1]
  {
    var w := v.(used := v.used - 1);
    (w, v.store[w.used])
  }

  /** fz_Vec_Last. */
  function Last<T>(v: Vec<T>): (x: T)
    requires Valid(v) && v.used > 0
    ensures x == Elements(v)[|Elements(v)| - 1]
  {
    v.store[v.used - 1]
  }

  /** fz_Vec_Clear: empties a non-null array and yields 1; a null array yields 0. */
  function Clear<T>(a: Option<Vec<T>>): (r: (Option<Vec<T>>, int))
    ensures a.None? ==> r == (None, 0)
    ensures a.Some? ==> r.1 == 1 && r.0.Some? && Length(r.0) == 0
    ensures a.Some? ==> r.0.value.caps == a.value.caps && r.0.value.store == a.value.store
  {
    if a.Some? then (Some(a.value.(used := 0)), 1) else (None, 0)
  }

  /** fz_Vec_Remove_Unordered: the last element is popped into slot i. */
  function RemoveUnordered<T>(v: Vec<T>, i: nat): (r: Vec<T>)
    requires Valid(v) && i < v.used
    ensures Valid(r) && r.used == v.used - 1 && r.caps == v.caps
    ensures i < v.used - 1 ==> Elements(r) == Elements(v)[..v.used - 1][i := Elements(v)[v.used - 1]]
    ensures i == v.used - 1 ==> Elements(r) == Elements(v)[..v.used - 1]
  {
    var p := Pop(v);
    p.0.(store := p.0.store[i := p.1])
  }

  /** Unordered removal takes out exactly element i: the contents lose one copy of it and
      nothing else. */
  lemma RemoveUnorderedDropsOne<T>(v: Vec<T>, i: nat)
    requires Valid(v) && i < v.used
    ensures multiset(Elements(RemoveUnordered(v, i))) + multiset{Elements(v)[i]} == multiset(Elements(v))
  {
    var e, n := Elements(v), v.used;
    var r := Elements(RemoveUnordered(v, i));
    assert e == e[..n - 1] + [e[n - 1]];
    if i < n - 1 {
      var front := e[..n - 1];
      assert r == front[i := e[n - 1]];
      assert front == front[..i] + [e[i]] + front[i + 1..];
      assert r == front[..i] + [e[n - 1]] + front[i + 1..];
    }
  }

  /** memmove(&store[i], &store[i + 1], count elements). */
  function MoveDown<T>(store: seq<T>, i: nat, count: nat): (r: seq<T>)
    requires i + 1 + count <= |store|
    ensures |r| == |store|
  {
    store[..i] + store[i + 1..i + 1 + count] + store[i + count..]
  }

  /** The number of elements fz_Vec_Remove_Ordered moves, as written: Length - i, which
      reads the element slot at index `used`. */
  function RemoveOrderedMovedAsWritten<T>(v: Vec<T>, i: nat): nat
    requires i < v.used
  {
    v.used - i
  }

  /** The number of elements to move as intended: those after slot i. */
  function RemoveOrderedMoved<T>(v: Vec<T>, i: nat): nat
    requires i < v.used
  {
    v.used - i - 1
  }

  /** fz_Vec_Remove_Ordered as written; the move stays inside the storage only while the
      array is not full. */
  function RemoveOrderedAsWritten<T>(v: Vec<T>, i: nat): (r: Vec<T>)
    requires Valid(v) && i < v.used < v.caps
  {
    v.(store := MoveDown(v.store, i, RemoveOrderedMovedAsWritten(v, i)), used := v.used - 1)
  }

  /** fz_Vec_Remove_Ordered as intended: the elements after i close the gap in order. */
  function RemoveOrdered<T>(v: Vec<T>, i: nat): (r: Vec<T>)
    requires Valid(v) && i < v.used
    ensures Valid(r) && r.caps == v.caps && r.used == v.used - 1
    ensures Elements(r) == Elements(v)[..i] + Elements(v)[i + 1..]
  {
    var r := v.(store := MoveDown(v.store, i, RemoveOrderedMoved(v, i)), used := v.used - 1);
    assert Elements(r) == Elements(v)[..i] + Elements(v)[i + 1..] by {
      var e, f := Elements(v), Elements(r);
      forall j | 0 <= j < |f|
        ensures f[j] == (e[..i] + e[i + 1..])[j]
      {
        if j >= i {
          assert f[j] == v.store[j + 1];
        }
      }
    }
    r
  }

  /** On a full array the as-written move reads one element past the storage: the
      source range of the memmove ends beyond slot caps - 1, so MoveDown cannot be applied
      with the as-written count, while the intended count fits exactly. */
  lemma RemoveOrderedAsWrittenOverreads<T>(v: Vec<T>, i: nat)
    requires Valid(v) && i < v.used && v.used == v.caps
    ensures !(i + 1 + RemoveOrderedMovedAsWritten(v, i) <= |v.store|)
    ensures i + 1 + RemoveOrderedMovedAsWritten(v, i) == |v.store| + 1
    ensures i + 1 + RemoveOrderedMoved(v, i) == |v.store|
  {
  }

  /** When the array is not full the extra element moved is a spare slot, and the
      contents agree with the intended removal. */
  lemma RemoveOrderedAsWrittenAgrees<T>(v: Vec<T>, i: nat)
    requires Valid(v) && i < v.used < v.caps
    ensures Elements(RemoveOrderedAsWritten(v, i)) == Elements(RemoveOrdered(v, i))
  {
    var a, b := Elements(RemoveOrderedAsWritten(v, i)), Elements(RemoveOrdered(v, i));
    forall j | 0 <= j < |a|
      ensures a[j] == b[j]
    {
      if j >= i {
        assert a[j] == v.store[j + 1];
      }
    }
  }

  /** fz_Vec_SetLength as written: the length is set only when it exceeds both the current
      length and the capacity; the macro's value is the new length, or 0. */
  function SetLengthAsWritten<T>(a: Option<Vec<T>>, len: nat): (r: (Option<Vec<T>>, nat))
  {
    if a.Some? && Length(a) < len && Capacity(a) < len then (Some(a.value.(used := len)), len)
    else (a, 0)
  }

  /** fz_Vec_SetLength as intended: a longer length that still fits the capacity exposes
      the slots already stored there; anything else leaves the array alone. */
  function SetLength<T>(a: Option<Vec<T>>, len: nat): (r: (Option<Vec<T>>, nat))
    requires a.Some? ==> Valid(a.value)
    ensures r.0.Some? <==> a.Some?
    ensures r.0.Some? ==> Valid(r.0.value)
    ensures r.1 != 0 <==> a.Some? && a.value.used < len <= a.value.caps
    ensures r.1 != 0 ==> Length(r.0) == len && Elements(r.0.value)[..a.value.used] == Elements(a.value)
    ensures r.1 == 0 ==> r.0 == a
  {
    if a.Some? && Length(a) < len && len <= Capacity(a) then (Some(a.value.(used := len)), len)
    else (a, 0)
  }

  /** The as-written condition lets the length pass the capacity, and refuses every
      length that would fit. */
  lemma SetLengthAsWrittenOverflows<T>(v: Vec<T>, len: nat)
    requires Valid(v)
    ensures v.caps < len ==> !Valid(SetLengthAsWritten(Some(v), len).0.value)
    ensures len <= v.caps ==> SetLengthAsWritten(Some(v), len) == (Some(v), 0)
  {
  }

  // ---------------------------------------------------------------------------
  // Round trips
  // ---------------------------------------------------------------------------

  /** Pushing then popping hands back the pushed object and the original contents. */
  lemma PushThenPop<T>(v: Vec<T>, x: T, fill: T)
    requires Valid(v)
    ensures Pop(Push(v, x, fill)).1 == x
    ensures Elements(Pop(Push(v, x, fill)).0) == Elements(v)
  {
    var r := Push(v, x, fill);
    assert Elements(r)[..v.used] == Elements(v);
  }

  /** The object pushed last is the last element. */
  lemma PushThenLast<T>(v: Vec<T>, x: T, fill: T)
    requires Valid(v)
    ensures Last(Push(v, x, fill)) == x
  {
  }

  /** Pushing the elements of xs one by one. */
  function PushAll<T>(v: Vec<T>, xs: seq<T>, fill: T): (r: Vec<T>)
    requires Valid(v)
    ensures Valid(r) && r.used == v.used + |xs|
    decreases |xs|
  {
    if xs == [] then v else PushAll(Push(v, xs[0], fill), xs[1..], fill)
  }

  /** A run of pushes appends exactly the pushed objects, in order. */
  lemma {:induction false} PushAllAppends<T>(v: Vec<T>, xs: seq<T>, fill: T)
    requires Valid(v)
    ensures Elements(PushAll(v, xs, fill)) == Elements(v) + xs
    decreases |xs|
  {
    if xs != [] {
      PushAllAppends(Push(v, xs[0], fill), xs[1..], fill);
      assert [xs[0]] + xs[1..] == xs;
      assert Elements(v) + [xs[0]] + xs[1..] == Elements(v) + xs;
    }
  }

  /** Pushing onto an array created with room for every object never grows it. */
  lemma {:induction false} PushAllWithinCapacity<T>(v: Vec<T>, xs: seq<T>, fill: T)
    requires Valid(v) && v.used + |xs| <= v.caps
    ensures PushAll(v, xs, fill).caps == v.caps
    decreases |xs|
  {
    if xs != [] {
      PushAllWithinCapacity(Push(v, xs[0], fill), xs[1..], fill);
    }
  }
}
