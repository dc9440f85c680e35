/** The pool allocator: fz_pool_init and fz_pool_operation. A fixed buffer is cut into
    equal slots, and the free ones are threaded on an intrusive singly linked list; the
    list is modelled as the sequence of slot addresses from the head. */
module Pool {
  import opened Mem
  import Align

  /** fz_Pool; `free` lists the free slots in link order, head first. */
  datatype Pool = Pool(base: nat, elementSize: nat, memoryCaps: nat, free: seq<nat>)

  /** `a` starts a slot: it lies on the element grid from the base, and the whole slot fits
      in the buffer. */
  predicate SlotStart(p: Pool, a: nat) {
    && p.elementSize > 0
    && p.base <= a
    && (a - p.base) % p.elementSize == 0
    && a + p.elementSize <= p.base + p.memoryCaps
  }

  /** Every free address starts a whole slot, and the free list has no repeats; so the
      blocks the list hands out never overlap. */
  ghost predicate Valid(p: Pool) {
    && (forall i :: 0 <= i < |p.free| ==> SlotStart(p, p.free[i]))
    && (forall i, j :: 0 <= i < j < |p.free| ==> p.free[i] != p.free[j])
  }

  /** The addresses of the first `count` slots. */
  function Slots(base: nat, elementSize: nat, count: nat): (r: seq<nat>)
    ensures |r| == count
    ensures forall i :: 0 <= i < count ==> r[i] == base + i * elementSize
  {
    seq(count, i requires 0 <= i < count => base + i * elementSize)
  }

  /** a <= b gives a * e <= b * e. */
  lemma MulLe(a: nat, b: nat, e: nat)
    requires a <= b
    ensures a * e <= b * e
  {
    assert b * e == a * e + (b - a) * e;
  }

  /** (i + 1) slots of elementSize bytes fit when i is below memorySize / elementSize. */
  lemma SlotFits(i: nat, memorySize: nat, elementSize: nat)
    requires elementSize > 0 && i < memorySize / elementSize
    ensures i * elementSize + elementSize <= memorySize
  {
    var count := memorySize / elementSize;
    assert count * elementSize + memorySize % elementSize == memorySize;
    MulLe(i + 1, count, elementSize);
    assert (i + 1) * elementSize == i * elementSize + elementSize;
  }

  /** Distinct indices give distinct slots. */
  lemma SlotsDistinct(i: nat, j: nat, elementSize: nat)
    requires elementSize > 0 && i < j
    ensures i * elementSize < j * elementSize
  {
    assert j * elementSize == i * elementSize + (j - i) * elementSize;
    Align.MulAtLeast(j - i, elementSize);
  }

  /** A multiple of e is on the e grid. */
  lemma MulMod(i: nat, e: nat)
    requires e > 0
    ensures (i * e) % e == 0
  {
    Align.DivModUnique(i * e, e, i, 0);
  }

  /** The memorySize / elementSize slots make a valid free list, each slot wholly inside
      the buffer. */
  lemma SlotsValid(base: nat, memorySize: nat, elementSize: nat)
    requires elementSize > 0
    ensures var r := Pool(base, elementSize, memorySize, Slots(base, elementSize, memorySize / elementSize));
            && (forall i :: 0 <= i < |r.free| ==> r.free[i] + elementSize <= base + memorySize)
            && Valid(r)
  {
    var r := Pool(base, elementSize, memorySize, Slots(base, elementSize, memorySize / elementSize));
    forall i | 0 <= i < |r.free|
      ensures SlotStart(r, r.free[i])
    {
      SlotFits(i, memorySize, elementSize);
      MulMod(i, elementSize);
      assert r.free[i] - base == i * elementSize;
    }
    forall i, j | 0 <= i < j < |r.free|
      ensures r.free[i] != r.free[j]
    {
      SlotsDistinct(i, j, elementSize);
    }
  }

  /** fz_pool_init: every whole slot is free, chained in ascending address order with the
      head at the start of the buffer; when no whole slot fits the list is empty. */
  function Init(base: nat, memorySize: nat, elementSize: nat): (r: Pool)
    requires memorySize > SllHeaderSize && elementSize > SllHeaderSize
    ensures r.base == base && r.elementSize == elementSize && r.memoryCaps == memorySize
    ensures |r.free| == memorySize / elementSize
    ensures forall i :: 0 <= i < |r.free| ==> r.free[i] == base + i * elementSize
    ensures forall i :: 0 <= i < |r.free| ==> r.free[i] + elementSize <= base + memorySize
    ensures Valid(r)
  {
    SlotsValid(base, memorySize, elementSize);
    Pool(base, elementSize, memorySize, Slots(base, elementSize, memorySize / elementSize))
  }

  /** The number of link stores the as-written init loop performs: it runs while
      `i < available_count - 1`, a size_t subtraction. */
  function InitLinkStoresAsWritten(memorySize: nat, elementSize: nat): (n: nat)
    requires elementSize > SllHeaderSize && memorySize < SizeMod
    ensures memorySize >= elementSize ==> n == memorySize / elementSize - 1
  {
    SubWrap(memorySize / elementSize, 1)
  }

  /** When the buffer is smaller than one slot, the as-written loop bound wraps to
      2^64 - 1, so the loop does not stop after the first store; its second store, at
      base + elementSize, already lies outside the buffer, whereas Init leaves the free
      list empty. */
  lemma InitAsWrittenOverrunsSmallBuffer(base: nat, memorySize: nat, elementSize: nat)
    requires SllHeaderSize < memorySize < elementSize < SizeMod
    ensures InitLinkStoresAsWritten(memorySize, elementSize) == SizeMod - 1
    ensures base + 1 * elementSize >= base + memorySize
    ensures Init(base, memorySize, elementSize).free == []
  {
    Align.DivModUnique(memorySize, elementSize, 0, memorySize);
  }

  /** Allocation: the head of the free list, or None (the null chunk) when it is empty. */
  function Allocate(p: Pool, size: nat): (r: Option<Grant<Pool>>)
    requires size == p.elementSize
    ensures r.None? <==> p.free == []
    ensures r.Some? ==> r.value.ptr == p.free[0] && r.value.state == p.(free := p.free[1..])
    ensures r.Some? && Valid(p) ==> Valid(r.value.state) && r.value.ptr !in r.value.state.free
  {
    if p.free == [] then None
    else
      Some(Grant(p.(free := p.free[1..]), p.free[0]))
  }

  /** Free: an in-range block goes back on the head. Only the range is checked, so a block
      that is already free is pushed a second time, and an address inside a slot or in the
      tail of the buffer is pushed as if it started one; either breaks the invariant. */
  function Free(p: Pool, ptr: nat): (r: Pool)
    requires p.base <= ptr < p.base + p.memoryCaps
    ensures r.free == [ptr] + p.free
    ensures r == p.(free := r.free)
    ensures Valid(p) ==> (Valid(r) <==> SlotStart(p, ptr) && ptr !in p.free)
  {
    var r := p.(free := [ptr] + p.free);
    assert ptr in p.free ==> exists j :: 0 < j < |r.free| && r.free[j] == r.free[0] by {
      if ptr in p.free {
        var j :| 0 <= j < |p.free| && p.free[j] == ptr;
        assert r.free[j + 1] == r.free[0];
      }
    }
    assert SlotStart(r, r.free[0]) == SlotStart(p, ptr);
    r
  }

  /** A concrete misaligned free: address 1 of a pool of two 32-byte slots is in range, so
      it is pushed, and the next two allocations hand out overlapping blocks at 1 and 0. */
  lemma FreeMisalignedExample()
    ensures Valid(Init(0, 64, 32)) && Init(0, 64, 32).free == [0, 32]
    ensures Free(Init(0, 64, 32), 1).free == [1, 0, 32]
    ensures !Valid(Free(Init(0, 64, 32), 1))
  {
    assert !SlotStart(Init(0, 64, 32), 1);
  }

  /** Round trip: the block freed last is the block allocated next, and the pool is back
      to where it was. */
  lemma FreeThenAllocate(p: Pool, ptr: nat)
    requires p.base <= ptr < p.base + p.memoryCaps
    ensures Allocate(Free(p, ptr), p.elementSize) == Some(Grant(p, ptr))
  {
  }

  /** `n` allocations in a row, with the addresses handed out. */
  function AllocateMany(p: Pool, n: nat): (r: Option<(Pool, seq<nat>)>)
    ensures r.Some? ==> |r.value.1| == n
    decreases n
  {
    if n == 0 then Some((p, []))
    else match Allocate(p, p.elementSize)
      case None => None
      case Some(g) =>
        match AllocateMany(g.state, n - 1)
        case None => None
        case Some(rest) => Some((rest.0, [g.ptr] + rest.1))
  }

  /** Exhaustion: allocating as many blocks as are free hands out exactly the free list,
      in order, and the allocation after that fails. */
  lemma {:induction false} DrainHandsOutFreeList(p: Pool)
    ensures AllocateMany(p, |p.free|) == Some((p.(free := []), p.free))
    ensures Allocate(p.(free := []), p.elementSize).None?
    decreases |p.free|
  {
    if p.free != [] {
      var g := Allocate(p, p.elementSize).value;
      assert g == Grant(p.(free := p.free[1..]), p.free[0]);
      DrainHandsOutFreeList(g.state);
      var rest := AllocateMany(g.state, |p.free| - 1).value;
      assert rest == (p.(free := []), p.free[1..]);
      assert AllocateMany(p, |p.free|) == Some((rest.0, [g.ptr] + rest.1));
      assert [p.free[0]] + p.free[1..] == p.free;
    }
  }
}
