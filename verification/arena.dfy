/** The arena (bump) allocator: fz_arena_init, fz_arena_operation, fz_begin_temp and
    fz_end_temp. An arena hands out 16-byte aligned blocks by advancing a watermark
    `used` through a fixed buffer [memory, memory + capacity); it never frees a single
    block, and a temporary mark rewinds the watermark in bulk. */
module Arena {
  import opened Align
  import opened Mem

  datatype Arena = Arena(memory: nat, capacity: nat, used: nat)

  /** fz_Temp_Memory: the watermark saved by fz_begin_temp. */
  datatype TempMemory = TempMemory(usedBefore: nat)

  /** The watermark never passes the end of the buffer. */
  ghost predicate Valid(a: Arena) {
    a.used <= a.capacity
  }

  /** fz_arena_init: a null backing buffer leaves the arena as it was. */
  function Init(a: Arena, backing: nat, memorySize: nat): (r: Arena)
    ensures backing != 0 ==> Valid(r) && r.used == 0 && r.memory == backing && r.capacity == memorySize
    ensures backing == 0 ==> r == a
  {
    if backing != 0 then Arena(backing, memorySize, 0) else a
  }

  /** Requests below the push alignment are raised to it. */
  function Pushed(size: nat): (n: nat)
    ensures n >= size && n >= PushAlignment
    ensures n == size || n == PushAlignment
  {
    if size < PushAlignment then PushAlignment else size
  }

  /** Bytes skipped so that the next block starts on a 16-byte boundary. */
  function Padding(a: Arena): (pad: nat)
    ensures pad < PushAlignment
    ensures (a.memory + a.used + pad) % PushAlignment == 0
  {
    AlignUp(a.memory + a.used, PushAlignment) - (a.memory + a.used)
  }

  /** The capacity assertion of the allocation path (strict, as in the source). */
  predicate Fits(a: Arena, size: nat) {
    a.used + Padding(a) + Pushed(size) < a.capacity
  }

  /** Allocation: a fresh aligned block that starts at or after the watermark and ends
      exactly at the new watermark, inside the buffer. */
  function Allocate(a: Arena, size: nat): (r: Grant<Arena>)
    requires Fits(a, size)
    ensures r.ptr % PushAlignment == 0
    ensures a.memory + a.used <= r.ptr < a.memory + a.used + PushAlignment
    ensures r.ptr + Pushed(size) == r.state.memory + r.state.used
    ensures r.state.used < r.state.capacity
    ensures r.state.memory == a.memory && r.state.capacity == a.capacity
  {
    var pad := Padding(a);
    Grant(a.(used := a.used + pad + Pushed(size)), a.memory + a.used + pad)
  }

  /** Freeing is a no-op: an arena releases memory only by rewinding. */
  function Free(a: Arena, ptr: nat): (r: Arena)
    ensures r == a
  {
    a
  }

  /** The reallocated block is the most recent allocation. */
  predicate IsLast(a: Arena, ptr: nat, oldSize: nat)
    requires oldSize <= a.used
  {
    ptr == a.memory + (a.used - oldSize)
  }

  /** The in-place extension of the most recent block. */
  function Extension(oldSize: nat, size: nat): nat
    requires oldSize < Pushed(size)
  {
    AlignUp(Pushed(size) - oldSize, PushAlignment)
  }

  /** Reallocation exactly as written: the most recent block grows in place with no
      capacity check, and a relocated block is copied FROM the fresh block INTO the old
      one (memmove(ptr, memory, old_size)). */
  function ReallocAsWritten(a: Arena, ptr: nat, oldSize: nat, size: nat): (r: Resized<Arena>)
    requires a.memory < ptr < a.memory + a.capacity
    requires oldSize <= a.used
    requires !IsLast(a, ptr, oldSize) ==> Fits(a, size)
    ensures IsLast(a, ptr, oldSize) ==> r.ptr == ptr && r.moved == None
    ensures !IsLast(a, ptr, oldSize) ==> r.moved == Some(Move(r.ptr, ptr, oldSize))
    ensures r.state.used >= a.used
    ensures IsLast(a, ptr, oldSize) ==>
              r.state == a.(used := a.used + if oldSize < Pushed(size) then AlignUp(Pushed(size) - oldSize, PushAlignment) else 0)
    ensures !IsLast(a, ptr, oldSize) ==> r.state == Allocate(a, size).state && r.ptr == Allocate(a, size).ptr
  {
    if IsLast(a, ptr, oldSize) then
      if oldSize < Pushed(size) then
        Resized(a.(used := a.used + Extension(oldSize, size)), ptr, None)
      else
        Resized(a, ptr, None)
    else
      var g := Allocate(a, size);
      Resized(g.state, g.ptr, Some(Move(g.ptr, ptr, oldSize)))
  }

  /** Room for a reallocation: the in-place extension or the fresh block stays inside. */
  predicate ReallocFits(a: Arena, ptr: nat, oldSize: nat, size: nat)
    requires oldSize <= a.used
  {
    if IsLast(a, ptr, oldSize) then
      oldSize >= Pushed(size) || a.used + Extension(oldSize, size) < a.capacity
    else
      Fits(a, size)
  }

  /** Reallocation as intended: the in-place extension is bounded by the capacity like any
      allocation, and a relocated block is copied from the old block into the new one. */
  function Realloc(a: Arena, ptr: nat, oldSize: nat, size: nat): (r: Resized<Arena>)
    requires a.memory < ptr < a.memory + a.capacity
    requires oldSize <= a.used
    requires ReallocFits(a, ptr, oldSize, size)
    requires Valid(a)
    ensures Valid(r.state)
    ensures r.state.memory == a.memory && r.state.capacity == a.capacity
    ensures r.state.used >= a.used
    ensures r.ptr + Pushed(size) <= r.state.memory + r.state.used || (r.ptr == ptr && Pushed(size) <= oldSize)
    ensures IsLast(a, ptr, oldSize) ==> r.ptr == ptr && r.moved == None
    ensures !IsLast(a, ptr, oldSize) ==> r.ptr >= a.memory + a.used && r.moved == Some(Move(ptr, r.ptr, oldSize))
    ensures IsLast(a, ptr, oldSize) ==>
              r.state.used == a.used + if oldSize < Pushed(size) then AlignUp(Pushed(size) - oldSize, PushAlignment) else 0
    ensures !IsLast(a, ptr, oldSize) ==> r.state == Allocate(a, size).state && r.ptr == Allocate(a, size).ptr
  {
    if IsLast(a, ptr, oldSize) then
      if oldSize < Pushed(size) then
        Resized(a.(used := a.used + Extension(oldSize, size)), ptr, None)
      else
        Resized(a, ptr, None)
    else
      var g := Allocate(a, size);
      Resized(g.state, g.ptr, Some(Move(ptr, g.ptr, oldSize)))
  }

  /** fz_begin_temp. */
  function BeginTemp(a: Arena): (t: TempMemory)
    ensures t.usedBefore == a.used
  {
    TempMemory(a.used)
  }

  /** fz_end_temp: only the watermark moves. */
  function EndTemp(a: Arena, t: TempMemory): (r: Arena)
    ensures r.used == t.usedBefore
    ensures r.memory == a.memory && r.capacity == a.capacity
  {
    a.(used := t.usedBefore)
  }

  /** A run of allocations, in order; None when one of them does not fit. */
  function AllocateEach(a: Arena, sizes: seq<nat>): (r: Option<Arena>)
    ensures r.Some? ==> r.value.memory == a.memory && r.value.capacity == a.capacity
    ensures r.Some? ==> r.value.used >= a.used
    ensures r.Some? && sizes != [] ==> r.value.used < r.value.capacity
    decreases |sizes|
  {
    if sizes == [] then Some(a)
    else if !Fits(a, sizes[0]) then None
    else AllocateEach(Allocate(a, sizes[0]).state, sizes[1..])
  }

  /** A temporary scope: whatever was allocated since fz_begin_temp, fz_end_temp gives
      back exactly the arena that existed at the mark. */
  lemma TempScopeRestores(a: Arena, sizes: seq<nat>)
    requires AllocateEach(a, sizes).Some?
    ensures EndTemp(AllocateEach(a, sizes).value, BeginTemp(a)) == a
  {
  }

  /** After a rewind, the next allocation starts at or after the saved watermark. */
  lemma RewindThenAllocate(b: Arena, t: TempMemory, size: nat)
    requires Fits(EndTemp(b, t), size)
    ensures Allocate(EndTemp(b, t), size).ptr >= b.memory + t.usedBefore
  {
  }

  /** The as-written in-place growth ignores the capacity: growing the most recent block
      past the end of the buffer still succeeds and leaves the watermark beyond it. */
  lemma ReallocAsWrittenOverrunsBuffer(a: Arena, ptr: nat, oldSize: nat, size: nat)
    requires a.memory < ptr < a.memory + a.capacity
    requires oldSize <= a.used
    requires IsLast(a, ptr, oldSize)
    requires ptr + Pushed(size) > a.memory + a.capacity
    ensures ReallocAsWritten(a, ptr, oldSize, size).ptr == ptr
    ensures !Valid(ReallocAsWritten(a, ptr, oldSize, size).state)
  {
  }

  /** A concrete instance: 64-byte arena whose last block is 16 bytes at address 16,
      grown to 1000 bytes; the watermark ends at 1024. */
  lemma ReallocAsWrittenOverrunExample()
    ensures Valid(Arena(0, 64, 32))
    ensures ReallocAsWritten(Arena(0, 64, 32), 16, 16, 1000).state.used == 1024
  {
  }

  /** The as-written relocation copies from the freshly allocated block into the old
      block, so the old contents never reach the address handed back. */
  lemma ReallocAsWrittenCopiesBackwards(a: Arena, ptr: nat, oldSize: nat, size: nat)
    requires a.memory < ptr < a.memory + a.used
    requires oldSize <= a.used
    requires !IsLast(a, ptr, oldSize) && Fits(a, size)
    ensures var r := ReallocAsWritten(a, ptr, oldSize, size);
            r.ptr != ptr && r.moved.Some? && r.moved.value.src == r.ptr && r.moved.value.dst == ptr
  {
  }
}
