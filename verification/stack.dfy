/** The stack allocator: fz_stack_init and fz_stack_operation. Blocks are carved from a
    fixed buffer in LIFO order; each block is preceded by a header recording the previous
    block's start offset and the alignment padding, and only the top block may be freed
    or grown. Offsets are relative to `base`; header addresses are absolute. */
module Stack {
  import opened Align
  import opened Mem

  /** fz_Stack_Header. */
  datatype Header = Header(prevOffset: nat, padding: nat)

  /** fz_StackAlloc; `headers` holds the header words written into the buffer, by address. */
  datatype StackAlloc = StackAlloc(base: nat, caps: nat, prev: nat, current: nat, headers: map<nat, Header>)

  /** The top block starts at `prev`, the free space at `current`, and every header
      links back to an offset no later than its own block's start. */
  ghost predicate Valid(s: StackAlloc) {
    && s.prev <= s.current <= s.caps
    && forall h :: h in s.headers ==>
         s.base + s.headers[h].padding + s.headers[h].prevOffset <= h
  }

  /** fz_stack_init. */
  function Init(base: nat, memorySize: nat): (r: StackAlloc)
    ensures Valid(r)
    ensures r.base == base && r.caps == memorySize
    ensures r.prev == 0 && r.current == 0 && r.headers == map[]
  {
    StackAlloc(base, memorySize, 0, 0, map[])
  }

  /** Bytes skipped so that the header starts on a 16-byte boundary. */
  function Padding(s: StackAlloc): (pad: nat)
    ensures pad < PushAlignment
    ensures (s.base + s.current + pad) % PushAlignment == 0
  {
    AlignUp(s.base + s.current, PushAlignment) - (s.base + s.current)
  }

  /** The capacity assertion of the allocation path. */
  predicate Fits(s: StackAlloc, size: nat) {
    s.current + Padding(s) + (size + StackHeaderSize) < s.caps
  }

  /** The offset at which the block whose header sits at `h` was started. */
  function BlockStart(s: StackAlloc, h: nat): int
    requires h in s.headers
  {
    h - s.headers[h].padding - s.base
  }

  /** The LIFO assertion: `ptr` is the block on top of the stack. */
  predicate IsTop(s: StackAlloc, ptr: nat) {
    ptr >= StackHeaderSize && (ptr - StackHeaderSize) in s.headers
    && BlockStart(s, ptr - StackHeaderSize) == s.prev
  }

  /** The range assertion of the free and realloc paths (inclusive upper end). */
  predicate InRange(s: StackAlloc, ptr: nat) {
    s.base <= ptr <= s.base + s.caps
  }

  /** Allocation with a fixed capacity: the header (old prev, padding) goes on the next
      16-byte boundary, the block follows it and ends at the new `current`, inside the
      buffer, and the new block becomes the top. */
  function Allocate(s: StackAlloc, size: nat): (r: Grant<StackAlloc>)
    requires Fits(s, size)
    ensures r.ptr % PushAlignment == 0
    ensures r.ptr >= StackHeaderSize
    ensures r.state.headers == s.headers[r.ptr - StackHeaderSize := Header(s.prev, Padding(s))]
    ensures IsTop(r.state, r.ptr) && r.state.prev == s.current
    ensures r.ptr + size == r.state.base + r.state.current < r.state.base + r.state.caps
    ensures r.state.base == s.base && r.state.caps == s.caps
    ensures Valid(s) ==> Valid(r.state)
  {
    var pad := Padding(s);
    var h := s.base + s.current + pad;
    var s' := s.(headers := s.headers[h := Header(s.prev, pad)],
                 prev := s.current,
                 current := s.current + (size + StackHeaderSize) + pad);
    assert h in s'.headers && BlockStart(s', h) == s.current;
    Grant(s', h + StackHeaderSize)
  }

  /** Allocation exactly as written: `caps` advances together with `current`, so the
      capacity assertion only ever compares one request with the original buffer size. */
  function AllocateAsWritten(s: StackAlloc, size: nat): (r: Grant<StackAlloc>)
    requires Fits(s, size)
    ensures r.ptr == Allocate(s, size).ptr
    ensures r.state.prev == s.current
    ensures r.ptr + size == r.state.base + r.state.current
    ensures r.state.caps - r.state.current == s.caps - s.current
  {
    var g := Allocate(s, size);
    Grant(g.state.(caps := s.caps + (g.state.current - s.current)), g.ptr)
  }

  /** Free with a fixed capacity: pop the top block, so `current` returns to its start and
      `prev` to the offset its header saved. */
  function Free(s: StackAlloc, ptr: nat): (r: StackAlloc)
    requires InRange(s, ptr) && IsTop(s, ptr)
    ensures r.current == s.prev
    ensures r.prev == s.headers[ptr - StackHeaderSize].prevOffset
    ensures r.base == s.base && r.caps == s.caps && r.headers == s.headers
    ensures Valid(s) ==> Valid(r)
  {
    var header := s.headers[ptr - StackHeaderSize];
    s.(current := s.prev, prev := header.prevOffset)
  }

  /** Free exactly as written: after popping, `caps` shrinks by the size of the block now
      on top (new current minus new prev), in size_t arithmetic. */
  function FreeAsWritten(s: StackAlloc, ptr: nat): (r: StackAlloc)
    requires InRange(s, ptr) && IsTop(s, ptr)
    requires s.caps < SizeMod && s.prev < SizeMod && s.headers[ptr - StackHeaderSize].prevOffset < SizeMod
    ensures r.current == s.prev
    ensures r.prev == s.headers[ptr - StackHeaderSize].prevOffset
    ensures r.prev <= r.current <= r.caps <= s.caps ==> r.caps == s.caps - (r.current - r.prev)
  {
    var popped := Free(s, ptr);
    popped.(caps := SubWrap(s.caps, SubWrap(popped.current, popped.prev)))
  }

  /** Reallocation exactly as written: `allocation_size = prev - current` wraps around
      (prev < current for any top block), so the block is never extended. */
  function ReallocAsWritten(s: StackAlloc, ptr: nat, size: nat): (r: Grant<StackAlloc>)
    requires InRange(s, ptr) && IsTop(s, ptr)
    requires s.prev < SizeMod && s.current < SizeMod
    ensures r.ptr == ptr
    ensures r.state.current >= s.current
  {
    var allocationSize := SubWrap(s.prev, s.current);
    if allocationSize < size then
      Grant(s.(current := s.current + (size - allocationSize)), ptr)
    else
      Grant(s, ptr)
  }

  /** Room to grow the top block to `size` bytes. */
  predicate ReallocFits(s: StackAlloc, ptr: nat, size: nat) {
    ptr + size <= s.base + s.current || ptr + size < s.base + s.caps
  }

  /** Reallocation as intended: the top block is extended so that it holds `size` bytes
      from `ptr`, within the buffer; a shrink leaves it as it is. */
  function Realloc(s: StackAlloc, ptr: nat, size: nat): (r: Grant<StackAlloc>)
    requires InRange(s, ptr) && IsTop(s, ptr)
    requires ReallocFits(s, ptr, size)
    requires Valid(s)
    ensures r.ptr == ptr
    ensures ptr + size <= r.state.base + r.state.current
    ensures r.state.current == s.current || ptr + size == r.state.base + r.state.current
    ensures r.state == s.(current := r.state.current)
    ensures r.state.current >= s.current
    ensures ptr + size <= s.base + s.current ==> r.state == s
    ensures Valid(r.state)
  {
    var blockSize: int := s.base + s.current - ptr;
    if blockSize < size then
      Grant(s.(current := s.current + (size - blockSize)), ptr)
    else
      Grant(s, ptr)
  }

  /** LIFO round trip: freeing the block just allocated restores `prev` and `current`,
      and with a fixed capacity the whole stack apart from the stale header word. */
  lemma AllocateThenFree(s: StackAlloc, size: nat)
    requires Fits(s, size)
    ensures var g := Allocate(s, size);
            InRange(g.state, g.ptr) &&
            Free(g.state, g.ptr) == s.(headers := g.state.headers)
  {
  }

  /** As written, the same round trip restores `prev` and `current` but not `caps`. */
  lemma AllocateThenFreeAsWritten(s: StackAlloc, size: nat)
    requires Fits(s, size)
    requires s.caps + size + 2 * PushAlignment < SizeMod && s.prev <= s.current
    ensures var g := AllocateAsWritten(s, size);
            var r := FreeAsWritten(g.state, g.ptr);
            r.prev == s.prev && r.current == s.current &&
            r.caps == s.caps + (g.state.current - s.current) - (s.current - s.prev)
  {
    var g := AllocateAsWritten(s, size);
    assert g.state.headers == Allocate(s, size).state.headers;
    assert IsTop(g.state, g.ptr);
  }

  /** LIFO enforcement: once a second block is allocated, the first one is no longer on
      top, so neither Free nor Realloc may be applied to it. */
  lemma BuriedBlockIsNotTop(s: StackAlloc, a: nat, b: nat)
    requires Fits(s, a)
    requires Fits(Allocate(s, a).state, b)
    ensures var g1 := Allocate(s, a);
            !IsTop(Allocate(g1.state, b).state, g1.ptr)
  {
    var g1 := Allocate(s, a);
    var g2 := Allocate(g1.state, b);
    var hA := g1.ptr - StackHeaderSize;
    assert g2.ptr - StackHeaderSize != hA;
    assert g2.state.headers[hA] == g1.state.headers[hA];
  }

  /** Nested round trip: allocate A then B, free B then A, and the stack is back at its
      state before A (apart from stale header words). */
  lemma NestedFreeRestores(s: StackAlloc, a: nat, b: nat)
    requires Fits(s, a)
    requires Fits(Allocate(s, a).state, b)
    ensures var g1 := Allocate(s, a);
            var g2 := Allocate(g1.state, b);
            var s3 := Free(g2.state, g2.ptr);
            InRange(s3, g1.ptr) && IsTop(s3, g1.ptr) &&
            Free(s3, g1.ptr) == s.(headers := g2.state.headers)
  {
    var g1 := Allocate(s, a);
    var g2 := Allocate(g1.state, b);
    var hA := g1.ptr - StackHeaderSize;
    assert g2.ptr - StackHeaderSize != hA;
    assert g2.state.headers[hA] == g1.state.headers[hA];
    AllocateThenFree(g1.state, b);
  }

  /** As written, `caps - current` is the same after every allocation, so the capacity
      assertion never accounts for what is already allocated. */
  lemma AsWrittenCapacityDrift(s: StackAlloc, a: nat, b: nat)
    requires Fits(s, a)
    requires Fits(AllocateAsWritten(s, a).state, b)
    ensures AllocateAsWritten(AllocateAsWritten(s, a).state, b).state.caps
            - AllocateAsWritten(AllocateAsWritten(s, a).state, b).state.current == s.caps - s.current
  {
  }

  /** A concrete overrun, in three steps: a 64-byte stack at address 0 accepts three
      16-byte blocks as written; the third occupies [80, 96), past the buffer. */
  function OverrunFirst(): StackAlloc {
    StackAlloc(0, 96, 0, 32, map[0 := Header(0, 0)])
  }

  function OverrunSecond(): StackAlloc {
    StackAlloc(0, 128, 32, 64, map[0 := Header(0, 0), 32 := Header(0, 0)])
  }

  lemma OverrunFirstStep()
    ensures Fits(Init(0, 64), 16)
    ensures AllocateAsWritten(Init(0, 64), 16).state == OverrunFirst()
  {
  }

  lemma OverrunSecondStep()
    ensures Fits(OverrunFirst(), 16)
    ensures AllocateAsWritten(OverrunFirst(), 16).state == OverrunSecond()
  {
  }

  lemma OverrunThirdStep()
    ensures Fits(OverrunSecond(), 16)
    ensures AllocateAsWritten(OverrunSecond(), 16).ptr == 80
  {
  }

  /** With a fixed capacity the same buffer refuses the second block already (the
      assertion is strict, so a block may not end exactly at the end of the buffer). */
  lemma FixedCapacityRefusesSecond()
    ensures Allocate(Init(0, 64), 16).state.current == 32
    ensures !Fits(Allocate(Init(0, 64), 16).state, 16)
  {
  }

  /** As written, realloc never extends a top block whose header sits below `current`:
      the wrapped `prev - current` exceeds any request that fits in the address space. */
  lemma ReallocAsWrittenNeverGrows(s: StackAlloc, ptr: nat, size: nat)
    requires InRange(s, ptr) && IsTop(s, ptr)
    requires s.prev < s.current < SizeMod
    requires size + (s.current - s.prev) <= SizeMod
    ensures ReallocAsWritten(s, ptr, size).state == s
  {
  }

  /** A concrete instance: a 16-byte block at the bottom of a 1024-byte stack is "grown"
      to 64 bytes, but `current` stays at 32, so its last 48 bytes are still free space. */
  lemma ReallocAsWrittenExample()
    ensures var g := Allocate(Init(0, 1024), 16);
            g.ptr == 16 &&
            ReallocAsWritten(g.state, 16, 64).state.current == 32 &&
            Realloc(g.state, 16, 64).state.current == 80
  {
    var s0 := Init(0, 1024);
    assert Padding(s0) == 0;
    var g := Allocate(s0, 16);
    assert g.ptr == 16 && g.state.current == 32 && g.state.prev == 0 && g.state.base == 0;
    assert SubWrap(0, 32) == SizeMod - 32;
  }
}
