/** Machine facts shared by every allocator: the 64-bit sizes of the block headers,
    size_t wrap-around, and the results an allocator operation hands back.
    Addresses are modelled as natural numbers; a backing buffer is an address range. */
module Mem {

  /** fz_PUSH_ALIGNMENT: the alignment of arena and stack blocks, and the free-list granularity. */
  const PushAlignment: nat := 16

  /** size_t arithmetic is modulo 2^64. */
  const SizeMod: nat := 0x1_0000_0000_0000_0000

  /** sizeof(fz_Stack_Header): prev_offset and padding. */
  const StackHeaderSize: nat := 16

  /** sizeof(fz_SizeHeader): the size word in front of every free-list block. */
  const SizeHeaderSize: nat := 8

  /** The prev/next links an fz_ListNode keeps after its size word. */
  const ListLinkSize: nat := 16

  /** sizeof(fz_SLL_Header): the pool's intrusive next link. */
  const SllHeaderSize: nat := 8

  /** sizeof(fz_Array_Header_Type): an fz_Allocator (two pointers) and two ints. */
  const ArrayHeaderSize: nat := 24

  datatype Option<T> = None | Some(value: T)

  /** size_t subtraction `a - b`, which wraps when b > a. */
  function SubWrap(a: nat, b: nat): (r: nat)
    requires a < SizeMod && b < SizeMod
    ensures r < SizeMod
    ensures b <= a ==> r == a - b
    ensures a < b ==> r == SizeMod - (b - a)
  {
    (a - b) % SizeMod
  }

  /** The effect of memmove(dst, src, count), kept abstract: which bytes go where. */
  datatype Move = Move(src: nat, dst: nat, count: nat)

  /** An allocation: the allocator's next state and the address handed out. */
  datatype Grant<S> = Grant(state: S, ptr: nat)

  /** A reallocation: next state, the address handed out, and the copy it performed, if any. */
  datatype Resized<S> = Resized(state: S, ptr: nat, moved: Option<Move>)

  /** A half-open address range [lo, hi). */
  datatype Span = Span(lo: int, hi: int)

  predicate Apart(a: Span, b: Span) {
    a.hi <= b.lo || b.hi <= a.lo
  }
}
