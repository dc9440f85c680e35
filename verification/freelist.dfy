/** The free-list allocator: fz_freelist_init and fz_freelist_operation. The circular list
    of free blocks is modelled as the sequence of its nodes in link order, starting at the
    sentinel's next link, and the blocks handed out as a map from user address to block
    size. A node at `addr` is a size word followed by `size` bytes (the first 16 of which
    hold its prev/next links); a block handed out at `p` is its size header at p - 8
    followed by `size` bytes. The links themselves are modelled in module FreelistLinks. */
module Freelist {
  import opened Mem
  import opened Align

  datatype Node = Node(addr: nat, size: nat)

  /** fz_Freelist: the backing buffer, the free nodes, and the blocks handed out. `start`
      is the first 16-byte boundary of the buffer, where fz_freelist_init puts the first
      node; the source computes it there and nowhere else, so the model records it. */
  datatype Freelist = Freelist(base: nat, start: nat, memoryCaps: nat, free: seq<Node>, live: map<nat, nat>)

  function End(fl: Freelist): nat {
    fl.base + fl.memoryCaps
  }

  function NodeSpan(n: Node): Span {
    Span(n.addr, n.addr + SizeHeaderSize + n.size)
  }

  function BlockSpan(p: nat, size: nat): Span {
    Span(p - SizeHeaderSize, p + size)
  }

  predicate Inside(fl: Freelist, s: Span) {
    fl.start <= s.lo && s.hi <= End(fl)
  }

  // ---------------------------------------------------------------------------
  // Byte accounting
  // ---------------------------------------------------------------------------

  /** Bytes held by a run of free nodes, size words included. */
  function FreeBytes(nodes: seq<Node>): nat {
    if nodes == [] then 0 else SizeHeaderSize + nodes[0].size + FreeBytes(nodes[1..])
  }

  ghost function Pick(m: map<nat, nat>): (k: nat)
    requires m != map[]
    ensures k in m
  {
    var k :| k in m; k
  }

  /** Bytes held by the blocks handed out, size headers included. */
  ghost function LiveBytes(m: map<nat, nat>): nat
    decreases |m|
  {
    if m == map[] then 0
    else
      var k := Pick(m);
      assert (m - {k}).Keys == m.Keys - {k};
      SizeHeaderSize + m[k] + LiveBytes(m - {k})
  }

  lemma {:induction false} LiveBytesRemove(m: map<nat, nat>, k: nat)
    requires k in m
    ensures LiveBytes(m) == SizeHeaderSize + m[k] + LiveBytes(m - {k})
    decreases |m|
  {
    var j := Pick(m);
    if j != k {
      assert (m - {j}).Keys == m.Keys - {j};
      assert (m - {k}).Keys == m.Keys - {k};
      LiveBytesRemove(m - {j}, k);
      LiveBytesRemove(m - {k}, j);
      assert m - {j} - {k} == m - {k} - {j};
    }
  }

  lemma LiveBytesAdd(m: map<nat, nat>, k: nat, size: nat)
    requires k !in m
    ensures LiveBytes(m[k := size]) == SizeHeaderSize + size + LiveBytes(m)
  {
    LiveBytesRemove(m[k := size], k);
    assert m[k := size] - {k} == m;
  }

  lemma {:induction false} FreeBytesConcat(a: seq<Node>, b: seq<Node>)
    ensures FreeBytes(a + b) == FreeBytes(a) + FreeBytes(b)
    decreases |a|
  {
    if a == [] {
      assert a + b == b;
    } else {
      FreeBytesConcat(a[1..], b);
      assert (a + b)[0] == a[0] && (a + b)[1..] == a[1..] + b;
    }
  }

  lemma {:induction false} FreeBytesRemove(nodes: seq<Node>, k: nat)
    requires k < |nodes|
    ensures FreeBytes(nodes[..k] + nodes[k + 1..]) + SizeHeaderSize + nodes[k].size == FreeBytes(nodes)
    decreases k
  {
    if k == 0 {
      assert nodes[..0] + nodes[1..] == nodes[1..];
    } else {
      var rest := nodes[1..];
      FreeBytesRemove(rest, k - 1);
      var shorter := nodes[..k] + nodes[k + 1..];
      assert shorter[0] == nodes[0];
      assert shorter[1..] == rest[..k - 1] + rest[k..];
      assert rest[k - 1] == nodes[k];
    }
  }

  lemma FreeBytesUpdate(nodes: seq<Node>, k: nat, n: Node)
    requires k < |nodes|
    ensures FreeBytes(nodes[k := n]) + nodes[k].size == FreeBytes(nodes) + n.size
  {
    FreeBytesRemove(nodes, k);
    FreeBytesRemove(nodes[k := n], k);
    assert nodes[k := n][..k] == nodes[..k];
    assert nodes[k := n][k + 1..] == nodes[k + 1..];
  }

  // ---------------------------------------------------------------------------
  // The allocator invariant
  // ---------------------------------------------------------------------------

  /** Every free node and every block lies inside the aligned buffer and has room for the
      list links it carries while it is (or once it is again) on the free list. */
  ghost predicate Sized(fl: Freelist) {
    && (forall i :: 0 <= i < |fl.free| ==> NodeSized(fl, i))
    && (forall p :: p in fl.live ==> BlockSized(fl, p))
  }

  ghost predicate NodeSized(fl: Freelist, i: int)
    requires 0 <= i < |fl.free|
  {
    fl.free[i].size >= ListLinkSize && Inside(fl, NodeSpan(fl.free[i]))
  }

  ghost predicate BlockSized(fl: Freelist, p: nat)
    requires p in fl.live
  {
    fl.live[p] >= ListLinkSize && Inside(fl, BlockSpan(p, fl.live[p]))
  }

  /** No two free nodes share a byte. */
  ghost predicate NodesApart(nodes: seq<Node>) {
    forall i, j :: 0 <= i < j < |nodes| ==> NodePairApart(nodes, i, j)
  }

  ghost predicate NodePairApart(nodes: seq<Node>, i: int, j: int)
    requires 0 <= i < |nodes| && 0 <= j < |nodes|
  {
    Apart(NodeSpan(nodes[i]), NodeSpan(nodes[j]))
  }

  /** No free node shares a byte with a live block. */
  ghost predicate NodesClear(nodes: seq<Node>, live: map<nat, nat>) {
    forall i, p :: 0 <= i < |nodes| && p in live ==> NodeClear(nodes, live, i, p)
  }

  ghost predicate NodeClear(nodes: seq<Node>, live: map<nat, nat>, i: int, p: nat)
    requires 0 <= i < |nodes| && p in live
  {
    Apart(NodeSpan(nodes[i]), BlockSpan(p, live[p]))
  }

  /** No two live blocks share a byte. */
  ghost predicate BlocksApart(live: map<nat, nat>) {
    forall p, q :: p in live && q in live && p != q ==> BlockPairApart(live, p, q)
  }

  ghost predicate BlockPairApart(live: map<nat, nat>, p: nat, q: nat)
    requires p in live && q in live
  {
    Apart(BlockSpan(p, live[p]), BlockSpan(q, live[q]))
  }

  ghost predicate Disjoint(fl: Freelist) {
    NodesApart(fl.free) && NodesClear(fl.free, fl.live) && BlocksApart(fl.live)
  }

  /** The buffer lies in the 64-bit address space, and free nodes and live blocks share
      its aligned part out without overlap and without losing a byte. */
  ghost predicate Valid(fl: Freelist) {
    && fl.start <= End(fl) <= SizeMod
    && Sized(fl)
    && Disjoint(fl)
    && FreeBytes(fl.free) + LiveBytes(fl.live) == End(fl) - fl.start
  }

  /** Apart spans that are both non-empty begin at different addresses. */
  lemma ApartDistinct(x: Span, y: Span)
    requires x.lo < x.hi && y.lo < y.hi && Apart(x, y)
    ensures x.lo != y.lo
  {
  }

  /** A span apart from two adjacent spans is apart from their union. */
  lemma ApartUnion(x: Span, a: Span, b: Span)
    requires x.lo < x.hi && a.lo <= a.hi && a.hi == b.lo
    requires Apart(x, a) && Apart(x, b)
    ensures Apart(x, Span(a.lo, b.hi))
  {
  }

  // ---------------------------------------------------------------------------
  // fz_freelist_init
  // ---------------------------------------------------------------------------

  /** Init: one node at the first 16-byte boundary whose size word is the rest of the buffer
      less its header, computed in size_t; a buffer too small for the header wraps it. */
  function Init(base: nat, memorySize: nat): (r: Freelist)
    requires memorySize < SizeMod
    ensures r.base == base && r.memoryCaps == memorySize && r.live == map[]
    ensures r.start % PushAlignment == 0 && base <= r.start < base + PushAlignment
    ensures |r.free| == 1 && r.free[0].addr == r.start
    ensures r.start + SizeHeaderSize <= End(r) ==> NodeSpan(r.free[0]).hi == End(r)
    ensures End(r) < r.start + SizeHeaderSize ==> r.free[0].size >= SizeMod - 24
  {
    var pad := AlignUp(base, PushAlignment) - base;
    Freelist(base, base + pad, memorySize, [Node(base + pad, SubWrap(SubWrap(memorySize, pad), SizeHeaderSize))], map[])
  }

  /** A fresh free list satisfies the invariant exactly when the buffer holds a whole list
      node after the alignment padding. */
  lemma InitValid(base: nat, memorySize: nat)
    requires base + memorySize <= SizeMod && memorySize < SizeMod
    ensures Valid(Init(base, memorySize)) <==> Init(base, memorySize).start + SizeHeaderSize + ListLinkSize <= base + memorySize
  {
    var r := Init(base, memorySize);
    assert FreeBytes(r.free) == SizeHeaderSize + r.free[0].size by {
      assert r.free[1..] == [];
    }
    if r.start + SizeHeaderSize + ListLinkSize <= base + memorySize {
      assert NodeSized(r, 0);
    } else {
      assert !NodeSized(r, 0);
    }
  }

  // ---------------------------------------------------------------------------
  // Selecting a node
  // ---------------------------------------------------------------------------

  /** Node k fits the request and is the first of the smallest fitting nodes among the
      first n nodes. */
  predicate IsBestFit(nodes: seq<Node>, req: nat, k: nat, n: nat)
    requires n <= |nodes|
  {
    && k < n
    && nodes[k].size >= req
    && (forall j :: 0 <= j < n && nodes[j].size >= req ==> nodes[k].size <= nodes[j].size)
    && (forall j :: 0 <= j < k && nodes[j].size >= req ==> nodes[k].size < nodes[j].size)
  }

  /** The best-fit scan as intended: an exact fit ends it, otherwise a strictly smaller
      fitting node replaces the candidate; there is no candidate until a node fits. */
  function Scan(nodes: seq<Node>, req: nat, i: nat, best: Option<nat>): (r: Option<nat>)
    requires i <= |nodes|
    requires forall j :: 0 <= j < i ==> nodes[j].size != req
    requires best.None? <==> forall j :: 0 <= j < i ==> nodes[j].size < req
    requires best.Some? ==> IsBestFit(nodes, req, best.value, i)
    ensures r.None? <==> forall j :: 0 <= j < |nodes| ==> nodes[j].size < req
    ensures r.Some? ==> IsBestFit(nodes, req, r.value, |nodes|)
    decreases |nodes| - i
  {
    if i == |nodes| then best
    else if nodes[i].size == req then Some(i)
    else if req <= nodes[i].size && (best.None? || nodes[i].size < nodes[best.value].size) then
      Scan(nodes, req, i + 1, Some(i))
    else
      Scan(nodes, req, i + 1, best)
  }

  /** Best fit: the first of the smallest nodes that hold the request, or None when no
      node does. */
  function Select(nodes: seq<Node>, req: nat): (r: Option<nat>)
    ensures r.None? <==> forall j :: 0 <= j < |nodes| ==> nodes[j].size < req
    ensures r.Some? ==> IsBestFit(nodes, req, r.value, |nodes|)
  {
    Scan(nodes, req, 0, None)
  }

  /** The scan exactly as written: the candidate starts at the first node whether or not it
      fits, and an exact fit ends the scan. */
  function ScanAsWritten(nodes: seq<Node>, req: nat, i: nat, best: nat): (r: nat)
    requires i <= |nodes| && best < |nodes|
    ensures r < |nodes|
    ensures r == best || i <= r
    decreases |nodes| - i
  {
    if i == |nodes| then best
    else if nodes[i].size == req then i
    else if req <= nodes[i].size && nodes[i].size < nodes[best].size then
      ScanAsWritten(nodes, req, i + 1, i)
    else
      ScanAsWritten(nodes, req, i + 1, best)
  }

  /** Selection exactly as written: the allocation fails unless the candidate is strictly
      larger than the request (the sentinel, of size 0, is the candidate of an empty list). */
  function SelectAsWritten(nodes: seq<Node>, req: nat): (r: Option<nat>)
    ensures r.Some? ==> r.value < |nodes| && nodes[r.value].size > req
    ensures nodes == [] ==> r.None?
  {
    if nodes == [] then None
    else
      var best := ScanAsWritten(nodes, req, 0, 0);
      if nodes[best].size <= req then None else Some(best)
  }

  /** An exact fit at or after position i ends the as-written scan on a node of exactly the
      requested size. */
  lemma {:induction false} ScanAsWrittenStopsAtExact(nodes: seq<Node>, req: nat, i: nat, best: nat, e: nat)
    requires i <= e < |nodes| && best < |nodes| && nodes[e].size == req
    ensures nodes[ScanAsWritten(nodes, req, i, best)].size == req
    decreases |nodes| - i
  {
    if nodes[i].size != req {
      if req <= nodes[i].size && nodes[i].size < nodes[best].size {
        ScanAsWrittenStopsAtExact(nodes, req, i + 1, i, e);
      } else {
        ScanAsWrittenStopsAtExact(nodes, req, i + 1, best, e);
      }
    }
  }

  /** Finding: a node of exactly the rounded request size makes the as-written allocation
      fail, although best fit would hand that very node out. */
  lemma SelectAsWrittenRejectsExactFit(nodes: seq<Node>, req: nat, e: nat)
    requires e < |nodes| && nodes[e].size == req
    ensures SelectAsWritten(nodes, req).None?
    ensures Select(nodes, req).Some? && nodes[Select(nodes, req).value].size == req
  {
    ScanAsWrittenStopsAtExact(nodes, req, 0, 0, e);
  }

  /** While the candidate is too small, only an exact fit can replace it. */
  lemma {:induction false} ScanAsWrittenKeepsSmallCandidate(nodes: seq<Node>, req: nat, i: nat, best: nat)
    requires i <= |nodes| && best < |nodes| && nodes[best].size < req
    ensures nodes[ScanAsWritten(nodes, req, i, best)].size <= req
    decreases |nodes| - i
  {
    if i < |nodes| && nodes[i].size != req {
      ScanAsWrittenKeepsSmallCandidate(nodes, req, i + 1, best);
    }
  }

  /** Finding: when the first node is too small for the request, the as-written allocation
      fails whatever else is on the list. */
  lemma SelectAsWrittenFailsOnSmallHead(nodes: seq<Node>, req: nat)
    requires nodes != [] && nodes[0].size < req
    ensures SelectAsWritten(nodes, req).None?
  {
    ScanAsWrittenKeepsSmallCandidate(nodes, req, 0, 0);
  }

  /** A concrete instance: free nodes of 16 and 64 bytes, a 32-byte request. */
  lemma SelectAsWrittenMissesFitExample()
    ensures SelectAsWritten([Node(16, 16), Node(40, 64)], 32).None?
    ensures Select([Node(16, 16), Node(40, 64)], 32) == Some(1)
  {
    SelectAsWrittenFailsOnSmallHead([Node(16, 16), Node(40, 64)], 32);
  }

  /** With a fitting candidate and no exact fit, both scans make the same choices. */
  lemma {:induction false} ScanAgrees(nodes: seq<Node>, req: nat, i: nat, best: nat)
    requires i <= |nodes| && best < |nodes|
    requires forall j :: 0 <= j < |nodes| ==> nodes[j].size != req
    requires IsBestFit(nodes, req, best, i)
    ensures ScanAsWritten(nodes, req, i, best) == Scan(nodes, req, i, Some(best)).value
    decreases |nodes| - i
  {
    if i < |nodes| {
      if req <= nodes[i].size && nodes[i].size < nodes[best].size {
        ScanAgrees(nodes, req, i + 1, i);
      } else {
        ScanAgrees(nodes, req, i + 1, best);
      }
    }
  }

  /** The as-written selection agrees with best fit whenever the first node fits and no
      node fits exactly; those two conditions are where the findings above live. */
  lemma SelectAgreesWhenHeadFits(nodes: seq<Node>, req: nat)
    requires nodes != [] && nodes[0].size >= req
    requires forall j :: 0 <= j < |nodes| ==> nodes[j].size != req
    ensures SelectAsWritten(nodes, req) == Select(nodes, req)
  {
    ScanAgrees(nodes, req, 1, 0);
  }

  // ---------------------------------------------------------------------------
  // Carving the chosen node
  // ---------------------------------------------------------------------------

  /** Cuts `req` bytes off the front of node k; the rest becomes a node in k's place in the
      list. */
  function Split(fl: Freelist, k: nat, req: nat): Grant<Freelist>
    requires k < |fl.free| && fl.free[k].size >= req + SizeHeaderSize
  {
    var n := fl.free[k];
    Grant(fl.(free := fl.free[k := Node(n.addr + SizeHeaderSize + req, n.size - req - SizeHeaderSize)],
              live := fl.live[n.addr + SizeHeaderSize := req]),
          n.addr + SizeHeaderSize)
  }

  /** Hands out node k whole; it leaves the list. */
  function Whole(fl: Freelist, k: nat): Grant<Freelist>
    requires k < |fl.free|
  {
    var n := fl.free[k];
    Grant(fl.(free := fl.free[..k] + fl.free[k + 1..], live := fl.live[n.addr + SizeHeaderSize := n.size]),
          n.addr + SizeHeaderSize)
  }

  /** The address right after a free node's size word is not a live block. */
  lemma NodeIsNotLive(fl: Freelist, k: nat)
    requires NodesClear(fl.free, fl.live) && k < |fl.free|
    ensures fl.free[k].addr + SizeHeaderSize !in fl.live
  {
    forall q | q in fl.live
      ensures q != fl.free[k].addr + SizeHeaderSize
    {
      assert NodeClear(fl.free, fl.live, k, q);
    }
  }

  /** Splitting a node keeps the invariant when the block can carry the links once freed
      and the rest can carry its own. */
  lemma SplitValid(fl: Freelist, k: nat, req: nat)
    requires Valid(fl) && k < |fl.free| && fl.free[k].addr + SizeHeaderSize !in fl.live
    requires req >= ListLinkSize && fl.free[k].size >= req + SizeHeaderSize + ListLinkSize
    ensures Valid(Split(fl, k, req).state)
  {
    SplitAccounting(fl, k, req);
    SplitSized(fl, k, req);
    SplitDisjoint(fl, k, req);
  }

  lemma SplitDisjoint(fl: Freelist, k: nat, req: nat)
    requires Disjoint(fl) && k < |fl.free| && fl.free[k].size >= req + SizeHeaderSize
    requires fl.free[k].addr + SizeHeaderSize !in fl.live
    ensures Disjoint(Split(fl, k, req).state)
  {
    SplitNodesApart(fl.free, k, req);
    SplitNodesClear(fl.free, fl.live, k, req);
    CarveBlocksApart(fl.free, fl.live, k, req);
  }

  lemma SplitAccounting(fl: Freelist, k: nat, req: nat)
    requires k < |fl.free| && fl.free[k].size >= req + SizeHeaderSize
    requires fl.free[k].addr + SizeHeaderSize !in fl.live
    ensures var s := Split(fl, k, req).state;
            FreeBytes(s.free) + LiveBytes(s.live) == FreeBytes(fl.free) + LiveBytes(fl.live)
  {
    var s := Split(fl, k, req).state;
    FreeBytesUpdate(fl.free, k, s.free[k]);
    LiveBytesAdd(fl.live, fl.free[k].addr + SizeHeaderSize, req);
  }

  lemma SplitSized(fl: Freelist, k: nat, req: nat)
    requires Sized(fl) && k < |fl.free|
    requires req >= ListLinkSize && fl.free[k].size >= req + SizeHeaderSize + ListLinkSize
    ensures Sized(Split(fl, k, req).state)
  {
    var s := Split(fl, k, req).state;
    assert NodeSized(fl, k);
    forall i | 0 <= i < |s.free|
      ensures NodeSized(s, i)
    {
      if i != k {
        assert s.free[i] == fl.free[i] && NodeSized(fl, i);
      }
    }
    forall p | p in s.live
      ensures BlockSized(s, p)
    {
      if p != fl.free[k].addr + SizeHeaderSize {
        assert BlockSized(fl, p);
      }
    }
  }

  lemma SplitNodesApart(nodes: seq<Node>, k: nat, req: nat)
    requires NodesApart(nodes) && k < |nodes| && nodes[k].size >= req + SizeHeaderSize
    ensures NodesApart(nodes[k := Node(nodes[k].addr + SizeHeaderSize + req, nodes[k].size - req - SizeHeaderSize)])
  {
    var s := nodes[k := Node(nodes[k].addr + SizeHeaderSize + req, nodes[k].size - req - SizeHeaderSize)];
    forall i, j | 0 <= i < j < |s|
      ensures NodePairApart(s, i, j)
    {
      assert NodePairApart(nodes, i, j);
    }
  }

  lemma SplitNodesClear(nodes: seq<Node>, live: map<nat, nat>, k: nat, req: nat)
    requires NodesApart(nodes) && NodesClear(nodes, live)
    requires k < |nodes| && nodes[k].size >= req + SizeHeaderSize
    requires nodes[k].addr + SizeHeaderSize !in live
    ensures NodesClear(nodes[k := Node(nodes[k].addr + SizeHeaderSize + req, nodes[k].size - req - SizeHeaderSize)],
                       live[nodes[k].addr + SizeHeaderSize := req])
  {
    var n := nodes[k];
    var p := n.addr + SizeHeaderSize;
    var s := nodes[k := Node(n.addr + SizeHeaderSize + req, n.size - req - SizeHeaderSize)];
    var l := live[p := req];
    forall i, q | 0 <= i < |s| && q in l
      ensures NodeClear(s, l, i, q)
    {
      if q != p {
        assert NodeClear(nodes, live, i, q);
      } else if i < k {
        assert NodePairApart(nodes, i, k);
      } else if i > k {
        assert NodePairApart(nodes, k, i);
      }
    }
  }

  /** A block carved from the front of a free node is apart from every live block. */
  lemma CarveBlocksApart(nodes: seq<Node>, live: map<nat, nat>, k: nat, req: nat)
    requires NodesClear(nodes, live) && BlocksApart(live)
    requires k < |nodes| && req <= nodes[k].size
    requires nodes[k].addr + SizeHeaderSize !in live
    ensures BlocksApart(live[nodes[k].addr + SizeHeaderSize := req])
  {
    var n := nodes[k];
    var p := n.addr + SizeHeaderSize;
    var l := live[p := req];
    forall q, q' | q in l && q' in l && q != q'
      ensures BlockPairApart(l, q, q')
    {
      if q == p {
        assert NodeClear(nodes, live, k, q');
      } else if q' == p {
        assert NodeClear(nodes, live, k, q);
      } else {
        assert BlockPairApart(live, q, q');
      }
    }
  }

  /** Handing out a whole node keeps the invariant. */
  lemma WholeValid(fl: Freelist, k: nat)
    requires Valid(fl) && k < |fl.free| && fl.free[k].addr + SizeHeaderSize !in fl.live
    ensures Valid(Whole(fl, k).state)
  {
    WholeAccounting(fl, k);
    WholeSized(fl, k);
    WholeDisjoint(fl, k);
  }

  lemma WholeAccounting(fl: Freelist, k: nat)
    requires k < |fl.free| && fl.free[k].addr + SizeHeaderSize !in fl.live
    ensures var s := Whole(fl, k).state;
            FreeBytes(s.free) + LiveBytes(s.live) == FreeBytes(fl.free) + LiveBytes(fl.live)
  {
    FreeBytesRemove(fl.free, k);
    LiveBytesAdd(fl.live, fl.free[k].addr + SizeHeaderSize, fl.free[k].size);
  }

  lemma WholeSized(fl: Freelist, k: nat)
    requires Sized(fl) && k < |fl.free|
    ensures Sized(Whole(fl, k).state)
  {
    var s := Whole(fl, k).state;
    assert NodeSized(fl, k);
    forall i | 0 <= i < |s.free|
      ensures NodeSized(s, i)
    {
      var i0 := if i < k then i else i + 1;
      assert s.free[i] == fl.free[i0] && NodeSized(fl, i0);
    }
    forall p | p in s.live
      ensures BlockSized(s, p)
    {
      if p != fl.free[k].addr + SizeHeaderSize {
        assert BlockSized(fl, p);
      }
    }
  }

  lemma WholeDisjoint(fl: Freelist, k: nat)
    requires Disjoint(fl) && k < |fl.free|
    requires fl.free[k].addr + SizeHeaderSize !in fl.live
    ensures Disjoint(Whole(fl, k).state)
  {
    WholeNodesApart(fl.free, k);
    WholeNodesClear(fl.free, fl.live, k);
    CarveBlocksApart(fl.free, fl.live, k, fl.free[k].size);
  }

  lemma WholeNodesApart(nodes: seq<Node>, k: nat)
    requires NodesApart(nodes) && k < |nodes|
    ensures NodesApart(nodes[..k] + nodes[k + 1..])
  {
    var s := nodes[..k] + nodes[k + 1..];
    forall i, j | 0 <= i < j < |s|
      ensures NodePairApart(s, i, j)
    {
      var i0, j0 := if i < k then i else i + 1, if j < k then j else j + 1;
      assert s[i] == nodes[i0] && s[j] == nodes[j0];
      assert NodePairApart(nodes, i0, j0);
    }
  }

  lemma WholeNodesClear(nodes: seq<Node>, live: map<nat, nat>, k: nat)
    requires NodesApart(nodes) && NodesClear(nodes, live) && k < |nodes|
    requires nodes[k].addr + SizeHeaderSize !in live
    ensures NodesClear(nodes[..k] + nodes[k + 1..], live[nodes[k].addr + SizeHeaderSize := nodes[k].size])
  {
    var n := nodes[k];
    var p := n.addr + SizeHeaderSize;
    var s := nodes[..k] + nodes[k + 1..];
    var l := live[p := n.size];
    forall i, q | 0 <= i < |s| && q in l
      ensures NodeClear(s, l, i, q)
    {
      var i0 := if i < k then i else i + 1;
      assert s[i] == nodes[i0];
      if q != p {
        assert NodeClear(nodes, live, i0, q);
      } else if i0 < k {
        assert NodePairApart(nodes, i0, k);
      } else {
        assert NodePairApart(nodes, k, i0);
      }
    }
  }

  // ---------------------------------------------------------------------------
  // Allocation
  // ---------------------------------------------------------------------------

  /** The rounded request: fz_align_to_power_of_two(size, 16). The allocator interface
      asks for a non-zero size, so the block can always carry the list links once freed. */
  function Request(size: nat): (req: nat)
    requires size > 0
    ensures req % PushAlignment == 0 && size <= req < size + PushAlignment
    ensures ListLinkSize <= req
  {
    AlignUp(size, PushAlignment)
  }

  /** The split condition as written: the node is at least twice the request. */
  predicate SplitsAsWritten(nodeSize: nat, req: nat) {
    nodeSize >= 2 * req
  }

  /** The split condition as intended: also the rest must hold a list node. */
  predicate Splits(nodeSize: nat, req: nat) {
    nodeSize >= 2 * req && nodeSize >= req + SizeHeaderSize + ListLinkSize
  }

  /** Allocation exactly as written. */
  function AllocateAsWritten(fl: Freelist, size: nat): (r: Option<Grant<Freelist>>)
    requires Valid(fl) && size > 0
    ensures r.None? <==> SelectAsWritten(fl.free, Request(size)).None?
    ensures r.Some? ==> r.value.ptr in r.value.state.live && size <= r.value.state.live[r.value.ptr]
  {
    var req := Request(size);
    match SelectAsWritten(fl.free, req)
    case None => None
    case Some(k) =>
      assert fl.free[k].size >= ListLinkSize by {
        assert NodeSized(fl, k);
      }
      Some(if SplitsAsWritten(fl.free[k].size, req) then Split(fl, k, req) else Whole(fl, k))
  }

  /** Allocation as intended: best fit, and a split only when both parts can carry the list
      links. It fails exactly when no node holds the rounded request. Otherwise it hands out
      the block after the size word of a best-fitting node k: when k splits, the block is
      exactly the request and the rest of k, smaller by the request and a size word, takes
      k's place in the list; otherwise k leaves the list whole and the block is all of it.
      No other node moves or changes, and the invariant is kept. */
  function Allocate(fl: Freelist, size: nat): (r: Option<Grant<Freelist>>)
    requires Valid(fl) && size > 0
    ensures r.None? <==> forall i :: 0 <= i < |fl.free| ==> fl.free[i].size < Request(size)
    ensures r.Some? ==> Valid(r.value.state)
    ensures r.Some? ==> r.value.state.base == fl.base && r.value.state.memoryCaps == fl.memoryCaps
    ensures r.Some? ==> r.value.ptr !in fl.live && r.value.ptr in r.value.state.live
    ensures r.Some? ==> r.value.state.live == fl.live[r.value.ptr := r.value.state.live[r.value.ptr]]
    ensures r.Some? ==> Request(size) <= r.value.state.live[r.value.ptr]
    ensures r.Some? ==> exists k :: 0 <= k < |fl.free| && IsBestFit(fl.free, Request(size), k, |fl.free|)
                                    && fl.free[k].addr + SizeHeaderSize == r.value.ptr
                                    && CarvedFrom(fl.free, r.value, k, Request(size))
    ensures r.Some? ==> r.value.state.live[r.value.ptr] == Request(size) || |r.value.state.free| + 1 == |fl.free|
  {
    var req := Request(size);
    match Select(fl.free, req)
    case None => None
    case Some(k) =>
      CarveFacts(fl, k, req);
      var g := Carve(fl, k, req);
      assert IsBestFit(fl.free, req, k, |fl.free|) && fl.free[k].addr + SizeHeaderSize == g.ptr
             && CarvedFrom(fl.free, g, k, req);
      Some(g)
  }

  /** The free list and the block after node k was carved for a request of `req` bytes:
      either the rest of k, req + 8 bytes further on and that much smaller, stands in k's
      place and the block is exactly req; or k is gone from the list and the block is k. */
  ghost predicate CarvedFrom(nodes: seq<Node>, g: Grant<Freelist>, k: nat, req: nat)
    requires k < |nodes| && g.ptr in g.state.live
  {
    var n := nodes[k];
    if Splits(n.size, req) then
      && g.state.free == nodes[k := Node(g.ptr + req, n.size - req - SizeHeaderSize)]
      && g.state.live[g.ptr] == req
    else
      && g.state.free == nodes[..k] + nodes[k + 1..]
      && g.state.live[g.ptr] == n.size
  }

  /** Carving node k as intended: split when both parts can carry the links, else whole. */
  function Carve(fl: Freelist, k: nat, req: nat): Grant<Freelist>
    requires k < |fl.free| && fl.free[k].size >= req
  {
    if Splits(fl.free[k].size, req) then Split(fl, k, req) else Whole(fl, k)
  }

  lemma CarveFacts(fl: Freelist, k: nat, req: nat)
    requires Valid(fl) && k < |fl.free| && fl.free[k].size >= req && req >= ListLinkSize
    ensures var g := Carve(fl, k, req);
            && Valid(g.state)
            && g.state.base == fl.base && g.state.memoryCaps == fl.memoryCaps
            && g.ptr == fl.free[k].addr + SizeHeaderSize
            && g.ptr !in fl.live && g.ptr in g.state.live
            && g.state.live == fl.live[g.ptr := g.state.live[g.ptr]]
            && req <= g.state.live[g.ptr]
            && (g.state.live[g.ptr] == req || |g.state.free| + 1 == |fl.free|)
            && CarvedFrom(fl.free, g, k, req)
  {
    NodeIsNotLive(fl, k);
    if Splits(fl.free[k].size, req) {
      SplitValid(fl, k, req);
    } else {
      WholeValid(fl, k);
    }
  }

  /** Splitting keeps a rest node too small for its links when the node is at least twice
      the request but less than the request plus a whole list node. */
  lemma SplitAsWrittenLeavesRunt(fl: Freelist, k: nat, req: nat)
    requires k < |fl.free| && SplitsAsWritten(fl.free[k].size, req)
    requires fl.free[k].size >= req + SizeHeaderSize && !Splits(fl.free[k].size, req)
    ensures Split(fl, k, req).state.free[k].size < ListLinkSize
    ensures !Valid(Split(fl, k, req).state)
  {
    assert !NodeSized(Split(fl, k, req).state, k);
  }

  /** A 40-byte buffer holding one 32-byte node. */
  function OneNode(): Freelist {
    Freelist(0, 0, 40, [Node(0, 32)], map[])
  }

  lemma OneNodeValid()
    ensures Valid(OneNode())
  {
    var fl := OneNode();
    assert fl.start == 0;
    assert FreeBytes(fl.free) == 40 by {
      assert fl.free[1..] == [];
    }
  }

  /** Finding: a 16-byte request on a 32-byte node splits it as written and leaves an
      8-byte node whose links run past its end; the intended split hands the node out
      whole. */
  lemma AllocateAsWrittenLeavesRuntExample()
    ensures Valid(OneNode())
    ensures AllocateAsWritten(OneNode(), 16).Some?
    ensures AllocateAsWritten(OneNode(), 16).value.state.free == [Node(24, 8)]
    ensures !Valid(AllocateAsWritten(OneNode(), 16).value.state)
    ensures Allocate(OneNode(), 16).Some? && Allocate(OneNode(), 16).value.state.free == []
  {
    OneNodeValid();
    SelectAgreesWhenHeadFits(OneNode().free, 16);
    SplitAsWrittenLeavesRunt(OneNode(), 0, 16);
  }

  // ---------------------------------------------------------------------------
  // Free
  // ---------------------------------------------------------------------------

  /** The first node starting at `addr`, if any. */
  function NodeAt(nodes: seq<Node>, addr: nat): (r: Option<nat>)
    ensures r.None? <==> forall j :: 0 <= j < |nodes| ==> nodes[j].addr != addr
    ensures r.Some? ==> r.value < |nodes| && nodes[r.value].addr == addr
    ensures r.Some? ==> forall j :: 0 <= j < r.value ==> nodes[j].addr != addr
  {
    if nodes == [] then None
    else if nodes[0].addr == addr then Some(0)
    else match NodeAt(nodes[1..], addr)
      case None => None
      case Some(k) => Some(k + 1)
  }

  /** The freed block absorbs the free node that starts right after it; the merged node
      takes that node's place in the list. */
  function Coalesce(fl: Freelist, ptr: nat, k: nat): Freelist
    requires ptr in fl.live && ptr >= SizeHeaderSize && k < |fl.free|
  {
    var merged := Node(ptr - SizeHeaderSize, fl.live[ptr] + SizeHeaderSize + fl.free[k].size);
    fl.(free := fl.free[k := merged], live := fl.live - {ptr})
  }

  /** The freed block goes on the head of the list. */
  function Prepend(fl: Freelist, ptr: nat): Freelist
    requires ptr in fl.live && ptr >= SizeHeaderSize
  {
    fl.(free := [Node(ptr - SizeHeaderSize, fl.live[ptr])] + fl.free, live := fl.live - {ptr})
  }

  /** A live block starts after its size word. */
  lemma LiveAfterHeader(fl: Freelist, ptr: nat)
    requires Sized(fl) && ptr in fl.live
    ensures ptr >= SizeHeaderSize
  {
    assert BlockSized(fl, ptr);
  }

  lemma CoalesceAccounting(fl: Freelist, ptr: nat, k: nat)
    requires ptr in fl.live && ptr >= SizeHeaderSize && k < |fl.free|
    ensures var s := Coalesce(fl, ptr, k);
            FreeBytes(s.free) + LiveBytes(s.live) == FreeBytes(fl.free) + LiveBytes(fl.live)
  {
    FreeBytesUpdate(fl.free, k, Coalesce(fl, ptr, k).free[k]);
    LiveBytesRemove(fl.live, ptr);
  }

  lemma CoalesceSized(fl: Freelist, ptr: nat, k: nat)
    requires Sized(fl) && ptr in fl.live && ptr >= SizeHeaderSize && k < |fl.free|
    requires fl.free[k].addr == ptr + fl.live[ptr]
    ensures Sized(Coalesce(fl, ptr, k))
  {
    var s := Coalesce(fl, ptr, k);
    assert NodeSized(fl, k) && BlockSized(fl, ptr);
    forall i | 0 <= i < |s.free|
      ensures NodeSized(s, i)
    {
      if i != k {
        assert s.free[i] == fl.free[i] && NodeSized(fl, i);
      }
    }
    forall p | p in s.live
      ensures BlockSized(s, p)
    {
      assert BlockSized(fl, p);
    }
  }

  lemma CoalesceDisjoint(fl: Freelist, ptr: nat, k: nat)
    requires Disjoint(fl) && ptr in fl.live && k < |fl.free|
    requires ptr >= SizeHeaderSize && fl.free[k].addr == ptr + fl.live[ptr]
    ensures Disjoint(Coalesce(fl, ptr, k))
  {
    var s := Coalesce(fl, ptr, k);
    var block := BlockSpan(ptr, fl.live[ptr]);
    var nk := NodeSpan(fl.free[k]);
    assert NodeSpan(s.free[k]) == Span(block.lo, nk.hi);
    forall i, j | 0 <= i < j < |s.free|
      ensures NodePairApart(s.free, i, j)
    {
      if i == k {
        assert NodeClear(fl.free, fl.live, j, ptr);
        assert NodePairApart(fl.free, k, j);
        ApartUnion(NodeSpan(fl.free[j]), block, nk);
      } else if j == k {
        assert NodeClear(fl.free, fl.live, i, ptr);
        assert NodePairApart(fl.free, i, k);
        ApartUnion(NodeSpan(fl.free[i]), block, nk);
      } else {
        assert NodePairApart(fl.free, i, j);
      }
    }
    forall i, q | 0 <= i < |s.free| && q in s.live
      ensures NodeClear(s.free, s.live, i, q)
    {
      var bq := BlockSpan(q, fl.live[q]);
      if i == k {
        assert BlockPairApart(fl.live, ptr, q);
        assert NodeClear(fl.free, fl.live, k, q);
        ApartUnion(bq, block, nk);
      } else {
        assert NodeClear(fl.free, fl.live, i, q);
      }
    }
    forall q, q' | q in s.live && q' in s.live && q != q'
      ensures BlockPairApart(s.live, q, q')
    {
      assert BlockPairApart(fl.live, q, q');
    }
  }

  lemma PrependAccounting(fl: Freelist, ptr: nat)
    requires ptr in fl.live && ptr >= SizeHeaderSize
    ensures var s := Prepend(fl, ptr);
            FreeBytes(s.free) + LiveBytes(s.live) == FreeBytes(fl.free) + LiveBytes(fl.live)
  {
    var s := Prepend(fl, ptr);
    assert s.free[1..] == fl.free;
    LiveBytesRemove(fl.live, ptr);
  }

  lemma PrependSized(fl: Freelist, ptr: nat)
    requires Sized(fl) && ptr in fl.live && ptr >= SizeHeaderSize
    ensures Sized(Prepend(fl, ptr))
  {
    var s := Prepend(fl, ptr);
    assert BlockSized(fl, ptr);
    forall i | 0 <= i < |s.free|
      ensures NodeSized(s, i)
    {
      if i > 0 {
        assert s.free[i] == fl.free[i - 1] && NodeSized(fl, i - 1);
      }
    }
    forall p | p in s.live
      ensures BlockSized(s, p)
    {
      assert BlockSized(fl, p);
    }
  }

  lemma PrependDisjoint(fl: Freelist, ptr: nat)
    requires Disjoint(fl) && ptr in fl.live && ptr >= SizeHeaderSize
    ensures Disjoint(Prepend(fl, ptr))
  {
    var s := Prepend(fl, ptr);
    var block := BlockSpan(ptr, fl.live[ptr]);
    assert NodeSpan(s.free[0]) == block;
    forall i, j | 0 <= i < j < |s.free|
      ensures NodePairApart(s.free, i, j)
    {
      assert s.free[j] == fl.free[j - 1];
      if i == 0 {
        assert NodeClear(fl.free, fl.live, j - 1, ptr);
      } else {
        assert s.free[i] == fl.free[i - 1];
        assert NodePairApart(fl.free, i - 1, j - 1);
      }
    }
    forall i, q | 0 <= i < |s.free| && q in s.live
      ensures NodeClear(s.free, s.live, i, q)
    {
      if i == 0 {
        assert BlockPairApart(fl.live, ptr, q);
      } else {
        assert s.free[i] == fl.free[i - 1];
        assert NodeClear(fl.free, fl.live, i - 1, q);
      }
    }
    forall q, q' | q in s.live && q' in s.live && q != q'
      ensures BlockPairApart(s.live, q, q')
    {
      assert BlockPairApart(fl.live, q, q');
    }
  }

  /** Free: the block merges with the first free node that starts right after it; the
      merged node begins at the block's size word, holds the block, that size word and the
      absorbed node, and takes the absorbed node's place in the list. Otherwise the block
      goes on the head of the list as a node of its own size. Nothing else changes. */
  function Free(fl: Freelist, ptr: nat): (r: Freelist)
    requires ptr in fl.live && ptr >= SizeHeaderSize
    ensures r.base == fl.base && r.memoryCaps == fl.memoryCaps && r.live == fl.live - {ptr}
    ensures NodeAt(fl.free, ptr + fl.live[ptr]).Some? ==> |r.free| == |fl.free|
    ensures var at := NodeAt(fl.free, ptr + fl.live[ptr]);
            at.Some? ==> r.free == fl.free[at.value := Node(ptr - SizeHeaderSize, fl.live[ptr] + SizeHeaderSize + fl.free[at.value].size)]
    ensures NodeAt(fl.free, ptr + fl.live[ptr]).None? ==> r.free == [Node(ptr - SizeHeaderSize, fl.live[ptr])] + fl.free
  {
    match NodeAt(fl.free, ptr + fl.live[ptr])
    case Some(k) => Coalesce(fl, ptr, k)
    case None => Prepend(fl, ptr)
  }

  /** Free keeps the invariant. */
  lemma FreeValid(fl: Freelist, ptr: nat)
    requires Valid(fl) && ptr in fl.live
    ensures Valid(Free(fl, ptr))
  {
    var at := NodeAt(fl.free, ptr + fl.live[ptr]);
    if at.Some? {
      FreeValidCoalesced(fl, ptr, at.value);
    } else {
      FreeValidPrepended(fl, ptr);
    }
  }

  /** The freed bytes, header included, return to the free list: a node now begins at the
      block's header and holds at least the block. */
  lemma FreeReturnsBytes(fl: Freelist, ptr: nat)
    requires Sized(fl) && ptr in fl.live
    ensures FreeBytes(Free(fl, ptr).free) == FreeBytes(fl.free) + SizeHeaderSize + fl.live[ptr]
    ensures exists i :: 0 <= i < |Free(fl, ptr).free| && Free(fl, ptr).free[i].addr + SizeHeaderSize == ptr
                        && Free(fl, ptr).free[i].size >= fl.live[ptr]
  {
    var at := NodeAt(fl.free, ptr + fl.live[ptr]);
    if at.Some? {
      FreeBytesCoalesced(fl, ptr, at.value);
    } else {
      FreeBytesPrepended(fl, ptr);
    }
  }

  lemma FreeValidCoalesced(fl: Freelist, ptr: nat, k: nat)
    requires Valid(fl) && ptr in fl.live && NodeAt(fl.free, ptr + fl.live[ptr]) == Some(k)
    ensures Valid(Free(fl, ptr))
  {
    FreeCoalesces(fl, ptr, k);
    CoalesceAccounting(fl, ptr, k);
    CoalesceSized(fl, ptr, k);
    CoalesceDisjoint(fl, ptr, k);
  }

  lemma FreeBytesCoalesced(fl: Freelist, ptr: nat, k: nat)
    requires Sized(fl) && ptr in fl.live && NodeAt(fl.free, ptr + fl.live[ptr]) == Some(k)
    ensures FreeBytes(Free(fl, ptr).free) == FreeBytes(fl.free) + SizeHeaderSize + fl.live[ptr]
    ensures Free(fl, ptr).free[k].addr + SizeHeaderSize == ptr && Free(fl, ptr).free[k].size >= fl.live[ptr]
  {
    FreeCoalesces(fl, ptr, k);
    FreeBytesUpdate(fl.free, k, Coalesce(fl, ptr, k).free[k]);
  }

  lemma FreeValidPrepended(fl: Freelist, ptr: nat)
    requires Valid(fl) && ptr in fl.live && NodeAt(fl.free, ptr + fl.live[ptr]).None?
    ensures Valid(Free(fl, ptr))
  {
    FreePrepends(fl, ptr);
    PrependAccounting(fl, ptr);
    PrependSized(fl, ptr);
    PrependDisjoint(fl, ptr);
  }

  lemma FreeBytesPrepended(fl: Freelist, ptr: nat)
    requires Sized(fl) && ptr in fl.live && NodeAt(fl.free, ptr + fl.live[ptr]).None?
    ensures FreeBytes(Free(fl, ptr).free) == FreeBytes(fl.free) + SizeHeaderSize + fl.live[ptr]
    ensures |Free(fl, ptr).free| > 0 && Free(fl, ptr).free[0].addr + SizeHeaderSize == ptr
    ensures Free(fl, ptr).free[0].size >= fl.live[ptr]
  {
    FreePrepends(fl, ptr);
    assert Free(fl, ptr).free[1..] == fl.free;
  }

  /** Reallocation to a larger size: a fresh block, a move of the old contents, and a free
      of the old block; None, with nothing changed, when no node holds the request. */
  function Realloc(fl: Freelist, ptr: nat, size: nat): (r: Option<Resized<Freelist>>)
    requires Valid(fl) && ptr in fl.live && size > fl.live[ptr]
    ensures r.None? <==> forall i :: 0 <= i < |fl.free| ==> fl.free[i].size < Request(size)
    ensures r.Some? ==> Valid(r.value.state)
    ensures r.Some? ==> r.value.ptr != ptr && r.value.ptr !in fl.live && ptr !in r.value.state.live
    ensures r.Some? ==> r.value.ptr in r.value.state.live && size <= r.value.state.live[r.value.ptr]
    ensures r.Some? ==> r.value.state.live == (fl.live - {ptr})[r.value.ptr := r.value.state.live[r.value.ptr]]
    ensures r.Some? ==> r.value.moved == Some(Move(ptr, r.value.ptr, fl.live[ptr]))
  {
    match Allocate(fl, size)
    case None => None
    case Some(g) =>
      MovedBlockFreed(fl, ptr, g);
      FreeValid(g.state, ptr);
      Some(Resized(Free(g.state, ptr), g.ptr, Some(Move(ptr, g.ptr, fl.live[ptr]))))
  }

  /** After a fresh block is allocated, the old block is still live and freeing it leaves
      exactly the fresh block in its place. */
  lemma MovedBlockFreed(fl: Freelist, ptr: nat, g: Grant<Freelist>)
    requires ptr in fl.live && g.ptr !in fl.live && g.ptr in g.state.live
    requires Valid(g.state) && g.state.live == fl.live[g.ptr := g.state.live[g.ptr]]
    ensures ptr in g.state.live && g.ptr != ptr
    ensures Free(g.state, ptr).live == (fl.live - {ptr})[g.ptr := g.state.live[g.ptr]]
  {
    assert g.state.live - {ptr} == (fl.live - {ptr})[g.ptr := g.state.live[g.ptr]];
  }

  lemma FreeCoalesces(fl: Freelist, ptr: nat, k: nat)
    requires Sized(fl) && ptr in fl.live && NodeAt(fl.free, ptr + fl.live[ptr]) == Some(k)
    ensures ptr >= SizeHeaderSize
    ensures Free(fl, ptr) == Coalesce(fl, ptr, k)
  {
    LiveAfterHeader(fl, ptr);
  }

  lemma FreePrepends(fl: Freelist, ptr: nat)
    requires Sized(fl) && ptr in fl.live && NodeAt(fl.free, ptr + fl.live[ptr]).None?
    ensures ptr >= SizeHeaderSize
    ensures Free(fl, ptr) == Prepend(fl, ptr)
  {
    LiveAfterHeader(fl, ptr);
  }

  /** The rest of a split node is the first node that starts where the block ends. */
  lemma SplitRestIsNext(fl: Freelist, k: nat, req: nat)
    requires NodesApart(fl.free) && k < |fl.free| && fl.free[k].size >= req + SizeHeaderSize + ListLinkSize
    ensures NodeAt(Split(fl, k, req).state.free, fl.free[k].addr + SizeHeaderSize + req) == Some(k)
  {
    var s := Split(fl, k, req).state;
    var n := fl.free[k];
    var target := n.addr + SizeHeaderSize + req;
    forall j | 0 <= j < |fl.free| && j != k
      ensures s.free[j].addr != target
    {
      assert s.free[j] == fl.free[j];
      if j < k {
        assert NodePairApart(fl.free, j, k);
      } else {
        assert NodePairApart(fl.free, k, j);
      }
    }
    var at := NodeAt(s.free, target);
    assert s.free[k].addr == target;
    assert at.Some? && s.free[at.value].addr == target;
  }

  /** Freeing a block just split off a node merges it straight back: the list is restored
      exactly. */
  lemma SplitThenFree(fl: Freelist, k: nat, req: nat)
    requires Valid(fl) && k < |fl.free|
    requires req >= ListLinkSize && fl.free[k].size >= req + SizeHeaderSize + ListLinkSize
    ensures Valid(Split(fl, k, req).state)
    ensures Free(Split(fl, k, req).state, Split(fl, k, req).ptr) == fl
  {
    var g := Split(fl, k, req);
    NodeIsNotLive(fl, k);
    SplitValid(fl, k, req);
    SplitRestIsNext(fl, k, req);
    assert g.ptr + g.state.live[g.ptr] == fl.free[k].addr + SizeHeaderSize + req;
    FreeCoalesces(g.state, g.ptr, k);
    var merged := Coalesce(g.state, g.ptr, k).free[k];
    assert merged == fl.free[k];
    UpdateTwice(fl.free, k, g.state.free[k], merged);
    AddThenRemove(fl.live, g.ptr, req);
  }

  lemma UpdateTwice(s: seq<Node>, k: nat, a: Node, b: Node)
    requires k < |s| && b == s[k]
    ensures s[k := a][k := b] == s
  {
  }

  lemma AddThenRemove(m: map<nat, nat>, key: nat, v: nat)
    requires key !in m
    ensures m[key := v] - {key} == m
  {
  }

  /** Freeing a node handed out whole gives back the same live blocks and free bytes. */
  lemma WholeThenFree(fl: Freelist, k: nat)
    requires Valid(fl) && k < |fl.free|
    ensures Free(Whole(fl, k).state, Whole(fl, k).ptr).live == fl.live
    ensures FreeBytes(Free(Whole(fl, k).state, Whole(fl, k).ptr).free) == FreeBytes(fl.free)
  {
    var g := Whole(fl, k);
    NodeIsNotLive(fl, k);
    WholeSized(fl, k);
    FreeBytesRemove(fl.free, k);
    FreeReturnsBytes(g.state, g.ptr);
    AddThenRemove(fl.live, g.ptr, fl.free[k].size);
  }

  /** Allocate then free: the blocks handed out are as before and every byte is back on the
      free list; when the allocation split its node, the list itself is restored exactly. */
  lemma AllocateThenFree(fl: Freelist, size: nat)
    requires Valid(fl) && size > 0
    ensures var r := Allocate(fl, size);
            r.Some? ==> Free(r.value.state, r.value.ptr).live == fl.live
                        && FreeBytes(Free(r.value.state, r.value.ptr).free) == FreeBytes(fl.free)
    ensures var r := Allocate(fl, size);
            r.Some? && |r.value.state.free| == |fl.free| ==> Free(r.value.state, r.value.ptr) == fl
  {
    var req := Request(size);
    var sel := Select(fl.free, req);
    if sel.Some? {
      var k := sel.value;
      assert Allocate(fl, size) == Some(Carve(fl, k, req));
      if Splits(fl.free[k].size, req) {
        SplitThenFree(fl, k, req);
      } else {
        WholeThenFree(fl, k);
      }
    }
  }
}
