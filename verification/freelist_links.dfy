/** The prev/next links of the free-list allocator. The free nodes and the sentinel that
    fz_Freelist embeds form a circular doubly linked list; module Freelist models the list
    as the sequence of node addresses from the sentinel's next link, and this module
    models the link fields themselves and the four ways fz_freelist_operation rewires
    them: unlinking a node, putting a node in another's place (split and coalesce), and
    pushing a node on the head (free without a neighbour). */
module FreelistLinks {
  import opened Mem
  import Freelist

  /** A link target: the sentinel or the free node whose size word is at `addr`. */
  datatype Ref = Sentinel | At(addr: nat)

  /** The next and prev fields of every list node that has them. */
  datatype Links = Links(next: map<Ref, Ref>, prev: map<Ref, Ref>)

  /** The ring in forward order: the sentinel, then the nodes. */
  function Ring(order: seq<nat>): (r: seq<Ref>)
    ensures |r| == |order| + 1 && r[0] == Sentinel
    ensures forall i :: 0 <= i < |order| ==> r[i + 1] == At(order[i])
  {
    [Sentinel] + seq(|order|, i requires 0 <= i < |order| => At(order[i]))
  }

  /** The element after position i, wrapping from the last node to the sentinel. */
  function Succ(r: seq<Ref>, i: nat): Ref
    requires i < |r|
  {
    if i + 1 < |r| then r[i + 1] else r[0]
  }

  /** The element before position i, wrapping from the sentinel to the last node. */
  function Pred(r: seq<Ref>, i: nat): Ref
    requires i < |r|
  {
    if i == 0 then r[|r| - 1] else r[i - 1]
  }

  ghost predicate Distinct(order: seq<nat>) {
    forall i, j :: 0 <= i < j < |order| ==> order[i] != order[j]
  }

  /** Position i of the ring has both links, pointing at its neighbours. */
  ghost predicate LinkedAt(l: Links, r: seq<Ref>, i: nat)
    requires i < |r|
  {
    && r[i] in l.next && l.next[r[i]] == Succ(r, i)
    && r[i] in l.prev && l.prev[r[i]] == Pred(r, i)
  }

  /** Every position of r is linked to its neighbours, circularly. */
  ghost predicate Cycle(l: Links, r: seq<Ref>) {
    forall i :: 0 <= i < |r| ==> LinkedAt(l, r, i)
  }

  ghost predicate DistinctRefs(r: seq<Ref>) {
    forall a, b :: 0 <= a < b < |r| ==> r[a] != r[b]
  }

  /** The links form exactly the circular list sentinel, order[0], ..., order[|order|-1],
      in both directions. */
  ghost predicate IsRing(l: Links, order: seq<nat>) {
    Distinct(order) && Cycle(l, Ring(order))
  }

  /** x has both link fields. */
  predicate Linked(l: Links, x: Ref) {
    x in l.next && x in l.prev
  }

  /** Distinct addresses make the ring's positions distinct. */
  lemma RingDistinct(order: seq<nat>)
    requires Distinct(order)
    ensures DistinctRefs(Ring(order))
  {
    var r := Ring(order);
    forall a, b | 0 <= a < b < |r|
      ensures r[a] != r[b]
    {
      if a > 0 {
        assert order[a - 1] != order[b - 1];
      }
    }
  }

  // ---------------------------------------------------------------------------
  // The rewiring steps, in the order the source performs the stores
  // ---------------------------------------------------------------------------

  /** fz_freelist_init: the sentinel and the one node point at each other both ways. */
  function Init(addr: nat): (l: Links)
    ensures IsRing(l, [addr])
  {
    var l := Links(map[Sentinel := At(addr), At(addr) := Sentinel], map[Sentinel := At(addr), At(addr) := Sentinel]);
    assert LinkedAt(l, Ring([addr]), 0) && LinkedAt(l, Ring([addr]), 1);
    l
  }

  /** Unlinking x: `x->next->prev = x->prev; x->prev->next = x->next`. */
  function Unlink(l: Links, x: Ref): Links
    requires Linked(l, x)
  {
    var l1 := l.(prev := l.prev[l.next[x] := l.prev[x]]);
    l1.(next := l1.next[l1.prev[x] := l1.next[x]])
  }

  /** y takes x's place: y copies x's links, then x's neighbours are pointed at y. */
  function Replace(l: Links, x: Ref, y: Ref): Links
    requires Linked(l, x)
  {
    var l1 := Links(l.next[y := l.next[x]], l.prev[y := l.prev[x]]);
    var l2 := l1.(prev := l1.prev[l1.next[x] := y]);
    l2.(next := l2.next[l2.prev[x] := y])
  }

  /** Head insertion exactly as written: y's links are set and the sentinel's next link
      is redirected, but the old head's prev link (or, on an empty list, the sentinel's)
      is left pointing at the sentinel. */
  function PushFrontAsWritten(l: Links, y: Ref): Links
    requires Sentinel in l.next && l.next[Sentinel] in l.prev
  {
    var head := l.next[Sentinel];
    var l1 := l.(next := l.next[y := head]);
    var l2 := l1.(prev := l1.prev[y := l1.prev[head]]);
    l2.(next := l2.next[Sentinel := y])
  }

  /** Head insertion as intended: the old head's prev link is pointed at y as well. */
  function PushFront(l: Links, y: Ref): Links
    requires Sentinel in l.next
  {
    var head := l.next[Sentinel];
    Links(l.next[y := head][Sentinel := y], l.prev[y := Sentinel][head := y])
  }

  /** Unlink as two plain map updates: the second store reads x's prev link, which the
      first store cannot have changed unless x was its own successor, and then it wrote
      the same value. */
  lemma UnlinkStores(l: Links, x: Ref)
    requires Linked(l, x)
    ensures Unlink(l, x).prev == l.prev[l.next[x] := l.prev[x]]
    ensures Unlink(l, x).next == l.next[l.prev[x] := l.next[x]]
  {
  }

  /** Replace as four plain map updates, when x is not its own successor. */
  lemma ReplaceStores(l: Links, x: Ref, y: Ref)
    requires Linked(l, x) && x != y && l.next[x] != x
    ensures Replace(l, x, y).next == l.next[y := l.next[x]][l.prev[x] := y]
    ensures Replace(l, x, y).prev == l.prev[y := l.prev[x]][l.next[x] := y]
  {
  }

  /** r with position m taken out. */
  function Without(r: seq<Ref>, m: nat): (w: seq<Ref>)
    requires m < |r|
    ensures |w| == |r| - 1
  {
    r[..m] + r[m + 1..]
  }

  lemma WithoutAt(r: seq<Ref>, m: nat, j: nat)
    requires m < |r| && j < |r| - 1
    ensures Without(r, m)[j] == r[if j < m then j else j + 1]
  {
  }

  /** r with y put in right after the sentinel. */
  function Pushed(r: seq<Ref>, y: Ref): (w: seq<Ref>)
    requires |r| > 0
    ensures |w| == |r| + 1
  {
    [r[0], y] + r[1..]
  }

  lemma PushedAt(r: seq<Ref>, y: Ref, j: nat)
    requires 0 < |r| && j < |r| + 1
    ensures Pushed(r, y)[j] == if j == 0 then r[0] else if j == 1 then y else r[j - 1]
  {
  }

  // ---------------------------------------------------------------------------
  // The rewiring steps on an arbitrary cycle of distinct references
  // ---------------------------------------------------------------------------

  lemma CycleUnlinkNext(l: Links, r: seq<Ref>, m: nat, j: nat)
    requires Cycle(l, r) && DistinctRefs(r) && 0 < m < |r| && j < |r| - 1
    requires Linked(l, r[m])
    ensures var u, w := Unlink(l, r[m]), Without(r, m);
            w[j] in u.next && u.next[w[j]] == Succ(w, j)
  {
    var w := Without(r, m);
    assert LinkedAt(l, r, m);
    UnlinkStores(l, r[m]);
    var j0 := if j < m then j else j + 1;
    WithoutAt(r, m, j);
    assert LinkedAt(l, r, j0);
    if j + 1 < |w| {
      WithoutAt(r, m, j + 1);
    } else {
      WithoutAt(r, m, 0);
    }
    if j0 != m - 1 {
      assert r[j0] != r[m - 1];
    }
  }

  lemma CycleUnlinkPrev(l: Links, r: seq<Ref>, m: nat, j: nat)
    requires Cycle(l, r) && DistinctRefs(r) && 0 < m < |r| && j < |r| - 1
    requires Linked(l, r[m])
    ensures var u, w := Unlink(l, r[m]), Without(r, m);
            w[j] in u.prev && u.prev[w[j]] == Pred(w, j)
  {
    var w := Without(r, m);
    assert LinkedAt(l, r, m);
    UnlinkStores(l, r[m]);
    var k := if m + 1 < |r| then m + 1 else 0;
    var j0 := if j < m then j else j + 1;
    WithoutAt(r, m, j);
    assert LinkedAt(l, r, j0);
    if j > 0 {
      WithoutAt(r, m, j - 1);
    } else {
      WithoutAt(r, m, |w| - 1);
    }
    if j0 != k {
      assert r[j0] != r[k];
    }
  }

  lemma CycleUnlink(l: Links, r: seq<Ref>, m: nat)
    requires Cycle(l, r) && DistinctRefs(r) && 0 < m < |r|
    requires Linked(l, r[m])
    ensures Cycle(Unlink(l, r[m]), Without(r, m))
  {
    forall j | 0 <= j < |r| - 1
      ensures LinkedAt(Unlink(l, r[m]), Without(r, m), j)
    {
      CycleUnlinkNext(l, r, m, j);
      CycleUnlinkPrev(l, r, m, j);
    }
  }

  lemma CycleReplaceNext(l: Links, r: seq<Ref>, m: nat, y: Ref, j: nat)
    requires Cycle(l, r) && DistinctRefs(r) && 0 < m < |r| && j < |r|
    requires Linked(l, r[m]) && y !in r
    ensures var u, w := Replace(l, r[m], y), r[m := y];
            w[j] in u.next && u.next[w[j]] == Succ(w, j)
  {
    var w := r[m := y];
    assert LinkedAt(l, r, m) && LinkedAt(l, r, j);
    var k := if m + 1 < |r| then m + 1 else 0;
    assert r[k] != r[m];
    ReplaceStores(l, r[m], y);
    if j != m && j != m - 1 {
      assert r[j] != r[m - 1];
    }
  }

  lemma CycleReplacePrev(l: Links, r: seq<Ref>, m: nat, y: Ref, j: nat)
    requires Cycle(l, r) && DistinctRefs(r) && 0 < m < |r| && j < |r|
    requires Linked(l, r[m]) && y !in r
    ensures var u, w := Replace(l, r[m], y), r[m := y];
            w[j] in u.prev && u.prev[w[j]] == Pred(w, j)
  {
    var w := r[m := y];
    assert LinkedAt(l, r, m) && LinkedAt(l, r, j);
    var k := if m + 1 < |r| then m + 1 else 0;
    assert r[k] != r[m];
    ReplaceStores(l, r[m], y);
    if j != m && j != k {
      assert r[j] != r[k];
    }
  }

  lemma CycleReplace(l: Links, r: seq<Ref>, m: nat, y: Ref)
    requires Cycle(l, r) && DistinctRefs(r) && 0 < m < |r|
    requires Linked(l, r[m]) && y !in r
    ensures Cycle(Replace(l, r[m], y), r[m := y])
  {
    var u, w := Replace(l, r[m], y), r[m := y];
    forall j | 0 <= j < |w|
      ensures LinkedAt(u, w, j)
    {
      CycleReplaceNext(l, r, m, y, j);
      CycleReplacePrev(l, r, m, y, j);
    }
  }

  lemma CyclePushNext(l: Links, r: seq<Ref>, y: Ref, j: nat)
    requires Cycle(l, r) && DistinctRefs(r) && 0 < |r| && r[0] == Sentinel
    requires Linked(l, Sentinel) && y !in r && j < |r| + 1
    ensures var u, w := PushFront(l, y), Pushed(r, y);
            w[j] in u.next && u.next[w[j]] == Succ(w, j)
  {
    assert LinkedAt(l, r, 0);
    PushedAt(r, y, j);
    if j + 1 < |r| + 1 {
      PushedAt(r, y, j + 1);
    } else {
      PushedAt(r, y, 0);
    }
    if j >= 2 {
      assert LinkedAt(l, r, j - 1);
      assert r[j - 1] != r[0];
    }
  }

  lemma CyclePushPrev(l: Links, r: seq<Ref>, y: Ref, j: nat)
    requires Cycle(l, r) && DistinctRefs(r) && 0 < |r| && r[0] == Sentinel
    requires Linked(l, Sentinel) && y !in r && j < |r| + 1
    ensures var u, w := PushFront(l, y), Pushed(r, y);
            w[j] in u.prev && u.prev[w[j]] == Pred(w, j)
  {
    assert LinkedAt(l, r, 0);
    var h := if 1 < |r| then 1 else 0;
    PushedAt(r, y, j);
    if j > 0 {
      PushedAt(r, y, j - 1);
    } else {
      PushedAt(r, y, |r|);
    }
    if j >= 2 {
      assert LinkedAt(l, r, j - 1);
      if j > 2 {
        assert r[j - 1] != r[h];
      }
    } else if j == 0 && h == 1 {
      assert r[0] != r[1];
    }
  }

  lemma CyclePush(l: Links, r: seq<Ref>, y: Ref)
    requires Cycle(l, r) && DistinctRefs(r) && 0 < |r| && r[0] == Sentinel
    requires Linked(l, Sentinel) && y !in r
    ensures Cycle(PushFront(l, y), Pushed(r, y))
  {
    forall j | 0 <= j < |r| + 1
      ensures LinkedAt(PushFront(l, y), Pushed(r, y), j)
    {
      CyclePushNext(l, r, y, j);
      CyclePushPrev(l, r, y, j);
    }
  }

  // ---------------------------------------------------------------------------
  // Each step keeps the ring, with the expected order
  // ---------------------------------------------------------------------------

  lemma RingWithout(order: seq<nat>, i: nat)
    requires i < |order|
    ensures Ring(order[..i] + order[i + 1..]) == Without(Ring(order), i + 1)
  {
    var o' := order[..i] + order[i + 1..];
    forall j | 0 <= j < |o'| + 1
      ensures Ring(o')[j] == Without(Ring(order), i + 1)[j]
    {
      WithoutAt(Ring(order), i + 1, j);
      if j > 0 {
        assert o'[j - 1] == order[if j - 1 < i then j - 1 else j];
      }
    }
  }

  lemma RingUpdate(order: seq<nat>, i: nat, y: nat)
    requires i < |order|
    ensures Ring(order[i := y]) == Ring(order)[i + 1 := At(y)]
  {
    var r, r' := Ring(order), Ring(order[i := y]);
    var u := r[i + 1 := At(y)];
    forall j | 0 <= j < |r'|
      ensures r'[j] == u[j]
    {
      if j > 0 {
        assert order[i := y][j - 1] == if j == i + 1 then y else order[j - 1];
      }
    }
  }

  lemma RingPushed(order: seq<nat>, y: nat)
    ensures Ring([y] + order) == Pushed(Ring(order), At(y))
  {
    var r, r' := Ring(order), Ring([y] + order);
    forall j | 0 <= j < |r'|
      ensures r'[j] == Pushed(r, At(y))[j]
    {
      PushedAt(r, At(y), j);
      if j > 1 {
        assert ([y] + order)[j - 1] == order[j - 2];
      }
    }
  }

  /** An address outside the order is not on the ring. */
  lemma NotOnRing(order: seq<nat>, y: nat)
    requires y !in order
    ensures At(y) !in Ring(order)
  {
    var r := Ring(order);
    forall j | 0 <= j < |r|
      ensures r[j] != At(y)
    {
      if j > 0 {
        assert order[j - 1] in order;
      }
    }
  }

  lemma RemoveDistinct(order: seq<nat>, i: nat)
    requires Distinct(order) && i < |order|
    ensures Distinct(order[..i] + order[i + 1..])
  {
    var o' := order[..i] + order[i + 1..];
    forall a, b | 0 <= a < b < |o'|
      ensures o'[a] != o'[b]
    {
      var a0, b0 := if a < i then a else a + 1, if b < i then b else b + 1;
      assert o'[a] == order[a0] && o'[b] == order[b0];
    }
  }

  lemma UpdateDistinct(order: seq<nat>, i: nat, y: nat)
    requires Distinct(order) && i < |order| && y !in order
    ensures Distinct(order[i := y])
  {
    var o' := order[i := y];
    forall a, b | 0 <= a < b < |o'|
      ensures o'[a] != o'[b]
    {
      assert order[a] in order && order[b] in order;
    }
  }

  lemma PushDistinct(order: seq<nat>, y: nat)
    requires Distinct(order) && y !in order
    ensures Distinct([y] + order)
  {
    var o' := [y] + order;
    forall a, b | 0 <= a < b < |o'|
      ensures o'[a] != o'[b]
    {
      assert o'[b] == order[b - 1] && order[b - 1] in order;
      if a > 0 {
        assert o'[a] == order[a - 1];
      }
    }
  }

  /** Unlinking node i (a whole-block allocation) removes exactly it from the ring and
      keeps every other node in order. */
  lemma UnlinkRing(l: Links, order: seq<nat>, i: nat)
    requires IsRing(l, order) && i < |order| && Linked(l, At(order[i]))
    ensures IsRing(Unlink(l, At(order[i])), order[..i] + order[i + 1..])
  {
    RemoveDistinct(order, i);
    RingDistinct(order);
    RingWithout(order, i);
    CycleUnlink(l, Ring(order), i + 1);
  }

  /** Putting a fresh node y in node i's place (the remainder of a split, or a coalesced
      block) changes only position i of the order. */
  lemma ReplaceRing(l: Links, order: seq<nat>, i: nat, y: nat)
    requires IsRing(l, order) && i < |order| && Linked(l, At(order[i])) && y !in order
    ensures IsRing(Replace(l, At(order[i]), At(y)), order[i := y])
  {
    UpdateDistinct(order, i, y);
    RingDistinct(order);
    RingUpdate(order, i, y);
    NotOnRing(order, y);
    CycleReplace(l, Ring(order), i + 1, At(y));
  }

  /** The intended head insertion puts y at the front of the order. */
  lemma PushFrontRing(l: Links, order: seq<nat>, y: nat)
    requires IsRing(l, order) && Linked(l, Sentinel) && y !in order
    ensures IsRing(PushFront(l, At(y)), [y] + order)
  {
    PushDistinct(order, y);
    RingDistinct(order);
    RingPushed(order, y);
    NotOnRing(order, y);
    CyclePush(l, Ring(order), At(y));
  }

  /** The as-written head insertion never yields the ring with y in front: the old
      head (or, on an empty list, the sentinel) still names the sentinel as its prev. */
  lemma PushFrontAsWrittenBreaksRing(l: Links, order: seq<nat>, y: nat)
    requires IsRing(l, order) && Linked(l, Sentinel) && Linked(l, l.next[Sentinel]) && y !in order
    ensures !IsRing(PushFrontAsWritten(l, At(y)), [y] + order)
  {
    var r, w := Ring(order), Ring([y] + order);
    var u := PushFrontAsWritten(l, At(y));
    assert LinkedAt(l, r, 0);
    if order == [] {
      assert !LinkedAt(u, w, 0);
    } else {
      assert LinkedAt(l, r, 1);
      assert !LinkedAt(u, w, 2);
    }
  }

  /** A concrete instance: a block at a is freed onto a list holding only x, then x is
      allocated whole. As written, the sentinel's next link ends up pointing at the
      sentinel, so block a is lost; with the intended insertion a remains the only node. */
  lemma LostNodeExample(x: nat, a: nat)
    requires x != a
    ensures Unlink(PushFrontAsWritten(Init(x), At(a)), At(x)).next[Sentinel] == Sentinel
    ensures IsRing(Unlink(PushFront(Init(x), At(a)), At(x)), [a])
  {
    var l := PushFront(Init(x), At(a));
    PushFrontRing(Init(x), [x], a);
    assert LinkedAt(l, Ring([a, x]), 2);
    UnlinkRing(l, [a, x], 1);
    assert [a, x][..1] + [a, x][2..] == [a];
  }

  // ---------------------------------------------------------------------------
  // The links agree with the node order of module Freelist
  // ---------------------------------------------------------------------------

  /** The size-word addresses of the free nodes, in list order. */
  function Addrs(nodes: seq<Freelist.Node>): (r: seq<nat>)
    ensures |r| == |nodes|
    ensures forall i :: 0 <= i < |nodes| ==> r[i] == nodes[i].addr
  {
    seq(|nodes|, i requires 0 <= i < |nodes| => nodes[i].addr)
  }

  /** The link stores of the allocation path: the rest of a split node takes the node's
      place, and a node handed out whole is unlinked. */
  function CarveLinks(l: Links, fl: Freelist.Freelist, k: nat, req: nat): Links
    requires IsRing(l, Addrs(fl.free)) && k < |fl.free|
  {
    assert LinkedAt(l, Ring(Addrs(fl.free)), k + 1);
    var x := At(fl.free[k].addr);
    if Freelist.Splits(fl.free[k].size, req) then Replace(l, x, At(fl.free[k].addr + SizeHeaderSize + req))
    else Unlink(l, x)
  }

  /** The link stores of the free path: the merged node takes the place of the node it
      absorbs, or else the freed block is pushed on the head. */
  function FreeLinks(l: Links, fl: Freelist.Freelist, ptr: nat): Links
    requires IsRing(l, Addrs(fl.free)) && ptr in fl.live && ptr >= SizeHeaderSize
  {
    assert LinkedAt(l, Ring(Addrs(fl.free)), 0);
    match Freelist.NodeAt(fl.free, ptr + fl.live[ptr])
    case Some(k) =>
      assert LinkedAt(l, Ring(Addrs(fl.free)), k + 1);
      Replace(l, At(fl.free[k].addr), At(ptr - SizeHeaderSize))
    case None => PushFront(l, At(ptr - SizeHeaderSize))
  }

  lemma AddrsUpdate(nodes: seq<Freelist.Node>, k: nat, n: Freelist.Node)
    requires k < |nodes|
    ensures Addrs(nodes[k := n]) == Addrs(nodes)[k := n.addr]
  {
  }

  lemma AddrsRemove(nodes: seq<Freelist.Node>, k: nat)
    requires k < |nodes|
    ensures Addrs(nodes[..k] + nodes[k + 1..]) == Addrs(nodes)[..k] + Addrs(nodes)[k + 1..]
  {
    var a, b := Addrs(nodes[..k] + nodes[k + 1..]), Addrs(nodes)[..k] + Addrs(nodes)[k + 1..];
    forall j | 0 <= j < |a|
      ensures a[j] == b[j]
    {
      var j0 := if j < k then j else j + 1;
      assert (nodes[..k] + nodes[k + 1..])[j] == nodes[j0];
    }
  }

  lemma AddrsPush(nodes: seq<Freelist.Node>, n: Freelist.Node)
    ensures Addrs([n] + nodes) == [n.addr] + Addrs(nodes)
  {
    var a, b := Addrs([n] + nodes), [n.addr] + Addrs(nodes);
    forall j | 0 <= j < |a|
      ensures a[j] == b[j]
    {
      if j > 0 {
        assert ([n] + nodes)[j] == nodes[j - 1];
      }
    }
  }

  lemma FreeLinksCoalesce(l: Links, fl: Freelist.Freelist, ptr: nat, k: nat)
    requires IsRing(l, Addrs(fl.free)) && ptr in fl.live && ptr >= SizeHeaderSize
    requires Freelist.NodeAt(fl.free, ptr + fl.live[ptr]) == Some(k)
    ensures Linked(l, At(fl.free[k].addr))
    ensures FreeLinks(l, fl, ptr) == Replace(l, At(fl.free[k].addr), At(ptr - SizeHeaderSize))
  {
    assert LinkedAt(l, Ring(Addrs(fl.free)), k + 1);
  }

  lemma FreeLinksPrepend(l: Links, fl: Freelist.Freelist, ptr: nat)
    requires IsRing(l, Addrs(fl.free)) && ptr in fl.live && ptr >= SizeHeaderSize
    requires Freelist.NodeAt(fl.free, ptr + fl.live[ptr]).None?
    ensures Linked(l, Sentinel)
    ensures FreeLinks(l, fl, ptr) == PushFront(l, At(ptr - SizeHeaderSize))
  {
    assert LinkedAt(l, Ring(Addrs(fl.free)), 0);
  }

  lemma AddrsCoalesce(fl: Freelist.Freelist, ptr: nat, k: nat)
    requires ptr in fl.live && ptr >= SizeHeaderSize && k < |fl.free|
    ensures Addrs(Freelist.Coalesce(fl, ptr, k).free) == Addrs(fl.free)[k := ptr - SizeHeaderSize]
  {
    AddrsUpdate(fl.free, k, Freelist.Node(ptr - SizeHeaderSize, fl.live[ptr] + SizeHeaderSize + fl.free[k].size));
  }

  lemma AddrsPrepend(fl: Freelist.Freelist, ptr: nat)
    requires ptr in fl.live && ptr >= SizeHeaderSize
    ensures Addrs(Freelist.Prepend(fl, ptr).free) == [ptr - SizeHeaderSize] + Addrs(fl.free)
  {
    AddrsPush(fl.free, Freelist.Node(ptr - SizeHeaderSize, fl.live[ptr]));
  }

  /** The rest of a split node starts strictly inside it, so at no other node. */
  lemma SplitRestIsFresh(fl: Freelist.Freelist, k: nat, req: nat)
    requires Freelist.Sized(fl) && Freelist.NodesApart(fl.free)
    requires k < |fl.free| && Freelist.Splits(fl.free[k].size, req)
    ensures fl.free[k].addr + SizeHeaderSize + req !in Addrs(fl.free)
  {
    var y := fl.free[k].addr + SizeHeaderSize + req;
    var a := Addrs(fl.free);
    forall j | 0 <= j < |fl.free|
      ensures a[j] != y
    {
      if j < k {
        assert Freelist.NodePairApart(fl.free, j, k);
      } else if j > k {
        assert Freelist.NodePairApart(fl.free, k, j);
      }
      assert Freelist.NodeSized(fl, j);
    }
  }

  /** A freed block's size word lies inside the block, so at no free node. */
  lemma FreedHeaderIsFresh(fl: Freelist.Freelist, ptr: nat)
    requires Freelist.Sized(fl) && Freelist.NodesClear(fl.free, fl.live) && ptr in fl.live
    ensures ptr >= SizeHeaderSize && ptr - SizeHeaderSize !in Addrs(fl.free)
  {
    assert Freelist.BlockSized(fl, ptr);
    var a := Addrs(fl.free);
    forall j | 0 <= j < |fl.free|
      ensures a[j] != ptr - SizeHeaderSize
    {
      assert Freelist.NodeClear(fl.free, fl.live, j, ptr);
      assert Freelist.NodeSized(fl, j);
    }
  }

  /** Allocation rewires the links exactly as module Freelist reorders the nodes: the
      ring afterwards is the new free list, in its order. */
  lemma CarveKeepsRing(l: Links, fl: Freelist.Freelist, k: nat, req: nat)
    requires Freelist.Valid(fl) && IsRing(l, Addrs(fl.free))
    requires k < |fl.free| && fl.free[k].size >= req
    ensures IsRing(CarveLinks(l, fl, k, req), Addrs(Freelist.Carve(fl, k, req).state.free))
  {
    if Freelist.Splits(fl.free[k].size, req) {
      SplitRestIsFresh(fl, k, req);
      SplitKeepsRing(l, fl, k, req);
    } else {
      WholeKeepsRing(l, fl, k, req);
    }
  }

  lemma SplitKeepsRing(l: Links, fl: Freelist.Freelist, k: nat, req: nat)
    requires IsRing(l, Addrs(fl.free)) && k < |fl.free| && Freelist.Splits(fl.free[k].size, req)
    requires fl.free[k].addr + SizeHeaderSize + req !in Addrs(fl.free)
    ensures IsRing(CarveLinks(l, fl, k, req), Addrs(Freelist.Carve(fl, k, req).state.free))
  {
    var order, n := Addrs(fl.free), fl.free[k];
    var y := n.addr + SizeHeaderSize + req;
    assert LinkedAt(l, Ring(order), k + 1);
    var u := Replace(l, At(order[k]), At(y));
    assert CarveLinks(l, fl, k, req) == u;
    AddrsUpdate(fl.free, k, Freelist.Node(y, n.size - req - SizeHeaderSize));
    assert Addrs(Freelist.Carve(fl, k, req).state.free) == order[k := y];
    ReplaceRing(l, order, k, y);
  }

  lemma WholeKeepsRing(l: Links, fl: Freelist.Freelist, k: nat, req: nat)
    requires IsRing(l, Addrs(fl.free)) && k < |fl.free| && fl.free[k].size >= req
    requires !Freelist.Splits(fl.free[k].size, req)
    ensures IsRing(CarveLinks(l, fl, k, req), Addrs(Freelist.Carve(fl, k, req).state.free))
  {
    var order := Addrs(fl.free);
    assert LinkedAt(l, Ring(order), k + 1);
    var u := Unlink(l, At(order[k]));
    assert CarveLinks(l, fl, k, req) == u;
    AddrsRemove(fl.free, k);
    assert Addrs(Freelist.Carve(fl, k, req).state.free) == order[..k] + order[k + 1..];
    UnlinkRing(l, order, k);
  }

  /** Free rewires the links exactly as module Freelist reorders the nodes. */
  lemma FreeKeepsRing(l: Links, fl: Freelist.Freelist, ptr: nat)
    requires Freelist.Valid(fl) && IsRing(l, Addrs(fl.free)) && ptr in fl.live
    ensures IsRing(FreeLinks(l, fl, ptr), Addrs(Freelist.Free(fl, ptr).free))
  {
    FreedHeaderIsFresh(fl, ptr);
    var at := Freelist.NodeAt(fl.free, ptr + fl.live[ptr]);
    if at.Some? {
      Freelist.FreeCoalesces(fl, ptr, at.value);
      FreeLinksCoalesce(l, fl, ptr, at.value);
      CoalesceKeepsRing(l, fl, ptr, at.value);
    } else {
      Freelist.FreePrepends(fl, ptr);
      FreeLinksPrepend(l, fl, ptr);
      PrependKeepsRing(l, fl, ptr);
    }
  }

  lemma CoalesceKeepsRing(l: Links, fl: Freelist.Freelist, ptr: nat, k: nat)
    requires IsRing(l, Addrs(fl.free)) && ptr in fl.live && ptr >= SizeHeaderSize
    requires k < |fl.free| && Linked(l, At(fl.free[k].addr))
    requires ptr - SizeHeaderSize !in Addrs(fl.free)
    ensures IsRing(Replace(l, At(fl.free[k].addr), At(ptr - SizeHeaderSize)), Addrs(Freelist.Coalesce(fl, ptr, k).free))
  {
    AddrsCoalesce(fl, ptr, k);
    ReplaceRing(l, Addrs(fl.free), k, ptr - SizeHeaderSize);
  }

  lemma PrependKeepsRing(l: Links, fl: Freelist.Freelist, ptr: nat)
    requires IsRing(l, Addrs(fl.free)) && Linked(l, Sentinel) && ptr in fl.live && ptr >= SizeHeaderSize
    requires ptr - SizeHeaderSize !in Addrs(fl.free)
    ensures IsRing(PushFront(l, At(ptr - SizeHeaderSize)), Addrs(Freelist.Prepend(fl, ptr).free))
  {
    AddrsPrepend(fl, ptr);
    PushFrontRing(l, Addrs(fl.free), ptr - SizeHeaderSize);
  }
}
