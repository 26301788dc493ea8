/**
 * The buddy allocator of os/mem/mem2.cpp (class Segment): a binary tree of
 * memory nodes, each covering `level` units from linear position `pos`.  A
 * request is rounded up to a power of two (nextpow2) and placed in the first
 * free node of exactly that size found depth-first, splitting free nodes into two
 * halves on the way down.  The tree of unique_ptr-linked nodes is a datatype
 * value that the Segment methods replace.
 */
module BuddyAlloc {
  import opened Wrappers

  function Pow2(k: nat): (r: nat)
    ensures r > 0
  {
    if k == 0 then 1 else 2 * Pow2(k - 1)
  }

  /** Values of `std::size_t`. */
  type SizeT = x: nat | x < Pow2(64)

  lemma {:induction false} Pow2Mono(a: nat, b: nat)
    requires a <= b
    ensures Pow2(a) <= Pow2(b)
  {
    if a < b {
      Pow2Mono(a, b - 1);
    }
  }

  predicate IsPow2(x: nat)
  {
    exists k: nat :: k <= x && Pow2(k) == x
  }

  /** The position of the highest set bit of n. */
  function Log2(n: nat): (r: nat)
    requires n > 0
    ensures Pow2(r) <= n < Pow2(r + 1)
  {
    if n == 1 then 0 else 1 + Log2(n / 2)
  }

  lemma Log2Unique(n: nat, h: nat)
    requires n > 0 && Pow2(h) <= n < Pow2(h + 1)
    ensures h == Log2(n)
  {
    var l := Log2(n);
    if h < l {
      Pow2Mono(h + 1, l);
    } else if l < h {
      Pow2Mono(l + 1, h);
    }
  }

  lemma Pow2Below(k: nat)
    ensures k <= Pow2(k)
  {
    if k > 0 {
      Pow2Below(k - 1);
    }
  }

  /** Bit b of n, the source's `num & (1 << bit)`. */
  predicate BitSet(n: nat, b: nat)
  {
    (n / Pow2(b)) % 2 == 1
  }

  /** Below 2^(b+1), bit b is set exactly when n reaches 2^b. */
  lemma TopBit(n: nat, b: nat)
    requires n < Pow2(b + 1)
    ensures BitSet(n, b) <==> n >= Pow2(b)
  {
    var d := Pow2(b);
    if n < d {
      assert n / d == 0;
    } else {
      assert n == d * 1 + (n - d);
      assert n / d == 1;
    }
  }

  /** What nextpow2 returns for num > 0 with its shifts done in size_t: num itself when it is
    * a power of two, otherwise the next power of two, shifted out of size_t (to 0) when that
    * is 2^64. */
  function CeilPow2(num: SizeT): SizeT
    requires num > 0
  {
    var cur := Pow2(Log2(num));
    if cur == num then num
    else if 2 * cur < Pow2(64) then 2 * cur
    else 0
  }

  /** Up to 2^63, nextpow2 is the least power of two not below its argument. */
  lemma CeilPow2Least(num: SizeT)
    requires 0 < num <= Pow2(63)
    ensures IsPow2(CeilPow2(num)) && num <= CeilPow2(num) < 2 * num
  {
    var h := Log2(num);
    Pow2Below(h);
    if Pow2(h) != num {
      if h >= 63 {
        Pow2Mono(63, h);
      }
      Pow2Mono(h + 1, 63);
      Pow2Below(h + 1);
      assert CeilPow2(num) == Pow2(h + 1);
    }
  }

  /** Above 2^63 the doubled power falls out of size_t and nextpow2, shifting in size_t,
    * yields 0. */
  lemma CeilPow2Wraps(num: SizeT)
    requires num > Pow2(63)
    ensures CeilPow2(num) == 0
  {
    var h := Log2(num);
    if h < 63 {
      Pow2Mono(h + 1, 63);
    } else if h > 63 {
      Pow2Mono(64, h);
    }
    assert h == 63;
  }

  /** nextpow2: scan the bits from 63 down for the highest set one, testing and shifting in
    * size_t.  For num == 0 the source shifts by -1, which is undefined; the callers here pass
    * num > 0. */
  method NextPow2(num: SizeT) returns (r: SizeT)
    requires num > 0
    ensures r == CeilPow2(num)
  {
    var highest := -1;
    var bit := 63;
    while bit >= 0
      invariant -1 <= bit <= 63
      invariant highest == -1 && num < Pow2(bit + 1)
    {
      TopBit(num, bit);
      if BitSet(num, bit) {
        highest := bit;
        break;
      }
      bit := bit - 1;
    }
    if highest < 0 {
      assert false;
    }
    Log2Unique(num, highest);
    var cur := Pow2(highest);
    if cur == num {
      return cur;
    }
    r := if 2 * cur < Pow2(64) then 2 * cur else 0;
  }

  /** A memory node (MemNode) with its two optional children. */
  datatype Node = Node(level: nat, used: nat, pos: nat, left: Option<Node>, right: Option<Node>)

  /** A fresh child `c` (0 or 1) of a node: half the size, at its half. */
  function Fresh(n: Node, c: nat): Node
  {
    Node(n.level / 2, 0, n.pos + c * (n.level / 2), None, None)
  }

  /** The tree shape the allocator keeps: children are the two halves of their parent, and a
    * node in use is never split. */
  ghost predicate WellShaped(n: Node)
    decreases n
  {
    (n.used != 0 ==> n.left.None? && n.right.None?) &&
    (n.left.Some? ==> n.left.value.level == n.level / 2 && n.left.value.pos == n.pos && WellShaped(n.left.value)) &&
    (n.right.Some? ==>
      n.right.value.level == n.level / 2 && n.right.value.pos == n.pos + n.level / 2 && WellShaped(n.right.value))
  }

  /** No node holds more than its size. */
  ghost predicate Fitted(n: Node)
    decreases n
  {
    n.used <= n.level &&
    (n.left.Some? ==> Fitted(n.left.value)) && (n.right.Some? ==> Fitted(n.right.value))
  }

  /** get_allocated, first component: the summed size of the nodes in use. */
  function Blocks(n: Node): nat
    decreases n
  {
    if n.used != 0 then n.level
    else (if n.left.Some? then Blocks(n.left.value) else 0) + (if n.right.Some? then Blocks(n.right.value) else 0)
  }

  /** get_allocated, second component: the summed sizes requested for them. */
  function Requested(n: Node): nat
    decreases n
  {
    if n.used != 0 then n.used
    else (if n.left.Some? then Requested(n.left.value) else 0) + (if n.right.Some? then Requested(n.right.value) else 0)
  }

  /** The blocks in use fit inside the node, and what was requested fits inside the blocks. */
  lemma {:induction false} AllocatedBound(n: Node)
    requires WellShaped(n)
    ensures Blocks(n) <= n.level
    ensures Fitted(n) ==> Requested(n) <= Blocks(n)
    decreases n
  {
    if n.used == 0 {
      if n.left.Some? {
        AllocatedBound(n.left.value);
      }
      if n.right.Some? {
        AllocatedBound(n.right.value);
      }
    }
  }

  /** alloc_node: the new tree and (found, lin_pos).  A failed descent still leaves the child
    * nodes it created behind, as the source does. */
  function AllocNode(n: Node, allocsize: nat, actual: nat): (r: (Node, (bool, nat)))
    requires WellShaped(n)
    ensures r.0.level == n.level && r.0.pos == n.pos
    decreases n.level
  {
    if n.level < allocsize then (n, (false, 0))
    else if n.level == allocsize && n.used == 0 && n.left.None? && n.right.None? then
      (n.(used := actual), (true, n.pos))
    else if n.level > allocsize && n.used == 0 then
      var l := if n.left.Some? then n.left.value else Fresh(n, 0);
      var (l', rl) := AllocNode(l, allocsize, actual);
      var n1 := n.(left := Some(l'));
      if rl.0 then (n1, rl)
      else
        var rr := if n.right.Some? then n.right.value else Fresh(n, 1);
        var (r', rr') := AllocNode(rr, allocsize, actual);
        (n1.(right := Some(r')), rr')
    else (n, (false, 0))
  }

  /** Allocation keeps the tree well shaped. */
  lemma {:induction false} AllocNodeShape(n: Node, allocsize: nat, actual: nat)
    requires WellShaped(n)
    ensures WellShaped(AllocNode(n, allocsize, actual).0)
    decreases n.level
  {
    if n.level > allocsize && n.used == 0 {
      var l := if n.left.Some? then n.left.value else Fresh(n, 0);
      AllocNodeShape(l, allocsize, actual);
      if !AllocNode(l, allocsize, actual).1.0 {
        var rr := if n.right.Some? then n.right.value else Fresh(n, 1);
        AllocNodeShape(rr, allocsize, actual);
      }
    }
  }

  /** A successful allocation adds one block of `allocsize` units; a failed one adds none. */
  lemma {:induction false} AllocNodeBlocks(n: Node, allocsize: nat, actual: nat, t: Node, found: bool, at: nat)
    requires WellShaped(n) && actual > 0
    requires AllocNode(n, allocsize, actual) == (t, (found, at))
    ensures Blocks(t) == if found then Blocks(n) + allocsize else Blocks(n)
    decreases n.level
  {
    if n.level > allocsize && n.used == 0 {
      var l := if n.left.Some? then n.left.value else Fresh(n, 0);
      var rr := if n.right.Some? then n.right.value else Fresh(n, 1);
      assert Blocks(n) == Blocks(l) + Blocks(rr);
      var (l', rl) := AllocNode(l, allocsize, actual);
      AllocNodeBlocks(l, allocsize, actual, l', rl.0, rl.1);
      if !rl.0 {
        var (r', rr') := AllocNode(rr, allocsize, actual);
        AllocNodeBlocks(rr, allocsize, actual, r', rr'.0, rr'.1);
      }
    }
  }

  /** A successful allocation records `actual` requested units; a failed one records none. */
  lemma {:induction false} AllocNodeRequested(n: Node, allocsize: nat, actual: nat, t: Node, found: bool, at: nat)
    requires WellShaped(n) && actual > 0
    requires AllocNode(n, allocsize, actual) == (t, (found, at))
    ensures Requested(t) == if found then Requested(n) + actual else Requested(n)
    decreases n.level
  {
    if n.level > allocsize && n.used == 0 {
      var l := if n.left.Some? then n.left.value else Fresh(n, 0);
      var rr := if n.right.Some? then n.right.value else Fresh(n, 1);
      assert Requested(n) == Requested(l) + Requested(rr);
      var (l', rl) := AllocNode(l, allocsize, actual);
      AllocNodeRequested(l, allocsize, actual, l', rl.0, rl.1);
      if !rl.0 {
        var (r', rr') := AllocNode(rr, allocsize, actual);
        AllocNodeRequested(rr, allocsize, actual, r', rr'.0, rr'.1);
      }
    }
  }

  /** The block handed out lies inside the node the search started from. */
  lemma {:induction false} AllocNodePlaced(n: Node, allocsize: nat, actual: nat)
    requires WellShaped(n)
    ensures var r := AllocNode(n, allocsize, actual);
      if r.1.0 then n.pos <= r.1.1 && r.1.1 + allocsize <= n.pos + n.level else r.1.1 == 0
    decreases n.level
  {
    if n.level > allocsize && n.used == 0 {
      var l := if n.left.Some? then n.left.value else Fresh(n, 0);
      AllocNodePlaced(l, allocsize, actual);
      if !AllocNode(l, allocsize, actual).1.0 {
        var rr := if n.right.Some? then n.right.value else Fresh(n, 1);
        AllocNodePlaced(rr, allocsize, actual);
      }
    }
  }

  /** When the rounded size covers the request, no node is filled beyond its size. */
  lemma {:induction false} AllocNodeFits(n: Node, allocsize: nat, actual: nat)
    requires WellShaped(n) && Fitted(n) && actual <= allocsize
    ensures Fitted(AllocNode(n, allocsize, actual).0)
    decreases n.level
  {
    if n.level > allocsize && n.used == 0 {
      var l := if n.left.Some? then n.left.value else Fresh(n, 0);
      AllocNodeFits(l, allocsize, actual);
      if !AllocNode(l, allocsize, actual).1.0 {
        var rr := if n.right.Some? then n.right.value else Fresh(n, 1);
        AllocNodeFits(rr, allocsize, actual);
      }
    }
  }

  /** One child step of dealloc_node: None when the child pointer is null and gets dereferenced,
    * otherwise the child after the step (None once it is reset). */
  function DeallocChild(c: Option<Node>, linpos: nat): Option<Option<Node>>
    decreases c
  {
    if c.None? then None
    else if c.value.pos != linpos then Some(c)
    else if c.value.used == 0 then
      match DeallocNode(c.value, linpos)
        case None => None
        case Some(c') => Some(Some(c'))
    else Some(None)
  }

  /** dealloc_node as written: both children are dereferenced unconditionally. */
  function DeallocNode(n: Node, linpos: nat): Option<Node>
    decreases n
  {
    match DeallocChild(n.left, linpos)
      case None => None
      case Some(l) =>
        match DeallocChild(n.right, linpos)
          case None => None
          case Some(r) => Some(n.(left := l, right := r))
  }

  /** deallocate: the root is released directly, otherwise dealloc_node runs. */
  function Release(root: Node, linpos: nat): Option<Node>
  {
    if root.pos == linpos && root.used != 0 then Some(root.(used := 0)) else DeallocNode(root, linpos)
  }

  /** A release that does not crash keeps the tree well shaped, only dropping or emptying nodes. */
  lemma {:induction false} DeallocNodeKeeps(n: Node, linpos: nat)
    requires WellShaped(n)
    ensures DeallocNode(n, linpos).Some? ==> WellShaped(DeallocNode(n, linpos).value)
    ensures DeallocNode(n, linpos).Some? ==>
      DeallocNode(n, linpos).value.level == n.level && DeallocNode(n, linpos).value.pos == n.pos
    ensures DeallocNode(n, linpos).Some? ==> Blocks(DeallocNode(n, linpos).value) <= Blocks(n)
    decreases n
  {
    DeallocChildKeeps(n.left, linpos);
    DeallocChildKeeps(n.right, linpos);
  }

  lemma {:induction false} DeallocChildKeeps(c: Option<Node>, linpos: nat)
    requires c.Some? ==> WellShaped(c.value)
    ensures DeallocChild(c, linpos).Some? && DeallocChild(c, linpos).value.Some? ==>
      c.Some? && WellShaped(DeallocChild(c, linpos).value.value) &&
      DeallocChild(c, linpos).value.value.level == c.value.level &&
      DeallocChild(c, linpos).value.value.pos == c.value.pos &&
      Blocks(DeallocChild(c, linpos).value.value) <= Blocks(c.value)
    decreases c
  {
    if c.Some? && c.value.pos == linpos && c.value.used == 0 {
      DeallocNodeKeeps(c.value, linpos);
    }
  }

  /** deallocate as written keeps the tree well shaped whenever it does not crash. */
  lemma ReleaseKeeps(root: Node, linpos: nat)
    requires WellShaped(root)
    ensures Release(root, linpos).Some? ==> WellShaped(Release(root, linpos).value)
    ensures Release(root, linpos).Some? ==> Release(root, linpos).value.level == root.level
    ensures Release(root, linpos).Some? ==> Blocks(Release(root, linpos).value) <= Blocks(root)
  {
    DeallocNodeKeeps(root, linpos);
  }

  /** dealloc_node with the missing null check added: absent children are skipped. */
  function DeallocNodeFixed(n: Node, linpos: nat): (r: Node)
    decreases n
  {
    var l := if n.left.Some? && n.left.value.pos == linpos then
      (if n.left.value.used == 0 then Some(DeallocNodeFixed(n.left.value, linpos)) else None)
      else n.left;
    var r := if n.right.Some? && n.right.value.pos == linpos then
      (if n.right.value.used == 0 then Some(DeallocNodeFixed(n.right.value, linpos)) else None)
      else n.right;
    n.(left := l, right := r)
  }

  function DeallocateFixed(root: Node, linpos: nat): Node
  {
    if root.pos == linpos && root.used != 0 then root.(used := 0) else DeallocNodeFixed(root, linpos)
  }

  /** The corrected release keeps the tree's shape and never adds to what is allocated. */
  lemma {:induction false} DeallocFixedKeeps(n: Node, linpos: nat)
    requires WellShaped(n)
    ensures WellShaped(DeallocNodeFixed(n, linpos)) && DeallocNodeFixed(n, linpos).level == n.level
    ensures DeallocNodeFixed(n, linpos).pos == n.pos
    ensures Blocks(DeallocNodeFixed(n, linpos)) <= Blocks(n)
    ensures Fitted(n) ==> Fitted(DeallocNodeFixed(n, linpos))
    decreases n
  {
    if n.left.Some? && n.left.value.pos == linpos && n.left.value.used == 0 {
      DeallocFixedKeeps(n.left.value, linpos);
    }
    if n.right.Some? && n.right.value.pos == linpos && n.right.value.used == 0 {
      DeallocFixedKeeps(n.right.value, linpos);
    }
  }

  /** The source's own first step: 500 units in a 1024-unit segment take the left half. */
  lemma FirstAllocation()
    ensures AllocNode(Node(1024, 0, 0, None, None), 512, 500)
      == (Node(1024, 0, 0, Some(Node(512, 500, 0, None, None)), None), (true, 0))
  {
  }

  /** As written, releasing that first block dereferences the missing right child. */
  lemma FreeFirstBlockCrashes()
    ensures Release(Node(1024, 0, 0, Some(Node(512, 500, 0, None, None)), None), 0) == None
  {
  }

  /** With the null check, releasing it empties the segment again. */
  lemma FreeFirstBlockFixed()
    ensures DeallocateFixed(Node(1024, 0, 0, Some(Node(512, 500, 0, None, None)), None), 0)
      == Node(1024, 0, 0, None, None)
    ensures Blocks(Node(1024, 0, 0, None, None)) == 0 && Requested(Node(1024, 0, 0, None, None)) == 0
  {
  }

  /** Where the left descent succeeds, its result is the node's result. */
  lemma LeftFirst(n: Node, allocsize: nat, actual: nat)
    requires WellShaped(n) && n.level > allocsize && n.used == 0
    requires AllocNode(if n.left.Some? then n.left.value else Fresh(n, 0), allocsize, actual).1.0
    ensures var r := AllocNode(if n.left.Some? then n.left.value else Fresh(n, 0), allocsize, actual);
      AllocNode(n, allocsize, actual) == (n.(left := Some(r.0)), r.1)
  {
  }

  /** A fresh segment of any size accepts a 0-unit request at its first 0-unit leaf. */
  lemma {:induction false} ZeroSizeClaimed(level: nat, pos: nat, actual: nat)
    ensures AllocNode(Node(level, 0, pos, None, None), 0, actual).1 == (true, pos)
    decreases level
  {
    var n := Node(level, 0, pos, None, None);
    if level > 0 {
      assert Fresh(n, 0) == Node(level / 2, 0, pos, None, None);
      ZeroSizeClaimed(level / 2, pos, actual);
      LeftFirst(n, 0, actual);
    }
  }

  /** allocate with nextpow2 shifting in size_t: for a request above 2^63 the rounded size
    * overflows to 0, a 0-unit leaf of a fresh segment is claimed for it, and the segment then
    * holds more than it has. */
  lemma HugeRequestSucceeds(memsize: nat, size: SizeT)
    requires size > Pow2(63) && memsize <= Pow2(63)
    ensures CeilPow2(size) == 0
    ensures AllocNode(Node(memsize, 0, 0, None, None), CeilPow2(size), size).1 == (true, 0)
    ensures Requested(AllocNode(Node(memsize, 0, 0, None, None), CeilPow2(size), size).0) > memsize
    ensures !Fitted(AllocNode(Node(memsize, 0, 0, None, None), CeilPow2(size), size).0)
  {
    CeilPow2Wraps(size);
    var n := Node(memsize, 0, 0, None, None);
    ZeroSizeClaimed(memsize, 0, size);
    var r := AllocNode(n, 0, size);
    AllocNodeRequested(n, 0, size, r.0, r.1.0, r.1.1);
    AllocNodeShape(n, 0, size);
    AllocatedBound(r.0);
  }

  /** allocate with the rounding overflow rejected: the block is never smaller than the request. */
  function AllocateFixed(root: Node, size: SizeT): (r: (Node, (bool, nat)))
    requires WellShaped(root) && size > 0
  {
    var a := CeilPow2(size);
    if a < size then (root, (false, 0)) else AllocNode(root, a, size)
  }

  /** The corrected allocation keeps every block at least as large as its request, so the
    * free and fragmentation figures never go negative. */
  lemma AllocateFixedFits(root: Node, size: SizeT)
    requires WellShaped(root) && Fitted(root) && size > 0
    ensures Fitted(AllocateFixed(root, size).0)
    ensures var t := AllocateFixed(root, size).0;
      Requested(t) <= Blocks(t) <= root.level
  {
    var a := CeilPow2(size);
    if a >= size {
      AllocNodeShape(root, a, size);
      AllocNodeFits(root, a, size);
    }
    AllocatedBound(AllocateFixed(root, size).0);
  }

  lemma ModBelow(x: int, m: int)
    requires 0 <= x < m
    ensures x % m == x
  {
  }

  class Segment {
    var root: Node

    constructor(memsize: nat)
      ensures root == Node(memsize, 0, 0, None, None)
    {
      root := Node(memsize, 0, 0, None, None);
    }

    method Allocate(size: SizeT) returns (ok: bool, pos: nat)
      requires WellShaped(root) && size > 0
      modifies this
      ensures var r := AllocNode(old(root), CeilPow2(size), size); root == r.0 && ok == r.1.0 && pos == r.1.1
      ensures WellShaped(root)
      ensures ok ==> Blocks(root) == old(Blocks(root)) + CeilPow2(size) && Requested(root) == old(Requested(root)) + size
      ensures !ok ==> Blocks(root) == old(Blocks(root)) && Requested(root) == old(Requested(root)) && pos == 0
    {
      var allocsize := NextPow2(size);
      AllocNodeShape(root, allocsize, size);
      var r := AllocNode(root, allocsize, size);
      AllocNodeBlocks(root, allocsize, size, r.0, r.1.0, r.1.1);
      AllocNodeRequested(root, allocsize, size, r.0, r.1.0, r.1.1);
      AllocNodePlaced(root, allocsize, size);
      root := r.0;
      ok, pos := r.1.0, r.1.1;
    }

    /** Returns false where the source dereferences a null child; the tree is then left as it was. */
    method Deallocate(linpos: nat) returns (ok: bool)
      requires WellShaped(root)
      modifies this
      ensures ok == Release(old(root), linpos).Some?
      ensures ok ==> root == Release(old(root), linpos).value
      ensures !ok ==> root == old(root)
      ensures WellShaped(root)
    {
      ReleaseKeeps(root, linpos);
      var r := Release(root, linpos);
      if r.None? {
        return false;
      }
      root := r.value;
      return true;
    }

    /** get_free_and_frag: the unallocated units, and the fragmentation (block units minus requested
      * units) taken modulo 2^64 as the source's size_t subtraction does; on a tree where every block
      * holds its request the fragmentation is the plain, non-negative difference. */
    method GetFreeAndFrag() returns (free: int, frag: int)
      requires WellShaped(root)
      ensures free == root.level - Blocks(root) && free >= 0
      ensures frag == (Blocks(root) - Requested(root)) % Pow2(64)
      ensures Fitted(root) && Blocks(root) < Pow2(64) ==> frag == Blocks(root) - Requested(root)
    {
      var total: int, actual: int := Blocks(root), Requested(root);
      AllocatedBound(root);
      free := root.level - total;
      var m := Pow2(64);
      frag := (total - actual) % m;
      if Fitted(root) && total < m {
        ModBelow(total - actual, m);
      }
    }
  }
}
