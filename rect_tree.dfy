/**
 * The value layer of Andrew Willmott's guillotine rectangle allocator
 * (`cRectAllocator`): a binary tree of sub-rectangles kept in a vector and
 * addressed by index, plus a LIFO stack of recycled vector slots. `Pool` is
 * the value of the allocator's two vectors; `AllocRef`, `FreeRef`, `AllocAt`
 * and `Release` are the meaning of the operations of the same names, and
 * `Sound` is the tree invariant they keep.
 */
module RectTree {

  /** `Vec2i`: a pair of integers, used for origins and sizes. */
  datatype Vec2i = Vec2i(x: int, y: int)

  /** `vl_0`, the zero vector. */
  const Zero: Vec2i := Vec2i(0, 0)

  /** `operator-` on `Vec2i`. */
  function Sub(a: Vec2i, b: Vec2i): (d: Vec2i)
    ensures Vec2i(b.x + d.x, b.y + d.y) == a
    ensures d == Zero <==> a == b
  {
    Vec2i(a.x - b.x, a.y - b.y)
  }

  /** `operator==` on `Vec2i`: componentwise equality is equality of the vectors. */
  function Eq(a: Vec2i, b: Vec2i): (r: bool)
    ensures r <==> a == b
  {
    a.x == b.x && a.y == b.y
  }

  /** `tRectRef`: an index into the sub-rectangle vector. */
  type RectRef = int

  /** `kNullRectRef`. */
  const NULL_REF: RectRef := -1

  /** `cRectInfo`: where a rectangle is and how big it is. */
  datatype RectInfo = RectInfo(origin: Vec2i, size: Vec2i)

  /** A `cRectInfo` built with no arguments: both vectors zero. */
  const DefaultInfo: RectInfo := RectInfo(Zero, Zero)

  /**
   * `cSubRect`: a node of the tree. `left`/`right` are -1 for a leaf;
   * `empty` says whether a leaf is free.
   */
  datatype SubRect = SubRect(origin: Vec2i, size: Vec2i, parent: RectRef, left: RectRef, right: RectRef, empty: bool)

  /** `HasChildren`: a node is internal exactly when its left link is an index. */
  predicate HasChildren(s: SubRect)
  {
    s.left >= 0
  }

  /** `cSubRect(const cRectInfo&)`: the given rectangle as a free leaf with no parent. */
  function FromInfo(r: RectInfo): (s: SubRect)
    ensures s.origin == r.origin && s.size == r.size
    ensures s.parent == NULL_REF && !HasChildren(s) && s.right == NULL_REF && s.empty
  {
    SubRect(r.origin, r.size, NULL_REF, NULL_REF, NULL_REF, true)
  }

  /** The `cRectInfo` part of a node, which `RectInfo(ref)` hands out. */
  function Info(s: SubRect): RectInfo
  {
    RectInfo(s.origin, s.size)
  }

  /** The allocator's state: `mSubRects` and `mFreeSubRects`. */
  datatype Pool = Pool(nodes: seq<SubRect>, free: seq<RectRef>)

  /** A slot that is in the vector and not parked on the free stack. */
  predicate Live(p: Pool, i: RectRef)
  {
    0 <= i < |p.nodes| && i !in p.free
  }

  /** A live leaf handed out by `Alloc` and not yet freed. */
  predicate InUse(p: Pool, i: RectRef)
  {
    Live(p, i) && !HasChildren(p.nodes[i]) && !p.nodes[i].empty
  }

  predicate Positive(v: Vec2i)
  {
    0 < v.x && 0 < v.y
  }

  /** A request of this size does not fit into a rectangle of size `have`. */
  predicate TooBig(have: Vec2i, size: Vec2i)
  {
    have.x < size.x || have.y < size.y
  }

  /** Rectangle a lies within rectangle b. */
  predicate Inside(a: RectInfo, b: RectInfo)
  {
    && b.origin.x <= a.origin.x && a.origin.x + a.size.x <= b.origin.x + b.size.x
    && b.origin.y <= a.origin.y && a.origin.y + a.size.y <= b.origin.y + b.size.y
  }

  /**
   * l and r cut n in two along x or along y: l at n's origin, r right after
   * (or above) it, both of positive size and together exactly n.
   */
  predicate Tiles(n: RectInfo, l: RectInfo, r: RectInfo)
  {
    && Positive(l.size) && Positive(r.size) && l.origin == n.origin
    && (|| (&& l.size.y == n.size.y && r.size.y == n.size.y
            && l.size.x + r.size.x == n.size.x
            && r.origin == Vec2i(n.origin.x + l.size.x, n.origin.y))
        || (&& l.size.x == n.size.x && r.size.x == n.size.x
            && l.size.y + r.size.y == n.size.y
            && r.origin == Vec2i(n.origin.x, n.origin.y + l.size.y)))
  }

  /** The free stack holds distinct slots of the vector. */
  predicate FreeOk(p: Pool)
  {
    && (forall k :: 0 <= k < |p.free| ==> 0 <= p.free[k] < |p.nodes|)
    && (forall k, l :: 0 <= k < l < |p.free| ==> p.free[k] != p.free[l])
  }

  /** Every parked slot holds a free leaf. */
  predicate ParkedOk(p: Pool)
    requires FreeOk(p)
  {
    forall k :: 0 <= k < |p.free| ==> !HasChildren(p.nodes[p.free[k]]) && p.nodes[p.free[k]].empty
  }

  /** The root, slot 0, is live and has no parent. */
  predicate RootOk(p: Pool)
  {
    |p.nodes| > 0 ==> 0 !in p.free && p.nodes[0].parent < 0
  }

  /**
   * Every node but the root has a parent, and a node with a parent is one
   * of that parent's two children.
   */
  predicate UpOk(p: Pool, i: RectRef)
    requires 0 <= i < |p.nodes|
  {
    var q := p.nodes[i].parent;
    && (i != 0 ==> q >= 0)
    && (q >= 0 ==> Live(p, q) && HasChildren(p.nodes[q]) && (p.nodes[q].left == i || p.nodes[q].right == i))
  }

  /** An internal node is free, and its two live children point back to it and tile it. */
  predicate DownOk(p: Pool, i: RectRef)
    requires 0 <= i < |p.nodes|
  {
    var n := p.nodes[i];
    HasChildren(n) ==>
      && Live(p, n.left) && Live(p, n.right) && n.left != n.right
      && p.nodes[n.left].parent == i && p.nodes[n.right].parent == i
      && n.empty && Tiles(Info(n), Info(p.nodes[n.left]), Info(p.nodes[n.right]))
  }

  /** A node lies within the page, the root's rectangle. */
  predicate InPage(p: Pool, i: RectRef)
    requires 0 <= i < |p.nodes|
  {
    Inside(Info(p.nodes[i]), Info(p.nodes[0]))
  }

  /** The tree invariant of the allocator. */
  ghost predicate Sound(p: Pool)
  {
    && FreeOk(p) && ParkedOk(p) && RootOk(p)
    && (forall i :: Live(p, i) ==> UpOk(p, i) && DownOk(p, i) && InPage(p, i))
  }

  /** `x + y` of a size while positive: it shrinks from a node to each of its children. */
  function Measure(v: Vec2i): nat
  {
    if v.x + v.y > 0 then v.x + v.y else 0
  }

  /** `AllocRef`: pop the most recently freed slot, or grow the vector by one default node. */
  function AllocRef(p: Pool): (r: (Pool, RectRef))
    ensures p.free == [] ==> r.1 == |p.nodes| && r.0.free == [] && |r.0.nodes| == |p.nodes| + 1
    ensures p.free != [] ==> r.1 == p.free[|p.free| - 1] && r.0.nodes == p.nodes
    ensures r.0.nodes[..|p.nodes|] == p.nodes
    ensures |r.0.free| <= |p.free| && r.0.free == p.free[..|r.0.free|]
  {
    if p.free != [] then
      (Pool(p.nodes, p.free[..|p.free| - 1]), p.free[|p.free| - 1])
    else
      (Pool(p.nodes + [FromInfo(DefaultInfo)], p.free), |p.nodes|)
  }

  /** `FreeRef`: push a slot on the free stack. */
  function FreeRef(p: Pool, ref: RectRef): (r: Pool)
    ensures r.nodes == p.nodes && |r.free| == |p.free| + 1
    ensures r.free[..|p.free|] == p.free && r.free[|p.free|] == ref
  {
    Pool(p.nodes, p.free + [ref])
  }

  /** The state `Clear(pageSize)` leaves: one free leaf of the page's size at the origin, nothing parked. */
  function PageRoot(pageSize: Vec2i): (p: Pool)
    ensures Sound(p) && UsedSet(p) == {}
    ensures |p.nodes| == 1 && Live(p, 0) && Info(p.nodes[0]) == RectInfo(Zero, pageSize)
  {
    Pool([FromInfo(RectInfo(Zero, pageSize))], [])
  }

  /** The free stack is LIFO: the slot freed last is the one `AllocRef` hands out next. */
  lemma {:induction false} ReuseLastFreed(p: Pool, ref: RectRef)
    ensures AllocRef(FreeRef(p, ref)) == (p, ref)
  {
    assert (p.free + [ref])[..|p.free|] == p.free;
  }

  /**
   * The split step of `Alloc` at the free leaf `ref` that is larger than the
   * request: take two slots, link them as `ref`'s children and cut `ref`
   * along x when the remainder is wider than it is tall, along y otherwise;
   * the left child is as wide (or as tall) as the request. Returns the new
   * pool and the left child.
   */
  function Divide(p: Pool, ref: RectRef, size: Vec2i): (r: (Pool, RectRef))
    requires FreeOk(p) && 0 <= ref < |p.nodes|
  {
    var (p1, left) := AllocRef(p);
    var (p2, right) := AllocRef(p1);
    (Pool(Link(p2.nodes, ref, left, right, size), p2.free), left)
  }

  /**
   * The writes of the split step: `left` and `right` become the children of
   * `ref`, each a fresh node over its part of `ref`'s rectangle with `ref` as
   * parent. The cut is along x when the remainder is wider than it is tall.
   */
  function Link(nodes: seq<SubRect>, ref: RectRef, left: RectRef, right: RectRef, size: Vec2i): seq<SubRect>
    requires 0 <= ref < |nodes| && 0 <= left < |nodes| && 0 <= right < |nodes|
  {
    var n := nodes[ref];
    var rsize := Sub(n.size, size);
    var l := if rsize.x > rsize.y then FromInfo(RectInfo(n.origin, Vec2i(size.x, n.size.y)))
             else FromInfo(RectInfo(n.origin, Vec2i(n.size.x, size.y)));
    var r := if rsize.x > rsize.y then FromInfo(RectInfo(Vec2i(n.origin.x + size.x, n.origin.y), Vec2i(rsize.x, n.size.y)))
             else FromInfo(RectInfo(Vec2i(n.origin.x, n.origin.y + size.y), Vec2i(n.size.x, rsize.y)));
    nodes[ref := n.(left := left, right := right)][left := l.(parent := ref)][right := r.(parent := ref)]
  }

  /** The two slots `Divide` takes are distinct, were not live, and are live afterwards; nothing else changes liveness. */
  lemma {:induction false} TwoSlots(p: Pool)
    requires FreeOk(p)
    ensures var (p1, left) := AllocRef(p); var (p2, right) := AllocRef(p1);
      && 0 <= left < |p2.nodes| && 0 <= right < |p2.nodes| && left != right
      && !Live(p, left) && !Live(p, right)
      && |p.nodes| <= |p2.nodes| && p2.nodes[..|p.nodes|] == p.nodes
      && FreeOk(p2) && left !in p2.free && right !in p2.free
      && (forall i :: 0 <= i < |p.nodes| && i !in p.free ==> i !in p2.free)
      && (forall i :: 0 <= i < |p2.nodes| && i != left && i != right && i !in p2.free ==> i < |p.nodes| && i !in p.free)
  {
    var (p1, left) := AllocRef(p);
    var (p2, right) := AllocRef(p1);
    var m := |p.free|;
    if m >= 2 {
      assert p.free == p2.free + [right, left];
      assert p.free[m - 1] == left && p.free[m - 2] == right;
    } else if m == 1 {
      assert p.free == [left] && p2.free == [];
    }
  }

  /** What `Divide` builds, node by node. */
  lemma {:induction false} DivideShape(p: Pool, ref: RectRef, size: Vec2i)
    requires FreeOk(p) && 0 <= ref < |p.nodes| && ref !in p.free
    ensures var (p1, left) := AllocRef(p); var (p2, right) := AllocRef(p1);
      var d := Divide(p, ref, size); var n := p.nodes[ref];
      && d.1 == left && d.0.free == p2.free && |d.0.nodes| == |p2.nodes|
      && d.0.nodes[ref] == n.(left := left, right := right)
      && d.0.nodes[left].parent == ref && d.0.nodes[right].parent == ref
      && !HasChildren(d.0.nodes[left]) && !HasChildren(d.0.nodes[right])
      && d.0.nodes[left].empty && d.0.nodes[right].empty
      && (forall i :: 0 <= i < |p.nodes| && i != ref && i != left && i != right ==> d.0.nodes[i] == p.nodes[i])
      && var rs := Sub(n.size, size);
         // the cut leaves the larger remainder whole: across x when it is wider, otherwise across y
         && (rs.x > rs.y ==>
               && Info(d.0.nodes[left]) == RectInfo(n.origin, Vec2i(size.x, n.size.y))
               && Info(d.0.nodes[right]) == RectInfo(Vec2i(n.origin.x + size.x, n.origin.y), Vec2i(rs.x, n.size.y)))
         && (rs.x <= rs.y ==>
               && Info(d.0.nodes[left]) == RectInfo(n.origin, Vec2i(n.size.x, size.y))
               && Info(d.0.nodes[right]) == RectInfo(Vec2i(n.origin.x, n.origin.y + size.y), Vec2i(n.size.x, rs.y)))
  {
    TwoSlots(p);
  }

  /** A free leaf that is not exactly the request but holds it. */
  predicate Splittable(p: Pool, ref: RectRef, size: Vec2i)
    requires 0 <= ref < |p.nodes|
  {
    var n := p.nodes[ref];
    !HasChildren(n) && n.empty && !TooBig(n.size, size) && n.size != size
  }

  /**
   * The children `Divide` makes tile the divided leaf, the left one is
   * smaller than it, and the cut runs so that the larger remainder stays
   * whole: the left child keeps the full height when more width than
   * height is left over, and the full width otherwise.
   */
  lemma {:induction false} DivideTiles(p: Pool, ref: RectRef, size: Vec2i)
    requires FreeOk(p) && 0 <= ref < |p.nodes| && ref !in p.free
    requires Splittable(p, ref, size) && Positive(size)
    ensures var (p1, left) := AllocRef(p); var (p2, right) := AllocRef(p1); var d := Divide(p, ref, size);
      var n := p.nodes[ref]; var rs := Sub(n.size, size);
      && Tiles(Info(n), Info(d.0.nodes[left]), Info(d.0.nodes[right]))
      && Measure(d.0.nodes[left].size) < Measure(n.size)
      && (rs.x > rs.y ==> Info(d.0.nodes[left]) == RectInfo(n.origin, Vec2i(size.x, n.size.y)))
      && (rs.x <= rs.y ==> Info(d.0.nodes[left]) == RectInfo(n.origin, Vec2i(n.size.x, size.y)))
  {
    TwoSlots(p);
    var (p1, left) := AllocRef(p);
    var (p2, right) := AllocRef(p1);
    assert p2.nodes[ref] == p.nodes[ref];
  }

  /** `Divide` keeps the tree invariant and hands back a live free leaf inside the divided one. */
  lemma {:induction false} DivideSound(p: Pool, ref: RectRef, size: Vec2i)
    requires Sound(p) && Live(p, ref) && Splittable(p, ref, size) && Positive(size)
    ensures var d := Divide(p, ref, size);
      && Sound(d.0) && Live(d.0, d.1) && !HasChildren(d.0.nodes[d.1]) && d.0.nodes[d.1].empty
      && Measure(d.0.nodes[d.1].size) < Measure(p.nodes[ref].size)
      && Inside(Info(d.0.nodes[d.1]), Info(p.nodes[ref]))
      && !TooBig(d.0.nodes[d.1].size, size)
  {
    var (p1, left) := AllocRef(p);
    var (p2, right) := AllocRef(p1);
    var q := Divide(p, ref, size).0;
    DivideFits(p, ref, size);
    TwoSlots(p);
    DivideShape(p, ref, size);
    DivideTiles(p, ref, size);
    TilesInside(Info(p.nodes[ref]), Info(q.nodes[left]), Info(q.nodes[right]));
    DivideStack(p, ref, size);
    DivideNewNodes(p, ref, size);
    forall i | Live(q, i)
      ensures UpOk(q, i) && DownOk(q, i) && InPage(q, i)
    {
      if i != ref && i != left && i != right {
        DivideKeepsNode(p, ref, size, i);
      }
    }
  }

  /** The part `Divide` hands back still holds the requested size. */
  lemma {:induction false} DivideFits(p: Pool, ref: RectRef, size: Vec2i)
    requires FreeOk(p) && 0 <= ref < |p.nodes| && ref !in p.free && Splittable(p, ref, size)
    ensures var d := Divide(p, ref, size); !TooBig(d.0.nodes[d.1].size, size)
  {
    var (p1, left) := AllocRef(p);
    var (p2, right) := AllocRef(p1);
    TwoSlots(p);
    assert p2.nodes[ref] == p.nodes[ref];
  }

  /** After `Divide` the free stack is still sound and the root's rectangle is untouched. */
  lemma {:induction false} DivideStack(p: Pool, ref: RectRef, size: Vec2i)
    requires Sound(p) && Live(p, ref) && Splittable(p, ref, size) && Positive(size)
    ensures var q := Divide(p, ref, size).0;
      FreeOk(q) && ParkedOk(q) && RootOk(q) && Info(q.nodes[0]) == Info(p.nodes[0])
  {
    var (p1, left) := AllocRef(p);
    var (p2, right) := AllocRef(p1);
    var q := Divide(p, ref, size).0;
    TwoSlots(p);
    DivideShape(p, ref, size);
    assert Live(p, 0);
    forall k | 0 <= k < |q.free|
      ensures !HasChildren(q.nodes[q.free[k]]) && q.nodes[q.free[k]].empty
    {
      assert q.free[k] == p.free[k];
    }
  }

  /** The divided node and its two new children have consistent links and lie in the page. */
  lemma {:induction false} DivideNewNodes(p: Pool, ref: RectRef, size: Vec2i)
    requires Sound(p) && Live(p, ref) && Splittable(p, ref, size) && Positive(size)
    ensures var (p1, left) := AllocRef(p); var (p2, right) := AllocRef(p1); var q := Divide(p, ref, size).0;
      && Live(q, ref) && Live(q, left) && Live(q, right)
      && UpOk(q, ref) && DownOk(q, ref) && InPage(q, ref)
      && UpOk(q, left) && DownOk(q, left) && InPage(q, left)
      && UpOk(q, right) && DownOk(q, right) && InPage(q, right)
  {
    var (p1, left) := AllocRef(p);
    var (p2, right) := AllocRef(p1);
    var q := Divide(p, ref, size).0;
    var n := p.nodes[ref];
    TwoSlots(p);
    DivideShape(p, ref, size);
    DivideTiles(p, ref, size);
    DivideStack(p, ref, size);
    assert InPage(p, ref) && UpOk(p, ref);
    TilesInside(Info(n), Info(q.nodes[left]), Info(q.nodes[right]));
    InsideTrans(Info(q.nodes[left]), Info(n), Info(p.nodes[0]));
    InsideTrans(Info(q.nodes[right]), Info(n), Info(p.nodes[0]));
    var up := n.parent;
    if up >= 0 {
      assert q.nodes[up] == p.nodes[up];
    }
  }

  /** A node that `Divide` does not touch keeps its links to its parent and its children. */
  lemma {:induction false} DivideKeepsNode(p: Pool, ref: RectRef, size: Vec2i, i: RectRef)
    requires Sound(p) && Live(p, ref) && Splittable(p, ref, size) && Positive(size)
    requires Live(p, i) && i != ref
    ensures var d := Divide(p, ref, size); Live(d.0, i) && UpOk(d.0, i) && DownOk(d.0, i) && InPage(d.0, i)
  {
    var q := Divide(p, ref, size).0;
    TwoSlots(p);
    DivideShape(p, ref, size);
    DivideStack(p, ref, size);
    assert q.nodes[i] == p.nodes[i];
    assert UpOk(p, i) && DownOk(p, i) && InPage(p, i);
    var up := p.nodes[i].parent;
    if up >= 0 {
      assert q.nodes[up] == p.nodes[up];
    }
    if HasChildren(p.nodes[i]) {
      var c1, c2 := p.nodes[i].left, p.nodes[i].right;
      assert q.nodes[c1].parent == i && Info(q.nodes[c1]) == Info(p.nodes[c1]);
      assert q.nodes[c2].parent == i && Info(q.nodes[c2]) == Info(p.nodes[c2]);
    }
  }

  /** Set the `empty` flag of a node: `Alloc` marks an exact fit used, `Free` marks a leaf free. */
  function Mark(p: Pool, ref: RectRef, empty: bool): Pool
    requires 0 <= ref < |p.nodes|
  {
    Pool(p.nodes[ref := p.nodes[ref].(empty := empty)], p.free)
  }

  /**
   * The recursive `Alloc(ref, size)`: fail when the request is larger than
   * the node in either dimension; at an internal node try the left subtree,
   * then the right; at a used leaf fail; at a free leaf of exactly the
   * requested size mark it used; otherwise `Divide` it and allocate in its
   * left child. Returns the new pool and the leaf, or `NULL_REF`.
   */
  function AllocAt(p: Pool, ref: RectRef, size: Vec2i): (r: (Pool, RectRef))
    requires Sound(p) && Live(p, ref) && Positive(size)
    ensures r.1 == NULL_REF || 0 <= r.1 < |r.0.nodes|
    ensures r.1 < 0 ==> r.0 == p
    ensures TooBig(p.nodes[ref].size, size) ==> r.1 < 0
    ensures !HasChildren(p.nodes[ref]) ==> (r.1 >= 0 <==> HoldsFree(p, ref, size))
    decreases Measure(p.nodes[ref].size)
  {
    var n := p.nodes[ref];
    if TooBig(n.size, size) then (p, NULL_REF)
    else if HasChildren(n) then
      var (p1, child) := AllocAt(p, n.left, size);
      if child < 0 then AllocAt(p1, n.right, size) else (p1, child)
    else if !n.empty then (p, NULL_REF)
    else if Eq(Sub(n.size, size), Zero) then (Mark(p, ref, false), ref)
    else
      DivideSound(p, ref, size);
      var d := Divide(p, ref, size);
      AllocAt(d.0, d.1, size)
  }

  /** Both halves of a tiling lie within the whole. */
  lemma {:induction false} TilesInside(n: RectInfo, l: RectInfo, r: RectInfo)
    requires Tiles(n, l, r)
    ensures Inside(l, n) && Inside(r, n)
  {
  }

  lemma {:induction false} InsideTrans(a: RectInfo, b: RectInfo, c: RectInfo)
    requires Inside(a, b) && Inside(b, c)
    ensures Inside(a, c)
  {
  }

  /** Marking a leaf used or free keeps the tree invariant. */
  lemma {:induction false} MarkSound(p: Pool, ref: RectRef, empty: bool)
    requires Sound(p) && Live(p, ref) && !HasChildren(p.nodes[ref])
    ensures Sound(Mark(p, ref, empty)) && (InUse(Mark(p, ref, empty), ref) <==> !empty)
  {
    var q := Mark(p, ref, empty);
    assert Info(q.nodes[0]) == Info(p.nodes[0]);
    forall i | Live(q, i)
      ensures UpOk(q, i) && DownOk(q, i) && InPage(q, i)
    {
      assert UpOk(p, i) && DownOk(p, i) && InPage(p, i);
      var up := p.nodes[i].parent;
      if up >= 0 {
        assert HasChildren(q.nodes[up]);
      }
      if HasChildren(p.nodes[i]) {
        var c1, c2 := p.nodes[i].left, p.nodes[i].right;
        assert Info(q.nodes[c1]) == Info(p.nodes[c1]) && Info(q.nodes[c2]) == Info(p.nodes[c2]);
      }
    }
  }

  /**
   * `Alloc` keeps the tree invariant, and what it returns is a used leaf of
   * exactly the requested size, inside the node the search started from.
   */
  lemma {:induction false} AllocSound(p: Pool, ref: RectRef, size: Vec2i)
    requires Sound(p) && Live(p, ref) && Positive(size)
    ensures var r := AllocAt(p, ref, size);
      && Sound(r.0)
      && (r.1 >= 0 ==> InUse(r.0, r.1) && r.0.nodes[r.1].size == size
                       && Inside(Info(r.0.nodes[r.1]), Info(p.nodes[ref])))
    decreases Measure(p.nodes[ref].size)
  {
    var n := p.nodes[ref];
    if TooBig(n.size, size) {
    } else if HasChildren(n) {
      assert DownOk(p, ref);
      TilesInside(Info(n), Info(p.nodes[n.left]), Info(p.nodes[n.right]));
      AllocSound(p, n.left, size);
      var (p1, child) := AllocAt(p, n.left, size);
      if child < 0 {
        AllocSound(p1, n.right, size);
        var r := AllocAt(p1, n.right, size);
        if r.1 >= 0 {
          InsideTrans(Info(r.0.nodes[r.1]), Info(p.nodes[n.right]), Info(n));
        }
      } else {
        InsideTrans(Info(p1.nodes[child]), Info(p.nodes[n.left]), Info(n));
      }
    } else if !n.empty {
    } else if Eq(Sub(n.size, size), Zero) {
      MarkSound(p, ref, false);
    } else {
      DivideSound(p, ref, size);
      var d := Divide(p, ref, size);
      AllocSound(d.0, d.1, size);
      var r := AllocAt(d.0, d.1, size);
      if r.1 >= 0 {
        InsideTrans(Info(r.0.nodes[r.1]), Info(d.0.nodes[d.1]), Info(n));
      }
    }
  }

  /** The slots in use: the live leaves handed out and not yet freed. */
  ghost function UsedSet(p: Pool): set<RectRef>
  {
    set i | 0 <= i < |p.nodes| && InUse(p, i)
  }

  /** `Divide` neither disturbs nor creates an allocation. */
  lemma {:induction false} DivideKeepsUse(p: Pool, ref: RectRef, size: Vec2i)
    requires Sound(p) && Live(p, ref) && Splittable(p, ref, size) && Positive(size)
    ensures var q := Divide(p, ref, size).0;
      && (forall i :: InUse(p, i) ==> InUse(q, i) && q.nodes[i] == p.nodes[i])
      && (forall i :: InUse(q, i) ==> InUse(p, i))
  {
    TwoSlots(p);
    DivideShape(p, ref, size);
  }

  /**
   * `Alloc` leaves every existing allocation where it is, and the only
   * allocation it adds is the one it returns.
   */
  lemma {:induction false} AllocKeepsUse(p: Pool, ref: RectRef, size: Vec2i)
    requires Sound(p) && Live(p, ref) && Positive(size)
    ensures var r := AllocAt(p, ref, size);
      && (forall i :: InUse(p, i) ==> InUse(r.0, i) && r.0.nodes[i] == p.nodes[i])
      && (forall i :: InUse(r.0, i) ==> InUse(p, i) || i == r.1)
      && (r.1 >= 0 ==> !InUse(p, r.1))
    decreases Measure(p.nodes[ref].size)
  {
    var n := p.nodes[ref];
    if TooBig(n.size, size) {
    } else if HasChildren(n) {
      AllocKeepsUse(p, n.left, size);
      var (p1, child) := AllocAt(p, n.left, size);
      if child < 0 {
        AllocKeepsUse(p1, n.right, size);
      }
    } else if !n.empty {
    } else if Eq(Sub(n.size, size), Zero) {
    } else {
      DivideSound(p, ref, size);
      DivideKeepsUse(p, ref, size);
      var d := Divide(p, ref, size);
      AllocKeepsUse(d.0, d.1, size);
    }
  }

  /** In terms of the set of slots in use: a successful `Alloc` adds exactly its result. */
  lemma {:induction false} AllocAdds(p: Pool, ref: RectRef, size: Vec2i)
    requires Sound(p) && Live(p, ref) && Positive(size)
    ensures var r := AllocAt(p, ref, size);
      && (r.1 >= 0 ==> r.1 !in UsedSet(p) && UsedSet(r.0) == UsedSet(p) + {r.1})
      && (r.1 < 0 ==> UsedSet(r.0) == UsedSet(p))
  {
    AllocKeepsUse(p, ref, size);
    var r := AllocAt(p, ref, size);
    forall i | i in UsedSet(p) ensures i in UsedSet(r.0) {
      assert InUse(r.0, i);
    }
    forall i | i in UsedSet(r.0) ensures i in UsedSet(p) || i == r.1 {
      assert InUse(r.0, i);
    }
    assert r.1 >= 0 ==> InUse(r.0, r.1) by {
      AllocSound(p, ref, size);
    }
  }

  /** A free leaf that holds the request always satisfies it: splitting never fails. */
  lemma {:induction false} AllocFreeLeaf(p: Pool, ref: RectRef, size: Vec2i)
    requires Sound(p) && Live(p, ref) && Positive(size)
    requires !HasChildren(p.nodes[ref]) && p.nodes[ref].empty && !TooBig(p.nodes[ref].size, size)
    ensures AllocAt(p, ref, size).1 >= 0
    decreases Measure(p.nodes[ref].size)
  {
    var n := p.nodes[ref];
    if !Eq(Sub(n.size, size), Zero) {
      DivideSound(p, ref, size);
      var d := Divide(p, ref, size);
      DivideShape(p, ref, size);
      TwoSlots(p);
      assert !TooBig(d.0.nodes[d.1].size, size);
      AllocFreeLeaf(d.0, d.1, size);
    }
  }

  /** Slot `i` is a free leaf that holds a request of `size`. */
  predicate HoldsFree(p: Pool, i: RectRef, size: Vec2i)
    requires 0 <= i < |p.nodes|
  {
    !HasChildren(p.nodes[i]) && p.nodes[i].empty && !TooBig(p.nodes[i].size, size)
  }

  /** Every node lies in the page, so its measure is at most the root's. */
  lemma {:induction false} MeasureBelowRoot(p: Pool, i: RectRef)
    requires Sound(p) && Live(p, i)
    ensures Live(p, 0) && Measure(p.nodes[i].size) <= Measure(p.nodes[0].size)
  {
    assert InPage(p, i);
  }

  /**
   * A search that succeeds from a node other than the root also succeeds
   * from its parent: the parent is larger, and it tries its left child and,
   * when that fails having changed nothing, its right one.
   */
  lemma {:induction false} AllocFromParent(p: Pool, j: RectRef, size: Vec2i)
    requires Sound(p) && Live(p, j) && j != 0 && Positive(size)
    requires AllocAt(p, j, size).1 >= 0
    ensures var k := p.nodes[j].parent;
      && Live(p, k) && Measure(p.nodes[j].size) < Measure(p.nodes[k].size)
      && AllocAt(p, k, size).1 >= 0
  {
    assert UpOk(p, j);
    var k := p.nodes[j].parent;
    var n := p.nodes[k];
    assert DownOk(p, k);
    assert !TooBig(p.nodes[j].size, size);
    if AllocAt(p, n.left, size).1 < 0 {
      assert j == n.right;
    }
  }

  /** A search that succeeds from any live node also succeeds from the root. */
  lemma {:induction false} AllocFromRoot(p: Pool, j: RectRef, size: Vec2i)
    requires Sound(p) && Live(p, j) && Positive(size)
    requires AllocAt(p, j, size).1 >= 0
    ensures Live(p, 0) && AllocAt(p, 0, size).1 >= 0
    decreases Measure(p.nodes[0].size) - Measure(p.nodes[j].size)
  {
    MeasureBelowRoot(p, j);
    if j != 0 {
      AllocFromParent(p, j, size);
      var k := p.nodes[j].parent;
      MeasureBelowRoot(p, k);
      AllocFromRoot(p, k, size);
    }
  }

  /** A search succeeds only where some live free leaf holds the request. */
  lemma {:induction false} AllocHadRoom(p: Pool, ref: RectRef, size: Vec2i)
    requires Sound(p) && Live(p, ref) && Positive(size)
    requires AllocAt(p, ref, size).1 >= 0
    ensures exists i :: Live(p, i) && HoldsFree(p, i, size)
    decreases Measure(p.nodes[ref].size)
  {
    var n := p.nodes[ref];
    if HasChildren(n) {
      assert DownOk(p, ref);
      if AllocAt(p, n.left, size).1 < 0 {
        AllocHadRoom(p, n.right, size);
      } else {
        AllocHadRoom(p, n.left, size);
      }
    } else {
      assert HoldsFree(p, ref, size);
    }
  }

  /**
   * `Alloc` fails, returning `NULL_REF`, exactly when no live free leaf of
   * the page holds the request.
   */
  lemma {:induction false} AllocFailsIffFull(p: Pool, size: Vec2i)
    requires Sound(p) && |p.nodes| > 0 && Positive(size)
    ensures Live(p, 0)
    ensures AllocAt(p, 0, size).1 < 0 <==> forall i :: Live(p, i) ==> !HoldsFree(p, i, size)
  {
    assert Live(p, 0);
    if AllocAt(p, 0, size).1 >= 0 {
      AllocHadRoom(p, 0, size);
    } else {
      forall i | Live(p, i)
        ensures !HoldsFree(p, i, size)
      {
        if HoldsFree(p, i, size) {
          AllocFreeLeaf(p, i, size);
          AllocFromRoot(p, i, size);
        }
      }
    }
  }

  /** Distinct indices below n number at most n. */
  lemma {:induction false} DistinctBound(s: seq<RectRef>, n: nat)
    requires forall k :: 0 <= k < |s| ==> 0 <= s[k] < n
    requires forall k, l :: 0 <= k < l < |s| ==> s[k] != s[l]
    ensures |s| <= n
  {
    var below: seq<RectRef> := seq(n, i => i);
    var elems := set k | 0 <= k < |s| :: s[k];
    var all := set k | 0 <= k < n :: below[k];
    DistinctCard(s);
    DistinctCard(below);
    forall x | x in elems
      ensures x in all
    {
      assert below[x] == x;
    }
    SubsetCard(elems, all);
  }

  lemma {:induction false} DistinctCard(s: seq<RectRef>)
    requires forall k, l :: 0 <= k < l < |s| ==> s[k] != s[l]
    ensures |set k | 0 <= k < |s| :: s[k]| == |s|
  {
    if s != [] {
      var t := s[..|s| - 1];
      DistinctCard(t);
      assert (set k | 0 <= k < |s| :: s[k]) == (set k | 0 <= k < |t| :: t[k]) + {s[|s| - 1]};
    }
  }

  lemma {:induction false} SubsetCard(a: set<RectRef>, b: set<RectRef>)
    requires a <= b
    ensures |a| <= |b|
  {
    var c := b - a;
    assert b == a + c;
    assert a * c == {};
  }

  /** Both children of `ref` are free leaves, so `Free` may merge them back into it. */
  predicate Mergeable(p: Pool, ref: RectRef)
    requires 0 <= ref < |p.nodes|
  {
    var n := p.nodes[ref];
    && 0 <= n.left < |p.nodes| && 0 <= n.right < |p.nodes|
    && !HasChildren(p.nodes[n.left]) && p.nodes[n.left].empty
    && !HasChildren(p.nodes[n.right]) && p.nodes[n.right].empty
  }

  /** One collapse of `Free`: `ref` becomes a leaf again and its two children go on the free stack, left first. */
  function Detach(p: Pool, ref: RectRef): Pool
    requires 0 <= ref < |p.nodes|
  {
    var n := p.nodes[ref];
    FreeRef(FreeRef(Pool(p.nodes[ref := n.(left := NULL_REF, right := NULL_REF)], p.free), n.left), n.right)
  }

  /** A collapse keeps the tree invariant, keeps `ref` live, and parks two more slots. */
  lemma {:induction false} DetachSound(p: Pool, ref: RectRef)
    requires Sound(p) && Live(p, ref) && HasChildren(p.nodes[ref]) && Mergeable(p, ref)
    ensures var q := Detach(p, ref);
      && Sound(q) && Live(q, ref) && !HasChildren(q.nodes[ref])
      && q.nodes[ref].parent == p.nodes[ref].parent
      && |q.nodes| == |p.nodes| && |q.free| == |p.free| + 2 && |q.free| <= |q.nodes|
  {
    var q := Detach(p, ref);
    DetachStack(p, ref);
    assert DownOk(p, ref);
    forall i | Live(q, i)
      ensures UpOk(q, i) && DownOk(q, i) && InPage(q, i)
    {
      assert Live(p, i);
      DetachKeepsNode(p, ref, i);
    }
  }

  /** After a collapse the free stack holds two more free leaves, still distinct. */
  lemma {:induction false} DetachStack(p: Pool, ref: RectRef)
    requires Sound(p) && Live(p, ref) && HasChildren(p.nodes[ref]) && Mergeable(p, ref)
    ensures var q := Detach(p, ref);
      && FreeOk(q) && ParkedOk(q) && RootOk(q) && Live(q, ref)
      && |q.nodes| == |p.nodes| && |q.free| == |p.free| + 2 && |q.free| <= |q.nodes|
  {
    var q := Detach(p, ref);
    var n := p.nodes[ref];
    var left, right := n.left, n.right;
    assert DownOk(p, ref);
    assert q.free == p.free + [left, right];
    assert left !in p.free && right !in p.free && left != right;
    assert forall k :: 0 <= k < |p.free| ==> p.free[k] != ref;
    PushTwoOk(p, q, left, right);
    DistinctBound(q.free, |q.nodes|);
  }

  /** Parking two more distinct free leaves keeps the free stack sound. */
  lemma {:induction false} PushTwoOk(p: Pool, q: Pool, a: RectRef, b: RectRef)
    requires FreeOk(p) && ParkedOk(p)
    requires |q.nodes| == |p.nodes| && q.free == p.free + [a, b]
    requires 0 <= a < |p.nodes| && 0 <= b < |p.nodes| && a != b && a !in p.free && b !in p.free
    requires !HasChildren(q.nodes[a]) && q.nodes[a].empty && !HasChildren(q.nodes[b]) && q.nodes[b].empty
    requires forall k :: 0 <= k < |p.free| ==> q.nodes[p.free[k]] == p.nodes[p.free[k]]
    ensures FreeOk(q) && ParkedOk(q)
  {
    assert FreeOk(q) by {
      forall k, l | 0 <= k < l < |q.free|
        ensures q.free[k] != q.free[l]
      {
        if l < |p.free| {
          assert q.free[k] == p.free[k] && q.free[l] == p.free[l];
        } else if k < |p.free| {
          assert q.free[k] == p.free[k];
        }
      }
    }
    forall k | 0 <= k < |q.free|
      ensures !HasChildren(q.nodes[q.free[k]]) && q.nodes[q.free[k]].empty
    {
      if k < |p.free| {
        assert q.free[k] == p.free[k];
      }
    }
  }

  /**
   * After a collapse every live node still has consistent links: a node
   * that was consistent before keeps its parent, its children and its place
   * in the page.
   */
  lemma {:induction false} DetachKeepsNode(p: Pool, ref: RectRef, i: RectRef)
    requires 0 <= ref < |p.nodes| && HasChildren(p.nodes[ref]) && Mergeable(p, ref) && DownOk(p, ref)
    requires Live(p, i) && Live(Detach(p, ref), i)
    requires UpOk(p, i) && DownOk(p, i) && InPage(p, i)
    ensures var q := Detach(p, ref); UpOk(q, i) && DownOk(q, i) && InPage(q, i)
  {
    var q := Detach(p, ref);
    var n := p.nodes[ref];
    assert q.free == p.free + [n.left, n.right];
    assert i != n.left && i != n.right;
    assert Info(q.nodes[0]) == Info(p.nodes[0]);
    var up := p.nodes[i].parent;
    if up >= 0 {
      assert up != ref;
      assert q.nodes[up] == p.nodes[up];
    }
    if i != ref && HasChildren(p.nodes[i]) {
      var c1, c2 := p.nodes[i].left, p.nodes[i].right;
      assert q.nodes[c1].parent == i && Info(q.nodes[c1]) == Info(p.nodes[c1]);
      assert q.nodes[c2].parent == i && Info(q.nodes[c2]) == Info(p.nodes[c2]);
    }
  }

  /**
   * The walk of `Free` from `ref` up the parent links: as long as both
   * children of the current node are free leaves, detach them and go on
   * to the parent; stop at the first node with a used or split child, or
   * above the root.
   */
  function Collapse(p: Pool, ref: RectRef): (r: Pool)
    requires Sound(p)
    requires ref >= 0 ==> Live(p, ref) && HasChildren(p.nodes[ref])
    ensures |r.nodes| == |p.nodes|
    decreases |p.nodes| - |p.free|
  {
    if ref < 0 then p
    else
      var n := p.nodes[ref];
      assert DownOk(p, ref);
      if HasChildren(p.nodes[n.left]) || !p.nodes[n.left].empty then p
      else if HasChildren(p.nodes[n.right]) || !p.nodes[n.right].empty then p
      else
        DetachSound(p, ref);
        var q := Detach(p, ref);
        assert UpOk(q, ref);
        Collapse(q, n.parent)
  }

  /** `Free(ref)`: mark the leaf free, then collapse from its parent. */
  function Release(p: Pool, ref: RectRef): Pool
    requires Sound(p) && InUse(p, ref)
  {
    MarkSound(p, ref, true);
    var q := Mark(p, ref, true);
    assert UpOk(q, ref);
    Collapse(q, q.nodes[ref].parent)
  }

  /** A collapse touches no allocation: the slots it changes are internal or free. */
  lemma {:induction false} DetachKeepsUse(p: Pool, ref: RectRef)
    requires 0 <= ref < |p.nodes| && HasChildren(p.nodes[ref]) && p.nodes[ref].empty && Mergeable(p, ref)
    ensures var q := Detach(p, ref);
      forall i :: (InUse(q, i) <==> InUse(p, i)) && (InUse(p, i) ==> q.nodes[i] == p.nodes[i])
  {
    var q := Detach(p, ref);
    var n := p.nodes[ref];
    assert q.free == p.free + [n.left, n.right];
  }

  /** The walk of `Free` keeps the tree invariant and every allocation. */
  lemma {:induction false} CollapseSound(p: Pool, ref: RectRef)
    requires Sound(p)
    requires ref >= 0 ==> Live(p, ref) && HasChildren(p.nodes[ref])
    ensures var r := Collapse(p, ref);
      && Sound(r)
      && (forall i :: (InUse(r, i) <==> InUse(p, i)) && (InUse(p, i) ==> r.nodes[i] == p.nodes[i]))
    decreases |p.nodes| - |p.free|
  {
    if ref >= 0 {
      var n := p.nodes[ref];
      assert DownOk(p, ref);
      if Mergeable(p, ref) {
        DetachSound(p, ref);
        DetachKeepsUse(p, ref);
        var q := Detach(p, ref);
        assert UpOk(q, ref);
        CollapseSound(q, n.parent);
      }
    }
  }

  /** `Free` keeps the tree invariant and ends exactly the allocation it is given; the others stay put. */
  lemma {:induction false} ReleaseRemoves(p: Pool, ref: RectRef)
    requires Sound(p) && InUse(p, ref)
    ensures var r := Release(p, ref);
      && Sound(r)
      && (forall i :: InUse(p, i) && i != ref ==> InUse(r, i) && r.nodes[i] == p.nodes[i])
      && UsedSet(r) == UsedSet(p) - {ref}
  {
    MarkSound(p, ref, true);
    var q := Mark(p, ref, true);
    assert UpOk(q, ref);
    CollapseSound(q, q.nodes[ref].parent);
    var r := Release(p, ref);
    assert forall i :: InUse(q, i) <==> InUse(p, i) && i != ref;
    assert forall i :: 0 <= i < |p.nodes| && i != ref ==> q.nodes[i] == p.nodes[i];
    UsedSetMinus(p, r, ref);
  }

  /** Two pools whose allocations differ exactly by ref have used sets that differ exactly by ref. */
  lemma {:induction false} UsedSetMinus(p: Pool, r: Pool, ref: RectRef)
    requires forall i :: InUse(r, i) <==> InUse(p, i) && i != ref
    ensures UsedSet(r) == UsedSet(p) - {ref}
  {
    forall i | i in UsedSet(r)
      ensures i in UsedSet(p) - {ref}
    {
      assert InUse(r, i);
    }
    forall i | i in UsedSet(p) - {ref}
      ensures i in UsedSet(r)
    {
      assert InUse(p, i);
    }
  }

  /** Freeing what `Alloc` returned gives back the allocations there were before. */
  lemma {:induction false} AllocThenRelease(p: Pool, size: Vec2i)
    requires Sound(p) && |p.nodes| > 0 && Positive(size)
    ensures var r := AllocAt(p, 0, size);
      r.1 >= 0 ==> Sound(r.0) && InUse(r.0, r.1) && UsedSet(Release(r.0, r.1)) == UsedSet(p)
  {
    AllocSound(p, 0, size);
    AllocAdds(p, 0, size);
    var r := AllocAt(p, 0, size);
    if r.1 >= 0 {
      ReleaseRemoves(r.0, r.1);
    }
  }

  /** The first n slots that hold leaves with the given `empty` flag, in increasing order. */
  function LeavesBelow(nodes: seq<SubRect>, n: nat, empty: bool): seq<RectRef>
    requires n <= |nodes|
  {
    if n == 0 then []
    else
      var last := nodes[n - 1];
      LeavesBelow(nodes, n - 1, empty) + (if !HasChildren(last) && last.empty == empty then [n - 1] else [])
  }

  /** What `AddUsedRects` (`empty` false) and `AddUnusedRects` (`empty` true) list. */
  function Leaves(nodes: seq<SubRect>, empty: bool): seq<RectRef>
  {
    LeavesBelow(nodes, |nodes|, empty)
  }

  /** The listing holds exactly the matching leaves, each once, in increasing order. */
  lemma {:induction false} LeavesBelowSpec(nodes: seq<SubRect>, n: nat, empty: bool)
    requires n <= |nodes|
    ensures var r := LeavesBelow(nodes, n, empty);
      && (forall i :: i in r <==> 0 <= i < n && !HasChildren(nodes[i]) && nodes[i].empty == empty)
      && (forall k, l :: 0 <= k < l < |r| ==> r[k] < r[l])
  {
    if n > 0 {
      LeavesBelowSpec(nodes, n - 1, empty);
      var r' := LeavesBelow(nodes, n - 1, empty);
      forall k | 0 <= k < |r'|
        ensures r'[k] < n - 1
      {
        assert r'[k] in r';
      }
    }
  }

  /** On a sound pool, the used listing is exactly the set of live allocations. */
  lemma {:induction false} UsedLeavesAreAllocations(p: Pool)
    requires Sound(p)
    ensures forall i :: i in Leaves(p.nodes, false) <==> i in UsedSet(p)
  {
    LeavesBelowSpec(p.nodes, |p.nodes|, false);
    forall i | i in Leaves(p.nodes, false)
      ensures InUse(p, i)
    {
      if i in p.free {
        assert false;
      }
    }
  }
}
