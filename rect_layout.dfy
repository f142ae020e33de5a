/**
 * The geometry of the page: the leaves of the tree cover parts of the
 * page that do not overlap, so no two allocations share a pixel. This is
 * an invariant of its own beside `Sound`; `Alloc` and `Free` keep it.
 */
module RectLayout {
  import opened RectTree

  /** Pixel (x, y) lies in r, whose right and top edges are exclusive. */
  predicate Covers(r: RectInfo, x: int, y: int)
  {
    r.origin.x <= x < r.origin.x + r.size.x && r.origin.y <= y < r.origin.y + r.size.y
  }

  /** a and b share no pixel: one of them is empty, or they are separated along x or along y. */
  predicate Apart(a: RectInfo, b: RectInfo)
  {
    || a.size.x <= 0 || a.size.y <= 0 || b.size.x <= 0 || b.size.y <= 0
    || a.origin.x + a.size.x <= b.origin.x || b.origin.x + b.size.x <= a.origin.x
    || a.origin.y + a.size.y <= b.origin.y || b.origin.y + b.size.y <= a.origin.y
  }

  /** `Apart` says exactly that no pixel lies in both rectangles. */
  lemma {:induction false} ApartMeansNoSharedPixel(a: RectInfo, b: RectInfo)
    ensures Apart(a, b) <==> forall x, y :: !(Covers(a, x, y) && Covers(b, x, y))
  {
    if !Apart(a, b) {
      var x := if a.origin.x < b.origin.x then b.origin.x else a.origin.x;
      var y := if a.origin.y < b.origin.y then b.origin.y else a.origin.y;
      assert Covers(a, x, y) && Covers(b, x, y);
    }
  }

  /** Slot i is a live node without children. */
  predicate Leaf(p: Pool, i: RectRef)
  {
    Live(p, i) && !HasChildren(p.nodes[i])
  }

  /** Distinct live leaves share no pixel. */
  ghost predicate LeavesApart(p: Pool)
  {
    forall i, j :: Leaf(p, i) && Leaf(p, j) && i != j ==> Apart(Info(p.nodes[i]), Info(p.nodes[j]))
  }

  /** A rectangle apart from b is apart from everything inside b. */
  lemma {:induction false} ApartInside(a: RectInfo, b: RectInfo, c: RectInfo)
    requires Inside(a, b) && Apart(b, c)
    ensures Apart(a, c) && Apart(c, a)
  {
  }

  /** The two halves of a cut share no pixel. */
  lemma {:induction false} TilesApart(n: RectInfo, l: RectInfo, r: RectInfo)
    requires Tiles(n, l, r)
    ensures Apart(l, r) && Apart(r, l)
  {
  }

  /** A rectangle apart from both halves of a cut is apart from the whole. */
  lemma {:induction false} ApartBothHalves(n: RectInfo, l: RectInfo, r: RectInfo, x: RectInfo)
    requires Tiles(n, l, r) && Apart(x, l) && Apart(x, r)
    ensures Apart(x, n) && Apart(n, x)
  {
  }

  /** `Clear` leaves a single leaf, which overlaps nothing. */
  lemma {:induction false} PageRootApart(pageSize: Vec2i)
    ensures LeavesApart(PageRoot(pageSize))
  {
  }

  /** Marking a node used or free moves no rectangle. */
  lemma {:induction false} MarkApart(p: Pool, ref: RectRef, empty: bool)
    requires 0 <= ref < |p.nodes| && LeavesApart(p)
    ensures LeavesApart(Mark(p, ref, empty))
  {
    var q := Mark(p, ref, empty);
    forall i, j | Leaf(q, i) && Leaf(q, j) && i != j
      ensures Apart(Info(q.nodes[i]), Info(q.nodes[j]))
    {
      assert Leaf(p, i) && Leaf(p, j);
      assert Info(q.nodes[i]) == Info(p.nodes[i]) && Info(q.nodes[j]) == Info(p.nodes[j]);
    }
  }

  /**
   * `Divide` replaces the leaf `ref` by its two children: they cut it in
   * two, and lie within it, so they overlap neither each other nor any
   * other leaf.
   */
  lemma {:induction false} DivideApart(p: Pool, ref: RectRef, size: Vec2i)
    requires Sound(p) && Live(p, ref) && Splittable(p, ref, size) && Positive(size)
    requires LeavesApart(p)
    ensures LeavesApart(Divide(p, ref, size).0)
  {
    TwoSlots(p);
    DivideShape(p, ref, size);
    DivideTiles(p, ref, size);
    var (p1, left) := AllocRef(p);
    var (p2, right) := AllocRef(p1);
    var q := Divide(p, ref, size).0;
    var n := Info(p.nodes[ref]);
    assert Leaf(p, ref);
    TilesInside(n, Info(q.nodes[left]), Info(q.nodes[right]));
    TilesApart(n, Info(q.nodes[left]), Info(q.nodes[right]));
    forall i, j | Leaf(q, i) && Leaf(q, j) && i != j
      ensures Apart(Info(q.nodes[i]), Info(q.nodes[j]))
    {
      var iNew := i == left || i == right;
      var jNew := j == left || j == right;
      if !iNew {
        assert Leaf(p, i) && q.nodes[i] == p.nodes[i];
      }
      if !jNew {
        assert Leaf(p, j) && q.nodes[j] == p.nodes[j];
      }
      if iNew && !jNew {
        ApartInside(Info(q.nodes[i]), n, Info(p.nodes[j]));
      } else if !iNew && jNew {
        ApartInside(Info(q.nodes[j]), n, Info(p.nodes[i]));
      }
    }
  }

  /** `Alloc` keeps the leaves apart. */
  lemma {:induction false} AllocApart(p: Pool, ref: RectRef, size: Vec2i)
    requires Sound(p) && Live(p, ref) && Positive(size) && LeavesApart(p)
    ensures LeavesApart(AllocAt(p, ref, size).0)
    decreases Measure(p.nodes[ref].size)
  {
    var n := p.nodes[ref];
    if TooBig(n.size, size) {
    } else if HasChildren(n) {
      assert DownOk(p, ref);
      AllocApart(p, n.left, size);
      if AllocAt(p, n.left, size).1 < 0 {
        AllocApart(p, n.right, size);
      }
    } else if !n.empty {
    } else if Eq(Sub(n.size, size), Zero) {
      MarkApart(p, ref, false);
    } else {
      DivideSound(p, ref, size);
      DivideApart(p, ref, size);
      var d := Divide(p, ref, size);
      AllocApart(d.0, d.1, size);
    }
  }

  /**
   * One collapse of `Free` replaces two free leaves by their parent, which
   * is exactly their union, so it overlaps no other leaf.
   */
  lemma {:induction false} DetachApart(p: Pool, ref: RectRef)
    requires Sound(p) && Live(p, ref) && HasChildren(p.nodes[ref]) && Mergeable(p, ref)
    requires LeavesApart(p)
    ensures LeavesApart(Detach(p, ref))
  {
    var q := Detach(p, ref);
    var n := p.nodes[ref];
    assert DownOk(p, ref);
    assert q.free == p.free + [n.left, n.right];
    assert Leaf(p, n.left) && Leaf(p, n.right);
    forall i, j | Leaf(q, i) && Leaf(q, j) && i != j
      ensures Apart(Info(q.nodes[i]), Info(q.nodes[j]))
    {
      assert Info(q.nodes[i]) == Info(p.nodes[i]) && Info(q.nodes[j]) == Info(p.nodes[j]);
      if i == ref {
        assert Leaf(p, j) && j != n.left && j != n.right;
        ApartBothHalves(Info(n), Info(p.nodes[n.left]), Info(p.nodes[n.right]), Info(p.nodes[j]));
      } else if j == ref {
        assert Leaf(p, i) && i != n.left && i != n.right;
        ApartBothHalves(Info(n), Info(p.nodes[n.left]), Info(p.nodes[n.right]), Info(p.nodes[i]));
      } else {
        assert Leaf(p, i) && Leaf(p, j);
      }
    }
  }

  /** The walk of `Free` keeps the leaves apart. */
  lemma {:induction false} CollapseApart(p: Pool, ref: RectRef)
    requires Sound(p) && LeavesApart(p)
    requires ref >= 0 ==> Live(p, ref) && HasChildren(p.nodes[ref])
    ensures LeavesApart(Collapse(p, ref))
    decreases |p.nodes| - |p.free|
  {
    if ref >= 0 {
      var n := p.nodes[ref];
      assert DownOk(p, ref);
      if Mergeable(p, ref) {
        DetachSound(p, ref);
        DetachApart(p, ref);
        var q := Detach(p, ref);
        assert UpOk(q, ref);
        CollapseApart(q, n.parent);
      }
    }
  }

  /** `Free` keeps the leaves apart. */
  lemma {:induction false} ReleaseApart(p: Pool, ref: RectRef)
    requires Sound(p) && InUse(p, ref) && LeavesApart(p)
    ensures LeavesApart(Release(p, ref))
  {
    MarkSound(p, ref, true);
    MarkApart(p, ref, true);
    var q := Mark(p, ref, true);
    assert UpOk(q, ref);
    CollapseApart(q, q.nodes[ref].parent);
  }

  /**
   * What `Alloc` hands out overlaps no allocation that was live before it:
   * those stay where they were, and the new leaf is apart from every other
   * leaf.
   */
  lemma {:induction false} AllocDisjoint(p: Pool, size: Vec2i)
    requires Sound(p) && |p.nodes| > 0 && Positive(size) && LeavesApart(p)
    ensures Live(p, 0)
    ensures var r := AllocAt(p, 0, size);
      r.1 >= 0 ==> forall i :: InUse(p, i) ==> Apart(Info(r.0.nodes[r.1]), Info(p.nodes[i]))
  {
    assert Live(p, 0);
    var r := AllocAt(p, 0, size);
    AllocApart(p, 0, size);
    AllocKeepsUse(p, 0, size);
    if r.1 >= 0 {
      assert InUse(r.0, r.1) by {
        AllocSound(p, 0, size);
      }
      forall i | InUse(p, i)
        ensures Apart(Info(r.0.nodes[r.1]), Info(p.nodes[i]))
      {
        assert Leaf(r.0, i) && Leaf(r.0, r.1) && i != r.1;
      }
    }
  }
}
