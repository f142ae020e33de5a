/**
 * `cRectAllocator` itself: the two vectors as sequence fields that its
 * methods update in place. Each method is proved to have the effect of the
 * function of the same name in `RectTree` on the pair of vectors, and to keep
 * the tree invariant `Sound` and the layout invariant `LeavesApart`.
 */
module RectAllocators {
  import opened RectTree
  import opened RectLayout

  class RectAllocator {
    /** `mSubRects`: the tree, addressed by index; slot 0 is the root. */
    var subRects: seq<SubRect>
    /** `mFreeSubRects`: the stack of slots to reuse. */
    var freeSubRects: seq<RectRef>

    /** The allocator's state as a value. */
    ghost function Value(): Pool
      reads this
    {
      Pool(subRects, freeSubRects)
    }

    ghost predicate Valid()
      reads this
    {
      Sound(Value()) && LeavesApart(Value())
    }

    /**
     * `cRectAllocator(pageSize, expected)`: the page becomes the root only
     * when its width is non-zero; `expected` only reserves capacity.
     */
    constructor (pageSize: Vec2i, expected: int)
      ensures Value() == if pageSize.x != 0 then PageRoot(pageSize) else Pool([], [])
      ensures Valid()
    {
      if pageSize.x != 0 {
        subRects := [FromInfo(RectTree.RectInfo(Zero, pageSize))];
      } else {
        subRects := [];
      }
      freeSubRects := [];
      PageRootApart(pageSize);
    }

    /** `Clear(pageSize)`: drop every node and every parked slot; the page becomes the root. */
    method Clear(pageSize: Vec2i)
      modifies this
      ensures Value() == PageRoot(pageSize) && Valid()
    {
      subRects := [];
      freeSubRects := [];
      subRects := subRects + [FromInfo(RectTree.RectInfo(Zero, pageSize))];
      PageRootApart(pageSize);
    }

    /** `Alloc(size)`: search from the root. */
    method Alloc(size: Vec2i) returns (ref: RectRef)
      requires Valid() && |subRects| > 0 && Positive(size)
      modifies this
      ensures (Value(), ref) == RectTree.AllocAt(old(Value()), 0, size)
      ensures Valid()
      ensures ref >= 0 ==> IsValid(ref) && RectInfo(ref).size == size
      ensures ref < 0 <==> forall i :: Live(old(Value()), i) ==> !HoldsFree(old(Value()), i, size)
      ensures ref >= 0 ==> forall i :: InUse(old(Value()), i) ==> Apart(Info(subRects[ref]), Info(old(subRects)[i]))
    {
      assert Live(Value(), 0);
      ghost var p := Value();
      AllocFailsIffFull(p, size);
      AllocDisjoint(p, size);
      ref := AllocAt(0, size);
      AllocSound(p, 0, size);
      AllocApart(p, 0, size);
    }

    /** `Free(ref)`: mark the leaf free and collapse up the parent links. */
    method Free(ref: RectRef)
      requires Valid() && InUse(Value(), ref)
      modifies this
      ensures Value() == Release(old(Value()), ref)
      ensures Valid()
    {
      ghost var p := Value();
      ReleaseApart(p, ref);
      MarkSound(p, ref, true);
      subRects := subRects[ref := subRects[ref].(empty := true)];
      assert Value() == Mark(p, ref, true);
      assert UpOk(Value(), ref);
      DistinctBound(freeSubRects, |subRects|);
      var cur := subRects[ref].parent;
      while cur >= 0
        invariant Sound(Value()) && |freeSubRects| <= |subRects|
        invariant cur >= 0 ==> Live(Value(), cur) && HasChildren(subRects[cur])
        invariant Collapse(Value(), cur) == Release(p, ref)
        decreases |subRects| - |freeSubRects|
      {
        assert DownOk(Value(), cur);
        var left := subRects[cur].left;
        var right := subRects[cur].right;
        if HasChildren(subRects[left]) || !subRects[left].empty {
          break;
        }
        if HasChildren(subRects[right]) || !subRects[right].empty {
          break;
        }
        ghost var q := Value();
        subRects := subRects[cur := subRects[cur].(left := NULL_REF, right := NULL_REF)];
        FreeRef(left);
        FreeRef(right);
        assert Value() == Detach(q, cur);
        DetachSound(q, cur);
        assert UpOk(Value(), cur);
        cur := subRects[cur].parent;
      }
    }

    /** `AddUsedRects`: append the used leaves, by increasing index. */
    method AddUsedRects(refs: seq<RectRef>) returns (out: seq<RectRef>)
      ensures out == refs + Leaves(subRects, false)
    {
      out := refs;
      var i := 0;
      while i < |subRects|
        invariant 0 <= i <= |subRects|
        invariant out == refs + LeavesBelow(subRects, i, false)
      {
        if !HasChildren(subRects[i]) && !subRects[i].empty {
          out := out + [i];
        }
        i := i + 1;
      }
    }

    /** `AddUnusedRects`: append the free leaves, by increasing index. */
    method AddUnusedRects(refs: seq<RectRef>) returns (out: seq<RectRef>)
      ensures out == refs + Leaves(subRects, true)
    {
      out := refs;
      var i := 0;
      while i < |subRects|
        invariant 0 <= i <= |subRects|
        invariant out == refs + LeavesBelow(subRects, i, true)
      {
        if !HasChildren(subRects[i]) && subRects[i].empty {
          out := out + [i];
        }
        i := i + 1;
      }
    }

    /** The recursive `Alloc(ref, size)`. */
    method AllocAt(ref: RectRef, size: Vec2i) returns (r: RectRef)
      requires Sound(Value()) && Live(Value(), ref) && Positive(size)
      modifies this
      ensures (Value(), r) == RectTree.AllocAt(old(Value()), ref, size)
      decreases Measure(subRects[ref].size)
    {
      if subRects[ref].size.x < size.x || subRects[ref].size.y < size.y {
        return NULL_REF;
      }
      if HasChildren(subRects[ref]) {
        assert DownOk(Value(), ref);
        r := AllocAt(subRects[ref].left, size);
        if r < 0 {
          r := AllocAt(subRects[ref].right, size);
        }
        return;
      }
      if !subRects[ref].empty {
        return NULL_REF;
      }
      var rsize := Sub(subRects[ref].size, size);
      if Eq(rsize, Zero) {
        subRects := subRects[ref := subRects[ref].(empty := false)];
        return ref;
      }
      ghost var p := Value();
      var left := Split(ref, size, rsize);
      DivideSound(p, ref, size);
      r := AllocAt(left, size);
    }

    /**
     * The split step of `Alloc`: two slots become the children of `ref`,
     * cut along x when the remainder `rsize` is wider than it is tall and
     * along y otherwise. Returns the left child.
     */
    method Split(ref: RectRef, size: Vec2i, rsize: Vec2i) returns (left: RectRef)
      requires FreeOk(Value()) && ParkedOk(Value()) && 0 <= ref < |subRects| && ref !in freeSubRects
      requires rsize == Sub(subRects[ref].size, size)
      modifies this
      ensures (Value(), left) == Divide(old(Value()), ref, size)
    {
      ghost var p := Value();
      TwoSlots(p);
      left := AllocRef();
      var right := AllocRef();
      WriteChildren(ref, left, right, size, rsize);
    }

    /** The node writes of the split step, in the order `Alloc` makes them. */
    method WriteChildren(ref: RectRef, left: RectRef, right: RectRef, size: Vec2i, rsize: Vec2i)
      requires 0 <= ref < |subRects| && 0 <= left < |subRects| && 0 <= right < |subRects|
      requires ref != left && ref != right && left != right
      requires rsize == Sub(subRects[ref].size, size)
      modifies this
      ensures subRects == Link(old(subRects), ref, left, right, size)
      ensures freeSubRects == old(freeSubRects)
    {
      var n := subRects[ref];
      subRects := subRects[ref := n.(left := left, right := right)];
      if rsize.x > rsize.y {
        subRects := subRects[left := FromInfo(RectTree.RectInfo(n.origin, Vec2i(size.x, n.size.y)))];
        subRects := subRects[right := FromInfo(RectTree.RectInfo(n.origin, Vec2i(rsize.x, n.size.y)))];
        subRects := subRects[right := subRects[right].(origin := Vec2i(subRects[right].origin.x + size.x, subRects[right].origin.y))];
      } else {
        subRects := subRects[left := FromInfo(RectTree.RectInfo(n.origin, Vec2i(n.size.x, size.y)))];
        subRects := subRects[right := FromInfo(RectTree.RectInfo(n.origin, Vec2i(n.size.x, rsize.y)))];
        subRects := subRects[right := subRects[right].(origin := Vec2i(subRects[right].origin.x, subRects[right].origin.y + size.y))];
      }
      subRects := subRects[left := subRects[left].(parent := ref)];
      subRects := subRects[right := subRects[right].(parent := ref)];
    }

    /** `AllocRef`: reuse the slot parked last, or grow the vector by one node. */
    method AllocRef() returns (ref: RectRef)
      modifies this
      ensures (Value(), ref) == RectTree.AllocRef(old(Value()))
    {
      if freeSubRects != [] {
        ref := freeSubRects[|freeSubRects| - 1];
        freeSubRects := freeSubRects[..|freeSubRects| - 1];
        return;
      }
      ref := |subRects|;
      subRects := subRects + [FromInfo(DefaultInfo)];
    }

    /** `FreeRef`: park a slot for reuse. */
    method FreeRef(ref: RectRef)
      requires ref >= 0
      modifies this
      ensures Value() == RectTree.FreeRef(old(Value()), ref)
    {
      freeSubRects := freeSubRects + [ref];
    }

    /** `IsValid(ref)`: the ref names a leaf, which is what the two listings together report. */
    function IsValid(ref: RectRef): (b: bool)
      reads this
      ensures b <==> ref in Leaves(subRects, true) || ref in Leaves(subRects, false)
    {
      LeavesBelowSpec(subRects, |subRects|, true);
      LeavesBelowSpec(subRects, |subRects|, false);
      0 <= ref < |subRects| && !HasChildren(subRects[ref])
    }

    /**
     * `RectInfo(ref)`: the rectangle of a leaf; a live one lies within the
     * page, and an allocation shares no pixel with any other allocation.
     */
    function RectInfo(ref: RectRef): (r: RectTree.RectInfo)
      reads this
      requires IsValid(ref)
      ensures Valid() && Live(Value(), ref) ==> Inside(r, Info(subRects[0]))
      ensures Valid() && InUse(Value(), ref) ==>
                forall j :: InUse(Value(), j) && j != ref ==> Apart(r, Info(subRects[j]))
    {
      Info(subRects[ref])
    }
  }
}
