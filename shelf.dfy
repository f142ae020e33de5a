/**
 * One smol-atlas shelf (`smol_shelf_t`): a horizontal strip of the atlas at a
 * fixed y with a fixed height, a list of free spans and the items allocated on
 * it. `ShelfState` is the value of a shelf and `ShelfAlloc` / `ShelfRelease`
 * are the meaning of `alloc_item` / `free_item`; the `Shelf` class performs
 * them in place.
 */
module Shelves {
  import opened Wrappers
  import opened Spans

  /**
   * A packed rectangle (`smol_atlas_item_t`). Its position is fixed when it is
   * allocated; `shelfIndex` routes its release to its shelf.
   */
  datatype Item = Item(x: int, y: int, width: int, height: int, shelfIndex: int)
  {
    /** First column right of the item. */
    function Right(): int { x + width }
  }

  /** The value of a shelf: its fixed y, height and index, its free spans and its live items. */
  datatype ShelfState = ShelfState(y: int, height: int, index: int, spans: seq<Span>, entries: seq<Item>)

  /** The columns occupied by a list of items. */
  ghost function Used(entries: seq<Item>): set<int>
  {
    if entries == [] then {}
    else Used(entries[..|entries| - 1]) + Interval(entries[|entries| - 1].x, entries[|entries| - 1].width)
  }

  /** An item of a shelf lies in that shelf's strip, inside [0, limit), and is not empty. */
  ghost predicate ItemOn(v: ShelfState, e: Item, limit: int)
  {
    && e.y == v.y && 0 < e.height <= v.height && e.shelfIndex == v.index
    && 0 <= e.x && 0 < e.width && e.Right() <= limit
  }

  /** Two items share no column. */
  ghost predicate ItemsApart(a: Item, b: Item)
  {
    a.Right() <= b.x || b.Right() <= a.x
  }

  /**
   * What a shelf created `limit` columns wide keeps true: the free-span list
   * is well-formed, every item lies on the shelf, items are pairwise apart,
   * and free columns and item columns are disjoint and together are exactly
   * [0, limit).
   */
  ghost predicate ShelfInv(v: ShelfState, limit: int)
  {
    && 0 < v.height
    && WellFormed(v.spans, limit)
    && (forall i :: 0 <= i < |v.entries| ==> ItemOn(v, v.entries[i], limit))
    && (forall i, j :: 0 <= i < j < |v.entries| ==> ItemsApart(v.entries[i], v.entries[j]))
    && Cells(v.spans) !! Used(v.entries)
    && Cells(v.spans) + Used(v.entries) == Interval(0, limit)
  }

  /** A new shelf (`smol_shelf_t` constructor): one free span over the whole width, no items. */
  function NewShelf(y: int, limit: int, height: int, index: int): (v: ShelfState)
    ensures v.y == y && v.height == height && v.index == index && v.entries == []
    ensures Cells(v.spans) == Interval(0, limit)
  {
    CellsSingle(Span(0, limit));
    ShelfState(y, height, index, [Span(0, limit)], [])
  }

  /**
   * `alloc_item`: fails when the item is taller than the shelf or no free span
   * is w wide; otherwise places the item at the first such span and carves
   * the item's columns off that span.
   */
  function ShelfAlloc(v: ShelfState, w: int, h: int): (r: (ShelfState, Option<Item>))
    ensures r.1.None? <==> h > v.height || forall i :: 0 <= i < |v.spans| ==> v.spans[i].width < w
    ensures r.1.None? ==> r.0 == v
    ensures r.1.Some? ==>
              var e := r.1.value;
              && e.y == v.y && e.width == w && e.height == h && e.shelfIndex == v.index
              && (exists k :: 0 <= k < |v.spans| && v.spans[k].x == e.x && w <= v.spans[k].width
                              && forall i :: 0 <= i < k ==> v.spans[i].width < w)
              && r.0.entries == v.entries + [e]
    ensures (r.0.y, r.0.height, r.0.index) == (v.y, v.height, v.index)
  {
    if h > v.height then (v, None)
    else
      match FirstFit(v.spans, w)
      case None => (v, None)
      case Some(k) =>
        var e := Item(v.spans[k].x, v.y, w, h, v.index);
        (v.(spans := Carve(v.spans, k, w), entries := v.entries + [e]), Some(e))
  }

  /** The position of the first occurrence of e (`std::find`). */
  function IndexOf(s: seq<Item>, e: Item): (k: nat)
    requires e in s
    ensures k < |s| && s[k] == e
    ensures forall j :: 0 <= j < k ==> s[j] != e
  {
    if s[0] == e then 0 else 1 + IndexOf(s[1..], e)
  }

  /** Removal by moving the last element into position k and dropping the last slot. */
  function SwapRemove(s: seq<Item>, k: nat): (r: seq<Item>)
    requires k < |s|
    ensures |r| == |s| - 1
    ensures forall j :: 0 <= j < |r| && j != k ==> r[j] == s[j]
    ensures k < |r| ==> r[k] == s[|s| - 1]
    ensures multiset(r) == multiset(s) - multiset{s[k]}
  {
    var last := |s| - 1;
    if k < last then
      SwapRemoveMid(s, k);
      s[k := s[last]][..last]
    else
      assert s == s[..last] + [s[last]];
      s[..last]
  }

  /** Moving the last element into an earlier position k and dropping the last slot removes one copy of s[k]. */
  lemma {:induction false} SwapRemoveMid(s: seq<Item>, k: nat)
    requires k < |s| - 1
    ensures multiset(s[k := s[|s| - 1]][..|s| - 1]) == multiset(s) - multiset{s[k]}
  {
    var last := |s| - 1;
    var a, b := s[..k], s[k + 1..last];
    var m := multiset(a) + multiset(b) + multiset{s[last]};
    assert multiset(s) == m + multiset{s[k]} by {
      assert s == a + [s[k]] + b + [s[last]];
    }
    assert multiset(s[k := s[last]][..last]) == m by {
      assert s[k := s[last]][..last] == a + [s[last]] + b;
    }
  }

  /** `free_item`: give the item's columns back to the free spans and swap-remove the item. */
  function ShelfRelease(v: ShelfState, e: Item): (r: ShelfState)
    requires e in v.entries
    ensures (r.y, r.height, r.index) == (v.y, v.height, v.index)
    ensures multiset(r.entries) == multiset(v.entries) - multiset{e}
  {
    v.(spans := AddSpan(v.spans, e.x, e.width), entries := SwapRemove(v.entries, IndexOf(v.entries, e)))
  }

  // ---------------------------------------------------------------------------
  // Columns occupied by items

  lemma {:induction false} UsedSnoc(s: seq<Item>, e: Item)
    ensures Used(s + [e]) == Used(s) + Interval(e.x, e.width)
  {
    assert (s + [e])[..|s|] == s;
  }

  lemma {:induction false} UsedConcat(a: seq<Item>, b: seq<Item>)
    ensures Used(a + b) == Used(a) + Used(b)
  {
    if b == [] {
      assert a + b == a;
    } else {
      var b0, l := b[..|b| - 1], b[|b| - 1];
      assert a + b == (a + b0) + [l];
      assert b == b0 + [l];
      UsedConcat(a, b0);
      UsedSnoc(a + b0, l);
      UsedSnoc(b0, l);
    }
  }

  /** The columns of every item are columns of the list. */
  lemma {:induction false} ItemInUsed(s: seq<Item>, k: nat)
    requires k < |s|
    ensures Interval(s[k].x, s[k].width) <= Used(s)
  {
    assert s == s[..k] + [s[k]] + s[k + 1..];
    UsedConcat(s[..k] + [s[k]], s[k + 1..]);
    UsedSnoc(s[..k], s[k]);
  }

  /** Columns apart from every item of a list are not used by the list. */
  lemma {:induction false} UsedApart(s: seq<Item>, x: int, w: int)
    requires forall i :: 0 <= i < |s| ==> s[i].Right() <= x || x + w <= s[i].x
    ensures Interval(x, w) !! Used(s)
  {
    if s != [] {
      UsedApart(s[..|s| - 1], x, w);
    }
  }

  /** Swap-removing item k of a list a + [e] + b + [z] leaves a + [z] + b. */
  lemma {:induction false} SwapRemoveShape(s: seq<Item>, k: nat)
    requires k < |s| - 1
    ensures s == s[..k] + [s[k]] + s[k + 1..|s| - 1] + [s[|s| - 1]]
    ensures SwapRemove(s, k) == s[..k] + [s[|s| - 1]] + s[k + 1..|s| - 1]
  {
  }

  /** Used columns of a + [e] + b. */
  lemma {:induction false} UsedJoin(a: seq<Item>, e: Item, b: seq<Item>)
    ensures Used(a + [e] + b) == Used(a) + Interval(e.x, e.width) + Used(b)
  {
    UsedConcat(a + [e], b);
    UsedSnoc(a, e);
  }

  lemma {:induction false} Reorder(a: set<int>, e: set<int>, b: set<int>, z: set<int>)
    ensures (a + z + b) + e == (a + e + b) + z
  {
  }

  /** Used columns before and after moving z into the place of e. */
  lemma {:induction false} UsedSwapCore(a: seq<Item>, e: Item, b: seq<Item>, z: Item)
    ensures Used(a + [z] + b) + Interval(e.x, e.width) == Used(a + [e] + b + [z])
  {
    UsedJoin(a, z, b);
    UsedJoin(a, e, b);
    UsedSnoc(a + [e] + b, z);
    Reorder(Used(a), Interval(e.x, e.width), Used(b), Interval(z.x, z.width));
  }

  /** Dropping the last item takes exactly its columns out of the used columns. */
  lemma {:induction false} UsedDropLast(s: seq<Item>)
    requires s != []
    ensures Used(SwapRemove(s, |s| - 1)) + Interval(s[|s| - 1].x, s[|s| - 1].width) == Used(s)
  {
  }

  /** Swap-removing item k takes exactly that item's columns out of the used columns. */
  lemma {:induction false} UsedSwapRemove(s: seq<Item>, k: nat)
    requires k < |s|
    ensures Used(SwapRemove(s, k)) + Interval(s[k].x, s[k].width) == Used(s)
  {
    var last := |s| - 1;
    var e := s[k];
    if k < last {
      SwapRemoveShape(s, k);
      UsedSwapCore(s[..k], e, s[k + 1..last], s[last]);
    } else {
      UsedDropLast(s);
    }
  }

  /** Two non-empty intervals without a common column lie one after the other. */
  lemma {:induction false} IntervalsApart(x1: int, w1: int, x2: int, w2: int)
    requires 0 < w1 && 0 < w2
    requires Interval(x1, w1) !! Interval(x2, w2)
    ensures x1 + w1 <= x2 || x2 + w2 <= x1
  {
    var c := if x1 < x2 then x2 else x1;
    assert c !in Interval(x1, w1) || c !in Interval(x2, w2);
  }

  // ---------------------------------------------------------------------------
  // alloc_item keeps the shelf invariant

  /** Set algebra of an allocation: columns I move from the free set to the used set. */
  lemma {:induction false} AllocSets(c: set<int>, c': set<int>, i: set<int>, u: set<int>, full: set<int>)
    requires c' + i == c && c' !! i
    requires c !! u && c + u == full
    ensures c' !! u + i && c' + (u + i) == full
  {
  }

  /** An item carved out of the free columns lies apart from every live item. */
  lemma {:induction false} NewItemApart(s: seq<Item>, e: Item, free: set<int>)
    requires 0 < e.width && forall i :: 0 <= i < |s| ==> 0 < s[i].width
    requires Interval(e.x, e.width) <= free && free !! Used(s)
    ensures forall i :: 0 <= i < |s| ==> ItemsApart(s[i], e)
  {
    forall i | 0 <= i < |s|
      ensures ItemsApart(s[i], e)
    {
      ItemInUsed(s, i);
      IntervalsApart(s[i].x, s[i].width, e.x, e.width);
    }
  }

  /** The item `alloc_item` places lies on the shelf, inside [0, limit). */
  lemma {:induction false} AllocItemOn(v: ShelfState, limit: int, w: int, h: int)
    requires ShelfInv(v, limit) && 0 < w && 0 < h
    requires ShelfAlloc(v, w, h).1.Some?
    ensures ItemOn(v, ShelfAlloc(v, w, h).1.value, limit)
    ensures Interval(ShelfAlloc(v, w, h).1.value.x, w) <= Cells(v.spans)
  {
    var k := FirstFit(v.spans, w).value;
    SpanInCells(v.spans, k);
  }

  /** `alloc_item` keeps the free-span part of the invariant: well-formed spans, and free and used columns partitioning the shelf. */
  lemma {:induction false} AllocKeepsColumns(v: ShelfState, limit: int, w: int, h: int)
    requires ShelfInv(v, limit) && 0 < w && 0 < h
    requires ShelfAlloc(v, w, h).1.Some?
    ensures WellFormed(ShelfAlloc(v, w, h).0.spans, limit)
    ensures Cells(ShelfAlloc(v, w, h).0.spans) !! Used(ShelfAlloc(v, w, h).0.entries)
    ensures Cells(ShelfAlloc(v, w, h).0.spans) + Used(ShelfAlloc(v, w, h).0.entries) == Interval(0, limit)
  {
    var (v', r) := ShelfAlloc(v, w, h);
    var k := FirstFit(v.spans, w).value;
    var e := r.value;
    CarveWellFormed(v.spans, k, w, limit);
    Isolated(v.spans, k, limit);
    CarveCells(v.spans, k, w);
    UsedSnoc(v.entries, e);
    AllocSets(Cells(v.spans), Cells(v'.spans), Interval(e.x, w), Used(v.entries), Interval(0, limit));
  }

  /** `alloc_item` keeps the shelf invariant. */
  lemma {:induction false} AllocKeepsInv(v: ShelfState, limit: int, w: int, h: int)
    requires ShelfInv(v, limit) && 0 < w && 0 < h
    ensures ShelfInv(ShelfAlloc(v, w, h).0, limit)
  {
    var (v', r) := ShelfAlloc(v, w, h);
    if r.Some? {
      var e := r.value;
      assert v'.entries == v.entries + [e];
      AllocKeepsColumns(v, limit, w, h);
      AllocItemOn(v, limit, w, h);
      NewItemApart(v.entries, e, Cells(v.spans));
      AppendOn(v, v', e, limit);
      AppendApart(v.entries, e);
    }
  }

  /** Appending an item that lies on the shelf keeps every item on it, for a shelf at the same place. */
  lemma {:induction false} AppendOn(v: ShelfState, v': ShelfState, e: Item, limit: int)
    requires (v'.y, v'.height, v'.index) == (v.y, v.height, v.index) && v'.entries == v.entries + [e]
    requires forall i :: 0 <= i < |v.entries| ==> ItemOn(v, v.entries[i], limit)
    requires ItemOn(v, e, limit)
    ensures forall i :: 0 <= i < |v'.entries| ==> ItemOn(v', v'.entries[i], limit)
  {
    forall i | 0 <= i < |v'.entries|
      ensures ItemOn(v', v'.entries[i], limit)
    {
      if i < |v.entries| {
        assert v'.entries[i] == v.entries[i] && ItemOn(v, v.entries[i], limit);
      }
    }
  }

  /** Appending an item apart from all others keeps the items pairwise apart. */
  lemma {:induction false} AppendApart(s: seq<Item>, e: Item)
    requires forall i, j :: 0 <= i < j < |s| ==> ItemsApart(s[i], s[j])
    requires forall i :: 0 <= i < |s| ==> ItemsApart(s[i], e)
    ensures forall i, j :: 0 <= i < j < |s + [e]| ==> ItemsApart((s + [e])[i], (s + [e])[j])
  {
    var t := s + [e];
    forall i, j | 0 <= i < j < |t|
      ensures ItemsApart(t[i], t[j])
    {
      assert t[i] == s[i];
      if j < |s| {
        assert t[j] == s[j];
      }
    }
  }

  /** An allocated item never overlaps the items already on the shelf. */
  lemma {:induction false} AllocApart(v: ShelfState, limit: int, w: int, h: int)
    requires ShelfInv(v, limit) && 0 < w && 0 < h
    requires ShelfAlloc(v, w, h).1.Some?
    ensures forall i :: 0 <= i < |v.entries| ==> ItemsApart(v.entries[i], ShelfAlloc(v, w, h).1.value)
  {
    AllocItemOn(v, limit, w, h);
    NewItemApart(v.entries, ShelfAlloc(v, w, h).1.value, Cells(v.spans));
  }

  // ---------------------------------------------------------------------------
  // free_item keeps the shelf invariant

  /** Set algebra of a release: columns I move from the used set to the free set. */
  lemma {:induction false} ReleaseSets(c: set<int>, i: set<int>, u: set<int>, u': set<int>, full: set<int>)
    requires u' + i == u && u' !! i
    requires c !! u && c + u == full
    ensures c + i !! u' && (c + i) + u' == full
  {
  }

  /** Items of a list that are pairwise apart stay so, and apart from the removed one, after a swap-remove. */
  lemma {:induction false} SwapRemoveApart(s: seq<Item>, k: nat)
    requires k < |s|
    requires forall i, j :: 0 <= i < j < |s| ==> ItemsApart(s[i], s[j])
    ensures forall i, j :: 0 <= i < j < |SwapRemove(s, k)| ==> ItemsApart(SwapRemove(s, k)[i], SwapRemove(s, k)[j])
    ensures forall i :: 0 <= i < |SwapRemove(s, k)| ==> ItemsApart(SwapRemove(s, k)[i], s[k])
  {
    var t := SwapRemove(s, k);
    var last := |s| - 1;
    forall i | 0 <= i < |t|
      ensures t[i] == s[if i == k then last else i]
    {
    }
    forall i, j | 0 <= i < j < |t|
      ensures ItemsApart(t[i], t[j])
    {
      var a, b := if i == k then last else i, if j == k then last else j;
      assert a != b && t[i] == s[a] && t[j] == s[b];
      if a < b {
        assert ItemsApart(s[a], s[b]);
      } else {
        assert ItemsApart(s[b], s[a]);
      }
    }
    forall i | 0 <= i < |t|
      ensures ItemsApart(t[i], s[k])
    {
      var a := if i == k then last else i;
      assert a != k && t[i] == s[a];
      if a < k {
        assert ItemsApart(s[a], s[k]);
      } else {
        assert ItemsApart(s[k], s[a]);
      }
    }
  }

  /** Releasing a live item gives exactly its columns back to the free spans. */
  lemma {:induction false} ReleaseCells(v: ShelfState, limit: int, e: Item)
    requires ShelfInv(v, limit) && e in v.entries
    ensures WellFormed(ShelfRelease(v, e).spans, limit)
    ensures Cells(ShelfRelease(v, e).spans) == Cells(v.spans) + Interval(e.x, e.width)
  {
    var k := IndexOf(v.entries, e);
    assert ItemOn(v, v.entries[k], limit);
    ItemInUsed(v.entries, k);
    ApartFromCells(v.spans, e.x, e.width);
    AddSpanWellFormed(v.spans, e.x, e.width, limit);
    AddSpanCells(v.spans, e.x, e.width);
  }

  /** `free_item` keeps the shelf invariant. */
  lemma {:induction false} ReleaseKeepsInv(v: ShelfState, limit: int, e: Item)
    requires ShelfInv(v, limit) && e in v.entries
    ensures ShelfInv(ShelfRelease(v, e), limit)
  {
    var k := IndexOf(v.entries, e);
    var v' := ShelfRelease(v, e);
    ReleaseCells(v, limit, e);
    UsedSwapRemove(v.entries, k);
    SwapRemoveApart(v.entries, k);
    UsedApart(v'.entries, e.x, e.width);
    ReleaseSets(Cells(v.spans), Interval(e.x, e.width), Used(v.entries), Used(v'.entries), Interval(0, limit));
    RemoveOn(v, v', e, limit);
  }

  /** Removing one copy of an item keeps every remaining item on the shelf, for a shelf at the same place. */
  lemma {:induction false} RemoveOn(v: ShelfState, v': ShelfState, e: Item, limit: int)
    requires (v'.y, v'.height, v'.index) == (v.y, v.height, v.index)
    requires multiset(v'.entries) == multiset(v.entries) - multiset{e}
    requires forall i :: 0 <= i < |v.entries| ==> ItemOn(v, v.entries[i], limit)
    ensures forall i :: 0 <= i < |v'.entries| ==> ItemOn(v', v'.entries[i], limit)
  {
    forall i | 0 <= i < |v'.entries|
      ensures ItemOn(v', v'.entries[i], limit)
    {
      var x := v'.entries[i];
      assert x in multiset(v'.entries);
      assert x in v.entries;
      var j :| 0 <= j < |v.entries| && v.entries[j] == x;
      assert ItemOn(v, v.entries[j], limit);
    }
  }

  /** Under the shelf invariant the live items are distinct values, so an item is found at its own slot. */
  lemma {:induction false} IndexOfLast(s: seq<Item>, e: Item)
    requires 0 < e.width
    requires forall i :: 0 <= i < |s| ==> ItemsApart(s[i], e)
    ensures IndexOf(s + [e], e) == |s|
  {
    forall j | 0 <= j < |s|
      ensures (s + [e])[j] != e
    {
      assert ItemsApart(s[j], e);
    }
  }

  /**
   * Releasing the item that `alloc_item` just placed restores the shelf
   * exactly: the free-span list and the item list are back as they were.
   */
  lemma {:induction false} ReleaseAfterAlloc(v: ShelfState, limit: int, w: int, h: int)
    requires ShelfInv(v, limit) && 0 < w && 0 < h
    requires ShelfAlloc(v, w, h).1.Some?
    ensures ShelfRelease(ShelfAlloc(v, w, h).0, ShelfAlloc(v, w, h).1.value) == v
  {
    var (v', r) := ShelfAlloc(v, w, h);
    var e := r.value;
    var k := FirstFit(v.spans, w).value;
    AllocApart(v, limit, w, h);
    IndexOfLast(v.entries, e);
    CarveThenAddSpan(v.spans, k, w, limit);
    assert (v.entries + [e])[..|v.entries|] == v.entries;
  }

  /** A new shelf satisfies the invariant. */
  lemma {:induction false} NewShelfInv(y: int, limit: int, height: int, index: int)
    requires 0 < limit && 0 < height
    ensures ShelfInv(NewShelf(y, limit, height, index), limit)
  {
  }

  // ---------------------------------------------------------------------------
  // The shelf object

  /**
   * `smol_shelf_t`. The free-span list and the item list are updated in place
   * by the methods below; each method is proved to compute the value-level
   * operation it implements, so the lemmas above apply to the object.
   */
  class Shelf {
    const y: int
    const height: int
    const index: int
    /** The width the shelf was created with (the atlas width); the C++ shelf does not store it. */
    ghost const width: int
    var spans: seq<Span>
    var entries: seq<Item>

    /** The value of the shelf. */
    function State(): ShelfState
      reads this
    {
      ShelfState(y, height, index, spans, entries)
    }

    ghost predicate Valid()
      reads this
    {
      ShelfInv(State(), width)
    }

    /** `smol_shelf_t(y, width, height, index)`: one free span [0, width), no items. */
    constructor (y: int, width: int, height: int, index: int)
      requires 0 < width && 0 < height
      ensures State() == NewShelf(y, width, height, index)
      ensures this.width == width && Valid()
    {
      this.y := y;
      this.height := height;
      this.index := index;
      this.width := width;
      spans := [Span(0, width)];
      entries := [];
      new;
      NewShelfInv(y, width, height, index);
    }

    /** `calc_max_free_span`: the widest free span, 0 when there is none. */
    method CalcMaxFreeSpan() returns (m: int)
      ensures m == MaxWidth(spans)
    {
      m := 0;
      var i := 0;
      while i < |spans|
        invariant 0 <= i <= |spans|
        invariant m == MaxWidth(spans[..i])
      {
        assert spans[..i + 1][..i] == spans[..i];
        m := MaxI(m, spans[i].width);
        i := i + 1;
      }
      assert spans[..i] == spans;
    }

    /** `free_span_insert`: link `span` in after position `prev` (-1 for the head). */
    method FreeSpanInsert(prev: int, span: Span)
      requires -1 <= prev < |spans|
      modifies this
      ensures spans == InsertAt(old(spans), prev + 1, span)
      ensures entries == old(entries)
    {
      if prev == -1 {
        spans := [span] + spans;
      } else {
        spans := spans[..prev + 1] + [span] + spans[prev + 1..];
      }
    }

    /** `free_spans_remove`: unlink the span after position `prev` (-1 for the head). */
    method FreeSpansRemove(prev: int)
      requires -1 <= prev && prev + 1 < |spans|
      modifies this
      ensures spans == RemoveAt(old(spans), prev + 1)
      ensures entries == old(entries)
    {
      if prev == -1 {
        spans := spans[1..];
      } else {
        spans := spans[..prev + 1] + spans[prev + 2..];
      }
    }

    /**
     * `merge_free_spans(prev, span)` for the span at position prev + 1: first
     * absorb the next span if it touches, then let `prev` absorb the span if
     * they touch.
     */
    method MergeFreeSpans(prev: int)
      requires -1 <= prev && prev + 1 < |spans|
      modifies this
      ensures spans == MergeAt(old(spans), prev + 1)
      ensures entries == old(entries)
    {
      var k := prev + 1;
      ghost var s0 := spans;
      if k + 1 < |spans| && spans[k].x + spans[k].width == spans[k + 1].x {
        spans := spans[k := Span(spans[k].x, spans[k].width + spans[k + 1].width)];
        FreeSpansRemove(k);
      }
      assert spans == MergeWithNext(s0, k);
      ghost var s1 := spans;
      if prev != -1 && spans[prev].x + spans[prev].width == spans[k].x {
        spans := spans[prev := Span(spans[prev].x, spans[prev].width + spans[k].width)];
        FreeSpansRemove(prev);
      }
      assert spans == MergeWithPrev(s1, k);
    }

    /** The tail of `alloc_item`: span prev + 1 is shrunk from the left by w columns, or unlinked if nothing is left. */
    method CarveSpan(prev: int, w: int)
      requires -1 <= prev && prev + 1 < |spans|
      modifies this
      ensures spans == Carve(old(spans), prev + 1, w)
      ensures entries == old(entries)
    {
      var i := prev + 1;
      var rest := spans[i].width - w;
      if rest > 0 {
        spans := spans[i := Span(spans[i].x + w, spans[i].width - w)];
      } else {
        FreeSpansRemove(prev);
      }
    }

    /**
     * `alloc_item`: the first-fit scan over the free spans, then the span is
     * shrunk from the left or unlinked, and the item is appended.
     */
    method AllocItem(w: int, h: int) returns (e: Option<Item>)
      requires Valid() && 0 < w && 0 < h
      modifies this
      ensures (State(), e) == ShelfAlloc(old(State()), w, h)
      ensures Valid()
    {
      if h > height {
        return None;
      }
      var i, prev := 0, -1;
      while i < |spans|
        invariant 0 <= i <= |spans| && prev == i - 1
        invariant forall j :: 0 <= j < i ==> spans[j].width < w
      {
        if spans[i].width >= w {
          break;
        }
        prev := i;
        i := i + 1;
      }
      if i == |spans| {
        return None;
      }
      ghost var v := State();
      assert FirstFit(v.spans, w) == Some(i);
      var x := spans[i].x;
      CarveSpan(prev, w);
      var item := Item(x, y, w, h, index);
      entries := entries + [item];
      e := Some(item);
      assert ShelfAlloc(v, w, h) == (State(), e);
      AllocKeepsInv(v, width, w, h);
    }

    /**
     * `add_free_span`: scan for the first span that starts right of x, link
     * the new span in before it (or at the end), then merge it with its
     * neighbours.
     */
    method AddFreeSpan(x: int, w: int)
      modifies this
      ensures spans == AddSpan(old(spans), x, w)
      ensures entries == old(entries)
    {
      var span := Span(x, w);
      var i, prev := 0, -1;
      var added := false;
      while i < |spans|
        invariant 0 <= i <= |spans| && prev == i - 1
        invariant spans == old(spans) && entries == old(entries)
        invariant forall j :: 0 <= j < i ==> spans[j].x <= x
      {
        if x < spans[i].x {
          InsertPosIs(spans, x, i);
          FreeSpanInsert(prev, span);
          added := true;
          break;
        }
        prev := i;
        i := i + 1;
      }
      if !added {
        InsertPosIs(spans, x, i);
        FreeSpanInsert(prev, span);
      }
      MergeFreeSpans(prev);
    }

    /** `free_item`: give the item's columns back, then swap-remove the item from the entries. */
    method FreeItem(e: Item)
      requires Valid() && e in entries
      modifies this
      ensures State() == ShelfRelease(old(State()), e)
      ensures Valid()
    {
      ghost var v := State();
      AddFreeSpan(e.x, e.width);
      var i := IndexOf(entries, e);
      if i < |entries| - 1 {
        entries := entries[i := entries[|entries| - 1]];
      }
      entries := entries[..|entries| - 1];
      assert entries == SwapRemove(v.entries, i);
      assert State() == ShelfRelease(v, e);
      ReleaseKeepsInv(v, width, e);
    }
  }
}
