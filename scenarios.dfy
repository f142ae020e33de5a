/**
 * Concrete runs of `pack` and `free_item` on small atlases, stated as lemmas
 * about `AtlasPack` and `AtlasFree`: each one pins down the positions the
 * allocator hands out for a fixed sequence of requests. The first lemmas are
 * the general steps the runs are made of.
 */
module Scenarios {
  import opened Wrappers
  import opened Spans
  import opened Shelves
  import opened Atlases

  // ---------------------------------------------------------------------------
  // Steps

  lemma {:induction false} MaxWidthOne(a: Span)
    requires 0 <= a.width
    ensures MaxWidth([a]) == a.width
  {
    assert [a][..0] == [];
  }

  lemma {:induction false} MaxWidthTwo(a: Span, b: Span)
    requires 0 <= a.width && 0 <= b.width
    ensures MaxWidth([a, b]) == MaxI(a.width, b.width)
  {
    assert [a, b][..1] == [a];
    MaxWidthOne(a);
  }

  /** With shelf k the first of exactly the requested height that fits, `pack` chooses k. */
  lemma {:induction false} ChooseExact(vs: seq<ShelfState>, w: int, h: int, k: nat)
    requires k < |vs| && Exact(vs[k], w, h)
    requires forall j :: 0 <= j < k ==> !Exact(vs[j], w, h)
    ensures Choose(vs, w, h) == Some(k)
  {
  }

  /** With no exact fit, `pack` chooses the earliest of the fitting shelves of least height. */
  lemma {:induction false} ChooseBest(vs: seq<ShelfState>, w: int, h: int, k: nat)
    requires forall j :: 0 <= j < |vs| ==> !Exact(vs[j], w, h)
    requires k < |vs| && Fits(vs[k], w, h)
    requires forall j :: 0 <= j < |vs| && Fits(vs[j], w, h) ==> vs[k].height <= vs[j].height
    requires forall j :: 0 <= j < k && Fits(vs[j], w, h) ==> vs[k].height < vs[j].height
    ensures Choose(vs, w, h) == Some(k)
  {
    BestFitSpec(vs, w, h);
  }

  /** `pack` on shelf k whose first free span is wide enough: the item goes at that span's left end. */
  lemma {:induction false} PlaceStep(vs: seq<ShelfState>, width: int, height: int, w: int, h: int, k: nat)
    requires Choose(vs, w, h) == Some(k) && k < |vs|
    requires 0 < |vs[k].spans| && w <= vs[k].spans[0].width && h <= vs[k].height
    ensures var v := vs[k];
            var e := Item(v.spans[0].x, v.y, w, h, v.index);
            AtlasPack(vs, width, height, w, h)
              == (vs[k := v.(spans := Carve(v.spans, 0, w), entries := v.entries + [e])], Some(e))
  {
    assert FirstFit(vs[k].spans, w) == Some(0);
  }

  /** `pack` when no shelf fits and there is room above the top: a new shelf holds the item at x = 0. */
  lemma {:induction false} OpenStep(vs: seq<ShelfState>, width: int, height: int, w: int, h: int)
    requires 0 < w < width && 0 < h <= height - TopY(vs)
    requires forall j :: 0 <= j < |vs| ==> !Fits(vs[j], w, h)
    ensures var e := Item(0, TopY(vs), w, h, |vs|);
            AtlasPack(vs, width, height, w, h)
              == (vs + [ShelfState(TopY(vs), h, |vs|, [Span(w, width - w)], [e])], Some(e))
  {
    ChooseSpec(vs, w, h);
    var e := Item(0, TopY(vs), w, h, |vs|);
    var v := NewShelf(TopY(vs), width, h, |vs|);
    assert v.spans == [Span(0, width)];
    assert FirstFit(v.spans, w) == Some(0);
    assert Carve(v.spans, 0, w) == [Span(w, width - w)];
    assert v.entries + [e] == [e];
    assert ShelfAlloc(v, w, h) == (ShelfState(TopY(vs), h, |vs|, [Span(w, width - w)], [e]), Some(e));
  }

  // ---------------------------------------------------------------------------
  // Runs on a 64 x 64 atlas

  const Sq0: Item := Item(0, 0, 10, 10, 0)
  const Sq1: Item := Item(10, 0, 10, 10, 0)
  const Sq2: Item := Item(20, 0, 10, 10, 0)

  /** The atlas after one, two and three 10 x 10 items. */
  const OneSquare: seq<ShelfState> := [ShelfState(0, 10, 0, [Span(10, 54)], [Sq0])]
  const TwoSquares: seq<ShelfState> := [ShelfState(0, 10, 0, [Span(20, 44)], [Sq0, Sq1])]
  const ThreeSquares: seq<ShelfState> := [ShelfState(0, 10, 0, [Span(30, 34)], [Sq0, Sq1, Sq2])]

  /** Items of the same height share the first shelf, left to right. */
  lemma {:induction false} SameHeightSameShelf()
    ensures AtlasPack([], 64, 64, 10, 10) == (OneSquare, Some(Sq0))
    ensures AtlasPack(OneSquare, 64, 64, 10, 10) == (TwoSquares, Some(Sq1))
    ensures AtlasPack(TwoSquares, 64, 64, 10, 10) == (ThreeSquares, Some(Sq2))
  {
    OpenStep([], 64, 64, 10, 10);
    assert [] + OneSquare == OneSquare;
    MaxWidthOne(Span(10, 54));
    ChooseExact(OneSquare, 10, 10, 0);
    PlaceStep(OneSquare, 64, 64, 10, 10, 0);
    assert Carve([Span(10, 54)], 0, 10) == [Span(20, 44)];
    assert [Sq0] + [Sq1] == [Sq0, Sq1];
    assert OneSquare[0 := TwoSquares[0]] == TwoSquares;
    MaxWidthOne(Span(20, 44));
    ChooseExact(TwoSquares, 10, 10, 0);
    PlaceStep(TwoSquares, 64, 64, 10, 10, 0);
    assert Carve([Span(20, 44)], 0, 10) == [Span(30, 34)];
    assert [Sq0, Sq1] + [Sq2] == [Sq0, Sq1, Sq2];
    assert TwoSquares[0 := ThreeSquares[0]] == ThreeSquares;
  }

  /** Releasing the middle square leaves a hole that the next square fills. */
  lemma {:induction false} PackUsesFreeSpace()
    ensures var vs := AtlasFree(ThreeSquares, Some(Sq1));
            AtlasPack(vs, 64, 64, 10, 10).1 == Some(Sq1)
  {
    var v := ThreeSquares[0];
    assert IndexOf(v.entries, Sq1) == 1;
    assert v.entries[1 := Sq2][..2] == [Sq0, Sq2];
    assert InsertPos([Span(30, 34)], 10) == 0;
    assert InsertAt([Span(30, 34)], 0, Span(10, 10)) == [Span(10, 10), Span(30, 34)];
    var vs := [ShelfState(0, 10, 0, [Span(10, 10), Span(30, 34)], [Sq0, Sq2])];
    assert AtlasFree(ThreeSquares, Some(Sq1)) == vs;
    MaxWidthTwo(Span(10, 10), Span(30, 34));
    ChooseExact(vs, 10, 10, 0);
    PlaceStep(vs, 64, 64, 10, 10, 0);
  }

  /** The atlas after a 10 x 10, a 10 x 15 and a 10 x 20 item: one shelf each, stacked. */
  const Tiers: seq<ShelfState> :=
    [ OneSquare[0]
    , ShelfState(10, 15, 1, [Span(10, 54)], [Item(0, 10, 10, 15, 1)])
    , ShelfState(25, 20, 2, [Span(10, 54)], [Item(0, 25, 10, 20, 2)]) ]

  /** A taller item opens a new shelf on top of the last one. */
  lemma {:induction false} LargerHeightNewShelf()
    ensures AtlasPack(OneSquare, 64, 64, 10, 15) == (Tiers[..2], Some(Item(0, 10, 10, 15, 1)))
  {
    assert OneSquare[..0] == [];
    assert TopY(OneSquare) == 10;
    OpenStep(OneSquare, 64, 64, 10, 15);
    assert OneSquare + [Tiers[1]] == Tiers[..2];
  }

  /** A still taller item opens a third shelf on top of the second. */
  lemma {:induction false} LargerHeightThirdShelf()
    ensures AtlasPack(Tiers[..2], 64, 64, 10, 20) == (Tiers, Some(Item(0, 25, 10, 20, 2)))
  {
    var two := Tiers[..2];
    assert TopY(two) == 25 by {
      assert two[..1] == OneSquare && OneSquare[..0] == [];
      assert TopY(OneSquare) == 10;
    }
    OpenStep(two, 64, 64, 10, 20);
    assert two + [Tiers[2]] == Tiers;
  }

  /** A shorter item goes to the existing shelf that wastes the least height. */
  lemma {:induction false} ShorterHeightBestShelf()
    ensures AtlasPack(Tiers, 64, 64, 10, 9).1 == Some(Item(10, 0, 10, 9, 0))
  {
    MaxWidthOne(Span(10, 54));
    ChooseBest(Tiers, 10, 9, 0);
    PlaceStep(Tiers, 64, 64, 10, 9, 0);
  }

  /** A shelf whose only item, at x = 0 and 10 wide, is released is whole again. */
  lemma {:induction false} ReleaseOnly(v: ShelfState, e: Item)
    requires v.spans == [Span(10, 54)] && v.entries == [e] && e.x == 0 && e.width == 10
    ensures ShelfRelease(v, e) == v.(spans := [Span(0, 64)], entries := [])
  {
    assert InsertPos([Span(10, 54)], 0) == 0;
    assert InsertAt([Span(10, 54)], 0, Span(0, 10)) == [Span(0, 10), Span(10, 54)];
    assert MergeNext([Span(0, 10), Span(10, 54)], 0) == [Span(0, 64)];
  }

  /** The first two shelves of `Tiers` after the 10 x 15 item is released. */
  const Halved: seq<ShelfState> := [Tiers[0], ShelfState(10, 15, 1, [Span(0, 64)], [])]

  /** Releasing the only item of the second shelf empties it and keeps its height. */
  lemma {:induction false} NewShelfReleased()
    ensures AtlasFree(Tiers[..2], Some(Tiers[1].entries[0])) == Halved
  {
    ReleaseOnly(Tiers[1], Tiers[1].entries[0]);
  }

  /** The first shelf fits a square exactly; the released, taller shelf is not used for it. */
  lemma {:induction false} NewShelfNotWasteful()
    ensures AtlasPack(Halved, 64, 64, 10, 10).1 == Some(Sq1)
  {
    MaxWidthOne(Span(10, 54));
    ChooseExact(Halved, 10, 10, 0);
    PlaceStep(Halved, 64, 64, 10, 10, 0);
  }

  /** `Halved` with a 10 x 13 item on its second shelf. */
  const Reused: seq<ShelfState> := [Tiers[0], ShelfState(10, 15, 1, [Span(10, 54)], [Item(0, 10, 10, 13, 1)])]

  /** The released shelf keeps its height 15: a 10 x 13 item goes there, since nothing fits exactly. */
  lemma {:induction false} ReleasedShelfReused()
    ensures AtlasPack(Halved, 64, 64, 10, 13) == (Reused, Some(Item(0, 10, 10, 13, 1)))
  {
    MaxWidthOne(Span(10, 54));
    MaxWidthOne(Span(0, 64));
    ChooseBest(Halved, 10, 13, 1);
    PlaceStep(Halved, 64, 64, 10, 13, 1);
    assert Carve([Span(0, 64)], 0, 10) == [Span(10, 54)];
    assert [] + [Item(0, 10, 10, 13, 1)] == [Item(0, 10, 10, 13, 1)];
    assert Halved[1 := Reused[1]] == Reused;
  }

  /** Releasing the 10 x 13 item empties the shelf again, height 15 and all. */
  lemma {:induction false} ReusedShelfReleased()
    ensures AtlasFree(Reused, Some(Item(0, 10, 10, 13, 1))) == Halved
  {
    ReleaseOnly(Reused[1], Item(0, 10, 10, 13, 1));
  }

  /** A 10 x 14 item then also goes to that shelf: the shelf's height, not its last item's, is what counts. */
  lemma {:induction false} ShelfKeepsMaxHeight()
    ensures AtlasPack(Halved, 64, 64, 10, 14).1 == Some(Item(0, 10, 10, 14, 1))
  {
    MaxWidthOne(Span(10, 54));
    MaxWidthOne(Span(0, 64));
    ChooseBest(Halved, 10, 14, 1);
    PlaceStep(Halved, 64, 64, 10, 14, 1);
  }

  /** Three empty shelves of heights 10, 15 and 20. */
  const EmptyTiers: seq<ShelfState> :=
    [ ShelfState(0, 10, 0, [Span(0, 64)], [])
    , ShelfState(10, 15, 1, [Span(0, 64)], [])
    , ShelfState(25, 20, 2, [Span(0, 64)], []) ]

  /** Releasing the only item, 10 columns at x = 0, of shelf k of a 64-column atlas. */
  lemma {:induction false} FreeOnly(vs: seq<ShelfState>, k: nat, e: Item)
    requires k < |vs| && e.shelfIndex == k
    requires vs[k].spans == [Span(10, 54)] && vs[k].entries == [e] && e.x == 0 && e.width == 10
    ensures AtlasFree(vs, Some(e)) == vs[k := vs[k].(spans := [Span(0, 64)], entries := [])]
  {
    ReleaseOnly(vs[k], e);
  }

  /** `Tiers` after its top item, and then its middle item, is released. */
  const TopFreed: seq<ShelfState> := [Tiers[0], Tiers[1], EmptyTiers[2]]
  const UpperFreed: seq<ShelfState> := [Tiers[0], EmptyTiers[1], EmptyTiers[2]]

  lemma {:induction false} ReleaseTop()
    ensures AtlasFree(Tiers, Some(Tiers[2].entries[0])) == TopFreed
  {
    FreeOnly(Tiers, 2, Tiers[2].entries[0]);
    assert Tiers[2 := EmptyTiers[2]] == TopFreed;
  }

  lemma {:induction false} ReleaseMiddle()
    ensures AtlasFree(TopFreed, Some(Tiers[1].entries[0])) == UpperFreed
  {
    FreeOnly(TopFreed, 1, Tiers[1].entries[0]);
    assert TopFreed[1 := EmptyTiers[1]] == UpperFreed;
  }

  lemma {:induction false} ReleaseBottom()
    ensures AtlasFree(UpperFreed, Some(Tiers[0].entries[0])) == EmptyTiers
  {
    FreeOnly(UpperFreed, 0, Tiers[0].entries[0]);
    assert UpperFreed[0 := EmptyTiers[0]] == EmptyTiers;
  }

  /** Releasing the three items, top shelf first, empties the three shelves and keeps them. */
  lemma {:induction false} ReleaseTiers()
    ensures AtlasFree(AtlasFree(AtlasFree(Tiers, Some(Tiers[2].entries[0])),
                                Some(Tiers[1].entries[0])), Some(Tiers[0].entries[0])) == EmptyTiers
  {
    ReleaseTop();
    ReleaseMiddle();
    ReleaseBottom();
  }

  /** A 10 x 13 item goes to the empty shelf of height 15, the least wasteful one. */
  lemma {:induction false} LeastWastefulFreeSpace()
    ensures AtlasPack(EmptyTiers, 64, 64, 10, 13).1 == Some(Item(0, 10, 10, 13, 1))
  {
    MaxWidthOne(Span(0, 64));
    ChooseBest(EmptyTiers, 10, 13, 1);
    PlaceStep(EmptyTiers, 64, 64, 10, 13, 1);
  }

  // ---------------------------------------------------------------------------
  // A run on a 30 x 45 atlas

  /** The 30 x 45 atlas after a 10 x 10, a 5 x 15 and a 25 x 15 item. */
  const Small1: seq<ShelfState> := [ShelfState(0, 10, 0, [Span(10, 20)], [Item(0, 0, 10, 10, 0)])]
  const Small2: seq<ShelfState> := Small1 + [ShelfState(10, 15, 1, [Span(5, 25)], [Item(0, 10, 5, 15, 1)])]
  const Small3: seq<ShelfState> :=
    Small1 + [ShelfState(10, 15, 1, [], [Item(0, 10, 5, 15, 1), Item(5, 10, 25, 15, 1)])]

  /** The first two items each open a shelf. */
  lemma {:induction false} MinimalSizeOpen()
    ensures AtlasPack([], 30, 45, 10, 10) == (Small1, Some(Item(0, 0, 10, 10, 0)))
    ensures AtlasPack(Small1, 30, 45, 5, 15) == (Small2, Some(Item(0, 10, 5, 15, 1)))
  {
    OpenStep([], 30, 45, 10, 10);
    assert [] + Small1 == Small1;
    assert Small1[..0] == [] && TopY(Small1) == 10;
    OpenStep(Small1, 30, 45, 5, 15);
  }

  /** A 25 x 15 item fits the second shelf exactly and takes all of its free span. */
  lemma {:induction false} MinimalSizeExact()
    ensures AtlasPack(Small2, 30, 45, 25, 15) == (Small3, Some(Item(5, 10, 25, 15, 1)))
  {
    MaxWidthOne(Span(10, 20));
    MaxWidthOne(Span(5, 25));
    ChooseExact(Small2, 25, 15, 1);
    PlaceStep(Small2, 30, 45, 25, 15, 1);
    assert Carve([Span(5, 25)], 0, 25) == [];
    assert [Item(0, 10, 5, 15, 1)] + [Item(5, 10, 25, 15, 1)] == Small3[1].entries;
    assert Small2[1 := Small3[1]] == Small3;
  }

  /** A 10 x 20 item fits neither shelf and opens a third one that ends at the canvas top. */
  lemma {:induction false} MinimalSizeTop()
    ensures AtlasPack(Small3, 30, 45, 10, 20).1 == Some(Item(0, 25, 10, 20, 2))
  {
    MaxWidthOne(Span(10, 20));
    assert Small3[..1] == Small1 && TopY(Small3) == 25;
    OpenStep(Small3, 30, 45, 10, 20);
  }

  // ---------------------------------------------------------------------------
  // A run on a 100 x 10 atlas: one shelf whose free spans are split and merged

  const ItemA: Item := Item(0, 0, 10, 10, 0)
  const ItemB: Item := Item(10, 0, 20, 10, 0)
  const ItemC: Item := Item(30, 0, 10, 10, 0)
  const ItemD: Item := Item(40, 0, 40, 10, 0)
  const ItemE: Item := Item(0, 0, 30, 10, 0)

  /** The atlas as its single shelf, with the given free spans and items. */
  function Row(spans: seq<Span>, entries: seq<Item>): seq<ShelfState>
  {
    [ShelfState(0, 10, 0, spans, entries)]
  }

  /** One pack of 10 high on the row, at the left end of its first free span. */
  lemma {:induction false} RowPack(spans: seq<Span>, entries: seq<Item>, w: int)
    requires 0 < |spans| && 0 < w <= spans[0].width
    requires forall i :: 0 <= i < |spans| ==> 0 <= spans[i].width <= spans[0].width
    ensures AtlasPack(Row(spans, entries), 100, 10, w, 10)
              == (Row(Carve(spans, 0, w), entries + [Item(spans[0].x, 0, w, 10, 0)]), Some(Item(spans[0].x, 0, w, 10, 0)))
  {
    var vs := Row(spans, entries);
    ChooseExact(vs, w, 10, 0);
    PlaceStep(vs, 100, 10, w, 10, 0);
    var e := Item(spans[0].x, 0, w, 10, 0);
    assert vs[0 := vs[0].(spans := Carve(spans, 0, w), entries := entries + [e])] == Row(Carve(spans, 0, w), entries + [e]);
  }

  /** The first item opens the row: A_________. */
  lemma {:induction false} CoalescingFillA()
    ensures AtlasPack([], 100, 10, 10, 10) == (Row([Span(10, 90)], [ItemA]), Some(ItemA))
  {
    OpenStep([], 100, 10, 10, 10);
    assert [] + Row([Span(10, 90)], [ItemA]) == Row([Span(10, 90)], [ItemA]);
  }

  /** The next three fill it from the left: ABBCDDDD__. */
  lemma {:induction false} CoalescingFillB()
    ensures AtlasPack(Row([Span(10, 90)], [ItemA]), 100, 10, 20, 10)
              == (Row([Span(30, 70)], [ItemA, ItemB]), Some(ItemB))
  {
    RowPack([Span(10, 90)], [ItemA], 20);
    assert Carve([Span(10, 90)], 0, 20) == [Span(30, 70)] && [ItemA] + [ItemB] == [ItemA, ItemB];
  }

  lemma {:induction false} CoalescingFillC()
    ensures AtlasPack(Row([Span(30, 70)], [ItemA, ItemB]), 100, 10, 10, 10)
              == (Row([Span(40, 60)], [ItemA, ItemB, ItemC]), Some(ItemC))
  {
    RowPack([Span(30, 70)], [ItemA, ItemB], 10);
    assert Carve([Span(30, 70)], 0, 10) == [Span(40, 60)] && [ItemA, ItemB] + [ItemC] == [ItemA, ItemB, ItemC];
  }

  lemma {:induction false} CoalescingFillD()
    ensures AtlasPack(Row([Span(40, 60)], [ItemA, ItemB, ItemC]), 100, 10, 40, 10)
              == (Row([Span(80, 20)], [ItemA, ItemB, ItemC, ItemD]), Some(ItemD))
  {
    RowPack([Span(40, 60)], [ItemA, ItemB, ItemC], 40);
    assert Carve([Span(40, 60)], 0, 40) == [Span(80, 20)];
    assert [ItemA, ItemB, ItemC] + [ItemD] == [ItemA, ItemB, ItemC, ItemD];
  }

  /** Releasing A frees the first ten columns: _BBCDDDD__. */
  lemma {:induction false} CoalescingReleaseA()
    ensures AtlasFree(Row([Span(80, 20)], [ItemA, ItemB, ItemC, ItemD]), Some(ItemA))
              == Row([Span(0, 10), Span(80, 20)], [ItemD, ItemB, ItemC])
  {
    assert [ItemA, ItemB, ItemC, ItemD][0 := ItemD][..3] == [ItemD, ItemB, ItemC];
    assert InsertAt([Span(80, 20)], 0, Span(0, 10)) == [Span(0, 10), Span(80, 20)];
  }

  /** Releasing C adds a span between the two: _BB_DDDD__. */
  lemma {:induction false} CoalescingReleaseC()
    ensures AtlasFree(Row([Span(0, 10), Span(80, 20)], [ItemD, ItemB, ItemC]), Some(ItemC))
              == Row([Span(0, 10), Span(30, 10), Span(80, 20)], [ItemD, ItemB])
  {
    assert IndexOf([ItemD, ItemB, ItemC], ItemC) == 2 && [ItemD, ItemB, ItemC][..2] == [ItemD, ItemB];
    assert InsertPos([Span(0, 10), Span(80, 20)], 30) == 1;
    assert InsertAt([Span(0, 10), Span(80, 20)], 1, Span(30, 10)) == [Span(0, 10), Span(30, 10), Span(80, 20)];
  }

  /** Releasing B joins its span with both neighbours: ____DDDD__. */
  lemma {:induction false} CoalescingReleaseB()
    ensures AtlasFree(Row([Span(0, 10), Span(30, 10), Span(80, 20)], [ItemD, ItemB]), Some(ItemB))
              == Row([Span(0, 40), Span(80, 20)], [ItemD])
  {
    assert IndexOf([ItemD, ItemB], ItemB) == 1 && [ItemD, ItemB][..1] == [ItemD];
    assert InsertPos([Span(0, 10), Span(30, 10), Span(80, 20)], 10) == 1;
    var four := [Span(0, 10), Span(10, 20), Span(30, 10), Span(80, 20)];
    assert InsertAt([Span(0, 10), Span(30, 10), Span(80, 20)], 1, Span(10, 20)) == four;
    assert MergeWithNext(four, 1) == [Span(0, 10), Span(10, 30), Span(80, 20)];
    assert MergeWithPrev([Span(0, 10), Span(10, 30), Span(80, 20)], 1) == [Span(0, 40), Span(80, 20)];
  }

  /** E takes three of A, B and C's four free columns: EEE_DDDD__. */
  lemma {:induction false} CoalescingRefill()
    ensures AtlasPack(Row([Span(0, 40), Span(80, 20)], [ItemD]), 100, 10, 30, 10)
              == (Row([Span(30, 10), Span(80, 20)], [ItemD, ItemE]), Some(ItemE))
  {
    MaxWidthTwo(Span(0, 40), Span(80, 20));
    RowPack([Span(0, 40), Span(80, 20)], [ItemD], 30);
    assert Carve([Span(0, 40), Span(80, 20)], 0, 30) == [Span(30, 10), Span(80, 20)];
    assert [ItemD] + [ItemE] == [ItemD, ItemE];
  }

  /** Releasing D joins its span with both neighbours: EEE_______. */
  lemma {:induction false} CoalescingReleaseD()
    ensures AtlasFree(Row([Span(30, 10), Span(80, 20)], [ItemD, ItemE]), Some(ItemD))
              == Row([Span(30, 70)], [ItemE])
  {
    assert [ItemD, ItemE][0 := ItemE][..1] == [ItemE];
    assert InsertPos([Span(30, 10), Span(80, 20)], 40) == 1;
    var three := [Span(30, 10), Span(40, 40), Span(80, 20)];
    assert InsertAt([Span(30, 10), Span(80, 20)], 1, Span(40, 40)) == three;
    assert MergeWithNext(three, 1) == [Span(30, 10), Span(40, 60)];
    assert MergeWithPrev([Span(30, 10), Span(40, 60)], 1) == [Span(30, 70)];
  }

  /** Releasing E leaves one span over the whole row, which a 90-wide item then uses. */
  lemma {:induction false} CoalescingReleaseE()
    ensures AtlasFree(Row([Span(30, 70)], [ItemE]), Some(ItemE)) == Row([Span(0, 100)], [])
    ensures AtlasPack(Row([Span(0, 100)], []), 100, 10, 90, 10).1 == Some(Item(0, 0, 90, 10, 0))
  {
    assert InsertAt([Span(30, 70)], 0, Span(0, 30)) == [Span(0, 30), Span(30, 70)];
    assert MergeWithNext([Span(0, 30), Span(30, 70)], 0) == [Span(0, 100)];
    MaxWidthOne(Span(0, 100));
    RowPack([Span(0, 100)], [], 90);
  }
}
