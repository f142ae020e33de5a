/**
 * The smol-atlas allocator (`smol_atlas_t`): a canvas of fixed width and
 * height and an append-only list of shelves stacked from y = 0 upwards.
 * `AtlasPack` and `AtlasFree` are the meaning of `pack` and `free_item` on
 * the values of the shelves; the `Atlas` class performs them on `Shelf`
 * objects.
 */
module Atlases {
  import opened Wrappers
  import opened Spans
  import opened Shelves

  /** The default for a non-positive canvas dimension. */
  const DEFAULT_SIZE: int := 64

  /** The sentinel `best_score` starts from. */
  const NO_SCORE: int := 0x7fff_ffff

  /** The stored canvas dimension for a requested one: non-positive requests become 64. */
  function CanvasSize(n: int): (r: int)
    ensures 0 < r
    ensures 0 < n ==> r == n
    ensures n <= 0 ==> r == DEFAULT_SIZE
  {
    if n > 0 then n else DEFAULT_SIZE
  }

  /** `pack`'s test of a shelf: tall enough, and a free span at least w wide. */
  predicate Fits(v: ShelfState, w: int, h: int)
  {
    h <= v.height && w <= MaxWidth(v.spans)
  }

  /** A shelf that fits and has exactly the requested height. */
  predicate Exact(v: ShelfState, w: int, h: int)
  {
    Fits(v, w, h) && v.height == h
  }

  /** The first shelf of exactly the requested height that fits: `pack` returns on it at once. */
  function FirstExact(vs: seq<ShelfState>, w: int, h: int): (r: Option<nat>)
    ensures r.Some? ==> r.value < |vs| && Exact(vs[r.value], w, h)
    ensures r.Some? ==> forall j :: 0 <= j < r.value ==> !Exact(vs[j], w, h)
    ensures r.None? <==> forall j :: 0 <= j < |vs| ==> !Exact(vs[j], w, h)
  {
    if vs == [] then None
    else if Exact(vs[0], w, h) then Some(0)
    else
      match FirstExact(vs[1..], w, h)
      case None => None
      case Some(k) => Some(k + 1)
  }

  /**
   * The best shelf of the scan: among the shelves that fit, the one that
   * wastes the least height (`shelf_h - h`), the earliest one on a tie
   * (see `BestFitSpec`).
   */
  function BestFit(vs: seq<ShelfState>, w: int, h: int): (r: Option<nat>)
    ensures r.Some? ==> r.value < |vs|
  {
    if vs == [] then None
    else
      var n := |vs| - 1;
      var b := BestFit(vs[..n], w, h);
      if Fits(vs[n], w, h) && (b.None? || vs[n].height - h < vs[b.value].height - h) then Some(n) else b
  }

  /**
   * What the best-fit scan finds: a fitting shelf of least height, with every
   * earlier fitting shelf strictly taller; nothing only when no shelf fits.
   */
  lemma {:induction false} BestFitSpec(vs: seq<ShelfState>, w: int, h: int)
    ensures var r := BestFit(vs, w, h);
            && (r.Some? ==> Fits(vs[r.value], w, h))
            && (r.Some? ==> forall j :: 0 <= j < |vs| && Fits(vs[j], w, h) ==> vs[r.value].height <= vs[j].height)
            && (r.Some? ==> forall j :: 0 <= j < r.value && Fits(vs[j], w, h) ==> vs[r.value].height < vs[j].height)
            && (r.None? <==> forall j :: 0 <= j < |vs| ==> !Fits(vs[j], w, h))
  {
    if vs != [] {
      var n := |vs| - 1;
      BestFitSpec(vs[..n], w, h);
      assert forall j :: 0 <= j < n ==> vs[..n][j] == vs[j];
    }
  }

  /** The shelf `pack` allocates on, if any: the first exact fit, otherwise the best fit. */
  function Choose(vs: seq<ShelfState>, w: int, h: int): (r: Option<nat>)
    ensures r.Some? ==> r.value < |vs|
  {
    match FirstExact(vs, w, h)
    case Some(i) => Some(i)
    case None => BestFit(vs, w, h)
  }

  /** `pack` chooses a shelf that fits, and chooses none only when no shelf fits. */
  lemma {:induction false} ChooseSpec(vs: seq<ShelfState>, w: int, h: int)
    ensures Choose(vs, w, h).Some? ==> Fits(vs[Choose(vs, w, h).value], w, h)
    ensures Choose(vs, w, h).None? <==> forall j :: 0 <= j < |vs| ==> !Fits(vs[j], w, h)
  {
    BestFitSpec(vs, w, h);
  }

  /** `top_y`: the highest shelf top, 0 without shelves. */
  function TopY(vs: seq<ShelfState>): (t: int)
    ensures 0 <= t
    ensures forall i :: 0 <= i < |vs| ==> vs[i].y + vs[i].height <= t
  {
    if vs == [] then 0
    else MaxI(TopY(vs[..|vs| - 1]), vs[|vs| - 1].y + vs[|vs| - 1].height)
  }

  /**
   * `pack(w, h)`: allocate on the chosen shelf; when no shelf fits, open a new
   * shelf of height h at the top if the item fits the canvas width and the
   * height left above the top; otherwise fail.
   */
  function AtlasPack(vs: seq<ShelfState>, width: int, height: int, w: int, h: int): (r: (seq<ShelfState>, Option<Item>))
  {
    match Choose(vs, w, h)
    case Some(i) =>
      var (v', e) := ShelfAlloc(vs[i], w, h);
      (vs[i := v'], e)
    case None =>
      var top := TopY(vs);
      if w <= width && h <= height - top then
        var (v', e) := ShelfAlloc(NewShelf(top, width, h, |vs|), w, h);
        (vs + [v'], e)
      else (vs, None)
  }

  /** The items `free_item` accepts: `null`, or a live item of the shelf its index names. */
  ghost predicate Releasable(vs: seq<ShelfState>, item: Option<Item>)
  {
    item.Some? ==> 0 <= item.value.shelfIndex < |vs| && item.value in vs[item.value.shelfIndex].entries
  }

  /** `free_item`: `null` is ignored; otherwise the item's shelf releases it. */
  function AtlasFree(vs: seq<ShelfState>, item: Option<Item>): (r: seq<ShelfState>)
    requires item.Some? ==> 0 <= item.value.shelfIndex < |vs| && item.value in vs[item.value.shelfIndex].entries
    ensures |r| == |vs|
    ensures item.None? ==> r == vs
  {
    match item
    case None => vs
    case Some(e) => vs[e.shelfIndex := ShelfRelease(vs[e.shelfIndex], e)]
  }

  /** Shelves are stacked without gaps from y = 0: each starts where the previous one ends. */
  ghost predicate Stacked(vs: seq<ShelfState>)
  {
    && (0 < |vs| ==> vs[0].y == 0)
    && (forall i :: 0 < i < |vs| ==> vs[i].y == vs[i - 1].y + vs[i - 1].height)
  }

  /**
   * What the atlas keeps true: the canvas has positive 32-bit dimensions,
   * every shelf keeps the shelf invariant for the canvas width and knows its
   * own index, the shelves are stacked, and the top shelf ends inside the
   * canvas.
   */
  ghost predicate AtlasInv(vs: seq<ShelfState>, width: int, height: int)
  {
    && 0 < width <= INT_MAX && 0 < height <= INT_MAX
    && (forall i :: 0 <= i < |vs| ==> ShelfInv(vs[i], width) && vs[i].index == i)
    && Stacked(vs)
    && TopY(vs) <= height
  }

  // ---------------------------------------------------------------------------
  // Shelf geometry

  /** The shelves are stacked, so every shelf lies below every later one. */
  lemma {:induction false} StackedBelow(vs: seq<ShelfState>, i: nat, j: nat)
    requires Stacked(vs) && forall k :: 0 <= k < |vs| ==> 0 < vs[k].height
    requires i < j < |vs|
    ensures vs[i].y + vs[i].height <= vs[j].y
  {
    if i < j - 1 {
      StackedBelow(vs, i, j - 1);
    }
  }

  /** Stacked shelves start at non-negative y, and the top is the end of the last shelf. */
  lemma {:induction false} StackedTop(vs: seq<ShelfState>)
    requires Stacked(vs) && forall k :: 0 <= k < |vs| ==> 0 < vs[k].height
    ensures forall i :: 0 <= i < |vs| ==> 0 <= vs[i].y
    ensures TopY(vs) == if vs == [] then 0 else vs[|vs| - 1].y + vs[|vs| - 1].height
  {
    if vs != [] {
      var p := vs[..|vs| - 1];
      assert Stacked(p);
      StackedTop(p);
      assert forall i :: 0 <= i < |p| ==> p[i] == vs[i];
    }
  }

  /** The top of the shelves after one more shelf is put on them. */
  lemma {:induction false} TopYSnoc(vs: seq<ShelfState>, v: ShelfState)
    ensures TopY(vs + [v]) == MaxI(TopY(vs), v.y + v.height)
  {
    assert (vs + [v])[..|vs|] == vs;
  }

  /** The top of the shelves depends only on their y and height. */
  lemma {:induction false} TopYSameGeometry(vs: seq<ShelfState>, ws: seq<ShelfState>)
    requires |vs| == |ws|
    requires forall i :: 0 <= i < |vs| ==> vs[i].y == ws[i].y && vs[i].height == ws[i].height
    ensures TopY(vs) == TopY(ws)
  {
    if vs != [] {
      TopYSameGeometry(vs[..|vs| - 1], ws[..|ws| - 1]);
    }
  }

  /** Every item of an atlas lies inside the canvas. */
  lemma {:induction false} ItemInCanvas(vs: seq<ShelfState>, width: int, height: int, i: nat, a: nat)
    requires AtlasInv(vs, width, height)
    requires i < |vs| && a < |vs[i].entries|
    ensures var e := vs[i].entries[a];
            0 <= e.x && e.x + e.width <= width && 0 <= e.y && e.y + e.height <= height
  {
    StackedTop(vs);
    assert ItemOn(vs[i], vs[i].entries[a], width);
  }

  /**
   * Live items never overlap: two different item slots of an atlas hold
   * rectangles that are apart horizontally or vertically.
   */
  lemma {:induction false} ItemsNeverOverlap(vs: seq<ShelfState>, width: int, height: int, i: nat, a: nat, j: nat, b: nat)
    requires AtlasInv(vs, width, height)
    requires i < |vs| && a < |vs[i].entries| && j < |vs| && b < |vs[j].entries|
    requires (i, a) != (j, b)
    ensures var e, f := vs[i].entries[a], vs[j].entries[b];
            e.x + e.width <= f.x || f.x + f.width <= e.x || e.y + e.height <= f.y || f.y + f.height <= e.y
  {
    var e, f := vs[i].entries[a], vs[j].entries[b];
    assert ItemOn(vs[i], e, width) && ItemOn(vs[j], f, width);
    if i < j {
      StackedBelow(vs, i, j);
    } else if j < i {
      StackedBelow(vs, j, i);
    } else if a < b {
      assert ItemsApart(e, f);
    } else {
      assert ItemsApart(f, e);
    }
  }

  // ---------------------------------------------------------------------------
  // pack

  /** A shelf that fits has a free span w wide, so allocating on it succeeds. */
  lemma {:induction false} FitsAllocates(v: ShelfState, w: int, h: int)
    requires 0 < w && Fits(v, w, h)
    ensures ShelfAlloc(v, w, h).1.Some?
  {
  }

  /** The exact-height shortcut never changes the choice: the first exact fit is also the best fit. */
  lemma {:induction false} ExactIsBest(vs: seq<ShelfState>, w: int, h: int)
    requires FirstExact(vs, w, h).Some?
    ensures BestFit(vs, w, h) == FirstExact(vs, w, h)
  {
    BestFitSpec(vs, w, h);
    var k := FirstExact(vs, w, h).value;
    var b := BestFit(vs, w, h).value;
    assert vs[b].height <= vs[k].height;
    assert Fits(vs[b], w, h);
    if b < k {
      assert false;
    } else if k < b {
      assert false;
    }
  }

  /** `pack` fails exactly when no shelf fits and a new shelf does not fit the canvas. */
  lemma {:induction false} PackFails(vs: seq<ShelfState>, width: int, height: int, w: int, h: int)
    requires 0 < w && 0 < h
    ensures AtlasPack(vs, width, height, w, h).1.None? <==>
              (forall j :: 0 <= j < |vs| ==> !Fits(vs[j], w, h)) && !(w <= width && h <= height - TopY(vs))
  {
    ChooseSpec(vs, w, h);
    match Choose(vs, w, h)
    case Some(i) =>
      FitsAllocates(vs[i], w, h);
    case None =>
      if w <= width && h <= height - TopY(vs) {
        assert NewShelf(TopY(vs), width, h, |vs|).spans[0].width >= w;
      }
  }

  /**
   * When a shelf fits, `pack` places the item on the chosen shelf: at that
   * shelf's y, in its first free span at least w wide, and no other shelf
   * changes.
   */
  lemma {:induction false} PackOnShelf(vs: seq<ShelfState>, width: int, height: int, w: int, h: int)
    requires 0 < w && 0 < h
    requires Choose(vs, w, h).Some?
    ensures var i := Choose(vs, w, h).value;
            var (vs', r) := AtlasPack(vs, width, height, w, h);
            && |vs'| == |vs| && r.Some?
            && r.value.y == vs[i].y && r.value.shelfIndex == vs[i].index
            && r.value.width == w && r.value.height == h
            && FirstFit(vs[i].spans, w).Some?
            && r.value.x == vs[i].spans[FirstFit(vs[i].spans, w).value].x
            && (forall j :: 0 <= j < |vs| && j != i ==> vs'[j] == vs[j])
  {
    ChooseSpec(vs, w, h);
    FitsAllocates(vs[Choose(vs, w, h).value], w, h);
  }

  /**
   * When no shelf fits but the canvas has room, `pack` opens a shelf of
   * height h at the top of the stack, with the next index, and puts the item
   * at its left end.
   */
  lemma {:induction false} PackNewShelf(vs: seq<ShelfState>, width: int, height: int, w: int, h: int)
    requires 0 < w && 0 < h
    requires forall j :: 0 <= j < |vs| ==> !Fits(vs[j], w, h)
    requires w <= width && h <= height - TopY(vs)
    ensures var (vs', r) := AtlasPack(vs, width, height, w, h);
            && vs'[..|vs|] == vs && |vs'| == |vs| + 1
            && vs'[|vs|].y == TopY(vs) && vs'[|vs|].height == h && vs'[|vs|].index == |vs|
            && r == Some(Item(0, TopY(vs), w, h, |vs|))
  {
    ChooseSpec(vs, w, h);
    var v := NewShelf(TopY(vs), width, h, |vs|);
    assert v.spans == [Span(0, width)];
    assert FirstFit(v.spans, w) == Some(0);
    var v' := ShelfAlloc(v, w, h).0;
    assert AtlasPack(vs, width, height, w, h) == (vs + [v'], Some(Item(0, TopY(vs), w, h, |vs|)));
    assert (vs + [v'])[..|vs|] == vs;
  }

  /** Allocating on shelf i keeps the atlas invariant. */
  lemma {:induction false} PackOnShelfKeepsInv(vs: seq<ShelfState>, width: int, height: int, w: int, h: int, i: nat)
    requires AtlasInv(vs, width, height) && 0 < w && 0 < h && i < |vs|
    ensures AtlasInv(vs[i := ShelfAlloc(vs[i], w, h).0], width, height)
  {
    AllocKeepsInv(vs[i], width, w, h);
    ReplaceKeepsInv(vs, width, height, i, ShelfAlloc(vs[i], w, h).0);
  }

  /** Replacing shelf i by one with the same position, height and index that keeps the shelf invariant keeps the atlas invariant. */
  lemma {:induction false} ReplaceKeepsInv(vs: seq<ShelfState>, width: int, height: int, i: nat, v: ShelfState)
    requires AtlasInv(vs, width, height) && i < |vs|
    requires ShelfInv(v, width) && v.y == vs[i].y && v.height == vs[i].height && v.index == vs[i].index
    ensures AtlasInv(vs[i := v], width, height)
  {
    ReplaceKeepsGeometry(vs, i, v);
    ReplaceKeepsShelves(vs, width, i, v);
  }

  /** Replacing a shelf by one at the same position and of the same height keeps the stack and its top. */
  lemma {:induction false} ReplaceKeepsGeometry(vs: seq<ShelfState>, i: nat, v: ShelfState)
    requires Stacked(vs) && i < |vs| && v.y == vs[i].y && v.height == vs[i].height
    ensures Stacked(vs[i := v]) && TopY(vs[i := v]) == TopY(vs)
  {
    var ws := vs[i := v];
    forall j | 0 <= j < |ws|
      ensures ws[j].y == vs[j].y && ws[j].height == vs[j].height
    {
    }
    TopYSameGeometry(vs, ws);
  }

  /** Replacing a shelf by one that keeps the shelf invariant and the index keeps every shelf's invariant. */
  lemma {:induction false} ReplaceKeepsShelves(vs: seq<ShelfState>, width: int, i: nat, v: ShelfState)
    requires forall j :: 0 <= j < |vs| ==> ShelfInv(vs[j], width) && vs[j].index == j
    requires i < |vs| && ShelfInv(v, width) && v.index == i
    ensures var ws := vs[i := v]; forall j :: 0 <= j < |ws| ==> ShelfInv(ws[j], width) && ws[j].index == j
  {
    var ws := vs[i := v];
    forall j | 0 <= j < |ws|
      ensures ShelfInv(ws[j], width) && ws[j].index == j
    {
      if j != i {
        assert ws[j] == vs[j];
      }
    }
  }

  /** Putting a shelf that keeps the shelf invariant on top of the stack keeps the atlas invariant. */
  lemma {:induction false} AtlasInvSnoc(vs: seq<ShelfState>, width: int, height: int, v: ShelfState)
    requires AtlasInv(vs, width, height)
    requires ShelfInv(v, width) && v.index == |vs| && v.y == TopY(vs) && v.y + v.height <= height
    ensures AtlasInv(vs + [v], width, height)
  {
    SnocKeepsGeometry(vs, v);
    SnocKeepsShelves(vs, width, v);
  }

  /** A shelf of positive height put at the top of a stack keeps it stacked and becomes its new top. */
  lemma {:induction false} SnocKeepsGeometry(vs: seq<ShelfState>, v: ShelfState)
    requires Stacked(vs) && forall k :: 0 <= k < |vs| ==> 0 < vs[k].height
    requires v.y == TopY(vs) && 0 < v.height
    ensures Stacked(vs + [v]) && TopY(vs + [v]) == v.y + v.height
  {
    var vs' := vs + [v];
    StackedTop(vs);
    TopYSnoc(vs, v);
    forall k | 0 < k < |vs'|
      ensures vs'[k].y == vs'[k - 1].y + vs'[k - 1].height
    {
      assert vs'[k - 1] == vs[k - 1];
      if k < |vs| {
        assert vs'[k] == vs[k];
      }
    }
  }

  /** Appending a shelf that keeps the shelf invariant and knows its index keeps every shelf's invariant. */
  lemma {:induction false} SnocKeepsShelves(vs: seq<ShelfState>, width: int, v: ShelfState)
    requires forall j :: 0 <= j < |vs| ==> ShelfInv(vs[j], width) && vs[j].index == j
    requires ShelfInv(v, width) && v.index == |vs|
    ensures var ws := vs + [v]; forall j :: 0 <= j < |ws| ==> ShelfInv(ws[j], width) && ws[j].index == j
  {
    var ws := vs + [v];
    forall j | 0 <= j < |ws|
      ensures ShelfInv(ws[j], width) && ws[j].index == j
    {
      if j < |vs| {
        assert ws[j] == vs[j];
      }
    }
  }

  /** Opening a new shelf at the top and allocating on it keeps the atlas invariant. */
  lemma {:induction false} PackNewShelfKeepsInv(vs: seq<ShelfState>, width: int, height: int, w: int, h: int)
    requires AtlasInv(vs, width, height) && 0 < w && 0 < h
    requires w <= width && h <= height - TopY(vs)
    ensures AtlasInv(vs + [ShelfAlloc(NewShelf(TopY(vs), width, h, |vs|), w, h).0], width, height)
  {
    var v := NewShelf(TopY(vs), width, h, |vs|);
    NewShelfInv(TopY(vs), width, h, |vs|);
    AllocKeepsInv(v, width, w, h);
    AtlasInvSnoc(vs, width, height, ShelfAlloc(v, w, h).0);
  }

  /** `pack` keeps the atlas invariant. */
  lemma {:induction false} PackKeepsInv(vs: seq<ShelfState>, width: int, height: int, w: int, h: int)
    requires AtlasInv(vs, width, height) && 0 < w && 0 < h
    ensures AtlasInv(AtlasPack(vs, width, height, w, h).0, width, height)
  {
    match Choose(vs, w, h)
    case Some(i) =>
      PackOnShelfKeepsInv(vs, width, height, w, h, i);
    case None =>
      if w <= width && h <= height - TopY(vs) {
        PackNewShelfKeepsInv(vs, width, height, w, h);
      }
  }

  /** The item `pack` returns can be given back to `free_item`. */
  lemma {:induction false} PackReleasable(vs: seq<ShelfState>, width: int, height: int, w: int, h: int)
    requires AtlasInv(vs, width, height) && 0 < w && 0 < h
    ensures Releasable(AtlasPack(vs, width, height, w, h).0, AtlasPack(vs, width, height, w, h).1)
  {
    match Choose(vs, w, h)
    case Some(i) =>
    case None =>
  }

  // ---------------------------------------------------------------------------
  // free_item

  /** `free_item` keeps the atlas invariant. */
  lemma {:induction false} FreeKeepsInv(vs: seq<ShelfState>, width: int, height: int, item: Option<Item>)
    requires AtlasInv(vs, width, height) && Releasable(vs, item)
    ensures AtlasInv(AtlasFree(vs, item), width, height)
  {
    if item.Some? {
      var i := item.value.shelfIndex;
      ReleaseKeepsInv(vs[i], width, item.value);
      ReplaceKeepsInv(vs, width, height, i, ShelfRelease(vs[i], item.value));
    }
  }

  /** Releasing an item that `alloc_item` just placed on shelf i of a list restores the list. */
  lemma {:induction false} FreeAfterAllocAt(vs: seq<ShelfState>, width: int, i: nat, w: int, h: int)
    requires i < |vs| && ShelfInv(vs[i], width) && vs[i].index == i && 0 < w && 0 < h
    requires ShelfAlloc(vs[i], w, h).1.Some?
    ensures var (v', r) := ShelfAlloc(vs[i], w, h);
            Releasable(vs[i := v'], r) && AtlasFree(vs[i := v'], r) == vs
  {
    var (v', r) := ShelfAlloc(vs[i], w, h);
    ReleaseAfterAlloc(vs[i], width, w, h);
    assert vs[i := v'][i := vs[i]] == vs;
  }

  /**
   * Releasing the item `pack` just returned restores every shelf; a shelf
   * that `pack` opened for it stays, empty, with its whole width free.
   */
  lemma {:induction false} FreeAfterPack(vs: seq<ShelfState>, width: int, height: int, w: int, h: int)
    requires AtlasInv(vs, width, height) && 0 < w && 0 < h
    requires AtlasPack(vs, width, height, w, h).1.Some?
    ensures var (vs', r) := AtlasPack(vs, width, height, w, h);
            && Releasable(vs', r)
            && AtlasFree(vs', r) == if Choose(vs, w, h).Some? then vs else vs + [NewShelf(TopY(vs), width, h, |vs|)]
  {
    match Choose(vs, w, h)
    case Some(i) =>
      FreeAfterAllocAt(vs, width, i, w, h);
    case None =>
      var v := NewShelf(TopY(vs), width, h, |vs|);
      NewShelfInv(TopY(vs), width, h, |vs|);
      FreeAfterAllocAt(vs + [v], width, |vs|, w, h);
      UpdateLast(vs, v, ShelfAlloc(v, w, h).0);
  }

  /** After `clear` the atlas is empty, and the next item goes to (0, 0) on a new shelf 0. */
  lemma {:induction false} PackAfterClear(width: int, height: int, w: int, h: int)
    requires 0 < w <= width && 0 < h <= height
    ensures AtlasPack([], width, height, w, h) == ([ShelfAlloc(NewShelf(0, width, h, 0), w, h).0], Some(Item(0, 0, w, h, 0)))
  {
    assert Choose([], w, h) == None;
    assert TopY([]) == 0;
    var v := NewShelf(0, width, h, 0);
    assert v.spans == [Span(0, width)];
    assert FirstFit(v.spans, w) == Some(0);
    assert ShelfAlloc(v, w, h).1 == Some(Item(0, 0, w, h, 0));
    var empty: seq<ShelfState> := [];
    assert empty + [ShelfAlloc(v, w, h).0] == [ShelfAlloc(v, w, h).0];
  }

  /** With no shelf fitting, the fresh shelf that `pack` opens is the first exact fit of the extended list. */
  lemma {:induction false} NewShelfIsExact(vs: seq<ShelfState>, width: int, w: int, h: int)
    requires 0 < w <= width && 0 < h
    requires forall j :: 0 <= j < |vs| ==> !Fits(vs[j], w, h)
    ensures Choose(vs + [NewShelf(TopY(vs), width, h, |vs|)], w, h) == Some(|vs|)
  {
    var v := NewShelf(TopY(vs), width, h, |vs|);
    var vs2 := vs + [v];
    assert MaxWidth(v.spans) == width by {
      assert v.spans == [Span(0, width)] && v.spans[..0] == [];
    }
    assert forall j :: 0 <= j < |vs| ==> vs2[j] == vs[j];
    FirstExactAt(vs2, w, h, |vs|);
  }

  /** Replacing the last shelf of vs + [v] by u gives vs + [u]. */
  lemma {:induction false} UpdateLast(vs: seq<ShelfState>, v: ShelfState, u: ShelfState)
    ensures (vs + [v])[|vs| := u] == vs + [u]
  {
  }

  /** Packing the same request again after releasing what `pack` returned gives back the same item and state. */
  lemma {:induction false} PackFreePack(vs: seq<ShelfState>, width: int, height: int, w: int, h: int)
    requires AtlasInv(vs, width, height) && 0 < w && 0 < h
    requires AtlasPack(vs, width, height, w, h).1.Some?
    ensures var (vs', r) := AtlasPack(vs, width, height, w, h);
            Releasable(vs', r) && AtlasPack(AtlasFree(vs', r), width, height, w, h) == (vs', r)
  {
    FreeAfterPack(vs, width, height, w, h);
    RepackSame(vs, width, height, w, h);
  }

  /** Packing a request again on the shelves it was first packed against, plus the shelf it opened if any, repeats the result. */
  lemma {:induction false} RepackSame(vs: seq<ShelfState>, width: int, height: int, w: int, h: int)
    requires 0 < w && 0 < h && AtlasPack(vs, width, height, w, h).1.Some?
    ensures var ws := if Choose(vs, w, h).Some? then vs else vs + [NewShelf(TopY(vs), width, h, |vs|)];
            AtlasPack(ws, width, height, w, h) == AtlasPack(vs, width, height, w, h)
  {
    if Choose(vs, w, h).None? {
      var v := NewShelf(TopY(vs), width, h, |vs|);
      var (v', e) := ShelfAlloc(v, w, h);
      ChooseSpec(vs, w, h);
      NewShelfIsExact(vs, width, w, h);
      UpdateLast(vs, v, v');
    }
  }

  /** One more step of the best-fit scan. */
  lemma {:induction false} BestFitStep(vs: seq<ShelfState>, i: nat, w: int, h: int)
    requires i < |vs|
    ensures var b := BestFit(vs[..i], w, h);
            BestFit(vs[..i + 1], w, h) ==
              if Fits(vs[i], w, h) && (b.None? || vs[i].height - h < vs[b.value].height - h) then Some(i) else b
  {
    assert vs[..i + 1][..i] == vs[..i];
  }

  /** One more step of the top computation. */
  lemma {:induction false} TopYStep(vs: seq<ShelfState>, i: nat)
    requires i < |vs|
    ensures TopY(vs[..i + 1]) == MaxI(TopY(vs[..i]), vs[i].y + vs[i].height)
  {
    assert vs[..i + 1][..i] == vs[..i];
  }

  /**
   * What `pack`'s scan knows after the first i shelves: the top so far, no
   * exact fit yet, and the best fit so far with its height surplus (or -1
   * and the sentinel).
   */
  ghost predicate Scanned(vs: seq<ShelfState>, i: nat, w: int, h: int, topY: int, best: int, bestScore: int)
  {
    && i <= |vs|
    && topY == TopY(vs[..i])
    && (forall j :: 0 <= j < i ==> !Exact(vs[j], w, h))
    && (BestFit(vs[..i], w, h).None? ==> best == -1 && bestScore == NO_SCORE)
    && (BestFit(vs[..i], w, h).Some? ==> best == BestFit(vs[..i], w, h).value && bestScore == vs[best].height - h)
  }

  /** One step of the scan over a shelf that is not an exact fit. */
  lemma {:induction false} ScanStep(vs: seq<ShelfState>, i: nat, w: int, h: int, topY: int, best: int, bestScore: int)
    requires Scanned(vs, i, w, h, topY, best, bestScore) && i < |vs|
    requires 0 < h && vs[i].height <= INT_MAX
    ensures var better := Fits(vs[i], w, h) && vs[i].height - h < bestScore;
            !Exact(vs[i], w, h) ==>
              Scanned(vs, i + 1, w, h, MaxI(topY, vs[i].y + vs[i].height),
                      if better then i else best, if better then vs[i].height - h else bestScore)
  {
    BestFitStep(vs, i, w, h);
    TopYStep(vs, i);
  }

  /** At the end of the scan without an exact fit, the best fit is `pack`'s choice and the top is the stack's. */
  lemma {:induction false} ScanDone(vs: seq<ShelfState>, w: int, h: int, topY: int, best: int, bestScore: int)
    requires Scanned(vs, |vs|, w, h, topY, best, bestScore)
    ensures best == -1 <==> Choose(vs, w, h).None?
    ensures best != -1 ==> best == Choose(vs, w, h).value
    ensures topY == TopY(vs)
  {
    assert vs[..|vs|] == vs;
  }

  /** An exact fit with no exact fit before it is the first one, and is what `pack` chooses. */
  lemma {:induction false} FirstExactAt(vs: seq<ShelfState>, w: int, h: int, i: nat)
    requires i < |vs| && Exact(vs[i], w, h)
    requires forall j :: 0 <= j < i ==> !Exact(vs[j], w, h)
    ensures FirstExact(vs, w, h) == Some(i) && Choose(vs, w, h) == Some(i)
  {
  }

  /** In an atlas every shelf is at most as high as the canvas, so a height surplus stays below the sentinel. */
  lemma {:induction false} ShelfHeightsBounded(vs: seq<ShelfState>, width: int, height: int)
    requires AtlasInv(vs, width, height)
    ensures forall j :: 0 <= j < |vs| ==> 0 < vs[j].height <= INT_MAX
  {
    StackedTop(vs);
  }

  // ---------------------------------------------------------------------------
  // The atlas object

  /** The values of a list of shelf objects, in order. */
  ghost function StatesOf(ss: seq<Shelf>): (vs: seq<ShelfState>)
    reads ss
    ensures |vs| == |ss|
    ensures forall i :: 0 <= i < |ss| ==> vs[i] == ss[i].State()
  {
    seq(|ss|, i reads ss requires 0 <= i < |ss| => ss[i].State())
  }

  lemma StatesOfSnoc(ss: seq<Shelf>, x: Shelf)
    ensures StatesOf(ss + [x]) == StatesOf(ss) + [x.State()]
  {
  }

  /**
   * `smol_atlas_t`: the canvas size and the shelves, each a `Shelf` object
   * of its own.
   */
  class Atlas {
    var width: int
    var height: int
    var shelves: seq<Shelf>

    /** The values of the shelves, bottom to top. */
    ghost function Views(): (vs: seq<ShelfState>)
      reads this, shelves
      ensures |vs| == |shelves|
      ensures forall i :: 0 <= i < |shelves| ==> vs[i] == shelves[i].State()
    {
      StatesOf(shelves)
    }

    ghost predicate Valid()
      reads this, shelves
    {
      && (forall i, j :: 0 <= i < j < |shelves| ==> shelves[i] != shelves[j])
      && (forall i :: 0 <= i < |shelves| ==> shelves[i].width == width)
      && AtlasInv(Views(), width, height)
    }

    /** `smol_atlas_t(w, h)`: a non-positive dimension becomes 64; there are no shelves. */
    constructor (w: int, h: int)
      requires w <= INT_MAX && h <= INT_MAX
      ensures width == CanvasSize(w) && height == CanvasSize(h)
      ensures shelves == [] && Valid()
    {
      width := if w > 0 then w else DEFAULT_SIZE;
      height := if h > 0 then h else DEFAULT_SIZE;
      shelves := [];
    }

    /** `clear`: drop every shelf; the canvas size stays. */
    method Clear()
      requires Valid()
      modifies this
      ensures shelves == [] && Valid()
      ensures width == old(width) && height == old(height)
    {
      shelves := [];
    }

    /** Shelf k allocates; the other shelves keep their values. */
    method AllocOn(k: nat, w: int, h: int) returns (item: Option<Item>)
      requires Valid() && k < |shelves| && 0 < w && 0 < h
      modifies shelves[k]
      ensures Views() == old(Views())[k := ShelfAlloc(old(Views())[k], w, h).0]
      ensures item == ShelfAlloc(old(Views())[k], w, h).1
      ensures Valid()
    {
      ghost var vs := Views();
      assert shelves[k].Valid();
      item := shelves[k].AllocItem(w, h);
      PackOnShelfKeepsInv(vs, width, height, w, h, k);
      ReplacedValid(k, vs);
    }

    /**
     * Shelf k alone changed since the shelves had the values vs: the values
     * are vs with position k replaced, and the atlas is valid if they keep
     * the atlas invariant.
     */
    lemma ReplacedValid(k: nat, vs: seq<ShelfState>)
      requires k < |shelves| == |vs|
      requires forall j :: 0 <= j < |shelves| && j != k ==> shelves[j].State() == vs[j]
      requires forall i, j :: 0 <= i < j < |shelves| ==> shelves[i] != shelves[j]
      requires forall i :: 0 <= i < |shelves| ==> shelves[i].width == width
      requires AtlasInv(vs[k := shelves[k].State()], width, height)
      ensures Views() == vs[k := shelves[k].State()] && Valid()
    {
    }

    /**
     * The scan of `pack`: visit the shelves bottom to top, tracking the top;
     * stop at the first exact-height shelf that fits, and otherwise remember
     * the fitting shelf with the smallest height surplus (`best_score`
     * starts at 0x7fffffff, and only a strictly smaller surplus replaces the
     * best). Returns -1 when no shelf fits.
     */
    method FindShelf(w: int, h: int) returns (k: int, topY: int)
      requires 0 < h && forall j :: 0 <= j < |shelves| ==> shelves[j].height <= INT_MAX
      ensures k == -1 <==> Choose(old(Views()), w, h).None?
      ensures k != -1 ==> k == Choose(old(Views()), w, h).value
      ensures k == -1 ==> topY == TopY(old(Views()))
    {
      ghost var vs := Views();
      var ss := shelves;
      var best, bestScore := -1, NO_SCORE;
      topY := 0;
      var i := 0;
      while i < |ss|
        invariant i <= |ss| == |vs|
        invariant Scanned(vs, i, w, h, topY, best, bestScore)
      {
        var shelf := ss[i];
        assert vs[i] == shelf.State();
        ScanStep(vs, i, w, h, topY, best, bestScore);
        var shelfH := shelf.height;
        topY := MaxI(topY, shelf.y + shelfH);
        if h <= shelfH {
          var m := shelf.CalcMaxFreeSpan();
          if w <= m {
            if shelfH == h {
              FirstExactAt(vs, w, h, i);
              return i, topY;
            }
            var score := shelfH - h;
            if score < bestScore {
              bestScore := score;
              best := i;
            }
          }
        }
        i := i + 1;
      }
      ScanDone(vs, w, h, topY, best, bestScore);
      k := best;
    }

    /** The new-shelf step of `pack`: append a shelf of height h at `topY`, the top of the stack. */
    method OpenShelf(topY: int, h: int)
      requires Valid() && 0 < h && topY == TopY(Views()) && h <= height - topY
      modifies this
      ensures |shelves| == |old(shelves)| + 1 && shelves[..|old(shelves)|] == old(shelves)
      ensures fresh(shelves[|shelves| - 1])
      ensures Views() == old(Views()) + [NewShelf(topY, width, h, |old(Views())|)]
      ensures Valid() && width == old(width) && height == old(height)
    {
      ghost var vs := Views();
      ghost var ss := shelves;
      var shelf := new Shelf(topY, width, h, |shelves|);
      assert StatesOf(ss) == vs;
      shelves := shelves + [shelf];
      AppendedValid(ss, shelf, vs);
    }

    /** Appending a new shelf object that keeps the shelf invariant, at the top, keeps the atlas valid. */
    lemma AppendedValid(ss: seq<Shelf>, x: Shelf, vs: seq<ShelfState>)
      requires shelves == ss + [x] && x !in ss
      requires forall i, j :: 0 <= i < j < |ss| ==> ss[i] != ss[j]
      requires forall i :: 0 <= i < |ss| ==> ss[i].width == width
      requires StatesOf(ss) == vs && AtlasInv(vs, width, height)
      requires x.width == width && x.Valid() && x.index == |vs| && x.y == TopY(vs) && x.y + x.height <= height
      ensures Views() == vs + [x.State()] && Valid()
    {
      StatesOfSnoc(ss, x);
      AtlasInvSnoc(vs, width, height, x.State());
    }

    /** Open a shelf of height h at the top and allocate on it. */
    method AllocOnNewShelf(topY: int, w: int, h: int) returns (item: Option<Item>)
      requires Valid() && 0 < w && 0 < h && topY == TopY(Views()) && h <= height - topY
      modifies this
      ensures Views() == old(Views()) + [ShelfAlloc(NewShelf(topY, width, h, |old(Views())|), w, h).0]
      ensures item == ShelfAlloc(NewShelf(topY, width, h, |old(Views())|), w, h).1
      ensures Valid() && width == old(width) && height == old(height)
    {
      ghost var vs := Views();
      OpenShelf(topY, h);
      ghost var n := NewShelf(topY, width, h, |vs|);
      item := AllocOn(|shelves| - 1, w, h);
      UpdateLast(vs, n, ShelfAlloc(n, w, h).0);
    }

    /**
     * `pack`: allocate on the shelf the scan chose, or on a new shelf of
     * height h at the top when the item fits the canvas width and the height
     * left, or fail.
     */
    method Pack(w: int, h: int) returns (item: Option<Item>)
      requires Valid() && 0 < w && 0 < h
      modifies this, shelves
      ensures Valid() && width == old(width) && height == old(height)
      ensures (Views(), item) == AtlasPack(old(Views()), width, height, w, h)
    {
      ghost var vs := Views();
      ShelfHeightsBounded(vs, width, height);
      var k, topY := FindShelf(w, h);
      assert Views() == vs;
      item := PlaceAt(k, topY, w, h);
    }

    /** The rest of `pack`, once the scan has chosen shelf k (or none, with the top at `topY`). */
    method PlaceAt(k: int, topY: int, w: int, h: int) returns (item: Option<Item>)
      requires Valid() && 0 < w && 0 < h
      requires k == -1 <==> Choose(Views(), w, h).None?
      requires k != -1 ==> k == Choose(Views(), w, h).value
      requires k == -1 ==> topY == TopY(Views())
      modifies this, shelves
      ensures Valid() && width == old(width) && height == old(height)
      ensures (Views(), item) == AtlasPack(old(Views()), width, height, w, h)
    {
      if k != -1 {
        item := AllocOn(k, w, h);
        return;
      }
      if w <= width && h <= height - topY {
        item := AllocOnNewShelf(topY, w, h);
        return;
      }
      item := None;
    }

    /** `free_item`: `null` is ignored; otherwise the shelf named by the item releases it. */
    method FreeItem(item: Option<Item>)
      requires Valid() && Releasable(Views(), item)
      modifies shelves
      ensures Valid()
      ensures Views() == AtlasFree(old(Views()), item)
    {
      if item.None? {
        return;
      }
      FreeOn(item.value.shelfIndex, item.value);
    }

    /** Release item e on shelf k, which holds it. */
    method FreeOn(k: nat, e: Item)
      requires Valid() && k < |shelves| && e.shelfIndex == k && e in shelves[k].entries
      modifies shelves[k]
      ensures Views() == old(Views())[k := ShelfRelease(old(Views())[k], e)]
      ensures Valid()
    {
      ghost var vs := Views();
      assert shelves[k].Valid();
      shelves[k].FreeItem(e);
      ghost var v := ShelfRelease(vs[k], e);
      assert shelves[k].State() == v;
      ReleaseKeepsInv(vs[k], width, e);
      ReplaceKeepsInv(vs, width, height, k, v);
      ReplacedValid(k, vs);
    }
  }
}
