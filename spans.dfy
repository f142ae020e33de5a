/**
 * The free-span list of one smol-atlas shelf.
 *
 * In the C++ code a shelf keeps a singly linked, x-sorted list of free
 * horizontal intervals (`smol_free_span_t`). Here the list is a sequence:
 * position i of the sequence is the i-th node of the list, a `prev` pointer is
 * the position before, and relinking a node is inserting into or removing
 * from the sequence. This module holds the value-level meaning of the list
 * operations; the `Shelf` class (module `Shelves`) performs them in place.
 */
module Spans {
  import opened Wrappers

  /** One free span: the columns [x, x + width) of its shelf. */
  datatype Span = Span(x: int, width: int)
  {
    /** First column after the span. */
    function End(): int { x + width }
  }

  /** The columns [x, x + width). */
  ghost function Interval(x: int, width: int): (r: set<int>)
    ensures forall c :: c in r <==> x <= c < x + width
    decreases width
  {
    if width <= 0 then {} else {x} + Interval(x + 1, width - 1)
  }

  /** The columns covered by a list of spans. */
  ghost function Cells(spans: seq<Span>): set<int>
  {
    if spans == [] then {} else Interval(spans[0].x, spans[0].width) + Cells(spans[1..])
  }

  /**
   * The invariant the shelf keeps on its free-span list: every span is
   * non-empty and lies in [0, limit), and each span ends strictly before the
   * next one starts, so the spans are sorted by x, pairwise disjoint and never
   * contiguous (contiguous spans are always merged).
   */
  ghost predicate WellFormed(spans: seq<Span>, limit: int)
  {
    && (forall i :: 0 <= i < |spans| ==> 0 <= spans[i].x && 0 < spans[i].width && spans[i].End() <= limit)
    && (forall i, j :: 0 <= i < j < |spans| ==> spans[i].End() < spans[j].x)
  }

  /** The interval [x, x + width) shares no column with any span of the list. */
  ghost predicate ApartFromAll(spans: seq<Span>, x: int, width: int)
  {
    forall i :: 0 <= i < |spans| ==> spans[i].End() <= x || x + width <= spans[i].x
  }

  /** `max_i`: the larger of two numbers. */
  function MaxI(a: int, b: int): (m: int)
    ensures a <= m && b <= m
    ensures m == a || m == b
  {
    if a > b then a else b
  }

  /**
   * `calc_max_free_span`: the widest span of the list, or 0 for an empty list
   * (the running maximum starts at 0).
   */
  function MaxWidth(spans: seq<Span>): (m: int)
    ensures 0 <= m
    ensures forall i :: 0 <= i < |spans| ==> spans[i].width <= m
    ensures m == 0 || exists i :: 0 <= i < |spans| && spans[i].width == m
  {
    if spans == [] then 0
    else
      MaxI(MaxWidth(spans[..|spans| - 1]), spans[|spans| - 1].width)
  }

  /** The first-fit search of `alloc_item`: the position of the first span at least w wide. */
  function FirstFit(spans: seq<Span>, w: int): (r: Option<nat>)
    ensures r.Some? ==> r.value < |spans| && w <= spans[r.value].width
    ensures r.Some? ==> forall i :: 0 <= i < r.value ==> spans[i].width < w
    ensures r.None? <==> forall i :: 0 <= i < |spans| ==> spans[i].width < w
  {
    if spans == [] then None
    else if w <= spans[0].width then Some(0)
    else
      match FirstFit(spans[1..], w)
      case None => None
      case Some(k) => Some(k + 1)
  }

  /** The list without its node at position k (`free_spans_remove`). */
  function RemoveAt(spans: seq<Span>, k: nat): seq<Span>
    requires k < |spans|
  {
    spans[..k] + spans[k + 1..]
  }

  /** The list with `span` linked in at position k (`free_span_insert`). */
  function InsertAt(spans: seq<Span>, k: nat, span: Span): seq<Span>
    requires k <= |spans|
  {
    spans[..k] + [span] + spans[k..]
  }

  /**
   * What `alloc_item` does to the span at position k when it places an item
   * of width w there: the span loses its w leftmost columns, and disappears if
   * nothing is left of it.
   */
  function Carve(spans: seq<Span>, k: nat, w: int): seq<Span>
    requires k < |spans|
  {
    if spans[k].width - w > 0 then spans[k := Span(spans[k].x + w, spans[k].width - w)]
    else RemoveAt(spans, k)
  }

  /**
   * The insertion point of `add_free_span`: the position of the first span
   * that starts after x, or the end of the list.
   */
  function InsertPos(spans: seq<Span>, x: int): (k: nat)
    ensures k <= |spans|
    ensures forall i :: 0 <= i < k ==> spans[i].x <= x
    ensures k < |spans| ==> x < spans[k].x
  {
    if spans == [] || x < spans[0].x then 0 else 1 + InsertPos(spans[1..], x)
  }

  /** Merging the span at position k with the next one, which it touches. */
  function MergeNext(spans: seq<Span>, k: nat): seq<Span>
    requires k + 1 < |spans|
  {
    RemoveAt(spans[k := Span(spans[k].x, spans[k].width + spans[k + 1].width)], k + 1)
  }

  /** First half of `merge_free_spans`: absorb the successor of span k if it touches span k. */
  function MergeWithNext(spans: seq<Span>, k: nat): seq<Span>
    requires k < |spans|
  {
    if k + 1 < |spans| && spans[k].End() == spans[k + 1].x then MergeNext(spans, k) else spans
  }

  /** Second half of `merge_free_spans`: let the predecessor of span k absorb it if they touch. */
  function MergeWithPrev(spans: seq<Span>, k: nat): seq<Span>
    requires k < |spans|
  {
    if 0 < k && spans[k - 1].End() == spans[k].x then MergeNext(spans, k - 1) else spans
  }

  /** `merge_free_spans` for the span at position k: first with its successor, then with its predecessor. */
  function MergeAt(spans: seq<Span>, k: nat): seq<Span>
    requires k < |spans|
  {
    MergeWithPrev(MergeWithNext(spans, k), k)
  }

  /** `add_free_span`: link [x, x + w) in at its sorted position and merge it with touching neighbours. */
  function AddSpan(spans: seq<Span>, x: int, w: int): seq<Span>
  {
    var k := InsertPos(spans, x);
    MergeAt(InsertAt(spans, k, Span(x, w)), k)
  }

  // ---------------------------------------------------------------------------
  // Columns covered by a list

  lemma {:induction false} CellsConcat(a: seq<Span>, b: seq<Span>)
    ensures Cells(a + b) == Cells(a) + Cells(b)
  {
    if a == [] {
      assert a + b == b;
    } else {
      assert (a + b)[1..] == a[1..] + b;
      CellsConcat(a[1..], b);
    }
  }

  lemma {:induction false} CellsSingle(m: Span)
    ensures Cells([m]) == Interval(m.x, m.width)
  {
    assert [m][1..] == [];
  }


  /** The columns of a list split around one span. */
  lemma {:induction false} CellsJoin(p: seq<Span>, m: Span, q: seq<Span>)
    ensures Cells(p + [m] + q) == Cells(p) + Interval(m.x, m.width) + Cells(q)
  {
    CellsConcat(p + [m], q);
    CellsConcat(p, [m]);
    CellsSingle(m);
  }

  lemma {:induction false} IntervalSplit(x: int, w1: int, w2: int)
    requires 0 <= w1 && 0 <= w2
    ensures Interval(x, w1 + w2) == Interval(x, w1) + Interval(x + w1, w2)
  {
  }

  /** All columns of a list whose spans end by b lie before b. */
  lemma {:induction false} CellsBelow(p: seq<Span>, b: int)
    requires forall i :: 0 <= i < |p| ==> p[i].End() <= b
    ensures forall c :: c in Cells(p) ==> c < b
  {
    if p != [] {
      CellsBelow(p[1..], b);
    }
  }

  /** All columns of a list whose spans start at a or later lie at or after a. */
  lemma {:induction false} CellsAbove(q: seq<Span>, a: int)
    requires forall j :: 0 <= j < |q| ==> a <= q[j].x
    ensures forall c :: c in Cells(q) ==> a <= c
  {
    if q != [] {
      CellsAbove(q[1..], a);
    }
  }

  /** The columns of every span are columns of the list. */
  lemma {:induction false} SpanInCells(spans: seq<Span>, k: nat)
    requires k < |spans|
    ensures Interval(spans[k].x, spans[k].width) <= Cells(spans)
  {
    assert spans == spans[..k] + [spans[k]] + spans[k + 1..];
    CellsJoin(spans[..k], spans[k], spans[k + 1..]);
  }

  /** An interval disjoint from the columns of a list of non-empty spans lies apart from each of them. */
  lemma {:induction false} ApartFromCells(spans: seq<Span>, x: int, w: int)
    requires 0 < w
    requires forall i :: 0 <= i < |spans| ==> 0 < spans[i].width
    requires Interval(x, w) !! Cells(spans)
    ensures ApartFromAll(spans, x, w)
  {
    forall i | 0 <= i < |spans|
      ensures spans[i].End() <= x || x + w <= spans[i].x
    {
      SpanInCells(spans, i);
      var c := if x < spans[i].x then spans[i].x else x;
      assert c !in Interval(x, w) || c !in Interval(spans[i].x, spans[i].width);
    }
  }

  // ---------------------------------------------------------------------------
  // Well-formedness of edited lists

  lemma {:induction false} WellFormedSlices(s: seq<Span>, k: nat, limit: int)
    requires WellFormed(s, limit) && k <= |s|
    ensures WellFormed(s[..k], limit) && WellFormed(s[k..], limit)
  {
    forall i, j | 0 <= i < j < |s[k..]|
      ensures s[k..][i].End() < s[k..][j].x
    {
      assert s[k..][i] == s[k + i] && s[k..][j] == s[k + j];
    }
  }

  /** p + [m] + q is well-formed when p and q are, and m sits strictly between them. */
  lemma {:induction false} JoinWellFormed(p: seq<Span>, m: Span, q: seq<Span>, limit: int)
    requires WellFormed(p, limit) && WellFormed(q, limit)
    requires 0 <= m.x && 0 < m.width && m.End() <= limit
    requires forall i :: 0 <= i < |p| ==> p[i].End() < m.x
    requires forall j :: 0 <= j < |q| ==> m.End() < q[j].x
    ensures WellFormed(p + [m] + q, limit)
  {
    var s := p + [m] + q;
    forall i, j | 0 <= i < j < |s|
      ensures s[i].End() < s[j].x
    {
      if j < |p| {
      } else if j == |p| {
      } else if i < |p| {
        assert s[i] == p[i] && s[j] == q[j - |p| - 1];
        assert p[i].End() < m.x && m.x < m.End() < q[j - |p| - 1].x;
      } else if i == |p| {
        assert s[j] == q[j - |p| - 1];
      } else {
        assert s[i] == q[i - |p| - 1] && s[j] == q[j - |p| - 1];
      }
    }
  }

  lemma {:induction false} RemoveWellFormed(s: seq<Span>, k: nat, limit: int)
    requires WellFormed(s, limit) && k < |s|
    ensures WellFormed(RemoveAt(s, k), limit)
  {
    var t := RemoveAt(s, k);
    assert forall i :: 0 <= i < k ==> t[i] == s[i];
    assert forall i :: k <= i < |t| ==> t[i] == s[i + 1];
  }

  // ---------------------------------------------------------------------------
  // Allocation: Carve

  /** Carve on span k as an edit of the list split around that span. */
  lemma {:induction false} CarveShape(s: seq<Span>, k: nat, w: int)
    requires k < |s|
    ensures s == s[..k] + [s[k]] + s[k + 1..]
    ensures s[k].width - w > 0 ==> Carve(s, k, w) == s[..k] + [Span(s[k].x + w, s[k].width - w)] + s[k + 1..]
    ensures s[k].width - w <= 0 ==> Carve(s, k, w) == s[..k] + s[k + 1..]
  {
  }

  lemma {:induction false} CarveCellsCore(p: set<int>, q: set<int>, x: int, w: int, sw: int)
    requires 0 < w <= sw
    requires forall c :: c in p ==> c < x
    requires forall c :: c in q ==> x + sw <= c
    ensures p + Interval(x + w, sw - w) + q + Interval(x, w) == p + Interval(x, sw) + q
    ensures p + Interval(x + w, sw - w) + q !! Interval(x, w)
  {
    IntervalSplit(x, w, sw - w);
  }

  /** Carving w columns off span m, placed between p and q, when some of m is left over. */
  lemma {:induction false} CarveCellsSplit(p: seq<Span>, m: Span, q: seq<Span>, w: int)
    requires 0 < w < m.width
    requires forall c :: c in Cells(p) ==> c < m.x
    requires forall c :: c in Cells(q) ==> m.End() <= c
    ensures Cells(p + [Span(m.x + w, m.width - w)] + q) + Interval(m.x, w) == Cells(p + [m] + q)
    ensures Cells(p + [Span(m.x + w, m.width - w)] + q) !! Interval(m.x, w)
  {
    CellsJoin(p, m, q);
    CellsJoin(p, Span(m.x + w, m.width - w), q);
    CarveCellsCore(Cells(p), Cells(q), m.x, w, m.width);
  }

  /** Carving all of span m, placed between p and q. */
  lemma {:induction false} CarveCellsWhole(p: seq<Span>, m: Span, q: seq<Span>)
    requires 0 < m.width
    requires forall c :: c in Cells(p) ==> c < m.x
    requires forall c :: c in Cells(q) ==> m.End() <= c
    ensures Cells(p + q) + Interval(m.x, m.width) == Cells(p + [m] + q)
    ensures Cells(p + q) !! Interval(m.x, m.width)
  {
    CellsJoin(p, m, q);
    CellsConcat(p, q);
  }

  /**
   * Carving w columns off span k takes exactly [x, x + w) out of the free
   * columns: the remaining columns and the carved ones are disjoint and
   * together give the columns before.
   */
  lemma {:induction false} CarveCells(s: seq<Span>, k: nat, w: int)
    requires k < |s| && 0 < w <= s[k].width
    requires forall i :: 0 <= i < k ==> s[i].End() <= s[k].x
    requires forall j :: k < j < |s| ==> s[k].End() <= s[j].x
    ensures Cells(Carve(s, k, w)) + Interval(s[k].x, w) == Cells(s)
    ensures Cells(Carve(s, k, w)) !! Interval(s[k].x, w)
  {
    var p, q, m := s[..k], s[k + 1..], s[k];
    CarveShape(s, k, w);
    assert forall i :: 0 <= i < |p| ==> p[i].End() <= m.x by {
      assert forall i :: 0 <= i < |p| ==> p[i] == s[i];
    }
    assert forall j :: 0 <= j < |q| ==> m.End() <= q[j].x by {
      assert forall j :: 0 <= j < |q| ==> q[j] == s[k + 1 + j];
    }
    CellsBelow(p, m.x);
    CellsAbove(q, m.End());
    if m.width - w > 0 {
      var c := p + [Span(m.x + w, m.width - w)] + q;
      assert Carve(s, k, w) == c;
      CarveCellsSplit(p, m, q, w);
      assert Cells(c) + Interval(m.x, w) == Cells(s);
    } else {
      assert Carve(s, k, w) == p + q;
      CarveCellsWhole(p, m, q);
      assert Cells(p + q) + Interval(m.x, m.width) == Cells(s);
    }
  }

  /** Carving keeps the free-span list well-formed. */
  lemma {:induction false} CarveWellFormed(s: seq<Span>, k: nat, w: int, limit: int)
    requires WellFormed(s, limit) && k < |s| && 0 < w <= s[k].width
    ensures WellFormed(Carve(s, k, w), limit)
  {
    CarveShape(s, k, w);
    if s[k].width - w > 0 {
      WellFormedSlices(s, k, limit);
      WellFormedSlices(s, k + 1, limit);
      JoinWellFormed(s[..k], Span(s[k].x + w, s[k].width - w), s[k + 1..], limit);
    } else {
      RemoveWellFormed(s, k, limit);
    }
  }

  // ---------------------------------------------------------------------------
  // Release: AddSpan

  /** Merging a span with the touching span that follows it, in a list split around the pair. */
  lemma {:induction false} MergeNextJoin(p: seq<Span>, a: Span, q: seq<Span>)
    requires q != []
    ensures MergeNext(p + [a] + q, |p|) == p + [Span(a.x, a.width + q[0].width)] + q[1..]
  {
    var t := p + [a] + q;
    var u := t[|p| := Span(a.x, a.width + q[0].width)];
    assert u == p + [Span(a.x, a.width + q[0].width)] + q;
    assert u[..|p| + 1] == p + [Span(a.x, a.width + q[0].width)];
    assert u[|p| + 2..] == q[1..];
  }

  /** The forward merge, on a list split around the new span n. */
  lemma {:induction false} WithNextJoin(p: seq<Span>, n: Span, q: seq<Span>)
    ensures MergeWithNext(p + [n] + q, |p|) ==
              if q != [] && n.End() == q[0].x then p + [Span(n.x, n.width + q[0].width)] + q[1..]
              else p + [n] + q
  {
    if q != [] {
      assert (p + [n] + q)[|p| + 1] == q[0];
      if n.End() == q[0].x {
        MergeNextJoin(p, n, q);
      }
    }
  }

  /** The backward merge, on a list split around the new span n. */
  lemma {:induction false} WithPrevJoin(p: seq<Span>, n: Span, q: seq<Span>)
    ensures MergeWithPrev(p + [n] + q, |p|) ==
              if p != [] && p[|p| - 1].End() == n.x
              then p[..|p| - 1] + [Span(p[|p| - 1].x, p[|p| - 1].width + n.width)] + q
              else p + [n] + q
  {
    if p != [] {
      var t := p + [n] + q;
      assert t[|p| - 1] == p[|p| - 1] && t[|p|] == n;
      if p[|p| - 1].End() == n.x {
        assert t == p[..|p| - 1] + [p[|p| - 1]] + ([n] + q);
        MergeNextJoin(p[..|p| - 1], p[|p| - 1], [n] + q);
        assert ([n] + q)[1..] == q;
      }
    }
  }

  lemma {:induction false} WithNextCells(p: seq<Span>, n: Span, q: seq<Span>)
    requires 0 <= n.width && forall j :: 0 <= j < |q| ==> 0 <= q[j].width
    ensures Cells(MergeWithNext(p + [n] + q, |p|)) == Cells(p + [n] + q)
  {
    WithNextJoin(p, n, q);
    if q != [] && n.End() == q[0].x {
      CellsJoin(p, Span(n.x, n.width + q[0].width), q[1..]);
      CellsJoin(p, n, q);
      assert Cells(q) == Interval(q[0].x, q[0].width) + Cells(q[1..]);
      IntervalSplit(n.x, n.width, q[0].width);
    }
  }

  lemma {:induction false} WithPrevCells(p: seq<Span>, n: Span, q: seq<Span>)
    requires 0 <= n.width && forall i :: 0 <= i < |p| ==> 0 <= p[i].width
    ensures Cells(MergeWithPrev(p + [n] + q, |p|)) == Cells(p + [n] + q)
  {
    WithPrevJoin(p, n, q);
    if p != [] && p[|p| - 1].End() == n.x {
      var p0, l := p[..|p| - 1], p[|p| - 1];
      assert p == p0 + [l];
      calc {
        Cells(p0 + [Span(l.x, l.width + n.width)] + q);
        { CellsJoin(p0, Span(l.x, l.width + n.width), q); }
        Cells(p0) + Interval(l.x, l.width + n.width) + Cells(q);
        { IntervalSplit(l.x, l.width, n.width); }
        Cells(p0) + (Interval(l.x, l.width) + Interval(n.x, n.width)) + Cells(q);
        { CellsConcat(p0, [l]); CellsSingle(l); }
        Cells(p) + Interval(n.x, n.width) + Cells(q);
        { CellsJoin(p, n, q); }
        Cells(p + [n] + q);
      }
    }
  }

  /** The insertion point of [x, x + w) as a split of the list into the parts before and after it. */
  lemma {:induction false} InsertShape(s: seq<Span>, x: int, w: int)
    ensures var k := InsertPos(s, x);
            s == s[..k] + s[k..] && InsertAt(s, k, Span(x, w)) == s[..k] + [Span(x, w)] + s[k..]
  {
  }

  /** The insertion point is the only position with only smaller-or-equal starts before it and a larger start at it. */
  lemma {:induction false} InsertPosIs(s: seq<Span>, x: int, k: nat)
    requires k <= |s|
    requires forall i :: 0 <= i < k ==> s[i].x <= x
    requires k < |s| ==> x < s[k].x
    ensures InsertPos(s, x) == k
  {
    var k' := InsertPos(s, x);
    if k' < k {
      assert false;
    } else if k < k' {
      assert false;
    }
  }

  /** Both merges of a new span n placed between p and q leave the covered columns unchanged. */
  lemma {:induction false} MergeJoinCells(p: seq<Span>, n: Span, q: seq<Span>)
    requires 0 <= n.width
    requires forall i :: 0 <= i < |p| ==> 0 <= p[i].width
    requires forall j :: 0 <= j < |q| ==> 0 <= q[j].width
    ensures Cells(MergeAt(p + [n] + q, |p|)) == Cells(p + [n] + q)
  {
    WithNextCells(p, n, q);
    WithNextJoin(p, n, q);
    if q != [] && n.End() == q[0].x {
      WithPrevCells(p, Span(n.x, n.width + q[0].width), q[1..]);
    } else {
      WithPrevCells(p, n, q);
    }
  }

  /** Releasing [x, x + w) adds exactly those columns to the free columns. */
  lemma {:induction false} AddSpanCells(s: seq<Span>, x: int, w: int)
    requires forall i :: 0 <= i < |s| ==> 0 <= s[i].width
    requires 0 <= w
    ensures Cells(AddSpan(s, x, w)) == Cells(s) + Interval(x, w)
  {
    var k := InsertPos(s, x);
    var p, q := s[..k], s[k..];
    InsertShape(s, x, w);
    MergeJoinCells(p, Span(x, w), q);
    CellsJoin(p, Span(x, w), q);
    CellsConcat(p, q);
  }

  /** The backward merge when the new span n touches the last span l before it. */
  lemma {:induction false} PrevMergedWellFormed(p0: seq<Span>, l: Span, n: Span, q: seq<Span>, limit: int)
    requires WellFormed(p0 + [l], limit) && WellFormed(q, limit)
    requires 0 < n.width && n.End() <= limit && l.End() == n.x
    requires forall j :: 0 <= j < |q| ==> n.End() < q[j].x
    ensures WellFormed(p0 + [Span(l.x, l.width + n.width)] + q, limit)
  {
    var p := p0 + [l];
    WellFormedSlices(p, |p0|, limit);
    assert p[..|p0|] == p0 && p[|p0|] == l;
    assert forall i :: 0 <= i < |p0| ==> p0[i].End() < l.x by {
      assert forall i :: 0 <= i < |p0| ==> p[i] == p0[i];
    }
    JoinWellFormed(p0, Span(l.x, l.width + n.width), q, limit);
  }

  /** The backward merge keeps well-formedness when the new span ends strictly before every later span. */
  lemma {:induction false} PrevStageWellFormed(p: seq<Span>, n: Span, q: seq<Span>, limit: int)
    requires WellFormed(p, limit) && WellFormed(q, limit)
    requires 0 <= n.x && 0 < n.width && n.End() <= limit
    requires forall i :: 0 <= i < |p| ==> p[i].End() <= n.x
    requires forall j :: 0 <= j < |q| ==> n.End() < q[j].x
    ensures WellFormed(MergeWithPrev(p + [n] + q, |p|), limit)
  {
    if p != [] && p[|p| - 1].End() == n.x {
      var p0, l := p[..|p| - 1], p[|p| - 1];
      assert p == p0 + [l];
      PrevMergedWellFormed(p0, l, n, q, limit);
      WithPrevJoin(p, n, q);
    } else {
      forall i | 0 <= i < |p|
        ensures p[i].End() < n.x
      {
        if i < |p| - 1 {
          assert p[i].End() < p[|p| - 1].x;
        }
      }
      JoinWellFormed(p, n, q, limit);
      WithPrevJoin(p, n, q);
    }
  }

  /** Both merges of a new span that lies apart from its neighbours keep the list well-formed. */
  lemma {:induction false} MergeJoinWellFormed(p: seq<Span>, n: Span, q: seq<Span>, limit: int)
    requires WellFormed(p, limit) && WellFormed(q, limit)
    requires 0 <= n.x && 0 < n.width && n.End() <= limit
    requires forall i :: 0 <= i < |p| ==> p[i].End() <= n.x
    requires forall j :: 0 <= j < |q| ==> n.End() <= q[j].x
    ensures WellFormed(MergeAt(p + [n] + q, |p|), limit)
  {
    WithNextJoin(p, n, q);
    if q != [] && n.End() == q[0].x {
      WellFormedSlices(q, 1, limit);
      var q' := q[1..];
      assert forall j :: 0 <= j < |q'| ==> q[0].End() < q'[j].x;
      PrevStageWellFormed(p, Span(n.x, n.width + q[0].width), q', limit);
    } else {
      PrevStageWellFormed(p, n, q, limit);
    }
  }

  /** The insertion point separates the spans left of a released interval from those right of it. */
  lemma {:induction false} InsertPosApart(s: seq<Span>, x: int, w: int, limit: int)
    requires WellFormed(s, limit) && 0 < w && ApartFromAll(s, x, w)
    ensures forall i :: 0 <= i < InsertPos(s, x) ==> s[i].End() <= x
    ensures forall j :: InsertPos(s, x) <= j < |s| ==> x + w <= s[j].x
  {
  }

  /** Releasing an interval that lies apart from every free span keeps the list well-formed. */
  lemma {:induction false} AddSpanWellFormed(s: seq<Span>, x: int, w: int, limit: int)
    requires WellFormed(s, limit)
    requires 0 <= x && 0 < w && x + w <= limit
    requires ApartFromAll(s, x, w)
    ensures WellFormed(AddSpan(s, x, w), limit)
  {
    var k := InsertPos(s, x);
    InsertShape(s, x, w);
    InsertPosApart(s, x, w, limit);
    WellFormedSlices(s, k, limit);
    MergeJoinWellFormed(s[..k], Span(x, w), s[k..], limit);
  }

  /** Round trip when the allocation left a remainder r of the span. */
  lemma {:induction false} CarveThenAddSplit(p: seq<Span>, m: Span, q: seq<Span>, w: int)
    requires 0 < w < m.width
    requires forall i :: 0 <= i < |p| ==> p[i].x < m.x && p[i].End() < m.x
    ensures var r := Span(m.x + w, m.width - w);
            AddSpan(p + [r] + q, m.x, w) == p + [m] + q
  {
    var r := Span(m.x + w, m.width - w);
    var n := Span(m.x, w);
    var c := p + [r] + q;
    var t := p + [n] + ([r] + q);
    assert InsertPos(c, m.x) == |p| by {
      InsertPosIs(c, m.x, |p|);
    }
    assert InsertAt(c, |p|, n) == t by {
      assert c[..|p|] == p && c[|p|..] == [r] + q;
    }
    assert MergeWithNext(t, |p|) == p + [m] + q by {
      WithNextJoin(p, n, [r] + q);
      assert ([r] + q)[1..] == q;
    }
    assert MergeWithPrev(p + [m] + q, |p|) == p + [m] + q by {
      WithPrevJoin(p, m, q);
    }
    assert AddSpan(c, m.x, w) == MergeAt(t, |p|);
  }

  /** Round trip when the allocation used the whole span m. */
  lemma {:induction false} CarveThenAddWhole(p: seq<Span>, m: Span, q: seq<Span>)
    requires 0 < m.width
    requires forall i :: 0 <= i < |p| ==> p[i].x < m.x && p[i].End() < m.x
    requires forall j :: 0 <= j < |q| ==> m.End() < q[j].x
    ensures AddSpan(p + q, m.x, m.width) == p + [m] + q
  {
    var c := p + q;
    InsertPosIs(c, m.x, |p|);
    InsertShape(c, m.x, m.width);
    assert c[..|p|] == p && c[|p|..] == q;
    WithNextJoin(p, m, q);
    WithPrevJoin(p, m, q);
  }

  /** In a well-formed list, span k is strictly apart from every other span. */
  lemma {:induction false} Isolated(s: seq<Span>, k: nat, limit: int)
    requires WellFormed(s, limit) && k < |s|
    ensures forall i :: 0 <= i < k ==> s[i].x < s[k].x && s[i].End() < s[k].x
    ensures forall j :: k < j < |s| ==> s[k].End() < s[j].x
  {
  }

  /** Round trip of Carve and AddSpan on an isolated span k. */
  lemma {:induction false} CarveThenAddAt(s: seq<Span>, k: nat, w: int)
    requires k < |s| && 0 < w <= s[k].width
    requires forall i :: 0 <= i < k ==> s[i].x < s[k].x && s[i].End() < s[k].x
    requires forall j :: k < j < |s| ==> s[k].End() < s[j].x
    ensures AddSpan(Carve(s, k, w), s[k].x, w) == s
  {
    var p, q, m := s[..k], s[k + 1..], s[k];
    CarveShape(s, k, w);
    assert forall i :: 0 <= i < |p| ==> p[i].x < m.x && p[i].End() < m.x by {
      assert forall i :: 0 <= i < |p| ==> p[i] == s[i];
    }
    assert s == p + [m] + q;
    if m.width - w > 0 {
      assert Carve(s, k, w) == p + [Span(m.x + w, m.width - w)] + q;
      CarveThenAddSplit(p, m, q, w);
    } else {
      assert forall j :: 0 <= j < |q| ==> m.End() < q[j].x by {
        assert forall j :: 0 <= j < |q| ==> q[j] == s[k + 1 + j];
      }
      assert Carve(s, k, w) == p + q && w == m.width;
      CarveThenAddWhole(p, m, q);
    }
  }

  /**
   * Releasing the columns that `alloc_item` just carved out of span k gives
   * back exactly the list before the allocation.
   */
  lemma {:induction false} CarveThenAddSpan(s: seq<Span>, k: nat, w: int, limit: int)
    requires WellFormed(s, limit) && k < |s| && 0 < w <= s[k].width
    ensures AddSpan(Carve(s, k, w), s[k].x, w) == s
  {
    Isolated(s, k, limit);
    CarveThenAddAt(s, k, w);
  }
}
