/** MinFilter and MaxFilter (Filter.cpp): square-support erosion and
    dilation, separable into a pass along every row followed by a pass down
    every column, frame by frame.  Each pass over a line keeps the last
    2r + 1 inputs in the leaves of a complete binary tree whose internal
    nodes hold the smaller (larger) of their two children, so the root is
    always the extremum of the window. */
module Extremum {
  import opened Images
  import opened Lines

  datatype Kind = Min | Max

  /** A heap entry: a sample, or the infinite padding the heap starts with. */
  datatype Ext = NegInf | Fin(v: real) | PosInf

  predicate Le(a: Ext, b: Ext) {
    match a
    case NegInf => true
    case Fin(u) => b.PosInf? || (b.Fin? && u <= b.v)
    case PosInf => b.PosInf?
  }

  predicate Lt(a: Ext, b: Ext) {
    Le(a, b) && a != b
  }

  /** a is at least as extreme as b: no larger for Min, no smaller for Max. */
  predicate Better(kind: Kind, a: Ext, b: Ext) {
    if kind == Min then Le(a, b) else Le(b, a)
  }

  predicate BetterR(kind: Kind, a: real, b: real) {
    if kind == Min then a <= b else b <= a
  }

  /** `min(a, b)` (`b < a ? b : a`) or `max(a, b)` (`a < b ? b : a`): one of
      the two, and at least as extreme as both. */
  function Pick(kind: Kind, a: Ext, b: Ext): (p: Ext)
    ensures p == a || p == b
    ensures Better(kind, p, a) && Better(kind, p, b)
  {
    if kind == Min then (if Lt(b, a) then b else a)
    else (if Lt(a, b) then b else a)
  }

  /** The value the heap is filled with: INF for Min, -INF for Max. */
  function Pad(kind: Kind): (e: Ext)
    ensures forall a :: Better(kind, a, e)
  {
    if kind == Min then PosInf else NegInf
  }

  lemma BetterTrans(kind: Kind, a: Ext, b: Ext, d: Ext)
    requires Better(kind, a, b) && Better(kind, b, d)
    ensures Better(kind, a, d)
  {
  }

  lemma BetterAntisym(kind: Kind, a: Ext, b: Ext)
    requires Better(kind, a, b) && Better(kind, b, a)
    ensures a == b
  {
  }

  /** Input j of a line pass: the sample, or the padding past either end. */
  function Input(kind: Kind, s: seq<real>, j: int): Ext {
    if 0 <= j < |s| then Fin(s[j]) else Pad(kind)
  }

  /** The extremum of s[lo..hi], folded from the left with `Pick`. */
  function Best(kind: Kind, s: seq<real>, lo: int, hi: int): real
    requires 0 <= lo <= hi < |s|
    decreases hi - lo
  {
    if lo == hi then s[lo] else Pick(kind, Fin(Best(kind, s, lo, hi - 1)), Fin(s[hi])).v
  }

  /** Best is one of the samples of s[lo..hi], and at least as extreme as
      each of them. */
  lemma {:induction false} BestIsExtremum(kind: Kind, s: seq<real>, lo: int, hi: int)
    requires 0 <= lo <= hi < |s|
    ensures exists k :: lo <= k <= hi && s[k] == Best(kind, s, lo, hi)
    ensures forall k :: lo <= k <= hi ==> BetterR(kind, Best(kind, s, lo, hi), s[k])
    decreases hi - lo
  {
    if lo == hi {
      assert s[lo] == Best(kind, s, lo, hi);
    } else {
      BestIsExtremum(kind, s, lo, hi - 1);
      var b := Best(kind, s, lo, hi - 1);
      var p := Pick(kind, Fin(b), Fin(s[hi]));
      if p == Fin(b) {
        var k :| lo <= k <= hi - 1 && s[k] == b;
        assert s[k] == Best(kind, s, lo, hi);
      } else {
        assert s[hi] == Best(kind, s, lo, hi);
      }
    }
  }

  function WindowLo(i: int, r: int): int {
    if i - r < 0 then 0 else i - r
  }

  function WindowHi(i: int, r: int, n: int): int {
    if i + r > n - 1 then n - 1 else i + r
  }

  /** One pass of the filter over a line, as written: sample 0 is never
      written (the source stores output x - r only when x - r > 0); every
      other sample becomes the extremum of the samples within r of it. */
  function Running(kind: Kind, s: seq<real>, r: nat): (o: seq<real>)
    ensures |o| == |s|
  {
    seq(|s|, i requires 0 <= i < |s| =>
      if i == 0 then s[0] else Best(kind, s, WindowLo(i, r), WindowHi(i, r, |s|)))
  }

  /** Sample 0 of a line keeps its value; every other sample i becomes one of
      the samples within r of i, at least as extreme as all of them. */
  lemma RunningIsWindowExtremum(kind: Kind, s: seq<real>, r: nat, i: int)
    requires 0 <= i < |s|
    ensures i == 0 ==> Running(kind, s, r)[i] == s[0]
    ensures i >= 1 ==>
      (exists k :: WindowLo(i, r) <= k <= WindowHi(i, r, |s|) && Running(kind, s, r)[i] == s[k]) &&
      (forall k :: WindowLo(i, r) <= k <= WindowHi(i, r, |s|) ==> BetterR(kind, Running(kind, s, r)[i], s[k]))
  {
    if i >= 1 {
      BestIsExtremum(kind, s, WindowLo(i, r), WindowHi(i, r, |s|));
    }
  }

  // ---------------------------------------------------------------------
  // The tree of 2r internal nodes over 2r + 1 leaves (indices 2r .. 4r).

  /** Internal node p holds the pick of its two children. */
  predicate NodeOk(kind: Kind, h: seq<Ext>, r: int, p: int)
    requires |h| == 4 * r + 1 && 0 <= p < 2 * r
  {
    h[p] == Pick(kind, h[2 * p + 1], h[2 * p + 2])
  }

  predicate Consistent(kind: Kind, h: seq<Ext>, r: int) {
    |h| == 4 * r + 1 && forall p :: 0 <= p < 2 * r ==> NodeOk(kind, h, r, p)
  }

  /** q is a proper ancestor of p. */
  predicate Above(q: int, p: int)
    decreases p
  {
    p > 0 && (q == (p - 1) / 2 || Above(q, (p - 1) / 2))
  }

  /** The root is at least as extreme as every node. */
  lemma {:induction false} RootBetter(kind: Kind, h: seq<Ext>, r: int, q: int)
    requires Consistent(kind, h, r) && 0 <= q < |h|
    ensures Better(kind, h[0], h[q])
    decreases q
  {
    if q > 0 {
      var p := (q - 1) / 2;
      assert NodeOk(kind, h, r, p);
      RootBetter(kind, h, r, p);
      BetterTrans(kind, h[0], h[p], h[q]);
    }
  }

  /** Every node, the root included, holds the value of some leaf. */
  lemma {:induction false} FromLeaf(kind: Kind, h: seq<Ext>, r: int, p: int)
    requires Consistent(kind, h, r) && 0 <= p < |h|
    ensures exists l :: 2 * r <= l <= 4 * r && h[l] == h[p]
    decreases 4 * r - p
  {
    if p < 2 * r {
      assert NodeOk(kind, h, r, p);
      if h[p] == h[2 * p + 1] {
        FromLeaf(kind, h, r, 2 * p + 1);
      } else {
        FromLeaf(kind, h, r, 2 * p + 2);
      }
    } else {
      assert 2 * r <= p <= 4 * r && h[p] == h[p];
    }
  }

  /** The leaf holding slot m of the buffer of 2r + 1 leaves. */
  function LeafAt(r: int, cur: int, m: int): int {
    2 * r + Slot(cur, m, 2 * r + 1)
  }

  /** The leaves, read from the oldest slot `cur` on, hold inputs lo .. lo + 2r. */
  predicate Window(kind: Kind, h: seq<Ext>, r: nat, cur: int, s: seq<real>, lo: int)
    requires |h| == 4 * r + 1 && 0 <= cur < 2 * r + 1
  {
    forall m :: 0 <= m < 2 * r + 1 ==> h[LeafAt(r, cur, m)] == Input(kind, s, lo + m)
  }

  /** Input lo + m of the window sits in leaf LeafAt(r, cur, m). */
  lemma WindowLeaf(kind: Kind, h: seq<Ext>, r: nat, cur: int, s: seq<real>, lo: int, m: int)
    requires |h| == 4 * r + 1 && 0 <= cur < 2 * r + 1 && Window(kind, h, r, cur, s, lo)
    requires 0 <= m < 2 * r + 1
    ensures 2 * r <= LeafAt(r, cur, m) <= 4 * r && h[LeafAt(r, cur, m)] == Input(kind, s, lo + m)
  {
  }

  /** Every leaf holds one of the inputs lo .. lo + 2r of the window. */
  lemma LeafInput(kind: Kind, h: seq<Ext>, r: nat, cur: int, s: seq<real>, lo: int, l: int)
    returns (m: int)
    requires |h| == 4 * r + 1 && 0 <= cur < 2 * r + 1 && Window(kind, h, r, cur, s, lo)
    requires 2 * r <= l <= 4 * r
    ensures 0 <= m < 2 * r + 1 && h[l] == Input(kind, s, lo + m)
  {
    m := if l - 2 * r >= cur then l - 2 * r - cur else l - 2 * r - cur + 2 * r + 1;
    assert LeafAt(r, cur, m) == l;
  }

  /** The extremum of the window centred on i is at least as extreme as
      every input of the window, padding included. */
  lemma BestBeatsInputs(kind: Kind, s: seq<real>, r: nat, i: int, j: int)
    requires 0 <= i < |s| && i - r <= j <= i + r
    ensures Better(kind, Fin(Best(kind, s, WindowLo(i, r), WindowHi(i, r, |s|))), Input(kind, s, j))
  {
    BestIsExtremum(kind, s, WindowLo(i, r), WindowHi(i, r, |s|));
  }

  /** The root of a consistent tree over the window lo .. lo + 2r, centred
      on i, is the extremum of the samples of that window that lie inside
      the line. */
  lemma RootIsBest(kind: Kind, h: seq<Ext>, r: nat, cur: int, s: seq<real>, lo: int, i: int)
    requires Consistent(kind, h, r) && 0 <= cur < 2 * r + 1 && Window(kind, h, r, cur, s, lo)
    requires i == lo + r && 0 <= i < |s|
    ensures h[0] == Fin(Best(kind, s, WindowLo(i, r), WindowHi(i, r, |s|)))
  {
    var a, b := WindowLo(i, r), WindowHi(i, r, |s|);
    var best := Best(kind, s, a, b);
    BestIsExtremum(kind, s, a, b);
    var k :| a <= k <= b && s[k] == best;
    WindowLeaf(kind, h, r, cur, s, lo, k - lo);
    RootBetter(kind, h, r, LeafAt(r, cur, k - lo));
    FromLeaf(kind, h, r, 0);
    var l :| 2 * r <= l <= 4 * r && h[l] == h[0];
    var m := LeafInput(kind, h, r, cur, s, lo, l);
    BestBeatsInputs(kind, s, r, i, lo + m);
    BetterAntisym(kind, h[0], Fin(best));
  }

  /** After the new input takes the oldest slot, the window has moved on by
      one and the next slot is the oldest. */
  lemma WindowAdvance(kind: Kind, h: seq<Ext>, h': seq<Ext>, r: nat, cur: int, s: seq<real>, lo: int)
    requires |h| == 4 * r + 1 && 0 <= cur < 2 * r + 1 && Window(kind, h, r, cur, s, lo)
    requires h' == h[2 * r + cur := Input(kind, s, lo + 2 * r + 1)]
    ensures var next := if cur + 1 == 2 * r + 1 then 0 else cur + 1;
      Window(kind, h', r, next, s, lo + 1)
  {
    var w := 2 * r + 1;
    var next := if cur + 1 == w then 0 else cur + 1;
    forall m | 0 <= m < w
      ensures h'[LeafAt(r, next, m)] == Input(kind, s, lo + 1 + m)
    {
      if m + 1 < w {
        assert LeafAt(r, next, m) == LeafAt(r, cur, m + 1);
      } else {
        assert LeafAt(r, next, m) == 2 * r + cur;
      }
    }
  }

  // ---------------------------------------------------------------------
  // Why the radius is at least 1: the do-while walk with radius 0.

  const SizeModulus: int := 0x1_0000_0000_0000_0000

  /** The source's `p--; p >>= 1;` on a 64-bit `size_t`. */
  function SizeParent(p: nat): (q: nat)
    requires p < SizeModulus
    ensures q < SizeModulus
    ensures p >= 1 ==> q == (p - 1) / 2
  {
    ((p - 1) % SizeModulus) / 2
  }

  /** With radius 0 the heap has one entry and the circular buffer starts at
      position 0; the do-while body runs once before its test, and its first
      step from position 0 wraps to an index far outside the heap. */
  lemma RadiusZeroWalkLeavesHeap()
    ensures SizeParent(2 * 0) == 0x7FFF_FFFF_FFFF_FFFF
    ensures SizeParent(2 * 0) >= 4 * 0 + 1
  {
  }

  // ---------------------------------------------------------------------
  // One pass over a line of the store.

  /** `std::fill(heap.begin(), heap.end(), e)`. */
  method FillHeap(heap: array<Ext>, e: Ext)
    modifies heap
    ensures forall j :: 0 <= j < heap.Length ==> heap[j] == e
  {
    var i := 0;
    while i < heap.Length
      invariant 0 <= i <= heap.Length
      invariant forall j :: 0 <= j < i ==> heap[j] == e
    {
      heap[i] := e;
      i := i + 1;
    }
  }

  /** Storing a leaf upsets at most the nodes above it. */
  lemma StoreLeaf(kind: Kind, h: seq<Ext>, r: nat, pos: int, e: Ext)
    requires Consistent(kind, h, r) && 2 * r <= pos < |h|
    ensures forall q :: 0 <= q < 2 * r && !Above(q, pos) ==> NodeOk(kind, h[pos := e], r, q)
  {
    forall q | 0 <= q < 2 * r && !Above(q, pos) ensures NodeOk(kind, h[pos := e], r, q) {
      assert NodeOk(kind, h, r, q);
      assert 2 * q + 1 != pos && 2 * q + 2 != pos;
    }
  }

  /** The walk from leaf `pos` to the root, recomputing each node on the way
      from its children.  A leaf is never the root when r >= 1, so the walk
      takes at least one step, as the source's do-while does. */
  method Sift(kind: Kind, heap: array<Ext>, r: nat, pos: int)
    requires r >= 1
    requires heap.Length == 4 * r + 1 && 2 * r <= pos < heap.Length
    requires forall q :: 0 <= q < 2 * r && !Above(q, pos) ==> NodeOk(kind, heap[..], r, q)
    modifies heap
    ensures Consistent(kind, heap[..], r)
    ensures forall l :: 2 * r <= l < heap.Length ==> heap[l] == old(heap[l])
  {
    var p := pos;
    while p > 0
      invariant 0 <= p < heap.Length
      invariant forall l :: 2 * r <= l < heap.Length ==> heap[l] == old(heap[l])
      invariant forall q :: 0 <= q < 2 * r && !Above(q, p) ==> NodeOk(kind, heap[..], r, q)
    {
      ghost var h0 := heap[..];
      ghost var child := p;
      p := (p - 1) / 2;
      heap[p] := Pick(kind, heap[2 * p + 1], heap[2 * p + 2]);
      forall q | 0 <= q < 2 * r && !Above(q, p) ensures NodeOk(kind, heap[..], r, q) {
        if q != p {
          assert !Above(q, child);
          assert NodeOk(kind, h0, r, q);
          assert 2 * q + 1 != p && 2 * q + 2 != p;
        }
      }
    }
  }

  /** Next slot of the circular buffer of 2r + 1 leaves. */
  function NextSlot(cur: int, r: int): int {
    if cur + 1 == 2 * r + 1 then 0 else cur + 1
  }

  lemma RunningAt(kind: Kind, s: seq<real>, r: nat, i: int)
    requires 1 <= i < |s|
    ensures Running(kind, s, r)[i] == Best(kind, s, WindowLo(i, r), WindowHi(i, r, |s|))
  {
  }

  /** The output half of a step: output i of the pass goes to position i. */
  method Emit(kind: Kind, a: array<real>, start: int, stride: int, n: nat, r: nat,
              i: int, v: real, ghost s: seq<real>)
    requires LineIn(a.Length, start, stride, n) && (n <= 1 || stride >= 1)
    requires |s| == n && 1 <= i < n && v == Running(kind, s, r)[i]
    requires forall k :: 0 <= k < n ==>
      At(a[..], Pos(start, stride, k)) == if 1 <= k < i then Running(kind, s, r)[k] else s[k]
    modifies a
    ensures forall k :: 0 <= k < n ==>
      At(a[..], Pos(start, stride, k)) == if 1 <= k < i + 1 then Running(kind, s, r)[k] else s[k]
    ensures OnlyLine(old(a[..]), a[..], start, stride, n)
  {
    PutLine(a, start, stride, n, i, v);
  }

  /** The tree half of a step: input x goes into the oldest leaf and the
      walk to the root makes the tree consistent again. */
  method Insert(kind: Kind, heap: array<Ext>, r: nat, pos: int, val: Ext,
                ghost cur: int, ghost s: seq<real>, ghost x: int)
    requires r >= 1
    requires heap.Length == 4 * r + 1 && 0 <= cur < 2 * r + 1 && pos == 2 * r + cur
    requires Consistent(kind, heap[..], r) && Window(kind, heap[..], r, cur, s, x - (2 * r + 1))
    requires val == Input(kind, s, x)
    modifies heap
    ensures Consistent(kind, heap[..], r) && Window(kind, heap[..], r, NextSlot(cur, r), s, x + 1 - (2 * r + 1))
  {
    ghost var before := heap[..];
    StoreLeaf(kind, before, r, pos, val);
    heap[pos] := val;
    WindowAdvance(kind, before, heap[..], r, cur, s, x - (2 * r + 1));
    ghost var leaves := heap[..];
    Sift(kind, heap, r, pos);
    assert heap[..][2 * r..] == leaves[2 * r..];
  }

  /** One step x of the pass: read input x (padding past the end), store it
      in the oldest leaf, walk up to the root and, when x - r > 0, write the
      root to position x - r. */
  method Push(kind: Kind, a: array<real>, start: int, stride: int, n: nat, r: nat, heap: array<Ext>,
              x: int, pos: int, ghost cur: int, ghost s: seq<real>)
    requires r >= 1
    requires LineIn(a.Length, start, stride, n) && (n <= 1 || stride >= 1)
    requires heap.Length == 4 * r + 1 && |s| == n
    requires 0 <= x < n + r && 0 <= cur < 2 * r + 1 && pos == 2 * r + cur
    requires Consistent(kind, heap[..], r) && Window(kind, heap[..], r, cur, s, x - (2 * r + 1))
    requires forall k :: 0 <= k < n ==>
      At(a[..], Pos(start, stride, k)) == if 1 <= k < x - r then Running(kind, s, r)[k] else s[k]
    modifies a, heap
    ensures Consistent(kind, heap[..], r) && Window(kind, heap[..], r, NextSlot(cur, r), s, x + 1 - (2 * r + 1))
    ensures forall k :: 0 <= k < n ==>
      At(a[..], Pos(start, stride, k)) == if 1 <= k < x + 1 - r then Running(kind, s, r)[k] else s[k]
    ensures OnlyLine(old(a[..]), a[..], start, stride, n)
  {
    var val := Pad(kind);
    if x < n {
      LinePos(a.Length, start, stride, n, x);
      val := Fin(a[start + x * stride]);
    }
    Insert(kind, heap, r, pos, val, cur, s, x);
    if x - r > 0 {
      Output(kind, a, start, stride, n, r, heap, x, NextSlot(cur, r), s);
    }
  }

  /** The output half of step x: the root, the extremum of the window
      centred on x - r, goes to position x - r. */
  method Output(kind: Kind, a: array<real>, start: int, stride: int, n: nat, r: nat, heap: array<Ext>,
                x: int, ghost cur: int, ghost s: seq<real>)
    requires LineIn(a.Length, start, stride, n) && (n <= 1 || stride >= 1)
    requires heap.Length == 4 * r + 1 && |s| == n
    requires 1 <= x - r < n && 0 <= cur < 2 * r + 1
    requires Consistent(kind, heap[..], r) && Window(kind, heap[..], r, cur, s, x + 1 - (2 * r + 1))
    requires forall k :: 0 <= k < n ==>
      At(a[..], Pos(start, stride, k)) == if 1 <= k < x - r then Running(kind, s, r)[k] else s[k]
    modifies a
    ensures forall k :: 0 <= k < n ==>
      At(a[..], Pos(start, stride, k)) == if 1 <= k < x + 1 - r then Running(kind, s, r)[k] else s[k]
    ensures OnlyLine(old(a[..]), a[..], start, stride, n)
  {
    RootIsBest(kind, heap[..], r, cur, s, x + 1 - (2 * r + 1), x - r);
    RunningAt(kind, s, r, x - r);
    Emit(kind, a, start, stride, n, r, x - r, heap[0].v, s);
  }

  /** The pass over the n samples at start, start + stride, ... of `a`,
      in place, with `heap` as the tree of 4r + 1 nodes. */
  method RunningExtremum(kind: Kind, a: array<real>, start: int, stride: int, n: nat, r: nat, heap: array<Ext>)
    requires r >= 1
    requires LineIn(a.Length, start, stride, n) && (n <= 1 || stride >= 1)
    requires heap.Length == 4 * r + 1
    modifies a, heap
    ensures OnlyLine(old(a[..]), a[..], start, stride, n)
    ensures LineOf(a[..], start, stride, n) == Running(kind, LineOf(old(a[..]), start, stride, n), r)
  {
    ghost var s := LineOf(a[..], start, stride, n);
    FillHeap(heap, Pad(kind));
    var pos := 2 * r;
    ghost var cur := 0;
    var x := 0;
    while x < n + r
      invariant 0 <= x <= n + r
      invariant 0 <= cur < 2 * r + 1 && pos == 2 * r + cur
      invariant Consistent(kind, heap[..], r)
      invariant Window(kind, heap[..], r, cur, s, x - (2 * r + 1))
      invariant OnlyLine(old(a[..]), a[..], start, stride, n)
      invariant forall k :: 0 <= k < n ==>
        At(a[..], Pos(start, stride, k)) == if 1 <= k < x - r then Running(kind, s, r)[k] else s[k]
    {
      ghost var a0 := a[..];
      Push(kind, a, start, stride, n, r, heap, x, pos, cur, s);
      OnlyLineTrans(old(a[..]), a0, a[..], start, stride, n);
      cur := NextSlot(cur, r);
      pos := pos + 1;
      if pos == heap.Length {
        pos := 2 * r;
      }
      x := x + 1;
    }
    assert LineOf(a[..], start, stride, n) == Running(kind, s, r);
  }
}
