/** `PercentileFilter::apply` and `MedianFilter::apply` (Filter.cpp): every
    output sample is the value of a given rank among the input samples of
    its frame and channel that lie under a disc around it.  Each scanline
    keeps a `SlidingNewImage` over a buffer of d * d slots, d = 2r + 1: the
    sample at column X of disc row i lives in slot `i*d + X%d`, so moving
    the disc one column right frees, in every row, the slot of the column
    leaving it for the column entering it.

    The specification is stated over image positions (X, Y).  While a
    scanline is swept, a ghost map from live slots to the positions whose
    samples they hold ties the window to the part of the image it covers. */
module Percentile {
  import opened Images
  import opened Lines
  import opened Disc
  import Circular
  import opened Window


  // ---------------------------------------------------------------------
  // Geometry of the support.

  /** Scanline y of an image of width w and height h, filtered with a disc
      of radius r. */
  datatype Sweep = Sweep(w: int, h: int, r: nat, y: int)

  /** Sample (X, Y) lies under disc row Y - y + r when that disc row is
      centred on column cx. */
  predicate Under(g: Sweep, cx: int, X: int, Y: int) {
    0 <= X < g.w && 0 <= Y < g.h && g.y - g.r <= Y <= g.y + g.r &&
    cx - Edge(g.r, Y - g.y + g.r) <= X <= cx + Edge(g.r, Y - g.y + g.r)
  }

  /** The in-image samples under the disc around (x, y). */
  ghost function Support(g: Sweep, x: int): set<(int, int)> {
    set X, Y | 0 <= X < g.w && 0 <= Y < g.h && Under(g, x, X, Y) :: (X, Y)
  }

  /** The points of a scanline's sweep between two window operations. */
  datatype Phase =
    | Shifting(col: int, row: int)  // moving from column col to col + 1: disc rows above row moved
    | Dropped(col: int, row: int)   // the same, and the leaving column of disc row `row` removed
    | Filling(row: int, upto: int)  // first fill: disc rows above row, and disc row `row` below column upto

  /** The positions the window holds at phase ph. */
  predicate Covers(g: Sweep, ph: Phase, X: int, Y: int) {
    match ph
    case Shifting(x, k) =>
      Under(g, if Y - g.y + g.r < k then x + 1 else x, X, Y)
    case Dropped(x, k) =>
      Under(g, if Y - g.y + g.r < k then x + 1 else x, X, Y) &&
      !(X == x - Edge(g.r, k) && Y == g.y + k - g.r)
    case Filling(k, j) =>
      Under(g, 0, X, Y) && (Y - g.y + g.r < k || (Y - g.y + g.r == k && X < j))
  }

  /** Removing the leaving column of disc row k. */
  lemma LeaveCovers(g: Sweep, x: int, k: int)
    ensures forall X, Y :: Covers(g, Dropped(x, k), X, Y) <==>
      Covers(g, Shifting(x, k), X, Y) && !(X == x - Edge(g.r, k) && Y == g.y + k - g.r)
  {
  }

  /** A leaving column left of the image was never covered. */
  lemma NoLeave(g: Sweep, x: int, k: int)
    requires x - Edge(g.r, k) < 0
    ensures forall X, Y :: Covers(g, Dropped(x, k), X, Y) <==> Covers(g, Shifting(x, k), X, Y)
  {
  }

  /** Adding the entering column of disc row k, inside the image, completes
      the row's move. */
  lemma EnterCovers(g: Sweep, x: int, k: int)
    requires 0 <= k < 2 * g.r + 1 && 0 <= g.y + k - g.r < g.h && 0 <= x + Edge(g.r, k) + 1 < g.w
    ensures forall X, Y :: Covers(g, Shifting(x, k + 1), X, Y) <==>
      Covers(g, Dropped(x, k), X, Y) || (X == x + Edge(g.r, k) + 1 && Y == g.y + k - g.r)
  {
    forall X, Y ensures Covers(g, Shifting(x, k + 1), X, Y) <==>
      Covers(g, Dropped(x, k), X, Y) || (X == x + Edge(g.r, k) + 1 && Y == g.y + k - g.r)
    {
      if Y == g.y + k - g.r {
        assert Y - g.y + g.r == k;
      }
    }
  }

  /** An entering column right of the image is never covered. */
  lemma NoEnter(g: Sweep, x: int, k: int)
    requires x + Edge(g.r, k) + 1 >= g.w
    ensures forall X, Y :: Covers(g, Shifting(x, k + 1), X, Y) <==> Covers(g, Dropped(x, k), X, Y)
  {
  }

  /** Disc rows from i on, below the image, cover nothing. */
  lemma BelowShift(g: Sweep, x: int, i: int, k: int)
    requires i <= k && g.y + i - g.r >= g.h
    ensures forall X, Y :: Covers(g, Shifting(x, k), X, Y) <==> Covers(g, Shifting(x, i), X, Y)
  {
  }

  /** Disc row i, above the image, covers nothing. */
  lemma AboveShift(g: Sweep, x: int, i: int)
    requires g.y + i - g.r < 0
    ensures forall X, Y :: Covers(g, Shifting(x, i + 1), X, Y) <==> Covers(g, Shifting(x, i), X, Y)
  {
  }

  /** Once every disc row has moved, the window is the one around x + 1. */
  lemma ShiftDone(g: Sweep, x: int, next: int, rows: int)
    requires next == x + 1 && rows == 2 * g.r + 1
    ensures forall X, Y :: Covers(g, Shifting(next, 0), X, Y) <==> Covers(g, Shifting(x, rows), X, Y)
  {
  }

  /** Adding column j of disc row k in the first fill. */
  lemma FillCovers(g: Sweep, k: int, j: int)
    requires 0 <= k < 2 * g.r + 1 && 0 <= g.y + k - g.r < g.h && 0 <= j < g.w && j <= Edge(g.r, k)
    ensures forall X, Y :: Covers(g, Filling(k, j + 1), X, Y) <==>
      Covers(g, Filling(k, j), X, Y) || (X == j && Y == g.y + k - g.r)
  {
    forall X, Y ensures Covers(g, Filling(k, j + 1), X, Y) <==>
      Covers(g, Filling(k, j), X, Y) || (X == j && Y == g.y + k - g.r)
    {
      if Y == g.y + k - g.r {
        assert Y - g.y + g.r == k;
      }
    }
  }

  /** Disc row k of the first fill ends at its edge or the image's. */
  lemma FillRowDone(g: Sweep, k: int, j: int)
    requires j == Edge(g.r, k) + 1 || j >= g.w
    ensures forall X, Y :: Covers(g, Filling(k + 1, 0), X, Y) <==> Covers(g, Filling(k, j), X, Y)
  {
  }

  /** Disc rows from i on, below the image, cover nothing. */
  lemma BelowFill(g: Sweep, i: int, k: int)
    requires i <= k && g.y + i - g.r >= g.h
    ensures forall X, Y :: Covers(g, Filling(k, 0), X, Y) <==> Covers(g, Filling(i, 0), X, Y)
  {
  }

  /** Disc row i, above the image, covers nothing. */
  lemma AboveFill(g: Sweep, i: int)
    requires g.y + i - g.r < 0
    ensures forall X, Y :: Covers(g, Filling(i + 1, 0), X, Y) <==> Covers(g, Filling(i, 0), X, Y)
  {
  }

  /** The complete first fill is the window around column 0. */
  lemma FillDone(g: Sweep)
    ensures forall X, Y :: Covers(g, Shifting(0, 0), X, Y) <==> Covers(g, Filling(2 * g.r + 1, 0), X, Y)
  {
  }

  // ---------------------------------------------------------------------
  // Slots.

  /** `i*d + X%d`: the slot of the sample at column X of image row Y, which
      is disc row i = Y - y + r. */
  function SlotOf(g: Sweep, X: int, Y: int): int {
    (Y - g.y + g.r) * (2 * g.r + 1) + X % (2 * g.r + 1)
  }

  lemma SlotRange(g: Sweep, X: int, Y: int)
    requires 0 <= Y - g.y + g.r < 2 * g.r + 1
    ensures 0 <= SlotOf(g, X, Y) < (2 * g.r + 1) * (2 * g.r + 1)
  {
    var d, i := 2 * g.r + 1, Y - g.y + g.r;
    assert i * d <= (d - 1) * d by {
      MulMono(i, d - 1, d);
    }
    MulMono(0, i, d);
  }

  /** Equal slots mean the same disc row and the same column modulo d. */
  lemma SlotRow(d: int, i: int, a: int, i': int, a': int)
    requires 0 <= a < d && 0 <= a' < d && i * d + a == i' * d + a'
    ensures i == i' && a == a'
  {
    if i < i' {
      assert (i' - i) * d >= d by {
        MulMono(1, i' - i, d);
      }
    } else if i' < i {
      assert (i - i') * d >= d by {
        MulMono(1, i - i', d);
      }
    }
  }

  /** Two columns less than d apart have different residues. */
  lemma ColumnsDiffer(d: int, X: int, X': int)
    requires d >= 1 && 0 < X - X' < d
    ensures X % d != X' % d
  {
    var q, q' := X / d, X' / d;
    assert X == d * q + X % d && X' == d * q' + X' % d;
    if X % d == X' % d {
      assert X - X' == d * (q - q');
      if q - q' >= 1 {
        MulMono(1, q - q', d);
      } else {
        MulMono(0, q' - q, d);
      }
    }
  }

  /** A column below d is its own residue. */
  lemma SmallColumn(d: int, X: int)
    requires 0 <= X < d
    ensures X % d == X
  {
  }

  /** In the first fill the slot is written `i*d + j`: the same as `i*d + j%d`
      because j never reaches d. */
  lemma FillSlot(g: Sweep, k: int, j: int)
    requires 0 <= j < 2 * g.r + 1
    ensures k * (2 * g.r + 1) + j == SlotOf(g, j, g.y + k - g.r)
  {
    SmallColumn(2 * g.r + 1, j);
  }

  // ---------------------------------------------------------------------
  // The window against the image.

  /** The ghost map m from live slots to positions: its keys are the live
      slots, each maps to a covered position whose slot it is and whose
      sample it holds, and every covered position is mapped from its slot. */
  ghost predicate Tracks(m: map<int, (int, int)>, buf: seq<real>, live: set<int>, p: (int, int) -> real,
                         g: Sweep, ph: Phase)
  {
    m.Keys == live &&
    (forall k :: k in m ==>
      0 <= k < |buf| && Covers(g, ph, m[k].0, m[k].1) && k == SlotOf(g, m[k].0, m[k].1) && buf[k] == p(m[k].0, m[k].1)) &&
    (forall X, Y :: Covers(g, ph, X, Y) ==> SlotOf(g, X, Y) in m && m[SlotOf(g, X, Y)] == (X, Y))
  }

  /** Tracking depends only on which positions are covered. */
  lemma TracksSame(m: map<int, (int, int)>, buf: seq<real>, live: set<int>, p: (int, int) -> real,
                   g: Sweep, ph0: Phase, ph1: Phase)
    requires Tracks(m, buf, live, p, g, ph0)
    requires forall X, Y :: Covers(g, ph0, X, Y) <==> Covers(g, ph1, X, Y)
    ensures Tracks(m, buf, live, p, g, ph1)
  {
  }

  /** Storing the sample of an uncovered position in its slot, which is
      dead, and marking the slot live, covers that position as well. */
  lemma TrackAdd(m: map<int, (int, int)>, buf: seq<real>, live: set<int>, p: (int, int) -> real,
                 g: Sweep, ph0: Phase, ph1: Phase, X: int, Y: int)
    requires Tracks(m, buf, live, p, g, ph0)
    requires 0 <= SlotOf(g, X, Y) < |buf| && SlotOf(g, X, Y) !in live
    requires forall X', Y' :: Covers(g, ph1, X', Y') <==> Covers(g, ph0, X', Y') || (X' == X && Y' == Y)
    ensures Tracks(m[SlotOf(g, X, Y) := (X, Y)], buf[SlotOf(g, X, Y) := p(X, Y)],
                   live + {SlotOf(g, X, Y)}, p, g, ph1)
  {
  }

  /** Marking the slot of a covered position dead uncovers that position. */
  lemma TrackDrop(m: map<int, (int, int)>, buf: seq<real>, live: set<int>, p: (int, int) -> real,
                  g: Sweep, ph0: Phase, ph1: Phase, X: int, Y: int)
    requires Tracks(m, buf, live, p, g, ph0) && Covers(g, ph0, X, Y)
    requires forall X', Y' :: Covers(g, ph1, X', Y') <==> Covers(g, ph0, X', Y') && !(X' == X && Y' == Y)
    ensures SlotOf(g, X, Y) in live
    ensures Tracks(m - {SlotOf(g, X, Y)}, buf, live - {SlotOf(g, X, Y)}, p, g, ph1)
  {
    var s0 := SlotOf(g, X, Y);
    var m' := m - {s0};
    forall X', Y' | Covers(g, ph1, X', Y')
      ensures SlotOf(g, X', Y') in m' && m'[SlotOf(g, X', Y')] == (X', Y')
    {
      assert m[SlotOf(g, X', Y')] == (X', Y') != m[s0];
    }
  }

  /** A live slot of disc row k: the row and residue of the position it holds. */
  lemma LiveSlot(m: map<int, (int, int)>, buf: seq<real>, live: set<int>, p: (int, int) -> real,
                 g: Sweep, ph: Phase, k: int, X: int) returns (q: (int, int))
    requires Tracks(m, buf, live, p, g, ph)
    requires SlotOf(g, X, g.y + k - g.r) in live
    ensures Covers(g, ph, q.0, q.1) && q.1 == g.y + k - g.r && q.0 % (2 * g.r + 1) == X % (2 * g.r + 1)
  {
    var d := 2 * g.r + 1;
    q := m[SlotOf(g, X, g.y + k - g.r)];
    assert 0 <= q.1 - g.y + g.r < d by {
      assert Covers(g, ph, q.0, q.1);
    }
    SlotRow(d, k, X % d, q.1 - g.y + g.r, q.0 % d);
  }

  /** The fill's next slot `i*d + j` is dead: the live slots of row k hold
      columns below j. */
  lemma FillFree(m: map<int, (int, int)>, buf: seq<real>, live: set<int>, p: (int, int) -> real,
                 g: Sweep, k: int, j: int)
    requires Tracks(m, buf, live, p, g, Filling(k, j))
    requires 0 <= k < 2 * g.r + 1 && 0 <= j < 2 * g.r + 1
    ensures SlotOf(g, j, g.y + k - g.r) !in live
  {
    if SlotOf(g, j, g.y + k - g.r) in live {
      var q := LiveSlot(m, buf, live, p, g, Filling(k, j), k, j);
      SmallColumn(2 * g.r + 1, j);
      SmallColumn(2 * g.r + 1, q.0);
    }
  }

  /** The shift's entering slot is dead: the live slots of row k hold the
      columns x - edge + 1 .. x + edge. */
  lemma EnterFree(m: map<int, (int, int)>, buf: seq<real>, live: set<int>, p: (int, int) -> real,
                  g: Sweep, x: int, k: int)
    requires Tracks(m, buf, live, p, g, Dropped(x, k))
    requires 0 <= k < 2 * g.r + 1
    ensures SlotOf(g, x + Edge(g.r, k) + 1, g.y + k - g.r) !in live
  {
    var X := x + Edge(g.r, k) + 1;
    if SlotOf(g, X, g.y + k - g.r) in live {
      var q := LiveSlot(m, buf, live, p, g, Dropped(x, k), k, X);
      EdgeIsWidest(g.r, k);
      assert x - Edge(g.r, k) < q.0 <= x + Edge(g.r, k);
      ColumnsDiffer(2 * g.r + 1, X, q.0);
    }
  }

  // ---------------------------------------------------------------------
  // Rank.

  /** v is the value of rank `rank` (counting from 1) among the samples p
      takes on P: it is one of them, fewer than `rank` of them lie below it,
      and at least `rank` lie at or below it. */
  ghost predicate Ranked(P: set<(int, int)>, p: (int, int) -> real, v: real, rank: int) {
    (exists q :: q in P && p(q.0, q.1) == v) &&
    |set q | q in P && p(q.0, q.1) < v| < rank <= |set q | q in P && p(q.0, q.1) <= v|
  }

  /** The value of a given rank is unique. */
  lemma RankedUnique(P: set<(int, int)>, p: (int, int) -> real, v: real, v': real, rank: int)
    requires Ranked(P, p, v, rank) && Ranked(P, p, v', rank)
    ensures v == v'
  {
    if v < v' {
      SubsetSize(set q | q in P && p(q.0, q.1) <= v, set q | q in P && p(q.0, q.1) < v');
    } else if v' < v {
      SubsetSize(set q | q in P && p(q.0, q.1) <= v', set q | q in P && p(q.0, q.1) < v);
    }
  }

  /** The map is injective on the live slots, so the live slots of a below
      n are as many as the positions they map to. */
  lemma {:induction false} ImageSize(m: map<int, (int, int)>, a: set<int>, g: Sweep, n: int)
    requires forall k :: k in a ==> 0 <= k && k in m && k == SlotOf(g, m[k].0, m[k].1)
    ensures |set k | k in a && k < n :: m[k]| == |set k | k in a && k < n|
    decreases n
  {
    var below := set k | k in a && k < n;
    var image := set k | k in a && k < n :: m[k];
    if n <= 0 {
      assert below == {};
      assert image == {};
    } else {
      ImageSize(m, a, g, n - 1);
      var below' := set k | k in a && k < n - 1;
      var image' := set k | k in a && k < n - 1 :: m[k];
      if n - 1 in a {
        assert below == below' + {n - 1};
        assert image == image' + {m[n - 1]};
        assert m[n - 1] !in image';
      } else {
        assert below == below';
        assert image == image';
      }
    }
  }

  /** A set of live slots and the set of positions they map to have equal
      sizes. */
  lemma CountVia(m: map<int, (int, int)>, buf: seq<real>, live: set<int>, p: (int, int) -> real,
                 g: Sweep, ph: Phase, a: set<int>, b: set<(int, int)>)
    requires Tracks(m, buf, live, p, g, ph) && a <= live
    requires forall k :: k in a ==> m[k] in b
    requires forall q :: q in b ==> Covers(g, ph, q.0, q.1) && SlotOf(g, q.0, q.1) in a
    ensures |a| == |b|
  {
    ImageSize(m, a, g, |buf|);
    assert (set k | k in a && k < |buf|) == a;
    var image := set k | k in a && k < |buf| :: m[k];
    forall q | q in b ensures q in image {
      assert m[SlotOf(g, q.0, q.1)] == q;
    }
    assert image == b;
  }

  /** So the live slots rank a value as the covered positions do. */
  lemma CountsAgree(m: map<int, (int, int)>, buf: seq<real>, live: set<int>, p: (int, int) -> real,
                    g: Sweep, ph: Phase, P: set<(int, int)>, v: real)
    requires Tracks(m, buf, live, p, g, ph)
    requires forall q :: q in P <==> Covers(g, ph, q.0, q.1)
    ensures |live| == |P|
    ensures |set k | k in live && buf[k] < v| == |set q | q in P && p(q.0, q.1) < v|
    ensures |set k | k in live && buf[k] <= v| == |set q | q in P && p(q.0, q.1) <= v|
  {
    CountVia(m, buf, live, p, g, ph, live, P);
    CountVia(m, buf, live, p, g, ph, set k | k in live && buf[k] < v, set q | q in P && p(q.0, q.1) < v);
    CountVia(m, buf, live, p, g, ph, set k | k in live && buf[k] <= v, set q | q in P && p(q.0, q.1) <= v);
  }

  /** Between two shifts the window covers exactly the support. */
  lemma SupportIsCover(g: Sweep, x: int)
    ensures forall q :: q in Support(g, x) <==> Covers(g, Shifting(x, 0), q.0, q.1)
  {
    forall q: (int, int) | Covers(g, Shifting(x, 0), q.0, q.1) ensures q in Support(g, x) {
      assert Under(g, x, q.0, q.1);
    }
  }

  /** After `rebalance`, with ordered partitions, the pivot is the value of
      rank `total - Desired(total, percentile)` under the disc. */
  lemma PivotIsPercentile(m: map<int, (int, int)>, buf: seq<real>, low: set<int>, high: set<int>,
                          p: (int, int) -> real, g: Sweep, x: int, percentile: real, v: real)
    requires Tracks(m, buf, low + high, p, g, Shifting(x, 0))
    requires low !! high && Ordered(buf, low, high) && low != {} && IsMax(buf, low, v)
    requires |high| == Desired(|low + high|, percentile)
    ensures Ranked(Support(g, x), p, v, |Support(g, x)| - Desired(|Support(g, x)|, percentile))
  {
    var P := Support(g, x);
    SupportIsCover(g, x);
    CountsAgree(m, buf, low + high, p, g, Shifting(x, 0), P, v);
    PivotRank(buf, low, high, v);
    DisjointSize(low, high);
    var k :| k in low && 0 <= k < |buf| && buf[k] == v;
    assert m[k] in P && p(m[k].0, m[k].1) == v;
  }

  /** The window around (x, y) is never empty: it holds (x, y) itself. */
  lemma CentreCovered(g: Sweep, x: int)
    requires 0 <= x < g.w && 0 <= g.y < g.h
    ensures Covers(g, Shifting(x, 0), x, g.y)
  {
  }

  // ---------------------------------------------------------------------
  // The output.

  /** v is what the filter should write at (x, y) of frame t, channel c:
      the value of rank `n - Desired(n, percentile)` among the n samples
      under the disc. */
  ghost predicate IsPercentile(im: Image, s: seq<real>, r: nat, percentile: real,
                               x: int, y: int, t: int, c: int, v: real)
  {
    var P := Support(Sweep(im.width, im.height, r, y), x);
    Ranked(P, Circular.PlaneOf(im, s, t, c), v, |P| - Desired(|P|, percentile))
  }

  /** The output with the sweep standing at column x of row (y, t, c):
      samples written so far hold their percentile, the others are zero. */
  ghost predicate Done(out: Image, so: seq<real>, im: Image, s: seq<real>, r: nat, percentile: real,
                       x: int, y: int, t: int, c: int)
  {
    forall x', y', t', c' :: InBounds(out, x', y', t', c') ==>
      if Circular.Written(x', y', t', c', x, y, t, c)
      then IsPercentile(im, s, r, percentile, x', y', t', c', At(so, Offset(out, x', y', t', c')))
      else At(so, Offset(out, x', y', t', c')) == 0.0
  }

  /** Writing the percentile at (x, y, t, c) moves the sweep one column on. */
  lemma DoneStep(out: Image, s0: seq<real>, s1: seq<real>, im: Image, s: seq<real>, r: nat, percentile: real,
                 x: int, y: int, t: int, c: int, v: real)
    requires Injective(out) && InBounds(out, x, y, t, c) && Done(out, s0, im, s, r, percentile, x, y, t, c)
    requires 0 <= Offset(out, x, y, t, c) < |s0| && s1 == s0[Offset(out, x, y, t, c) := v]
    requires IsPercentile(im, s, r, percentile, x, y, t, c, v)
    ensures Done(out, s1, im, s, r, percentile, x + 1, y, t, c)
  {
    forall x', y', t', c' | InBounds(out, x', y', t', c') && (x', y', t', c') != (x, y, t, c)
      ensures At(s1, Offset(out, x', y', t', c')) == At(s0, Offset(out, x', y', t', c'))
    {
      assert CellPos(out, x', y', t', c') != CellPos(out, x, y, t, c);
    }
  }

  /** Two sweep positions that have written the same samples. */
  lemma DoneSame(out: Image, so: seq<real>, im: Image, s: seq<real>, r: nat, percentile: real,
                 x: int, y: int, t: int, c: int, x1: int, y1: int, t1: int, c1: int)
    requires Done(out, so, im, s, r, percentile, x, y, t, c)
    requires forall x', y', t', c' :: InBounds(out, x', y', t', c') ==>
      (Circular.Written(x', y', t', c', x, y, t, c) <==> Circular.Written(x', y', t', c', x1, y1, t1, c1))
    ensures Done(out, so, im, s, r, percentile, x1, y1, t1, c1)
  {
  }

  // ---------------------------------------------------------------------
  // The sweep.

  /** The window of scanline g.y of the plane p, with its ghost map, at
      phase ph: sound, of d * d slots, tracking, and ordered. */
  ghost predicate Tracking(win: SlidingNewImage, m: map<int, (int, int)>, p: (int, int) -> real, g: Sweep, ph: Phase)
    reads win
  {
    win.Valid() && |win.buf| == (2 * g.r + 1) * (2 * g.r + 1) &&
    Tracks(m, win.buf, win.Low() + win.High(), p, g, ph) &&
    Ordered(win.buf, win.Low(), win.High())
  }

  /** `edge[i]` holds the half-width of disc row i. */
  predicate Profile(edge: array<int>, r: nat)
    reads edge
  {
    edge.Length == 2 * r + 1 && forall i :: 0 <= i < edge.Length ==> edge[i] == Edge(r, i)
  }

  /** Scanline y of image im with a disc of radius r. */
  function SweepOf(im: Image, r: nat, y: int): Sweep {
    Sweep(im.width, im.height, r, y)
  }

  /** Re-reading the window at a phase that covers the same positions. */
  lemma Retrack(win: SlidingNewImage, m: map<int, (int, int)>, p: (int, int) -> real, g: Sweep, ph0: Phase, ph1: Phase)
    requires Tracking(win, m, p, g, ph0)
    requires forall X, Y :: Covers(g, ph0, X, Y) <==> Covers(g, ph1, X, Y)
    ensures Tracking(win, m, p, g, ph1)
  {
    TracksSame(m, win.buf, win.Low() + win.High(), p, g, ph0, ph1);
  }

  /** The phase changes that touch no slot. */
  lemma SkipLeave(win: SlidingNewImage, m: map<int, (int, int)>, p: (int, int) -> real, g: Sweep, x: int, k: int)
    requires Tracking(win, m, p, g, Shifting(x, k)) && x - Edge(g.r, k) < 0
    ensures Tracking(win, m, p, g, Dropped(x, k))
  {
    NoLeave(g, x, k);
    Retrack(win, m, p, g, Shifting(x, k), Dropped(x, k));
  }

  lemma SkipEnter(win: SlidingNewImage, m: map<int, (int, int)>, p: (int, int) -> real, g: Sweep, x: int, k: int)
    requires Tracking(win, m, p, g, Dropped(x, k)) && x + Edge(g.r, k) + 1 >= g.w
    ensures Tracking(win, m, p, g, Shifting(x, k + 1))
  {
    NoEnter(g, x, k);
    Retrack(win, m, p, g, Dropped(x, k), Shifting(x, k + 1));
  }

  lemma ShiftAbove(win: SlidingNewImage, m: map<int, (int, int)>, p: (int, int) -> real, g: Sweep, x: int, i: int)
    requires Tracking(win, m, p, g, Shifting(x, i)) && g.y + i - g.r < 0
    ensures Tracking(win, m, p, g, Shifting(x, i + 1))
  {
    AboveShift(g, x, i);
    Retrack(win, m, p, g, Shifting(x, i), Shifting(x, i + 1));
  }

  lemma ShiftBelow(win: SlidingNewImage, m: map<int, (int, int)>, p: (int, int) -> real, g: Sweep, x: int, i: int)
    requires Tracking(win, m, p, g, Shifting(x, i)) && i <= 2 * g.r + 1 && g.y + i - g.r >= g.h
    ensures Tracking(win, m, p, g, Shifting(x + 1, 0))
  {
    BelowShift(g, x, i, 2 * g.r + 1);
    ShiftDone(g, x, x + 1, 2 * g.r + 1);
    Retrack(win, m, p, g, Shifting(x, i), Shifting(x + 1, 0));
  }

  lemma ShiftEnd(win: SlidingNewImage, m: map<int, (int, int)>, p: (int, int) -> real, g: Sweep, x: int, i: int)
    requires Tracking(win, m, p, g, Shifting(x, i)) && i == 2 * g.r + 1
    ensures Tracking(win, m, p, g, Shifting(x + 1, 0))
  {
    ShiftDone(g, x, x + 1, 2 * g.r + 1);
    Retrack(win, m, p, g, Shifting(x, i), Shifting(x + 1, 0));
  }

  lemma FillAbove(win: SlidingNewImage, m: map<int, (int, int)>, p: (int, int) -> real, g: Sweep, i: int)
    requires Tracking(win, m, p, g, Filling(i, 0)) && g.y + i - g.r < 0
    ensures Tracking(win, m, p, g, Filling(i + 1, 0))
  {
    AboveFill(g, i);
    Retrack(win, m, p, g, Filling(i, 0), Filling(i + 1, 0));
  }

  lemma FillBelow(win: SlidingNewImage, m: map<int, (int, int)>, p: (int, int) -> real, g: Sweep, i: int)
    requires Tracking(win, m, p, g, Filling(i, 0)) && i <= 2 * g.r + 1 && g.y + i - g.r >= g.h
    ensures Tracking(win, m, p, g, Shifting(0, 0))
  {
    BelowFill(g, i, 2 * g.r + 1);
    FillDone(g);
    Retrack(win, m, p, g, Filling(i, 0), Shifting(0, 0));
  }

  lemma FillEnd(win: SlidingNewImage, m: map<int, (int, int)>, p: (int, int) -> real, g: Sweep, i: int)
    requires Tracking(win, m, p, g, Filling(i, 0)) && i == 2 * g.r + 1
    ensures Tracking(win, m, p, g, Shifting(0, 0))
  {
    FillDone(g);
    Retrack(win, m, p, g, Filling(i, 0), Shifting(0, 0));
  }

  lemma FillRowEnd(win: SlidingNewImage, m: map<int, (int, int)>, p: (int, int) -> real, g: Sweep, k: int, j: int)
    requires Tracking(win, m, p, g, Filling(k, j)) && (j == Edge(g.r, k) + 1 || j >= g.w)
    ensures Tracking(win, m, p, g, Filling(k + 1, 0))
  {
    FillRowDone(g, k, j);
    Retrack(win, m, p, g, Filling(k, j), Filling(k + 1, 0));
  }

  /** `window.insert(key, im(X, Y, t, c))` for an uncovered position whose
      slot is key, which is then dead. */
  method Enter(win: SlidingNewImage, im: Image, ghost g: Sweep, t: int, c: int, key: int, X: int, Y: int,
               ghost m0: map<int, (int, int)>, ghost p: (int, int) -> real, ghost ph0: Phase, ghost ph1: Phase)
    returns (ghost m: map<int, (int, int)>)
    requires Valid(im) && InBounds(im, X, Y, t, c) && p == Circular.PlaneOf(im, Samples(im), t, c)
    requires Tracking(win, m0, p, g, ph0) && 0 <= Y - g.y + g.r < 2 * g.r + 1
    requires key == SlotOf(g, X, Y) && key !in win.Low() + win.High()
    requires forall X', Y' :: Covers(g, ph1, X', Y') <==> Covers(g, ph0, X', Y') || (X' == X && Y' == Y)
    modifies win
    ensures Tracking(win, m, p, g, ph1)
  {
    SlotRange(g, X, Y);
    InStorage(im, X, Y, t, c);
    var val := Get(im, X, Y, t, c);
    ghost var buf0, live0 := win.buf, win.Low() + win.High();
    TrackAdd(m0, buf0, live0, p, g, ph0, ph1, X, Y);
    win.InsertChecked(key, val);
    m := m0[key := (X, Y)];
  }

  /** `window.remove(key)` where key is the slot of the leaving column of
      disc row k, which is in the image. */
  method Leave(win: SlidingNewImage, ghost g: Sweep, key: int, ghost x: int, ghost k: int,
               ghost m0: map<int, (int, int)>, ghost p: (int, int) -> real)
    returns (ghost m: map<int, (int, int)>)
    requires Tracking(win, m0, p, g, Shifting(x, k))
    requires 0 <= k < 2 * g.r + 1 && 0 <= g.y + k - g.r < g.h && 0 <= x - Edge(g.r, k) && x < g.w
    requires key == SlotOf(g, x - Edge(g.r, k), g.y + k - g.r)
    modifies win
    ensures Tracking(win, m, p, g, Dropped(x, k))
  {
    LeaveCovers(g, x, k);
    LeftCovered(g, x, k);
    TrackDrop(m0, win.buf, win.Low() + win.High(), p, g, Shifting(x, k), Dropped(x, k), x - Edge(g.r, k), g.y + k - g.r);
    win.Remove(key);
    m := m0 - {key};
  }

  /** The leaving column of disc row k, when in the image, is covered before
      the move. */
  lemma LeftCovered(g: Sweep, x: int, k: int)
    requires 0 <= k < 2 * g.r + 1 && 0 <= g.y + k - g.r < g.h && 0 <= x - Edge(g.r, k) && x < g.w
    ensures Covers(g, Shifting(x, k), x - Edge(g.r, k), g.y + k - g.r)
  {
    assert (g.y + k - g.r) - g.y + g.r == k;
  }

  /** The slot of column X of disc row k. */
  lemma RowSlot(g: Sweep, k: int, X: int, d: int)
    requires d == 2 * g.r + 1
    ensures k * d + X % d == SlotOf(g, X, g.y + k - g.r)
  {
  }

  /** `for (j = 0; j <= xoff; j++)`, breaking at the right edge: disc row k
      of the first window, columns 0 .. min(edge[k], width - 1). */
  method FillRow(win: SlidingNewImage, im: Image, edge: array<int>, r: nat, y: int, t: int, c: int, k: int,
                 ghost m0: map<int, (int, int)>, ghost p: (int, int) -> real)
    returns (ghost m: map<int, (int, int)>)
    requires Valid(im) && 0 <= t < im.frames && 0 <= c < im.channels && p == Circular.PlaneOf(im, Samples(im), t, c)
    requires Profile(edge, r) && 0 <= k < 2 * r + 1 && 0 <= y + k - r < im.height
    requires Tracking(win, m0, p, SweepOf(im, r, y), Filling(k, 0))
    modifies win
    ensures Tracking(win, m, p, SweepOf(im, r, y), Filling(k + 1, 0))
  {
    ghost var g := SweepOf(im, r, y);
    var d := 2 * r + 1;
    var xoff := edge[k];
    EdgeIsWidest(r, k);
    m := m0;
    var j := 0;
    while j <= xoff
      invariant 0 <= j <= xoff + 1
      invariant Tracking(win, m, p, g, Filling(k, j))
    {
      if j >= im.width {
        break;
      }
      FillSlot(g, k, j);
      FillFree(m, win.buf, win.Low() + win.High(), p, g, k, j);
      FillCovers(g, k, j);
      m := Enter(win, im, g, t, c, k * d + j, j, y + k - r, m, p, Filling(k, j), Filling(k, j + 1));
      j := j + 1;
    }
    FillRowEnd(win, m, p, g, k, j);
  }

  /** The first window of scanline y: `for i`, with `break` below the image
      and `continue` above it (the `break` ends the method here). */
  method Fill(win: SlidingNewImage, im: Image, edge: array<int>, r: nat, y: int, t: int, c: int,
              ghost p: (int, int) -> real)
    returns (ghost m: map<int, (int, int)>)
    requires Valid(im) && 0 <= t < im.frames && 0 <= c < im.channels && p == Circular.PlaneOf(im, Samples(im), t, c)
    requires Profile(edge, r)
    requires win.Valid() && |win.buf| == (2 * r + 1) * (2 * r + 1) && win.Low() == {} && win.High() == {}
    modifies win
    ensures Tracking(win, m, p, SweepOf(im, r, y), Shifting(0, 0))
  {
    ghost var g := SweepOf(im, r, y);
    m := map[];
    var i := 0;
    while i < 2 * r + 1
      invariant 0 <= i <= 2 * r + 1
      invariant Tracking(win, m, p, g, Filling(i, 0))
    {
      var yoff := i - r;
      if y + yoff >= im.height {
        FillBelow(win, m, p, g, i);
        return;
      }
      if y + yoff < 0 {
        FillAbove(win, m, p, g, i);
        i := i + 1;
        continue;
      }
      m := FillRow(win, im, edge, r, y, t, c, i, m, p);
      i := i + 1;
    }
    FillEnd(win, m, p, g, i);
  }

  /** `if (x - xoff >= 0) window.remove(i*d + (x-xoff)%d)`: the leaving
      column of disc row k, if it is in the image. */
  method LeaveLeft(win: SlidingNewImage, im: Image, edge: array<int>, r: nat, x: int, y: int, k: int,
                   ghost m0: map<int, (int, int)>, ghost p: (int, int) -> real)
    returns (ghost m: map<int, (int, int)>)
    requires Profile(edge, r) && 0 <= k < 2 * r + 1 && 0 <= y + k - r < im.height && 0 <= x < im.width
    requires Tracking(win, m0, p, SweepOf(im, r, y), Shifting(x, k))
    modifies win
    ensures Tracking(win, m, p, SweepOf(im, r, y), Dropped(x, k))
  {
    ghost var g := SweepOf(im, r, y);
    var d := 2 * r + 1;
    var xoff := edge[k];
    m := m0;
    assert xoff == Edge(g.r, k) && g.r == r && g.y == y;
    if x - xoff >= 0 {
      RowSlot(g, k, x - xoff, d);
      m := Leave(win, g, k * d + (x - xoff) % d, x, k, m, p);
    } else {
      SkipLeave(win, m, p, g, x, k);
    }
  }

  /** `if (x + xoff + 1 < width) window.insert(i*d + (x+xoff+1)%d, ...)`: the
      entering column of disc row k, if it is in the image. */
  method EnterRight(win: SlidingNewImage, im: Image, edge: array<int>, r: nat, x: int, y: int, t: int, c: int, k: int,
                    ghost m0: map<int, (int, int)>, ghost p: (int, int) -> real)
    returns (ghost m: map<int, (int, int)>)
    requires Valid(im) && 0 <= t < im.frames && 0 <= c < im.channels && p == Circular.PlaneOf(im, Samples(im), t, c)
    requires Profile(edge, r) && 0 <= k < 2 * r + 1 && 0 <= y + k - r < im.height && 0 <= x
    requires Tracking(win, m0, p, SweepOf(im, r, y), Dropped(x, k))
    modifies win
    ensures Tracking(win, m, p, SweepOf(im, r, y), Shifting(x, k + 1))
  {
    ghost var g := SweepOf(im, r, y);
    var d := 2 * r + 1;
    var xoff := edge[k];
    m := m0;
    assert xoff == Edge(g.r, k) && g.r == r && g.y == y;
    if x + xoff + 1 < im.width {
      EnterFree(m, win.buf, win.Low() + win.High(), p, g, x, k);
      EnterCovers(g, x, k);
      RowSlot(g, k, x + xoff + 1, d);
      m := Enter(win, im, g, t, c, k * d + (x + xoff + 1) % d, x + xoff + 1, y + k - r, m, p, Dropped(x, k), Shifting(x, k + 1));
    } else {
      SkipEnter(win, m, p, g, x, k);
    }
  }

  /** "Move the support one to the right": `for i`, with `break` below the
      image and `continue` above it. */
  method Shift(win: SlidingNewImage, im: Image, edge: array<int>, r: nat, x: int, y: int, t: int, c: int,
               ghost m0: map<int, (int, int)>, ghost p: (int, int) -> real)
    returns (ghost m: map<int, (int, int)>)
    requires Valid(im) && 0 <= t < im.frames && 0 <= c < im.channels && p == Circular.PlaneOf(im, Samples(im), t, c)
    requires Profile(edge, r) && 0 <= x < im.width
    requires Tracking(win, m0, p, SweepOf(im, r, y), Shifting(x, 0))
    modifies win
    ensures Tracking(win, m, p, SweepOf(im, r, y), Shifting(x + 1, 0))
  {
    ghost var g := SweepOf(im, r, y);
    m := m0;
    var i := 0;
    while i < 2 * r + 1
      invariant 0 <= i <= 2 * r + 1
      invariant Tracking(win, m, p, g, Shifting(x, i))
    {
      var yoff := i - r;
      if y + yoff >= im.height {
        ShiftBelow(win, m, p, g, x, i);
        return;
      }
      if y + yoff < 0 {
        ShiftAbove(win, m, p, g, x, i);
        i := i + 1;
        continue;
      }
      m := LeaveLeft(win, im, edge, r, x, y, i, m, p);
      m := EnterRight(win, im, edge, r, x, y, t, c, i, m, p);
      i := i + 1;
    }
    ShiftEnd(win, m, p, g, x, i);
  }

  /** The body of `for x`: `rebalance`, then write `pivot()` at (x, y). */
  method Emit(win: SlidingNewImage, im: Image, out: Image, r: nat, percentile: real, x: int, y: int, t: int, c: int,
              ghost m: map<int, (int, int)>, ghost p: (int, int) -> real)
    requires Circular.Pair(im, out) && Injective(out) && InBounds(im, x, y, t, c)
    requires p == Circular.PlaneOf(im, Samples(im), t, c)
    requires Tracking(win, m, p, SweepOf(im, r, y), Shifting(x, 0))
    requires Done(out, out.data[..], im, Samples(im), r, percentile, x, y, t, c)
    modifies win, out.data
    ensures Tracking(win, m, p, SweepOf(im, r, y), Shifting(x, 0))
    ensures Done(out, out.data[..], im, Samples(im), r, percentile, x + 1, y, t, c)
  {
    ghost var g := SweepOf(im, r, y);
    ghost var s := Samples(im);
    CentreCovered(g, x);
    assert SlotOf(g, x, y) in win.Low() + win.High();
    win.Rebalance(percentile);
    var v := win.Pivot();
    DisjointSize(win.Low(), win.High());
    PivotIsPercentile(m, win.buf, win.Low(), win.High(), p, g, x, percentile, v);
    ghost var s0 := out.data[..];
    InStorage(out, x, y, t, c);
    Put(out, x, y, t, c, v);
    DoneStep(out, s0, out.data[..], im, s, r, percentile, x, y, t, c, v);
  }

  /** One output scanline: a fresh window of d * d slots, the first fill,
      then `for x`, emit and shift. */
  method FilterRow(im: Image, out: Image, edge: array<int>, r: nat, percentile: real, y: int, t: int, c: int)
    requires Circular.Pair(im, out) && Injective(out) && InBounds(im, 0, y, t, c) && Profile(edge, r)
    requires Done(out, out.data[..], im, Samples(im), r, percentile, 0, y, t, c)
    modifies out.data
    ensures Done(out, out.data[..], im, Samples(im), r, percentile, 0, y + 1, t, c)
  {
    ghost var p := Circular.PlaneOf(im, Samples(im), t, c);
    var d := 2 * r + 1;
    MulMono(1, d, d);
    var win := new SlidingNewImage(d * d);
    ghost var m := Fill(win, im, edge, r, y, t, c, p);
    Scan(win, im, out, edge, r, percentile, y, t, c, m, p);
    DoneSame(out, out.data[..], im, Samples(im), r, percentile, im.width, y, t, c, 0, y + 1, t, c);
  }

  /** `for x`: emit the percentile at (x, y), then slide the window one
      column right. */
  method Scan(win: SlidingNewImage, im: Image, out: Image, edge: array<int>, r: nat, percentile: real,
             y: int, t: int, c: int, ghost m0: map<int, (int, int)>, ghost p: (int, int) -> real)
    requires Circular.Pair(im, out) && Injective(out) && InBounds(im, 0, y, t, c) && Profile(edge, r)
    requires p == Circular.PlaneOf(im, Samples(im), t, c)
    requires Tracking(win, m0, p, SweepOf(im, r, y), Shifting(0, 0))
    requires Done(out, out.data[..], im, Samples(im), r, percentile, 0, y, t, c)
    modifies win, out.data
    ensures Done(out, out.data[..], im, Samples(im), r, percentile, im.width, y, t, c)
  {
    ghost var s := Samples(im);
    ghost var m := m0;
    var x := 0;
    while x < im.width
      invariant 0 <= x <= im.width && Samples(im) == s
      invariant Tracking(win, m, p, SweepOf(im, r, y), Shifting(x, 0))
      invariant Done(out, out.data[..], im, s, r, percentile, x, y, t, c)
    {
      Emit(win, im, out, r, percentile, x, y, t, c, m, p);
      m := Shift(win, im, edge, r, x, y, t, c, m, p);
      x := x + 1;
    }
  }

  /** The scanlines of frame t, channel c: `for y`. */
  method FilterRows(im: Image, out: Image, edge: array<int>, r: nat, percentile: real, t: int, c: int)
    requires Circular.Pair(im, out) && Injective(out) && 0 <= t < im.frames && 0 <= c < im.channels && Profile(edge, r)
    requires Done(out, out.data[..], im, Samples(im), r, percentile, 0, 0, t, c)
    modifies out.data
    ensures Done(out, out.data[..], im, Samples(im), r, percentile, 0, 0, t + 1, c)
  {
    ghost var s := Samples(im);
    var y := 0;
    while y < im.height
      invariant 0 <= y <= im.height && Samples(im) == s
      invariant Done(out, out.data[..], im, s, r, percentile, 0, y, t, c)
    {
      FilterRow(im, out, edge, r, percentile, y, t, c);
      y := y + 1;
    }
    DoneSame(out, out.data[..], im, s, r, percentile, 0, im.height, t, c, 0, 0, t + 1, c);
  }

  /** The frames of channel c: `for t`. */
  method FilterFrames(im: Image, out: Image, edge: array<int>, r: nat, percentile: real, c: int)
    requires Circular.Pair(im, out) && Injective(out) && 0 <= c < im.channels && Profile(edge, r)
    requires Done(out, out.data[..], im, Samples(im), r, percentile, 0, 0, 0, c)
    modifies out.data
    ensures Done(out, out.data[..], im, Samples(im), r, percentile, 0, 0, 0, c + 1)
  {
    ghost var s := Samples(im);
    var t := 0;
    while t < im.frames
      invariant 0 <= t <= im.frames && Samples(im) == s
      invariant Done(out, out.data[..], im, s, r, percentile, 0, 0, t, c)
    {
      FilterRows(im, out, edge, r, percentile, t, c);
      t := t + 1;
    }
    DoneSame(out, out.data[..], im, s, r, percentile, 0, 0, im.frames, c, 0, 0, 0, c + 1);
  }

  /** The channels: `for c`, starting from the zero-filled output. */
  method FilterChannels(im: Image, out: Image, edge: array<int>, r: nat, percentile: real)
    requires Circular.Pair(im, out) && Injective(out) && Profile(edge, r)
    requires forall i :: 0 <= i < out.data.Length ==> out.data[i] == 0.0
    modifies out.data
    ensures Done(out, out.data[..], im, Samples(im), r, percentile, 0, 0, 0, im.channels)
  {
    ghost var s := Samples(im);
    var c := 0;
    while c < im.channels
      invariant 0 <= c <= im.channels && Samples(im) == s
      invariant Done(out, out.data[..], im, s, r, percentile, 0, 0, 0, c)
    {
      FilterFrames(im, out, edge, r, percentile, c);
      c := c + 1;
    }
  }

  /** Once every channel is done, every output sample reads as its
      percentile. */
  lemma FilterDone(im: Image, out: Image, s: seq<real>, r: nat, percentile: real)
    requires Valid(out) && out.data != null
    requires Done(out, out.data[..], im, s, r, percentile, 0, 0, 0, out.channels)
    ensures forall x, y, t, c :: InBounds(out, x, y, t, c) ==> IsPercentile(im, s, r, percentile, x, y, t, c, Get(out, x, y, t, c))
  {
    forall x, y, t, c | InBounds(out, x, y, t, c)
      ensures IsPercentile(im, s, r, percentile, x, y, t, c, Get(out, x, y, t, c))
    {
      InStorage(out, x, y, t, c);
    }
  }

  /** `PercentileFilter::apply(im, radius, percentile)`: a fresh image of the
      same size whose every sample is the value of rank
      `n - Desired(n, percentile)` among the n input samples of its frame
      and channel under the disc of the given radius around it.  The input
      is only read.  `addr` is the byte address the allocator returns for
      the output's store. */
  method Apply(im: Image, radius: nat, percentile: real, addr: nat) returns (out: Image)
    requires Valid(im) && addr % 4 == 0
    ensures out.data != null && fresh(out.data) && Valid(out) && Dense(out)
    ensures out.width == im.width && out.height == im.height && out.frames == im.frames && out.channels == im.channels
    ensures forall x, y, t, c :: InBounds(out, x, y, t, c) ==>
      IsPercentile(im, Samples(im), radius, percentile, x, y, t, c, Get(out, x, y, t, c))
  {
    out := Create(im.width, im.height, im.frames, im.channels, addr);
    var edge := MakeEdges(radius);
    if Empty(im) {
      return;
    }
    DenseInjective(out);
    FilterChannels(im, out, edge, radius, percentile);
    FilterDone(im, out, Samples(im), radius, percentile);
  }

  /** `MedianFilter::apply(im, radius)`: the percentile filter at 0.5, which
      picks the value of rank (n + 1) / 2, the lower median, among the n
      samples under the disc. */
  method Median(im: Image, radius: nat, addr: nat) returns (out: Image)
    requires Valid(im) && addr % 4 == 0
    ensures out.data != null && fresh(out.data) && Valid(out) && Dense(out)
    ensures out.width == im.width && out.height == im.height && out.frames == im.frames && out.channels == im.channels
    ensures forall x, y, t, c :: InBounds(out, x, y, t, c) ==>
      var P := Support(SweepOf(im, radius, y), x);
      Ranked(P, Circular.PlaneOf(im, Samples(im), t, c), Get(out, x, y, t, c), (|P| + 1) / 2)
  {
    out := Apply(im, radius, 0.5, addr);
    forall x, y, t, c | InBounds(out, x, y, t, c)
      ensures var P := Support(SweepOf(im, radius, y), x);
        Ranked(P, Circular.PlaneOf(im, Samples(im), t, c), Get(out, x, y, t, c), (|P| + 1) / 2)
    {
      var P := Support(SweepOf(im, radius, y), x);
      SupportHasCentre(SweepOf(im, radius, y), x);
      MedianSplit(|P|);
    }
  }

  /** The support of an in-image sample holds that sample. */
  lemma SupportHasCentre(g: Sweep, x: int)
    requires 0 <= x < g.w && 0 <= g.y < g.h
    ensures (x, g.y) in Support(g, x) && |Support(g, x)| >= 1
  {
    CentreCovered(g, x);
  }
}
