/** The disc footprint shared by `CircularFilter` and `PercentileFilter`:
    row i of a disc of radius r (i = 0 .. 2r, at vertical offset i - r)
    reaches `edge[i]` samples to either side of the centre column. */
module Disc {

  /** Counting k up from a root k of square `sq` while the next square
      (k + 1)^2 = sq + 2k + 1 still fits under n. */
  function RootFrom(n: int, k: nat, sq: int): nat
    decreases n - sq
  {
    if sq + 2 * k + 1 <= n then RootFrom(n, k + 1, sq + 2 * k + 1) else k
  }

  /** The integer square root, standing for `(int)(sqrtf(n) + 0.0001f)`. */
  function ISqrt(n: int): nat {
    RootFrom(n, 0, 0)
  }

  lemma {:induction false} RootFromIsRoot(n: int, k: nat, sq: int)
    requires sq == k * k <= n
    ensures RootFrom(n, k, sq) * RootFrom(n, k, sq) <= n < (RootFrom(n, k, sq) + 1) * (RootFrom(n, k, sq) + 1)
    decreases n - sq
  {
    assert (k + 1) * (k + 1) == sq + 2 * k + 1;
    if sq + 2 * k + 1 <= n {
      RootFromIsRoot(n, k + 1, sq + 2 * k + 1);
    }
  }

  /** `ISqrt(n)` is the largest k with k * k <= n. */
  lemma ISqrtIsRoot(n: int)
    requires n >= 0
    ensures ISqrt(n) * ISqrt(n) <= n < (ISqrt(n) + 1) * (ISqrt(n) + 1)
  {
    RootFromIsRoot(n, 0, 0);
  }

  /** `edge[i]`: the half-width of row i of the disc. */
  function Edge(r: int, i: int): nat {
    ISqrt(r * r - (i - r) * (i - r))
  }

  /** The whole profile of the disc of radius r, row by row. */
  function Edges(r: int): int -> nat {
    i => Edge(r, i)
  }

  /** 2 * e(j) + 1 summed over the rows j < k of a profile e. */
  function Area(e: int -> nat, k: int): int
    decreases k
  {
    if k <= 0 then 0 else Area(e, k - 1) + 2 * e(k - 1) + 1
  }

  /** The number of samples under the disc, `count`. */
  function DiscArea(r: int): int {
    Area(Edges(r), 2 * r + 1)
  }

  lemma SquareLe(a: int, b: int)
    requires 0 <= a <= b
    ensures a * a <= b * b
  {
    assert a * a <= a * b;
    assert a * b <= b * b;
  }

  /** A row offset d within the radius has d * d <= r * r. */
  lemma OffsetSquare(d: int, r: int)
    requires -r <= d <= r
    ensures d * d <= r * r
  {
    if d >= 0 {
      SquareLe(d, r);
    } else {
      assert d * d == (-d) * (-d);
      SquareLe(-d, r);
    }
  }

  /** A root of a number at most r * r is at most r. */
  lemma RootBelow(n: int, k: nat, r: nat)
    requires k * k <= n <= r * r
    ensures k <= r
  {
    if k > r {
      SquareLe(r + 1, k);
    }
  }

  /** Row i of the disc is the widest run of columns inside the circle: its
      ends lie within distance r of the centre and one step further does
      not. */
  lemma EdgeIsWidest(r: int, i: int)
    requires 0 <= i <= 2 * r
    ensures Edge(r, i) * Edge(r, i) + (i - r) * (i - r) <= r * r
    ensures (Edge(r, i) + 1) * (Edge(r, i) + 1) + (i - r) * (i - r) > r * r
    ensures Edge(r, i) <= r
  {
    OffsetSquare(i - r, r);
    ISqrtIsRoot(r * r - (i - r) * (i - r));
    RootBelow(r * r - (i - r) * (i - r), Edge(r, i), r);
  }

  /** The disc is symmetric about its centre row. */
  lemma EdgeSymmetric(r: int, i: int)
    ensures Edge(r, i) == Edge(r, 2 * r - i)
  {
    assert (2 * r - i - r) * (2 * r - i - r) == (i - r) * (i - r);
  }

  /** The centre row spans the whole diameter. */
  lemma EdgeCentre(r: nat)
    ensures Edge(r, r) == r
  {
    ISqrtIsRoot(r * r);
    var k := ISqrt(r * r);
    if k < r {
      SquareLe(k + 1, r);
    } else if k > r {
      SquareLe(r + 1, k);
    }
  }

  /** Every row holds at least its centre sample, so the area is at least
      2r + 1 and `1.0 / count` is defined. */
  lemma {:induction false} AreaAtLeast(e: int -> nat, k: int)
    requires k >= 0
    ensures Area(e, k) >= k
  {
    if k > 0 {
      AreaAtLeast(e, k - 1);
    }
  }

  /** The edge profile: `for i`, edge[i] from the disc of radius r. */
  method MakeEdges(radius: nat) returns (edge: array<int>)
    ensures fresh(edge) && edge.Length == 2 * radius + 1
    ensures forall i :: 0 <= i < edge.Length ==> edge[i] == Edge(radius, i)
  {
    edge := new int[2 * radius + 1];
    var i := 0;
    while i < 2 * radius + 1
      invariant 0 <= i <= 2 * radius + 1
      invariant forall j :: 0 <= j < i ==> edge[j] == Edge(radius, j)
    {
      edge[i] := ISqrt(radius * radius - (i - radius) * (i - radius));
      i := i + 1;
    }
  }

  /** The filter area, `count += edge[i] * 2 + 1` over the rows. */
  method FilterArea(edge: array<int>, radius: nat) returns (count: int)
    requires edge.Length == 2 * radius + 1
    requires forall i :: 0 <= i < edge.Length ==> edge[i] == Edge(radius, i)
    ensures count == DiscArea(radius) && count >= 2 * radius + 1
  {
    count := 0;
    var i := 0;
    while i < 2 * radius + 1
      invariant 0 <= i <= 2 * radius + 1
      invariant count == Area(Edges(radius), i)
    {
      count := count + edge[i] * 2 + 1;
      i := i + 1;
    }
    AreaAtLeast(Edges(radius), 2 * radius + 1);
  }
}
