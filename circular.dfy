/** `CircularFilter`: every output sample is the mean of the input over a
    disc around it, with coordinates outside the image clamped to its edge.
    The sum under the disc is kept running along each scanline: moving one
    column to the right adds the column entering each row of the disc and
    drops the one leaving it.

    The filter treats every frame and channel as a separate plane of
    samples, so the specification is stated over a plane `p`, a function
    from (x, y) to a sample, of width w and height h. */
module Circular {
  import opened Images
  import opened Lines
  import opened Disc

  /** `clamp(v, lo, hi)`. */
  function Clamp(v: int, lo: int, hi: int): (r: int)
    ensures lo <= hi ==> lo <= r <= hi
    ensures lo <= v <= hi ==> r == v
  {
    if v < lo then lo else if v > hi then hi else v
  }

  /** Frame t, channel c of the image whose store holds s. */
  function PlaneOf(im: Image, s: seq<real>, t: int, c: int): (int, int) -> real {
    (x, y) => At(s, Offset(im, x, y, t, c))
  }

  /** Sample (x, y) of the plane, with x and y clamped into it. */
  function Tap(p: (int, int) -> real, w: int, h: int, x: int, y: int): real {
    p(Clamp(x, 0, w - 1), Clamp(y, 0, h - 1))
  }

  /** The taps lo .. hi of row y. */
  function RowSpan(p: (int, int) -> real, w: int, h: int, lo: int, hi: int, y: int): real
    decreases hi - lo
  {
    if hi < lo then 0.0 else RowSpan(p, w, h, lo, hi - 1, y) + Tap(p, w, h, hi, y)
  }

  /** Rows 0 .. k-1 of a disc of radius r and profile e centred on (x, y):
      row i spans columns x - e(i) .. x + e(i) of plane row y + i - r. */
  function DiscRows(p: (int, int) -> real, w: int, h: int, e: int -> nat, r: int, x: int, y: int, k: int): real
    decreases k
  {
    if k <= 0 then 0.0
    else DiscRows(p, w, h, e, r, x, y, k - 1) + RowSpan(p, w, h, x - e(k - 1), x + e(k - 1), y + (k - 1) - r)
  }

  /** The sum under the whole disc. */
  function DiscSum(p: (int, int) -> real, w: int, h: int, e: int -> nat, r: int, x: int, y: int): real {
    DiscRows(p, w, h, e, r, x, y, 2 * r + 1)
  }

  /** What the filter writes at (x, y): the sum under the disc times
      `invArea`, one over the number of samples under it. */
  function Circle(p: (int, int) -> real, w: int, h: int, e: int -> nat, r: nat, x: int, y: int): real {
    AreaAtLeast(e, 2 * r + 1);
    DiscSum(p, w, h, e, r, x, y) * (1.0 / Area(e, 2 * r + 1) as real)
  }

  /** Sliding a run of taps one column to the right adds the tap entering
      on the right and drops the one leaving on the left. */
  lemma {:induction false} SpanShift(p: (int, int) -> real, w: int, h: int, lo: int, hi: int, y: int)
    requires lo <= hi + 1
    ensures RowSpan(p, w, h, lo + 1, hi + 1, y) ==
      RowSpan(p, w, h, lo, hi, y) + Tap(p, w, h, hi + 1, y) - Tap(p, w, h, lo, y)
    decreases hi - lo
  {
    if lo <= hi {
      SpanShift(p, w, h, lo, hi - 1, y);
    }
  }

  /** Sliding the first i + 1 rows of the disc one column right changes
      their sum by what sliding the first i rows does, plus the tap entering
      row i on the right, minus the one leaving it on the left. */
  lemma SlideRow(p: (int, int) -> real, w: int, h: int, e: int -> nat, r: int, x: int, y: int, i: int)
    requires 0 <= i
    ensures DiscRows(p, w, h, e, r, x + 1, y, i + 1) - DiscRows(p, w, h, e, r, x, y, i + 1) ==
      (DiscRows(p, w, h, e, r, x + 1, y, i) - DiscRows(p, w, h, e, r, x, y, i)) +
      (Tap(p, w, h, x + e(i) + 1, y + i - r) - Tap(p, w, h, x - e(i), y + i - r))
  {
    SpanShift(p, w, h, x - e(i), x + e(i), y + i - r);
  }

  /** One step of the sliding sum: if `before` is `a0` plus the change of
      the first i rows, then exchanging the taps of row i gives `a0` plus
      the change of the first i + 1 rows. */
  lemma SlideStep(p: (int, int) -> real, w: int, h: int, e: int -> nat, r: int, x: int, y: int, i: int,
                  a0: real, before: real, after: real)
    requires 0 <= i
    requires before == a0 + (DiscRows(p, w, h, e, r, x + 1, y, i) - DiscRows(p, w, h, e, r, x, y, i))
    requires after == before + Tap(p, w, h, x + e(i) + 1, y + i - r) - Tap(p, w, h, x - e(i), y + i - r)
    ensures after == a0 + (DiscRows(p, w, h, e, r, x + 1, y, i + 1) - DiscRows(p, w, h, e, r, x, y, i + 1))
  {
    SlideRow(p, w, h, e, r, x, y, i);
  }

  /** The samples of the plane all lie between a and b. */
  predicate Bounded(p: (int, int) -> real, w: int, h: int, a: real, b: real) {
    forall x, y :: 0 <= x < w && 0 <= y < h ==> a <= p(x, y) <= b
  }

  /** So does every tap. */
  lemma TapWithin(p: (int, int) -> real, w: int, h: int, x: int, y: int, a: real, b: real)
    requires w >= 1 && h >= 1 && Bounded(p, w, h, a, b)
    ensures a <= Tap(p, w, h, x, y) <= b
  {
    var x', y' := Clamp(x, 0, w - 1), Clamp(y, 0, h - 1);
    assert a <= p(x', y') <= b;
  }

  /** n copies of v added up. */
  function Times(n: int, v: real): real
    decreases n
  {
    if n <= 0 then 0.0 else Times(n - 1, v) + v
  }

  lemma {:induction false} TimesAdd(n: nat, m: nat, v: real)
    ensures Times(n + m, v) == Times(n, v) + Times(m, v)
  {
    if m > 0 {
      TimesAdd(n, m - 1, v);
    }
  }

  lemma {:induction false} TimesProduct(n: nat, v: real)
    ensures Times(n, v) == n as real * v
  {
    if n > 0 {
      TimesProduct(n - 1, v);
      assert n as real * v == (n - 1) as real * v + v;
    }
  }

  /** So a run of taps sums to between its length times a and times b. */
  lemma {:induction false} SpanWithin(p: (int, int) -> real, w: int, h: int, lo: int, hi: int, y: int, a: real, b: real)
    requires lo <= hi + 1
    requires w >= 1 && h >= 1 && Bounded(p, w, h, a, b)
    ensures Times(hi - lo + 1, a) <= RowSpan(p, w, h, lo, hi, y) <= Times(hi - lo + 1, b)
    decreases hi - lo
  {
    if lo <= hi {
      SpanWithin(p, w, h, lo, hi - 1, y, a, b);
      TapWithin(p, w, h, hi, y, a, b);
    }
  }

  /** The disc's rows 0 .. k-1 hold `Area(e, k)` taps, so their sum lies
      between that many a's and that many b's. */
  lemma {:induction false} RowsWithin(p: (int, int) -> real, w: int, h: int, e: int -> nat, r: int, x: int, y: int, k: int, a: real, b: real)
    requires 0 <= k
    requires w >= 1 && h >= 1 && Bounded(p, w, h, a, b)
    ensures Times(Area(e, k), a) <= DiscRows(p, w, h, e, r, x, y, k) <= Times(Area(e, k), b)
  {
    if k > 0 {
      RowsWithin(p, w, h, e, r, x, y, k - 1, a, b);
      SpanWithin(p, w, h, x - e(k - 1), x + e(k - 1), y + (k - 1) - r, a, b);
      AreaAtLeast(e, k - 1);
      TimesAdd(Area(e, k - 1), 2 * e(k - 1) + 1, a);
      TimesAdd(Area(e, k - 1), 2 * e(k - 1) + 1, b);
    }
  }

  /** Scaling a sum of n values between a and b by 1 / n. */
  lemma Shrink(n: int, sum: real, a: real, b: real)
    requires n >= 1 && Times(n, a) <= sum <= Times(n, b)
    ensures a <= sum * (1.0 / n as real) <= b
  {
    TimesProduct(n, a);
    TimesProduct(n, b);
    var m := n as real;
    var inv := 1.0 / m;
    assert inv * m == 1.0 && inv > 0.0;
    assert (m * a) * inv <= sum * inv <= (m * b) * inv;
    assert (m * a) * inv == a * (m * inv) && (m * b) * inv == b * (m * inv);
  }

  /** The filter never leaves the range of the plane's samples: a mean of
      values between a and b lies between a and b. */
  lemma CircleWithin(p: (int, int) -> real, w: int, h: int, e: int -> nat, r: nat, x: int, y: int, a: real, b: real)
    requires w >= 1 && h >= 1 && Bounded(p, w, h, a, b)
    ensures a <= Circle(p, w, h, e, r, x, y) <= b
  {
    var n := Area(e, 2 * r + 1);
    var sum := DiscSum(p, w, h, e, r, x, y);
    assert n >= 1 && Times(n, a) <= sum <= Times(n, b) by {
      RowsWithin(p, w, h, e, r, x, y, 2 * r + 1, a, b);
      AreaAtLeast(e, 2 * r + 1);
    }
    Shrink(n, sum, a, b);
  }

  /** A plane holding one value v throughout comes out as v everywhere. */
  lemma CircleConstant(p: (int, int) -> real, w: int, h: int, e: int -> nat, r: nat, x: int, y: int, v: real)
    requires w >= 1 && h >= 1 && Bounded(p, w, h, v, v)
    ensures Circle(p, w, h, e, r, x, y) == v
  {
    CircleWithin(p, w, h, e, r, x, y, v, v);
  }

  /** With radius 0 the disc is the sample itself. */
  lemma RadiusZero(p: (int, int) -> real, w: int, h: int, x: int, y: int)
    requires 0 <= x < w && 0 <= y < h
    ensures Circle(p, w, h, Edges(0), 0, x, y) == p(x, y)
  {
    EdgeCentre(0);
    var e := Edges(0);
    assert e(0) == 0;
    assert Area(e, 1) == 1 by {
      assert Area(e, 1) == Area(e, 0) + 2 * e(0) + 1;
    }
    assert DiscSum(p, w, h, e, 0, x, y) == RowSpan(p, w, h, x - e(0), x + e(0), y + 0 - 0);
    assert RowSpan(p, w, h, x, x, y) == Tap(p, w, h, x, y) == p(x, y);
  }

  /** `edge` holds rows 0 .. 2r of the profile e. */
  predicate Holds(edge: array<int>, e: int -> nat, r: int)
    reads edge
  {
    edge.Length == 2 * r + 1 && forall i :: 0 <= i < edge.Length ==> edge[i] == e(i)
  }

  /** `for x = -edge[i] .. edge[i]`: adds the taps -half .. half of row y' to the
      running sum. */
  method AddSpan(im: Image, half: int, y': int, t: int, c: int, average0: real) returns (average: real)
    requires Valid(im) && !Empty(im) && 0 <= t < im.frames && 0 <= c < im.channels && 0 <= half
    ensures average == average0 + RowSpan(PlaneOf(im, im.data[..], t, c), im.width, im.height, -half, half, y')
  {
    var realY := Clamp(y', 0, im.height - 1);
    average := average0;
    var x := -half;
    while x <= half
      invariant -half <= x <= half + 1
      invariant average == average0 + RowSpan(PlaneOf(im, im.data[..], t, c), im.width, im.height, -half, x - 1, y')
    {
      var realX := Clamp(x, 0, im.width - 1);
      InStorage(im, realX, realY, t, c);
      var val := im.data[Offset(im, realX, realY, t, c)];
      average := average + val;
      x := x + 1;
    }
  }

  /** The sum under the disc centred on column 0 of row (y, t, c): `for i`,
      then `for x` within row i. */
  method StartSum(im: Image, edge: array<int>, ghost e: int -> nat, radius: nat, y: int, t: int, c: int) returns (average: real)
    requires Valid(im) && !Empty(im) && 0 <= t < im.frames && 0 <= c < im.channels
    requires Holds(edge, e, radius)
    ensures average == DiscSum(PlaneOf(im, im.data[..], t, c), im.width, im.height, e, radius, 0, y)
  {
    average := 0.0;
    var i := 0;
    while i < 2 * radius + 1
      invariant 0 <= i <= 2 * radius + 1
      invariant average == DiscRows(PlaneOf(im, im.data[..], t, c), im.width, im.height, e, radius, 0, y, i)
    {
      var xoff := edge[i];
      var yoff := i - radius;
      average := AddSpan(im, xoff, y + yoff, t, c, average);
      i := i + 1;
    }
  }

  /** One row of the move: `average += im(realXNew, realY)` and
      `average -= im(realXOld, realY)`, the taps entering and leaving row
      y' of the disc as it moves from column x to x + 1. */
  method Exchange(im: Image, half: int, x: int, y': int, t: int, c: int, average0: real) returns (average: real)
    requires Valid(im) && InBounds(im, x, 0, t, c) && im.height >= 1 && 0 <= half
    ensures average == average0 + Tap(PlaneOf(im, im.data[..], t, c), im.width, im.height, x + half + 1, y') -
                                  Tap(PlaneOf(im, im.data[..], t, c), im.width, im.height, x - half, y')
  {
    var realXOld := if 0 < x - half then x - half else 0;
    var realXNew := if x + half + 1 < im.width - 1 then x + half + 1 else im.width - 1;
    var realY := Clamp(y', 0, im.height - 1);
    InStorage(im, realXNew, realY, t, c);
    InStorage(im, realXOld, realY, t, c);
    average := average0 + im.data[Offset(im, realXNew, realY, t, c)];
    average := average - im.data[Offset(im, realXOld, realY, t, c)];
    assert Clamp(x + half + 1, 0, im.width - 1) == realXNew;
    assert Clamp(x - half, 0, im.width - 1) == realXOld;
  }

    /** Row i of the slide: exchanging its taps extends the change from the
      first i rows of the disc to the first i + 1. */
  method ExchangeRow(im: Image, edge: array<int>, ghost e: int -> nat, radius: nat, x: int, y: int, t: int, c: int,
                     i: int, average0: real, before: real) returns (average: real)
    requires Valid(im) && InBounds(im, x, y, t, c) && Holds(edge, e, radius) && 0 <= i < 2 * radius + 1
    requires before == average0 + (DiscRows(PlaneOf(im, im.data[..], t, c), im.width, im.height, e, radius, x + 1, y, i) -
                                   DiscRows(PlaneOf(im, im.data[..], t, c), im.width, im.height, e, radius, x, y, i))
    ensures average == average0 + (DiscRows(PlaneOf(im, im.data[..], t, c), im.width, im.height, e, radius, x + 1, y, i + 1) -
                                   DiscRows(PlaneOf(im, im.data[..], t, c), im.width, im.height, e, radius, x, y, i + 1))
  {
    average := Exchange(im, edge[i], x, y + i - radius, t, c, before);
    SlideStep(PlaneOf(im, im.data[..], t, c), im.width, im.height, e, radius, x, y, i, average0, before, average);
  }

/** `move the histogram to the right`: for every row of the disc, add the
      sample entering at `min(x + edge[i] + 1, width - 1)` and drop the one
      leaving at `max(0, x - edge[i])`.  The sum then covers the disc
      centred one column further right. */
  method Slide(im: Image, edge: array<int>, ghost e: int -> nat, radius: nat, x: int, y: int, t: int, c: int, average0: real)
    returns (average: real)
    requires Valid(im) && InBounds(im, x, y, t, c) && Holds(edge, e, radius)
    ensures average == average0 + (DiscSum(PlaneOf(im, im.data[..], t, c), im.width, im.height, e, radius, x + 1, y) -
                                   DiscSum(PlaneOf(im, im.data[..], t, c), im.width, im.height, e, radius, x, y))
  {
    ghost var p := PlaneOf(im, im.data[..], t, c);
    average := average0;
    var i := 0;
    while i < radius * 2 + 1
      invariant 0 <= i <= 2 * radius + 1
      invariant average == average0 + (DiscRows(p, im.width, im.height, e, radius, x + 1, y, i) - DiscRows(p, im.width, im.height, e, radius, x, y, i))
    {
      average := ExchangeRow(im, edge, e, radius, x, y, t, c, i, average0, average);
      i := i + 1;
    }
  }

  /** Whether output sample (x', y', t', c') is written once the sweep
      stands at column x of row (y, t, c): rows go `for c, for t, for y`. */
  predicate Written(x': int, y': int, t': int, c': int, x: int, y: int, t: int, c: int) {
    RowBefore(y', t', c', y, t, c) || (c' == c && t' == t && y' == y && x' < x)
  }

  /** What output sample (x', y', t', c') holds at that point: its mean if
      written, the zero the fresh image starts with otherwise. */
  function StageAt(im: Image, s: seq<real>, e: int -> nat, r: nat, x: int, y: int, t: int, c: int,
                   x': int, y': int, t': int, c': int): real
  {
    if Written(x', y', t', c', x, y, t, c) then Circle(PlaneOf(im, s, t', c'), im.width, im.height, e, r, x', y') else 0.0
  }

  function Stage(im: Image, s: seq<real>, e: int -> nat, r: nat, x: int, y: int, t: int, c: int): (int, int, int, int) -> real {
    (x', y', t', c') => StageAt(im, s, e, r, x, y, t, c, x', y', t', c')
  }

  /** Writing column x of row (y, t, c) changes the stage of that sample
      only, and to its mean. */
  lemma StageStep(im: Image, s: seq<real>, e: int -> nat, r: nat, x: int, y: int, t: int, c: int)
    ensures StageAt(im, s, e, r, x + 1, y, t, c, x, y, t, c) == Circle(PlaneOf(im, s, t, c), im.width, im.height, e, r, x, y)
    ensures forall x', y', t', c' :: (x', y', t', c') != (x, y, t, c) ==>
      StageAt(im, s, e, r, x + 1, y, t, c, x', y', t', c') == StageAt(im, s, e, r, x, y, t, c, x', y', t', c')
  {
  }

  /** `out(x, y, t, c) = average * invArea`. */
  method WriteCell(out: Image, ghost im: Image, ghost s: seq<real>, ghost e: int -> nat, r: nat, x: int, y: int, t: int, c: int, v: real)
    requires Valid(out) && Injective(out) && InBounds(out, x, y, t, c)
    requires v == Circle(PlaneOf(im, s, t, c), im.width, im.height, e, r, x, y)
    requires Agrees(out, out.data[..], Stage(im, s, e, r, x, y, t, c))
    modifies out.data
    ensures Agrees(out, out.data[..], Stage(im, s, e, r, x + 1, y, t, c))
  {
    ghost var s0 := out.data[..];
    Put(out, x, y, t, c, v);
    StageStep(im, s, e, r, x, y, t, c);
    CellUpdate(out, x, y, t, c, s0, out.data[..], Stage(im, s, e, r, x, y, t, c), Stage(im, s, e, r, x + 1, y, t, c));
  }

  /** The geometry the sweep methods share: a valid input and a separate,
      injective output of the same extents. */
  predicate Pair(im: Image, out: Image) {
    Valid(im) && Valid(out) && !Empty(im) && im.data != out.data &&
    out.width == im.width && out.height == im.height && out.frames == im.frames && out.channels == im.channels
  }

  /** One output scanline: start the sum, then `for x`, write and slide. */
  method FilterRow(im: Image, out: Image, edge: array<int>, ghost e: int -> nat, radius: nat, invArea: real, y: int, t: int, c: int)
    requires Pair(im, out) && Injective(out) && InBounds(im, 0, y, t, c)
    requires Holds(edge, e, radius) && Area(e, 2 * radius + 1) >= 1 && invArea == 1.0 / Area(e, 2 * radius + 1) as real
    requires Agrees(out, out.data[..], Stage(im, im.data[..], e, radius, 0, y, t, c))
    modifies out.data
    ensures Agrees(out, out.data[..], Stage(im, im.data[..], e, radius, 0, y + 1, t, c))
  {
    ghost var s := im.data[..];
    var average := StartSum(im, edge, e, radius, y, t, c);
    var x := 0;
    while x < im.width
      invariant 0 <= x <= im.width
      invariant im.data[..] == s
      invariant average == DiscSum(PlaneOf(im, s, t, c), im.width, im.height, e, radius, x, y)
      invariant Agrees(out, out.data[..], Stage(im, s, e, radius, x, y, t, c))
    {
      WriteCell(out, im, s, e, radius, x, y, t, c, average * invArea);
      average := Slide(im, edge, e, radius, x, y, t, c, average);
      x := x + 1;
    }
    AgreesSame(out, out.data[..], Stage(im, s, e, radius, im.width, y, t, c), Stage(im, s, e, radius, 0, y + 1, t, c));
  }

  /** The scanlines of frame t, channel c: `for y`. */
  method FilterRows(im: Image, out: Image, edge: array<int>, ghost e: int -> nat, radius: nat, invArea: real, t: int, c: int)
    requires Pair(im, out) && Injective(out) && 0 <= t < im.frames && 0 <= c < im.channels
    requires Holds(edge, e, radius) && Area(e, 2 * radius + 1) >= 1 && invArea == 1.0 / Area(e, 2 * radius + 1) as real
    requires Agrees(out, out.data[..], Stage(im, im.data[..], e, radius, 0, 0, t, c))
    modifies out.data
    ensures Agrees(out, out.data[..], Stage(im, im.data[..], e, radius, 0, 0, t + 1, c))
  {
    ghost var s := im.data[..];
    var y := 0;
    while y < im.height
      invariant 0 <= y <= im.height
      invariant im.data[..] == s
      invariant Agrees(out, out.data[..], Stage(im, s, e, radius, 0, y, t, c))
    {
      FilterRow(im, out, edge, e, radius, invArea, y, t, c);
      y := y + 1;
    }
    AgreesSame(out, out.data[..], Stage(im, s, e, radius, 0, im.height, t, c), Stage(im, s, e, radius, 0, 0, t + 1, c));
  }

  /** The frames of channel c: `for t`. */
  method FilterFrames(im: Image, out: Image, edge: array<int>, ghost e: int -> nat, radius: nat, invArea: real, c: int)
    requires Pair(im, out) && Injective(out) && 0 <= c < im.channels
    requires Holds(edge, e, radius) && Area(e, 2 * radius + 1) >= 1 && invArea == 1.0 / Area(e, 2 * radius + 1) as real
    requires Agrees(out, out.data[..], Stage(im, im.data[..], e, radius, 0, 0, 0, c))
    modifies out.data
    ensures Agrees(out, out.data[..], Stage(im, im.data[..], e, radius, 0, 0, 0, c + 1))
  {
    ghost var s := im.data[..];
    var t := 0;
    while t < im.frames
      invariant 0 <= t <= im.frames
      invariant im.data[..] == s
      invariant Agrees(out, out.data[..], Stage(im, s, e, radius, 0, 0, t, c))
    {
      FilterRows(im, out, edge, e, radius, invArea, t, c);
      t := t + 1;
    }
    AgreesSame(out, out.data[..], Stage(im, s, e, radius, 0, 0, im.frames, c), Stage(im, s, e, radius, 0, 0, 0, c + 1));
  }

  /** The channels: `for c`, starting from the zero-filled output. */
  method FilterChannels(im: Image, out: Image, edge: array<int>, ghost e: int -> nat, radius: nat, invArea: real)
    requires Pair(im, out) && Injective(out)
    requires Holds(edge, e, radius) && Area(e, 2 * radius + 1) >= 1 && invArea == 1.0 / Area(e, 2 * radius + 1) as real
    requires forall i :: 0 <= i < out.data.Length ==> out.data[i] == 0.0
    modifies out.data
    ensures Agrees(out, out.data[..], Stage(im, im.data[..], e, radius, 0, 0, 0, im.channels))
  {
    ghost var s := im.data[..];
    var c := 0;
    while c < im.channels
      invariant 0 <= c <= im.channels
      invariant im.data[..] == s
      invariant Agrees(out, out.data[..], Stage(im, s, e, radius, 0, 0, 0, c))
    {
      FilterFrames(im, out, edge, e, radius, invArea, c);
      c := c + 1;
    }
  }

  /** Once every channel is done, every output sample reads as its mean. */
  lemma FilterDone(im: Image, out: Image, s: seq<real>, e: int -> nat, radius: nat)
    requires Valid(out) && out.data != null
    requires Agrees(out, out.data[..], Stage(im, s, e, radius, 0, 0, 0, out.channels))
    ensures forall x, y, t, c :: InBounds(out, x, y, t, c) ==> Get(out, x, y, t, c) == Circle(PlaneOf(im, s, t, c), im.width, im.height, e, radius, x, y)
  {
    forall x, y, t, c | InBounds(out, x, y, t, c)
      ensures Get(out, x, y, t, c) == Circle(PlaneOf(im, s, t, c), im.width, im.height, e, radius, x, y)
    {
      AgreesGet(out, Stage(im, s, e, radius, 0, 0, 0, out.channels), x, y, t, c);
    }
  }

  /** `CircularFilter::apply(im, radius)`: a fresh image of the same size
      whose every sample is the mean of the input over the clamped disc.
      The input is only read.  `addr` is the byte address the allocator
      returns for the output's store. */
  method Apply(im: Image, radius: nat, addr: nat) returns (out: Image)
    requires Valid(im) && addr % 4 == 0
    ensures out.data != null && fresh(out.data) && Valid(out) && Dense(out)
    ensures out.width == im.width && out.height == im.height && out.frames == im.frames && out.channels == im.channels
    ensures forall x, y, t, c :: InBounds(out, x, y, t, c) ==> Get(out, x, y, t, c) == Circle(PlaneOf(im, Samples(im), t, c), im.width, im.height, Edges(radius), radius, x, y)
  {
    out := Create(im.width, im.height, im.frames, im.channels, addr);
    var edge := MakeEdges(radius);
    var count := FilterArea(edge, radius);
    var invArea := 1.0 / count as real;
    if Empty(im) {
      return;
    }
    DenseInjective(out);
    FilterChannels(im, out, edge, Edges(radius), radius, invArea);
    FilterDone(im, out, im.data[..], Edges(radius), radius);
  }
}
