/** `RectFilter`: box blurs.  Along x, each scanline is replaced, in place,
    by running means kept in a circular buffer and a running sum; along y,
    strips of columns are copied into a scratch image, blurred along its x
    axis, and copied back. */
module Box {
  import opened Images
  import opened Lines

  /** l[lo] + ... + l[hi - 1]. */
  function Sum(l: seq<real>, lo: int, hi: int): real
    requires 0 <= lo <= hi <= |l|
    decreases hi - lo
  {
    if lo == hi then 0.0 else Sum(l, lo, hi - 1) + l[hi - 1]
  }

  /** The mean of l[lo] .. l[hi - 1]. */
  function Mean(l: seq<real>, lo: int, hi: int): real
    requires 0 <= lo < hi <= |l|
  {
    Sum(l, lo, hi) / ((hi - lo) as real)
  }

  /** First sample of the window around x.  Sample 0 of a line never enters
      the buffer, so no window reaches below 1. */
  function BoxLo(x: int, r: int): int {
    if x - r < 1 then 1 else x - r
  }

  /** Last sample of the window around x. */
  function BoxHi(x: int, r: int, n: int): int {
    if x + r > n - 1 then n - 1 else x + r
  }

  /** Number of samples in the window around x. */
  function Count(x: int, r: int, n: int): int {
    BoxHi(x, r, n) - BoxLo(x, r) + 1
  }

  /** One pass of the box blur of radius r over a line: sample x becomes the
      mean of samples max(1, x - r) .. min(x + r, n - 1). */
  function BoxPass(l: seq<real>, r: int): (o: seq<real>)
    requires |l| >= 2 && r >= 1
    ensures |o| == |l|
  {
    seq(|l|, x requires 0 <= x < |l| => Mean(l, BoxLo(x, r), BoxHi(x, r, |l|) + 1))
  }

  /** k passes of the box blur, each over the result of the one before. */
  function Boxed(l: seq<real>, r: int, k: int): (o: seq<real>)
    requires |l| >= 2 && r >= 1
    ensures |o| == |l|
    decreases k
  {
    if k <= 0 then l else BoxPass(Boxed(l, r, k - 1), r)
  }

  /** Every sample replaced by the mean of the whole line (`blurXCompletely`). */
  function Flat(l: seq<real>): (o: seq<real>)
    requires |l| >= 1
    ensures |o| == |l|
  {
    seq(|l|, _ => Mean(l, 0, |l|))
  }

  /** The lines of n samples a blur of odd `width` is modelled on: any line
      when the filter is at most 1 wide, otherwise lines no longer than the
      radius (blurred completely) or longer than the filter (the box path
      with every step of its count exact); see `AsWrittenReachesZero` for
      what the lengths in between do. */
  predicate BlurFits(n: int, width: int) {
    width <= 1 || n <= width / 2 || n > width
  }

  /** What `blurX(im, width, iterations)` does to one scanline: nothing for a
      filter or a line of width 1, the mean of the whole line when the line
      is no longer than the radius, and otherwise `iterations` box passes. */
  function BlurLine(l: seq<real>, width: int, iterations: int): (o: seq<real>)
    ensures |o| == |l|
  {
    if width <= 1 || |l| <= 1 then l
    else if |l| <= width / 2 then Flat(l)
    else Boxed(l, width / 2, iterations)
  }

  // Properties of the blurs

  lemma {:induction false} SumWithin(l: seq<real>, lo: int, hi: int, m: real, M: real)
    requires 0 <= lo <= hi <= |l|
    requires forall k :: lo <= k < hi ==> m <= l[k] <= M
    ensures (hi - lo) as real * m <= Sum(l, lo, hi) <= (hi - lo) as real * M
    decreases hi - lo
  {
    if lo < hi {
      SumWithin(l, lo, hi - 1, m, M);
      var k := (hi - 1 - lo) as real;
      assert (hi - lo) as real * m == k * m + m;
      assert (hi - lo) as real * M == k * M + M;
    }
  }

  /** A mean lies between the least and the greatest of its samples. */
  lemma MeanWithin(l: seq<real>, lo: int, hi: int, m: real, M: real)
    requires 0 <= lo < hi <= |l|
    requires forall k :: lo <= k < hi ==> m <= l[k] <= M
    ensures m <= Mean(l, lo, hi) <= M
  {
    SumWithin(l, lo, hi, m, M);
    var n := (hi - lo) as real;
    assert Mean(l, lo, hi) * n == Sum(l, lo, hi);
  }

  /** A box pass keeps a line within any bounds its samples 1 .. n - 1 keep. */
  lemma BoxPassWithin(l: seq<real>, r: int, m: real, M: real)
    requires |l| >= 2 && r >= 1
    requires forall k :: 1 <= k < |l| ==> m <= l[k] <= M
    ensures forall x :: 0 <= x < |l| ==> m <= BoxPass(l, r)[x] <= M
  {
    forall x | 0 <= x < |l| ensures m <= BoxPass(l, r)[x] <= M {
      MeanWithin(l, BoxLo(x, r), BoxHi(x, r, |l|) + 1, m, M);
    }
  }

  lemma {:induction false} BoxedWithin(l: seq<real>, r: int, k: int, m: real, M: real)
    requires |l| >= 2 && r >= 1
    requires forall j :: 0 <= j < |l| ==> m <= l[j] <= M
    ensures forall x :: 0 <= x < |l| ==> m <= Boxed(l, r, k)[x] <= M
    decreases k
  {
    if k > 0 {
      BoxedWithin(l, r, k - 1, m, M);
      BoxPassWithin(Boxed(l, r, k - 1), r, m, M);
    }
  }

  /** Whatever the filter width and the number of iterations, the blurred
      line stays within any bounds the line keeps. */
  lemma BlurLineWithin(l: seq<real>, width: int, iterations: int, m: real, M: real)
    requires forall j :: 0 <= j < |l| ==> m <= l[j] <= M
    ensures forall x :: 0 <= x < |l| ==> m <= BlurLine(l, width, iterations)[x] <= M
  {
    if width <= 1 || |l| <= 1 {
    } else if |l| <= width / 2 {
      MeanWithin(l, 0, |l|, m, M);
    } else {
      BoxedWithin(l, width / 2, iterations, m, M);
    }
  }

  /** A constant line is left as it is. */
  lemma BlurLineConstant(l: seq<real>, width: int, iterations: int, v: real)
    requires forall j :: 0 <= j < |l| ==> l[j] == v
    ensures BlurLine(l, width, iterations) == l
  {
    BlurLineWithin(l, width, iterations, v, v);
  }

  /** Flattening a line that is already flat changes nothing. */
  lemma FlatIdempotent(l: seq<real>)
    requires |l| >= 1
    ensures Flat(Flat(l)) == Flat(l)
  {
    var f := Flat(l);
    MeanWithin(f, 0, |f|, Mean(l, 0, |l|), Mean(l, 0, |l|));
  }

  /** A line no longer than half the box width is flattened in one pass,
      so blurring it again gives the same line. */
  lemma BlurLineShortIdempotent(l: seq<real>, width: int, iterations: int)
    requires width > 1 && 1 <= |l| <= width / 2
    ensures BlurLine(BlurLine(l, width, iterations), width, iterations) == BlurLine(l, width, iterations)
  {
    if |l| > 1 {
      FlatIdempotent(l);
    }
  }

  lemma {:induction false} SumSame(l: seq<real>, l': seq<real>, lo: int, hi: int)
    requires 0 <= lo <= hi <= |l| == |l'|
    requires forall k :: lo <= k < hi ==> l[k] == l'[k]
    ensures Sum(l, lo, hi) == Sum(l', lo, hi)
    decreases hi - lo
  {
    if lo < hi {
      SumSame(l, l', lo, hi - 1);
    }
  }

  /** A box pass does not depend on sample 0 of the line. */
  lemma BoxPassIgnoresFirst(l: seq<real>, l': seq<real>, r: int)
    requires |l| == |l'| >= 2 && r >= 1
    requires l[1..] == l'[1..]
    ensures BoxPass(l, r) == BoxPass(l', r)
  {
    forall x | 0 <= x < |l| ensures BoxPass(l, r)[x] == BoxPass(l', r)[x] {
      forall k | BoxLo(x, r) <= k < BoxHi(x, r, |l|) + 1 ensures l[k] == l'[k] {
        assert l[k] == l[1..][k - 1];
      }
      SumSame(l, l', BoxLo(x, r), BoxHi(x, r, |l|) + 1);
    }
  }

  // The circular buffer of one pass

  /** The values the buffer receives, in order: r + 1 zeros, samples 1 ..
      n - 1 of the line, then nothing (zeros) once the line is used up. */
  function Feed(s: seq<real>, r: int, f: int): real {
    if r + 1 <= f && f - r < |s| then s[f - r] else 0.0
  }

  /** Feed(lo) + ... + Feed(hi - 1). */
  function FeedSum(s: seq<real>, r: int, lo: int, hi: int): real
    decreases hi - lo
  {
    if hi <= lo then 0.0 else FeedSum(s, r, lo, hi - 1) + Feed(s, r, hi - 1)
  }

  function Clip(i: int, n: int): int {
    if i < 1 then 1 else if i > n then n else i
  }

  /** The buffer's feed over [lo, hi) sums the samples whose feed index lies there. */
  lemma {:induction false} FeedSumIsSum(s: seq<real>, r: int, lo: int, hi: int)
    requires lo <= hi && |s| >= 1
    ensures Clip(lo - r, |s|) <= Clip(hi - r, |s|)
    ensures FeedSum(s, r, lo, hi) == Sum(s, Clip(lo - r, |s|), Clip(hi - r, |s|))
    decreases hi - lo
  {
    if lo < hi {
      FeedSumIsSum(s, r, lo, hi - 1);
    }
  }

  lemma {:induction false} FeedSumFront(s: seq<real>, r: int, lo: int, hi: int)
    requires lo < hi
    ensures FeedSum(s, r, lo, hi) == Feed(s, r, lo) + FeedSum(s, r, lo + 1, hi)
    decreases hi - lo
  {
    if lo + 1 < hi {
      FeedSumFront(s, r, lo, hi - 1);
    }
  }

  /** Sliding the buffer one place: the oldest value leaves, the next enters. */
  lemma FeedSumSlide(s: seq<real>, r: int, lo: int, hi: int)
    requires lo < hi
    ensures FeedSum(s, r, lo + 1, hi + 1) == FeedSum(s, r, lo, hi) - Feed(s, r, lo) + Feed(s, r, hi)
  {
    FeedSumFront(s, r, lo, hi);
  }

  /** While the window covers x, the buffer's sum is the window's sum. */
  lemma WindowSum(s: seq<real>, r: int, x: int)
    requires |s| >= 2 && r >= 1 && 0 <= x < |s|
    ensures BoxLo(x, r) <= BoxHi(x, r, |s|)
    ensures FeedSum(s, r, x, x + 2 * r + 1) == Sum(s, BoxLo(x, r), BoxHi(x, r, |s|) + 1)
  {
    FeedSumIsSum(s, r, x, x + 2 * r + 1);
  }

  lemma CountPositive(x: int, r: int, n: int)
    requires n >= 2 && r >= 1 && 0 <= x <= n
    ensures 1 <= Count(x, r, n)
  {
  }

  /** While the line still feeds the buffer, the window grows by one sample
      a step until it holds 2r + 1. */
  lemma CountInside(x: int, r: int, n: int)
    requires r >= 1 && 0 <= x && x + r + 1 < n
    ensures Count(x + 1, r, n) == if Count(x, r, n) < 2 * r + 1 then Count(x, r, n) + 1 else Count(x, r, n)
  {
  }

  lemma SlotAdvance(cur: int, m: int, w: int)
    requires 0 <= cur < w && 0 <= m < w
    ensures m + 1 < w ==> Slot(if cur + 1 == w then 0 else cur + 1, m, w) == Slot(cur, m + 1, w)
    ensures m + 1 == w ==> Slot(if cur + 1 == w then 0 else cur + 1, m, w) == cur
    ensures 0 <= Slot(cur, m, w) < w
  {
  }

  /** Buffer positions 0 .. width - 1 as the first two loops of a pass leave
      them: zeros up to r, then samples 1 .. r. */
  method StartBuffer(a: array<real>, start: int, stride: int, n: nat, r: int, buffer: array<real>)
    returns (sum: real, entries: int)
    requires LineIn(a.Length, start, stride, n) && r >= 1 && n > r && buffer.Length == 2 * r + 1
    requires buffer != a
    modifies buffer
    ensures forall m :: 0 <= m < buffer.Length ==> buffer[m] == Feed(LineOf(a[..], start, stride, n), r, m)
    ensures sum == FeedSum(LineOf(a[..], start, stride, n), r, 0, buffer.Length)
    ensures entries == r
  {
    ghost var s := LineOf(a[..], start, stride, n);
    var width := buffer.Length;
    sum := 0.0;
    entries := 0;
    var j := 0;
    while j <= r
      invariant 0 <= j <= r + 1
      invariant forall m :: 0 <= m < j ==> buffer[m] == Feed(s, r, m)
      invariant sum == FeedSum(s, r, 0, j)
    {
      buffer[j] := 0.0;
      j := j + 1;
    }
    while j < width
      invariant r + 1 <= j <= width
      invariant forall m :: 0 <= m < j ==> buffer[m] == Feed(s, r, m)
      invariant sum == FeedSum(s, r, 0, j)
      invariant entries == j - r - 1
    {
      LinePos(a.Length, start, stride, n, j - r);
      buffer[j] := a[start + (j - r) * stride];
      sum := sum + buffer[j];
      entries := entries + 1;
      j := j + 1;
    }
  }

  /** What a pass keeps while it stands at sample x: the buffer, read from
      its oldest slot `cur` on, holds the feed from x on (as far as the feed
      still has samples), `sum` is the sum of the feed over x .. x + 2r,
      `entries` the size of x's window and `mult` its reciprocal. */
  ghost predicate Running(s: seq<real>, r: int, buffer: seq<real>, x: int, cur: int, sum: real, entries: int, mult: real)
  {
    |s| >= 2 && r >= 1 && |buffer| == 2 * r + 1 && 0 <= cur < |buffer| &&
    (forall m :: 0 <= m < |buffer| && x + m < |s| + r ==> buffer[Slot(cur, m, |buffer|)] == Feed(s, r, x + m)) &&
    sum == FeedSum(s, r, x, x + 2 * r + 1) &&
    entries == Count(x, r, |s|) && entries >= 1 && mult == 1.0 / (entries as real)
  }

  /** Sample x of the line, written from the buffer's state at x. */
  lemma Output(s: seq<real>, r: int, buffer: seq<real>, x: int, cur: int, sum: real, entries: int, mult: real)
    requires Running(s, r, buffer, x, cur, sum, entries, mult) && 0 <= x < |s|
    ensures sum * mult == BoxPass(s, r)[x]
  {
    WindowMean(s, r, x, sum, entries, mult);
  }

  /** The window's sum times the reciprocal of its size is its mean. */
  lemma WindowMean(s: seq<real>, r: int, x: int, sum: real, entries: int, mult: real)
    requires |s| >= 2 && r >= 1 && 0 <= x < |s|
    requires sum == FeedSum(s, r, x, x + 2 * r + 1)
    requires entries == Count(x, r, |s|) && entries >= 1 && mult == 1.0 / (entries as real)
    ensures sum * mult == BoxPass(s, r)[x]
  {
    WindowSum(s, r, x);
    var lo, hi := BoxLo(x, r), BoxHi(x, r, |s|);
    assert sum == Sum(s, lo, hi + 1);
    assert entries == hi + 1 - lo;
    assert BoxPass(s, r)[x] == Mean(s, lo, hi + 1) == sum / (entries as real);
    Reciprocal(sum, entries as real, mult);
  }

  lemma Reciprocal(a: real, k: real, m: real)
    requires k > 0.0 && m == 1.0 / k
    ensures a * m == a / k
  {
  }

  /** One step while the line still feeds the buffer: the value v enters
      the oldest slot, the sum gains v and loses what the slot held, and the
      count grows until the buffer is full. */
  method Slide(buffer: array<real>, ghost s: seq<real>, r: int, ghost x: int,
               cur: int, sum: real, entries: int, mult: real, v: real)
    returns (cur': int, sum': real, entries': int, mult': real)
    requires Running(s, r, buffer[..], x, cur, sum, entries, mult) && 0 <= x && x + r + 1 < |s|
    requires v == s[x + r + 1]
    modifies buffer
    ensures Running(s, r, buffer[..], x + 1, cur', sum', entries', mult')
  {
    var w := buffer.Length;
    ghost var b := buffer[..];
    assert buffer[Slot(cur, 0, w)] == Feed(s, r, x);
    FeedSumSlide(s, r, x, x + w);
    sum' := sum + v - buffer[cur];
    buffer[cur] := v;
    cur' := cur + 1;
    if cur' == w {
      cur' := 0;
    }
    entries', mult' := entries, mult;
    CountInside(x, r, |s|);
    if entries < w {
      entries' := entries + 1;
      mult' := 1.0 / (entries' as real);
    }
    forall m | 0 <= m < w && x + 1 + m < |s| + r ensures buffer[Slot(cur', m, w)] == Feed(s, r, x + 1 + m) {
      SlotAdvance(cur, m, w);
      if m + 1 < w {
        SlotAdvance(cur, m + 1, w);
        assert buffer[Slot(cur', m, w)] == b[Slot(cur, m + 1, w)];
      }
    }
  }

  /** One step once the line is used up: the oldest value leaves, nothing
      enters, and the count drops by one.  On a line of at least 2r + 2
      samples the value leaving is always a sample, never one of the
      initial zeros. */
  method Drain(buffer: array<real>, ghost s: seq<real>, r: int, x: int,
               cur: int, sum: real, entries: int, mult: real)
    returns (cur': int, sum': real, entries': int, mult': real)
    requires Running(s, r, buffer[..], x, cur, sum, entries, mult) && |s| >= 2 * r + 2 && |s| - r - 1 <= x < |s|
    ensures Running(s, r, buffer[..], x + 1, cur', sum', entries', mult')
  {
    var w := buffer.Length;
    assert buffer[Slot(cur, 0, w)] == Feed(s, r, x);
    FeedSumSlide(s, r, x, x + w);
    CountPositive(x + 1, r, |s|);
    sum' := sum - buffer[cur];
    cur' := cur + 1;
    if cur' == w {
      cur' := 0;
    }
    entries' := entries - 1;
    mult' := 1.0 / (entries' as real);
    forall m | 0 <= m < w && x + 1 + m < |s| + r ensures buffer[Slot(cur', m, w)] == Feed(s, r, x + 1 + m) {
      SlotAdvance(cur, m, w);
      if m + 1 < w {
        SlotAdvance(cur, m + 1, w);
      }
    }
  }

  /** Samples 0 .. x - 1 of the line hold the pass's output and the others
      their original values s. */
  ghost predicate Written(a: seq<real>, start: int, stride: int, n: nat, s: seq<real>, r: int, x: int)
    requires |s| == n >= 2 && r >= 1
  {
    forall k :: 0 <= k < n ==> At(a, Pos(start, stride, k)) == if k < x then BoxPass(s, r)[k] else s[k]
  }

  /** The first loop of a pass: samples 0 .. n - r - 2, each written from the
      buffer, which then takes sample x + r + 1. */
  method PassInside(a: array<real>, start: int, stride: int, n: nat, r: int, buffer: array<real>, ghost s: seq<real>,
                    cur: int, sum: real, entries: int, mult: real)
    returns (cur': int, sum': real, entries': int, mult': real)
    requires LineIn(a.Length, start, stride, n) && stride >= 1
    requires r >= 1 && n > r && |s| == n && buffer != a
    requires Running(s, r, buffer[..], 0, cur, sum, entries, mult)
    requires Written(a[..], start, stride, n, s, r, 0)
    modifies a, buffer
    ensures Running(s, r, buffer[..], n - r - 1, cur', sum', entries', mult')
    ensures Written(a[..], start, stride, n, s, r, n - r - 1)
    ensures OnlyLine(old(a[..]), a[..], start, stride, n)
  {
    cur', sum', entries', mult' := cur, sum, entries, mult;
    var x := 0;
    while x < n - r - 1
      invariant 0 <= x <= n - r - 1
      invariant Running(s, r, buffer[..], x, cur', sum', entries', mult')
      invariant Written(a[..], start, stride, n, s, r, x)
      invariant OnlyLine(old(a[..]), a[..], start, stride, n)
    {
      Output(s, r, buffer[..], x, cur', sum', entries', mult');
      ghost var a0 := a[..];
      PutLine(a, start, stride, n, x, sum' * mult');
      OnlyLineTrans(old(a[..]), a0, a[..], start, stride, n);
      LinePos(a.Length, start, stride, n, x + r + 1);
      var newVal := a[start + (x + r + 1) * stride];
      assert newVal == At(a[..], Pos(start, stride, x + r + 1));
      cur', sum', entries', mult' := Slide(buffer, s, r, x, cur', sum', entries', mult', newVal);
      x := x + 1;
    }
  }

  /** The second loop of a pass: samples n - r - 1 .. n - 1, each written
      from the buffer, which then only gives up its oldest value. */
  method PassTail(a: array<real>, start: int, stride: int, n: nat, r: int, buffer: array<real>, ghost s: seq<real>,
                  cur: int, sum: real, entries: int, mult: real)
    requires LineIn(a.Length, start, stride, n) && stride >= 1
    requires r >= 1 && n >= 2 * r + 2 && |s| == n && buffer != a
    requires Running(s, r, buffer[..], n - r - 1, cur, sum, entries, mult)
    requires Written(a[..], start, stride, n, s, r, n - r - 1)
    modifies a
    ensures Written(a[..], start, stride, n, s, r, n)
    ensures OnlyLine(old(a[..]), a[..], start, stride, n)
  {
    var cur', sum', entries', mult' := cur, sum, entries, mult;
    var x := n - r - 1;
    while x < n
      invariant n - r - 1 <= x <= n
      invariant Running(s, r, buffer[..], x, cur', sum', entries', mult')
      invariant Written(a[..], start, stride, n, s, r, x)
      invariant OnlyLine(old(a[..]), a[..], start, stride, n)
    {
      Output(s, r, buffer[..], x, cur', sum', entries', mult');
      ghost var a0 := a[..];
      PutLine(a, start, stride, n, x, sum' * mult');
      OnlyLineTrans(old(a[..]), a0, a[..], start, stride, n);
      cur', sum', entries', mult' := Drain(buffer, s, r, x, cur', sum', entries', mult');
      x := x + 1;
    }
  }

  /** One box pass of radius r over the n samples of a line, in place, with
      a circular buffer of 2r + 1 values: the loops of `blurX` for one
      scanline and one iteration, on lines of at least 2r + 2 samples. */
  method BoxOnce(a: array<real>, start: int, stride: int, n: nat, r: int, buffer: array<real>)
    requires LineIn(a.Length, start, stride, n) && stride >= 1
    requires r >= 1 && n >= 2 * r + 2 && buffer.Length == 2 * r + 1 && buffer != a
    modifies a, buffer
    ensures OnlyLine(old(a[..]), a[..], start, stride, n)
    ensures LineOf(a[..], start, stride, n) == BoxPass(LineOf(old(a[..]), start, stride, n), r)
  {
    ghost var s := LineOf(a[..], start, stride, n);
    var width := 2 * r + 1;
    var sum, bufferEntries := StartBuffer(a, start, stride, n, r, buffer);
    var bufferIndex := 0;
    var mult := 1.0 / (bufferEntries as real);
    forall m | 0 <= m < width ensures buffer[Slot(0, m, width)] == Feed(s, r, m) {
    }
    bufferIndex, sum, bufferEntries, mult := PassInside(a, start, stride, n, r, buffer, s, bufferIndex, sum, bufferEntries, mult);
    ghost var a1 := a[..];
    PassTail(a, start, stride, n, r, buffer, s, bufferIndex, sum, bufferEntries, mult);
    OnlyLineTrans(old(a[..]), a1, a[..], start, stride, n);
    assert LineOf(a[..], start, stride, n) == BoxPass(s, r);
  }

  /** `bufferEntries` when sample x of a line of n samples is written: r
      once the buffer is filled, one more for each step of the first loop
      while below 2r + 1, and one less for each step of the second loop,
      whatever value left the buffer.  On lines of at least 2r + 2 samples
      this is `Count`, the invariant `Drain` keeps. */
  function EntriesAsWritten(r: int, n: int, x: nat): int {
    if x == 0 then r
    else
      var e := EntriesAsWritten(r, n, x - 1);
      if x - 1 < n - r - 1 then (if e < 2 * r + 1 then e + 1 else e) else e - 1
  }

  lemma {:induction false} AsWrittenShort(r: int, x: nat)
    requires r >= 1 && x <= r
    ensures EntriesAsWritten(r, r + 1, x) == r - x
  {
    if x > 0 {
      AsWrittenShort(r, x - 1);
    }
  }

  /** Why the box kernel is only used on lines of at least 2r + 2 samples:
      on a line of r + 1 samples the count falls by one at every step of
      the second loop although only zeros leave the buffer, and it is 0 when
      the last sample is written, which becomes sum * (1.0 / 0) while its
      window holds r samples. */
  lemma AsWrittenReachesZero(r: int)
    requires r >= 1
    ensures EntriesAsWritten(r, r + 1, r) == 0
    ensures Count(r, r, r + 1) == r
  {
    AsWrittenShort(r, r);
  }

  /** On lines of r + 1 .. 2r + 1 samples the first loop runs n - r - 1
      times and never fills the buffer, so the count climbs from r to
      n - 1. */
  lemma {:induction false} AsWrittenFirstLoop(r: int, n: int, x: nat)
    requires r >= 1 && r + 1 <= n <= 2 * r + 1 && x <= n - r - 1
    ensures EntriesAsWritten(r, n, x) == r + x
  {
    if x > 0 {
      AsWrittenFirstLoop(r, n, x - 1);
    }
  }

  /** ... and the second loop then lowers it by one per sample, so sample
      n - r - 1 + k is written with a count of n - 1 - k. */
  lemma {:induction false} AsWrittenSecondLoop(r: int, n: int, k: nat)
    requires r >= 1 && r + 1 <= n <= 2 * r + 1 && k <= r
    ensures EntriesAsWritten(r, n, n - r - 1 + k) == n - 1 - k
  {
    if k == 0 {
      AsWrittenFirstLoop(r, n, n - r - 1);
    } else {
      AsWrittenSecondLoop(r, n, k - 1);
    }
  }

  /** On those lengths every sample of the second loop after its first is
      written with fewer entries than its window holds, while the sum only
      loses the padding zeros: the divisor is too small. */
  lemma AsWrittenUndercounts(r: int, n: int, k: nat)
    requires r >= 1 && r + 1 <= n <= 2 * r + 1 && 1 <= k <= r
    ensures EntriesAsWritten(r, n, n - r - 1 + k) == n - 1 - k < Count(n - r - 1 + k, r, n)
  {
    AsWrittenSecondLoop(r, n, k);
  }

  /** One pass of `blurX` as written: the scanline, or the point where the
      count it divides by has reached 0. */
  datatype PassResult = Emitted(o: seq<real>) | ZeroCount

  /** The loops of one pass from sample x on, with the circular buffer
      `buf`, its oldest slot `index`, the running `sum` and the count
      `entries` (the pass's `mult` is always `1.0 / entries`).  The first
      loop reads sample x + r + 1 before it is overwritten, so the samples
      are those of the line before the pass. */
  function PassFrom(s: seq<real>, r: int, buf: seq<real>, index: int, sum: real, entries: int, x: int): (w: PassResult)
    requires r >= 1 && |buf| == 2 * r + 1 && 0 <= index < |buf| && 0 <= x <= |s|
    ensures w.Emitted? ==> |w.o| == |s| - x
    decreases |s| - x
  {
    if x == |s| then Emitted([])
    else if entries == 0 then ZeroCount
    else
      var out := sum * (1.0 / (entries as real));
      var index' := if index + 1 == |buf| then 0 else index + 1;
      var rest :=
        if x < |s| - r - 1 then
          var v := s[x + r + 1];
          PassFrom(s, r, buf[index := v], index', sum + v - buf[index],
                   if entries < |buf| then entries + 1 else entries, x + 1)
        else
          PassFrom(s, r, buf, index', sum - buf[index], entries - 1, x + 1);
      if rest.Emitted? then Emitted([out] + rest.o) else ZeroCount
  }

  /** One pass of radius r, buffer of 2r + 1, as the code runs it on any
      line it reaches (at least r + 1 samples): r + 1 zeros and samples
      1 .. r fill the buffer, with a count of r. */
  function PassAsWritten(s: seq<real>, r: int): (w: PassResult)
    requires r >= 1 && |s| >= r + 1
    ensures w.Emitted? ==> |w.o| == |s|
  {
    PassFrom(s, r, seq(2 * r + 1, j requires 0 <= j < 2 * r + 1 => if j <= r then 0.0 else s[j - r]),
             0, Sum(s, 1, r + 1), r, 0)
  }

  /** The second loop of the pass below, from sample 1 on: the count drops
      from 3 to 1 while the sum keeps 3. */
  lemma AsWrittenTail()
    ensures PassFrom([1.0, 1.0, 1.0, 1.0], 2, [1.0, 0.0, 0.0, 1.0, 1.0], 1, 3.0, 3, 1) == Emitted([1.0, 1.5, 3.0])
  {
    var s := [1.0, 1.0, 1.0, 1.0];
    var b := [1.0, 0.0, 0.0, 1.0, 1.0];
    assert PassFrom(s, 2, b, 4, 2.0, 0, 4) == Emitted([]);
    assert PassFrom(s, 2, b, 3, 3.0, 1, 3) == Emitted([3.0]);
    assert PassFrom(s, 2, b, 2, 3.0, 2, 2) == Emitted([1.5, 3.0]);
  }

  /** The whole pass on that line: the buffer starts as three zeros and
      samples 1 and 2, and the first loop's one step feeds sample 3. */
  lemma AsWrittenHead()
    ensures PassAsWritten([1.0, 1.0, 1.0, 1.0], 2) == Emitted([1.0, 1.0, 1.5, 3.0])
  {
    var s := [1.0, 1.0, 1.0, 1.0];
    AsWrittenTail();
    var b0 := seq(5, j requires 0 <= j < 5 => if j <= 2 then 0.0 else s[j - 2]);
    assert b0 == [0.0, 0.0, 0.0, 1.0, 1.0];
    assert b0[0 := 1.0] == [1.0, 0.0, 0.0, 1.0, 1.0];
    assert Sum(s, 1, 3) == 2.0;
    assert PassAsWritten(s, 2) == PassFrom(s, 2, b0, 0, 2.0, 2, 0);
  }

  /** A filter 5 wide on a constant line of 4 samples: the code's pass
      gives [1, 1, 1.5, 3] where the box mean, and `blurX`'s promise of a
      rectangular filter, give the line back. */
  lemma AsWrittenOverScales()
    ensures PassAsWritten([1.0, 1.0, 1.0, 1.0], 2) == Emitted([1.0, 1.0, 1.5, 3.0])
    ensures BoxPass([1.0, 1.0, 1.0, 1.0], 2) == [1.0, 1.0, 1.0, 1.0]
  {
    AsWrittenHead();
    BoxPassWithin([1.0, 1.0, 1.0, 1.0], 2, 1.0, 1.0);
  }

  /** `iterations` passes over one scanline: the `for i` loop of `blurX`. */
  method BoxLine(a: array<real>, start: int, stride: int, n: nat, r: int, iterations: int, buffer: array<real>)
    requires LineIn(a.Length, start, stride, n) && stride >= 1
    requires r >= 1 && n >= 2 * r + 2 && buffer.Length == 2 * r + 1 && buffer != a
    modifies a, buffer
    ensures OnlyLine(old(a[..]), a[..], start, stride, n)
    ensures LineOf(a[..], start, stride, n) == Boxed(LineOf(old(a[..]), start, stride, n), r, iterations)
  {
    ghost var s := LineOf(a[..], start, stride, n);
    var i := 0;
    while i < iterations
      invariant 0 <= i <= if iterations < 0 then 0 else iterations
      invariant OnlyLine(old(a[..]), a[..], start, stride, n)
      invariant LineOf(a[..], start, stride, n) == Boxed(s, r, i)
    {
      ghost var a0 := a[..];
      BoxOnce(a, start, stride, n, r, buffer);
      OnlyLineTrans(old(a[..]), a0, a[..], start, stride, n);
      i := i + 1;
    }
  }

  /** One scanline of `blurXCompletely`: the mean of the line, summed first
      and then written to every sample. */
  method FlattenLine(a: array<real>, start: int, stride: int, n: nat)
    requires LineIn(a.Length, start, stride, n) && stride >= 1 && n >= 1
    modifies a
    ensures OnlyLine(old(a[..]), a[..], start, stride, n)
    ensures LineOf(a[..], start, stride, n) == Flat(LineOf(old(a[..]), start, stride, n))
  {
    ghost var s := LineOf(a[..], start, stride, n);
    var average: real := 0.0;
    var x := 0;
    while x < n
      invariant 0 <= x <= n && average == Sum(s, 0, x)
      invariant a[..] == old(a[..])
    {
      LinePos(a.Length, start, stride, n, x);
      assert a[start + x * stride] == s[x];
      average := average + a[start + x * stride];
      x := x + 1;
    }
    average := average / (n as real);
    x := 0;
    while x < n
      invariant 0 <= x <= n
      invariant OnlyLine(old(a[..]), a[..], start, stride, n)
      invariant forall k :: 0 <= k < n ==> At(a[..], Pos(start, stride, k)) == if k < x then average else s[k]
    {
      ghost var a0 := a[..];
      PutLine(a, start, stride, n, x, average);
      OnlyLineTrans(old(a[..]), a0, a[..], start, stride, n);
      x := x + 1;
    }
    assert LineOf(a[..], start, stride, n) == Flat(s);
  }
}
