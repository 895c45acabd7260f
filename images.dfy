/** The strided four-dimensional sample buffer (`Image` in Image.h).

    An image is a value: seven integers of metadata plus a handle on a shared
    backing store and an offset into it.  Every view made from an image holds
    the same `array` as its parent, so a write through one handle is seen
    through every other.  `data == null` stands for a null base pointer. */
module Images {

  datatype Image = Image(
    width: int, height: int, frames: int, channels: int,
    ystride: int, tstride: int, cstride: int,
    data: array?<real>, base: int)

  /** Where sample (x, y, t, c) lives in the backing store. */
  function Offset(im: Image, x: int, y: int, t: int, c: int): int {
    im.base + x + y * im.ystride + t * im.tstride + c * im.cstride
  }

  /** `Offset` under the name that the facts about the layout as a whole
      (`Injective`, `IsCell`) are stated with, so that those facts are only
      brought in where a proof names a cell with it. */
  function CellPos(im: Image, x: int, y: int, t: int, c: int): int {
    Offset(im, x, y, t, c)
  }

  predicate InBounds(im: Image, x: int, y: int, t: int, c: int) {
    0 <= x < im.width && 0 <= y < im.height && 0 <= t < im.frames && 0 <= c < im.channels
  }

  predicate Empty(im: Image) {
    im.width == 0 || im.height == 0 || im.frames == 0 || im.channels == 0
  }

  /** An image whose strides pack the samples without gaps (`dense()`). */
  predicate Dense(im: Image) {
    im.cstride == im.width * im.height * im.frames &&
    im.tstride == im.width * im.height &&
    im.ystride == im.width
  }

  /** `defined()`: the base pointer is not null. */
  predicate Defined(im: Image) {
    im.data != null
  }

  /** The metadata invariant: non-negative extents and strides, and the last
      in-bounds sample of a non-empty image lies inside the backing store. */
  predicate Valid(im: Image) {
    0 <= im.width && 0 <= im.height && 0 <= im.frames && 0 <= im.channels &&
    0 <= im.ystride && 0 <= im.tstride && 0 <= im.cstride &&
    (im.data != null ==> 0 <= im.base) &&
    (!Empty(im) ==>
      im.data != null &&
      Offset(im, im.width - 1, im.height - 1, im.frames - 1, im.channels - 1) < im.data.Length)
  }

  /** Distinct in-bounds coordinates name distinct samples. */
  ghost predicate Injective(im: Image) {
    forall x, y, t, c, x', y', t', c' ::
      InBounds(im, x, y, t, c) && InBounds(im, x', y', t', c') &&
      CellPos(im, x, y, t, c) == CellPos(im, x', y', t', c') ==>
      x == x' && y == y' && t == t' && c == c'
  }

  /** Position i of the store holds some in-bounds sample of `im`. */
  ghost predicate IsCell(im: Image, i: int) {
    exists x, y, t, c :: InBounds(im, x, y, t, c) && CellPos(im, x, y, t, c) == i
  }

  lemma MulMono(a: int, b: int, s: int)
    requires 0 <= a <= b && 0 <= s
    ensures 0 <= a * s <= b * s
  {
    assert b * s - a * s == (b - a) * s;
  }

  /** Every in-bounds offset of a valid image stays inside the allocation. */
  lemma InStorage(im: Image, x: int, y: int, t: int, c: int)
    requires Valid(im) && InBounds(im, x, y, t, c)
    ensures im.data != null && 0 <= Offset(im, x, y, t, c) < im.data.Length
  {
    MulMono(y, im.height - 1, im.ystride);
    MulMono(t, im.frames - 1, im.tstride);
    MulMono(c, im.channels - 1, im.cstride);
  }

  /** Reading `im(x, y, t, c)`. */
  function Get(im: Image, x: int, y: int, t: int, c: int): real
    reads im.data
    requires Valid(im) && InBounds(im, x, y, t, c)
  {
    InStorage(im, x, y, t, c);
    im.data[Offset(im, x, y, t, c)]
  }

  /** Writing `im(x, y, t, c) = v` through the returned reference. */
  method Put(im: Image, x: int, y: int, t: int, c: int, v: real)
    requires Valid(im) && InBounds(im, x, y, t, c)
    modifies im.data
    ensures im.data != null && 0 <= Offset(im, x, y, t, c) < im.data.Length
    ensures im.data[..] == old(im.data[..])[Offset(im, x, y, t, c) := v]
  {
    InStorage(im, x, y, t, c);
    im.data[Offset(im, x, y, t, c)] := v;
  }

  /** `scanline(y, t, c)`: the start of row (y, t, c); element x of the row is
      sample (x, y, t, c). */
  function Scanline(im: Image, y: int, t: int, c: int): (row: int)
    ensures forall x :: row + x == Offset(im, x, y, t, c)
  {
    im.base + y * im.ystride + t * im.tstride + c * im.cstride
  }

  /** The default constructor: no storage and all extents zero. */
  function Default(): (im: Image)
    ensures Valid(im) && !Defined(im) && Empty(im)
    ensures im.width == 0 && im.height == 0 && im.frames == 0 && im.channels == 0
  {
    Image(0, 0, 0, 0, 0, 0, 0, null, 0)
  }

  lemma ModShift(a: nat, j: nat)
    requires a % 32 + j <= 32
    ensures (a + j) % 32 == if a % 32 + j == 32 then 0 else a % 32 + j
  {
    var q := a / 32;
    if a % 32 + j == 32 {
      assert a + j == (q + 1) * 32;
    } else {
      assert a + j == q * 32 + (a % 32 + j);
    }
  }

  /** `compute_base`: starting at the byte address `addr` of a float-aligned
      allocation, step one float at a time until the address is a multiple of
      32 bytes. */
  method ComputeBase(addr: nat) returns (k: nat)
    requires addr % 4 == 0
    ensures k <= 7 && (addr + 4 * k) % 32 == 0
    ensures forall j :: 0 <= j < k ==> (addr + 4 * j) % 32 != 0
  {
    var m := addr % 32;
    assert m % 4 == 0;
    k := 0;
    while (addr + 4 * k) % 32 != 0
      invariant m + 4 * k <= 32 && (m == 0 ==> k == 0)
      invariant forall j :: 0 <= j < k ==> (addr + 4 * j) % 32 != 0
      decreases 32 - 4 * k
    {
      ModShift(addr, 4 * k);
      ModShift(addr, 4 * k + 4);
      k := k + 1;
    }
    ModShift(addr, 4 * k);
  }

  lemma DenseLast(w: int, h: int, f: int, c: int)
    requires 1 <= w && 1 <= h && 1 <= f && 1 <= c
    ensures (w - 1) + (h - 1) * w + (f - 1) * (w * h) + (c - 1) * (w * h * f) == w * h * f * c - 1
  {
    assert (c - 1) * (w * h * f) == w * h * f * c - w * h * f;
    assert (f - 1) * (w * h) == w * h * f - w * h;
    assert (h - 1) * w == w * h - w;
  }

  /** `Image(w, h, f, c)`: a fresh, zero-filled store of w*h*f*c + 7 samples
      and dense strides, with the base advanced to a 32-byte boundary.
      `addr` is the byte address the allocator returned. */
  method Create(w: int, h: int, f: int, c: int, addr: nat) returns (im: Image)
    requires 0 <= w && 0 <= h && 0 <= f && 0 <= c && addr % 4 == 0
    ensures im.data != null && fresh(im.data)
    ensures im.data.Length == w * h * f * c + 7
    ensures forall i :: 0 <= i < im.data.Length ==> im.data[i] == 0.0
    ensures im.width == w && im.height == h && im.frames == f && im.channels == c
    ensures Dense(im) && Valid(im) && Defined(im)
    ensures 0 <= im.base <= 7 && (addr + 4 * im.base) % 32 == 0
  {
    MulMono(0, w, h);
    MulMono(0, w * h, f);
    MulMono(0, w * h * f, c);
    var store := new real[w * h * f * c + 7](_ => 0.0);
    var base := ComputeBase(addr);
    im := Image(w, h, f, c, w, w * h, w * h * f, store, base);
    if !Empty(im) {
      DenseLast(w, h, f, c);
    }
  }

  /** Dense offsets are a mixed-radix numeral above the base. */
  lemma DenseOffset(im: Image, x: int, y: int, t: int, c: int)
    requires Dense(im)
    ensures Offset(im, x, y, t, c) == im.base + x + im.width * (y + im.height * (t + im.frames * c))
  {
    var w, h, f := im.width, im.height, im.frames;
    assert c * (w * h * f) == w * (h * (f * c));
    assert t * (w * h) == w * (h * t);
    assert w * (y + h * (t + f * c)) == w * y + w * (h * t) + w * (h * (f * c));
  }

  lemma Digit(a: int, b: int, a': int, b': int, n: int)
    requires 0 <= a < n && 0 <= a' < n && a + n * b == a' + n * b'
    ensures a == a' && b == b'
  {
    if b > b' {
      MulMono(1, b - b', n);
    } else if b < b' {
      MulMono(1, b' - b, n);
    }
  }

  lemma DigitBound(a: int, b: int, n: int, m: int)
    requires 0 <= a < n && 0 <= b < m
    ensures 0 <= a + n * b < n * m
  {
    MulMono(b, m - 1, n);
    assert (m - 1) * n == n * m - n;
  }

  /** Dense offsets of in-bounds samples hit [base, base + w*h*f*c). */
  lemma DenseRange(im: Image, x: int, y: int, t: int, c: int)
    requires Dense(im) && InBounds(im, x, y, t, c)
    ensures im.base <= Offset(im, x, y, t, c) < im.base + im.width * im.height * im.frames * im.channels
  {
    DenseOffset(im, x, y, t, c);
    var w, h, f, n := im.width, im.height, im.frames, im.channels;
    DigitBound(t, c, f, n);
    DigitBound(y, t + f * c, h, f * n);
    DigitBound(x, y + h * (t + f * c), w, h * (f * n));
    assert w * (h * (f * n)) == w * h * f * n;
  }

  /** Dense offsets of distinct in-bounds samples are distinct. */
  lemma DenseInjective(im: Image)
    requires Dense(im)
    ensures Injective(im)
  {
    forall x, y, t, c, x', y', t', c' |
      InBounds(im, x, y, t, c) && InBounds(im, x', y', t', c') &&
      Offset(im, x, y, t, c) == Offset(im, x', y', t', c')
      ensures x == x' && y == y' && t == t' && c == c'
    {
      DenseOffset(im, x, y, t, c);
      DenseOffset(im, x', y', t', c');
      var h, f := im.height, im.frames;
      Digit(x, y + h * (t + f * c), x', y' + h * (t' + f * c'), im.width);
      Digit(y, t + f * c, y', t' + f * c', h);
      Digit(t, c, t', c', f);
    }
  }

  lemma DivBound(k: int, n: int, m: int)
    requires 0 <= k < n * m && 0 < n
    ensures 0 <= k / n < m
  {
    if k / n >= m {
      MulMono(m, k / n, n);
    }
  }

  lemma Split(k: int, n: int, m: int)
    requires 0 <= k < n * m && 0 < n
    ensures 0 <= k % n < n && 0 <= k / n < m && k == k % n + n * (k / n)
  {
    DivBound(k, n, m);
  }

  lemma PositiveFactors(w: int, h: int, f: int, n: int)
    requires 0 <= w && 0 <= h && 0 <= f && 0 <= n && 0 < w * h * f * n
    ensures 0 < w && 0 < h && 0 < f && 0 < n
  {
  }

  /** Every k in [0, w*h*f*c) is the dense offset, above the base, of an
      in-bounds sample of a valid dense image. */
  lemma DenseCovers(im: Image, k: int)
    requires Valid(im) && Dense(im) && 0 <= k < im.width * im.height * im.frames * im.channels
    ensures im.width > 0 && im.height > 0 && im.frames > 0
    ensures var q1 := k / im.width; var q2 := q1 / im.height; var q3 := q2 / im.frames;
            InBounds(im, k % im.width, q1 % im.height, q2 % im.frames, q3) &&
            Offset(im, k % im.width, q1 % im.height, q2 % im.frames, q3) == im.base + k
  {
    var w, h, f, n := im.width, im.height, im.frames, im.channels;
    PositiveFactors(w, h, f, n);
    assert w * h * f * n == w * (h * (f * n));
    var q1 := k / w;
    Split(k, w, h * (f * n));
    var q2 := q1 / h;
    Split(q1, h, f * n);
    var q3 := q2 / f;
    Split(q2, f, n);
    DenseOffset(im, k % w, q1 % h, q2 % f, q3);
  }

  /** `region(x, y, t, c, xs, ys, ts, cs)`: a view on the same storage with the
      parent's strides.  Its extents are not checked against the parent. */
  function Region(im: Image, x: int, y: int, t: int, c: int,
                  xs: int, ys: int, ts: int, cs: int): (r: Image)
    ensures r.data == im.data
    ensures r.ystride == im.ystride && r.tstride == im.tstride && r.cstride == im.cstride
    ensures r.width == xs && r.height == ys && r.frames == ts && r.channels == cs
    ensures forall x', y', t', c' ::
      Offset(r, x', y', t', c') == Offset(im, x + x', y + y', t + t', c + c')
  {
    Image(xs, ys, ts, cs, im.ystride, im.tstride, im.cstride, im.data, Offset(im, x, y, t, c))
  }

  predicate Within(im: Image, x: int, y: int, t: int, c: int,
                   xs: int, ys: int, ts: int, cs: int) {
    0 <= x && 0 <= xs && x + xs <= im.width &&
    0 <= y && 0 <= ys && y + ys <= im.height &&
    0 <= t && 0 <= ts && t + ts <= im.frames &&
    0 <= c && 0 <= cs && c + cs <= im.channels
  }

  /** A region that lies inside its parent is itself a valid image, its
      samples are the parent's shifted samples, and it inherits injectivity. */
  lemma RegionValid(im: Image, x: int, y: int, t: int, c: int,
                    xs: int, ys: int, ts: int, cs: int)
    requires Valid(im) && Within(im, x, y, t, c, xs, ys, ts, cs)
    ensures var r := Region(im, x, y, t, c, xs, ys, ts, cs);
            Valid(r) &&
            (forall x', y', t', c' :: InBounds(r, x', y', t', c') ==>
               InBounds(im, x + x', y + y', t + t', c + c')) &&
            (Injective(im) ==> Injective(r))
  {
    var r := Region(im, x, y, t, c, xs, ys, ts, cs);
    if r.data != null {
      MulMono(0, y, im.ystride);
      MulMono(0, t, im.tstride);
      MulMono(0, c, im.cstride);
    }
    if !Empty(r) {
      InStorage(im, x + xs - 1, y + ys - 1, t + ts - 1, c + cs - 1);
    }
    if Injective(im) {
      forall x1, y1, t1, c1, x2, y2, t2, c2 |
        InBounds(r, x1, y1, t1, c1) && InBounds(r, x2, y2, t2, c2) &&
        Offset(r, x1, y1, t1, c1) == Offset(r, x2, y2, t2, c2)
        ensures x1 == x2 && y1 == y2 && t1 == t2 && c1 == c2
      {
        assert InBounds(im, x + x1, y + y1, t + t1, c + c1);
        assert InBounds(im, x + x2, y + y2, t + t2, c + c2);
      }
    }
  }

  /** `column(x)`: the region one sample wide at column x. */
  function Column(im: Image, x: int): (r: Image)
    ensures r.data == im.data && r.width == 1 && r.height == im.height
    ensures r.frames == im.frames && r.channels == im.channels
    ensures forall y, t, c :: Offset(r, 0, y, t, c) == Offset(im, x, y, t, c)
  {
    Region(im, x, 0, 0, 0, 1, im.height, im.frames, im.channels)
  }

  /** `row(y)`: the region one sample high at row y. */
  function Row(im: Image, y: int): (r: Image)
    ensures r.data == im.data && r.width == im.width && r.height == 1
    ensures r.frames == im.frames && r.channels == im.channels
    ensures forall x, t, c :: Offset(r, x, 0, t, c) == Offset(im, x, y, t, c)
  {
    Region(im, 0, y, 0, 0, im.width, 1, im.frames, im.channels)
  }

  /** `frame(t)`: the region one frame deep at frame t. */
  function Frame(im: Image, t: int): (r: Image)
    ensures r.data == im.data && r.width == im.width && r.height == im.height
    ensures r.frames == 1 && r.channels == im.channels
    ensures forall x, y, c :: Offset(r, x, y, 0, c) == Offset(im, x, y, t, c)
  {
    Region(im, 0, 0, t, 0, im.width, im.height, 1, im.channels)
  }

  /** `channel(c)`: the region one channel deep at channel c. */
  function Channel(im: Image, c: int): (r: Image)
    ensures r.data == im.data && r.width == im.width && r.height == im.height
    ensures r.frames == im.frames && r.channels == 1
    ensures forall x, y, t :: Offset(r, x, y, t, 0) == Offset(im, x, y, t, c)
  {
    Region(im, 0, 0, 0, c, im.width, im.height, im.frames, 1)
  }

  /** Two base pointers are equal: both null, or the same store at the same
      offset. */
  predicate SameBase(a: Image, b: Image) {
    a.data == b.data && (a.data != null ==> a.base == b.base)
  }

  /** `operator==`: base pointer, strides and extents; never sample values. */
  predicate Equal(a: Image, b: Image) {
    SameBase(a, b) &&
    a.ystride == b.ystride && a.tstride == b.tstride && a.cstride == b.cstride &&
    a.width == b.width && a.height == b.height && a.frames == b.frames && a.channels == b.channels
  }

  /** Equal images are aliases: every in-bounds sample of one is the same
      cell of the same store in the other. */
  lemma EqualAliases(a: Image, b: Image, x: int, y: int, t: int, c: int)
    requires Equal(a, b) && Defined(a) && InBounds(a, x, y, t, c)
    ensures InBounds(b, x, y, t, c) && b.data == a.data
    ensures Offset(a, x, y, t, c) == Offset(b, x, y, t, c)
  {
  }

  /** `operator=`: all seven metadata fields, the base and the storage handle
      are taken from `other`; no sample is copied, so the result is an alias
      of `other`. */
  function Assign(target: Image, other: Image): (r: Image)
    ensures Equal(r, other) && r.data == other.data
    ensures forall x, y, t, c :: Offset(r, x, y, t, c) == Offset(other, x, y, t, c)
  {
    Image(other.width, other.height, other.frames, other.channels,
          other.ystride, other.tstride, other.cstride, other.data, other.base)
  }

  /** A bounded or unbounded function-like source of samples; `sample(x, y, t, c)`
      is `scanline(y, t, c)[x]`. */
  datatype Source = Source(
    bounded: bool,
    width: int, height: int, frames: int, channels: int,
    sample: (int, int, int, int) -> real)

  predicate Matches(im: Image, src: Source) {
    im.width == src.width && im.height == src.height &&
    im.frames == src.frames && im.channels == src.channels
  }

  /** An image read as a bounded source, over a snapshot of its store. */
  function AsSource(im: Image, snapshot: seq<real>): (src: Source)
    ensures src.bounded && Matches(im, src)
    ensures forall x, y, t, c :: 0 <= Offset(im, x, y, t, c) < |snapshot| ==>
      src.sample(x, y, t, c) == snapshot[Offset(im, x, y, t, c)]
  {
    Source(true, im.width, im.height, im.frames, im.channels,
      (x, y, t, c) =>
        var o := Offset(im, x, y, t, c);
        if 0 <= o < |snapshot| then snapshot[o] else 0.0)
  }

  /** Rows (y', t', c') already written when the loops of `Set` stand at
      channel c, frame t, row y. */
  predicate RowBefore(y': int, t': int, c': int, y: int, t: int, c: int) {
    c' < c || (c' == c && (t' < t || (t' == t && y' < y)))
  }

  /** s1 differs from s0 only at cells of `im`. */
  ghost predicate KeepsNonCells(im: Image, s0: seq<real>, s1: seq<real>) {
    |s0| == |s1| && forall i :: 0 <= i < |s0| && !IsCell(im, i) ==> s1[i] == s0[i]
  }

  /** Every row written before (y, t, c) holds the source's samples in s. */
  ghost predicate RowsFromSource(im: Image, s: seq<real>, src: Source, y: int, t: int, c: int) {
    forall x, y', t', c' ::
      InBounds(im, x, y', t', c') && RowBefore(y', t', c', y, t, c) && 0 <= Offset(im, x, y', t', c') < |s| ==>
      s[Offset(im, x, y', t', c')] == src.sample(x, y', t', c')
  }

  /** Every position of row (y, t, c) of the store is a cell of `im`. */
  lemma RowPositionIsCell(im: Image, y: int, t: int, c: int, i: int)
    requires InBounds(im, 0, y, t, c)
    ensures Scanline(im, y, t, c) <= i < Scanline(im, y, t, c) + im.width ==> IsCell(im, i)
  {
    var row := Scanline(im, y, t, c);
    if row <= i < row + im.width {
      assert InBounds(im, i - row, y, t, c) && Offset(im, i - row, y, t, c) == i;
    }
  }

  /** In an injective image only the samples of row (y, t, c) lie in that
      row's positions. */
  lemma RowPositionIsRow(im: Image, y: int, t: int, c: int, x: int, y': int, t': int, c': int)
    requires Injective(im) && InBounds(im, 0, y, t, c) && InBounds(im, x, y', t', c')
    ensures Scanline(im, y, t, c) <= Offset(im, x, y', t', c') < Scanline(im, y, t, c) + im.width ==>
      y' == y && t' == t && c' == c
  {
    var row := Scanline(im, y, t, c);
    var i := Offset(im, x, y', t', c');
    if row <= i < row + im.width {
      assert InBounds(im, i - row, y, t, c) && Offset(im, i - row, y, t, c) == i;
    }
  }

  /** Rewriting the positions of row (y, t, c) changes no position outside
      the image's cells and, in an injective image, no sample of another row. */
  lemma RowWrite(im: Image, s0: seq<real>, s1: seq<real>, y: int, t: int, c: int)
    requires InBounds(im, 0, y, t, c) && |s0| == |s1|
    requires forall i :: 0 <= i < |s0| && !(Scanline(im, y, t, c) <= i < Scanline(im, y, t, c) + im.width) ==>
      s1[i] == s0[i]
    ensures KeepsNonCells(im, s0, s1)
    ensures Injective(im) ==> forall x, y', t', c' ::
      InBounds(im, x, y', t', c') && !(y' == y && t' == t && c' == c) && 0 <= Offset(im, x, y', t', c') < |s0| ==>
      s1[Offset(im, x, y', t', c')] == s0[Offset(im, x, y', t', c')]
  {
    forall i | 0 <= i < |s0| && !IsCell(im, i) ensures s1[i] == s0[i] {
      RowPositionIsCell(im, y, t, c, i);
    }
    if Injective(im) {
      forall x, y', t', c' |
        InBounds(im, x, y', t', c') && !(y' == y && t' == t && c' == c) && 0 <= Offset(im, x, y', t', c') < |s0|
        ensures s1[Offset(im, x, y', t', c')] == s0[Offset(im, x, y', t', c')]
      {
        RowPositionIsRow(im, y, t, c, x, y', t', c');
      }
    }
  }

  /** One more row of `Set` done: the rows before (y, t, c) keep the source's
      samples and row (y, t, c) now has them too. */
  lemma RowsAdvance(im: Image, s0: seq<real>, s1: seq<real>, src: Source, y: int, t: int, c: int)
    requires InBounds(im, 0, y, t, c) && |s0| == |s1|
    requires forall i :: 0 <= i < |s0| && !(Scanline(im, y, t, c) <= i < Scanline(im, y, t, c) + im.width) ==>
      s1[i] == s0[i]
    requires 0 <= Scanline(im, y, t, c) && Scanline(im, y, t, c) + im.width <= |s1|
    requires forall x :: 0 <= x < im.width ==> s1[Scanline(im, y, t, c) + x] == src.sample(x, y, t, c)
    requires Injective(im) ==> RowsFromSource(im, s0, src, y, t, c)
    ensures KeepsNonCells(im, s0, s1)
    ensures Injective(im) ==> RowsFromSource(im, s1, src, y + 1, t, c)
  {
    RowWrite(im, s0, s1, y, t, c);
    if Injective(im) {
      forall x, y', t', c' |
        InBounds(im, x, y', t', c') && RowBefore(y', t', c', y + 1, t, c) && 0 <= Offset(im, x, y', t', c') < |s1|
        ensures s1[Offset(im, x, y', t', c')] == src.sample(x, y', t', c')
      {
        if !(y' == y && t' == t && c' == c) {
          assert RowBefore(y', t', c', y, t, c);
        } else {
          assert Offset(im, x, y', t', c') == Scanline(im, y, t, c) + x;
        }
      }
    }
  }

  /** The innermost loop of `set`: the `width` positions from `row` on take
      the source's scanline (y, t, c); nothing else is written. */
  method SetRow(data: array<real>, row: int, width: int, src: Source, y: int, t: int, c: int)
    requires 0 <= row && 0 <= width && row + width <= data.Length
    modifies data
    ensures forall x :: 0 <= x < width ==> data[row + x] == src.sample(x, y, t, c)
    ensures forall i :: 0 <= i < data.Length && !(row <= i < row + width) ==> data[i] == old(data[i])
  {
    var x := 0;
    while x < width
      invariant 0 <= x <= width
      invariant forall x' :: 0 <= x' < x ==> data[row + x'] == src.sample(x', y, t, c)
      invariant forall i :: 0 <= i < data.Length && !(row <= i < row + width) ==> data[i] == old(data[i])
    {
      data[row + x] := src.sample(x, y, t, c);
      x := x + 1;
    }
  }

  /** `set(func)`, scalar path: a bounded source must match all four extents,
      an unbounded one needs a defined image; otherwise nothing is written
      (`ok` is false).  On success every in-bounds sample of an injective
      image equals the source's sample, and no position of the store outside
      the image's cells is written. */
  method Set(dst: Image, src: Source) returns (ok: bool)
    requires Valid(dst)
    modifies dst.data
    ensures ok == (if src.bounded then Matches(dst, src) else Defined(dst))
    ensures !ok ==> dst.data == null || dst.data[..] == old(dst.data[..])
    ensures ok && Injective(dst) ==>
      forall x, y, t, c :: InBounds(dst, x, y, t, c) ==> Get(dst, x, y, t, c) == src.sample(x, y, t, c)
    ensures dst.data != null ==> KeepsNonCells(dst, old(dst.data[..]), dst.data[..])
  {
    ok := if src.bounded then Matches(dst, src) else Defined(dst);
    if !ok || Empty(dst) { return; }
    var data := dst.data;
    ghost var s0 := data[..];
    var c := 0;
    while c < dst.channels
      invariant 0 <= c <= dst.channels
      invariant Injective(dst) ==> RowsFromSource(dst, data[..], src, 0, 0, c)
      invariant KeepsNonCells(dst, s0, data[..])
    {
      var t := 0;
      while t < dst.frames
        invariant 0 <= t <= dst.frames
        invariant Injective(dst) ==> RowsFromSource(dst, data[..], src, 0, t, c)
        invariant KeepsNonCells(dst, s0, data[..])
      {
        var y := 0;
        while y < dst.height
          invariant 0 <= y <= dst.height
          invariant Injective(dst) ==> RowsFromSource(dst, data[..], src, y, t, c)
          invariant KeepsNonCells(dst, s0, data[..])
        {
          ghost var before := data[..];
          var row := Scanline(dst, y, t, c);
          InStorage(dst, 0, y, t, c);
          InStorage(dst, dst.width - 1, y, t, c);
          SetRow(data, row, dst.width, src, y, t, c);
          RowsAdvance(dst, before, data[..], src, y, t, c);
          y := y + 1;
        }
        t := t + 1;
      }
      c := c + 1;
    }
    if Injective(dst) {
      forall x, y, t, c | InBounds(dst, x, y, t, c) ensures Get(dst, x, y, t, c) == src.sample(x, y, t, c) {
        InStorage(dst, x, y, t, c);
        assert RowBefore(y, t, c, 0, 0, dst.channels);
      }
    }
  }

  /** `copy()`: a fresh dense image of the same extents holding the same
      samples; it shares no storage with the original. */
  method Copy(im: Image, addr: nat) returns (m: Image)
    requires Valid(im) && addr % 4 == 0
    ensures m.data != null && fresh(m.data) && Valid(m) && Dense(m)
    ensures m.width == im.width && m.height == im.height
    ensures m.frames == im.frames && m.channels == im.channels
    ensures forall x, y, t, c :: InBounds(im, x, y, t, c) ==> Get(m, x, y, t, c) == Get(im, x, y, t, c)
    ensures !Equal(m, im)
  {
    m := Create(im.width, im.height, im.frames, im.channels, addr);
    DenseInjective(m);
    var snapshot := if im.data == null then [] else im.data[..];
    var src := AsSource(im, snapshot);
    var ok := Set(m, src);
    forall x, y, t, c | InBounds(im, x, y, t, c)
      ensures Get(m, x, y, t, c) == Get(im, x, y, t, c)
    {
      InStorage(im, x, y, t, c);
    }
  }

  /** A write through a region view lands in the parent's sample at the
      shifted coordinates. */
  method WriteThroughRegion(im: Image, x0: int, y0: int, t0: int, c0: int,
                            xs: int, ys: int, ts: int, cs: int,
                            x: int, y: int, t: int, c: int, v: real)
    requires Valid(im) && Within(im, x0, y0, t0, c0, xs, ys, ts, cs)
    requires 0 <= x < xs && 0 <= y < ys && 0 <= t < ts && 0 <= c < cs
    modifies im.data
    ensures InBounds(im, x0 + x, y0 + y, t0 + t, c0 + c)
    ensures Get(im, x0 + x, y0 + y, t0 + t, c0 + c) == v
  {
    var view := Region(im, x0, y0, t0, c0, xs, ys, ts, cs);
    RegionValid(im, x0, y0, t0, c0, xs, ys, ts, cs);
    Put(view, x, y, t, c, v);
  }

  /** After `copy()`, a write to the original is not seen in the copy. */
  method WriteAfterCopy(im: Image, addr: nat, x: int, y: int, t: int, c: int, v: real)
    returns (m: Image)
    requires Valid(im) && addr % 4 == 0 && InBounds(im, x, y, t, c)
    modifies im.data
    ensures Valid(m) && Get(im, x, y, t, c) == v
    ensures m.width == im.width && m.height == im.height
    ensures m.frames == im.frames && m.channels == im.channels
    ensures forall x', y', t', c' :: InBounds(im, x', y', t', c') ==>
      Get(m, x', y', t', c') == old(Get(im, x', y', t', c'))
  {
    m := Copy(im, addr);
    Put(im, x, y, t, c, v);
  }
}
