/** `HotPixelSuppression`: every interior sample is clamped into the range
    of its four neighbours (left, right, above, below) and written to a
    fresh image; the one-sample border of the fresh image is never written
    and keeps the zero it starts with. */
module HotPixel {
  import opened Images
  import opened Lines

  /** `max(a, b)` and `min(a, b)`. */
  function Max(a: real, b: real): real {
    if a < b then b else a
  }

  function Min(a: real, b: real): real {
    if b < a then b else a
  }

  /** The brightest and the darkest of the four neighbours. */
  function Highest(n1: real, n2: real, n3: real, n4: real): (m: real)
    ensures m >= n1 && m >= n2 && m >= n3 && m >= n4
    ensures m == n1 || m == n2 || m == n3 || m == n4
  {
    Max(Max(n1, n2), Max(n3, n4))
  }

  function Lowest(n1: real, n2: real, n3: real, n4: real): (m: real)
    ensures m <= n1 && m <= n2 && m <= n3 && m <= n4
    ensures m == n1 || m == n2 || m == n3 || m == n4
  {
    Min(Min(n1, n2), Min(n3, n4))
  }

  /** One sample: lowered to `maxn` if above it, then raised to `minn` if
      below it.  The result lies within the neighbours' range, is the
      sample itself when that already does, and is otherwise the nearer
      end of the range, one of the neighbours. */
  function Suppress(here: real, n1: real, n2: real, n3: real, n4: real): (v: real)
    ensures Lowest(n1, n2, n3, n4) <= v <= Highest(n1, n2, n3, n4)
    ensures Lowest(n1, n2, n3, n4) <= here <= Highest(n1, n2, n3, n4) ==> v == here
    ensures here > Highest(n1, n2, n3, n4) ==> v == Highest(n1, n2, n3, n4)
    ensures here < Lowest(n1, n2, n3, n4) ==> v == Lowest(n1, n2, n3, n4)
  {
    var maxn := Highest(n1, n2, n3, n4);
    var minn := Lowest(n1, n2, n3, n4);
    var capped := if here > maxn then maxn else here;
    if capped < minn then minn else capped
  }

  /** Suppressing twice against the same neighbours changes nothing more. */
  lemma SuppressIdempotent(here: real, n1: real, n2: real, n3: real, n4: real)
    ensures Suppress(Suppress(here, n1, n2, n3, n4), n1, n2, n3, n4) == Suppress(here, n1, n2, n3, n4)
  {
    var v := Suppress(here, n1, n2, n3, n4);
    assert Lowest(n1, n2, n3, n4) <= v <= Highest(n1, n2, n3, n4);
  }

  /** Samples with all four neighbours inside the image. */
  predicate Interior(im: Image, x: int, y: int) {
    1 <= x < im.width - 1 && 1 <= y < im.height - 1
  }

  /** The suppressed value of sample (x, y, t, c) of the image whose store
      holds s. */
  function Suppressed(im: Image, s: seq<real>, x: int, y: int, t: int, c: int): real {
    Suppress(At(s, Offset(im, x, y, t, c)),
      At(s, Offset(im, x - 1, y, t, c)), At(s, Offset(im, x + 1, y, t, c)),
      At(s, Offset(im, x, y - 1, t, c)), At(s, Offset(im, x, y + 1, t, c)))
  }

  /** What the filter's output holds at (x, y, t, c). */
  function Result(im: Image, s: seq<real>, x: int, y: int, t: int, c: int): real {
    if Interior(im, x, y) then Suppressed(im, s, x, y, t, c) else 0.0
  }

  /** Whether sample (x', y', t', c') comes before (x, y, t, c) in the
      order of the loops, `for t, for y, for x, for c`. */
  predicate Before(x': int, y': int, t': int, c': int, x: int, y: int, t: int, c: int) {
    t' < t || (t' == t && (y' < y || (y' == y && (x' < x || (x' == x && c' < c)))))
  }

  /** What output sample (x', y', t', c') holds while the loops stand at
      (x, y, t, c). */
  function StageAt(im: Image, s: seq<real>, x: int, y: int, t: int, c: int,
                   x': int, y': int, t': int, c': int): real
  {
    if Interior(im, x', y') && Before(x', y', t', c', x, y, t, c) then Suppressed(im, s, x', y', t', c') else 0.0
  }

  function Stage(im: Image, s: seq<real>, x: int, y: int, t: int, c: int): (int, int, int, int) -> real {
    (x', y', t', c') => StageAt(im, s, x, y, t, c, x', y', t', c')
  }

  /** Writing (x, y, t, c) changes the stage of that sample only. */
  lemma StageStep(im: Image, s: seq<real>, x: int, y: int, t: int, c: int)
    requires Interior(im, x, y)
    ensures StageAt(im, s, x, y, t, c + 1, x, y, t, c) == Suppressed(im, s, x, y, t, c)
    ensures forall x', y', t', c' :: (x', y', t', c') != (x, y, t, c) ==>
      StageAt(im, s, x, y, t, c + 1, x', y', t', c') == StageAt(im, s, x, y, t, c, x', y', t', c')
  {
  }

  /** The geometry the loops share: a valid input and a separate,
      injective output of the same extents. */
  ghost predicate Pair(im: Image, out: Image) {
    Valid(im) && Valid(out) && Injective(out) && out.data != null && im.data != out.data &&
    out.width == im.width && out.height == im.height && out.frames == im.frames && out.channels == im.channels
  }

  /** The body of the loops: read `here` and its four neighbours, clamp,
      and write `out(x, y, t, c)`. */
  method SuppressCell(im: Image, out: Image, ghost s: seq<real>, x: int, y: int, t: int, c: int)
    requires Pair(im, out) && Interior(im, x, y) && 0 <= t < im.frames && 0 <= c < im.channels
    requires im.data != null && im.data[..] == s
    requires Agrees(out, out.data[..], Stage(im, s, x, y, t, c))
    modifies out.data
    ensures Agrees(out, out.data[..], Stage(im, s, x, y, t, c + 1))
  {
    InStorage(im, x - 1, y, t, c);
    InStorage(im, x + 1, y, t, c);
    InStorage(im, x, y - 1, t, c);
    InStorage(im, x, y + 1, t, c);
    InStorage(im, x, y, t, c);
    var n1 := im.data[Offset(im, x - 1, y, t, c)];
    var n2 := im.data[Offset(im, x + 1, y, t, c)];
    var n3 := im.data[Offset(im, x, y - 1, t, c)];
    var n4 := im.data[Offset(im, x, y + 1, t, c)];
    var here := im.data[Offset(im, x, y, t, c)];
    var maxn := Max(Max(n1, n2), Max(n3, n4));
    var minn := Min(Min(n1, n2), Min(n3, n4));
    if here > maxn {
      here := maxn;
    }
    if here < minn {
      here := minn;
    }
    ghost var s0 := out.data[..];
    Put(out, x, y, t, c, here);
    StageStep(im, s, x, y, t, c);
    CellUpdate(out, x, y, t, c, s0, out.data[..], Stage(im, s, x, y, t, c), Stage(im, s, x, y, t, c + 1));
  }

  /** `for c` at column x of row y. */
  method SuppressChannels(im: Image, out: Image, ghost s: seq<real>, x: int, y: int, t: int)
    requires Pair(im, out) && Interior(im, x, y) && 0 <= t < im.frames
    requires im.data != null && im.data[..] == s
    requires Agrees(out, out.data[..], Stage(im, s, x, y, t, 0))
    modifies out.data
    ensures Agrees(out, out.data[..], Stage(im, s, x + 1, y, t, 0))
  {
    var c := 0;
    while c < im.channels
      invariant 0 <= c <= im.channels
      invariant im.data[..] == s
      invariant Agrees(out, out.data[..], Stage(im, s, x, y, t, c))
    {
      SuppressCell(im, out, s, x, y, t, c);
      c := c + 1;
    }
    AgreesSame(out, out.data[..], Stage(im, s, x, y, t, im.channels), Stage(im, s, x + 1, y, t, 0));
  }

  /** `for x = 1 .. width - 2` along row y. */
  method SuppressColumns(im: Image, out: Image, ghost s: seq<real>, y: int, t: int)
    requires Pair(im, out) && 1 <= y < im.height - 1 && 0 <= t < im.frames
    requires im.data != null && im.data[..] == s
    requires Agrees(out, out.data[..], Stage(im, s, 1, y, t, 0))
    modifies out.data
    ensures Agrees(out, out.data[..], Stage(im, s, 1, y + 1, t, 0))
  {
    var x := 1;
    while x < im.width - 1
      invariant 1 <= x && (x <= im.width - 1 || x == 1)
      invariant im.data[..] == s
      invariant Agrees(out, out.data[..], Stage(im, s, x, y, t, 0))
    {
      SuppressChannels(im, out, s, x, y, t);
      x := x + 1;
    }
    AgreesSame(out, out.data[..], Stage(im, s, x, y, t, 0), Stage(im, s, 1, y + 1, t, 0));
  }

  /** `for y = 1 .. height - 2` within frame t. */
  method SuppressRows(im: Image, out: Image, ghost s: seq<real>, t: int)
    requires Pair(im, out) && 0 <= t < im.frames && im.width >= 3
    requires im.data != null && im.data[..] == s
    requires Agrees(out, out.data[..], Stage(im, s, 1, 1, t, 0))
    modifies out.data
    ensures Agrees(out, out.data[..], Stage(im, s, 1, 1, t + 1, 0))
  {
    var y := 1;
    while y < im.height - 1
      invariant 1 <= y && (y <= im.height - 1 || y == 1)
      invariant im.data[..] == s
      invariant Agrees(out, out.data[..], Stage(im, s, 1, y, t, 0))
    {
      SuppressColumns(im, out, s, y, t);
      y := y + 1;
    }
    AgreesSame(out, out.data[..], Stage(im, s, 1, y, t, 0), Stage(im, s, 1, 1, t + 1, 0));
  }

  /** `for t`, starting from the zero-filled output. */
  method SuppressFrames(im: Image, out: Image, ghost s: seq<real>)
    requires Pair(im, out) && im.width >= 3
    requires im.data != null && im.data[..] == s
    requires forall i :: 0 <= i < out.data.Length ==> out.data[i] == 0.0
    modifies out.data
    ensures Agrees(out, out.data[..], Stage(im, s, 1, 1, im.frames, 0))
  {
    var t := 0;
    while t < im.frames
      invariant 0 <= t <= im.frames
      invariant im.data[..] == s
      invariant Agrees(out, out.data[..], Stage(im, s, 1, 1, t, 0))
    {
      SuppressRows(im, out, s, t);
      t := t + 1;
    }
  }

  /** Once every frame is done, every output sample holds its result. */
  lemma SuppressDone(im: Image, out: Image, s: seq<real>)
    requires Valid(out) && out.data != null && out.frames == im.frames && out.width == im.width && out.height == im.height
    requires Agrees(out, out.data[..], Stage(im, s, 1, 1, im.frames, 0))
    ensures forall x, y, t, c :: InBounds(out, x, y, t, c) ==> Get(out, x, y, t, c) == Result(im, s, x, y, t, c)
  {
    forall x, y, t, c | InBounds(out, x, y, t, c)
      ensures Get(out, x, y, t, c) == Result(im, s, x, y, t, c)
    {
      AgreesGet(out, Stage(im, s, 1, 1, im.frames, 0), x, y, t, c);
    }
  }

  /** `HotPixelSuppression::apply(im)`: a fresh image of the same size whose
      interior samples are clamped into their neighbours' range and whose
      border is zero.  The input is only read.  `addr` is the byte address
      the allocator returns for the output's store. */
  method Apply(im: Image, addr: nat) returns (out: Image)
    requires Valid(im) && addr % 4 == 0
    ensures out.data != null && fresh(out.data) && Valid(out) && Dense(out)
    ensures out.width == im.width && out.height == im.height && out.frames == im.frames && out.channels == im.channels
    ensures forall x, y, t, c :: InBounds(out, x, y, t, c) ==> Get(out, x, y, t, c) == Result(im, Samples(im), x, y, t, c)
  {
    out := Create(im.width, im.height, im.frames, im.channels, addr);
    DenseInjective(out);
    if im.width < 3 || im.height < 3 || im.frames == 0 || im.channels == 0 {
      forall x, y, t, c | InBounds(out, x, y, t, c)
        ensures Get(out, x, y, t, c) == Result(im, Samples(im), x, y, t, c)
      {
        InStorage(out, x, y, t, c);
      }
      return;
    }
    SuppressFrames(im, out, im.data[..]);
    SuppressDone(im, out, im.data[..]);
  }
}
