/** `RectFilter::apply`: a box blur of odd shape, run as a pass across the
    frames, a pass along x and a pass along y, each skipped when its extent
    is 1.  The pass across the frames (`blurT`) is not part of this model
    beyond the images on which it returns without writing. */
module RectFilter {
  import opened Images
  import opened Lines
  import opened Box
  import opened Rect
  import opened Vertical

  /** The samples of a snapshot as a function of their coordinates. */
  function FieldOf(im: Image, s: seq<real>): (int, int, int, int) -> real {
    (x, y, t, c) => At(s, Offset(im, x, y, t, c))
  }

  /** Sample k along `ax` of the line through (x, y, t, c) of a field. */
  function FieldAt(f: (int, int, int, int) -> real, ax: Axis, x: int, y: int, t: int, c: int, k: int): real {
    match ax
    case AlongX => f(k, y, t, c)
    case AlongY => f(x, k, t, c)
    case AlongT => f(x, y, k, c)
  }

  /** The line along `ax` through (x, y, t, c) of a field. */
  function FieldLine(im: Image, f: (int, int, int, int) -> real, ax: Axis, x: int, y: int, t: int, c: int):
    (l: seq<real>)
    requires Extent(im, ax) >= 0
    ensures |l| == Extent(im, ax)
  {
    seq(Extent(im, ax), k => FieldAt(f, ax, x, y, t, c, k))
  }

  /** One pass of the blur along `ax`: every sample replaced by its place in
      the blurred line through it; a pass of width 1 is not run. */
  function PassAlong(im: Image, f: (int, int, int, int) -> real, ax: Axis, width: int, iterations: int):
    (int, int, int, int) -> real
    requires Valid(im)
  {
    if width == 1 then f
    else
      (x, y, t, c) =>
        if InBounds(im, x, y, t, c)
        then BlurLine(FieldLine(im, f, ax, x, y, t, c), width, iterations)[Along(ax, x, y, t, c)]
        else f(x, y, t, c)
  }

  /** The filter shape `apply` accepts: odd extents and at least one
      iteration. */
  predicate Accepted(filterWidth: int, filterHeight: int, filterFrames: int, iterations: int) {
    filterWidth % 2 == 1 && filterHeight % 2 == 1 && filterFrames % 2 == 1 && iterations >= 1
  }

  /** What `apply` leaves in the image where `blurT` writes nothing: the
      pass along x, then along y. */
  function Filtered(im: Image, s: seq<real>, filterWidth: int, filterHeight: int, iterations: int):
    (int, int, int, int) -> real
    requires Valid(im)
  {
    PassAlong(im, PassAlong(im, FieldOf(im, s), AlongX, filterWidth, iterations), AlongY, filterHeight, iterations)
  }

  /** Where `blurT` returns without writing: a filter at most one frame
      deep, an image of at most one frame, or an image without samples
      (its loops then never run). */
  predicate FramesUntouched(im: Image, filterFrames: int) {
    filterFrames <= 1 || im.frames <= 1 || Empty(im)
  }

  /** The line of a store agreeing with a field is that field's line. */
  lemma FieldLineOf(im: Image, s: seq<real>, f: (int, int, int, int) -> real, ax: Axis,
                    x: int, y: int, t: int, c: int)
    requires Valid(im) && InBounds(im, x, y, t, c) && Agrees(im, s, f)
    ensures FieldLine(im, f, ax, x, y, t, c) == Line(im, s, ax, x, y, t, c)
  {
    forall k | 0 <= k < Extent(im, ax)
      ensures FieldLine(im, f, ax, x, y, t, c)[k] == Line(im, s, ax, x, y, t, c)[k]
    {
      match ax {
        case AlongX =>
          assert InBounds(im, k, y, t, c) && OnLine(ax, x, y, t, c, k, y, t, c);
        case AlongY =>
          assert InBounds(im, x, k, t, c) && OnLine(ax, x, y, t, c, x, k, t, c);
        case AlongT =>
          assert InBounds(im, x, y, k, c) && OnLine(ax, x, y, t, c, x, y, k, c);
      }
    }
  }

  /** A pass that leaves every sample at its place in the blurred line
      through it, taken from a store agreeing with f, leaves the store
      agreeing with `PassAlong(f)`. */
  lemma Passed(im: Image, s1: seq<real>, s2: seq<real>, f: (int, int, int, int) -> real, ax: Axis,
               width: int, iterations: int)
    requires Valid(im) && width != 1 && Agrees(im, s1, f)
    requires forall x, y, t, c :: InBounds(im, x, y, t, c) ==>
      At(s2, Offset(im, x, y, t, c)) == BlurLine(Line(im, s1, ax, x, y, t, c), width, iterations)[Along(ax, x, y, t, c)]
    ensures Agrees(im, s2, PassAlong(im, f, ax, width, iterations))
  {
    forall x, y, t, c | InBounds(im, x, y, t, c)
      ensures At(s2, Offset(im, x, y, t, c)) == PassAlong(im, f, ax, width, iterations)(x, y, t, c)
    {
      FieldLineOf(im, s1, f, ax, x, y, t, c);
    }
  }

  /** What `Get` reads is the sample of the store's snapshot. */
  lemma GetIsAt(im: Image, x: int, y: int, t: int, c: int)
    requires Valid(im) && InBounds(im, x, y, t, c)
    ensures Get(im, x, y, t, c) == At(im.data[..], Offset(im, x, y, t, c))
  {
    InStorage(im, x, y, t, c);
  }

  /** The pass along x. */
  method RowsPass(im: Image, ghost f: (int, int, int, int) -> real, filterWidth: int, iterations: int)
    requires Valid(im) && Injective(im) && im.data != null
    requires filterWidth != 1 && filterWidth % 2 == 1 && BlurFits(im.width, filterWidth)
    requires Agrees(im, im.data[..], f)
    modifies im.data
    ensures Agrees(im, im.data[..], PassAlong(im, f, AlongX, filterWidth, iterations))
    ensures KeepsNonCells(im, old(im.data[..]), im.data[..])
  {
    ghost var s1 := im.data[..];
    BlurX(im, filterWidth, iterations);
    forall x, y, t, c | InBounds(im, x, y, t, c)
      ensures At(im.data[..], Offset(im, x, y, t, c)) ==
        BlurLine(Line(im, s1, AlongX, x, y, t, c), filterWidth, iterations)[Along(AlongX, x, y, t, c)]
    {
      GetIsAt(im, x, y, t, c);
    }
    Passed(im, s1, im.data[..], f, AlongX, filterWidth, iterations);
  }

  /** The pass along y. */
  method ColumnsPass(im: Image, ghost f: (int, int, int, int) -> real, filterHeight: int, iterations: int, addr: nat)
    requires Valid(im) && Injective(im) && im.data != null && addr % 4 == 0
    requires filterHeight != 1 && filterHeight % 2 == 1 && BlurFits(im.height, filterHeight)
    requires Agrees(im, im.data[..], f)
    modifies im.data
    ensures Agrees(im, im.data[..], PassAlong(im, f, AlongY, filterHeight, iterations))
    ensures KeepsNonCells(im, old(im.data[..]), im.data[..])
  {
    ghost var s1 := im.data[..];
    BlurY(im, filterHeight, iterations, addr);
    forall x, y, t, c | InBounds(im, x, y, t, c)
      ensures At(im.data[..], Offset(im, x, y, t, c)) ==
        BlurLine(Line(im, s1, AlongY, x, y, t, c), filterHeight, iterations)[Along(AlongY, x, y, t, c)]
    {
      GetIsAt(im, x, y, t, c);
    }
    Passed(im, s1, im.data[..], f, AlongY, filterHeight, iterations);
  }

  /** `apply(im, filterWidth, filterHeight, filterFrames, iterations)`: a
      shape with an even extent, or fewer than one iteration, fails the
      method's checks before anything is written (`ok` false); otherwise
      the image ends up holding `Filtered`.  `addr` is where the scratch
      image of the pass along y is allocated. */
  method Apply(im: Image, filterWidth: int, filterHeight: int, filterFrames: int, iterations: int, addr: nat)
    returns (ok: bool)
    requires Valid(im) && Injective(im) && addr % 4 == 0
    requires FramesUntouched(im, filterFrames)
    requires BlurFits(im.width, filterWidth) && BlurFits(im.height, filterHeight)
    modifies im.data
    ensures ok <==> Accepted(filterWidth, filterHeight, filterFrames, iterations)
    ensures !ok ==> Samples(im) == old(Samples(im))
    ensures ok ==> Agrees(im, Samples(im), Filtered(im, old(Samples(im)), filterWidth, filterHeight, iterations))
    ensures im.data != null ==> KeepsNonCells(im, old(im.data[..]), im.data[..])
  {
    if !(filterFrames % 2 == 1 && filterWidth % 2 == 1 && filterHeight % 2 == 1) {
      return false;
    }
    if iterations < 1 {
      return false;
    }
    ok := true;
    if im.data == null {
      return;
    }
    // `blurT(im, filterFrames, iterations)` would run here when
    // filterFrames != 1; under `FramesUntouched` it writes nothing.
    ghost var s := im.data[..];
    ghost var f0 := FieldOf(im, s);
    ghost var f1 := PassAlong(im, f0, AlongX, filterWidth, iterations);
    if filterWidth != 1 {
      RowsPass(im, f0, filterWidth, iterations);
    }
    ghost var s1 := im.data[..];
    if filterHeight != 1 {
      ColumnsPass(im, f1, filterHeight, iterations, addr);
      KeepsTrans(im, s, s1, im.data[..]);
    }
  }

  // Properties of the filter

  /** A pass keeps every sample within the bounds of the field it blurs. */
  lemma PassWithin(im: Image, f: (int, int, int, int) -> real, ax: Axis, width: int, iterations: int,
                   m: real, M: real)
    requires Valid(im)
    requires forall x, y, t, c :: InBounds(im, x, y, t, c) ==> m <= f(x, y, t, c) <= M
    ensures forall x, y, t, c :: InBounds(im, x, y, t, c) ==>
      m <= PassAlong(im, f, ax, width, iterations)(x, y, t, c) <= M
  {
    if width != 1 {
      forall x, y, t, c | InBounds(im, x, y, t, c)
        ensures m <= PassAlong(im, f, ax, width, iterations)(x, y, t, c) <= M
      {
        var l := FieldLine(im, f, ax, x, y, t, c);
        forall k | 0 <= k < |l|
          ensures m <= l[k] <= M
        {
          match ax {
            case AlongX => assert InBounds(im, k, y, t, c);
            case AlongY => assert InBounds(im, x, k, t, c);
            case AlongT => assert InBounds(im, x, y, k, c);
          }
        }
        BlurLineWithin(l, width, iterations, m, M);
      }
    }
  }

  /** The filtered image stays within the range of the samples it was
      given: a box blur averages, it never overshoots. */
  lemma FilteredWithin(im: Image, s: seq<real>, filterWidth: int, filterHeight: int, iterations: int,
                       m: real, M: real)
    requires Valid(im)
    requires forall x, y, t, c :: InBounds(im, x, y, t, c) ==> m <= At(s, Offset(im, x, y, t, c)) <= M
    ensures forall x, y, t, c :: InBounds(im, x, y, t, c) ==>
      m <= Filtered(im, s, filterWidth, filterHeight, iterations)(x, y, t, c) <= M
  {
    var f0 := FieldOf(im, s);
    var f1 := PassAlong(im, f0, AlongX, filterWidth, iterations);
    PassWithin(im, f0, AlongX, filterWidth, iterations, m, M);
    PassWithin(im, f1, AlongY, filterHeight, iterations, m, M);
  }

  /** A pass leaves a constant field constant. */
  lemma PassConstant(im: Image, f: (int, int, int, int) -> real, ax: Axis, width: int, iterations: int, v: real)
    requires Valid(im)
    requires forall x, y, t, c :: InBounds(im, x, y, t, c) ==> f(x, y, t, c) == v
    ensures forall x, y, t, c :: InBounds(im, x, y, t, c) ==> PassAlong(im, f, ax, width, iterations)(x, y, t, c) == v
  {
    PassWithin(im, f, ax, width, iterations, v, v);
  }

  /** The filter leaves an image of one value unchanged. */
  lemma FilteredConstant(im: Image, s: seq<real>, filterWidth: int, filterHeight: int, iterations: int, v: real)
    requires Valid(im)
    requires forall x, y, t, c :: InBounds(im, x, y, t, c) ==> At(s, Offset(im, x, y, t, c)) == v
    ensures forall x, y, t, c :: InBounds(im, x, y, t, c) ==>
      Filtered(im, s, filterWidth, filterHeight, iterations)(x, y, t, c) == v
  {
    FilteredWithin(im, s, filterWidth, filterHeight, iterations, v, v);
  }
}
