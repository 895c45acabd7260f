/** `RectFilter` along x: `blurXCompletely` and `blurX` sweep the
    scanlines in the order `for c, for t, for y`, rewriting each in place. */
module Rect {
  import opened Images
  import opened Lines
  import opened Box

  /** The two per-scanline kernels a row sweep can run. */
  datatype RowBlur = Flatten | Boxes(radius: int, iterations: int)

  /** What a kernel does to a scanline. */
  function Blurred(mode: RowBlur, l: seq<real>): (o: seq<real>)
    ensures |o| == |l|
  {
    match mode
    case Flatten => if |l| >= 1 then Flat(l) else l
    case Boxes(r, k) => if |l| >= 2 && r >= 1 then Boxed(l, r, k) else l
  }

  /** What sample (x', y', t', c') holds while a sweep stands at row
      (y, t, c): the blurred scanline for rows already done, the original
      sample otherwise. */
  function SweptAt(im: Image, s: seq<real>, mode: RowBlur, y: int, t: int, c: int,
                   x': int, y': int, t': int, c': int): real
  {
    if RowBefore(y', t', c', y, t, c) && 0 <= x' < im.width
    then Blurred(mode, Line(im, s, AlongX, 0, y', t', c'))[x']
    else At(s, Offset(im, x', y', t', c'))
  }

  function Swept(im: Image, s: seq<real>, mode: RowBlur, y: int, t: int, c: int): (int, int, int, int) -> real
  {
    (x', y', t', c') => SweptAt(im, s, mode, y, t, c, x', y', t', c')
  }

  /** Before row (y, t, c) is swept it holds the original scanline, after it
      the blurred one; no other sample's stage changes. */
  lemma SweptRow(im: Image, s: seq<real>, mode: RowBlur, y: int, t: int, c: int)
    requires InBounds(im, 0, y, t, c)
    ensures forall x', y', t', c' :: InBounds(im, x', y', t', c') && OnLine(AlongX, 0, y, t, c, x', y', t', c') ==>
      SweptAt(im, s, mode, y, t, c, x', y', t', c') == Line(im, s, AlongX, 0, y, t, c)[x'] &&
      SweptAt(im, s, mode, y + 1, t, c, x', y', t', c') == Blurred(mode, Line(im, s, AlongX, 0, y, t, c))[x']
    ensures forall x', y', t', c' :: InBounds(im, x', y', t', c') && !OnLine(AlongX, 0, y, t, c, x', y', t', c') ==>
      SweptAt(im, s, mode, y + 1, t, c, x', y', t', c') == SweptAt(im, s, mode, y, t, c, x', y', t', c')
  {
  }

  /** What a kernel needs: the box kernel a buffer of 2r + 1 values apart
      from the image, and scanlines of at least 2r + 2 samples. */
  predicate Fits(im: Image, mode: RowBlur, buffer: array?<real>) {
    match mode
    case Flatten => true
    case Boxes(r, _) =>
      r >= 1 && im.width >= 2 * r + 2 && buffer != null && buffer.Length == 2 * r + 1 && buffer != im.data
  }

  /** One scanline of a sweep. */
  method SweepRow(im: Image, mode: RowBlur, buffer: array?<real>, ghost s: seq<real>, y: int, t: int, c: int)
    requires Valid(im) && Injective(im) && InBounds(im, 0, y, t, c) && Fits(im, mode, buffer)
    requires Agrees(im, im.data[..], Swept(im, s, mode, y, t, c))
    modifies im.data, buffer
    ensures Agrees(im, im.data[..], Swept(im, s, mode, y + 1, t, c))
    ensures KeepsNonCells(im, old(im.data[..]), im.data[..])
  {
    var data := im.data;
    ghost var s0 := data[..];
    ghost var l := Line(im, s, AlongX, 0, y, t, c);
    LineInStorage(im, AlongX, 0, y, t, c);
    SweptRow(im, s, mode, y, t, c);
    LineFromAgrees(im, AlongX, 0, y, t, c, s0, Swept(im, s, mode, y, t, c), l);
    match mode {
      case Flatten =>
        FlattenLine(data, Offset(im, 0, y, t, c), 1, im.width);
      case Boxes(r, k) =>
        BoxLine(data, Offset(im, 0, y, t, c), 1, im.width, r, k, buffer);
    }
    LinePass(im, AlongX, 0, y, t, c, s0, data[..],
      Swept(im, s, mode, y, t, c), Swept(im, s, mode, y + 1, t, c), Blurred(mode, l));
  }

  lemma NextFrame(im: Image, s: seq<real>, mode: RowBlur, t: int, c: int, s1: seq<real>)
    requires Agrees(im, s1, Swept(im, s, mode, im.height, t, c))
    ensures Agrees(im, s1, Swept(im, s, mode, 0, t + 1, c))
  {
    AgreesSame(im, s1, Swept(im, s, mode, im.height, t, c), Swept(im, s, mode, 0, t + 1, c));
  }

  lemma NextChannel(im: Image, s: seq<real>, mode: RowBlur, c: int, s1: seq<real>)
    requires Agrees(im, s1, Swept(im, s, mode, 0, im.frames, c))
    ensures Agrees(im, s1, Swept(im, s, mode, 0, 0, c + 1))
  {
    AgreesSame(im, s1, Swept(im, s, mode, 0, im.frames, c), Swept(im, s, mode, 0, 0, c + 1));
  }

  /** The scanlines of frame t, channel c: `for y`. */
  method SweepRows(im: Image, mode: RowBlur, buffer: array?<real>, ghost s: seq<real>, t: int, c: int)
    requires Valid(im) && Injective(im) && !Empty(im) && 0 <= t < im.frames && 0 <= c < im.channels
    requires Fits(im, mode, buffer)
    requires Agrees(im, im.data[..], Swept(im, s, mode, 0, t, c))
    modifies im.data, buffer
    ensures Agrees(im, im.data[..], Swept(im, s, mode, 0, t + 1, c))
    ensures KeepsNonCells(im, old(im.data[..]), im.data[..])
  {
    var data := im.data;
    var y := 0;
    while y < im.height
      invariant 0 <= y <= im.height
      invariant Agrees(im, data[..], Swept(im, s, mode, y, t, c))
      invariant KeepsNonCells(im, old(data[..]), data[..])
    {
      ghost var s0 := data[..];
      SweepRow(im, mode, buffer, s, y, t, c);
      KeepsTrans(im, old(data[..]), s0, data[..]);
      y := y + 1;
    }
    NextFrame(im, s, mode, t, c, data[..]);
  }

  /** The frames of channel c: `for t`. */
  method SweepFrames(im: Image, mode: RowBlur, buffer: array?<real>, ghost s: seq<real>, c: int)
    requires Valid(im) && Injective(im) && !Empty(im) && 0 <= c < im.channels
    requires Fits(im, mode, buffer)
    requires Agrees(im, im.data[..], Swept(im, s, mode, 0, 0, c))
    modifies im.data, buffer
    ensures Agrees(im, im.data[..], Swept(im, s, mode, 0, 0, c + 1))
    ensures KeepsNonCells(im, old(im.data[..]), im.data[..])
  {
    var data := im.data;
    var t := 0;
    while t < im.frames
      invariant 0 <= t <= im.frames
      invariant Agrees(im, data[..], Swept(im, s, mode, 0, t, c))
      invariant KeepsNonCells(im, old(data[..]), data[..])
    {
      ghost var s0 := data[..];
      SweepRows(im, mode, buffer, s, t, c);
      KeepsTrans(im, old(data[..]), s0, data[..]);
      t := t + 1;
    }
    NextChannel(im, s, mode, c, data[..]);
  }

  /** Once every channel is done, every sample reads as its blurred scanline. */
  lemma SweepDone(im: Image, s: seq<real>, mode: RowBlur)
    requires Valid(im) && im.data != null
    requires Agrees(im, im.data[..], Swept(im, s, mode, 0, 0, im.channels))
    ensures forall x, y, t, c :: InBounds(im, x, y, t, c) ==>
      Get(im, x, y, t, c) == Blurred(mode, Line(im, s, AlongX, 0, y, t, c))[x]
  {
    forall x, y, t, c | InBounds(im, x, y, t, c)
      ensures Get(im, x, y, t, c) == Blurred(mode, Line(im, s, AlongX, 0, y, t, c))[x]
    {
      AgreesGet(im, Swept(im, s, mode, 0, 0, im.channels), x, y, t, c);
    }
  }

  /** A whole sweep, `for c, for t, for y`, in place.  An image without
      samples has no scanline to write. */
  method Sweep(im: Image, mode: RowBlur, buffer: array?<real>)
    requires Valid(im) && Injective(im) && Fits(im, mode, buffer)
    modifies im.data, buffer
    ensures forall x, y, t, c :: InBounds(im, x, y, t, c) ==>
      Get(im, x, y, t, c) == Blurred(mode, Line(im, old(Samples(im)), AlongX, 0, y, t, c))[x]
    ensures im.data != null ==> KeepsNonCells(im, old(im.data[..]), im.data[..])
  {
    ghost var s := Samples(im);
    if Empty(im) {
      return;
    }
    var data := im.data;
    var c := 0;
    while c < im.channels
      invariant 0 <= c <= im.channels
      invariant Agrees(im, data[..], Swept(im, s, mode, 0, 0, c))
      invariant KeepsNonCells(im, s, data[..])
    {
      ghost var s0 := data[..];
      SweepFrames(im, mode, buffer, s, c);
      KeepsTrans(im, s, s0, data[..]);
      c := c + 1;
    }
    SweepDone(im, s, mode);
  }

  /** An image read back unchanged: each sample is its scanline's sample. */
  lemma ReadsOwnLine(im: Image, x: int, y: int, t: int, c: int)
    requires Valid(im) && InBounds(im, x, y, t, c)
    ensures Get(im, x, y, t, c) == Line(im, Samples(im), AlongX, 0, y, t, c)[x]
  {
    InStorage(im, x, y, t, c);
    assert OnLine(AlongX, 0, y, t, c, x, y, t, c);
  }

  /** `blurXCompletely(im)`: every scanline replaced by its mean. */
  method BlurXCompletely(im: Image)
    requires Valid(im) && Injective(im)
    modifies im.data
    ensures forall x, y, t, c :: InBounds(im, x, y, t, c) ==>
      Get(im, x, y, t, c) == Flat(Line(im, old(Samples(im)), AlongX, 0, y, t, c))[x]
    ensures im.data != null ==> KeepsNonCells(im, old(im.data[..]), im.data[..])
  {
    Sweep(im, Flatten, null);
  }

  /** `blurX(im, width, iterations)`: every scanline replaced as `BlurLine`
      says.  The filter widths the source passes are odd (`apply` rejects
      even ones) or at most 1. */
  method BlurX(im: Image, width: int, iterations: int)
    requires Valid(im) && Injective(im)
    requires width <= 1 || width % 2 == 1
    requires BlurFits(im.width, width)
    modifies im.data
    ensures forall x, y, t, c :: InBounds(im, x, y, t, c) ==>
      Get(im, x, y, t, c) == BlurLine(Line(im, old(Samples(im)), AlongX, 0, y, t, c), width, iterations)[x]
    ensures im.data != null ==> KeepsNonCells(im, old(im.data[..]), im.data[..])
  {
    if width <= 1 || im.width == 1 {
      forall x, y, t, c | InBounds(im, x, y, t, c)
        ensures Get(im, x, y, t, c) == BlurLine(Line(im, Samples(im), AlongX, 0, y, t, c), width, iterations)[x]
      {
        ReadsOwnLine(im, x, y, t, c);
      }
      return;
    }
    if im.width <= width / 2 {
      BlurXCompletely(im);
      return;
    }
    var radius := width / 2;
    var buffer := new real[width];
    Sweep(im, Boxes(radius, iterations), buffer);
  }
}
