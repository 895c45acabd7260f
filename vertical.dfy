/** `RectFilter::blurY`: strips of up to eight columns are copied into a
    scratch image, one column per scanline, blurred there along x by
    `blurX`, and copied back. */
module Vertical {
  import opened Images
  import opened Lines
  import opened Box
  import opened Rect

  /** An image read back unchanged: each sample is its column's sample. */
  lemma ReadsOwnColumn(im: Image, x: int, y: int, t: int, c: int)
    requires Valid(im) && InBounds(im, x, y, t, c)
    ensures Get(im, x, y, t, c) == Line(im, Samples(im), AlongY, x, 0, t, c)[y]
  {
    InStorage(im, x, y, t, c);
    assert OnLine(AlongY, x, 0, t, c, x, y, t, c);
  }

  /** What sample (x', y', t', c') holds while `blurY` stands at column
      (x, t, c), the columns being taken `for c, for t, for x`: the blurred
      column for columns already done, the original sample otherwise. */
  function ColumnsAt(im: Image, s: seq<real>, width: int, iterations: int, x: int, t: int, c: int,
                     x': int, y': int, t': int, c': int): real
  {
    if RowBefore(x', t', c', x, t, c) && 0 <= y' < im.height
    then BlurLine(Line(im, s, AlongY, x', 0, t', c'), width, iterations)[y']
    else At(s, Offset(im, x', y', t', c'))
  }

  function Columns(im: Image, s: seq<real>, width: int, iterations: int, x: int, t: int, c: int):
    (int, int, int, int) -> real
  {
    (x', y', t', c') => ColumnsAt(im, s, width, iterations, x, t, c, x', y', t', c')
  }

  /** The scratch image of `blurY`: `Image(im.height, 8, 1, 1)`, whose
      scanline j holds column x + j of the strip. */
  predicate Scratch(im: Image, chunk: Image) {
    chunk.data != null && chunk.data != im.data && Valid(chunk) && Dense(chunk) &&
    chunk.width == im.height && chunk.height == 8 && chunk.frames == 1 && chunk.channels == 1
  }

  /** The scratch image while the strip at x is read into it, standing at
      (y, j): samples (y', j') read so far hold column x + j' of frame t,
      channel c; the others what the scratch image held before. */
  function ReadAt(im: Image, s: seq<real>, chunk: Image, k0: seq<real>, x: int, size: int, t: int, c: int,
                  y: int, j: int, y': int, j': int, t': int, c': int): real
  {
    if t' == 0 && c' == 0 && 0 <= j' < size && (y' < y || (y' == y && j' < j))
    then At(s, Offset(im, x + j', y', t, c))
    else At(k0, Offset(chunk, y', j', t', c'))
  }

  function Read(im: Image, s: seq<real>, chunk: Image, k0: seq<real>, x: int, size: int, t: int, c: int,
                y: int, j: int): (int, int, int, int) -> real
  {
    (y', j', t', c') => ReadAt(im, s, chunk, k0, x, size, t, c, y, j, y', j', t', c')
  }

  /** The image while the strip at x is written back, standing at (y, j):
      samples of the strip's columns already written hold the blurred
      column, everything else is as at column x. */
  function WrittenAt(im: Image, s: seq<real>, width: int, iterations: int, x: int, size: int, t: int, c: int,
                     y: int, j: int, x': int, y': int, t': int, c': int): real
  {
    if t' == t && c' == c && x <= x' < x + size && 0 <= y' < im.height && (y' < y || (y' == y && x' < x + j))
    then BlurLine(Line(im, s, AlongY, x', 0, t', c'), width, iterations)[y']
    else ColumnsAt(im, s, width, iterations, x, t, c, x', y', t', c')
  }

  function Written(im: Image, s: seq<real>, width: int, iterations: int, x: int, size: int, t: int, c: int,
                   y: int, j: int): (int, int, int, int) -> real
  {
    (x', y', t', c') => WrittenAt(im, s, width, iterations, x, size, t, c, y, j, x', y', t', c')
  }

  /** Storing sample (x + j, y) of the source at (y, j) moves the scratch
      store from agreeing with the strip read up to (y, j) to agreeing
      with it up to (y, j + 1). */
  lemma ReadStep(im: Image, s: seq<real>, chunk: Image, k0: seq<real>, x: int, size: int, t: int, c: int,
                 y: int, j: int, k1: seq<real>, k2: seq<real>, v: real)
    requires Injective(chunk) && InBounds(chunk, y, j, 0, 0) && 0 <= j < size
    requires Agrees(chunk, k1, Read(im, s, chunk, k0, x, size, t, c, y, j))
    requires 0 <= Offset(chunk, y, j, 0, 0) < |k1| && k2 == k1[Offset(chunk, y, j, 0, 0) := v]
    requires v == At(s, Offset(im, x + j, y, t, c))
    ensures Agrees(chunk, k2, Read(im, s, chunk, k0, x, size, t, c, y, j + 1))
  {
    CellUpdate(chunk, y, j, 0, 0, k1, k2,
      Read(im, s, chunk, k0, x, size, t, c, y, j), Read(im, s, chunk, k0, x, size, t, c, y, j + 1));
  }

  /** Sample (x + j, y) of the strip into sample (y, j) of the scratch image. */
  method ReadCell(im: Image, chunk: Image, ghost s: seq<real>, width: int, iterations: int,
                  x: int, size: int, t: int, c: int, ghost k0: seq<real>, y: int, j: int)
    requires Valid(im) && Scratch(im, chunk) && Injective(chunk)
    requires 0 <= x && 0 <= j < size <= 8 && x + size <= im.width && 0 <= t < im.frames && 0 <= c < im.channels
    requires 0 <= y < im.height
    requires Agrees(im, im.data[..], Columns(im, s, width, iterations, x, t, c))
    requires Agrees(chunk, chunk.data[..], Read(im, s, chunk, k0, x, size, t, c, y, j))
    modifies chunk.data
    ensures Agrees(chunk, chunk.data[..], Read(im, s, chunk, k0, x, size, t, c, y, j + 1))
  {
    ghost var k1 := chunk.data[..];
    var v := Get(im, x + j, y, t, c);
    assert v == At(s, Offset(im, x + j, y, t, c)) by {
      AgreesGet(im, Columns(im, s, width, iterations, x, t, c), x + j, y, t, c);
    }
    Put(chunk, y, j, 0, 0, v);
    ReadStep(im, s, chunk, k0, x, size, t, c, y, j, k1, chunk.data[..], v);
  }

  /** Row y of the strip at x into the scratch image: `for j`. */
  method ReadStripRow(im: Image, chunk: Image, ghost s: seq<real>, width: int, iterations: int,
                      x: int, size: int, t: int, c: int, ghost k0: seq<real>, y: int)
    requires Valid(im) && Scratch(im, chunk) && Injective(chunk)
    requires 0 <= x && 1 <= size <= 8 && x + size <= im.width && 0 <= t < im.frames && 0 <= c < im.channels
    requires 0 <= y < im.height
    requires Agrees(im, im.data[..], Columns(im, s, width, iterations, x, t, c))
    requires Agrees(chunk, chunk.data[..], Read(im, s, chunk, k0, x, size, t, c, y, 0))
    modifies chunk.data
    ensures Agrees(chunk, chunk.data[..], Read(im, s, chunk, k0, x, size, t, c, y + 1, 0))
  {
    var j := 0;
    while j < size
      invariant 0 <= j <= size
      invariant Agrees(chunk, chunk.data[..], Read(im, s, chunk, k0, x, size, t, c, y, j))
    {
      ReadCell(im, chunk, s, width, iterations, x, size, t, c, k0, y, j);
      j := j + 1;
    }
    AgreesSame(chunk, chunk.data[..], Read(im, s, chunk, k0, x, size, t, c, y, size),
      Read(im, s, chunk, k0, x, size, t, c, y + 1, 0));
  }

  /** The strip at x into the scratch image, transposed: `for y, for j`. */
  method ReadStrip(im: Image, chunk: Image, ghost s: seq<real>, width: int, iterations: int,
                   x: int, size: int, t: int, c: int)
    requires Valid(im) && im.data != null && Scratch(im, chunk) && Injective(chunk)
    requires 0 <= x && 1 <= size <= 8 && x + size <= im.width && 0 <= t < im.frames && 0 <= c < im.channels
    requires Agrees(im, im.data[..], Columns(im, s, width, iterations, x, t, c))
    modifies chunk.data
    ensures Agrees(chunk, chunk.data[..], Read(im, s, chunk, old(chunk.data[..]), x, size, t, c, im.height, 0))
  {
    ghost var k0 := chunk.data[..];
    var y := 0;
    while y < im.height
      invariant 0 <= y <= im.height
      invariant Agrees(chunk, chunk.data[..], Read(im, s, chunk, k0, x, size, t, c, y, 0))
    {
      ReadStripRow(im, chunk, s, width, iterations, x, size, t, c, k0, y);
      y := y + 1;
    }
  }

  /** Writing sample (x + j, y) back moves that sample, and no other, to
      its blurred value. */
  lemma WrittenStep(im: Image, s: seq<real>, width: int, iterations: int,
                    x: int, size: int, t: int, c: int, y: int, j: int)
    requires 0 <= j < size && 0 <= y < im.height
    ensures WrittenAt(im, s, width, iterations, x, size, t, c, y, j + 1, x + j, y, t, c) ==
      BlurLine(Line(im, s, AlongY, x + j, 0, t, c), width, iterations)[y]
    ensures forall x', y', t', c' :: (x', y', t', c') != (x + j, y, t, c) ==>
      WrittenAt(im, s, width, iterations, x, size, t, c, y, j + 1, x', y', t', c') ==
      WrittenAt(im, s, width, iterations, x, size, t, c, y, j, x', y', t', c')
  {
  }

  /** Storing the blurred value of sample (x + j, y) moves the store from
      agreeing with the strip written up to (y, j) to agreeing with it up
      to (y, j + 1), and touches no position that holds no sample. */
  lemma WriteStep(im: Image, s: seq<real>, width: int, iterations: int,
                  x: int, size: int, t: int, c: int, y: int, j: int, s1: seq<real>, s2: seq<real>, v: real)
    requires Injective(im) && InBounds(im, x + j, y, t, c) && 0 <= j < size
    requires Agrees(im, s1, Written(im, s, width, iterations, x, size, t, c, y, j))
    requires 0 <= Offset(im, x + j, y, t, c) < |s1| && s2 == s1[Offset(im, x + j, y, t, c) := v]
    requires v == BlurLine(Line(im, s, AlongY, x + j, 0, t, c), width, iterations)[y]
    ensures Agrees(im, s2, Written(im, s, width, iterations, x, size, t, c, y, j + 1))
    ensures KeepsNonCells(im, s1, s2)
  {
    WrittenStep(im, s, width, iterations, x, size, t, c, y, j);
    CellUpdate(im, x + j, y, t, c, s1, s2,
      Written(im, s, width, iterations, x, size, t, c, y, j), Written(im, s, width, iterations, x, size, t, c, y, j + 1));
  }

  /** Sample (y, j) of the scratch image back into sample (x + j, y). */
  method WriteCell(im: Image, chunk: Image, ghost s: seq<real>, width: int, iterations: int,
                   x: int, size: int, t: int, c: int, y: int, j: int)
    requires Valid(im) && Injective(im) && Scratch(im, chunk)
    requires 0 <= x && 0 <= j < size <= 8 && x + size <= im.width && 0 <= t < im.frames && 0 <= c < im.channels
    requires 0 <= y < im.height
    requires Get(chunk, y, j, 0, 0) == BlurLine(Line(im, s, AlongY, x + j, 0, t, c), width, iterations)[y]
    requires Agrees(im, im.data[..], Written(im, s, width, iterations, x, size, t, c, y, j))
    modifies im.data
    ensures Agrees(im, im.data[..], Written(im, s, width, iterations, x, size, t, c, y, j + 1))
    ensures KeepsNonCells(im, old(im.data[..]), im.data[..])
  {
    ghost var s1 := im.data[..];
    var v := Get(chunk, y, j, 0, 0);
    Put(im, x + j, y, t, c, v);
    WriteStep(im, s, width, iterations, x, size, t, c, y, j, s1, im.data[..], v);
  }

  /** Row y of the strip back from the scratch image: `for j`. */
  method WriteStripRow(im: Image, chunk: Image, ghost s: seq<real>, width: int, iterations: int,
                       x: int, size: int, t: int, c: int, y: int)
    requires Valid(im) && Injective(im) && Scratch(im, chunk)
    requires 0 <= x && 1 <= size <= 8 && x + size <= im.width && 0 <= t < im.frames && 0 <= c < im.channels
    requires 0 <= y < im.height
    requires forall y', j' :: 0 <= y' < im.height && 0 <= j' < size ==>
      Get(chunk, y', j', 0, 0) == BlurLine(Line(im, s, AlongY, x + j', 0, t, c), width, iterations)[y']
    requires Agrees(im, im.data[..], Written(im, s, width, iterations, x, size, t, c, y, 0))
    modifies im.data
    ensures Agrees(im, im.data[..], Written(im, s, width, iterations, x, size, t, c, y + 1, 0))
    ensures KeepsNonCells(im, old(im.data[..]), im.data[..])
  {
    var j := 0;
    while j < size
      invariant 0 <= j <= size
      invariant Agrees(im, im.data[..], Written(im, s, width, iterations, x, size, t, c, y, j))
      invariant KeepsNonCells(im, old(im.data[..]), im.data[..])
    {
      ghost var s1 := im.data[..];
      WriteCell(im, chunk, s, width, iterations, x, size, t, c, y, j);
      KeepsTrans(im, old(im.data[..]), s1, im.data[..]);
      j := j + 1;
    }
    AgreesSame(im, im.data[..], Written(im, s, width, iterations, x, size, t, c, y, size),
      Written(im, s, width, iterations, x, size, t, c, y + 1, 0));
  }

  /** The strip back from the scratch image: `for y, for j`. */
  method WriteStrip(im: Image, chunk: Image, ghost s: seq<real>, width: int, iterations: int,
                    x: int, size: int, t: int, c: int)
    requires Valid(im) && im.data != null && Injective(im) && Scratch(im, chunk)
    requires 0 <= x && 1 <= size <= 8 && x + size <= im.width && 0 <= t < im.frames && 0 <= c < im.channels
    requires forall y', j' :: 0 <= y' < im.height && 0 <= j' < size ==>
      Get(chunk, y', j', 0, 0) == BlurLine(Line(im, s, AlongY, x + j', 0, t, c), width, iterations)[y']
    requires Agrees(im, im.data[..], Columns(im, s, width, iterations, x, t, c))
    modifies im.data
    ensures Agrees(im, im.data[..], Columns(im, s, width, iterations, x + size, t, c))
    ensures KeepsNonCells(im, old(im.data[..]), im.data[..])
  {
    AgreesSame(im, im.data[..], Columns(im, s, width, iterations, x, t, c),
      Written(im, s, width, iterations, x, size, t, c, 0, 0));
    var y := 0;
    while y < im.height
      invariant 0 <= y <= im.height
      invariant Agrees(im, im.data[..], Written(im, s, width, iterations, x, size, t, c, y, 0))
      invariant KeepsNonCells(im, old(im.data[..]), im.data[..])
    {
      ghost var s1 := im.data[..];
      WriteStripRow(im, chunk, s, width, iterations, x, size, t, c, y);
      KeepsTrans(im, old(im.data[..]), s1, im.data[..]);
      y := y + 1;
    }
    AgreesSame(im, im.data[..], Written(im, s, width, iterations, x, size, t, c, im.height, 0),
      Columns(im, s, width, iterations, x + size, t, c));
  }

  /** After the strip at x is read, scanline j of the scratch image is
      column x + j of frame t, channel c. */
  lemma StripLines(im: Image, s: seq<real>, chunk: Image, k0: seq<real>, k: seq<real>,
                   x: int, size: int, t: int, c: int)
    requires Scratch(im, chunk)
    requires 0 <= x && 1 <= size <= 8 && x + size <= im.width && 0 <= t < im.frames && 0 <= c < im.channels
    requires Agrees(chunk, k, Read(im, s, chunk, k0, x, size, t, c, im.height, 0))
    ensures forall j :: 0 <= j < size ==>
      Line(chunk, k, AlongX, 0, j, 0, 0) == Line(im, s, AlongY, x + j, 0, t, c)
  {
    forall j | 0 <= j < size
      ensures Line(chunk, k, AlongX, 0, j, 0, 0) == Line(im, s, AlongY, x + j, 0, t, c)
    {
      forall y | 0 <= y < im.height
        ensures Line(chunk, k, AlongX, 0, j, 0, 0)[y] == Line(im, s, AlongY, x + j, 0, t, c)[y]
      {
        assert InBounds(chunk, y, j, 0, 0) && OnLine(AlongX, 0, j, 0, 0, y, j, 0, 0);
        assert InBounds(im, x + j, y, t, c) && OnLine(AlongY, x + j, 0, t, c, x + j, y, t, c);
      }
    }
  }

  /** One strip of `blurY`: columns x .. x + size - 1 of frame t, channel c,
      through the scratch image and back. */
  method Strip(im: Image, chunk: Image, ghost s: seq<real>, width: int, iterations: int,
               x: int, size: int, t: int, c: int)
    requires Valid(im) && im.data != null && Injective(im) && Scratch(im, chunk)
    requires width <= 1 || width % 2 == 1
    requires BlurFits(im.height, width)
    requires 0 <= x && 1 <= size <= 8 && x + size <= im.width && 0 <= t < im.frames && 0 <= c < im.channels
    requires Agrees(im, im.data[..], Columns(im, s, width, iterations, x, t, c))
    modifies im.data, chunk.data
    ensures Agrees(im, im.data[..], Columns(im, s, width, iterations, x + size, t, c))
    ensures KeepsNonCells(im, old(im.data[..]), im.data[..])
  {
    DenseInjective(chunk);
    ghost var k0 := chunk.data[..];
    ReadStrip(im, chunk, s, width, iterations, x, size, t, c);
    ghost var k := chunk.data[..];
    StripLines(im, s, chunk, k0, k, x, size, t, c);
    BlurX(chunk, width, iterations);
    forall y', j' | 0 <= y' < im.height && 0 <= j' < size
      ensures Get(chunk, y', j', 0, 0) == BlurLine(Line(im, s, AlongY, x + j', 0, t, c), width, iterations)[y']
    {
      assert InBounds(chunk, y', j', 0, 0);
    }
    WriteStrip(im, chunk, s, width, iterations, x, size, t, c);
  }

  /** The strips of frame t, channel c: `for x`, eight columns at a time,
      the last strip holding what is left. */
  method Strips(im: Image, chunk: Image, ghost s: seq<real>, width: int, iterations: int, t: int, c: int)
    requires Valid(im) && im.data != null && Injective(im) && Scratch(im, chunk)
    requires width <= 1 || width % 2 == 1
    requires BlurFits(im.height, width)
    requires 0 <= t < im.frames && 0 <= c < im.channels
    requires Agrees(im, im.data[..], Columns(im, s, width, iterations, 0, t, c))
    modifies im.data, chunk.data
    ensures Agrees(im, im.data[..], Columns(im, s, width, iterations, 0, t + 1, c))
    ensures KeepsNonCells(im, old(im.data[..]), im.data[..])
  {
    var x := 0;
    while x < im.width
      invariant 0 <= x
      invariant Agrees(im, im.data[..], Columns(im, s, width, iterations, x, t, c))
      invariant KeepsNonCells(im, old(im.data[..]), im.data[..])
    {
      var size := chunk.height;
      if x + chunk.height >= im.width {
        size := im.width - x;
      }
      ghost var s1 := im.data[..];
      Strip(im, chunk, s, width, iterations, x, size, t, c);
      KeepsTrans(im, old(im.data[..]), s1, im.data[..]);
      x := x + chunk.height;
    }
    AgreesSame(im, im.data[..], Columns(im, s, width, iterations, x, t, c),
      Columns(im, s, width, iterations, 0, t + 1, c));
  }

  /** The frames of channel c: `for t`. */
  method StripFrames(im: Image, chunk: Image, ghost s: seq<real>, width: int, iterations: int, c: int)
    requires Valid(im) && im.data != null && Injective(im) && Scratch(im, chunk)
    requires width <= 1 || width % 2 == 1
    requires BlurFits(im.height, width)
    requires 0 <= c < im.channels
    requires Agrees(im, im.data[..], Columns(im, s, width, iterations, 0, 0, c))
    modifies im.data, chunk.data
    ensures Agrees(im, im.data[..], Columns(im, s, width, iterations, 0, 0, c + 1))
    ensures KeepsNonCells(im, old(im.data[..]), im.data[..])
  {
    var t := 0;
    while t < im.frames
      invariant 0 <= t <= im.frames
      invariant Agrees(im, im.data[..], Columns(im, s, width, iterations, 0, t, c))
      invariant KeepsNonCells(im, old(im.data[..]), im.data[..])
    {
      ghost var s1 := im.data[..];
      Strips(im, chunk, s, width, iterations, t, c);
      KeepsTrans(im, old(im.data[..]), s1, im.data[..]);
      t := t + 1;
    }
    AgreesSame(im, im.data[..], Columns(im, s, width, iterations, 0, im.frames, c),
      Columns(im, s, width, iterations, 0, 0, c + 1));
  }

  /** The channels: `for c`. */
  method StripChannels(im: Image, chunk: Image, ghost s: seq<real>, width: int, iterations: int)
    requires Valid(im) && im.data != null && Injective(im) && Scratch(im, chunk)
    requires width <= 1 || width % 2 == 1
    requires BlurFits(im.height, width)
    requires Agrees(im, im.data[..], Columns(im, s, width, iterations, 0, 0, 0))
    modifies im.data, chunk.data
    ensures Agrees(im, im.data[..], Columns(im, s, width, iterations, 0, 0, im.channels))
    ensures KeepsNonCells(im, old(im.data[..]), im.data[..])
  {
    var c := 0;
    while c < im.channels
      invariant 0 <= c <= im.channels
      invariant Agrees(im, im.data[..], Columns(im, s, width, iterations, 0, 0, c))
      invariant KeepsNonCells(im, old(im.data[..]), im.data[..])
    {
      ghost var s1 := im.data[..];
      StripFrames(im, chunk, s, width, iterations, c);
      KeepsTrans(im, old(im.data[..]), s1, im.data[..]);
      c := c + 1;
    }
  }

  /** Once every channel is done, every sample reads as its blurred column. */
  lemma ColumnsDone(im: Image, s: seq<real>, width: int, iterations: int)
    requires Valid(im) && im.data != null
    requires Agrees(im, im.data[..], Columns(im, s, width, iterations, 0, 0, im.channels))
    ensures forall x, y, t, c :: InBounds(im, x, y, t, c) ==>
      Get(im, x, y, t, c) == BlurLine(Line(im, s, AlongY, x, 0, t, c), width, iterations)[y]
  {
    forall x, y, t, c | InBounds(im, x, y, t, c)
      ensures Get(im, x, y, t, c) == BlurLine(Line(im, s, AlongY, x, 0, t, c), width, iterations)[y]
    {
      AgreesGet(im, Columns(im, s, width, iterations, 0, 0, im.channels), x, y, t, c);
    }
  }

  /** Where `blurY` returns at once, every column already is its own blur. */
  lemma ColumnsKept(im: Image, width: int, iterations: int)
    requires Valid(im) && (width <= 1 || im.height == 1)
    ensures forall x, y, t, c :: InBounds(im, x, y, t, c) ==>
      Get(im, x, y, t, c) == BlurLine(Line(im, Samples(im), AlongY, x, 0, t, c), width, iterations)[y]
  {
    forall x, y, t, c | InBounds(im, x, y, t, c)
      ensures Get(im, x, y, t, c) == BlurLine(Line(im, Samples(im), AlongY, x, 0, t, c), width, iterations)[y]
    {
      ReadsOwnColumn(im, x, y, t, c);
    }
  }

  /** `blurY(im, width, iterations)`: every column blurred as `blurX` blurs
      a scanline.  `addr` is where the scratch image is allocated.  An image
      without samples has no column to write. */
  method BlurY(im: Image, width: int, iterations: int, addr: nat)
    requires Valid(im) && Injective(im)
    requires width <= 1 || width % 2 == 1
    requires BlurFits(im.height, width)
    requires addr % 4 == 0
    modifies im.data
    ensures forall x, y, t, c :: InBounds(im, x, y, t, c) ==>
      Get(im, x, y, t, c) == BlurLine(Line(im, old(Samples(im)), AlongY, x, 0, t, c), width, iterations)[y]
    ensures im.data != null ==> KeepsNonCells(im, old(im.data[..]), im.data[..])
  {
    if width <= 1 || im.height == 1 {
      ColumnsKept(im, width, iterations);
      return;
    }
    var chunk := Create(im.height, 8, 1, 1, addr);
    if Empty(im) {
      return;
    }
    ghost var s := im.data[..];
    StripChannels(im, chunk, s, width, iterations);
    ColumnsDone(im, s, width, iterations);
  }

  /** How many times `for (int t = start; guard(t); t++)` runs its body,
      counted up to `fuel` iterations. */
  function ReadSteps(guard: int -> bool, start: int, fuel: nat): (k: nat)
    ensures k <= fuel
    decreases fuel
  {
    if fuel == 0 || !guard(start) then 0 else 1 + ReadSteps(guard, start + 1, fuel - 1)
  }

  /** The read loop of `blurT` as written tests `y < im.frames`, which the
      loop never changes: on a row below `frames` it runs for as long as it
      is let run, past the last frame; on any other row it never runs and
      the chunk keeps the previous strip. */
  lemma {:induction false} BlurTReadAsWritten(y: int, frames: int, start: int, fuel: nat)
    ensures y < frames ==> ReadSteps(t => y < frames, start, fuel) == fuel
    ensures y >= frames ==> ReadSteps(t => y < frames, start, fuel) == 0
    decreases fuel
  {
    if fuel > 0 {
      BlurTReadAsWritten(y, frames, start + 1, fuel - 1);
    }
  }

  /** With the guard `t < im.frames`, the loop reads each frame from
      `start` on once and stops. */
  lemma {:induction false} BlurTReadFixed(frames: int, start: int, fuel: nat)
    requires 0 <= start <= frames && fuel >= frames - start
    ensures ReadSteps(t => t < frames, start, fuel) == frames - start
    decreases fuel
  {
    if start < frames {
      BlurTReadFixed(frames, start + 1, fuel - 1);
    }
  }
}
