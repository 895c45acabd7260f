/** `MinFilter::apply` and `MaxFilter::apply`: for each frame, a running
    extremum along every row, then down every column of the row-filtered
    frame, in place. */
module MinMax {
  import opened Images
  import opened Lines
  import opened Extremum

  /** Sample (x, y, t, c) after the pass along its row. */
  function RowPassed(kind: Kind, im: Image, s: seq<real>, r: nat, x: int, y: int, t: int, c: int): real {
    if 0 <= x < im.width then Running(kind, Line(im, s, AlongX, 0, y, t, c), r)[x] else 0.0
  }

  /** Column (x, t, c) of the row-filtered image. */
  function ColumnAfterRows(kind: Kind, im: Image, s: seq<real>, r: nat, x: int, t: int, c: int): (l: seq<real>)
    requires im.height >= 0
    ensures |l| == im.height
  {
    seq(im.height, y => RowPassed(kind, im, s, r, x, y, t, c))
  }

  /** Sample (x, y, t, c) after both passes. */
  function Filtered(kind: Kind, im: Image, s: seq<real>, r: nat, x: int, y: int, t: int, c: int): real {
    if 0 <= y < im.height then Running(kind, ColumnAfterRows(kind, im, s, r, x, t, c), r)[y] else 0.0
  }

  /** (x', y') lies in the square of radius r around (x, y), clipped to the frame. */
  predicate InSquare(im: Image, r: nat, x: int, y: int, x': int, y': int) {
    WindowLo(x, r) <= x' <= WindowHi(x, r, im.width) && WindowLo(y, r) <= y' <= WindowHi(y, r, im.height)
  }

  /** Away from the first sample of its row, the row pass leaves the extremum
      of the row's samples within r of x. */
  lemma RowWindow(kind: Kind, im: Image, s: seq<real>, r: nat, x: int, y: int, t: int, c: int)
    requires InBounds(im, x, y, t, c) && x >= 1
    ensures exists x' :: (WindowLo(x, r) <= x' <= WindowHi(x, r, im.width) &&
      RowPassed(kind, im, s, r, x, y, t, c) == At(s, Offset(im, x', y, t, c)))
    ensures forall x' :: WindowLo(x, r) <= x' <= WindowHi(x, r, im.width) ==>
      BetterR(kind, RowPassed(kind, im, s, r, x, y, t, c), At(s, Offset(im, x', y, t, c)))
  {
    var l := Line(im, s, AlongX, 0, y, t, c);
    RunningIsWindowExtremum(kind, l, r, x);
    forall x' | WindowLo(x, r) <= x' <= WindowHi(x, r, im.width)
      ensures l[x'] == At(s, Offset(im, x', y, t, c))
    {
      assert InBounds(im, x', y, t, c) && OnLine(AlongX, 0, y, t, c, x', y, t, c);
    }
  }

  /** Away from the first row and the first column, a filtered sample is one
      of the original samples of the clipped square of radius r around it,
      and at least as extreme as every one of them. */
  lemma SquareExtremum(kind: Kind, im: Image, s: seq<real>, r: nat, x: int, y: int, t: int, c: int)
    requires InBounds(im, x, y, t, c) && x >= 1 && y >= 1
    ensures exists x', y' :: (InSquare(im, r, x, y, x', y') &&
      Filtered(kind, im, s, r, x, y, t, c) == At(s, Offset(im, x', y', t, c)))
    ensures forall x', y' :: InSquare(im, r, x, y, x', y') ==>
      BetterR(kind, Filtered(kind, im, s, r, x, y, t, c), At(s, Offset(im, x', y', t, c)))
  {
    var col := ColumnAfterRows(kind, im, s, r, x, t, c);
    var f := Filtered(kind, im, s, r, x, y, t, c);
    RunningIsWindowExtremum(kind, col, r, y);
    var y0 :| WindowLo(y, r) <= y0 <= WindowHi(y, r, im.height) && f == col[y0];
    RowWindow(kind, im, s, r, x, y0, t, c);
    var x0 :| WindowLo(x, r) <= x0 <= WindowHi(x, r, im.width) &&
      RowPassed(kind, im, s, r, x, y0, t, c) == At(s, Offset(im, x0, y0, t, c));
    assert InSquare(im, r, x, y, x0, y0);
    forall x', y' | InSquare(im, r, x, y, x', y')
      ensures BetterR(kind, f, At(s, Offset(im, x', y', t, c)))
    {
      RowWindow(kind, im, s, r, x, y', t, c);
      assert BetterR(kind, f, col[y']);
    }
  }

  /** The first row of a frame only sees the row pass. */
  lemma EdgeRow(kind: Kind, im: Image, s: seq<real>, r: nat, x: int, t: int, c: int)
    requires InBounds(im, x, 0, t, c)
    ensures Filtered(kind, im, s, r, x, 0, t, c) == Running(kind, Line(im, s, AlongX, 0, 0, t, c), r)[x]
  {
    RunningIsWindowExtremum(kind, ColumnAfterRows(kind, im, s, r, x, t, c), r, 0);
  }

  /** The first column of a frame only sees the column pass over the
      original samples. */
  lemma EdgeColumn(kind: Kind, im: Image, s: seq<real>, r: nat, y: int, t: int, c: int)
    requires InBounds(im, 0, y, t, c)
    ensures Filtered(kind, im, s, r, 0, y, t, c) == Running(kind, Line(im, s, AlongY, 0, 0, t, c), r)[y]
  {
    var col := ColumnAfterRows(kind, im, s, r, 0, t, c);
    var l := Line(im, s, AlongY, 0, 0, t, c);
    forall y' | 0 <= y' < im.height ensures col[y'] == l[y'] {
      var row := Line(im, s, AlongX, 0, y', t, c);
      RunningIsWindowExtremum(kind, row, r, 0);
      assert InBounds(im, 0, y', t, c) && OnLine(AlongX, 0, y', t, c, 0, y', t, c);
      assert OnLine(AlongY, 0, 0, t, c, 0, y', t, c);
    }
    assert col == l;
  }

  /** A filtered sample is at least as extreme as the original sample. */
  lemma FilteredBeatsSample(kind: Kind, im: Image, s: seq<real>, r: nat, x: int, y: int, t: int, c: int)
    requires InBounds(im, x, y, t, c)
    ensures BetterR(kind, Filtered(kind, im, s, r, x, y, t, c), At(s, Offset(im, x, y, t, c)))
  {
    if x >= 1 && y >= 1 {
      SquareExtremum(kind, im, s, r, x, y, t, c);
      assert InSquare(im, r, x, y, x, y);
    } else if y == 0 {
      EdgeRow(kind, im, s, r, x, t, c);
      var row := Line(im, s, AlongX, 0, 0, t, c);
      RunningIsWindowExtremum(kind, row, r, x);
      assert OnLine(AlongX, 0, 0, t, c, x, 0, t, c);
    } else {
      EdgeColumn(kind, im, s, r, y, t, c);
      var column := Line(im, s, AlongY, 0, 0, t, c);
      RunningIsWindowExtremum(kind, column, r, y);
      assert OnLine(AlongY, 0, 0, t, c, 0, y, t, c);
    }
  }

  /** The minimum filter never raises a sample and the maximum filter never
      lowers one. */
  lemma Bracket(im: Image, s: seq<real>, r: nat, x: int, y: int, t: int, c: int)
    requires InBounds(im, x, y, t, c)
    ensures Filtered(Min, im, s, r, x, y, t, c) <= At(s, Offset(im, x, y, t, c)) <= Filtered(Max, im, s, r, x, y, t, c)
  {
    FilteredBeatsSample(Min, im, s, r, x, y, t, c);
    FilteredBeatsSample(Max, im, s, r, x, y, t, c);
  }

  datatype Phase = Rows | Columns

  /** What the image holds while frame t is being filtered: frames before t
      are done, frames after t are untouched; within frame t, the rows
      (y, c) before (a, b) have had their row pass, or, in the column phase,
      the columns (x, c) before (a, b) have had their column pass too. */
  function Stage(kind: Kind, im: Image, s: seq<real>, r: nat, t: int, phase: Phase, a: int, b: int,
                 x': int, y': int, t': int, c': int): real
  {
    if t' < t then Filtered(kind, im, s, r, x', y', t', c')
    else if t' > t then At(s, Offset(im, x', y', t', c'))
    else match phase
      case Rows =>
        if y' < a || (y' == a && c' < b) then RowPassed(kind, im, s, r, x', y', t', c')
        else At(s, Offset(im, x', y', t', c'))
      case Columns =>
        if x' < a || (x' == a && c' < b) then Filtered(kind, im, s, r, x', y', t', c')
        else RowPassed(kind, im, s, r, x', y', t', c')
  }

  /** Stage as a function of the sample's coordinates. */
  function StageFn(kind: Kind, im: Image, s: seq<real>, r: nat, t: int, phase: Phase, a: int, b: int):
    (int, int, int, int) -> real
  {
    (x', y', t', c') => Stage(kind, im, s, r, t, phase, a, b, x', y', t', c')
  }

  /** What the row stages say about row (y, t, c): before its pass it holds
      the original row, after it the filtered row, and nothing else differs. */
  lemma RowStage(kind: Kind, im: Image, s: seq<real>, r: nat, t: int, y: int, c: int)
    requires InBounds(im, 0, y, t, c)
    ensures forall x', y', t', c' :: InBounds(im, x', y', t', c') && OnLine(AlongX, 0, y, t, c, x', y', t', c') ==>
      Stage(kind, im, s, r, t, Rows, y, c, x', y', t', c') == Line(im, s, AlongX, 0, y, t, c)[x'] &&
      Stage(kind, im, s, r, t, Rows, y, c + 1, x', y', t', c') == Running(kind, Line(im, s, AlongX, 0, y, t, c), r)[x']
    ensures forall x', y', t', c' :: InBounds(im, x', y', t', c') && !OnLine(AlongX, 0, y, t, c, x', y', t', c') ==>
      Stage(kind, im, s, r, t, Rows, y, c + 1, x', y', t', c') == Stage(kind, im, s, r, t, Rows, y, c, x', y', t', c')
  {
  }

  /** What the column stages say about column (x, t, c). */
  lemma ColumnStage(kind: Kind, im: Image, s: seq<real>, r: nat, t: int, x: int, c: int)
    requires InBounds(im, x, 0, t, c)
    ensures forall x', y', t', c' :: InBounds(im, x', y', t', c') && OnLine(AlongY, x, 0, t, c, x', y', t', c') ==>
      Stage(kind, im, s, r, t, Columns, x, c, x', y', t', c') == ColumnAfterRows(kind, im, s, r, x, t, c)[y'] &&
      Stage(kind, im, s, r, t, Columns, x, c + 1, x', y', t', c') ==
        Running(kind, ColumnAfterRows(kind, im, s, r, x, t, c), r)[y']
    ensures forall x', y', t', c' :: InBounds(im, x', y', t', c') && !OnLine(AlongY, x, 0, t, c, x', y', t', c') ==>
      Stage(kind, im, s, r, t, Columns, x, c + 1, x', y', t', c') == Stage(kind, im, s, r, t, Columns, x, c, x', y', t', c')
  {
  }

  /** The row pass over row (y, t, c). */
  method FilterRow(kind: Kind, im: Image, radius: nat, heap: array<Ext>, ghost s: seq<real>, t: int, y: int, c: int)
    requires radius >= 1
    requires Valid(im) && Injective(im) && InBounds(im, 0, y, t, c)
    requires heap.Length == 4 * radius + 1
    requires Agrees(im, im.data[..], StageFn(kind, im, s, radius, t, Rows, y, c))
    modifies im.data, heap
    ensures Agrees(im, im.data[..], StageFn(kind, im, s, radius, t, Rows, y, c + 1))
    ensures KeepsNonCells(im, old(im.data[..]), im.data[..])
  {
    var data := im.data;
    ghost var s0 := data[..];
    ghost var l := Line(im, s, AlongX, 0, y, t, c);
    LineInStorage(im, AlongX, 0, y, t, c);
    RowStage(kind, im, s, radius, t, y, c);
    LineFromAgrees(im, AlongX, 0, y, t, c, s0,
      StageFn(kind, im, s, radius, t, Rows, y, c), l);
    RunningExtremum(kind, data, Offset(im, 0, y, t, c), 1, im.width, radius, heap);
    LinePass(im, AlongX, 0, y, t, c, s0, data[..],
      StageFn(kind, im, s, radius, t, Rows, y, c),
      StageFn(kind, im, s, radius, t, Rows, y, c + 1),
      Running(kind, l, radius));
  }

  /** The column pass over column (x, t, c). */
  method FilterColumn(kind: Kind, im: Image, radius: nat, heap: array<Ext>, ghost s: seq<real>, t: int, x: int, c: int)
    requires radius >= 1
    requires Valid(im) && Injective(im) && InBounds(im, x, 0, t, c)
    requires heap.Length == 4 * radius + 1
    requires Agrees(im, im.data[..], StageFn(kind, im, s, radius, t, Columns, x, c))
    modifies im.data, heap
    ensures Agrees(im, im.data[..], StageFn(kind, im, s, radius, t, Columns, x, c + 1))
    ensures KeepsNonCells(im, old(im.data[..]), im.data[..])
  {
    var data := im.data;
    ghost var s0 := data[..];
    ghost var l := ColumnAfterRows(kind, im, s, radius, x, t, c);
    LineInStorage(im, AlongY, x, 0, t, c);
    ColumnStage(kind, im, s, radius, t, x, c);
    LineFromAgrees(im, AlongY, x, 0, t, c, s0,
      StageFn(kind, im, s, radius, t, Columns, x, c), l);
    RunningExtremum(kind, data, Offset(im, x, 0, t, c), im.ystride, im.height, radius, heap);
    LinePass(im, AlongY, x, 0, t, c, s0, data[..],
      StageFn(kind, im, s, radius, t, Columns, x, c),
      StageFn(kind, im, s, radius, t, Columns, x, c + 1),
      Running(kind, l, radius));
  }

  lemma NextRow(kind: Kind, im: Image, s: seq<real>, r: nat, t: int, y: int, s1: seq<real>)
    requires Agrees(im, s1, StageFn(kind, im, s, r, t, Rows, y, im.channels))
    ensures Agrees(im, s1, StageFn(kind, im, s, r, t, Rows, y + 1, 0))
  {
    AgreesSame(im, s1, StageFn(kind, im, s, r, t, Rows, y, im.channels), StageFn(kind, im, s, r, t, Rows, y + 1, 0));
  }

  lemma RowsDone(kind: Kind, im: Image, s: seq<real>, r: nat, t: int, s1: seq<real>)
    requires Agrees(im, s1, StageFn(kind, im, s, r, t, Rows, im.height, 0))
    ensures Agrees(im, s1, StageFn(kind, im, s, r, t, Columns, 0, 0))
  {
    AgreesSame(im, s1, StageFn(kind, im, s, r, t, Rows, im.height, 0), StageFn(kind, im, s, r, t, Columns, 0, 0));
  }

  lemma NextColumn(kind: Kind, im: Image, s: seq<real>, r: nat, t: int, x: int, s1: seq<real>)
    requires Agrees(im, s1, StageFn(kind, im, s, r, t, Columns, x, im.channels))
    ensures Agrees(im, s1, StageFn(kind, im, s, r, t, Columns, x + 1, 0))
  {
    AgreesSame(im, s1, StageFn(kind, im, s, r, t, Columns, x, im.channels), StageFn(kind, im, s, r, t, Columns, x + 1, 0));
  }

  lemma ColumnsDone(kind: Kind, im: Image, s: seq<real>, r: nat, t: int, s1: seq<real>)
    requires Agrees(im, s1, StageFn(kind, im, s, r, t, Columns, im.width, 0))
    ensures Agrees(im, s1, StageFn(kind, im, s, r, t + 1, Rows, 0, 0))
  {
    AgreesSame(im, s1, StageFn(kind, im, s, r, t, Columns, im.width, 0), StageFn(kind, im, s, r, t + 1, Rows, 0, 0));
  }

  /** The row passes over every channel of row y of frame t: `for c`. */
  method FilterRowChannels(kind: Kind, im: Image, radius: nat, heap: array<Ext>, ghost s: seq<real>, t: int, y: int)
    requires radius >= 1
    requires Valid(im) && Injective(im) && !Empty(im) && 0 <= t < im.frames && 0 <= y < im.height
    requires heap.Length == 4 * radius + 1
    requires Agrees(im, im.data[..], StageFn(kind, im, s, radius, t, Rows, y, 0))
    modifies im.data, heap
    ensures Agrees(im, im.data[..], StageFn(kind, im, s, radius, t, Rows, y + 1, 0))
    ensures KeepsNonCells(im, old(im.data[..]), im.data[..])
  {
    var data := im.data;
    var c := 0;
    while c < im.channels
      invariant 0 <= c <= im.channels
      invariant Agrees(im, data[..], StageFn(kind, im, s, radius, t, Rows, y, c))
      invariant KeepsNonCells(im, old(data[..]), data[..])
    {
      ghost var s0 := data[..];
      FilterRow(kind, im, radius, heap, s, t, y, c);
      KeepsTrans(im, old(data[..]), s0, data[..]);
      c := c + 1;
    }
    NextRow(kind, im, s, radius, t, y, data[..]);
  }

  /** The row passes of frame t: `for y, for c`. */
  method FilterRows(kind: Kind, im: Image, radius: nat, heap: array<Ext>, ghost s: seq<real>, t: int)
    requires radius >= 1
    requires Valid(im) && Injective(im) && !Empty(im) && 0 <= t < im.frames
    requires heap.Length == 4 * radius + 1
    requires Agrees(im, im.data[..], StageFn(kind, im, s, radius, t, Rows, 0, 0))
    modifies im.data, heap
    ensures Agrees(im, im.data[..], StageFn(kind, im, s, radius, t, Columns, 0, 0))
    ensures KeepsNonCells(im, old(im.data[..]), im.data[..])
  {
    var data := im.data;
    var y := 0;
    while y < im.height
      invariant 0 <= y <= im.height
      invariant Agrees(im, data[..], StageFn(kind, im, s, radius, t, Rows, y, 0))
      invariant KeepsNonCells(im, old(data[..]), data[..])
    {
      ghost var s0 := data[..];
      FilterRowChannels(kind, im, radius, heap, s, t, y);
      KeepsTrans(im, old(data[..]), s0, data[..]);
      y := y + 1;
    }
    RowsDone(kind, im, s, radius, t, data[..]);
  }

  /** The column passes over every channel of column x of frame t: `for c`. */
  method FilterColumnChannels(kind: Kind, im: Image, radius: nat, heap: array<Ext>, ghost s: seq<real>, t: int, x: int)
    requires radius >= 1
    requires Valid(im) && Injective(im) && !Empty(im) && 0 <= t < im.frames && 0 <= x < im.width
    requires heap.Length == 4 * radius + 1
    requires Agrees(im, im.data[..], StageFn(kind, im, s, radius, t, Columns, x, 0))
    modifies im.data, heap
    ensures Agrees(im, im.data[..], StageFn(kind, im, s, radius, t, Columns, x + 1, 0))
    ensures KeepsNonCells(im, old(im.data[..]), im.data[..])
  {
    var data := im.data;
    var c := 0;
    while c < im.channels
      invariant 0 <= c <= im.channels
      invariant Agrees(im, data[..], StageFn(kind, im, s, radius, t, Columns, x, c))
      invariant KeepsNonCells(im, old(data[..]), data[..])
    {
      ghost var s0 := data[..];
      FilterColumn(kind, im, radius, heap, s, t, x, c);
      KeepsTrans(im, old(data[..]), s0, data[..]);
      c := c + 1;
    }
    NextColumn(kind, im, s, radius, t, x, data[..]);
  }

  /** The column passes of frame t: `for x, for c`. */
  method FilterColumns(kind: Kind, im: Image, radius: nat, heap: array<Ext>, ghost s: seq<real>, t: int)
    requires radius >= 1
    requires Valid(im) && Injective(im) && !Empty(im) && 0 <= t < im.frames
    requires heap.Length == 4 * radius + 1
    requires Agrees(im, im.data[..], StageFn(kind, im, s, radius, t, Columns, 0, 0))
    modifies im.data, heap
    ensures Agrees(im, im.data[..], StageFn(kind, im, s, radius, t + 1, Rows, 0, 0))
    ensures KeepsNonCells(im, old(im.data[..]), im.data[..])
  {
    var data := im.data;
    var x := 0;
    while x < im.width
      invariant 0 <= x <= im.width
      invariant Agrees(im, data[..], StageFn(kind, im, s, radius, t, Columns, x, 0))
      invariant KeepsNonCells(im, old(data[..]), data[..])
    {
      ghost var s0 := data[..];
      FilterColumnChannels(kind, im, radius, heap, s, t, x);
      KeepsTrans(im, old(data[..]), s0, data[..]);
      x := x + 1;
    }
    ColumnsDone(kind, im, s, radius, t, data[..]);
  }

  /** Frame t: its row passes, then its column passes. */
  method FilterFrame(kind: Kind, im: Image, radius: nat, heap: array<Ext>, ghost s: seq<real>, t: int)
    requires radius >= 1
    requires Valid(im) && Injective(im) && !Empty(im) && 0 <= t < im.frames
    requires heap.Length == 4 * radius + 1
    requires Agrees(im, im.data[..], StageFn(kind, im, s, radius, t, Rows, 0, 0))
    modifies im.data, heap
    ensures Agrees(im, im.data[..], StageFn(kind, im, s, radius, t + 1, Rows, 0, 0))
    ensures KeepsNonCells(im, old(im.data[..]), im.data[..])
  {
    ghost var s0 := im.data[..];
    FilterRows(kind, im, radius, heap, s, t);
    ghost var s1 := im.data[..];
    FilterColumns(kind, im, radius, heap, s, t);
    KeepsTrans(im, s0, s1, im.data[..]);
  }

  /** Once every frame is done, every sample reads as filtered. */
  lemma Finished(kind: Kind, im: Image, s: seq<real>, r: nat)
    requires Valid(im) && im.data != null
    requires Agrees(im, im.data[..], StageFn(kind, im, s, r, im.frames, Rows, 0, 0))
    ensures forall x, y, t, c :: InBounds(im, x, y, t, c) ==> Get(im, x, y, t, c) == Filtered(kind, im, s, r, x, y, t, c)
  {
    forall x, y, t, c | InBounds(im, x, y, t, c)
      ensures Get(im, x, y, t, c) == Filtered(kind, im, s, r, x, y, t, c)
    {
      AgreesGet(im, StageFn(kind, im, s, r, im.frames, Rows, 0, 0), x, y, t, c);
    }
  }

  /** The filter over a whole image, in place: frame by frame, every row,
      then every column.  Afterwards each sample holds the column pass over
      the row-filtered column through it, and no position of the store
      outside the image's cells has changed. */
  method Apply(kind: Kind, im: Image, radius: nat)
    requires radius >= 1
    requires Valid(im) && Injective(im)
    modifies im.data
    ensures forall x, y, t, c :: InBounds(im, x, y, t, c) ==>
      Get(im, x, y, t, c) == Filtered(kind, im, old(Samples(im)), radius, x, y, t, c)
    ensures im.data != null ==> KeepsNonCells(im, old(im.data[..]), im.data[..])
  {
    ghost var s := Samples(im);
    var heap := new Ext[4 * radius + 1];
    if Empty(im) {
      return;
    }
    var data := im.data;
    var t := 0;
    while t < im.frames
      invariant 0 <= t <= im.frames
      invariant Agrees(im, data[..], StageFn(kind, im, s, radius, t, Rows, 0, 0))
      invariant KeepsNonCells(im, s, data[..])
    {
      ghost var s0 := data[..];
      FilterFrame(kind, im, radius, heap, s, t);
      KeepsTrans(im, s, s0, data[..]);
      t := t + 1;
    }
    Finished(kind, im, s, radius);
  }

  /** `MinFilter::apply(im, radius)`. */
  method MinFilter(im: Image, radius: nat)
    requires radius >= 1
    requires Valid(im) && Injective(im)
    modifies im.data
    ensures forall x, y, t, c :: InBounds(im, x, y, t, c) ==>
      Get(im, x, y, t, c) == Filtered(Min, im, old(Samples(im)), radius, x, y, t, c)
    ensures im.data != null ==> KeepsNonCells(im, old(im.data[..]), im.data[..])
  {
    Apply(Min, im, radius);
  }

  /** `MaxFilter::apply(im, radius)`. */
  method MaxFilter(im: Image, radius: nat)
    requires radius >= 1
    requires Valid(im) && Injective(im)
    modifies im.data
    ensures forall x, y, t, c :: InBounds(im, x, y, t, c) ==>
      Get(im, x, y, t, c) == Filtered(Max, im, old(Samples(im)), radius, x, y, t, c)
    ensures im.data != null ==> KeepsNonCells(im, old(im.data[..]), im.data[..])
  {
    Apply(Max, im, radius);
  }
}
