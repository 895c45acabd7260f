/** Lines of an image: the runs of samples along one axis that the
    separable filters rewrite in place, one line at a time, and the
    bookkeeping that says which samples of the image hold what after some of
    its lines have been rewritten. */
module Lines {
  import opened Images

  /** Position k of the line starting at `start` with step `stride`. */
  function Pos(start: int, stride: int, k: int): int {
    start + k * stride
  }

  /** Position i of a snapshot of the store, or 0.0 outside it. */
  function At(s: seq<real>, i: int): real {
    if 0 <= i < |s| then s[i] else 0.0
  }

  /** The n samples of a line, read from a snapshot of the store. */
  function LineOf(s: seq<real>, start: int, stride: int, n: nat): (l: seq<real>)
    ensures |l| == n
    ensures forall k :: 0 <= k < n ==> l[k] == At(s, Pos(start, stride, k))
  {
    seq(n, k => At(s, Pos(start, stride, k)))
  }

  /** Every position of the line lies inside a store of length `len`. */
  predicate LineIn(len: int, start: int, stride: int, n: nat) {
    0 <= start && 0 <= stride && (n > 0 ==> Pos(start, stride, n - 1) < len)
  }

  lemma LinePos(len: int, start: int, stride: int, n: nat, k: int)
    requires LineIn(len, start, stride, n) && 0 <= k < n
    ensures 0 <= Pos(start, stride, k) < len
  {
    MulMono(0, k, stride);
    MulMono(k, n - 1, stride);
  }

  /** With a positive stride the positions of a line are distinct. */
  lemma PosDistinct(start: int, stride: int, j: int, k: int)
    requires stride >= 1 && j < k
    ensures Pos(start, stride, j) < Pos(start, stride, k)
  {
    MulMono(1, k - j, stride);
    assert (k - j) * stride == k * stride - j * stride;
  }

  /** Nothing outside the n positions of the line differs between s0 and s1. */
  predicate OnlyLine(s0: seq<real>, s1: seq<real>, start: int, stride: int, n: nat) {
    |s0| == |s1| &&
    forall i :: 0 <= i < |s0| && (forall k :: 0 <= k < n ==> i != Pos(start, stride, k)) ==> s1[i] == s0[i]
  }

  lemma OnlyLineTrans(s0: seq<real>, s1: seq<real>, s2: seq<real>, start: int, stride: int, n: nat)
    requires OnlyLine(s0, s1, start, stride, n) && OnlyLine(s1, s2, start, stride, n)
    ensures OnlyLine(s0, s2, start, stride, n)
  {
  }

  /** Slot m of a circular buffer of w entries whose oldest entry is at b. */
  function Slot(b: int, m: int, w: int): int {
    if b + m < w then b + m else b + m - w
  }

  /** Writing position k of a line: that position takes v, the line's other
      positions and everything off the line keep their values. */
  method PutLine(a: array<real>, start: int, stride: int, n: nat, k: int, v: real)
    requires LineIn(a.Length, start, stride, n) && (n <= 1 || stride >= 1) && 0 <= k < n
    modifies a
    ensures OnlyLine(old(a[..]), a[..], start, stride, n)
    ensures forall j :: 0 <= j < n ==>
      At(a[..], Pos(start, stride, j)) == if j == k then v else At(old(a[..]), Pos(start, stride, j))
  {
    LinePos(a.Length, start, stride, n, k);
    a[start + k * stride] := v;
    forall j | 0 <= j < n && j != k
      ensures At(a[..], Pos(start, stride, j)) == At(old(a[..]), Pos(start, stride, j))
    {
      if j < k {
        PosDistinct(start, stride, j, k);
      } else {
        PosDistinct(start, stride, k, j);
      }
    }
  }

  /** The three axes the filters of this model sweep along. */
  datatype Axis = AlongX | AlongY | AlongT

  function Extent(im: Image, ax: Axis): int {
    match ax
    case AlongX => im.width
    case AlongY => im.height
    case AlongT => im.frames
  }

  function Stride(im: Image, ax: Axis): int {
    match ax
    case AlongX => 1
    case AlongY => im.ystride
    case AlongT => im.tstride
  }

  /** The coordinate of (x, y, t, c) along the axis. */
  function Along(ax: Axis, x: int, y: int, t: int, c: int): int {
    match ax
    case AlongX => x
    case AlongY => y
    case AlongT => t
  }

  /** Where the line along `ax` through (x, y, t, c) starts. */
  function Start(im: Image, ax: Axis, x: int, y: int, t: int, c: int): int {
    match ax
    case AlongX => Offset(im, 0, y, t, c)
    case AlongY => Offset(im, x, 0, t, c)
    case AlongT => Offset(im, x, y, 0, c)
  }

  /** (x', y', t', c') lies on the line along `ax` through (x, y, t, c). */
  predicate OnLine(ax: Axis, x: int, y: int, t: int, c: int, x': int, y': int, t': int, c': int) {
    c' == c &&
    match ax
    case AlongX => y' == y && t' == t
    case AlongY => x' == x && t' == t
    case AlongT => x' == x && y' == y
  }

  lemma LineOffset(im: Image, ax: Axis, x: int, y: int, t: int, c: int)
    ensures Offset(im, x, y, t, c) == Pos(Start(im, ax, x, y, t, c), Stride(im, ax), Along(ax, x, y, t, c))
  {
  }

  /** The samples of the line along `ax` through (x, y, t, c) in snapshot s. */
  function Line(im: Image, s: seq<real>, ax: Axis, x: int, y: int, t: int, c: int): (l: seq<real>)
    requires Extent(im, ax) >= 0
    ensures |l| == Extent(im, ax)
    ensures forall x', y', t', c' ::
      InBounds(im, x', y', t', c') && OnLine(ax, x, y, t, c, x', y', t', c') ==>
      l[Along(ax, x', y', t', c')] == At(s, Offset(im, x', y', t', c'))
  {
    LineOf(s, Start(im, ax, x, y, t, c), Stride(im, ax), Extent(im, ax))
  }

  /** The line through an in-bounds sample of a valid image lies inside the
      store, and in an injective image its positions are distinct. */
  lemma LineInStorage(im: Image, ax: Axis, x: int, y: int, t: int, c: int)
    requires Valid(im) && InBounds(im, x, y, t, c)
    ensures LineIn(im.data.Length, Start(im, ax, x, y, t, c), Stride(im, ax), Extent(im, ax))
    ensures Injective(im) ==> Extent(im, ax) <= 1 || Stride(im, ax) >= 1
  {
    match ax {
      case AlongX =>
        InStorage(im, 0, y, t, c);
        InStorage(im, im.width - 1, y, t, c);
        if Injective(im) && im.width >= 2 {
          assert InBounds(im, 1, y, t, c);
        }
      case AlongY =>
        InStorage(im, x, 0, t, c);
        InStorage(im, x, im.height - 1, t, c);
        if Injective(im) && im.height >= 2 {
          assert InBounds(im, x, 1, t, c) && InBounds(im, x, 0, t, c);
        }
      case AlongT =>
        InStorage(im, x, y, 0, c);
        InStorage(im, x, y, im.frames - 1, c);
        if Injective(im) && im.frames >= 2 {
          assert InBounds(im, x, y, 1, c) && InBounds(im, x, y, 0, c);
        }
    }
  }

  /** Every in-bounds sample (x, y, t, c) holds `want(x, y, t, c)` in s. */
  ghost predicate Agrees(im: Image, s: seq<real>, want: (int, int, int, int) -> real) {
    forall x, y, t, c :: InBounds(im, x, y, t, c) ==> At(s, Offset(im, x, y, t, c)) == want(x, y, t, c)
  }

  /** Agreement depends only on what `want` says about in-bounds samples. */
  lemma AgreesSame(im: Image, s: seq<real>, w0: (int, int, int, int) -> real, w1: (int, int, int, int) -> real)
    requires Agrees(im, s, w0)
    requires forall x, y, t, c :: InBounds(im, x, y, t, c) ==> w1(x, y, t, c) == w0(x, y, t, c)
    ensures Agrees(im, s, w1)
  {
  }

  lemma KeepsTrans(im: Image, s0: seq<real>, s1: seq<real>, s2: seq<real>)
    requires KeepsNonCells(im, s0, s1) && KeepsNonCells(im, s1, s2)
    ensures KeepsNonCells(im, s0, s2)
  {
  }

  /** The whole store of an image, or nothing for a null base pointer. */
  function Samples(im: Image): seq<real>
    reads im.data
  {
    if im.data == null then [] else im.data[..]
  }

  /** A position of the line along `ax` through (x0, y0, t0, c0) that is the
      offset of an in-bounds sample belongs to a sample on that line. */
  lemma OnLineOnly(im: Image, ax: Axis, x0: int, y0: int, t0: int, c0: int,
                   x: int, y: int, t: int, c: int, k: int)
    requires Injective(im) && InBounds(im, x0, y0, t0, c0) && InBounds(im, x, y, t, c)
    requires 0 <= k < Extent(im, ax)
    requires Offset(im, x, y, t, c) == Pos(Start(im, ax, x0, y0, t0, c0), Stride(im, ax), k)
    ensures OnLine(ax, x0, y0, t0, c0, x, y, t, c)
  {
    match ax {
      case AlongX =>
        assert InBounds(im, k, y0, t0, c0) && CellPos(im, k, y0, t0, c0) == CellPos(im, x, y, t, c);
      case AlongY =>
        assert InBounds(im, x0, k, t0, c0) && CellPos(im, x0, k, t0, c0) == CellPos(im, x, y, t, c);
      case AlongT =>
        assert InBounds(im, x0, y0, k, c0) && CellPos(im, x0, y0, k, c0) == CellPos(im, x, y, t, c);
    }
  }

  /** A line position is a cell of the image. */
  lemma LinePosIsCell(im: Image, ax: Axis, x0: int, y0: int, t0: int, c0: int, k: int)
    requires InBounds(im, x0, y0, t0, c0) && 0 <= k < Extent(im, ax)
    ensures IsCell(im, Pos(Start(im, ax, x0, y0, t0, c0), Stride(im, ax), k))
  {
    match ax {
      case AlongX => assert InBounds(im, k, y0, t0, c0);
      case AlongY => assert InBounds(im, x0, k, t0, c0);
      case AlongT => assert InBounds(im, x0, y0, k, c0);
    }
  }

  /** Rewriting one line: if s1 differs from s0 only on the line along `ax`
      through (x0, y0, t0, c0), the samples on that line hold `w1` and `w1`
      agrees with `w0` off the line, then s1 agrees with `w1` wherever s0
      agreed with `w0`, and no position outside the image's cells changed. */
  lemma LineUpdate(im: Image, ax: Axis, x0: int, y0: int, t0: int, c0: int,
                   s0: seq<real>, s1: seq<real>,
                   w0: (int, int, int, int) -> real, w1: (int, int, int, int) -> real)
    requires Injective(im) && InBounds(im, x0, y0, t0, c0)
    requires OnlyLine(s0, s1, Start(im, ax, x0, y0, t0, c0), Stride(im, ax), Extent(im, ax))
    requires forall x, y, t, c :: InBounds(im, x, y, t, c) && OnLine(ax, x0, y0, t0, c0, x, y, t, c) ==>
      At(s1, Offset(im, x, y, t, c)) == w1(x, y, t, c)
    requires forall x, y, t, c :: InBounds(im, x, y, t, c) && !OnLine(ax, x0, y0, t0, c0, x, y, t, c) ==>
      w1(x, y, t, c) == w0(x, y, t, c)
    requires Agrees(im, s0, w0)
    ensures Agrees(im, s1, w1)
    ensures KeepsNonCells(im, s0, s1)
  {
    var start, stride, n := Start(im, ax, x0, y0, t0, c0), Stride(im, ax), Extent(im, ax);
    forall x, y, t, c | InBounds(im, x, y, t, c) && !OnLine(ax, x0, y0, t0, c0, x, y, t, c)
      ensures At(s1, Offset(im, x, y, t, c)) == At(s0, Offset(im, x, y, t, c))
    {
      forall k | 0 <= k < n ensures Offset(im, x, y, t, c) != Pos(start, stride, k) {
        if Offset(im, x, y, t, c) == Pos(start, stride, k) {
          OnLineOnly(im, ax, x0, y0, t0, c0, x, y, t, c, k);
        }
      }
    }
    forall i | 0 <= i < |s0| && !IsCell(im, i) ensures s1[i] == s0[i] {
      forall k | 0 <= k < n ensures i != Pos(start, stride, k) {
        LinePosIsCell(im, ax, x0, y0, t0, c0, k);
      }
    }
  }

  /** A line rewritten from positions to samples: position k of the line is
      the sample whose coordinate along `ax` is k. */
  lemma LineCells(im: Image, ax: Axis, x0: int, y0: int, t0: int, c0: int, s: seq<real>, l: seq<real>)
    requires |l| == Extent(im, ax)
    requires forall k :: 0 <= k < |l| ==> At(s, Pos(Start(im, ax, x0, y0, t0, c0), Stride(im, ax), k)) == l[k]
    ensures forall x, y, t, c :: InBounds(im, x, y, t, c) && OnLine(ax, x0, y0, t0, c0, x, y, t, c) ==>
      At(s, Offset(im, x, y, t, c)) == l[Along(ax, x, y, t, c)]
  {
    forall x, y, t, c | InBounds(im, x, y, t, c) && OnLine(ax, x0, y0, t0, c0, x, y, t, c)
      ensures At(s, Offset(im, x, y, t, c)) == l[Along(ax, x, y, t, c)]
    {
      LineOffset(im, ax, x, y, t, c);
    }
  }

  /** In a snapshot that agrees with `w`, the line through (x0, y0, t0, c0)
      holds the values `w` gives its samples. */
  lemma LineFromAgrees(im: Image, ax: Axis, x0: int, y0: int, t0: int, c0: int,
                       s: seq<real>, w: (int, int, int, int) -> real, l: seq<real>)
    requires |l| == Extent(im, ax) && Agrees(im, s, w) && InBounds(im, x0, y0, t0, c0)
    requires forall x, y, t, c :: InBounds(im, x, y, t, c) && OnLine(ax, x0, y0, t0, c0, x, y, t, c) ==>
      w(x, y, t, c) == l[Along(ax, x, y, t, c)]
    ensures Line(im, s, ax, x0, y0, t0, c0) == l
  {
    var a := Line(im, s, ax, x0, y0, t0, c0);
    forall k | 0 <= k < |a| ensures a[k] == l[k] {
      match ax {
        case AlongX => assert InBounds(im, k, y0, t0, c0) && Offset(im, k, y0, t0, c0) == Pos(Start(im, ax, x0, y0, t0, c0), 1, k);
        case AlongY => assert InBounds(im, x0, k, t0, c0);
        case AlongT => assert InBounds(im, x0, y0, k, c0);
      }
    }
  }

  /** One line rewritten in place: before, the line held `l`, as `w0` says;
      afterwards it holds `l'`, which is what `w1` says of it, and the rest
      of the image is as `w0` (and so `w1`) says. */
  lemma LinePass(im: Image, ax: Axis, x0: int, y0: int, t0: int, c0: int,
                 s0: seq<real>, s1: seq<real>,
                 w0: (int, int, int, int) -> real, w1: (int, int, int, int) -> real, l': seq<real>)
    requires Injective(im) && InBounds(im, x0, y0, t0, c0) && Agrees(im, s0, w0)
    requires |l'| == Extent(im, ax)
    requires forall x, y, t, c :: InBounds(im, x, y, t, c) && OnLine(ax, x0, y0, t0, c0, x, y, t, c) ==>
      w1(x, y, t, c) == l'[Along(ax, x, y, t, c)]
    requires forall x, y, t, c :: InBounds(im, x, y, t, c) && !OnLine(ax, x0, y0, t0, c0, x, y, t, c) ==>
      w1(x, y, t, c) == w0(x, y, t, c)
    requires OnlyLine(s0, s1, Start(im, ax, x0, y0, t0, c0), Stride(im, ax), Extent(im, ax))
    requires LineOf(s1, Start(im, ax, x0, y0, t0, c0), Stride(im, ax), Extent(im, ax)) == l'
    ensures Agrees(im, s1, w1) && KeepsNonCells(im, s0, s1)
  {
    LineCells(im, ax, x0, y0, t0, c0, s1, l');
    LineUpdate(im, ax, x0, y0, t0, c0, s0, s1, w0, w1);
  }

  /** Writing one sample: if s1 is s0 with the position of (x0, y0, t0, c0)
      set to what `w1` says of it, and `w1` agrees with `w0` everywhere else,
      then s1 agrees with `w1` wherever s0 agreed with `w0`. */
  lemma CellUpdate(im: Image, x0: int, y0: int, t0: int, c0: int,
                   s0: seq<real>, s1: seq<real>,
                   w0: (int, int, int, int) -> real, w1: (int, int, int, int) -> real)
    requires Injective(im) && InBounds(im, x0, y0, t0, c0) && Agrees(im, s0, w0)
    requires 0 <= Offset(im, x0, y0, t0, c0) < |s0|
    requires s1 == s0[Offset(im, x0, y0, t0, c0) := w1(x0, y0, t0, c0)]
    requires forall x, y, t, c :: InBounds(im, x, y, t, c) && (x, y, t, c) != (x0, y0, t0, c0) ==>
      w1(x, y, t, c) == w0(x, y, t, c)
    ensures Agrees(im, s1, w1) && KeepsNonCells(im, s0, s1)
  {
    forall x, y, t, c | InBounds(im, x, y, t, c) && (x, y, t, c) != (x0, y0, t0, c0)
      ensures At(s1, Offset(im, x, y, t, c)) == At(s0, Offset(im, x, y, t, c))
    {
      assert CellPos(im, x, y, t, c) != CellPos(im, x0, y0, t0, c0);
    }
    assert CellPos(im, x0, y0, t0, c0) == Offset(im, x0, y0, t0, c0);
  }

  /** At the end of a sweep, agreement with `w` is what `Get` reads. */
  lemma AgreesGet(im: Image, w: (int, int, int, int) -> real, x: int, y: int, t: int, c: int)
    requires Valid(im) && InBounds(im, x, y, t, c) && Agrees(im, im.data[..], w)
    ensures Get(im, x, y, t, c) == w(x, y, t, c)
  {
    InStorage(im, x, y, t, c);
  }
}
