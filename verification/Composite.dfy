/**
 `on_background` of the icon script: a scaled mark blended onto an opaque
 canvas, inset on every side.
 */
module Composite {
  import opened Bytes
  import opened ScanlineStream
  import opened Windows
  import opened Resample
  import opened Scale

  const BACKGROUND: seq<byte> := [0x0A, 0x0F, 0x1A, 0xFF]

  function Blend(v: byte, a: byte, d: byte): byte {
    BlendBounds(v, a, d);
    (v as int * a + d as int * (255 - a)) / 255
  }

  lemma BlendBounds(v: byte, a: byte, d: byte)
    ensures var sum, low, high := v as int * a + d as int * (255 - a), if v <= d then v else d, if v <= d then d else v;
      && low * 255 <= sum <= high * 255 && 0 <= sum <= 255 * 255
  {
    var low, high := if v <= d then v else d, if v <= d then d else v;
    MulOrder(low, v, a);
    MulOrder(low, d, 255 - a);
    MulOrder(v, high, a);
    MulOrder(d, high, 255 - a);
    assert low * a + low * (255 - a) == low * 255;
    assert high * a + high * (255 - a) == high * 255;
  }

  /** A blend is the floor of the mean of the two channels, weighted by alpha out of 255. */
  lemma BlendIsWeighted(v: byte, a: byte, d: byte)
    ensures IsWeighted(v, a, d, Blend(v, a, d))
  {
    BlendBounds(v, a, d);
  }

  ghost predicate IsWeighted(v: byte, a: byte, d: byte, out: byte) {
    255 * out <= v as int * a + d as int * (255 - a) < 255 * out + 255
  }

  /** A blended channel lies between the mark's and the canvas's. */
  lemma BlendBetween(v: byte, a: byte, d: byte)
    ensures (v <= Blend(v, a, d) <= d) || (d <= Blend(v, a, d) <= v)
  {
    BlendBounds(v, a, d);
  }

  /** The opaque and the clear branch are the formula at its two ends. */
  lemma BlendEnds(v: byte, d: byte)
    ensures Blend(v, 255, d) == v && Blend(v, 0, d) == d
  {
  }

  // How a mark channel of some alpha meets the canvas; the loops need only its two ends.
  type Mix = (byte, byte, byte) -> byte

  ghost predicate Ends(mix: Mix) {
    forall v: byte, d: byte :: mix(v, 255, d) == v && mix(v, 0, d) == d
  }

  // The canvas byte `i` of a row under the mark row `src`, `inset` pixels in.
  function MixedByte(mix: Mix, src: seq<byte>, inset: nat, i: nat): byte
  {
    var x, c := i / 4, i % 4;
    if c < 3 && inset <= x < inset + |src| / 4
    then mix(src[4 * (x - inset) + c], src[4 * (x - inset) + 3], BACKGROUND[c])
    else BACKGROUND[c]
  }

  function MixedRow(mix: Mix, src: seq<byte>, inset: nat, size: nat): (r: seq<byte>)
    ensures |r| == 4 * size && forall i :: 0 <= i < 4 * size ==> r[i] == MixedByte(mix, src, inset, i)
  {
    seq(4 * size, i requires 0 <= i => MixedByte(mix, src, inset, i))
  }

  function MarkRow(mark: Rows, inset: nat, y: nat): seq<byte> {
    if inset <= y < inset + |mark| then mark[y - inset] else []
  }

  // A mark over the canvas: every row is background, mixed where the mark's row lies.
  function Mixed(mix: Mix, mark: Rows, inset: nat, size: nat): (r: Rows)
    ensures IsPicture(r, size, size)
    ensures forall y :: 0 <= y < size ==> r[y] == MixedRow(mix, MarkRow(mark, inset, y), inset, size)
  {
    seq(size, y requires 0 <= y < size => MixedRow(mix, MarkRow(mark, inset, y), inset, size))
  }

  // What `on_background` gives for a source that has the bytes its size promises.
  function Composited(size: nat, rows: Rows, inset: nat): (r: Rows)
    requires size > 0
    ensures IsPicture(r, size, size)
  {
    Mixed(Blend, Scaled(size, size, rows, size - 2 * inset), inset, size)
  }

  // `on_background` on any input. With a negative inset the mark has more rows than the canvas,
  // so the loop over them always ends in a read past it.
  function Outcome(size: nat, rows: Rows, inset: int): Result<Rows, ScaleError> {
    if size == 0 then Err(DivideByZero)
    else if inset < 0 then Err(OutOfRange)
    else
      var mark := ScaleOutcome(size, size, rows, size - 2 * inset);
      if mark.Err? then Err(mark.error) else Ok(Mixed(Blend, mark.value, inset, size))
  }

  // ---- The loops ----

  lemma MixedAt(mix: Mix, src: seq<byte>, inset: nat, x: nat, i: nat)
    requires x < |src| / 4 && 4 * (x + inset) <= i < 4 * (x + inset) + 4
    ensures var c := i - 4 * (x + inset);
      && MixedByte(mix, src, inset, i) ==
         (if c < 3 then mix(src[4 * x + c], src[4 * x + 3], BACKGROUND[c]) else 255)
      && i % 4 == c
  {
    assert i / 4 == x + inset && i % 4 == i - 4 * (x + inset);
  }

  // The three alpha branches, on the canvas pixel at `off`.
  method MixPixel(mix: Mix, dst: array<byte>, off: nat, r: byte, g: byte, b: byte, a: byte)
    requires Ends(mix) && off + 4 <= dst.Length && dst[off..off + 4] == BACKGROUND
    modifies dst
    ensures dst[off..off + 4]
      == [mix(r, a, BACKGROUND[0]), mix(g, a, BACKGROUND[1]), mix(b, a, BACKGROUND[2]), 255]
    ensures dst[..off] == old(dst[..off]) && dst[off + 4..] == old(dst[off + 4..])
  {
    assert dst[off..off + 4][0] == dst[off] && dst[off..off + 4][1] == dst[off + 1];
    assert dst[off..off + 4][2] == dst[off + 2] && dst[off..off + 4][3] == dst[off + 3];
    if a == 255 {
      dst[off], dst[off + 1], dst[off + 2], dst[off + 3] := r, g, b, 255;
    } else if a != 0 {
      dst[off] := mix(r, a, dst[off]);
      dst[off + 1] := mix(g, a, dst[off + 1]);
      dst[off + 2] := mix(b, a, dst[off + 2]);
    }
  }

  // A row's progress: pixels before `upTo` mixed, the others still background.
  ghost predicate RowDone(mix: Mix, dst: seq<byte>, src: seq<byte>, inset: nat, upTo: nat) {
    forall i :: 0 <= i < |dst| ==>
      dst[i] == (if i < 4 * upTo then MixedByte(mix, src, inset, i) else BACKGROUND[i % 4])
  }

  lemma RowStep(mix: Mix, dst: seq<byte>, after: seq<byte>, src: seq<byte>, inset: nat, x: nat)
    requires x < |src| / 4 && 4 * (x + inset) + 4 <= |dst| == |after|
    requires RowDone(mix, dst, src, inset, inset + x)
    ensures var off := 4 * (x + inset);
      dst[off..off + 4] == BACKGROUND
    ensures var off, a := 4 * (x + inset), src[4 * x + 3];
      && after[..off] == dst[..off] && after[off + 4..] == dst[off + 4..]
      && after[off..off + 4] == [mix(src[4 * x], a, BACKGROUND[0]), mix(src[4 * x + 1], a, BACKGROUND[1]),
                                 mix(src[4 * x + 2], a, BACKGROUND[2]), 255]
      ==> RowDone(mix, after, src, inset, inset + x + 1)
  {
    var off := 4 * (x + inset);
    forall i | off <= i < off + 4
      ensures dst[i] == BACKGROUND[i - off]
    {
      MixedAt(mix, src, inset, x, i);
    }
    if after[..off] == dst[..off] && after[off + 4..] == dst[off + 4..]
      && after[off..off + 4] == [mix(src[4 * x], src[4 * x + 3], BACKGROUND[0]),
                                 mix(src[4 * x + 1], src[4 * x + 3], BACKGROUND[1]),
                                 mix(src[4 * x + 2], src[4 * x + 3], BACKGROUND[2]), 255] {
      forall i | 0 <= i < |after|
        ensures after[i] == (if i < off + 4 then MixedByte(mix, src, inset, i) else BACKGROUND[i % 4])
      {
        if i < off {
          assert after[i] == after[..off][i] == dst[..off][i];
        } else if i < off + 4 {
          assert after[i] == after[off..off + 4][i - off];
          MixedAt(mix, src, inset, x, i);
        } else {
          assert after[i] == after[off + 4..][i - off - 4] == dst[off + 4..][i - off - 4];
        }
      }
    }
  }

  method MixStep(mix: Mix, dst: array<byte>, src: seq<byte>, inset: nat, x: nat)
    requires Ends(mix) && x < |src| / 4 && 4 * (x + inset) + 4 <= dst.Length
    requires RowDone(mix, dst[..], src, inset, inset + x)
    modifies dst
    ensures RowDone(mix, dst[..], src, inset, inset + x + 1)
  {
    var off := (x + inset) * 4;
    ghost var before := dst[..];
    RowStep(mix, before, before, src, inset, x);
    assert dst[off..off + 4] == before[off..off + 4];
    MixPixel(mix, dst, off, src[4 * x], src[4 * x + 1], src[4 * x + 2], src[4 * x + 3]);
    RowStep(mix, before, dst[..], src, inset, x);
  }

  lemma RowFinished(mix: Mix, dst: seq<byte>, src: seq<byte>, inset: nat, size: nat)
    requires |dst| == 4 * size && RowDone(mix, dst, src, inset, inset + |src| / 4)
    ensures dst == MixedRow(mix, src, inset, size)
  {
  }

  // Blend a whole mark row into a canvas row, in place.
  method PaintRow(mix: Mix, dst: array<byte>, src: seq<byte>, inset: nat, ghost size: nat)
    requires Ends(mix) && inset + |src| / 4 <= size && dst.Length == 4 * size
    requires RowDone(mix, dst[..], src, inset, inset)
    modifies dst
    ensures dst[..] == MixedRow(mix, src, inset, size)
  {
    for x := 0 to |src| / 4
      invariant RowDone(mix, dst[..], src, inset, inset + x)
    {
      MixStep(mix, dst, src, inset, x);
    }
    RowFinished(mix, dst[..], src, inset, size);
  }

  // The canvas before anything is painted on it.
  function BlankRow(size: nat): (r: seq<byte>)
    ensures |r| == 4 * size && forall i :: 0 <= i < 4 * size ==> r[i] == BACKGROUND[i % 4]
  {
    seq(4 * size, i requires 0 <= i => BACKGROUND[i % 4])
  }

  lemma BlankIsMixed(mix: Mix, inset: nat, size: nat)
    ensures MixedRow(mix, [], inset, size) == BlankRow(size)
  {
  }

  method PaintedRow(mix: Mix, size: nat, src: seq<byte>, inset: nat) returns (row: seq<byte>)
    requires Ends(mix) && inset + |src| / 4 <= size
    ensures row == MixedRow(mix, src, inset, size)
  {
    var blank := BlankRow(size);
    var dst := new byte[4 * size](i requires 0 <= i < 4 * size => blank[i]);
    assert RowDone(mix, dst[..], src, inset, inset);
    PaintRow(mix, dst, src, inset, size);
    row := dst[..];
  }

  // Every pixel of the mark falls on the canvas.
  ghost predicate MarkFits(mark: Rows, inset: nat, size: nat) {
    && (mark == [] || inset + |mark| <= size)
    && forall y :: 0 <= y < |mark| ==> inset + |mark[y]| / 4 <= size
  }

  // The canvas and the loop over the mark's rows.
  method Paint(mix: Mix, mark: Rows, inset: nat, size: nat) returns (canvas: Rows)
    requires Ends(mix) && MarkFits(mark, inset, size)
    ensures canvas == Mixed(mix, mark, inset, size)
  {
    canvas := seq(size, _ => BlankRow(size));
    BlankIsMixed(mix, inset, size);
    for y := 0 to |mark|
      invariant |canvas| == size
      invariant forall k :: 0 <= k < size ==>
        canvas[k] == (if k < inset + y then MixedRow(mix, MarkRow(mark, inset, k), inset, size) else BlankRow(size))
    {
      var row := PaintedRow(mix, size, mark[y], inset);
      canvas := canvas[y + inset := row];
    }
  }

  /** `on_background`: the scaled mark, then the canvas and the loops. */
  method OnBackground(size: nat, rows: Rows, inset: int) returns (r: Result<Rows, ScaleError>)
    ensures r == Outcome(size, rows, inset)
  {
    var mark := ScalePicture(size, size, rows, size - 2 * inset);
    ScaledOrNot(size, rows, inset, mark);
    if mark.Err? {
      return Err(mark.error);
    }
    if inset < 0 {
      return Err(OutOfRange);
    }
    BlendHasEnds();
    var canvas := Paint(Blend, mark.value, inset, size);
    return Ok(canvas);
  }

  // What the scaled mark means for the rest: its own error, or rows that fit the canvas.
  lemma ScaledOrNot(size: nat, rows: Rows, inset: int, mark: Result<Rows, ScaleError>)
    requires mark == ScaleOutcome(size, size, rows, size - 2 * inset)
    ensures mark.Err? ==> Outcome(size, rows, inset) == Err(mark.error)
    ensures mark.Ok? && inset < 0 ==> Outcome(size, rows, inset) == Err(OutOfRange)
    ensures mark.Ok? && inset >= 0 ==> Outcome(size, rows, inset) == Ok(Mixed(Blend, mark.value, inset, size))
    ensures mark.Ok? && inset >= 0 ==> MarkFits(mark.value, inset, size)
  {
    ScaleBounded(size, size, rows, size - 2 * inset);
    if mark.Ok? && inset >= 0 {
      NarrowFits(mark.value, size - 2 * inset, inset, size);
    } else if mark.Err? && size > 0 {
      OnlyOutOfRange(size, rows, size - 2 * inset);
    }
  }

  lemma OnlyOutOfRange(size: nat, rows: Rows, inner: int)
    requires size > 0 && ScaleOutcome(size, size, rows, inner).Err?
    ensures ScaleOutcome(size, size, rows, inner).error == OutOfRange
  {
  }

  lemma NarrowFits(mark: Rows, inner: int, inset: nat, size: nat)
    requires inner == size - 2 * inset && |mark| == (if inner <= 0 then 0 else inner)
    requires forall y :: 0 <= y < |mark| ==> |mark[y]| <= 4 * inner
    ensures MarkFits(mark, inset, size)
  {
  }

  /** A source with the bytes its size promises is composited whole. */
  lemma OutcomeIsComposited(size: nat, rows: Rows, inset: nat)
    requires size > 0 && Covers(rows, size, size)
    ensures Outcome(size, rows, inset) == Ok(Composited(size, rows, inset))
  {
    ScaleIsAverage(size, size, rows, size - 2 * inset);
  }

  // ---- What comes out ----

  // Pixel (y, x) lies in the square the inset leaves for the mark.
  predicate UnderMark(size: nat, inset: nat, y: nat, x: nat) {
    inset <= y < size - inset && inset <= x < size - inset
  }

  /**
   Every pixel is opaque; outside the inset square it is exactly the background; inside, each
   colour is the floored mean of the scaled mark and the background, weighted by the mark's alpha,
   and lies between them.
   */
  lemma CompositedPixel(size: nat, rows: Rows, inset: nat, y: nat, x: nat, c: nat)
    requires y < size && x < size && c < 4
    ensures var out, mark := Composited(size, rows, inset)[y][4 * x + c], Scaled(size, size, rows, size - 2 * inset);
      && (c == 3 ==> out == 255)
      && (!UnderMark(size, inset, y, x) ==> out == [0x0A, 0x0F, 0x1A, 0xFF][c])
      && (UnderMark(size, inset, y, x) && c < 3 ==>
            var v, a := mark[y - inset][4 * (x - inset) + c], mark[y - inset][4 * (x - inset) + 3];
            var d := [0x0A, 0x0F, 0x1A][c];
            IsWeighted(v, a, d, out) && (v <= out <= d || d <= out <= v))
  {
    var mark := Scaled(size, size, rows, size - 2 * inset);
    MixedPixel(Blend, mark, inset, size, y, x, c);
    if UnderMark(size, inset, y, x) && c < 3 {
      BlendBetween(mark[y - inset][4 * (x - inset) + c], mark[y - inset][4 * (x - inset) + 3], BACKGROUND[c]);
      BlendIsWeighted(mark[y - inset][4 * (x - inset) + c], mark[y - inset][4 * (x - inset) + 3], BACKGROUND[c]);
    }
  }

  lemma MixedPixel(mix: Mix, mark: Rows, inset: nat, size: nat, y: nat, x: nat, c: nat)
    requires Whole(mark, 4 * |mark|) && y < size && x < size && c < 4
    ensures Mixed(mix, mark, inset, size)[y][4 * x + c] ==
      if c < 3 && inset <= y < inset + |mark| && inset <= x < inset + |mark|
      then mix(mark[y - inset][4 * (x - inset) + c], mark[y - inset][4 * (x - inset) + 3], BACKGROUND[c])
      else BACKGROUND[c]
  {
    var src := MarkRow(mark, inset, y);
    assert (4 * x + c) / 4 == x && (4 * x + c) % 4 == c;
    assert Mixed(mix, mark, inset, size)[y][4 * x + c] == MixedByte(mix, src, inset, 4 * x + c);
  }

  lemma {:induction false} RowSumAgrees(p: Plane, q: Plane, y: int, x0: int, x1: int)
    requires forall x :: x0 <= x < x1 ==> p(y, x) == q(y, x)
    ensures RowSum(p, y, x0, x1) == RowSum(q, y, x0, x1)
    decreases x1 - x0
  {
    if x0 < x1 {
      RowSumAgrees(p, q, y, x0, x1 - 1);
    }
  }

  lemma {:induction false} BoxSumAgrees(p: Plane, q: Plane, y0: int, y1: int, x0: int, x1: int)
    requires forall y, x :: y0 <= y < y1 && x0 <= x < x1 ==> p(y, x) == q(y, x)
    ensures BoxSum(p, y0, y1, x0, x1) == BoxSum(q, y0, y1, x0, x1)
    decreases y1 - y0
  {
    if y0 < y1 {
      BoxSumAgrees(p, q, y0, y1 - 1, x0, x1);
      RowSumAgrees(p, q, y1 - 1, x0, x1);
    }
  }

  // The two pictures agree on their top left `width` by `height` pixels.
  ghost predicate AgreeTopLeft(rows: Rows, other: Rows, width: nat, height: nat) {
    forall y: nat, x: nat, c: nat {:trigger PlaneOf(rows, c)(y, x)} :: y < height && x < width && c < 4 ==>
      PlaneOf(rows, c)(y, x) == PlaneOf(other, c)(y, x)
  }

  lemma ScaledRowAgrees(width: nat, height: nat, rows: Rows, other: Rows, size: nat, y: nat)
    requires width > 0 && height > 0 && y < size && AgreeTopLeft(rows, other, width, height)
    ensures ScaledRow(width, height, rows, size, y) == ScaledRow(width, height, other, size, y)
  {
    forall i | 0 <= i < 4 * size
      ensures ScaledRow(width, height, rows, size, y)[i] == ScaledRow(width, height, other, size, y)[i]
    {
      var x, c := i / 4, i % 4;
      WindowInRange(y, height, size);
      WindowInRange(x, width, size);
      BoxSumAgrees(PlaneOf(rows, c), PlaneOf(other, c), Lo(y, height, size), Hi(y, height, size),
                   Lo(x, width, size), Hi(x, width, size));
    }
  }

  /** Only the top left `size` by `size` pixels of the source matter: a larger mark is cropped, not scaled. */
  lemma CompositedCrops(size: nat, rows: Rows, other: Rows, inset: nat)
    requires size > 0 && AgreeTopLeft(rows, other, size, size)
    ensures Composited(size, rows, inset) == Composited(size, other, inset)
  {
    var inner := size - 2 * inset;
    if inner > 0 {
      forall y | 0 <= y < inner
        ensures Scaled(size, size, rows, inner)[y] == Scaled(size, size, other, inner)[y]
      {
        ScaledRowAgrees(size, size, rows, other, inner, y);
      }
    }
    assert Scaled(size, size, rows, inner) == Scaled(size, size, other, inner);
  }

  // ---- Cropping is scaling only for a mark of the given size ----

  // The whole `w` by `w` mark, scaled into the inset square, as the script's docstring promises.
  function WholeMark(w: nat, size: nat, rows: Rows, inset: nat): Rows {
    Mixed(Blend, Scaled(w, w, rows, size - 2 * inset), inset, size)
  }

  // An opaque `w` by `w` mark, white on its top left `size` by `size` pixels and black elsewhere.
  function CornerByte(size: nat, y: nat, i: nat): byte {
    if i % 4 == 3 || (y < size && i / 4 < size) then 255 else 0
  }

  function CornerMark(w: nat, size: nat): (r: Rows)
    ensures IsPicture(r, w, w)
  {
    seq(w, y requires 0 <= y < w => seq(4 * w, i requires 0 <= i => CornerByte(size, y, i)))
  }

  lemma CornerPlane(w: nat, size: nat, y: nat, x: nat, c: nat)
    requires y < w && x < w && c < 4
    ensures PlaneOf(CornerMark(w, size), c)(y, x) == if c == 3 || (y < size && x < size) then 255 else 0
  {
    assert (4 * x + c) / 4 == x && (4 * x + c) % 4 == c;
    assert CornerMark(w, size)[y][4 * x + c] == CornerByte(size, y, 4 * x + c);
  }

  // A channel that is white on the diagonal window of an output pixel scales to white there.
  lemma WhiteWindow(p: Plane, w: nat, inner: nat, x: nat)
    requires w > 0 && x < inner
    requires forall sy: nat, sx: nat {:trigger p(sy, sx)} ::
      Lo(x, w, inner) <= sy < Hi(x, w, inner) && Lo(x, w, inner) <= sx < Hi(x, w, inner) ==> p(sy, sx) == 255
    ensures AverageAt(p, w, w, inner, x, x) == 255
  {
    assert Within(p, Lo(x, w, inner), Hi(x, w, inner), Lo(x, w, inner), Hi(x, w, inner), 255, 255);
    ScaledBetween(p, w, w, inner, x, x, 255, 255);
  }

  // A window whose last pixel is black averages below white.
  lemma DarkCorner(p: Plane, y0: nat, y1: nat, x0: nat, x1: nat)
    requires y0 < y1 && x0 < x1 && p(y1 - 1, x1 - 1) == 0
    ensures Average(p, y0, y1, x0, x1) < 255
  {
    BoxBounds(p, y0, y1 - 1, x0, x1, 0, 255);
    RowBounds(p, y1 - 1, x0, x1 - 1, 0, 255);
    AreaStep(y1 - y0, x1 - x0, 255);
    AreaPositive(y1 - y0, x1 - x0);
    var sum, count := BoxSum(p, y0, y1, x0, x1), (y1 - y0) * (x1 - x0);
    assert sum <= 255 * count - 255;
    DivBelow(sum, count, 255);
  }

  lemma DivBelow(sum: nat, count: nat, high: nat)
    requires count > 0 && sum < high * count
    ensures sum / count < high
  {
    DivBounds(sum, count);
    MulOrder(high, sum / count, count);
  }

  lemma WhiteCrop(w: nat, size: nat, inner: nat, c: nat)
    requires 0 < inner <= size <= w && c < 4
    ensures AverageAt(PlaneOf(CornerMark(w, size), c), size, size, inner, inner - 1, inner - 1) == 255
  {
    WindowInRange(inner - 1, size, inner);
    forall sy: nat, sx: nat | sy < size && sx < size
      ensures PlaneOf(CornerMark(w, size), c)(sy, sx) == 255
    {
      CornerPlane(w, size, sy, sx, c);
    }
    WhiteWindow(PlaneOf(CornerMark(w, size), c), size, inner, inner - 1);
  }

  lemma OpaqueWhole(w: nat, size: nat, inner: nat)
    requires 0 < inner <= w
    ensures AverageAt(PlaneOf(CornerMark(w, size), 3), w, w, inner, inner - 1, inner - 1) == 255
  {
    WindowInRange(inner - 1, w, inner);
    forall sy: nat, sx: nat | sy < w && sx < w
      ensures PlaneOf(CornerMark(w, size), 3)(sy, sx) == 255
    {
      CornerPlane(w, size, sy, sx, 3);
    }
    WhiteWindow(PlaneOf(CornerMark(w, size), 3), w, inner, inner - 1);
  }

  lemma GreyWhole(w: nat, size: nat, inner: nat)
    requires 0 < inner <= size < w
    ensures AverageAt(PlaneOf(CornerMark(w, size), 0), w, w, inner, inner - 1, inner - 1) < 255
  {
    LastWindow(w, inner);
    CornerPlane(w, size, w - 1, w - 1, 0);
    GreyWindow(PlaneOf(CornerMark(w, size), 0), w, inner);
  }

  lemma GreyWindow(p: Plane, w: nat, inner: nat)
    requires 0 < inner && w > 0 && Hi(inner - 1, w, inner) == w && p(w - 1, w - 1) == 0
    ensures AverageAt(p, w, w, inner, inner - 1, inner - 1) < 255
  {
    DarkCorner(p, Lo(inner - 1, w, inner), w, Lo(inner - 1, w, inner), w);
  }

  // The red channel of a mark's last pixel, where that pixel is opaque.
  ghost predicate EndsIn(mark: Rows, red: byte) {
    && mark != [] && Whole(mark, 4 * |mark|)
    && var m := |mark| - 1; mark[m][4 * m] == red && mark[m][4 * m + 3] == 255
  }

  lemma ScaledEndsIn(w: nat, rows: Rows, inner: nat, red: byte)
    requires inner > 0 && AverageAt(PlaneOf(rows, 0), w, w, inner, inner - 1, inner - 1) == red
    requires AverageAt(PlaneOf(rows, 3), w, w, inner, inner - 1, inner - 1) == 255
    ensures EndsIn(Scaled(w, w, rows, inner), red)
  {
    ScaledByte(w, w, rows, inner, inner - 1, inner - 1, 0);
    ScaledByte(w, w, rows, inner, inner - 1, inner - 1, 3);
    EndsInBy(Scaled(w, w, rows, inner), inner - 1, red);
  }

  lemma EndsInBy(mark: Rows, m: nat, red: byte)
    requires IsPicture(mark, m + 1, m + 1) && mark[m][4 * m + 0] == red && mark[m][4 * m + 3] == 255
    ensures EndsIn(mark, red)
  {
  }

  // Where the mark is opaque the canvas shows it: here, at the end of the inset square.
  lemma EndShows(mix: Mix, mark: Rows, inset: nat, size: nat, red: byte)
    requires Ends(mix) && EndsIn(mark, red) && |mark| == size - 2 * inset
    ensures var last := size - inset - 1;
      Mixed(mix, mark, inset, size)[last][4 * last] == red
  {
    var last := size - inset - 1;
    MixedPixel(mix, mark, inset, size, last, last, 0);
  }

  lemma EndsTell(mix: Mix, crop: Rows, whole: Rows, inset: nat, size: nat, red: byte, other: byte)
    requires Ends(mix) && EndsIn(crop, red) && EndsIn(whole, other) && red != other
    requires |crop| == |whole| == size - 2 * inset
    ensures Mixed(mix, crop, inset, size) != Mixed(mix, whole, inset, size)
  {
    EndShows(mix, crop, inset, size, red);
    EndShows(mix, whole, inset, size, other);
  }

  lemma BlendHasEnds()
    ensures Ends(Blend)
  {
    forall v: byte, d: byte
      ensures Blend(v, 255, d) == v && Blend(v, 0, d) == d
    {
      BlendEnds(v, d);
    }
  }

  /** The corner mark tells the two apart: the last pixel is white when it is cropped, not when scaled whole. */
  lemma CornerTells(w: nat, size: nat, inset: nat)
    requires 2 * inset < size < w
    ensures Composited(size, CornerMark(w, size), inset) != WholeMark(w, size, CornerMark(w, size), inset)
  {
    var rows, inner := CornerMark(w, size), size - 2 * inset;
    BlendHasEnds();
    CropEnds(w, size, inner);
    var grey := WholeEnds(w, size, inner);
    EndsTell(Blend, Scaled(size, size, rows, inner), Scaled(w, w, rows, inner), inset, size, 255, grey);
  }

  lemma CropEnds(w: nat, size: nat, inner: nat)
    requires 0 < inner <= size <= w
    ensures EndsIn(Scaled(size, size, CornerMark(w, size), inner), 255)
  {
    WhiteCrop(w, size, inner, 0);
    WhiteCrop(w, size, inner, 3);
    ScaledEndsIn(size, CornerMark(w, size), inner, 255);
  }

  lemma WholeEnds(w: nat, size: nat, inner: nat) returns (grey: byte)
    requires 0 < inner <= size < w
    ensures grey < 255 && EndsIn(Scaled(w, w, CornerMark(w, size), inner), grey)
  {
    GreyWhole(w, size, inner);
    OpaqueWhole(w, size, inner);
    grey := AverageAt(PlaneOf(CornerMark(w, size), 0), w, w, inner, inner - 1, inner - 1);
    ScaledEndsIn(w, CornerMark(w, size), inner, grey);
  }

  // A mark smaller than the canvas raises.
  lemma SmallMarkRaises(w: nat, size: nat, rows: Rows, inset: nat)
    requires w < size && 2 * inset < size && IsPicture(rows, w, w)
    ensures Outcome(size, rows, inset).Err?
  {
  }

  /** Every `w` by `w` mark is scaled whole into the inset square exactly when it has the canvas's own size. */
  lemma ScaledWholeExactly(w: nat, size: nat, inset: nat)
    requires 2 * inset < size
    ensures (forall rows :: IsPicture(rows, w, w) ==>
               Outcome(size, rows, inset) == Ok(WholeMark(w, size, rows, inset))) <==> w == size
  {
    var corner := CornerMark(w, size);
    assert IsPicture(corner, w, w);
    if w < size {
      SmallMarkRaises(w, size, corner, inset);
    } else if w > size {
      CornerTells(w, size, inset);
      OutcomeIsComposited(size, corner, inset);
    } else {
      forall rows | IsPicture(rows, w, w)
        ensures Outcome(size, rows, inset) == Ok(WholeMark(w, size, rows, inset))
      {
        OutcomeIsComposited(size, rows, inset);
      }
    }
  }

  /** The Apple icon: a 256 by 256 mark is taken at size 180 and inset 18, and not every one is scaled whole. */
  lemma AppleIconIsCropped()
    ensures forall rows :: IsPicture(rows, 256, 256) ==> Outcome(180, rows, 18) == Ok(Composited(180, rows, 18))
    ensures exists rows :: IsPicture(rows, 256, 256) && Composited(180, rows, 18) != WholeMark(256, 180, rows, 18)
  {
    forall rows | IsPicture(rows, 256, 256)
      ensures Outcome(180, rows, 18) == Ok(Composited(180, rows, 18))
    {
      OutcomeIsComposited(180, rows, 18);
    }
    CornerTells(256, 180, 18);
    assert IsPicture(CornerMark(256, 180), 256, 256);
  }
}
