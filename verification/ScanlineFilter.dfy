/**
 The five PNG scanline filters for 8-bit RGBA (section 9.2 of the PNG
 specification) and the in-place loops that undo them.
 */
module ScanlineFilter {
  import opened Bytes
  import opened ScanlineStream

  // The byte one pixel to the left, zero before the line starts.
  function Left(line: seq<byte>, i: nat): byte
    requires i < |line| + BYTES_PER_PIXEL
  {
    if BYTES_PER_PIXEL <= i then line[i - BYTES_PER_PIXEL] else 0
  }

  function Abs(x: int): nat {
    if x < 0 then -x else x
  }

  function Paeth(a: byte, b: byte, c: byte): byte {
    var p := a + b - c;
    var pa, pb, pc := Abs(p - a), Abs(p - b), Abs(p - c);
    if pa <= pb && pa <= pc then a else if pb <= pc then b else c
  }

  function Predict(filterType: byte, a: byte, b: byte, c: byte): byte
    requires Known(filterType)
  {
    match filterType
    case 0 => 0
    case 1 => a
    case 2 => b
    case 3 => (a + b) / 2
    case _ => Paeth(a, b, c)
  }

  function PredictAt(filterType: byte, line: seq<byte>, previous: seq<byte>, i: nat): byte
    requires Known(filterType) && i < |previous| && i < |line| + BYTES_PER_PIXEL
  {
    Predict(filterType, Left(line, i), previous[i], Left(previous, i))
  }

  // What an encoder does: every byte less its prediction from the original line.
  function Filter(filterType: byte, line: seq<byte>, previous: seq<byte>): (f: seq<byte>)
    requires Known(filterType) && |line| <= |previous|
    ensures |f| == |line|
  {
    seq(|line|, i requires 0 <= i < |line| => Wrap(line[i] - PredictAt(filterType, line, previous, i)))
  }

  // What the decoder does: every byte plus its prediction from what was rebuilt.
  function Unfilter(filterType: byte, f: seq<byte>, previous: seq<byte>): (line: seq<byte>)
    requires Known(filterType) && |f| <= |previous|
    ensures |line| == |f|
  {
    if f == [] then [] else
      var n := |f| - 1;
      var done := Unfilter(filterType, f[..n], previous);
      done + [Wrap(f[n] + PredictAt(filterType, done, previous, n))]
  }

  /** The Paeth predictor is the neighbour nearest a + b - c, ties going left, above, corner. */
  lemma PaethIsNearest(a: byte, b: byte, c: byte)
    ensures var p, r := a + b - c, Paeth(a, b, c);
      && (r == a || r == b || r == c)
      && Abs(p - r) <= Abs(p - a) && Abs(p - r) <= Abs(p - b) && Abs(p - r) <= Abs(p - c)
      && (Abs(p - r) == Abs(p - a) ==> r == a)
      && (r != a && Abs(p - r) == Abs(p - b) ==> r == b)
  {
  }

  // Byte i of a line is what its filtered byte and the prediction from the rest of the line make.
  predicate Rebuilds(filterType: byte, line: seq<byte>, previous: seq<byte>, i: nat, filtered: byte)
    requires Known(filterType) && i < |line| <= |previous|
  {
    line[i] == Wrap(filtered + PredictAt(filterType, line, previous, i))
  }

  lemma {:induction false} UnfilterAt(filterType: byte, f: seq<byte>, previous: seq<byte>, i: nat)
    requires Known(filterType) && i < |f| <= |previous|
    ensures Rebuilds(filterType, Unfilter(filterType, f, previous), previous, i, f[i])
  {
    var n := |f| - 1;
    if i < n {
      UnfilterAt(filterType, f[..n], previous, i);
      assert f[..n][i] == f[i];
    }
  }

  /** Filtering what the decoder rebuilt gives back the filtered bytes. */
  lemma {:induction false} FilterUnfilter(filterType: byte, f: seq<byte>, previous: seq<byte>)
    requires Known(filterType) && |f| <= |previous|
    ensures Filter(filterType, Unfilter(filterType, f, previous), previous) == f
  {
    var line := Unfilter(filterType, f, previous);
    forall i | 0 <= i < |f|
      ensures Filter(filterType, line, previous)[i] == f[i]
    {
      UnfilterAt(filterType, f, previous, i);
    }
  }

  lemma WrapInjective(a: byte, b: byte, p: byte)
    requires Wrap(a - p) == Wrap(b - p)
    ensures a == b
  {
  }

  /** Two lines that filter to the same bytes are the same line. */
  lemma {:induction false} FilterInjective(filterType: byte, x: seq<byte>, y: seq<byte>, previous: seq<byte>, n: nat)
    requires Known(filterType) && |x| <= |previous| && |y| <= |previous|
    requires Filter(filterType, x, previous) == Filter(filterType, y, previous)
    requires n <= |x|
    ensures |x| == |y| && x[..n] == y[..n]
  {
    assert |x| == |Filter(filterType, x, previous)| == |y|;
    if n > 0 {
      FilterInjective(filterType, x, y, previous, n - 1);
      var i := n - 1;
      assert i >= BYTES_PER_PIXEL ==> x[..i][i - BYTES_PER_PIXEL] == y[..i][i - BYTES_PER_PIXEL];
      assert PredictAt(filterType, x, previous, i) == PredictAt(filterType, y, previous, i);
      assert Filter(filterType, x, previous)[i] == Filter(filterType, y, previous)[i];
      WrapInjective(x[i], y[i], PredictAt(filterType, x, previous, i));
      assert x[..n] == x[..i] + [x[i]] && y[..n] == y[..i] + [y[i]];
    }
  }

  /** Undoing a filter gives back the original line: with FilterUnfilter, each filter is a bijection. */
  lemma {:induction false} UnfilterFilter(filterType: byte, line: seq<byte>, previous: seq<byte>)
    requires Known(filterType) && |line| <= |previous|
    ensures Unfilter(filterType, Filter(filterType, line, previous), previous) == line
  {
    var back := Unfilter(filterType, Filter(filterType, line, previous), previous);
    FilterUnfilter(filterType, Filter(filterType, line, previous), previous);
    FilterInjective(filterType, back, line, previous, |line|);
    assert back[..|line|] == back && line[..|line|] == line;
  }

  lemma UnfilterStep(filterType: byte, f: seq<byte>, previous: seq<byte>, i: nat)
    requires Known(filterType) && i < |f| <= |previous|
    ensures var done := Unfilter(filterType, f[..i], previous);
      Unfilter(filterType, f[..i + 1], previous)
        == done + [Wrap(f[i] + PredictAt(filterType, done, previous, i))]
  {
    assert f[..i + 1][..i] == f[..i];
  }

  lemma {:induction false} UnfilterNone(f: seq<byte>, previous: seq<byte>)
    requires |f| <= |previous|
    ensures Unfilter(0, f, previous) == f
  {
    if f != [] {
      UnfilterNone(f[..|f| - 1], previous);
    }
  }

  lemma {:induction false} UnfilterSubFirstPixel(f: seq<byte>, previous: seq<byte>)
    requires |f| <= |previous| && |f| <= BYTES_PER_PIXEL
    ensures Unfilter(1, f, previous) == f
  {
    if f != [] {
      UnfilterSubFirstPixel(f[..|f| - 1], previous);
    }
  }

  lemma UnfilterShort(filterType: byte, f: seq<byte>, previous: seq<byte>)
    requires Known(filterType) && |f| < |previous| && !Overruns(filterType, |f|, |previous|)
    ensures Unfilter(filterType, f, previous) == f
  {
    if filterType == 1 {
      UnfilterSubFirstPixel(f, previous);
    } else {
      UnfilterNone(f, previous);
    }
  }

  // The progress of a loop over `line`: [0, i) rebuilt, the rest as it arrived.
  ghost predicate RebuiltTo(filterType: byte, line: seq<byte>, f: seq<byte>, previous: seq<byte>, i: nat)
    requires Known(filterType) && i <= |f| <= |previous|
  {
    && |line| == |f|
    && line[..i] == Unfilter(filterType, f[..i], previous)
    && line[i..] == f[i..]
  }

  lemma RebuiltStep(filterType: byte, line: seq<byte>, f: seq<byte>, previous: seq<byte>, i: nat)
    requires Known(filterType) && i < |f| <= |previous|
    requires RebuiltTo(filterType, line, f, previous, i)
    ensures RebuiltTo(filterType, line[i := Wrap(line[i] as int + PredictAt(filterType, line, previous, i))],
                      f, previous, i + 1)
  {
    UnfilterStep(filterType, f, previous, i);
    assert line[i..][0] == f[i..][0];
    assert Left(line, i) == Left(line[..i], i);
    var after := line[i := Wrap(line[i] as int + PredictAt(filterType, line, previous, i))];
    assert after[..i + 1] == line[..i] + [after[i]];
    assert after[i + 1..] == line[i..][1..];
  }

  lemma RebuiltAll(filterType: byte, line: seq<byte>, f: seq<byte>, previous: seq<byte>)
    requires Known(filterType) && |f| <= |previous|
    requires RebuiltTo(filterType, line, f, previous, |f|)
    ensures line == Unfilter(filterType, f, previous)
  {
    assert line[..|f|] == line && f[..|f|] == f;
  }

  method UnfilterSub(line: array<byte>, previous: array<byte>)
    requires line != previous && line.Length <= previous.Length && !Overruns(1, line.Length, previous.Length)
    modifies line
    ensures line[..] == Unfilter(1, old(line[..]), previous[..])
  {
    ghost var f, prev := line[..], previous[..];
    if line.Length <= BYTES_PER_PIXEL {
      UnfilterSubFirstPixel(f, prev);
      return;
    }
    UnfilterSubFirstPixel(f[..BYTES_PER_PIXEL], prev);
    for i := BYTES_PER_PIXEL to line.Length
      invariant RebuiltTo(1, line[..], f, prev, i)
    {
      RebuiltStep(1, line[..], f, prev, i);
      line[i] := Wrap(line[i] as int + line[i - 4]);
    }
    RebuiltAll(1, line[..], f, prev);
  }

  method UnfilterUp(line: array<byte>, previous: array<byte>)
    requires line != previous && line.Length == previous.Length
    modifies line
    ensures line[..] == Unfilter(2, old(line[..]), previous[..])
  {
    ghost var f, prev := line[..], previous[..];
    for i := 0 to line.Length
      invariant RebuiltTo(2, line[..], f, prev, i)
    {
      RebuiltStep(2, line[..], f, prev, i);
      line[i] := Wrap(line[i] as int + previous[i]);
    }
    RebuiltAll(2, line[..], f, prev);
  }

  method UnfilterAverage(line: array<byte>, previous: array<byte>)
    requires line != previous && line.Length == previous.Length
    modifies line
    ensures line[..] == Unfilter(3, old(line[..]), previous[..])
  {
    ghost var f, prev := line[..], previous[..];
    for i := 0 to line.Length
      invariant RebuiltTo(3, line[..], f, prev, i)
    {
      RebuiltStep(3, line[..], f, prev, i);
      var left := if i >= 4 then line[i - 4] else 0;
      line[i] := Wrap(line[i] as int + (left as int + previous[i]) / 2);
    }
    RebuiltAll(3, line[..], f, prev);
  }

  method UnfilterPaeth(line: array<byte>, previous: array<byte>)
    requires line != previous && line.Length == previous.Length
    modifies line
    ensures line[..] == Unfilter(4, old(line[..]), previous[..])
  {
    ghost var f, prev := line[..], previous[..];
    for i := 0 to line.Length
      invariant RebuiltTo(4, line[..], f, prev, i)
    {
      RebuiltStep(4, line[..], f, prev, i);
      var a: int := if i >= 4 then line[i - 4] else 0;
      var b: int := previous[i];
      var c: int := if i >= 4 then previous[i - 4] else 0;
      var p := a + b - c;
      var pa, pb, pc := Abs(p - a), Abs(p - b), Abs(p - c);
      var pred := if pa <= pb && pa <= pc then a else if pb <= pc then b else c;
      assert pred == PredictAt(4, line[..], prev, i);
      line[i] := Wrap(line[i] as int + pred);
    }
    RebuiltAll(4, line[..], f, prev);
  }

  // The two directions as total functions, for code that handles whole pictures.
  function PngLines(): (codec: LineCodec)
    ensures IsPng(codec)
  {
    LineCodec(
      (filterType: byte, line: seq<byte>, previous: seq<byte>) =>
        if Known(filterType) && |line| <= |previous| then Filter(filterType, line, previous) else line,
      (filterType: byte, f: seq<byte>, previous: seq<byte>) =>
        if Known(filterType) && |f| <= |previous| then Unfilter(filterType, f, previous) else f)
  }

  ghost predicate IsPng(codec: LineCodec) {
    && (forall filterType: byte, line: seq<byte>, previous: seq<byte> {:trigger Filter(filterType, line, previous)}
          | Known(filterType) && |line| <= |previous| ::
          codec.apply(filterType, line, previous) == Filter(filterType, line, previous))
    && (forall filterType: byte, f: seq<byte>, previous: seq<byte> {:trigger Unfilter(filterType, f, previous)}
          | Known(filterType) && |f| <= |previous| ::
          codec.undo(filterType, f, previous) == Unfilter(filterType, f, previous))
  }

  /** PNG's line filters are a lawful codec, in both directions. */
  lemma PngLinesLawful(codec: LineCodec)
    requires IsPng(codec)
    ensures codec.UndoesApply() && codec.AppliesUndo()
  {
    forall filterType: byte, line: seq<byte>, previous: seq<byte> | Known(filterType) && |line| <= |previous|
      ensures |codec.apply(filterType, line, previous)| == |line|
      ensures codec.undo(filterType, codec.apply(filterType, line, previous), previous) == line
    {
      UnfilterFilter(filterType, line, previous);
    }
    forall filterType: byte, line: seq<byte>, previous: seq<byte> | Known(filterType) && |line| <= |previous|
      ensures |codec.undo(filterType, line, previous)| == |line|
      ensures codec.apply(filterType, codec.undo(filterType, line, previous), previous) == line
    {
      FilterUnfilter(filterType, line, previous);
    }
  }

  // ---- What every decoded byte is, in the terms of section 9.2 of the PNG specification ----

  ghost function Gap(x: int, y: int): nat {
    if x < y then y - x else x - y
  }

  // p is what the filter predicts from the byte to the left, the one above and the corner.
  ghost predicate Predicts(filterType: byte, left: byte, above: byte, corner: byte, p: byte) {
    match filterType
    case 0 => p == 0
    case 1 => p == left
    case 2 => p == above
    case 3 => 2 * p <= left + above <= 2 * p + 1
    case 4 => IsNearest(left + above - corner, left, above, corner, p)
    case _ => false
  }

  // p is nearest to the target of the three, ties going to the left, then above, then the corner.
  ghost predicate IsNearest(target: int, left: byte, above: byte, corner: byte, p: byte) {
    && (p == left || p == above || p == corner)
    && Gap(target, p) <= Gap(target, left)
    && Gap(target, p) <= Gap(target, above)
    && Gap(target, p) <= Gap(target, corner)
    && (Gap(target, p) == Gap(target, left) ==> p == left)
    && (p != left && Gap(target, p) == Gap(target, above) ==> p == above)
  }

  // Byte i of a decoded line is the filtered byte plus the prediction, modulo 256.
  ghost predicate IsDecoded(filterType: byte, line: seq<byte>, above: seq<byte>, i: nat, filtered: byte) {
    i < |line| <= |above| && exists p: byte ::
      && Predicts(filterType, if i < 4 then 0 else line[i - 4], above[i], if i < 4 then 0 else above[i - 4], p)
      && Sums(line[i], filtered, p)
  }

  ghost predicate Sums(value: byte, filtered: byte, p: byte) {
    value == filtered + p || value + 256 == filtered + p
  }

  lemma PredictPredicts(filterType: byte, a: byte, b: byte, c: byte)
    requires Known(filterType)
    ensures Predicts(filterType, a, b, c, Predict(filterType, a, b, c))
  {
    if filterType == 4 {
      PaethIsNearest(a, b, c);
    }
  }

  lemma WrapSums(f: byte, p: byte)
    ensures Sums(Wrap(f + p), f, p)
  {
  }

  lemma DecodedBy(filterType: byte, line: seq<byte>, above: seq<byte>, i: nat, filtered: byte, p: byte)
    requires i < |line| <= |above| && Predicts(filterType, Left(line, i), above[i], Left(above, i), p)
    requires Sums(line[i], filtered, p)
    ensures IsDecoded(filterType, line, above, i, filtered)
  {
  }

  lemma ByteFrom(filterType: byte, line: seq<byte>, previous: seq<byte>, i: nat, filtered: byte)
    requires Known(filterType) && i < |line| <= |previous|
    requires Rebuilds(filterType, line, previous, i, filtered)
    ensures IsDecoded(filterType, line, previous, i, filtered)
  {
    var p := PredictAt(filterType, line, previous, i);
    PredictPredicts(filterType, Left(line, i), previous[i], Left(previous, i));
    WrapSums(filtered, p);
    DecodedBy(filterType, line, previous, i, filtered, p);
  }

  /** Every byte the decoder rebuilds is the filtered byte plus what the filter predicts. */
  lemma UnfilterByte(filterType: byte, f: seq<byte>, previous: seq<byte>, i: nat)
    requires Known(filterType) && i < |f| <= |previous|
    ensures IsDecoded(filterType, Unfilter(filterType, f, previous), previous, i, f[i])
  {
    UnfilterAt(filterType, f, previous, i);
    ByteFrom(filterType, Unfilter(filterType, f, previous), previous, i, f[i]);
  }

  lemma ShortByte(filterType: byte, f: seq<byte>, previous: seq<byte>, i: nat)
    requires Known(filterType) && i < |f| < |previous| && !Overruns(filterType, |f|, |previous|)
    ensures IsDecoded(filterType, f, previous, i, f[i])
  {
    UnfilterShort(filterType, f, previous);
    UnfilterByte(filterType, f, previous, i);
  }

  // Row y and byte i of a picture, against the stream it came from; the line above the first is all zero.
  ghost predicate IsPixelByte(data: seq<byte>, rows: Rows, stride: nat, y: nat, i: nat)
    requires y < |rows|
  {
    ByteFromStream(data, Extent(y, stride), rows[y], if y == 0 then Zeros(stride) else rows[y - 1], i)
  }

  ghost predicate ByteFromStream(data: seq<byte>, at: nat, line: seq<byte>, above: seq<byte>, i: nat) {
    at + 1 + i < |data| && IsDecoded(data[at], line, above, i, data[at + 1 + i])
  }

  lemma LineBytes(codec: LineCodec, data: seq<byte>, at: nat, line: seq<byte>, above: seq<byte>, i: nat)
    requires IsPng(codec) && LineFrom(codec, data, at, line, above) && i < |line|
    ensures ByteFromStream(data, at, line, above, i)
  {
    if at + 1 + |above| <= |data| {
      var f := data[at + 1..at + 1 + |above|];
      UnfilterByte(data[at], f, above, i);
      assert f[i] == data[at + 1 + i];
    } else {
      ShortByte(data[at], data[at + 1..], above, i);
    }
  }

  /**
   Every byte of every row that comes out of a stream, a short last row included, is the byte at
   its place in the stream plus what that line's filter predicts from the bytes left, above and corner.
   */
  lemma DecodedByte(codec: LineCodec, data: seq<byte>, height: nat, stride: nat, rows: Rows, y: nat, i: nat)
    requires IsPng(codec) && Decode(codec, data, height, Zeros(stride)) == Ok(rows) && y < |rows| && i < |rows[y]|
    ensures Extent(y, stride) == y * (1 + stride) && IsPixelByte(data, rows, stride, y, i)
  {
    ExtentIs(y, stride);
    PngLinesLawful(codec);
    DecodedLine(codec, data, height, Zeros(stride), rows, y);
    LineBytes(codec, data, Extent(y, stride), rows[y], if y == 0 then Zeros(stride) else rows[y - 1], i);
  }

  /** Undo one scanline's filter, rewriting `line` in place from the line above it. */
  method UnfilterLine(ghost codec: LineCodec, filterType: byte, line: array<byte>, previous: array<byte>)
    requires Known(filterType) && line != previous && line.Length <= previous.Length
    requires !Overruns(filterType, line.Length, previous.Length) && IsPng(codec)
    modifies line
    ensures line[..] == codec.undo(filterType, old(line[..]), previous[..]) && |line[..]| == |old(line[..])|
    ensures line.Length < previous.Length ==> line[..] == old(line[..])
  {
    if filterType == 1 {
      UnfilterSub(line, previous);
    } else if filterType == 2 {
      UnfilterUp(line, previous);
    } else if filterType == 3 {
      UnfilterAverage(line, previous);
    } else if filterType == 4 {
      UnfilterPaeth(line, previous);
    } else {
      UnfilterNone(line[..], previous[..]);
    }
    if line.Length < previous.Length {
      UnfilterShort(filterType, old(line[..]), previous[..]);
    }
  }

  method Rebuild(ghost codec: LineCodec, filterType: byte, f: seq<byte>, previous: array<byte>)
    returns (line: array<byte>)
    requires Known(filterType) && |f| <= previous.Length && !Overruns(filterType, |f|, previous.Length) && IsPng(codec)
    ensures fresh(line) && line.Length == |f| && line[..] == codec.undo(filterType, f, previous[..])
    ensures |f| < previous.Length ==> line[..] == f
  {
    line := new byte[|f|](i requires 0 <= i < |f| => f[i]);
    assert line[..] == f;
    UnfilterLine(codec, filterType, line, previous);
  }

  // One turn of the scanline loop: read a filter type and a line, and undo the filter.
  method NextLine(ghost codec: LineCodec, data: seq<byte>, at: nat, ghost height: nat, previous: array<byte>,
                  stride: nat)
    returns (r: Result<array<byte>, ScanlineError>, next: nat)
    requires IsPng(codec) && at <= |data| && height > 0
    requires previous.Length == stride || (previous.Length < stride && at == |data|)
    ensures r.Err? ==> Remaining(codec, data, at, height, previous[..], stride) == Err(r.error)
    ensures r.Ok? ==>
      && fresh(r.value) && next <= |data|
      && (r.value.Length == stride || (r.value.Length < stride && next == |data|))
      && Remaining(codec, data, at, height, previous[..], stride)
        == Prepend([r.value[..]], Remaining(codec, data, next, height - 1, r.value[..], stride))
  {
    next := at;
    if at >= |data| {
      return Err(Truncated), next;
    }
    var filterType := data[at];
    if !Known(filterType) {
      return Err(UnknownFilter(filterType)), next;
    }
    var f := Slice(data, at + 1, at + 1 + stride);
    if Overruns(filterType, |f|, stride) {
      assert f == Slice(data[at..], 1, 1 + stride);
      return Err(Truncated), next;
    }
    var line := Rebuild(codec, filterType, f, previous);
    if |f| == stride {
      RemainingWhole(codec, data, at, height, previous[..], f);
    } else {
      RemainingShort(codec, data, at, height, previous[..], f);
    }
    next := if at + 1 + stride <= |data| then at + 1 + stride else |data|;
    return Ok(line), next;
  }

  /** The scanline loop of the reader, over a stride known from the header. */
  method DecodeScanlines(ghost codec: LineCodec, data: seq<byte>, height: nat, stride: nat)
    returns (r: Result<Rows, ScanlineError>)
    requires IsPng(codec)
    ensures r == Decode(codec, data, height, Zeros(stride))
  {
    ghost var whole := Decode(codec, data, height, Zeros(stride));
    var rows: Rows := [];
    var previous := new byte[stride](_ => 0);
    var at: nat := 0;
    assert previous[..] == Zeros(stride) && data[0..] == data;
    assert whole.Ok? ==> [] + whole.value == whole.value;
    for k := 0 to height
      invariant at <= |data|
      invariant previous.Length == stride || (previous.Length < stride && at == |data|)
      invariant whole == Prepend(rows, Remaining(codec, data, at, height - k, previous[..], stride))
    {
      var line, next := NextLine(codec, data, at, height - k, previous, stride);
      if line.Err? {
        return Err(line.error);
      }
      previous, at := line.value, next;
      PrependPrepend(rows, previous[..], Remaining(codec, data, at, height - k - 1, previous[..], stride));
      rows := rows + [previous[..]];
    }
    assert rows + [] == rows;
    return Ok(rows);
  }
}
