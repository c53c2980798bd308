/**
 A picture as the stream inside IDAT: for each line its filter type, then its
 filtered bytes. Nothing here depends on what the line filters compute, only on
 a codec of lines whose two directions undo each other.
 */
module ScanlineStream {
  import opened Bytes

  const BYTES_PER_PIXEL := 4

  type Rows = seq<seq<byte>>

  datatype ScanlineError = Truncated | UnknownFilter(filterType: byte)

  // Each direction takes the filter type, the line and the unfiltered line above it.
  datatype LineCodec = LineCodec(
    apply: (byte, seq<byte>, seq<byte>) -> seq<byte>,
    undo: (byte, seq<byte>, seq<byte>) -> seq<byte>)
  {
    ghost predicate UndoesApply() {
      forall filterType: byte, line: seq<byte>, previous: seq<byte> | Known(filterType) && |line| <= |previous| ::
        var f := apply(filterType, line, previous);
        |f| == |line| && undo(filterType, f, previous) == line
    }

    ghost predicate AppliesUndo() {
      forall filterType: byte, f: seq<byte>, previous: seq<byte> | Known(filterType) && |f| <= |previous| ::
        var line := undo(filterType, f, previous);
        |line| == |f| && apply(filterType, line, previous) == f
    }
  }

  predicate Known(filterType: int) {
    0 <= filterType <= 4
  }

  predicate AllKnown(filterTypes: seq<byte>) {
    forall y :: 0 <= y < |filterTypes| ==> Known(filterTypes[y])
  }

  predicate Whole(rows: Rows, stride: nat) {
    forall y :: 0 <= y < |rows| ==> |rows[y]| == stride
  }

  // A loop that reads past a short line raises; no filter and Sub on a
  // one-pixel line run no such loop.
  predicate Overruns(filterType: byte, length: nat, stride: nat) {
    length < stride && filterType != 0 && !(filterType == 1 && stride <= BYTES_PER_PIXEL)
  }

  function FilterAll(codec: LineCodec, filterTypes: seq<byte>, rows: Rows, previous: seq<byte>): seq<byte>
    requires |filterTypes| == |rows|
  {
    if rows == [] then [] else
      [filterTypes[0]] + codec.apply(filterTypes[0], rows[0], previous)
        + FilterAll(codec, filterTypes[1..], rows[1..], rows[0])
  }

  function Prepend(rows: Rows, r: Result<Rows, ScanlineError>): Result<Rows, ScanlineError> {
    if r.Ok? then Ok(rows + r.value) else r
  }

  // The lines of `data`, given the line above the first. A line cut short by the
  // end of the data is kept when its filter runs no loop over it.
  function Decode(codec: LineCodec, data: seq<byte>, height: nat, previous: seq<byte>): Result<Rows, ScanlineError>
    decreases height
  {
    var stride := |previous|;
    if height == 0 then Ok([])
    else if data == [] then Err(Truncated)
    else if !Known(data[0]) then Err(UnknownFilter(data[0]))
    else
      var f := Slice(data, 1, 1 + stride);
      if Overruns(data[0], |f|, stride) then Err(Truncated)
      else if |f| < stride then (if height == 1 then Ok([f]) else Err(Truncated))
      else
        var line := codec.undo(data[0], f, previous);
        Prepend([line], Decode(codec, data[1 + stride..], height - 1, line))
  }

  // The bytes of `height` whole lines, each with its filter type.
  function Extent(height: nat, stride: nat): nat {
    if height == 0 then 0 else 1 + stride + Extent(height - 1, stride)
  }

  lemma {:induction false} ExtentIs(height: nat, stride: nat)
    ensures Extent(height, stride) == height * (1 + stride)
  {
    if height > 0 {
      ExtentIs(height - 1, stride);
      assert height * (1 + stride) == (height - 1) * (1 + stride) + (1 + stride);
    }
  }

  function FilterTypes(data: seq<byte>, height: nat, stride: nat): (types: seq<byte>)
    requires |data| >= Extent(height, stride)
    ensures |types| == height
  {
    if height == 0 then [] else
      [data[0]] + FilterTypes(data[1 + stride..], height - 1, stride)
  }

  // The line above the first.
  function Zeros(n: nat): (z: seq<byte>)
    ensures |z| == n && forall i :: 0 <= i < n ==> z[i] == 0
  {
    seq(n, _ => 0)
  }

  lemma PrependPrepend(rows: Rows, line: seq<byte>, r: Result<Rows, ScanlineError>)
    ensures Prepend(rows, Prepend([line], r)) == Prepend(rows + [line], r)
  {
    if r.Ok? {
      assert rows + ([line] + r.value) == rows + [line] + r.value;
    }
  }

  /** Decoding any per-line choice of filters gives back the picture, whatever follows it. */
  lemma {:induction false} DecodeFilterAll(codec: LineCodec, filterTypes: seq<byte>, rows: Rows,
                                           previous: seq<byte>, tail: seq<byte>)
    requires codec.UndoesApply() && Whole(rows, |previous|)
    requires |filterTypes| == |rows| && AllKnown(filterTypes)
    ensures Decode(codec, FilterAll(codec, filterTypes, rows, previous) + tail, |rows|, previous) == Ok(rows)
  {
    if rows != [] {
      var ft, f := filterTypes[0], codec.apply(filterTypes[0], rows[0], previous);
      var rest := FilterAll(codec, filterTypes[1..], rows[1..], rows[0]);
      SplitAfterFirst(ft, f, rest, tail);
      DecodeFilterAll(codec, filterTypes[1..], rows[1..], rows[0], tail);
      assert [rows[0]] + rows[1..] == rows;
    }
  }

  lemma SplitAfterFirst(first: byte, f: seq<byte>, rest: seq<byte>, tail: seq<byte>)
    ensures var data, n := [first] + f + rest + tail, 1 + |f|;
      && data[0] == first && data[1..n] == f && Slice(data, 1, n) == f && data[n..] == rest + tail
  {
    var data := [first] + f + rest + tail;
    assert data == [first] + f + (rest + tail);
  }

  lemma WholeCons(line: seq<byte>, tail: Rows, stride: nat)
    ensures Whole([line] + tail, stride) <==> |line| == stride && Whole(tail, stride)
  {
    var rows := [line] + tail;
    assert rows[0] == line;
    assert forall y :: 0 <= y < |tail| ==> tail[y] == rows[y + 1];
  }

  /** The lines that come out are all whole exactly when the data is long enough. */
  lemma {:induction false} DecodedWhole(codec: LineCodec, data: seq<byte>, height: nat, previous: seq<byte>)
    requires codec.AppliesUndo() && Decode(codec, data, height, previous).Ok?
    ensures var rows, stride := Decode(codec, data, height, previous).value, |previous|;
      && |rows| == height
      && (Whole(rows, stride) <==> |data| >= Extent(height, stride))
    decreases height
  {
    var stride := |previous|;
    if height > 0 {
      var f := Slice(data, 1, 1 + stride);
      if |f| == stride {
        var line, rest := codec.undo(data[0], f, previous), data[1 + stride..];
        DecodedWhole(codec, rest, height - 1, line);
        WholeCons(line, Decode(codec, rest, height - 1, line).value, stride);
      } else {
        WholeCons(f, [], stride);
        assert [f] + [] == [f];
      }
    }
  }

  // The filter type of line y, where the stream has one.
  ghost predicate StartsLine(data: seq<byte>, y: nat, stride: nat) {
    Extent(y, stride) < |data| && data[Extent(y, stride)] <= 4
  }

  // A short last line is taken when nothing reads past it: no filter, or Sub on a line of one pixel.
  ghost predicate EndsLine(data: seq<byte>, y: nat, stride: nat)
    requires StartsLine(data, y, stride)
  {
    var filterType := data[Extent(y, stride)];
    Extent(y + 1, stride) <= |data| || filterType == 0 || (filterType == 1 && stride <= 4)
  }

  ghost predicate AllStart(data: seq<byte>, height: nat, stride: nat) {
    forall y: nat :: y < height ==> StartsLine(data, y, stride)
  }

  lemma StartsLineShift(data: seq<byte>, rest: seq<byte>, y: nat, stride: nat)
    requires |data| >= 1 + stride && rest == data[1 + stride..]
    ensures StartsLine(data, y + 1, stride) <==> StartsLine(rest, y, stride)
    ensures StartsLine(rest, y, stride) ==> (EndsLine(data, y + 1, stride) <==> EndsLine(rest, y, stride))
  {
  }

  lemma AllStartShift(data: seq<byte>, rest: seq<byte>, height: nat, stride: nat)
    requires |data| >= 1 + stride && rest == data[1 + stride..] && height > 0 && StartsLine(data, 0, stride)
    ensures AllStart(data, height, stride) <==> AllStart(rest, height - 1, stride)
  {
    forall y: nat | 0 < y < height
      ensures StartsLine(data, y, stride) <==> StartsLine(rest, y - 1, stride)
    {
      StartsLineShift(data, rest, y - 1, stride);
    }
    if AllStart(data, height, stride) {
      forall y: nat | y < height - 1
        ensures StartsLine(rest, y, stride)
      {
        assert StartsLine(data, y + 1, stride);
      }
    }
  }

  /**
   A stream decodes exactly when every line has a known filter type and the last is whole, or
   short in a way its filter does not notice.
   */
  lemma {:induction false} DecodeAccepts(codec: LineCodec, data: seq<byte>, height: nat, previous: seq<byte>)
    requires codec.AppliesUndo() && height > 0
    ensures Decode(codec, data, height, previous).Ok? <==>
      AllStart(data, height, |previous|) && EndsLine(data, height - 1, |previous|)
    decreases height
  {
    var stride := |previous|;
    assert StartsLine(data, 0, stride) <==> data != [] && data[0] <= 4;
    if |data| >= 1 + stride && data[0] <= 4 && height > 1 {
      var line, rest := codec.undo(data[0], Slice(data, 1, 1 + stride), previous), data[1 + stride..];
      DecodeAccepts(codec, rest, height - 1, line);
      AllStartShift(data, rest, height, stride);
      StartsLineShift(data, rest, height - 2, stride);
    } else if data != [] && height > 1 {
      assert !StartsLine(data, 1, stride) || !StartsLine(data, 0, stride);
    }
  }

  // A line and where it came from: the whole filtered line at `at`, undone, or the short end of the stream as it is.
  ghost predicate LineFrom(codec: LineCodec, data: seq<byte>, at: nat, line: seq<byte>, above: seq<byte>) {
    && at < |data| && Known(data[at])
    && (if at + 1 + |above| <= |data| then line == codec.undo(data[at], data[at + 1..at + 1 + |above|], above)
        else line == data[at + 1..] && !Overruns(data[at], |line|, |above|))
  }

  lemma DecodeShort(codec: LineCodec, data: seq<byte>, height: nat, previous: seq<byte>, rows: Rows)
    requires height > 0 && |data| < 1 + |previous| && Decode(codec, data, height, previous) == Ok(rows)
    ensures rows == [data[1..]] && LineFrom(codec, data, 0, data[1..], previous)
  {
    assert Slice(data, 1, 1 + |previous|) == data[1..];
  }

  lemma LineFromShift(codec: LineCodec, data: seq<byte>, n: nat, at: nat, line: seq<byte>, above: seq<byte>)
    requires n <= |data| && LineFrom(codec, data[n..], at, line, above)
    ensures LineFrom(codec, data, n + at, line, above)
  {
    var rest := data[n..];
    if at + 1 + |above| <= |rest| {
      assert rest[at + 1..at + 1 + |above|] == data[n + at + 1..n + at + 1 + |above|];
    } else {
      assert rest[at + 1..] == data[n + at + 1..];
    }
  }

  // Row y of what was decoded, against its own place in the stream and the line above it.
  ghost predicate LineAt(codec: LineCodec, data: seq<byte>, previous: seq<byte>, rows: Rows, y: nat)
    requires y < |rows|
  {
    var above := if y == 0 then previous else rows[y - 1];
    |above| == |previous| && LineFrom(codec, data, Extent(y, |previous|), rows[y], above)
  }

  lemma LineAtShift(codec: LineCodec, data: seq<byte>, previous: seq<byte>, rows: Rows, y: nat)
    requires 0 < y < |rows| && |rows[0]| == |previous| && |data| >= 1 + |previous|
    requires LineAt(codec, data[1 + |previous|..], rows[0], rows[1..], y - 1)
    ensures LineAt(codec, data, previous, rows, y)
  {
    LineFromShift(codec, data, 1 + |previous|, Extent(y - 1, |previous|), rows[y], rows[y - 1]);
  }

  /** Every line that comes out is undone from its own place in the stream and the line before it. */
  lemma {:induction false} DecodedLine(codec: LineCodec, data: seq<byte>, height: nat, previous: seq<byte>,
                                       rows: Rows, y: nat)
    requires codec.AppliesUndo() && Decode(codec, data, height, previous) == Ok(rows) && y < |rows|
    ensures LineAt(codec, data, previous, rows, y)
    decreases height
  {
    if |data| < 1 + |previous| {
      DecodeShort(codec, data, height, previous, rows);
    } else {
      DecodeFirst(codec, data, height, previous, rows);
      FirstLineFrom(codec, data, previous, rows[0]);
      if y > 0 {
        DecodedLine(codec, data[1 + |previous|..], height - 1, rows[0], rows[1..], y - 1);
        LineAtShift(codec, data, previous, rows, y);
      }
    }
  }

  lemma FirstLineFrom(codec: LineCodec, data: seq<byte>, previous: seq<byte>, line: seq<byte>)
    requires codec.AppliesUndo() && |data| >= 1 + |previous| && Known(data[0])
    requires line == codec.undo(data[0], data[1..1 + |previous|], previous)
    ensures |line| == |previous| && LineFrom(codec, data, 0, line, previous)
  {
  }

  lemma DecodeFirst(codec: LineCodec, data: seq<byte>, height: nat, previous: seq<byte>, rows: Rows)
    requires height > 0 && |data| >= 1 + |previous| && Decode(codec, data, height, previous) == Ok(rows)
    ensures rows != [] && Known(data[0])
    ensures rows[0] == codec.undo(data[0], data[1..1 + |previous|], previous)
    ensures Decode(codec, data[1 + |previous|..], height - 1, rows[0]) == Ok(rows[1..])
  {
    assert rows[1..] == Decode(codec, data[1 + |previous|..], height - 1, rows[0]).value;
  }

  /** Filtering the lines that came out, by the types that were read, gives back the very bytes. */
  lemma {:induction false} FilterAllDecode(codec: LineCodec, data: seq<byte>, height: nat, previous: seq<byte>,
                                           rows: Rows)
    requires codec.AppliesUndo()
    requires Decode(codec, data, height, previous) == Ok(rows) && |data| >= Extent(height, |previous|)
    ensures |rows| == height && AllKnown(FilterTypes(data, height, |previous|))
    ensures FilterAll(codec, FilterTypes(data, height, |previous|), rows, previous)
      == data[..Extent(height, |previous|)]
    decreases height
  {
    if height > 0 {
      var stride, e := |previous|, Extent(height - 1, |previous|);
      var f, rest := data[1..1 + stride], data[1 + stride..];
      DecodeFirst(codec, data, height, previous, rows);
      FilterAllDecode(codec, rest, height - 1, rows[0], rows[1..]);
      assert FilterTypes(data, height, stride)[1..] == FilterTypes(rest, height - 1, stride);
      JoinAfterFirst(data, 1 + stride, e);
    }
  }

  lemma JoinAfterFirst(data: seq<byte>, n: nat, e: nat)
    requires 1 <= n && n + e <= |data|
    ensures data[..n + e] == [data[0]] + data[1..n] + data[n..][..e]
  {
  }

  // What is left to decode at position `at`; past a short line there is nothing.
  ghost function Remaining(codec: LineCodec, data: seq<byte>, at: nat, height: nat, previous: seq<byte>, stride: nat)
    : Result<Rows, ScanlineError>
    requires at <= |data|
  {
    if |previous| == stride then Decode(codec, data[at..], height, previous)
    else if height == 0 then Ok([]) else Err(Truncated)
  }

  lemma RemainingWhole(codec: LineCodec, data: seq<byte>, at: nat, height: nat, previous: seq<byte>, f: seq<byte>)
    requires at < |data| && height > 0 && Known(data[at]) && |f| == |previous|
    requires f == Slice(data, at + 1, at + 1 + |previous|)
    requires |codec.undo(data[at], f, previous)| == |f|
    ensures at + 1 + |previous| <= |data|
    ensures var line := codec.undo(data[at], f, previous);
      Decode(codec, data[at..], height, previous)
        == Prepend([line], Remaining(codec, data, at + 1 + |previous|, height - 1, line, |previous|))
  {
    var rest, stride := data[at..], |previous|;
    assert f == Slice(rest, 1, 1 + stride);
    assert rest[1 + stride..] == data[at + 1 + stride..];
  }

  lemma RemainingShort(codec: LineCodec, data: seq<byte>, at: nat, height: nat, previous: seq<byte>, f: seq<byte>)
    requires at < |data| && height > 0 && Known(data[at]) && |f| < |previous|
    requires f == Slice(data, at + 1, at + 1 + |previous|) && !Overruns(data[at], |f|, |previous|)
    ensures |data| < at + 1 + |previous|
    ensures Decode(codec, data[at..], height, previous)
        == Prepend([f], Remaining(codec, data, |data|, height - 1, f, |previous|))
  {
    assert f == Slice(data[at..], 1, 1 + |previous|);
    assert [f] + [] == [f];
  }

  /** A stream that stops inside its last line is accepted and yields a short row. */
  lemma ShortRowExample(codec: LineCodec)
    ensures Decode(codec, [0, 7], 1, [0, 0, 0, 0]) == Ok([[7]])
    ensures !Whole([[7]], 4)
  {
    var rows: Rows := [[7]];
    assert |rows[0]| == 1;
  }
}
