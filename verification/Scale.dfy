/** Whole pictures through `scale`: the loops, and what they compute row by row. */
module Scale {
  import opened Bytes
  import opened ScanlineStream
  import opened Windows
  import opened Resample

  // Enough rows, each with enough bytes, for a read of `width` by `height` pixels.
  predicate Covers(rows: Rows, width: nat, height: nat) {
    |rows| >= height && forall y :: 0 <= y < height ==> |rows[y]| >= 4 * width
  }

  // Exactly a picture of `width` by `height` pixels.
  predicate IsPicture(rows: Rows, width: nat, height: nat) {
    |rows| == height && Whole(rows, 4 * width)
  }

  function PlaneOf(rows: Rows, c: nat): Plane {
    (y: int, x: int) => if 0 <= y < |rows| && 0 <= x && 4 * x + c < |rows[y]| then rows[y][4 * x + c] else 0
  }

  function ScaledRow(width: nat, height: nat, rows: Rows, size: nat, y: nat): (r: seq<byte>)
    requires size > 0
    ensures |r| == 4 * size
    ensures forall i :: 0 <= i < 4 * size ==>
      r[i] == AverageAt(PlaneOf(rows, i % 4), width, height, size, y, i / 4)
  {
    seq(4 * size, i requires 0 <= i => AverageAt(PlaneOf(rows, i % 4), width, height, size, y, i / 4))
  }

  // The area average `scale` is for, over a source that has its bytes. No output for a size that is not positive.
  function Scaled(width: nat, height: nat, rows: Rows, size: int): (r: Rows)
    ensures size > 0 ==> IsPicture(r, size, size)
    ensures size > 0 ==> forall y :: 0 <= y < size ==> r[y] == ScaledRow(width, height, rows, size, y)
    ensures size <= 0 ==> r == []
  {
    if size <= 0 then [] else seq(size, y requires 0 <= y => ScaledRow(width, height, rows, size, y))
  }

  lemma ScaledByte(width: nat, height: nat, rows: Rows, size: nat, y: nat, x: nat, c: nat)
    requires y < size && x < size && c < 4
    ensures Scaled(width, height, rows, size)[y][4 * x + c]
      == AverageAt(PlaneOf(rows, c), width, height, size, y, x)
  {
    assert (4 * x + c) / 4 == x && (4 * x + c) % 4 == c;
    assert Scaled(width, height, rows, size)[y] == ScaledRow(width, height, rows, size, y);
  }

  // ---- What the script's two branches do on any rows, whole or not ----

  datatype ScaleError = DivideByZero | OutOfRange

  // Python's line[lo : hi] = piece: bounds are clipped, and the line may change its length.
  function Splice(line: seq<byte>, lo: nat, hi: nat, piece: seq<byte>): (r: seq<byte>)
    requires lo <= hi
    ensures hi <= |line| ==> |r| == |line| - (hi - lo) + |piece|
    ensures |line| < hi ==> |r| <= lo + |piece|
  {
    if hi <= |line| then line[..lo] + piece + line[hi..]
    else line[..if lo <= |line| then lo else |line|] + piece
  }

  // Which source pixel each output pixel takes.
  type Pick = nat -> nat

  function Every(factor: nat): Pick
    requires factor > 0
  {
    (x: nat) => x / factor
  }

  function Blank(size: nat): seq<byte> {
    seq(4 * size, _ => 0)
  }

  // Output pixel x assigned from source pixel `from`.
  function Assigned(line: seq<byte>, x: nat, src: seq<byte>, from: nat): seq<byte> {
    Splice(line, 4 * x, 4 * x + 4, Slice(src, 4 * from, 4 * from + 4))
  }

  // A line of the replicating branch once its first `xs` pixels are assigned.
  function Replicated(src: seq<byte>, pick: Pick, size: nat, xs: nat): seq<byte> {
    if xs == 0 then Blank(size)
    else Assigned(Replicated(src, pick, size, xs - 1), xs - 1, src, pick(xs - 1))
  }

  // The stages of a line, one pixel after the other.
  type Stages = nat -> seq<byte>

  function StagesOf(src: seq<byte>, pick: Pick, size: nat): Stages {
    (xs: nat) => Replicated(src, pick, size, xs)
  }

  ghost predicate Advances(stages: Stages, src: seq<byte>, pick: Pick, x: nat) {
    stages(x + 1) == Assigned(stages(x), x, src, pick(x))
  }

  ghost predicate AreStages(stages: Stages, src: seq<byte>, pick: Pick, size: nat) {
    stages(0) == Blank(size) && forall x: nat :: Advances(stages, src, pick, x)
  }

  lemma StagesAre(src: seq<byte>, pick: Pick, size: nat)
    ensures AreStages(StagesOf(src, pick, size), src, pick, size)
  {
    forall x: nat
      ensures Advances(StagesOf(src, pick, size), src, pick, x)
    {
    }
  }

  // A height of zero still reads one row when it reaches the averaging branch.
  function Reach(height: nat): nat {
    if height == 0 then 1 else height
  }

  // `scale` on any input: a zero dimension may divide by zero, and a read past the rows raises;
  // but the replicating branch only slices, so a short source row shrinks its output row instead.
  function ScaleOutcome(width: nat, height: nat, rows: Rows, size: int): Result<Rows, ScaleError> {
    if width == 0 || (size % width == 0 && height == 0) then Err(DivideByZero)
    else if size <= 0 then Ok([])
    else if size % width == 0 && size % height == 0 then ReplicateOutcome(width, height, rows, size)
    else if Covers(rows, width, Reach(height)) then Ok(Scaled(width, height, rows, size))
    else Err(OutOfRange)
  }

  function ReplicateOutcome(width: nat, height: nat, rows: Rows, size: nat): (r: Result<Rows, ScaleError>)
    requires width > 0 && height > 0 && size > 0 && size % width == 0 && size % height == 0
    ensures r.Ok? <==> |rows| >= height
    ensures r.Ok? ==> |r.value| == size && size / width > 0 && size / height > 0
    ensures r.Ok? ==> forall y :: 0 <= y < size ==>
      && y / (size / height) < |rows|
      && r.value[y] == Replicated(rows[y / (size / height)], Every(size / width), size, size)
  {
    assert forall y :: 0 <= y < size ==> y / (size / height) < height by {
      forall y | 0 <= y < size
        ensures y / (size / height) < height
      {
        ReplicatedSource(y, height, size);
      }
    }
    ReplicatedSource(0, width, size);
    if |rows| < height then Err(OutOfRange)
    else Ok(seq(size, y requires 0 <= y < size =>
      Replicated(rows[y / (size / height)], Every(size / width), size, size)))
  }

  lemma ReplicatedSource(i: nat, n: nat, size: nat)
    requires n > 0 && i < size && size % n == 0
    ensures size / n > 0 && i / (size / n) < n
  {
    WindowOfFactor(i, n, size);
    WindowInRange(i, n, size);
  }

  lemma LastSource(n: nat, size: nat)
    requires n > 0 && size > 0 && size % n == 0
    ensures size / n > 0 && (size - 1) / (size / n) == n - 1
  {
    ReplicatedSource(size - 1, n, size);
    var k := size / n;
    BlockInside(n - 1, k, n);
    DivIs(size - 1, k, n - 1);
  }

  // ---- The averaging loops ----

  // Row sy is there and can be read up to pixel x1.
  ghost predicate RowReads(rows: Rows, sy: nat, x1: nat) {
    sy < |rows| && 4 * x1 <= |rows[sy]|
  }

  ghost predicate Readable(rows: Rows, y0: nat, y1: nat, x1: nat) {
    forall sy: nat :: y0 <= sy < y1 ==> RowReads(rows, sy, x1)
  }

  // Add one source pixel to the four totals; false when the row ends before it does.
  method AddPixel(rows: Rows, sy: nat, sx: nat, totals: array<nat>) returns (ok: bool)
    requires sy < |rows| && totals.Length == 4
    modifies totals
    ensures ok <==> 4 * sx + 4 <= |rows[sy]|
    ensures ok ==> forall c :: 0 <= c < 4 ==> totals[c] == old(totals[c]) + PlaneOf(rows, c)(sy, sx)
  {
    var row, off := rows[sy], sx * 4;
    for c := 0 to 4
      invariant off + c <= |row| || c == 0
      invariant forall k :: 0 <= k < 4 ==>
        totals[k] == old(totals[k]) + if k < c then PlaneOf(rows, k)(sy, sx) else 0
    {
      if off + c >= |row| {
        return false;
      }
      assert PlaneOf(rows, c)(sy, sx) == row[off + c];
      totals[c] := totals[c] + row[off + c];
    }
    return true;
  }

  // Add the pixels [x0, x1) of one source row.
  method AddRow(rows: Rows, sy: nat, x0: nat, x1: nat, totals: array<nat>) returns (ok: bool, count: nat)
    requires x0 < x1 && totals.Length == 4
    modifies totals
    ensures ok <==> RowReads(rows, sy, x1)
    ensures ok ==> count == x1 - x0
    ensures ok ==>
      forall c :: 0 <= c < 4 ==> totals[c] == old(totals[c]) + RowSum(PlaneOf(rows, c), sy, x0, x1)
  {
    count := 0;
    if sy >= |rows| {
      return false, count;
    }
    for sx := x0 to x1
      invariant count == sx - x0 && (sx == x0 || 4 * sx <= |rows[sy]|)
      invariant forall c :: 0 <= c < 4 ==> totals[c] == old(totals[c]) + RowSum(PlaneOf(rows, c), sy, x0, sx)
    {
      ok := AddPixel(rows, sy, sx, totals);
      if !ok {
        return;
      }
      count := count + 1;
    }
    ok := true;
  }

  // The four channel averages of one window, unless a read falls outside the rows.
  method AverageWindow(rows: Rows, y0: nat, y1: nat, x0: nat, x1: nat) returns (pixel: Option<seq<byte>>)
    requires y0 < y1 && x0 < x1
    ensures pixel.Some? <==> Readable(rows, y0, y1, x1)
    ensures pixel.Some? ==> |pixel.value| == 4
    ensures pixel.Some? ==>
      forall c :: 0 <= c < 4 ==> pixel.value[c] == Average(PlaneOf(rows, c), y0, y1, x0, x1)
  {
    var totals := new nat[4](_ => 0);
    var count: nat := 0;
    for sy := y0 to y1
      invariant Readable(rows, y0, sy, x1)
      invariant forall c :: 0 <= c < 4 ==> totals[c] == BoxSum(PlaneOf(rows, c), y0, sy, x0, x1)
      invariant count == (sy - y0) * (x1 - x0)
    {
      var ok, added := AddRow(rows, sy, x0, x1, totals);
      if !ok {
        return None;
      }
      count := count + added;
      assert (sy + 1 - y0) * (x1 - x0) == (sy - y0) * (x1 - x0) + (x1 - x0);
    }
    AreaPositive(y1 - y0, x1 - x0);
    var average := Divide(totals, count, c => Average(PlaneOf(rows, c), y0, y1, x0, x1));
    pixel := Some(average);
  }

  method Divide(totals: array<nat>, count: nat, ghost average: nat -> byte) returns (pixel: seq<byte>)
    requires totals.Length == 4 && count > 0
    requires forall c: nat :: c < 4 ==> totals[c] / count == average(c)
    ensures |pixel| == 4 && forall c: nat :: c < 4 ==> pixel[c] == average(c)
  {
    pixel := [];
    for c := 0 to 4
      invariant |pixel| == c
      invariant forall k: nat :: k < c ==> pixel[k] == average(k)
    {
      pixel := pixel + [totals[c] / count];
    }
  }

  // The first `xs` pixels of `line` are row y of the scaled picture.
  ghost predicate FilledTo(line: seq<byte>, width: nat, height: nat, rows: Rows, size: nat, y: nat, xs: nat)
    requires size > 0
  {
    && |line| == 4 * size
    && forall x, c :: 0 <= x < xs && x < size && 0 <= c < 4 ==>
      line[4 * x + c] == AverageAt(PlaneOf(rows, c), width, height, size, y, x)
  }

  lemma FilledRow(line: seq<byte>, width: nat, height: nat, rows: Rows, size: nat, y: nat)
    requires size > 0 && FilledTo(line, width, height, rows, size, y, size)
    ensures line == ScaledRow(width, height, rows, size, y)
  {
    forall i | 0 <= i < 4 * size
      ensures line[i] == AverageAt(PlaneOf(rows, i % 4), width, height, size, y, i / 4)
    {
      assert i == 4 * (i / 4) + i % 4;
    }
  }

  method PutPixel(line: array<byte>, x: nat, pixel: seq<byte>)
    requires |pixel| == 4 && 4 * x + 4 <= line.Length
    modifies line
    ensures forall c :: 0 <= c < 4 ==> line[4 * x + c] == pixel[c]
    ensures forall i :: 0 <= i < line.Length && !(4 * x <= i < 4 * x + 4) ==> line[i] == old(line[i])
  {
    for c := 0 to 4
      invariant forall k :: 0 <= k < c ==> line[4 * x + k] == pixel[k]
      invariant forall i :: 0 <= i < line.Length && !(4 * x <= i < 4 * x + c) ==> line[i] == old(line[i])
    {
      line[4 * x + c] := pixel[c];
    }
  }

  lemma ReadableLess(rows: Rows, y0: nat, y1: nat, x1: nat, width: nat)
    requires x1 <= width && Readable(rows, y0, y1, width)
    ensures Readable(rows, y0, y1, x1)
  {
    forall sy: nat | y0 <= sy < y1
      ensures RowReads(rows, sy, x1)
    {
      assert RowReads(rows, sy, width);
    }
  }

  // The window's pixel of output (y, x), put in its place.
  method AveragePixel(width: nat, height: nat, rows: Rows, size: nat, y: nat, x: nat, line: array<byte>)
    returns (ok: bool)
    requires width > 0 && y < size && x < size && FilledTo(line[..], width, height, rows, size, y, x)
    modifies line
    ensures Readable(rows, Lo(y, height, size), Hi(y, height, size), width) ==> ok
    ensures ok && x == size - 1 ==> Readable(rows, Lo(y, height, size), Hi(y, height, size), width)
    ensures ok ==> FilledTo(line[..], width, height, rows, size, y, x + 1)
  {
    var y0, y1 := Lo(y, height, size), Hi(y, height, size);
    var x0, x1 := Lo(x, width, size), Hi(x, width, size);
    WindowInRange(x, width, size);
    LastWindow(width, size);
    var pixel := AverageWindow(rows, y0, y1, x0, x1);
    if pixel.None? {
      if Readable(rows, y0, y1, width) {
        ReadableLess(rows, y0, y1, x1, width);
        assert false;
      }
      return false;
    }
    PutPixel(line, x, pixel.value);
    return true;
  }

  // One output row of the averaging branch, unless a read falls outside the rows.
  method AverageLine(width: nat, height: nat, rows: Rows, size: nat, y: nat) returns (r: Option<seq<byte>>)
    requires width > 0 && y < size
    ensures r.Some? <==> WindowReads(rows, width, height, size, y)
    ensures r.Some? ==> r.value == ScaledRow(width, height, rows, size, y)
  {
    var line := new byte[4 * size](_ => 0);
    for x := 0 to size
      invariant FilledTo(line[..], width, height, rows, size, y, x)
      invariant x == size ==> WindowReads(rows, width, height, size, y)
    {
      var ok := AveragePixel(width, height, rows, size, y, x, line);
      if !ok {
        return None;
      }
    }
    FilledRow(line[..], width, height, rows, size, y);
    return Some(line[..]);
  }

  // All that output row y reads is there.
  ghost predicate WindowReads(rows: Rows, width: nat, height: nat, size: nat, y: nat)
    requires size > 0
  {
    Readable(rows, Lo(y, height, size), Hi(y, height, size), width)
  }

  // One output row of the replicating branch: slices only, so it never raises.
  method ReplicateLine(src: seq<byte>, fx: nat, size: nat, ghost stages: Stages) returns (line: seq<byte>)
    requires fx > 0 && AreStages(stages, src, Every(fx), size)
    ensures line == stages(size)
  {
    line := Blank(size);
    for x := 0 to size
      invariant line == stages(x)
    {
      assert Advances(stages, src, Every(fx), x);
      line := Assigned(line, x, src, Every(fx)(x));
    }
  }

  method Replicate(width: nat, height: nat, rows: Rows, size: nat) returns (r: Result<Rows, ScaleError>)
    requires width > 0 && height > 0 && size > 0 && size % width == 0 && size % height == 0
    ensures r == ReplicateOutcome(width, height, rows, size)
  {
    ReplicatedSource(0, width, size);
    LastSource(height, size);
    r := ReplicateRows(size / width, Every(size / height), rows, size);
    if r.Err? {
      var y: nat :| y < size && Every(size / height)(y) >= |rows|;
      ReplicatedSource(y, height, size);
    } else {
      assert Every(size / height)(size - 1) == height - 1;
      assert forall y: nat :: y < size ==> Every(size / height)(y) == y / (size / height);
      assert r.value == ReplicateOutcome(width, height, rows, size).value;
    }
  }

  method ReplicateRows(fx: nat, pick: Pick, rows: Rows, size: nat) returns (r: Result<Rows, ScaleError>)
    requires fx > 0
    ensures r.Err? ==> r.error == OutOfRange && exists y: nat :: y < size && pick(y) >= |rows|
    ensures r.Ok? ==> |r.value| == size && forall y: nat :: y < size ==>
      pick(y) < |rows| && r.value[y] == Replicated(rows[pick(y)], Every(fx), size, size)
  {
    var out: Rows := [];
    for y := 0 to size
      invariant |out| == y
      invariant forall k: nat :: k < y ==>
        pick(k) < |rows| && out[k] == Replicated(rows[pick(k)], Every(fx), size, size)
    {
      if pick(y) >= |rows| {
        return Err(OutOfRange);
      }
      StagesAre(rows[pick(y)], Every(fx), size);
      var line := ReplicateLine(rows[pick(y)], fx, size, StagesOf(rows[pick(y)], Every(fx), size));
      out := out + [line];
    }
    return Ok(out);
  }

  method AverageRows(width: nat, height: nat, rows: Rows, size: nat) returns (r: Result<Rows, ScaleError>)
    requires width > 0 && size > 0
    ensures r == if Covers(rows, width, Reach(height)) then Ok(Scaled(width, height, rows, size)) else Err(OutOfRange)
  {
    var out: Rows := [];
    for y := 0 to size
      invariant |out| == y
      invariant forall k: nat :: k < y ==> WindowReads(rows, width, height, size, k)
      invariant forall k :: 0 <= k < y ==> out[k] == ScaledRow(width, height, rows, size, k)
    {
      var line := AverageLine(width, height, rows, size, y);
      if line.None? {
        UnreadableUncovered(rows, width, height, size, y);
        return Err(OutOfRange);
      }
      out := out + [line.value];
    }
    AllReadable(rows, width, height, size);
    assert out == Scaled(width, height, rows, size);
    return Ok(out);
  }

  lemma UnreadableUncovered(rows: Rows, width: nat, height: nat, size: nat, y: nat)
    requires y < size && !WindowReads(rows, width, height, size, y)
    ensures !Covers(rows, width, Reach(height))
  {
    WindowInReach(y, height, size);
  }

  lemma WindowInReach(y: nat, height: nat, size: nat)
    requires y < size
    ensures Hi(y, height, size) <= Reach(height)
  {
    if height > 0 {
      WindowInRange(y, height, size);
    }
  }

  lemma AllReadable(rows: Rows, width: nat, height: nat, size: nat)
    requires size > 0 && forall k: nat :: k < size ==> WindowReads(rows, width, height, size, k)
    ensures Covers(rows, width, Reach(height))
  {
    forall sy: nat | sy < Reach(height)
      ensures RowReads(rows, sy, width)
    {
      var k := WindowOf(sy, height, size);
      RowInWindow(rows, width, height, size, k, sy);
    }
    assert RowReads(rows, Reach(height) - 1, width);
    forall y | 0 <= y < Reach(height)
      ensures |rows[y]| >= 4 * width
    {
      assert RowReads(rows, y, width);
    }
  }

  lemma RowInWindow(rows: Rows, width: nat, height: nat, size: nat, k: nat, sy: nat)
    requires size > 0 && WindowReads(rows, width, height, size, k)
    requires Lo(k, height, size) <= sy < Hi(k, height, size)
    ensures RowReads(rows, sy, width)
  {
  }

  lemma WindowOf(s: nat, height: nat, size: nat) returns (k: nat)
    requires size > 0 && s < Reach(height)
    ensures k < size && Lo(k, height, size) <= s < Hi(k, height, size)
  {
    if height == 0 {
      k := 0;
      LoEnds(height, size);
    } else {
      LoEnds(height, size);
      k := Holder(s, height, size, size);
    }
  }

  /** `scale`: whatever the rows, the branch taken, and the sizes. */
  method ScalePicture(width: nat, height: nat, rows: Rows, size: int) returns (r: Result<Rows, ScaleError>)
    ensures r == ScaleOutcome(width, height, rows, size)
  {
    if width == 0 {
      return Err(DivideByZero);
    }
    if size % width == 0 {
      if height == 0 {
        return Err(DivideByZero);
      }
      if size % height == 0 {
        if size <= 0 {
          return Ok([]);
        }
        r := Replicate(width, height, rows, size);
        return;
      }
    }
    if size <= 0 {
      return Ok([]);
    }
    r := AverageRows(width, height, rows, size);
  }

  // ---- When both branches give the area average ----

  ghost predicate Ascends(pick: Pick) {
    forall i: nat, j: nat :: i <= j ==> pick(i) <= pick(j)
  }

  lemma EveryAscends(factor: nat)
    requires factor > 0
    ensures Ascends(Every(factor))
  {
    forall i: nat, j: nat | i <= j
      ensures Every(factor)(i) <= Every(factor)(j)
    {
      DivMonotone(i, j, factor);
    }
  }

  lemma AssignedLength(line: seq<byte>, x: nat, src: seq<byte>, from: nat, size: nat)
    requires x < size && |line| <= 4 * size
    ensures var r := Assigned(line, x, src, from);
      && |r| <= 4 * size && (|src| < 4 * from + 4 ==> |r| < 4 * size)
      && (|line| == 4 * size && 4 * from + 4 <= |src| ==> |r| == 4 * size)
  {
  }

  // A replicated line keeps its full length exactly as long as the source row lasts.
  lemma {:induction false} StageLength(stages: Stages, src: seq<byte>, pick: Pick, size: nat, xs: nat)
    requires AreStages(stages, src, pick, size) && Ascends(pick) && xs <= size
    ensures |stages(xs)| <= 4 * size
    ensures |stages(xs)| == 4 * size <==> xs == 0 || 4 * pick(xs - 1) + 4 <= |src|
  {
    if xs > 0 {
      StageLength(stages, src, pick, size, xs - 1);
      assert Advances(stages, src, pick, xs - 1);
      AssignedLength(stages(xs - 1), xs - 1, src, pick(xs - 1), size);
    }
  }

  lemma AssignedPixel(line: seq<byte>, last: nat, src: seq<byte>, from: nat, x: nat, c: nat)
    requires x <= last && 4 * last + 4 <= |line| && 4 * from + 4 <= |src| && c < 4
    ensures var r := Assigned(line, last, src, from);
      |r| == |line| && r[4 * x + c] == if x == last then src[4 * from + c] else line[4 * x + c]
  {
  }

  // Every pixel the outputs take is in the source row.
  ghost predicate Lasts(src: seq<byte>, pick: Pick, size: nat) {
    forall x: nat :: x < size ==> 4 * pick(x) + 4 <= |src|
  }

  lemma {:induction false} StageFull(stages: Stages, src: seq<byte>, pick: Pick, size: nat, xs: nat)
    requires AreStages(stages, src, pick, size) && Lasts(src, pick, xs) && xs <= size
    ensures |stages(xs)| == 4 * size
  {
    if xs > 0 {
      StageFull(stages, src, pick, size, xs - 1);
      assert Advances(stages, src, pick, xs - 1);
      AssignedLength(stages(xs - 1), xs - 1, src, pick(xs - 1), size);
    }
  }

  lemma {:induction false} StageBytes(stages: Stages, src: seq<byte>, pick: Pick, size: nat, xs: nat, x: nat, c: nat)
    requires AreStages(stages, src, pick, size) && Lasts(src, pick, xs) && x < xs <= size && c < 4
    ensures |stages(xs)| == 4 * size && stages(xs)[4 * x + c] == src[4 * pick(x) + c]
  {
    StageFull(stages, src, pick, size, xs - 1);
    assert Advances(stages, src, pick, xs - 1);
    AssignedPixel(stages(xs - 1), xs - 1, src, pick(xs - 1), x, c);
    if x < xs - 1 {
      StageBytes(stages, src, pick, size, xs - 1, x, c);
    }
  }

  /** A replicated row is whole exactly when its source row is long enough. */
  lemma ReplicatedWhole(src: seq<byte>, width: nat, size: nat)
    requires width > 0 && size > 0 && size % width == 0
    ensures size / width > 0
    ensures |Replicated(src, Every(size / width), size, size)| == 4 * size <==> |src| >= 4 * width
  {
    LastSource(width, size);
    EveryAscends(size / width);
    StagesAre(src, Every(size / width), size);
    StageLength(StagesOf(src, Every(size / width), size), src, Every(size / width), size, size);
  }

  lemma ReplicatedAtMost(src: seq<byte>, factor: nat, size: nat)
    requires factor > 0
    ensures |Replicated(src, Every(factor), size, size)| <= 4 * size
  {
    EveryAscends(factor);
    StagesAre(src, Every(factor), size);
    StageLength(StagesOf(src, Every(factor), size), src, Every(factor), size, size);
  }

  /** Whatever the rows, the output has `size` rows and none is longer than a whole one. */
  lemma ScaleBounded(width: nat, height: nat, rows: Rows, size: int)
    ensures var r := ScaleOutcome(width, height, rows, size);
      r.Ok? ==>
        && |r.value| == (if size <= 0 then 0 else size)
        && forall y :: 0 <= y < |r.value| ==> |r.value[y]| <= 4 * size
  {
    if width > 0 && height > 0 && size > 0 && size % width == 0 && size % height == 0 && |rows| >= height {
      ReplicateBounded(width, height, rows, size);
    }
  }

  lemma ReplicateBounded(width: nat, height: nat, rows: Rows, size: nat)
    requires width > 0 && height > 0 && size > 0 && size % width == 0 && size % height == 0 && |rows| >= height
    ensures var r := ReplicateOutcome(width, height, rows, size).value;
      |r| == size && forall y :: 0 <= y < |r| ==> |r[y]| <= 4 * size
  {
    var r := ReplicateOutcome(width, height, rows, size).value;
    forall y | 0 <= y < size
      ensures |r[y]| <= 4 * size
    {
      ReplicatedAtMost(rows[y / (size / height)], size / width, size);
    }
  }

  lemma ReplicatedIs(src: seq<byte>, pick: Pick, size: nat, want: seq<byte>)
    requires Lasts(src, pick, size) && |want| == 4 * size
    requires forall i: nat :: i < 4 * size ==> want[i] == src[4 * pick(i / 4) + i % 4]
    ensures Replicated(src, pick, size, size) == want
  {
    var stages := StagesOf(src, pick, size);
    StagesAre(src, pick, size);
    StageFull(stages, src, pick, size, size);
    forall i: nat | i < 4 * size
      ensures stages(size)[i] == want[i]
    {
      StageBytes(stages, src, pick, size, size, i / 4, i % 4);
      assert i == 4 * (i / 4) + i % 4;
    }
  }

  lemma AverageIsPicked(width: nat, height: nat, rows: Rows, size: nat, y: nat, x: nat, c: nat)
    requires width > 0 && height > 0 && size > 0 && size % width == 0 && size % height == 0
    requires Covers(rows, width, height) && y < size && x < size && c < 4
    ensures size / width > 0 && size / height > 0 && y / (size / height) < height
    ensures var src, s := rows[y / (size / height)], 4 * Every(size / width)(x) + c;
      4 * Every(size / width)(x) + 4 <= |src| && src[s] == AverageAt(PlaneOf(rows, c), width, height, size, y, x)
  {
    ReplicatedSource(y, height, size);
    ReplicatedSource(x, width, size);
    ReplicationIsAverage(PlaneOf(rows, c), width, height, size, y, x);
  }

  lemma ReplicatedRow(width: nat, height: nat, rows: Rows, size: nat, y: nat)
    requires width > 0 && height > 0 && size > 0 && size % width == 0 && size % height == 0
    requires Covers(rows, width, height) && y < size
    ensures size / width > 0 && size / height > 0 && y / (size / height) < height
    ensures Replicated(rows[y / (size / height)], Every(size / width), size, size)
      == ScaledRow(width, height, rows, size, y)
  {
    ReplicatedSource(y, height, size);
    ReplicatedSource(0, width, size);
    var src, pick, want := rows[y / (size / height)], Every(size / width), ScaledRow(width, height, rows, size, y);
    forall x: nat | x < size
      ensures 4 * pick(x) + 4 <= |src|
    {
      AverageIsPicked(width, height, rows, size, y, x, 0);
    }
    assert Lasts(src, pick, size);
    forall i: nat | i < 4 * size
      ensures want[i] == src[4 * pick(i / 4) + i % 4]
    {
      AverageIsPicked(width, height, rows, size, y, i / 4, i % 4);
    }
    ReplicatedIs(src, pick, size, want);
  }

  /** Over a source that has the bytes, whichever branch runs, the result is the area average. */
  lemma ScaleIsAverage(width: nat, height: nat, rows: Rows, size: int)
    requires width > 0 && height > 0 && Covers(rows, width, height)
    ensures ScaleOutcome(width, height, rows, size) == Ok(Scaled(width, height, rows, size))
  {
    if size > 0 && size % width == 0 && size % height == 0 {
      forall y | 0 <= y < size
        ensures ReplicateOutcome(width, height, rows, size).value[y] == ScaledRow(width, height, rows, size, y)
      {
        ReplicatedRow(width, height, rows, size, y);
      }
      assert ReplicateOutcome(width, height, rows, size).value == Scaled(width, height, rows, size);
    }
  }

  /**
   A size by size picture comes out exactly when the source has the rows and bytes that its
   dimensions promise; otherwise the script raises or hands over a short row.
   */
  lemma ScaleExact(width: nat, height: nat, rows: Rows, size: nat)
    requires width > 0 && height > 0 && size > 0
    ensures var r := ScaleOutcome(width, height, rows, size);
      r.Ok? && IsPicture(r.value, size, size) <==> Covers(rows, width, height)
  {
    if Covers(rows, width, height) {
      ScaleIsAverage(width, height, rows, size);
    } else if size % width == 0 && size % height == 0 && |rows| >= height {
      var y :| 0 <= y < height && |rows[y]| < 4 * width;
      ShortRowShows(width, height, rows, size, y);
    }
  }

  lemma ShortRowShows(width: nat, height: nat, rows: Rows, size: nat, y: nat)
    requires width > 0 && height > 0 && size > 0 && size % width == 0 && size % height == 0
    requires |rows| >= height && y < height && |rows[y]| < 4 * width
    ensures !IsPicture(ReplicateOutcome(width, height, rows, size).value, size, size)
  {
    var q := OutputOf(y, height, size);
    ReplicatedWhole(rows[y], width, size);
    assert |ReplicateOutcome(width, height, rows, size).value[q]| != 4 * size;
  }

  // The first output row that takes source row y.
  lemma OutputOf(y: nat, height: nat, size: nat) returns (q: nat)
    requires y < height && size > 0 && size % height == 0
    ensures q < size && size / height > 0 && q / (size / height) == y
  {
    ReplicatedSource(0, height, size);
    var k := size / height;
    q := y * k;
    BlockInside(y, k, height);
    DivIs(q, k, y);
  }

  // ---- What a row that ends early comes to ----

  // The source row holds the pixels of the first k outputs and nothing of the others.
  ghost predicate EndsAfter(src: seq<byte>, pick: Pick, k: nat) {
    && (forall x: nat :: x < k ==> 4 * pick(x) + 4 <= |src|)
    && (forall x: nat :: k <= x ==> |src| <= 4 * pick(x))
  }

  // Everything from pixel k on is still zero.
  ghost predicate BlankFrom(line: seq<byte>, k: nat) {
    forall i :: 4 * k <= i < |line| ==> line[i] == 0
  }

  lemma {:induction false} StageBlank(stages: Stages, src: seq<byte>, pick: Pick, size: nat, k: nat, xs: nat)
    requires AreStages(stages, src, pick, size) && EndsAfter(src, pick, k) && xs <= k <= size
    ensures |stages(xs)| == 4 * size && BlankFrom(stages(xs), xs)
  {
    if xs > 0 {
      StageBlank(stages, src, pick, size, k, xs - 1);
      assert Advances(stages, src, pick, xs - 1);
      AssignedLength(stages(xs - 1), xs - 1, src, pick(xs - 1), size);
      AssignedAfter(stages(xs - 1), xs - 1, src, pick(xs - 1));
    }
  }

  lemma AssignedAfter(line: seq<byte>, x: nat, src: seq<byte>, from: nat)
    requires 4 * x + 4 <= |line| && 4 * from + 4 <= |src| && BlankFrom(line, x)
    ensures BlankFrom(Assigned(line, x, src, from), x + 1)
  {
  }

  // Assigning a pixel the source row does not have takes one off the blank end, if pixel x is still there.
  lemma AssignedNothing(line: seq<byte>, x: nat, src: seq<byte>, from: nat, pixels: nat)
    requires |src| <= 4 * from && |line| == 4 * pixels && BlankFrom(line, x)
    ensures Assigned(line, x, src, from) == if x < pixels then line[..4 * (pixels - 1)] else line
  {
    assert Slice(src, 4 * from, 4 * from + 4) == [];
    if x < pixels {
      assert line[..4 * x] + [] + line[4 * x + 4..] == line[..4 * (pixels - 1)];
    } else {
      assert line + [] == line;
    }
  }

  // How many of the `missing` pixels are gone after `turns` turns: each removal also brings the end nearer.
  function Gone(missing: nat, turns: nat): nat {
    if turns <= (missing + 1) / 2 then turns else (missing + 1) / 2
  }

  lemma {:induction false} StageShort(stages: Stages, src: seq<byte>, pick: Pick, size: nat, k: nat, xs: nat)
    requires AreStages(stages, src, pick, size) && EndsAfter(src, pick, k) && k <= xs <= size
    ensures |stages(k)| == 4 * size && stages(xs) == stages(k)[..4 * (size - Gone(size - k, xs - k))]
  {
    StageBlank(stages, src, pick, size, k, k);
    if xs > k {
      StageShort(stages, src, pick, size, k, xs - 1);
      assert Advances(stages, src, pick, xs - 1);
      AssignedNothing(stages(xs - 1), xs - 1, src, pick(xs - 1), size - Gone(size - k, xs - 1 - k));
    }
  }

  lemma EveryEnds(src: seq<byte>, factor: nat, held: nat)
    requires factor > 0 && |src| == 4 * held
    ensures EndsAfter(src, Every(factor), held * factor)
  {
    forall x: nat
      ensures x < held * factor <==> Every(factor)(x) < held
    {
      DivBounds(x, factor);
      MulOrder(x / factor + 1, held, factor);
      MulOrder(held, x / factor, factor);
      assert (x / factor + 1) * factor == x / factor * factor + factor;
    }
  }

  // Byte i of a row is that of the source pixel its place picks.
  ghost predicate Shows(row: seq<byte>, src: seq<byte>, pick: Pick, i: nat) {
    i < |row| && 4 * pick(i / 4) + i % 4 < |src| && row[i] == src[4 * pick(i / 4) + i % 4]
  }

  // The first k pixels are picked from the source row; of the other half, rounded down, are left, all zero.
  ghost predicate IsShortRow(row: seq<byte>, src: seq<byte>, pick: Pick, size: nat, k: nat) {
    && k <= size && |row| == 4 * (k + (size - k) / 2) && BlankFrom(row, k)
    && forall i: nat :: i < 4 * k ==> Shows(row, src, pick, i)
  }

  /**
   A source row that holds only `held` of its pixels fills its share of the output row; of the
   missing output pixels half, rounded down, remain, all zero.
   */
  lemma ShortRowExact(src: seq<byte>, width: nat, size: nat, held: nat)
    requires width > 0 && size > 0 && size % width == 0 && held <= width && |src| == 4 * held
    ensures size / width > 0
    ensures IsShortRow(Replicated(src, Every(size / width), size, size), src, Every(size / width), size,
                       held * (size / width))
  {
    LastSource(width, size);
    var factor := size / width;
    MulOrder(held, width, factor);
    EveryEnds(src, factor, held);
    StagesAre(src, Every(factor), size);
    ShortStages(StagesOf(src, Every(factor), size), src, Every(factor), size, held * factor);
  }

  lemma ShortStages(stages: Stages, src: seq<byte>, pick: Pick, size: nat, k: nat)
    requires AreStages(stages, src, pick, size) && EndsAfter(src, pick, k) && k <= size
    ensures IsShortRow(stages(size), src, pick, size, k)
  {
    StageShort(stages, src, pick, size, k, size);
    StageBlank(stages, src, pick, size, k, k);
    forall i: nat | i < 4 * k
      ensures Shows(stages(size), src, pick, i)
    {
      ShortShows(stages, src, pick, size, k, i);
    }
  }

  lemma ShortShows(stages: Stages, src: seq<byte>, pick: Pick, size: nat, k: nat, i: nat)
    requires AreStages(stages, src, pick, size) && EndsAfter(src, pick, k) && i < 4 * k <= 4 * size
    requires |stages(k)| == 4 * size && 4 * k <= |stages(size)| && stages(size) <= stages(k)
    ensures Shows(stages(size), src, pick, i)
  {
    StageBytes(stages, src, pick, size, k, i / 4, i % 4);
    assert i == 4 * (i / 4) + i % 4;
  }

  /** A one-byte row, as the reader can hand over, comes out of `scale` as a one-byte row. */
  lemma ShortRowScales(b: byte)
    ensures ScaleOutcome(1, 1, [[b]], 1) == Ok([[b]])
  {
    var pick := Every(1);
    assert Replicated([b], pick, 1, 0) == [0, 0, 0, 0];
    assert pick(0) == 0 && Slice([b], 0, 4) == [b];
    assert Replicated([b], pick, 1, 1) == [b];
    assert ReplicateOutcome(1, 1, [[b]], 1).value == [[b]];
  }

  /**
   Over a source that has its bytes, every output byte is the floored mean, over its window, of
   that channel of the source: the total of the window's bytes divided by its area.
   */
  lemma ScaledIsMean(width: nat, height: nat, rows: Rows, size: nat, y: nat, x: nat, c: nat)
    requires width > 0 && height > 0 && Covers(rows, width, height) && y < size && x < size && c < 4
    ensures var r := ScaleOutcome(width, height, rows, size);
      && r.Ok? && IsPicture(r.value, size, size)
      && IsWindowMean(PlaneOf(rows, c), width, height, size, y, x, r.value[y][4 * x + c])
  {
    ScaleIsAverage(width, height, rows, size);
    ScaledByte(width, height, rows, size, y, x, c);
    AverageAtIsMean(PlaneOf(rows, c), width, height, size, y, x);
  }

  // ---- What it means for whole pictures ----

  /** Enlarging a square picture k times and scaling back to its own size changes nothing. */
  lemma EnlargeThenShrink(n: nat, rows: Rows, k: nat)
    requires n > 0 && k > 0 && IsPicture(rows, n, n)
    ensures var large := ScaleOutcome(n, n, rows, k * n);
      large.Ok? && ScaleOutcome(k * n, k * n, large.value, n) == Ok(rows)
  {
    ShrunkBack(n, rows, k);
    ScaleIsAverage(n, n, rows, k * n);
    ScaleIsAverage(k * n, k * n, Scaled(n, n, rows, k * n), n);
  }

  lemma ShrunkBack(n: nat, rows: Rows, k: nat)
    requires n > 0 && k > 0 && IsPicture(rows, n, n)
    ensures k * n > 0 && Scaled(k * n, k * n, Scaled(n, n, rows, k * n), n) == rows
  {
    var big := k * n;
    assert big > 0;
    var large := Scaled(n, n, rows, big);
    var back := Scaled(big, big, large, n);
    forall y | 0 <= y < n
      ensures back[y] == rows[y]
    {
      ShrunkRow(n, rows, k, large, y);
    }
  }

  lemma ShrunkRow(n: nat, rows: Rows, k: nat, large: Rows, y: nat)
    requires n > 0 && k > 0 && k * n > 0 && IsPicture(rows, n, n) && large == Scaled(n, n, rows, k * n) && y < n
    ensures ScaledRow(k * n, k * n, large, n, y) == rows[y]
  {
    forall i | 0 <= i < 4 * n
      ensures AverageAt(PlaneOf(large, i % 4), k * n, k * n, n, y, i / 4) == rows[y][i]
    {
      ShrunkByte(n, rows, k, large, y, i / 4, i % 4);
      assert i == 4 * (i / 4) + i % 4;
    }
  }

  lemma ShrunkByte(n: nat, rows: Rows, k: nat, large: Rows, y: nat, x: nat, c: nat)
    requires n > 0 && k > 0 && k * n > 0 && IsPicture(rows, n, n) && large == Scaled(n, n, rows, k * n)
    requires y < n && x < n && c < 4
    ensures AverageAt(PlaneOf(large, c), k * n, k * n, n, y, x) == rows[y][4 * x + c]
  {
    EnlargedBlock(n, rows, k, large, y, x, c);
    BlockAverage(PlaneOf(rows, c), PlaneOf(large, c), n, k, y, x);
  }

  lemma EnlargedBlock(n: nat, rows: Rows, k: nat, large: Rows, y: nat, x: nat, c: nat)
    requires n > 0 && k > 0 && k * n > 0 && large == Scaled(n, n, rows, k * n) && y < n && x < n && c < 4
    ensures forall y', x' :: y * k <= y' < y * k + k && x * k <= x' < x * k + k ==>
      PlaneOf(large, c)(y', x') == PlaneOf(rows, c)(y, x)
  {
    MultipleDivides(k, n);
    BlockInside(y, k, n);
    BlockInside(x, k, n);
    forall y', x' | y * k <= y' < y * k + k && x * k <= x' < x * k + k
      ensures PlaneOf(large, c)(y', x') == PlaneOf(rows, c)(y, x)
    {
      DivIs(y', k, y);
      DivIs(x', k, x);
      EnlargedPixel(n, rows, k * n, large, y', x', c);
    }
  }

  lemma EnlargedPixel(n: nat, rows: Rows, big: nat, large: Rows, y: nat, x: nat, c: nat)
    requires n > 0 && big > 0 && big % n == 0 && large == Scaled(n, n, rows, big) && y < big && x < big && c < 4
    ensures big / n > 0 && PlaneOf(large, c)(y, x) == PlaneOf(rows, c)(y / (big / n), x / (big / n))
  {
    ReplicationIsAverage(PlaneOf(rows, c), n, n, big, y, x);
    ScaledByte(n, n, rows, big, y, x, c);
  }
}
