/**
 The PNG container (section 5.3 of the PNG specification) as the icon script
 reads and writes it: a signature, then length, kind, payload and CRC per chunk.
 The deflate codec and the CRC function are parameters; the reader ignores CRCs.
 */
module PngFile {
  import opened Bytes
  import opened ScanlineFilter
  import opened ScanlineStream

  const SIGNATURE: seq<byte> := [0x89, 0x50, 0x4E, 0x47, 0x0D, 0x0A, 0x1A, 0x0A]
  const WORD: nat := 0x1_0000_0000

  datatype PngError =
    | NotPng
    | BadStruct
    | Unsupported(depth: byte, colour: byte, interlace: byte)
    | BadStream
    | NoHeader
    | BadScanline(error: ScanlineError)

  // A chunk's four-byte kind; a kind cut short by the end of the file is Other too.
  datatype Kind = IHDR | IDAT | IEND | Other(bytes: seq<byte>)

  function Name(kind: Kind): seq<byte> {
    match kind
    case IHDR => [0x49, 0x48, 0x44, 0x52]
    case IDAT => [0x49, 0x44, 0x41, 0x54]
    case IEND => [0x49, 0x45, 0x4E, 0x44]
    case Other(bytes) => bytes
  }

  function KindOf(name: seq<byte>): (kind: Kind)
    ensures Name(kind) == name
  {
    if name == Name(IHDR) then IHDR
    else if name == Name(IDAT) then IDAT
    else if name == Name(IEND) then IEND
    else Other(name)
  }

  datatype Picture = Picture(width: nat, height: nat, rows: Rows)

  datatype Zlib = Zlib(compress: seq<byte> -> seq<byte>, decompress: seq<byte> -> Option<seq<byte>>) {
    ghost predicate Lossless() {
      forall x :: decompress(compress(x)) == Some(x)
    }
  }

  datatype Size = Size(width: nat, height: nat)

  // What the chunk loop has gathered so far.
  datatype Found = Found(size: Option<Size>, idat: seq<byte>)

  function Be32(n: nat): (b: seq<byte>)
    requires n < WORD
    ensures |b| == 4
  {
    var high := n / 256 / 256;
    [high / 256, high % 256, n / 256 % 256, n % 256]
  }

  function ReadBe32(b: seq<byte>): (n: nat)
    requires |b| == 4
  {
    ((b[0] as int * 256 + b[1]) * 256 + b[2]) * 256 + b[3]
  }

  lemma ReadBe32OfBe32(n: nat)
    requires n < WORD
    ensures ReadBe32(Be32(n)) == n
  {
  }

  function TakeHeader(body: seq<byte>): Result<Size, PngError> {
    if |body| != 13 then Err(BadStruct)
    else if body[8] != 8 || body[9] != 6 || body[12] != 0 then Err(Unsupported(body[8], body[9], body[12]))
    else Ok(Size(ReadBe32(body[0..4]), ReadBe32(body[4..8])))
  }

  datatype Effect = More(found: Found) | Stop | Fail(error: PngError)

  // One chunk: IHDR sets the size, IDAT adds data, IEND ends, the rest is skipped.
  function Take(kind: Kind, body: seq<byte>, found: Found): Effect {
    if kind == IHDR then
      var size := TakeHeader(body);
      if size.Err? then Fail(size.error) else More(found.(size := Some(size.value)))
    else if kind == IDAT then More(found.(idat := found.idat + body))
    else if kind == IEND then Stop
    else More(found)
  }

  // A chunk as the loop cuts it out at `pos`, every slice clipped as Python clips it.
  datatype Piece = Piece(kind: Kind, body: seq<byte>, next: nat)

  function PieceAt(raw: seq<byte>, pos: nat): (p: Option<Piece>)
    ensures p.Some? ==> p.value.next >= pos + 12
  {
    var word := Slice(raw, pos, pos + 4);
    if |word| < 4 then None else
      var length := ReadBe32(word);
      Some(Piece(KindOf(Slice(raw, pos + 4, pos + 8)), Slice(raw, pos + 8, pos + 8 + length), pos + 12 + length))
  }

  // The file as the loop sees it: what it cuts out at each position.
  type Cutter = nat -> Option<Piece>

  ghost predicate Advances(cut: Cutter) {
    forall pos: nat :: cut(pos).Some? ==> cut(pos).value.next > pos
  }

  ghost predicate Cuts(cut: Cutter, raw: seq<byte>) {
    forall pos: nat {:trigger PieceAt(raw, pos)} :: cut(pos) == PieceAt(raw, pos)
  }

  function CutterOf(raw: seq<byte>): (cut: Cutter)
    ensures Advances(cut) && Cuts(cut, raw)
  {
    (pos: nat) => PieceAt(raw, pos)
  }

  // The chunk loop from `pos` over a file of `end` bytes.
  function Scan(cut: Cutter, end: nat, pos: nat, found: Found): Result<Found, PngError>
    requires Advances(cut)
    decreases end - pos
  {
    if pos >= end then Ok(found) else
      match cut(pos)
      case None => Err(BadStruct)
      case Some(piece) =>
        match Take(piece.kind, piece.body, found)
        case More(found') => Scan(cut, end, piece.next, found')
        case Stop => Ok(found)
        case Fail(error) => Err(error)
  }

  function ScanFile(raw: seq<byte>): Result<Found, PngError> {
    Scan(CutterOf(raw), |raw|, 8, Found(None, []))
  }

  method CutPiece(raw: seq<byte>, pos: nat) returns (p: Option<Piece>)
    ensures p == PieceAt(raw, pos)
  {
    var word := Slice(raw, pos, pos + 4);
    if |word| < 4 {
      return None;
    }
    var length := ReadBe32(word);
    var kind := KindOf(Slice(raw, pos + 4, pos + 8));
    var body := Slice(raw, pos + 8, pos + 8 + length);
    return Some(Piece(kind, body, pos + 12 + length));
  }

  /** The reader's chunk loop; it ends because the position grows by at least twelve. */
  method ScanChunks(raw: seq<byte>) returns (r: Result<Found, PngError>)
    ensures r == ScanFile(raw)
  {
    var size: Option<Size> := None;
    var idat: seq<byte> := [];
    var pos: nat := 8;
    while pos < |raw|
      invariant ScanFile(raw) == Scan(CutterOf(raw), |raw|, pos, Found(size, idat))
      decreases |raw| - pos
    {
      var piece := CutPiece(raw, pos);
      if piece.None? {
        return Err(BadStruct);
      }
      var Piece(kind, body, next) := piece.value;
      if kind == IHDR {
        var header := TakeHeader(body);
        if header.Err? {
          return Err(header.error);
        }
        size := Some(header.value);
      } else if kind == IDAT {
        idat := idat + body;
      } else if kind == IEND {
        break;
      }
      pos := next;
    }
    return Ok(Found(size, idat));
  }

  function Read(lines: LineCodec, z: Zlib, raw: seq<byte>): Result<Picture, PngError> {
    if Slice(raw, 0, 8) != SIGNATURE then Err(NotPng)
    else
      var found := ScanFile(raw);
      if found.Err? then Err(found.error) else Assemble(lines, z, found.value)
  }

  // Inflate first, then the size, as the source orders the two failures.
  function Assemble(lines: LineCodec, z: Zlib, found: Found): Result<Picture, PngError> {
    var data := z.decompress(found.idat);
    if data.None? then Err(BadStream)
    else if found.size.None? then Err(NoHeader)
    else
      var size := found.size.value;
      var rows := Decode(lines, data.value, size.height, Zeros(size.width * 4));
      if rows.Err? then Err(BadScanline(rows.error)) else Ok(Picture(size.width, size.height, rows.value))
  }

  /** `read_png`, with the file's bytes as its argument. */
  method ReadPng(ghost lines: LineCodec, z: Zlib, raw: seq<byte>) returns (r: Result<Picture, PngError>)
    requires IsPng(lines)
    ensures r == Read(lines, z, raw)
  {
    if Slice(raw, 0, 8) != SIGNATURE {
      return Err(NotPng);
    }
    var found := ScanChunks(raw);
    if found.Err? {
      return Err(found.error);
    }
    var data := z.decompress(found.value.idat);
    if data.None? {
      return Err(BadStream);
    }
    if found.value.size.None? {
      return Err(NoHeader);
    }
    var Size(width, height) := found.value.size.value;
    var rows := DecodeScanlines(lines, data.value, height, width * 4);
    if rows.Err? {
      return Err(BadScanline(rows.error));
    }
    return Ok(Picture(width, height, rows.value));
  }

  datatype Chunk = Chunk(kind: Kind, payload: seq<byte>, crc: seq<byte>) {
    predicate Valid() {
      |Name(kind)| == 4 && kind == KindOf(Name(kind)) && |payload| < WORD && |crc| == 4
    }
  }

  predicate AllValid(chunks: seq<Chunk>) {
    forall i :: 0 <= i < |chunks| ==> chunks[i].Valid()
  }

  function Layout(c: Chunk): (b: seq<byte>)
    requires c.Valid()
    ensures |b| == 12 + |c.payload|
  {
    Be32(|c.payload|) + Name(c.kind) + c.payload + c.crc
  }

  function LayoutAll(chunks: seq<Chunk>): seq<byte>
    requires AllValid(chunks)
  {
    if chunks == [] then [] else Layout(chunks[0]) + LayoutAll(chunks[1..])
  }

  // What a list of chunks means, with no bytes in sight.
  function Interpret(chunks: seq<Chunk>, found: Found): Result<Found, PngError> {
    if chunks == [] then Ok(found)
    else
      match Take(chunks[0].kind, chunks[0].payload, found)
      case More(found') => Interpret(chunks[1..], found')
      case Stop => Ok(found)
      case Fail(error) => Err(error)
  }

  lemma PrefixSlice(b: seq<byte>, raw: seq<byte>, pos: nat, lo: nat, hi: nat)
    requires pos <= |raw| && b <= raw[pos..] && lo <= hi <= |b|
    ensures Slice(raw, pos + lo, pos + hi) == b[lo..hi]
  {
    assert b == raw[pos..][..|b|];
    assert raw[pos + lo..pos + hi] == b[lo..hi];
  }

  lemma LayoutParts(c: Chunk)
    requires c.Valid()
    ensures var n, b := |c.payload|, Layout(c);
      b[0..4] == Be32(n) && b[4..8] == Name(c.kind) && b[8..8 + n] == c.payload
  {
  }

  // Four bytes that spell n, the most significant first.
  ghost predicate Spells(b: seq<byte>, n: nat) {
    |b| == 4 && n == 0x100_0000 * b[0] as int + 0x1_0000 * b[1] as int + 0x100 * b[2] as int + b[3]
  }

  lemma Be32Spells(n: nat)
    requires n < WORD
    ensures Spells(Be32(n), n)
  {
    assert n / 256 * 256 + n % 256 == n;
    assert n / 256 / 256 * 256 + n / 256 % 256 == n / 256;
  }

  lemma ReadBe32Spells(b: seq<byte>, n: nat)
    requires |b| == 4
    ensures ReadBe32(b) == n <==> Spells(b, n)
  {
  }

  /** A chunk's bytes: the payload's length, most significant byte first, the kind, the payload, the CRC. */
  lemma LayoutIs(c: Chunk)
    requires c.Valid()
    ensures var n, b := |c.payload|, Layout(c);
      && |b| == n + 12 && Spells(b[..4], n) && b[8..8 + n] == c.payload && b[8 + n..] == c.crc
      && (c.kind == IHDR <==> b[4..8] == [73, 72, 68, 82])
      && (c.kind == IDAT <==> b[4..8] == [73, 68, 65, 84])
      && (c.kind == IEND <==> b[4..8] == [73, 69, 78, 68])
  {
    LayoutParts(c);
    Be32Spells(|c.payload|);
    assert Layout(c)[..4] == Layout(c)[0..4];
  }

  lemma LayoutSlices(c: Chunk, raw: seq<byte>, pos: nat)
    requires c.Valid() && pos <= |raw| && Layout(c) <= raw[pos..]
    ensures var n := |c.payload|;
      && Slice(raw, pos, pos + 4) == Be32(n) && Slice(raw, pos + 4, pos + 8) == Name(c.kind)
      && Slice(raw, pos + 8, pos + 8 + n) == c.payload
  {
    var n, b := |c.payload|, Layout(c);
    LayoutParts(c);
    PrefixSlice(b, raw, pos, 0, 4);
    PrefixSlice(b, raw, pos, 4, 8);
    PrefixSlice(b, raw, pos, 8, 8 + n);
  }

  lemma PieceOf(raw: seq<byte>, pos: nat, word: seq<byte>, name: seq<byte>, body: seq<byte>)
    requires Slice(raw, pos, pos + 4) == word && |word| == 4 && Slice(raw, pos + 4, pos + 8) == name
    requires Slice(raw, pos + 8, pos + 8 + ReadBe32(word)) == body
    ensures PieceAt(raw, pos) == Some(Piece(KindOf(name), body, pos + 12 + ReadBe32(word)))
  {
  }

  lemma LayoutPiece(c: Chunk, cut: Cutter, raw: seq<byte>, pos: nat)
    requires Cuts(cut, raw) && c.Valid() && pos <= |raw| && Layout(c) <= raw[pos..]
    ensures pos < |raw| && cut(pos) == Some(Piece(c.kind, c.payload, pos + 12 + |c.payload|))
  {
    ReadBe32OfBe32(|c.payload|);
    LayoutSlices(c, raw, pos);
    PieceOf(raw, pos, Be32(|c.payload|), Name(c.kind), c.payload);
  }

  predicate HasEnd(chunks: seq<Chunk>) {
    exists i :: 0 <= i < |chunks| && chunks[i].kind == IEND
  }

  // Cutting from `pos` on yields these chunks, up to an IEND or the end of the file.
  ghost predicate Yields(chunks: seq<Chunk>, cut: Cutter, end: nat, pos: nat) {
    if chunks == [] then pos == end else
      && pos < end
      && cut(pos) == Some(Piece(chunks[0].kind, chunks[0].payload, pos + 12 + |chunks[0].payload|))
      && (chunks[0].kind == IEND || Yields(chunks[1..], cut, end, pos + 12 + |chunks[0].payload|))
  }

  lemma LayoutAllFirst(chunks: seq<Chunk>, raw: seq<byte>, pos: nat, tail: seq<byte>)
    requires AllValid(chunks) && chunks != [] && pos <= |raw| && raw[pos..] == LayoutAll(chunks) + tail
    ensures var n := 12 + |chunks[0].payload|;
      && pos + n <= |raw| && Layout(chunks[0]) <= raw[pos..] && raw[pos + n..] == LayoutAll(chunks[1..]) + tail
  {
    CutFront(raw, pos, Layout(chunks[0]), LayoutAll(chunks[1..]), tail);
  }

  lemma HasEndRest(chunks: seq<Chunk>)
    requires chunks != [] && chunks[0].kind != IEND && HasEnd(chunks)
    ensures HasEnd(chunks[1..])
  {
    var i :| 0 <= i < |chunks| && chunks[i].kind == IEND;
    assert chunks[1..][i - 1].kind == IEND;
  }

  lemma {:induction false} LayoutYields(chunks: seq<Chunk>, cut: Cutter, raw: seq<byte>, pos: nat, tail: seq<byte>)
    requires Cuts(cut, raw) && AllValid(chunks) && pos <= |raw| && raw[pos..] == LayoutAll(chunks) + tail
    requires tail == [] || HasEnd(chunks)
    ensures Yields(chunks, cut, |raw|, pos)
    decreases |chunks|
  {
    if chunks != [] {
      LayoutAllFirst(chunks, raw, pos, tail);
      LayoutPiece(chunks[0], cut, raw, pos);
      if chunks[0].kind != IEND {
        if HasEnd(chunks) {
          HasEndRest(chunks);
        }
        LayoutYields(chunks[1..], cut, raw, pos + 12 + |chunks[0].payload|, tail);
      }
    }
  }

  /** Reading laid-out chunks means exactly what the list of chunks means. */
  lemma {:induction false} ScanYields(chunks: seq<Chunk>, cut: Cutter, end: nat, pos: nat, found: Found)
    requires Advances(cut) && Yields(chunks, cut, end, pos)
    ensures Scan(cut, end, pos, found) == Interpret(chunks, found)
    decreases |chunks|
  {
    if chunks != [] {
      var effect := Take(chunks[0].kind, chunks[0].payload, found);
      if effect.More? {
        ScanYields(chunks[1..], cut, end, pos + 12 + |chunks[0].payload|, effect.found);
      }
    }
  }

  // What reading means once the chunks are known.
  function ReadChunks(lines: LineCodec, z: Zlib, chunks: seq<Chunk>): Result<Picture, PngError> {
    var found := Interpret(chunks, Found(None, []));
    if found.Err? then Err(found.error) else Assemble(lines, z, found.value)
  }

  lemma ReadLayout(lines: LineCodec, z: Zlib, chunks: seq<Chunk>, tail: seq<byte>)
    requires AllValid(chunks) && (tail == [] || HasEnd(chunks))
    ensures Read(lines, z, SIGNATURE + LayoutAll(chunks) + tail) == ReadChunks(lines, z, chunks)
  {
    var raw := SIGNATURE + LayoutAll(chunks) + tail;
    assert raw == SIGNATURE + (LayoutAll(chunks) + tail);
    assert raw[8..] == LayoutAll(chunks) + tail && raw[0..8] == SIGNATURE;
    LayoutYields(chunks, CutterOf(raw), raw, 8, tail);
    ScanYields(chunks, CutterOf(raw), |raw|, 8, Found(None, []));
  }

  // Neither a header nor an end: IDAT chunks and chunks the reader does not know.
  predicate IsBody(chunks: seq<Chunk>) {
    forall i :: 0 <= i < |chunks| ==> chunks[i].kind != IHDR && chunks[i].kind != IEND
  }

  function DataOf(c: Chunk): seq<byte> {
    if c.kind == IDAT then c.payload else []
  }

  function IdatOf(chunks: seq<Chunk>): seq<byte> {
    if chunks == [] then [] else DataOf(chunks[0]) + IdatOf(chunks[1..])
  }

  lemma TakeBody(c: Chunk, found: Found)
    requires c.kind != IHDR && c.kind != IEND
    ensures Take(c.kind, c.payload, found) == More(Found(found.size, found.idat + DataOf(c)))
  {
    assert found.idat + [] == found.idat;
  }

  lemma {:induction false} InterpretBody(body: seq<Chunk>, end: Chunk, found: Found)
    requires IsBody(body) && end.kind == IEND
    ensures Interpret(body + [end], found) == Ok(Found(found.size, found.idat + IdatOf(body)))
  {
    if body == [] {
      assert body + [end] == [end] && found.idat + [] == found.idat;
    } else {
      TakeBody(body[0], found);
      assert (body + [end])[1..] == body[1..] + [end];
      InterpretBody(body[1..], end, Found(found.size, found.idat + DataOf(body[0])));
      Associate(found.idat, DataOf(body[0]), IdatOf(body[1..]));
    }
  }

  lemma InterpretFile(size: Size, header: Chunk, body: seq<Chunk>, end: Chunk)
    requires header.kind == IHDR && TakeHeader(header.payload) == Ok(size) && IsBody(body) && end.kind == IEND
    ensures Interpret([header] + body + [end], Found(None, [])) == Ok(Found(Some(size), IdatOf(body)))
  {
    var chunks := [header] + body + [end];
    assert chunks[0] == header && chunks[1..] == body + [end];
    InterpretBody(body, end, Found(Some(size), []));
    assert [] + IdatOf(body) == IdatOf(body);
  }

  // An IHDR chunk the reader accepts; the two method bytes are not looked at.
  function HeaderChunk(size: Size, methods: seq<byte>, crc: seq<byte>): (c: Chunk)
    requires size.width < WORD && size.height < WORD && |methods| == 2 && |crc| == 4
    ensures c.Valid()
  {
    Chunk(IHDR, Be32(size.width) + Be32(size.height) + [8, 6] + methods + [0], crc)
  }

  lemma TakeHeaderChunk(size: Size, methods: seq<byte>, crc: seq<byte>)
    requires size.width < WORD && size.height < WORD && |methods| == 2 && |crc| == 4
    ensures TakeHeader(HeaderChunk(size, methods, crc).payload) == Ok(size)
  {
    var body := HeaderChunk(size, methods, crc).payload;
    assert body[0..4] == Be32(size.width) && body[4..8] == Be32(size.height);
    ReadBe32OfBe32(size.width);
    ReadBe32OfBe32(size.height);
  }

  /** The header check accepts exactly the 8-bit RGBA non-interlaced headers, each as its own size. */
  lemma HeaderExact(body: seq<byte>, size: Size)
    ensures TakeHeader(body) == Ok(size) <==>
      && |body| == 13 && Spells(body[0..4], size.width) && Spells(body[4..8], size.height)
      && body[8] == 8 && body[9] == 6 && body[12] == 0
  {
    if |body| == 13 {
      ReadBe32Spells(body[0..4], size.width);
      ReadBe32Spells(body[4..8], size.height);
    }
  }

  /**
   A file with a header, any body and an end reads as its joined IDAT data: the split
   over chunks, unknown chunks, CRC bytes and whatever follows IEND make no difference.
   */
  lemma ReadDependsOnIdat(lines: LineCodec, z: Zlib, size: Size, header: Chunk, body: seq<Chunk>, end: Chunk,
                          tail: seq<byte>)
    requires header.kind == IHDR && TakeHeader(header.payload) == Ok(size)
    requires IsBody(body) && end.kind == IEND && AllValid([header] + body + [end])
    ensures Read(lines, z, SIGNATURE + LayoutAll([header] + body + [end]) + tail)
      == Assemble(lines, z, Found(Some(size), IdatOf(body)))
  {
    var chunks := [header] + body + [end];
    assert chunks[|chunks| - 1].kind == IEND;
    ReadLayout(lines, z, chunks, tail);
    InterpretFile(size, header, body, end);
  }

  /** Any picture, filtered line by line in any way and split in any way, reads back as itself. */
  lemma ReadFiltered(lines: LineCodec, z: Zlib, picture: Picture, filterTypes: seq<byte>, extra: seq<byte>,
                     header: Chunk, body: seq<Chunk>, end: Chunk, tail: seq<byte>)
    requires lines.UndoesApply()
    requires |filterTypes| == |picture.rows| == picture.height && AllKnown(filterTypes)
    requires Whole(picture.rows, picture.width * 4)
    requires header.kind == IHDR && TakeHeader(header.payload) == Ok(Size(picture.width, picture.height))
    requires IsBody(body) && end.kind == IEND && AllValid([header] + body + [end])
    requires z.decompress(IdatOf(body))
      == Some(FilterAll(lines, filterTypes, picture.rows, Zeros(picture.width * 4)) + extra)
    ensures Read(lines, z, SIGNATURE + LayoutAll([header] + body + [end]) + tail) == Ok(picture)
  {
    ReadDependsOnIdat(lines, z, Size(picture.width, picture.height), header, body, end, tail);
    DecodeFilterAll(lines, filterTypes, picture.rows, Zeros(picture.width * 4), extra);
  }

  // One unfiltered scanline per row.
  function Unfiltered(rows: Rows): seq<byte> {
    if rows == [] then [] else [0] + rows[0] + Unfiltered(rows[1..])
  }

  lemma {:induction false} UnfilteredSnoc(rows: Rows, row: seq<byte>)
    ensures Unfiltered(rows + [row]) == Unfiltered(rows) + [0] + row
  {
    if rows == [] {
      assert rows + [row] == [row];
    } else {
      assert (rows + [row])[1..] == rows[1..] + [row];
      UnfilteredSnoc(rows[1..], row);
    }
  }

  lemma FilterNone(line: seq<byte>, previous: seq<byte>)
    requires |line| <= |previous|
    ensures Filter(0, line, previous) == line
  {
  }

  lemma {:induction false} UnfilteredIsFilterNone(lines: LineCodec, rows: Rows, previous: seq<byte>)
    requires IsPng(lines) && Whole(rows, |previous|)
    ensures Unfiltered(rows) == FilterAll(lines, Zeros(|rows|), rows, previous)
  {
    if rows != [] {
      FilterNone(rows[0], previous);
      assert Zeros(|rows|)[1..] == Zeros(|rows[1..]|);
      UnfilteredIsFilterNone(lines, rows[1..], rows[0]);
    }
  }

  datatype Checksum = Checksum(crc32: seq<byte> -> nat)

  function MakeChunk(sum: Checksum, kind: Kind, payload: seq<byte>): (c: Chunk)
    requires !kind.Other? && |payload| < WORD
    ensures c.Valid() && c.kind == kind && c.payload == payload
  {
    Chunk(kind, payload, Be32(sum.crc32(Name(kind) + payload) % WORD))
  }

  // The chunks `write_png` lays out, or the struct error of a number that does not fit.
  function Chunks(z: Zlib, sum: Checksum, picture: Picture): (r: Result<seq<Chunk>, PngError>)
    ensures r.Ok? ==> AllValid(r.value)
  {
    var data := z.compress(Unfiltered(picture.rows));
    if picture.width >= WORD || picture.height >= WORD || |data| >= WORD then Err(BadStruct)
    else Ok([MakeChunk(sum, IHDR, Be32(picture.width) + Be32(picture.height) + [8, 6, 0, 0, 0]),
             MakeChunk(sum, IDAT, data), MakeChunk(sum, IEND, [])])
  }

  method LayChunk(sum: Checksum, kind: Kind, payload: seq<byte>) returns (b: seq<byte>)
    requires !kind.Other? && |payload| < WORD
    ensures b == Layout(MakeChunk(sum, kind, payload))
  {
    b := Be32(|payload|) + Name(kind) + payload + Be32(sum.crc32(Name(kind) + payload) % WORD);
  }

  /** `write_png`, returning the file's bytes. */
  method WritePng(z: Zlib, sum: Checksum, picture: Picture) returns (r: Result<seq<byte>, PngError>)
    ensures r == match Chunks(z, sum, picture)
      case Ok(chunks) => Ok(SIGNATURE + LayoutAll(chunks))
      case Err(error) => Err(error)
  {
    var body: seq<byte> := [];
    for y := 0 to |picture.rows|
      invariant body == Unfiltered(picture.rows[..y])
    {
      UnfilteredSnoc(picture.rows[..y], picture.rows[y]);
      assert picture.rows[..y + 1] == picture.rows[..y] + [picture.rows[y]];
      body := body + [0];
      body := body + picture.rows[y];
    }
    assert picture.rows[..|picture.rows|] == picture.rows;
    var data := z.compress(body);
    if picture.width >= WORD || picture.height >= WORD || |data| >= WORD {
      return Err(BadStruct);
    }
    var header := LayChunk(sum, IHDR, Be32(picture.width) + Be32(picture.height) + [8, 6, 0, 0, 0]);
    var stream := LayChunk(sum, IDAT, data);
    var end := LayChunk(sum, IEND, []);
    LayoutThree(Chunks(z, sum, picture).value);
    return Ok(SIGNATURE + header + stream + end);
  }

  lemma LayoutThree(chunks: seq<Chunk>)
    requires |chunks| == 3 && AllValid(chunks)
    ensures SIGNATURE + LayoutAll(chunks) == SIGNATURE + Layout(chunks[0]) + Layout(chunks[1]) + Layout(chunks[2])
  {
    assert LayoutAll(chunks[1..][1..]) == Layout(chunks[2]) + [];
    assert LayoutAll(chunks[1..]) == Layout(chunks[1]) + LayoutAll(chunks[1..][1..]);
  }

  // A chunk found at `at`, by its bytes: length, kind, payload, and the checksum of kind and payload.
  ghost predicate HasChunk(raw: seq<byte>, at: nat, sum: Checksum, name: seq<byte>, payload: seq<byte>) {
    && at + 12 + |payload| <= |raw|
    && Spells(raw[at + 8 + |payload|..at + 12 + |payload|], sum.crc32(name + payload) % 0x1_0000_0000)
    && Spells(raw[at..at + 4], |payload|) && raw[at + 4..at + 8] == name
    && raw[at + 8..at + 8 + |payload|] == payload
  }

  lemma LaidAt(raw: seq<byte>, front: seq<byte>, sum: Checksum, c: Chunk, back: seq<byte>)
    requires !c.kind.Other? && |c.payload| < WORD && c == MakeChunk(sum, c.kind, c.payload)
    requires raw == front + Layout(c) + back
    ensures HasChunk(raw, |front|, sum, Name(c.kind), c.payload)
  {
    var n, at, b := |c.payload|, |front|, Layout(c);
    Be32Spells(sum.crc32(Name(c.kind) + c.payload) % WORD);
    LayoutIs(c);
    LayoutParts(c);
    assert raw[at..at + |b|] == b;
    assert raw[at + 8 + n..at + 12 + n] == b[8 + n..];
    assert raw[at..at + 4] == b[..4] && raw[at + 4..at + 8] == b[4..8] && raw[at + 8..at + 8 + n] == b[8..8 + n];
  }

  // The thirteen bytes of the header the script writes.
  ghost predicate IsHeader(b: seq<byte>, width: nat, height: nat) {
    |b| == 13 && Spells(b[0..4], width) && Spells(b[4..8], height) && b[8..13] == [8, 6, 0, 0, 0]
  }

  lemma HeaderIs(width: nat, height: nat)
    requires width < WORD && height < WORD
    ensures IsHeader(Be32(width) + Be32(height) + [8, 6, 0, 0, 0], width, height)
  {
    var b := Be32(width) + Be32(height) + [8, 6, 0, 0, 0];
    Be32Spells(width);
    Be32Spells(height);
    assert b[0..4] == Be32(width) && b[4..8] == Be32(height);
  }

  // A whole file, by its bytes: the signature, then IHDR, IDAT and IEND one after the other.
  ghost predicate IsFile(raw: seq<byte>, sum: Checksum, width: nat, height: nat, data: seq<byte>) {
    && |raw| == 57 + |data| && raw[..8] == [137, 80, 78, 71, 13, 10, 26, 10]
    && IsHeader(raw[16..29], width, height) && HasChunk(raw, 8, sum, [73, 72, 68, 82], raw[16..29])
    && HasChunk(raw, 33, sum, [73, 68, 65, 84], data) && HasChunk(raw, 45 + |data|, sum, [73, 69, 78, 68], [])
  }

  lemma FileOfThree(sum: Checksum, header: seq<byte>, data: seq<byte>, width: nat, height: nat, chunks: seq<Chunk>)
    requires IsHeader(header, width, height) && |data| < WORD
    requires chunks == [MakeChunk(sum, IHDR, header), MakeChunk(sum, IDAT, data), MakeChunk(sum, IEND, [])]
    ensures IsFile(SIGNATURE + LayoutAll(chunks), sum, width, height, data)
  {
    var raw, a, b, c := SIGNATURE + LayoutAll(chunks), Layout(chunks[0]), Layout(chunks[1]), Layout(chunks[2]);
    LayoutThree(chunks);
    assert raw == SIGNATURE + a + (b + c);
    assert raw == SIGNATURE + a + b + c + [];
    LaidAt(raw, SIGNATURE, sum, chunks[0], b + c);
    LaidAt(raw, SIGNATURE + a, sum, chunks[1], c);
    LaidAt(raw, SIGNATURE + a + b, sum, chunks[2], []);
    assert raw[16..29] == header;
  }

  /** What `write_png` writes, byte for byte. */
  lemma WrittenFile(z: Zlib, sum: Checksum, picture: Picture)
    requires Chunks(z, sum, picture).Ok?
    ensures IsFile(SIGNATURE + LayoutAll(Chunks(z, sum, picture).value), sum, picture.width, picture.height,
                   z.compress(Unfiltered(picture.rows)))
  {
    var header := Be32(picture.width) + Be32(picture.height) + [8, 6, 0, 0, 0];
    HeaderIs(picture.width, picture.height);
    FileOfThree(sum, header, z.compress(Unfiltered(picture.rows)), picture.width, picture.height,
                Chunks(z, sum, picture).value);
  }

  /** `read_png` of what `write_png` wrote is the picture that was written. */
  lemma ReadWrite(lines: LineCodec, z: Zlib, sum: Checksum, picture: Picture)
    requires IsPng(lines) && z.Lossless() && |picture.rows| == picture.height && Whole(picture.rows, picture.width * 4)
    requires Chunks(z, sum, picture).Ok?
    ensures Read(lines, z, SIGNATURE + LayoutAll(Chunks(z, sum, picture).value)) == Ok(picture)
  {
    var chunks, size := Chunks(z, sum, picture).value, Size(picture.width, picture.height);
    var data := z.compress(Unfiltered(picture.rows));
    assert Be32(size.width) + Be32(size.height) + [8, 6] + [0, 0] + [0]
      == Be32(size.width) + Be32(size.height) + [8, 6, 0, 0, 0];
    TakeHeaderChunk(size, [0, 0], chunks[0].crc);
    PngLinesLawful(lines);
    assert chunks == [chunks[0]] + [chunks[1]] + [chunks[2]];
    UnfilteredIsFilterNone(lines, picture.rows, Zeros(picture.width * 4));
    assert IdatOf([chunks[1]]) == data by { assert [chunks[1]][1..] == [] && data + [] == data; }
    assert Unfiltered(picture.rows) + [] == Unfiltered(picture.rows);
    ReadFiltered(lines, z, picture, Zeros(picture.height), [], chunks[0], [chunks[1]], chunks[2], []);
    assert SIGNATURE + LayoutAll(chunks) + [] == SIGNATURE + LayoutAll(chunks);
  }

  /** The same, with the five filters of the source as the codec of lines. */
  lemma PngReadWrite(z: Zlib, sum: Checksum, picture: Picture)
    requires z.Lossless() && |picture.rows| == picture.height && Whole(picture.rows, picture.width * 4)
    requires Chunks(z, sum, picture).Ok?
    ensures Read(PngLines(), z, SIGNATURE + LayoutAll(Chunks(z, sum, picture).value)) == Ok(picture)
  {
    ReadWrite(PngLines(), z, sum, picture);
  }
}
