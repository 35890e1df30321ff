/** The PNG writer: filter-0 scanlines streamed into stored blocks, headers patched in place. */
module Png {
  import opened Words
  import Adler
  import Crc
  import opened Zlib

  const CANVAS_MAX_DIM := 32767
  const PNG_RAW_CAP := 64 * 1024 * 1024

  // ----- dimensions

  function Clamp(x: word): word {
    if x < 1 then 1 else if x > CANVAS_MAX_DIM then CANVAS_MAX_DIM else x
  }

  function PngDims(w: word, h: word): (r: (word, word))
    ensures 1 <= r.0 <= CANVAS_MAX_DIM && 1 <= r.1 <= CANVAS_MAX_DIM
    ensures (1 + 4 * r.0) * r.1 <= PNG_RAW_CAP
  {
    var cw: int, ch: int := Clamp(w), Clamp(h);
    if cw * ch * 4 + ch > PNG_RAW_CAP then (1, 1) else
      assert (1 + 4 * cw) * ch == cw * ch * 4 + ch;
      (cw, ch)
  }

  /** `c` is the dimension in range that is nearest to `x`. */
  ghost predicate Nearest(x: word, c: int) {
    1 <= c <= CANVAS_MAX_DIM && (c == x || (x < 1 && c == 1) || (x > CANVAS_MAX_DIM && c == CANVAS_MAX_DIM))
  }

  /** Each dimension becomes the nearest in range; if the image is then too large, it is one pixel. */
  lemma DimsAre(w: word, h: word, cw: word, ch: word)
    requires Nearest(w, cw) && Nearest(h, ch)
    ensures PngDims(w, h) == if (1 + 4 * cw) * ch <= PNG_RAW_CAP then (cw, ch) else (1, 1)
  {
    assert (1 + 4 * cw) * ch == cw * ch * 4 + ch;
  }

  // ----- the scanlines

  /** Byte `k` of the image: whole pixels of the input, then zeros. */
  function PixelByte(pixels: seq<byte>, k: nat): byte {
    if k < |pixels| - |pixels| % 4 then pixels[k] else 0
  }

  function Row(width: nat, pixels: seq<byte>, y: nat): (s: seq<byte>)
    ensures |s| == 4 * width
  {
    seq<byte>(4 * width, i requires 0 <= i < 4 * width => PixelByte(pixels, y * (4 * width) + i))
  }

  /** Rows `0..height`, each behind a filter byte 0. */
  function Scanlines(width: nat, height: nat, pixels: seq<byte>): (s: seq<byte>) {
    if height == 0 then [] else Scanlines(width, height - 1, pixels) + ([0] + Row(width, pixels, height - 1))
  }

  lemma {:induction false} ScanlinesLength(width: nat, height: nat, pixels: seq<byte>)
    ensures |Scanlines(width, height, pixels)| == (1 + 4 * width) * height
  {
    if height > 0 {
      ScanlinesLength(width, height - 1, pixels);
    }
  }

  lemma InRow(a: nat, y: nat, height: nat, i: nat)
    requires y < height && i < a
    ensures 0 <= a * y <= a * y + i < a * height
  {
    assert a * y + a == a * (y + 1) <= a * height;
  }

  /** Reading the scanlines back: a zero filter byte before each row, pixel bytes after it. */
  lemma {:induction false} ScanlineByte(width: nat, height: nat, pixels: seq<byte>, y: nat, i: nat)
    requires y < height && i <= 4 * width
    ensures (1 + 4 * width) * y + i < |Scanlines(width, height, pixels)|
    ensures Scanlines(width, height, pixels)[(1 + 4 * width) * y + i]
         == if i == 0 then 0 else PixelByte(pixels, y * (4 * width) + (i - 1))
  {
    ScanlinesLength(width, height, pixels);
    ScanlinesLength(width, height - 1, pixels);
    InRow(1 + 4 * width, y, height, i);
    if y < height - 1 {
      InRow(1 + 4 * width, y, height - 1, i);
      ScanlineByte(width, height - 1, pixels, y, i);
    }
  }

  /** The slice of `pixels` that row `y` takes, and the padding it needs, make up the row. */
  lemma RowIsSlice(width: nat, pixels: seq<byte>, y: nat, src: nat, take: nat)
    requires src == if y * (4 * width) < |pixels| then y * (4 * width) else |pixels|
    requires var room := if |pixels| - src < 4 * width then |pixels| - src else 4 * width; take == room - room % 4
    ensures src + take <= |pixels| && take <= 4 * width
    ensures Row(width, pixels, y) == pixels[src..src + take] + Zeros(4 * width - take)
  {
    var at := y * (4 * width);
    MultipleOfFour(y, width);
    var sliced := pixels[src..src + take] + Zeros(4 * width - take);
    forall i: nat | i < 4 * width
      ensures Row(width, pixels, y)[i] == sliced[i]
    {
      if at < |pixels| {
        WholePixels(|pixels|, at, width, take, i);
      }
    }
    assert Row(width, pixels, y) == sliced;
  }

  lemma MultipleOfFour(y: nat, width: nat)
    ensures y * (4 * width) % 4 == 0
  {
    assert y * (4 * width) == 4 * (y * width);
  }

  lemma WholePixels(n: nat, at: nat, width: nat, take: nat, i: nat)
    requires at < n && at % 4 == 0 && i < 4 * width
    requires var room := if n - at < 4 * width then n - at else 4 * width; take == room - room % 4
    ensures i < take <==> at + i < n - n % 4
  {
    if n - at < 4 * width {
      assert (n - at) % 4 == n % 4;
    }
  }

  // ----- chunks

  function CrcField(data: seq<byte>): (s: seq<byte>)
    ensures |s| == 4
  {
    Crc.Field(Crc.Update(0xFFFF_FFFF, data))
  }

  datatype Chunk = Chunk(tag: seq<byte>, data: seq<byte>, rest: seq<byte>)

  /** The check of a CRC field: type and data and then the field, its bytes the other way round, run the register into
      the residue. */
  predicate FieldFits(data: seq<byte>, field: seq<byte>)
    requires |field| == 4
  {
    Crc.Update(0xFFFF_FFFF, data + Crc.Flipped(field)) == Crc.RESIDUE
  }

  /** One chunk: length, type, data, CRC (section 3.2 of RFC 2083). */
  function ReadChunk(s: seq<byte>): Option<Chunk> {
    if |s| < 12 then None else
      var len := FromBe32(s[..4]);
      if |s| < 12 + len || !FieldFits(s[4..8 + len], s[8 + len..12 + len]) then None
      else Some(Chunk(s[4..8], s[8..8 + len], s[12 + len..]))
  }

  function WriteChunk(tag: seq<byte>, data: seq<byte>): seq<byte>
    requires |data| < 0x1_0000_0000
  {
    Be32(|data|) + tag + data + CrcField(tag + data)
  }

  lemma FieldFitsData(data: seq<byte>)
    ensures FieldFits(data, CrcField(data))
  {
    hide Crc.Update, Crc.Field, Crc.Flipped;
    Crc.FieldChecks(0xFFFF_FFFF, data);
  }

  lemma ChunkRoundTrip(tag: seq<byte>, data: seq<byte>, rest: seq<byte>)
    requires |tag| == 4 && |data| < 0x1_0000_0000
    ensures ReadChunk(WriteChunk(tag, data) + rest) == Some(Chunk(tag, data, rest))
  {
    FieldFitsData(tag + data);
    hide CrcField, FieldFits, Be32, FromBe32;
    var s, n := WriteChunk(tag, data) + rest, |data|;
    Be32RoundTrip(n);
    assert s[..4] == Be32(n) && s[4..8] == tag && s[8..8 + n] == data;
    assert s[4..8 + n] == tag + data;
    assert s[8 + n..12 + n] == CrcField(tag + data) && s[12 + n..] == rest;
  }

  const SIGNATURE: seq<byte> := [0x89, 0x50, 0x4E, 0x47, 0x0D, 0x0A, 0x1A, 0x0A]
  const IHDR: seq<byte> := [0x49, 0x48, 0x44, 0x52]
  const IDAT: seq<byte> := [0x49, 0x44, 0x41, 0x54]
  const IEND: seq<byte> := [0x49, 0x45, 0x4E, 0x44]

  /** The signature and the chunk types of sections 3.1 and 4.1 of RFC 2083. */
  lemma Names()
    ensures SIGNATURE == [137] + Ascii("PNG") + [13, 10, 26, 10]
    ensures IHDR == Ascii("IHDR") && IDAT == Ascii("IDAT") && IEND == Ascii("IEND")
  {
  }

  datatype Image = Image(width: word, height: word, raw: seq<byte>)

  /** Eight bits a channel, RGBA, no interlace. */
  function HeaderData(width: word, height: word): (s: seq<byte>)
    ensures |s| == 13
  {
    Be32(width) + Be32(height) + [8, 6, 0, 0, 0]
  }

  function DecodeHeader(png: seq<byte>): Option<Chunk> {
    if |png| < 8 || png[..8] != SIGNATURE then None else
      var c := ReadChunk(png[8..]);
      if c == None || c.value.tag != IHDR || |c.value.data| != 13 || c.value.data[8..] != [8, 6, 0, 0, 0] then None
      else c
  }

  function DecodeData(s: seq<byte>): Option<seq<byte>> {
    var idat := ReadChunk(s);
    if idat == None || idat.value.tag != IDAT then None else
      var raw := Unzlib(idat.value.data);
      if raw == None || ReadChunk(idat.value.rest) != Some(Chunk(IEND, [], [])) then None else raw
  }

  /** A reader of the RGBA files that have one data chunk. */
  function Decode(png: seq<byte>): Option<Image> {
    var header := DecodeHeader(png);
    if header == None then None else
      var raw := DecodeData(header.value.rest);
      if raw == None then None else
        Some(Image(FromBe32(header.value.data[..4]), FromBe32(header.value.data[4..8]), raw.value))
  }

  // ----- what the writer emits

  /** The zlib stream of `raw`. */
  function Stream(raw: seq<byte>): seq<byte> {
    [0x78, 0x01] + Stored(raw) + Be32(Adler.Checksum(1, raw))
  }

  /** The length the writer declares before it has written anything. */
  function DeclaredLength(rawLen: nat): nat {
    2 + rawLen + (rawLen + FULL - 1) / FULL * 5 + 4
  }

  /** The declaration is right exactly when the data does not end on a block boundary; otherwise it is short by 5. */
  lemma DeclaredLengthOff(raw: seq<byte>, body: seq<byte>, sum: seq<byte>)
    requires raw != [] && body == Stored(raw) && |sum| == 4
    ensures 2 + |body| + |sum| == DeclaredLength(|raw|) + (if |raw| % FULL == 0 then 5 else 0)
  {
    var n := |raw|;
    var k, r := n / FULL, n % FULL;
    StoredLength(raw, k, r);
    hide Stored;
    CeilDiv(n, k, r);
  }

  lemma StreamLength(raw: seq<byte>)
    requires raw != []
    ensures |Stream(raw)| == DeclaredLength(|raw|) + (if |raw| % FULL == 0 then 5 else 0)
  {
    hide Stored, DeclaredLength, Be32, Adler.Checksum;
    DeclaredLengthOff(raw, Stored(raw), Be32(Adler.Checksum(1, raw)));
  }

  lemma CeilDiv(n: nat, k: nat, r: nat)
    requires n == FULL * k + r && r < FULL
    ensures (n + FULL - 1) / FULL == if r == 0 then k else k + 1
  {
    if r == 0 {
      assert n + FULL - 1 == FULL * k + (FULL - 1);
    } else {
      assert n + FULL - 1 == FULL * (k + 1) + (r - 1);
    }
  }

  lemma StreamUnzips(raw: seq<byte>, z: seq<byte>)
    requires z == Stream(raw)
    ensures Unzlib(z) == Some(raw)
  {
    hide Inflate, Stored, Be32, Adler.Checksum;
    var sum := Be32(Adler.Checksum(1, raw));
    StoredInflates(raw, sum);
    assert z[2..] == Stored(raw) + sum;
  }

  /** Without its last five bytes the stream ends inside the header of its empty final block. */
  lemma CutIs(raw: seq<byte>, z: seq<byte>, full: seq<byte>)
    requires |raw| % FULL == 0 && full == Stream(raw) && |z| + 5 == |full| && z == full[..|z|]
    ensures z == [0x78, 0x01] + (Full(raw) + Header(true, 0)[..4])
  {
    hide Full, Stored, Be32, Adler.Checksum, Header;
    StoredIs(raw, []);
    assert raw + [] == raw && Header(true, 0) + [] == Header(true, 0);
  }

  /** And that decodes to nothing. */
  lemma CutStream(raw: seq<byte>, z: seq<byte>)
    requires |raw| % FULL == 0 && z == [0x78, 0x01] + (Full(raw) + Header(true, 0)[..4])
    ensures Unzlib(z) == None
  {
    hide Inflate, Full, Be32, Adler.Checksum;
    assert z[2..] == Full(raw) + Header(true, 0)[..4];
    CutInflatesToNothing(raw, 4);
  }

  function PngFile(width: word, height: word, raw: seq<byte>): seq<byte>
    requires DeclaredLength(|raw|) < 0x1_0000_0000
  {
    SIGNATURE + WriteChunk(IHDR, HeaderData(width, height))
    + (Be32(DeclaredLength(|raw|)) + IDAT + Stream(raw) + CrcField(IDAT + Stream(raw)) + WriteChunk(IEND, []))
  }

  lemma HeaderReads(width: word, height: word, rest: seq<byte>)
    ensures DecodeHeader(SIGNATURE + WriteChunk(IHDR, HeaderData(width, height)) + rest)
         == Some(Chunk(IHDR, HeaderData(width, height), rest))
    ensures FromBe32(HeaderData(width, height)[..4]) == width && FromBe32(HeaderData(width, height)[4..8]) == height
  {
    hide ReadChunk, WriteChunk, Be32, FromBe32;
    var data := HeaderData(width, height);
    var png := SIGNATURE + WriteChunk(IHDR, data) + rest;
    assert png[..8] == SIGNATURE && png[8..] == WriteChunk(IHDR, data) + rest;
    ChunkRoundTrip(IHDR, data, rest);
    assert data[..4] == Be32(width) && data[4..8] == Be32(height) && data[8..] == [8, 6, 0, 0, 0];
    Be32RoundTrip(width);
    Be32RoundTrip(height);
  }

  /** A reader recovers the dimensions and the scanlines exactly when the data does not end on a block boundary. */
  lemma FileDecodes(width: word, height: word, raw: seq<byte>)
    requires raw != [] && DeclaredLength(|raw|) < 0x1_0000_0000
    ensures Decode(PngFile(width, height, raw))
         == if |raw| % FULL == 0 then None else Some(Image(width, height, raw))
  {
    hide DecodeHeader, DecodeData, WriteChunk, CrcField, Stream, DeclaredLength, HeaderData, FromBe32, Be32;
    var rest := Be32(DeclaredLength(|raw|)) + IDAT + Stream(raw) + CrcField(IDAT + Stream(raw)) + WriteChunk(IEND, []);
    HeaderReads(width, height, rest);
    DataReads(raw);
  }

  lemma DataReads(raw: seq<byte>)
    requires raw != [] && DeclaredLength(|raw|) < 0x1_0000_0000
    ensures DecodeData(Be32(DeclaredLength(|raw|)) + IDAT + Stream(raw) + CrcField(IDAT + Stream(raw)) + WriteChunk(IEND, []))
         == if |raw| % FULL == 0 then None else Some(raw)
  {
    hide ReadChunk, CrcField, Stream, DeclaredLength, Unzlib, Be32;
    var z := Stream(raw);
    StreamLength(raw);
    var s := Be32(DeclaredLength(|raw|)) + IDAT + z + CrcField(IDAT + z) + WriteChunk(IEND, []);
    if |raw| % FULL == 0 {
      DeclaredData(DeclaredLength(|raw|), z, CrcField(IDAT + z) + WriteChunk(IEND, []));
      assert s == Be32(DeclaredLength(|raw|)) + IDAT + z + (CrcField(IDAT + z) + WriteChunk(IEND, []));
      CutIs(raw, z[..|z| - 5], z);
      CutStream(raw, z[..|z| - 5]);
    } else {
      assert s == WriteChunk(IDAT, z) + WriteChunk(IEND, []);
      ChunkRoundTrip(IDAT, z, WriteChunk(IEND, []));
      StreamUnzips(raw, z);
      ChunkRoundTrip(IEND, [], []);
      assert WriteChunk(IEND, []) + [] == WriteChunk(IEND, []);
    }
  }

  /** Whatever follows, a chunk that is read has the declared number of bytes. */
  lemma DeclaredData(n: word, z: seq<byte>, after: seq<byte>)
    requires n <= |z|
    ensures var c := ReadChunk(Be32(n) + IDAT + z + after); c != None ==> c.value.data == z[..n]
  {
    hide FieldFits, Be32, FromBe32;
    var s := Be32(n) + IDAT + z + after;
    Be32RoundTrip(n);
    assert s[..4] == Be32(n);
    if ReadChunk(s) != None {
      assert s[8..8 + n] == z[..n];
    }
  }

  // ----- the writer

  /** The state of the row loop: what has gone out so far is `raw`, and the open block holds its last `data` bytes. */
  ghost predicate Writing(png: seq<byte>, start: seq<byte>, raw: seq<byte>, adler: word, at: nat, left: nat, data: nat) {
    && |start| > 0
    && adler == Adler.Checksum(1, raw)
    && if at == 0 then raw == [] && png == start && left == 0 && data == 0
       else left + data == FULL && data <= |raw| && (|raw| - data) % FULL == 0
            && png == Layout(start, raw, data) && at == OpenAt(start, raw, data)
  }

  lemma WritingGrows(png: seq<byte>, start: seq<byte>, raw: seq<byte>, adler: word, at: nat, left: nat, data: nat,
                     more: seq<byte>, adler': word)
    requires Writing(png, start, raw, adler, at, left, data) && at != 0 && |more| <= left
    requires adler' == Adler.Checksum(adler, more)
    ensures Writing(png + more, start, raw + more, adler', at, left - |more|, data + |more|)
  {
    hide Layout, OpenAt;
    Grow(start, raw, data, more);
    Adler.ChecksumConcat(1, raw, more);
  }

  /** Closes a block that is full and opens the next. */
  method OpenBlock(png: seq<byte>, at: nat, data: nat, ghost start: seq<byte>, ghost raw: seq<byte>, ghost adler: word)
      returns (png': seq<byte>, at': nat)
    requires Writing(png, start, raw, adler, at, 0, data)
    ensures at' != 0 && Writing(png', start, raw, adler, at', FULL, 0)
  {
    hide Writing, Layout, Overwrite, OpenAt, Le16;
    png' := png;
    WritingFull(png, start, raw, adler, at, data);
    if at != 0 {
      png' := Overwrite(png', at + 1, Le16(data));
      png' := Overwrite(png', at + 3, Le16(0xFFFF - data));
    }
    at' := |png'|;
    png' := png' + [0, 0, 0, 0, 0];
    assert [0, 0, 0, 0, 0] == Zeros(5);
  }

  /** With no room left, closing the block if there is one makes place for the next. */
  lemma WritingFull(png: seq<byte>, start: seq<byte>, raw: seq<byte>, adler: word, at: nat, data: nat)
    requires Writing(png, start, raw, adler, at, 0, data)
    ensures at != 0 ==> data == FULL && at + 5 <= |png|
    ensures var closed := if at == 0 then png else Filled(png, at, false, FULL);
            |closed| > 0 && Writing(closed + Zeros(5), start, raw, adler, |closed|, FULL, 0)
  {
    hide Full, Layout, Filled, OpenAt, Adler.Checksum;
    if at != 0 {
      Reopen(start, raw);
    } else {
      OpenFirst(start);
    }
  }

  lemma OpenFirst(start: seq<byte>)
    ensures Layout(start, [], 0) == start + Zeros(5) && OpenAt(start, [], 0) == |start|
  {
  }

  lemma WritingFacts(png: seq<byte>, start: seq<byte>, raw: seq<byte>, adler: word, at: nat, left: nat, data: nat)
    requires Writing(png, start, raw, adler, at, left, data)
    ensures left + data == if at == 0 then 0 else FULL
    ensures Adler.Low(adler) < Adler.MOD
  {
    hide Adler.Step, Adler.Low;
    assert Adler.Low(1) == 1 by {
      Adler.JoinUnique(1);
    }
  }

  /** Zeros go out without being fed to the checksum. */
  lemma WritingZeros(png: seq<byte>, start: seq<byte>, raw: seq<byte>, adler: word, at: nat, left: nat, data: nat, n: nat)
    requires Writing(png, start, raw, adler, at, left, data) && at != 0 && n <= left
    ensures Writing(png + Zeros(n), start, raw + Zeros(n), Adler.ZerosFed(adler, n), at, left - n, data + n)
  {
    hide Writing, Adler.Checksum, Adler.ZerosFed, Adler.Low;
    WritingFacts(png, start, raw, adler, at, left, data);
    Adler.ShortZeros(adler, n);
    WritingGrows(png, start, raw, adler, at, left, data, Zeros(n), Adler.ZerosFed(adler, n));
  }

  /** One run of row bytes inside the open block: pixels while there are some, then zeros. */
  method WriteRun(png0: seq<byte>, adler0: word, at: nat, left: nat, data: nat, row: seq<byte>, written: nat, chunk: nat,
                  avx2: bool, ghost start: seq<byte>, ghost raw: seq<byte>)
      returns (png: seq<byte>, adler: word)
    requires Writing(png0, start, raw, adler0, at, left, data) && at != 0 && chunk <= left
    ensures Writing(png, start, raw + PaddedRun(row, written, chunk), adler, at, left - chunk, data + chunk)
  {
    hide Writing, Adler.Checksum, Adler.ZerosFed;
    png, adler := png0, adler0;
    var have := if |row| > written then |row| - written else 0;
    var n := if chunk < have then chunk else have;
    ghost var sent: seq<byte> := [];
    assert raw + [] == raw && png + [] == png;
    if n > 0 {
      var s := row[written..written + n];
      png := png + s;
      adler := Adler.Feed(adler, s, avx2);
      WritingGrows(png0, start, raw, adler0, at, left, data, s, adler);
      sent := s;
    }
    if chunk > n {
      WritingZeros(png, start, raw + sent, adler, at, left - n, data + n, chunk - n);
      png := png + Zeros(chunk - n);
      adler := Adler.ZerosFed(adler, chunk - n);
      assert (raw + sent) + Zeros(chunk - n) == raw + (sent + Zeros(chunk - n));
    }
    assert PaddedRun(row, written, chunk) == sent + Zeros(chunk - n);
    assert sent + Zeros(0) == sent;
  }

  /** `chunk` bytes of the zero-padded row from `written` on. */
  function PaddedRun(row: seq<byte>, written: nat, chunk: nat): (s: seq<byte>)
    ensures |s| == chunk
  {
    seq<byte>(chunk, i requires 0 <= i => if written + i < |row| then row[written + i] else 0)
  }

  lemma RunsJoin(row: seq<byte>, a: nat, b: nat)
    ensures PaddedRun(row, 0, a) + PaddedRun(row, a, b) == PaddedRun(row, 0, a + b)
  {
  }

  /** One scanline. Afterwards the open block has room, so the next scanline's filter byte fits. */
  method WriteRow(png0: seq<byte>, adler0: word, at0: nat, left0: nat, data0: nat, row: seq<byte>, rowBytes: nat, avx2: bool,
                  ghost start: seq<byte>, ghost raw: seq<byte>)
      returns (png: seq<byte>, adler: word, at: nat, left: nat, data: nat)
    requires Writing(png0, start, raw, adler0, at0, left0, data0)
    requires |row| <= rowBytes && rowBytes > 0
    ensures at != 0 && left > 0
    ensures Writing(png, start, raw + ([0] + PaddedRun(row, 0, rowBytes)), adler, at, left, data)
  {
    hide Writing, Adler.Checksum, Adler.ZerosFed, PaddedRun;
    png, adler, at, left, data := png0, adler0, at0, left0, data0;
    ghost var done: seq<byte> := [];
    var written, filterDone := 0, false;
    assert raw + done == raw && [0] + PaddedRun(row, 0, 0) == [0];
    WritingFacts(png, start, raw + done, adler, at, left, data);
    while true
      invariant 0 <= written <= rowBytes
      invariant done == if filterDone then [0] + PaddedRun(row, 0, written) else []
      invariant !filterDone ==> written == 0
      invariant Writing(png, start, raw + done, adler, at, left, data)
      invariant at == 0 ==> left == 0
      decreases rowBytes - written, !filterDone
    {
      if left == 0 {
        png, at := OpenBlock(png, at, data, start, raw + done, adler);
        left := FULL;
        data := 0;
      }
      if !filterDone {
        WritingZeros(png, start, raw + done, adler, at, left, data, 1);
        assert Zeros(1) == [0];
        png := png + [0];
        adler := Adler.ZerosFed(adler, 1);
        left := left - 1;
        data := data + 1;
        filterDone := true;
        assert (raw + done) + [0] == raw + [0];
        done := [0];
      }
      if written == rowBytes {
        break;
      }
      var chunk := if rowBytes - written < left then rowBytes - written else left;
      png, adler := WriteRun(png, adler, at, left, data, row, written, chunk, avx2, start, raw + done);
      RunsJoin(row, written, chunk);
      Zlib.Regroup(raw, done, PaddedRun(row, written, chunk));
      Zlib.Regroup([0], PaddedRun(row, 0, written), PaddedRun(row, written, chunk));
      done := done + PaddedRun(row, written, chunk);
      written := written + chunk;
      left := left - chunk;
      data := data + chunk;
    }
  }

  lemma RowIsRun(width: nat, pixels: seq<byte>, y: nat, row: seq<byte>)
    requires |row| <= 4 * width && Row(width, pixels, y) == row + Zeros(4 * width - |row|)
    ensures PaddedRun(row, 0, 4 * width) == Row(width, pixels, y)
  {
    hide Row;
  }

  method CrcOf(t: array2<Crc.u32>, tag: seq<byte>, data: seq<byte>) returns (field: seq<byte>)
    requires Crc.IsTables(t)
    ensures field == CrcField(tag + data)
  {
    hide Crc.Update, Crc.Field, Crc.IsTables;
    var c := Crc.Feed(t, 0xFFFF_FFFF, tag);
    c := Crc.Feed(t, c, data);
    Crc.UpdateConcat(0xFFFF_FFFF, tag, data);
    field := Crc.Field(c);
  }

  lemma WritingStarts(start: seq<byte>, width: nat, pixels: seq<byte>)
    requires |start| > 0
    ensures Writing(start, start, Scanlines(width, 0, pixels), 1, 0, 0, 0)
  {
    Adler.ChecksumEmpty(1);
  }

  lemma NextScanline(width: nat, y: nat, pixels: seq<byte>)
    ensures Scanlines(width, y + 1, pixels) == Scanlines(width, y, pixels) + ([0] + Row(width, pixels, y))
  {
  }

  /** The last header makes the stream complete. */
  lemma WritingEnds(png: seq<byte>, start: seq<byte>, raw: seq<byte>, adler: word, at: nat, left: nat, data: nat)
    requires Writing(png, start, raw, adler, at, left, data) && at != 0 && left > 0
    ensures adler == Adler.Checksum(1, raw)
    ensures data < FULL && at + 5 <= |png| && Filled(png, at, true, data) == start + Stored(raw)
  {
    hide Filled, Stored, Adler.Checksum, Layout, OpenAt;
    Finish(start, raw, data);
  }

  lemma StreamParts(head: seq<byte>, raw: seq<byte>)
    ensures ((head + [0x78, 0x01]) + Stored(raw)) + Be32(Adler.Checksum(1, raw)) == head + Stream(raw)
  {
    hide Stored, Be32, Adler.Checksum;
  }

  /** The pieces pushed one by one make the file. */
  lemma FileParts(width: word, height: word, raw: seq<byte>)
    requires DeclaredLength(|raw|) < 0x1_0000_0000
    ensures FileHead(width, height, DeclaredLength(|raw|)) + Stream(raw) + CrcField(IDAT + Stream(raw))
          + Be32(0) + IEND + CrcField(IEND + [])
         == PngFile(width, height, raw)
  {
    hide Stream, CrcField, Be32, HeaderData, DeclaredLength;
    var data, z := HeaderData(width, height), Stream(raw);
  }

  /** Everything before the zlib stream. */
  method WriteHead(cw: word, ch: word, zlibLen: word, t: array2<Crc.u32>) returns (png: seq<byte>)
    requires Crc.IsTables(t)
    ensures png == FileHead(cw, ch, zlibLen)
  {
    hide CrcField, Be32, Crc.IsTables;
    png := [0x89, 0x50, 0x4E, 0x47, 0x0D, 0x0A, 0x1A, 0x0A];
    var ihdr := Be32(cw) + Be32(ch) + [8, 6, 0, 0, 0];
    png := png + Be32(13);
    png := png + IHDR;
    png := png + ihdr;
    var crc := CrcOf(t, IHDR, ihdr);
    png := png + crc;
    png := png + Be32(zlibLen);
    png := png + IDAT;
  }

  function FileHead(cw: word, ch: word, zlibLen: word): seq<byte> {
    SIGNATURE + Be32(13) + IHDR + HeaderData(cw, ch) + CrcField(IHDR + HeaderData(cw, ch)) + Be32(zlibLen) + IDAT
  }

  /** The checksum of the data, the data chunk's CRC, and the end chunk. */
  method WriteTail(png0: seq<byte>, idatHead: nat, adler: word, t: array2<Crc.u32>,
                   ghost head: seq<byte>, ghost raw: seq<byte>) returns (png: seq<byte>)
    requires Crc.IsTables(t)
    requires png0 == (head + [0x78, 0x01]) + Stored(raw) && idatHead == |head| && adler == Adler.Checksum(1, raw)
    ensures png == head + Stream(raw) + CrcField(IDAT + Stream(raw)) + Be32(0) + IEND + CrcField(IEND + [])
  {
    hide CrcField, Be32, Crc.IsTables, Stream, Stored, Adler.Checksum;
    png := png0 + Be32(adler);
    StreamParts(head, raw);
    var crc := CrcOf(t, IDAT, png[idatHead..]);
    png := png + crc;
    png := png + Be32(0);
    png := png + IEND;
    crc := CrcOf(t, IEND, []);
    png := png + crc;
  }

  /** The part of the pixels that row `y` copies: whole pixels, as many as there are. */
  method RowSlice(cw: nat, pixels: seq<byte>, y: nat, rowBytes: nat) returns (row: seq<byte>)
    requires rowBytes == 4 * cw
    ensures |row| <= rowBytes && PaddedRun(row, 0, rowBytes) == Row(cw, pixels, y)
  {
    hide PaddedRun, Row;
    var src := if y * rowBytes < |pixels| then y * rowBytes else |pixels|;
    var room := if |pixels| - src < rowBytes then |pixels| - src else rowBytes;
    var take := room - room % 4;
    RowIsSlice(cw, pixels, y, src, take);
    row := pixels[src..src + take];
    RowIsRun(cw, pixels, y, row);
  }

  /** Flags the open block as the last and writes its lengths. */
  method CloseLast(png0: seq<byte>, at: nat, data: nat) returns (png: seq<byte>)
    requires at + 5 <= |png0| && data <= FULL
    ensures png == Filled(png0, at, true, data)
  {
    hide Overwrite, Le16;
    png := png0[at := 1];
    png := Overwrite(png, at + 1, Le16(data));
    png := Overwrite(png, at + 3, Le16(0xFFFF - data));
  }

  /** The whole file: signature, header chunk, data chunk with its length declared up front, end chunk. */
  method PngBytes(w: word, h: word, pixels: seq<byte>, t: array2<Crc.u32>, avx2: bool) returns (png: seq<byte>)
    requires Crc.IsTables(t)
    ensures var dims := PngDims(w, h);
            var raw := Scanlines(dims.0, dims.1, pixels);
            |raw| == (1 + 4 * dims.0) * dims.1 && DeclaredLength(|raw|) < 0x1_0000_0000
            && png == PngFile(dims.0, dims.1, raw)
            && Decode(png) == if |raw| % FULL == 0 then None else Some(Image(dims.0, dims.1, raw))
  {
    hide Decode, DeclaredLength, Writing, Scanlines, Stream, Stored, CrcField, Be32, Filled, PaddedRun, Row,
      Adler.Checksum, Crc.IsTables, PngFile, FileHead;
    var dims := PngDims(w, h);
    var cw, ch := dims.0, dims.1;
    var stride := 1 + cw * 4;
    var rawLen := stride * ch;
    var blocks := (rawLen + 65534) / 65535;
    var zlibLen := 2 + rawLen + blocks * 5 + 4;
    assert zlibLen == DeclaredLength(rawLen) by { Declared(rawLen); }
    png := WriteHead(cw, ch, zlibLen, t);
    var idatHead := |png|;
    ghost var head := png;
    png := png + [0x78, 0x01];
    ghost var start := png;
    var adler: word := 1;
    var rowBytes := cw * 4;
    var at: nat, left: nat, data: nat := 0, 0, 0;
    ghost var raw := Scanlines(cw, 0, pixels);
    WritingStarts(start, cw, pixels);
    for y := 0 to ch
      invariant raw == Scanlines(cw, y, pixels)
      invariant Writing(png, start, raw, adler, at, left, data)
      invariant y > 0 ==> at != 0 && left > 0
    {
      var row := RowSlice(cw, pixels, y, rowBytes);
      png, adler, at, left, data := WriteRow(png, adler, at, left, data, row, rowBytes, avx2, start, raw);
      raw := raw + ([0] + Row(cw, pixels, y));
      NextScanline(cw, y, pixels);
    }
    WritingEnds(png, start, raw, adler, at, left, data);
    png := CloseLast(png, at, data);
    png := WriteTail(png, idatHead, adler, t, head, raw);
    ScanlinesLength(cw, ch, pixels);
    FileParts(cw, ch, raw);
    FileDecodes(cw, ch, raw);
  }

  lemma Declared(n: nat)
    ensures 2 + n + (n + 65534) / 65535 * 5 + 4 == DeclaredLength(n)
  {
  }

  /** Such data: a good stream, declared five bytes short, so that no reader gets it. */
  lemma BorderData(width: word, height: word, raw: seq<byte>, z: seq<byte>)
    requires raw != [] && |raw| % FULL == 0 && z == Stream(raw) && DeclaredLength(|raw|) < 0x1_0000_0000
    ensures |z| == DeclaredLength(|raw|) + 5 && Unzlib(z) == Some(raw)
    ensures Decode(PngFile(width, height, raw)) == None
  {
    hide Stream, Unzlib, DeclaredLength, Decode, PngFile;
    StreamLength(raw);
    StreamUnzips(raw, z);
    FileDecodes(width, height, raw);
  }

  /** A canvas one pixel wide and 13107 high has such data. */
  lemma TallCanvas(pixels: seq<byte>, height: nat, raw: seq<byte>)
    requires height == 13107 && raw == Scanlines(1, height, pixels)
    ensures PngDims(1, height) == (1, height)
    ensures |raw| == FULL && raw != []
  {
    hide Scanlines;
    ScanlinesLength(1, height, pixels);
  }
}
