/** PNG and JPEG headers (core/editor/mask.py:81-125, 248-271): IHDR as in section 11.2.2 of ISO/IEC 15948:2004,
    the JPEG frame header as in section B.2.2 of ITU-T T.81. Compression and checksum are parameters. */
module ImageHeader {
  import opened Wrappers

  type Byte = n: int | 0 <= n < 0x100
  type Bytes = seq<Byte>

  const PNG_SIGNATURE: Bytes := [0x89, 0x50, 0x4E, 0x47, 0x0D, 0x0A, 0x1A, 0x0A]
  const IHDR: Bytes := [0x49, 0x48, 0x44, 0x52]
  const IDAT: Bytes := [0x49, 0x44, 0x41, 0x54]
  const IEND: Bytes := [0x49, 0x45, 0x4E, 0x44]
  const U16_LIMIT := 0x1_0000
  const U32_LIMIT := 0x1_0000_0000

  datatype HeaderError = UnknownFormat | MissingIhdr | MissingFrame

  /** The deflate codec and the checksum the encoder uses; sound when inflating undoes deflating. */
  datatype Codec = Codec(deflate: Bytes -> Bytes, inflate: Bytes -> Bytes, crc: Bytes -> Bytes)

  ghost predicate Sound(k: Codec)
  {
    && (forall b :: k.inflate(k.deflate(b)) == b)
    && (forall b :: |k.crc(b)| == 4)
  }

  // ----- big-endian numbers --------------------------------------------------------------------

  function U16(n: nat): (b: Bytes)
    requires n < U16_LIMIT
    ensures |b| == 2
  {
    [n / 0x100, n % 0x100]
  }

  function U32(n: nat): (b: Bytes)
    requires n < U32_LIMIT
    ensures |b| == 4
  {
    U16(n / U16_LIMIT) + U16(n % U16_LIMIT)
  }

  function Number(b: Bytes): nat
  {
    if b == [] then 0 else Number(b[..|b| - 1]) * 0x100 + b[|b| - 1]
  }

  lemma NumberOfPair(hi: Byte, lo: Byte)
    ensures Number([hi, lo]) == hi * 0x100 + lo
  {
    var b: Bytes := [hi];
    assert b[..0] == [];
    assert Number(b) == hi;
    var both: Bytes := [hi, lo];
    assert both[..1] == b;
  }

  lemma NumberOfU16(n: nat)
    requires n < U16_LIMIT
    ensures Number(U16(n)) == n
  {
    NumberOfPair(n / 0x100, n % 0x100);
  }

  lemma NumberConcat(a: Bytes, hi: Byte, lo: Byte)
    ensures Number(a + [hi, lo]) == Number(a) * U16_LIMIT + Number([hi, lo])
  {
    var all := a + [hi, lo];
    assert all[..|all| - 1] == a + [hi];
    var most := a + [hi];
    assert most[..|a|] == a;
    assert Number(most) == Number(a) * 0x100 + hi;
    NumberOfPair(hi, lo);
  }

  lemma NumberOfU32(n: nat)
    requires n < U32_LIMIT
    ensures Number(U32(n)) == n
  {
    var high, low := U16(n / U16_LIMIT), U16(n % U16_LIMIT);
    NumberOfU16(n / U16_LIMIT);
    NumberOfU16(n % U16_LIMIT);
    assert low == [low[0], low[1]];
    NumberConcat(high, low[0], low[1]);
  }

  /** The most significant byte comes first. */
  lemma NumberOfFour(a: Byte, b: Byte, c: Byte, d: Byte)
    ensures Number([a, b, c, d]) == a * 0x100_0000 + b * 0x1_0000 + c * 0x100 + d
  {
    NumberOfPair(a, b);
    NumberOfPair(c, d);
    NumberConcat([a, b], c, d);
    assert [a, b] + [c, d] == [a, b, c, d];
  }

  // ----- writing ------------------------------------------------------------------------------------

  /** Every scan line behind its filter byte, from line y on. */
  function Scanlines(pixels: Bytes, stride: nat, lines: nat): Bytes
    requires |pixels| == stride * lines
  {
    if lines == 0 then []
    else
      LinesLeft(stride, lines);
      [0] + pixels[..stride] + Scanlines(pixels[stride..], stride, lines - 1)
  }

  lemma LinesLeft(stride: nat, lines: nat)
    requires lines > 0
    ensures stride * lines == stride + stride * (lines - 1)
  {
  }

  lemma ScanlinesOneMore(pixels: Bytes, stride: nat, height: nat, y: nat)
    requires |pixels| == stride * height && y < height
    ensures y * stride <= (y + 1) * stride <= |pixels|
    ensures |pixels[y * stride..]| == stride * (height - y)
    ensures |pixels[(y + 1) * stride..]| == stride * (height - (y + 1))
    ensures Scanlines(pixels[y * stride..], stride, height - y)
         == [0] + pixels[y * stride..(y + 1) * stride] + Scanlines(pixels[(y + 1) * stride..], stride, height - (y + 1))
  {
    LinesSplit(stride, height, y);
    LinesSplit(stride, height, y + 1);
    var rest := pixels[y * stride..];
    assert (y + 1) * stride == y * stride + stride;
    assert rest[..stride] == pixels[y * stride..(y + 1) * stride];
    assert rest[stride..] == pixels[(y + 1) * stride..];
  }

  lemma LinesSplit(stride: nat, height: nat, y: nat)
    requires y <= height
    ensures stride * height == y * stride + stride * (height - y) && y * stride <= stride * height
  {
  }

  method WriteScanlines(pixels: Bytes, stride: nat, height: nat) returns (raw: Bytes)
    requires |pixels| == stride * height
    ensures raw == Scanlines(pixels, stride, height)
  {
    raw := [];
    ghost var todo := Scanlines(pixels, stride, height);
    assert pixels[0 * stride..] == pixels;
    for y := 0 to height
      invariant y * stride <= |pixels| && |pixels[y * stride..]| == stride * (height - y)
      invariant todo == Scanlines(pixels[y * stride..], stride, height - y)
      invariant raw + todo == Scanlines(pixels, stride, height)
    {
      ScanlinesOneMore(pixels, stride, height, y);
      var line := [0] + pixels[y * stride..(y + 1) * stride];
      ghost var rest := Scanlines(pixels[(y + 1) * stride..], stride, height - (y + 1));
      ConcatAssociates(raw, line, rest);
      raw := raw + line;
      todo := rest;
    }
    assert raw + [] == raw;
  }

  function Chunk(tag: Bytes, data: Bytes, k: Codec): Bytes
    requires |data| < U32_LIMIT
  {
    U32(|data|) + tag + data + k.crc(tag + data)
  }

  function HeaderData(width: nat, height: nat): (b: Bytes)
    requires width < U32_LIMIT && height < U32_LIMIT
    ensures |b| == 13
  {
    U32(width) + U32(height) + [8, 2, 0, 0, 0]
  }

  /** The encoded image, or none when a number does not fit its four bytes. */
  function Png(width: nat, height: nat, pixels: Bytes, k: Codec): Option<Bytes>
    requires |pixels| == width * 3 * height
  {
    var data := k.deflate(Scanlines(pixels, width * 3, height));
    if width >= U32_LIMIT || height >= U32_LIMIT || |data| >= U32_LIMIT then None
    else Some(PNG_SIGNATURE + (Chunk(IHDR, HeaderData(width, height), k) + (Chunk(IDAT, data, k) + Chunk(IEND, [], k))))
  }

  method WritePngRgb(width: nat, height: nat, pixels: Bytes, k: Codec) returns (png: Option<Bytes>)
    requires |pixels| == width * 3 * height
    ensures png == Png(width, height, pixels, k)
  {
    var raw := WriteScanlines(pixels, width * 3, height);
    var data := k.deflate(raw);
    if width >= U32_LIMIT || height >= U32_LIMIT || |data| >= U32_LIMIT {
      return None;
    }
    return Some(PNG_SIGNATURE
                + (Chunk(IHDR, HeaderData(width, height), k) + (Chunk(IDAT, data, k) + Chunk(IEND, [], k))));
  }

  // ----- reading back ----------------------------------------------------------------------------------

  function ReadPngSize(content: Bytes): Result<(nat, nat), HeaderError>
  {
    if |content| < 24 || content[12..16] != IHDR then Err(MissingIhdr)
    else Ok((Number(content[16..20]), Number(content[20..24])))
  }

  /** The tag and data of the first chunk and what follows it, if its length and checksum are right. */
  function FirstChunk(b: Bytes, k: Codec): Option<(Bytes, Bytes, Bytes)>
  {
    if |b| < 12 then None
    else
      var n := Number(b[..4]);
      if |b| < 12 + n || k.crc(b[4..8 + n]) != b[8 + n..12 + n] then None
      else Some((b[4..8], b[8..8 + n], b[12 + n..]))
  }

  /** The pixels of unfiltered scan lines. */
  function Unfiltered(raw: Bytes, stride: nat, lines: nat): Option<Bytes>
  {
    if lines == 0 then if raw == [] then Some([]) else None
    else if |raw| < stride + 1 || raw[0] != 0 then None
    else
      var rest := Unfiltered(raw[stride + 1..], stride, lines - 1);
      if rest.None? then None else Some(raw[1..stride + 1] + rest.value)
  }

  /** A reference decoder for 8-bit RGB images with one data chunk, written from the standard. */
  function DecodePng(content: Bytes, k: Codec): Option<(nat, nat, Bytes)>
  {
    if |content| < 8 || content[..8] != PNG_SIGNATURE then None
    else
      var header := FirstChunk(content[8..], k);
      if header.None? || header.value.0 != IHDR || |header.value.1| != 13 then None
      else if header.value.1[8..] != [8, 2, 0, 0, 0] then None
      else
        var width, height := Number(header.value.1[..4]), Number(header.value.1[4..8]);
        var data := FirstChunk(header.value.2, k);
        if data.None? || data.value.0 != IDAT then None
        else
          var end := FirstChunk(data.value.2, k);
          var pixels := Unfiltered(k.inflate(data.value.1), width * 3, height);
          if end.None? || end.value.0 != IEND || end.value.2 != [] || pixels.None? then None
          else Some((width, height, pixels.value))
  }

  lemma FirstOfChunks(tag: Bytes, data: Bytes, rest: Bytes, k: Codec)
    requires Sound(k) && |tag| == 4 && |data| < U32_LIMIT
    ensures FirstChunk(Chunk(tag, data, k) + rest, k) == Some((tag, data, rest))
  {
    var b := Chunk(tag, data, k) + rest;
    var n := |data|;
    assert b[..4] == U32(n);
    NumberOfU32(n);
    assert b[4..8 + n] == tag + data;
    assert b[8 + n..12 + n] == k.crc(tag + data);
    assert b[4..8] == tag;
    assert b[8..8 + n] == data;
    assert b[12 + n..] == rest;
  }

  lemma {:induction false} UnfilteredScanlines(pixels: Bytes, stride: nat, lines: nat)
    requires |pixels| == stride * lines
    ensures Unfiltered(Scanlines(pixels, stride, lines), stride, lines) == Some(pixels)
  {
    if lines > 0 {
      LinesLeft(stride, lines);
      var first, rest := pixels[..stride], pixels[stride..];
      var raw := Scanlines(pixels, stride, lines);
      assert raw == [0] + first + Scanlines(rest, stride, lines - 1);
      assert raw[1..stride + 1] == first;
      assert raw[stride + 1..] == Scanlines(rest, stride, lines - 1);
      UnfilteredScanlines(rest, stride, lines - 1);
      assert first + rest == pixels;
    }
  }

  /** Decoding an encoded image gives back its size and every pixel. */
  lemma PngRoundTrip(width: nat, height: nat, pixels: Bytes, k: Codec)
    requires Sound(k) && |pixels| == width * 3 * height
    requires Png(width, height, pixels, k).Some?
    ensures DecodePng(Png(width, height, pixels, k).value, k) == Some((width, height, pixels))
  {
    var raw := Scanlines(pixels, width * 3, height);
    var head := HeaderData(width, height);
    var after := Chunk(IDAT, k.deflate(raw), k) + Chunk(IEND, [], k);
    var content := Png(width, height, pixels, k).value;
    assert content[..8] == PNG_SIGNATURE;
    assert content[8..] == Chunk(IHDR, head, k) + after;
    FirstOfChunks(IHDR, head, after, k);
    FirstOfChunks(IDAT, k.deflate(raw), Chunk(IEND, [], k), k);
    assert Chunk(IEND, [], k) + [] == Chunk(IEND, [], k);
    FirstOfChunks(IEND, [], [], k);
    HeaderNumbers(width, height);
    UnfilteredScanlines(pixels, width * 3, height);
  }

  lemma HeaderNumbers(width: nat, height: nat)
    requires width < U32_LIMIT && height < U32_LIMIT
    ensures var head := HeaderData(width, height);
      Number(head[..4]) == width && Number(head[4..8]) == height && head[8..] == [8, 2, 0, 0, 0]
  {
    var head := HeaderData(width, height);
    assert head[..4] == U32(width) && head[4..8] == U32(height);
    NumberOfU32(width);
    NumberOfU32(height);
  }

  /** An encoded image starts with the signature, the length and tag of the header chunk, the size, and the settings of
      an 8-bit RGB image that is not interlaced. */
  lemma PngStartsWithTheHeader(width: nat, height: nat, pixels: Bytes, k: Codec)
    requires |pixels| == width * 3 * height && Png(width, height, pixels, k).Some?
    ensures var png := Png(width, height, pixels, k).value;
      && |png| > 29
      && png[..8] == [0x89, 0x50, 0x4E, 0x47, 0x0D, 0x0A, 0x1A, 0x0A]
      && png[8..16] == [0, 0, 0, 13, 0x49, 0x48, 0x44, 0x52]
      && Number(png[16..20]) == width && Number(png[20..24]) == height
      && png[24..29] == [8, 2, 0, 0, 0]
  {
    var png := Png(width, height, pixels, k).value;
    assert png[8..12] == U32(13) == [0, 0, 0, 13];
    assert png[12..16] == IHDR;
    assert png[8..16] == png[8..12] + png[12..16];
    assert png[16..20] == U32(width);
    assert png[20..24] == U32(height);
    assert png[24..29] == [8, 2, 0, 0, 0];
    NumberOfU32(width);
    NumberOfU32(height);
  }

  /** The size probe reads the size of every image the encoder writes. */
  lemma ProbeReadsEncodedSize(width: nat, height: nat, pixels: Bytes, k: Codec)
    requires |pixels| == width * 3 * height && Png(width, height, pixels, k).Some?
    ensures ReadImageSize(Png(width, height, pixels, k).value) == Ok((width, height))
  {
    var content := Png(width, height, pixels, k).value;
    assert content[..8] == PNG_SIGNATURE;
    assert content[12..16] == IHDR;
    assert content[16..20] == U32(width);
    assert content[20..24] == U32(height);
    NumberOfU32(width);
    NumberOfU32(height);
  }

  // ----- JPEG ---------------------------------------------------------------------------------------------

  predicate IsFrame(marker: Byte)
  {
    0xC0 <= marker <= 0xCF && marker != 0xC4 && marker != 0xC8 && marker != 0xCC
  }

  predicate IsStandalone(marker: Byte)
  {
    marker == 0xD8 || marker == 0x01 || 0xD0 <= marker <= 0xD7
  }

  /** The big-endian number of two bytes. */
  function WordAt(content: Bytes, i: nat): nat
    requires i + 2 <= |content|
  {
    var high: int := content[i];
    high * 0x100 + content[i + 1]
  }

  /** What the scan does at one position: it reads a frame header, gives up, or goes on. */
  datatype Move = Found(width: nat, height: nat) | GiveUp | Go(next: nat)

  function Look(content: Bytes, i: nat): (m: Move)
    ensures m.Go? ==> i + 1 < |content| && i < m.next
  {
    if i + 1 >= |content| then GiveUp
    else if content[i] != 0xFF then Go(i + 1)
    else
      var marker := content[i + 1];
      if IsFrame(marker) then
        if i + 9 > |content| then GiveUp else Found(WordAt(content, i + 7), WordAt(content, i + 5))
      else if IsStandalone(marker) then Go(i + 2)
      else if i + 4 > |content| then GiveUp
      else Go(i + 2 + WordAt(content, i + 2))
  }

  function ScanFrom(content: Bytes, i: nat): Result<(nat, nat), HeaderError>
    decreases |content| - i
  {
    match Look(content, i)
    case Found(width, height) => Ok((width, height))
    case GiveUp => Err(MissingFrame)
    case Go(next) => ScanFrom(content, next)
  }

  method ReadJpegSize(content: Bytes) returns (r: Result<(nat, nat), HeaderError>)
    ensures r == ScanFrom(content, 2)
  {
    var i: nat := 2;
    while i + 1 < |content|
      invariant ScanFrom(content, i) == ScanFrom(content, 2)
      decreases |content| - i
    {
      if content[i] != 0xFF {
        i := i + 1;
        continue;
      }
      var marker := content[i + 1];
      if IsFrame(marker) {
        if i + 9 > |content| {
          break;
        }
        return Ok((WordAt(content, i + 7), WordAt(content, i + 5)));
      }
      if IsStandalone(marker) {
        i := i + 2;
        continue;
      }
      if i + 4 > |content| {
        break;
      }
      i := i + 2 + WordAt(content, i + 2);
    }
    return Err(MissingFrame);
  }

  function ReadImageSize(content: Bytes): Result<(nat, nat), HeaderError>
  {
    if PNG_SIGNATURE <= content then ReadPngSize(content)
    else if [0xFF, 0xD8] <= content then ScanFrom(content, 2)
    else Err(UnknownFormat)
  }

  /** What may stand before the frame header. */
  datatype Item =
    | Stray(byte: Byte)
    | Standalone(marker: Byte)
    | Segment(marker: Byte, payload: Bytes)

  predicate Legal(item: Item)
  {
    match item
    case Stray(byte) => byte != 0xFF
    case Standalone(marker) => IsStandalone(marker)
    case Segment(marker, payload) => !IsFrame(marker) && !IsStandalone(marker) && |payload| + 2 < U16_LIMIT
  }

  ghost predicate AllLegal(items: seq<Item>)
  {
    forall k | 0 <= k < |items| :: Legal(items[k])
  }

  function Encoded(items: seq<Item>): Bytes
    requires AllLegal(items)
  {
    if items == [] then []
    else
      EncodedItem(items[0]) + Encoded(items[1..])
  }

  function EncodedItem(item: Item): Bytes
    requires Legal(item)
  {
    match item
    case Stray(byte) => [byte]
    case Standalone(marker) => [0xFF, marker]
    case Segment(marker, payload) => [0xFF, marker] + U16(|payload| + 2) + payload
  }

  function Frame(marker: Byte, length: nat, precision: Byte, width: nat, height: nat): (b: Bytes)
    requires length < U16_LIMIT && width < U16_LIMIT && height < U16_LIMIT
    ensures |b| == 9
  {
    [0xFF, marker] + U16(length) + [precision] + U16(height) + U16(width)
  }

  /** The part stands in the content from position i on. */
  ghost predicate StandsAt(content: Bytes, i: nat, part: Bytes)
  {
    i + |part| <= |content| && content[i..i + |part|] == part
  }

  lemma StandsAtSplits(content: Bytes, i: nat, a: Bytes, b: Bytes)
    requires StandsAt(content, i, a + b)
    ensures StandsAt(content, i, a) && StandsAt(content, i + |a|, b)
  {
    var part := content[i..i + |a + b|];
    assert part[..|a|] == a && part[|a|..] == b;
  }

  lemma StandsAtByte(content: Bytes, i: nat, part: Bytes, k: nat)
    requires StandsAt(content, i, part) && k < |part|
    ensures content[i + k] == part[k]
  {
    assert content[i..i + |part|][k] == content[i + k];
  }

  lemma StandsAtWord(content: Bytes, i: nat, part: Bytes, k: nat, n: nat)
    requires StandsAt(content, i, part) && k + 2 <= |part| && n < U16_LIMIT
    requires part[k] == U16(n)[0] && part[k + 1] == U16(n)[1]
    ensures WordAt(content, i + k) == n
  {
    StandsAtByte(content, i, part, k);
    StandsAtByte(content, i, part, k + 1);
  }

  lemma FrameIsRead(content: Bytes, i: nat, marker: Byte, length: nat, precision: Byte, width: nat, height: nat)
    requires length < U16_LIMIT && width < U16_LIMIT && height < U16_LIMIT && IsFrame(marker)
    requires StandsAt(content, i, Frame(marker, length, precision, width, height))
    ensures ScanFrom(content, i) == Ok((width, height))
  {
    var frame := Frame(marker, length, precision, width, height);
    StandsAtByte(content, i, frame, 0);
    StandsAtByte(content, i, frame, 1);
    StandsAtWord(content, i, frame, 5, height);
    StandsAtWord(content, i, frame, 7, width);
  }

  lemma ItemIsSkipped(content: Bytes, i: nat, item: Item)
    requires Legal(item) && StandsAt(content, i, EncodedItem(item)) && i + |EncodedItem(item)| < |content|
    ensures Look(content, i) == Go(i + |EncodedItem(item)|)
  {
    StandsAtByte(content, i, EncodedItem(item), 0);
    match item {
      case Stray(byte) =>
      case Standalone(marker) => StandsAtByte(content, i, EncodedItem(item), 1);
      case Segment(marker, payload) =>
        StandsAtByte(content, i, EncodedItem(item), 1);
        StandsAtWord(content, i, EncodedItem(item), 2, |payload| + 2);
    }
  }

  lemma ScanGoesOn(content: Bytes, i: nat, next: nat)
    requires Look(content, i) == Go(next)
    ensures ScanFrom(content, i) == ScanFrom(content, next)
  {
  }

  /** Legal items are skipped, whatever bytes they hold. */
  lemma {:induction false} ItemsAreSkipped(content: Bytes, i: nat, items: seq<Item>, end: nat)
    requires AllLegal(items) && StandsAt(content, i, Encoded(items)) && i + |Encoded(items)| == end < |content|
    ensures ScanFrom(content, i) == ScanFrom(content, end)
    decreases |items|
  {
    if items == [] {
      assert i == end;
    } else {
      FirstStandsFirst(content, i, items);
      ItemIsSkipped(content, i, items[0]);
      var next := i + |EncodedItem(items[0])|;
      ItemsAreSkipped(content, next, items[1..], end);
      ScanGoesOn(content, i, next);
    }
  }

  lemma FirstStandsFirst(content: Bytes, i: nat, items: seq<Item>)
    requires AllLegal(items) && items != [] && StandsAt(content, i, Encoded(items))
    ensures Legal(items[0]) && AllLegal(items[1..])
    ensures var first, rest := EncodedItem(items[0]), Encoded(items[1..]);
      && |Encoded(items)| == |first| + |rest|
      && StandsAt(content, i, first) && StandsAt(content, i + |first|, rest)
  {
    StandsAtSplits(content, i, EncodedItem(items[0]), Encoded(items[1..]));
  }

  /** In a whole file, made of the start marker, legal items, a frame header and anything after it, the scan finds the
      frame header; it never mistakes bytes inside a segment, such as an embedded thumbnail's own header, for it. */
  lemma JpegSizeIsTheFrameSize(items: seq<Item>, marker: Byte, length: nat, precision: Byte,
                               width: nat, height: nat, after: Bytes)
    requires AllLegal(items)
    requires length < U16_LIMIT && width < U16_LIMIT && height < U16_LIMIT && IsFrame(marker)
    ensures ReadImageSize([0xFF, 0xD8] + Encoded(items) + (Frame(marker, length, precision, width, height) + after))
         == Ok((width, height))
  {
    var frame := Frame(marker, length, precision, width, height);
    var content: Bytes := [0xFF, 0xD8] + Encoded(items) + (frame + after);
    assert content[0] == 0xFF && content[1] == 0xD8;
    var n := |Encoded(items)|;
    assert content[2..2 + n] == Encoded(items);
    assert content[2 + n..2 + n + 9] == frame;
    ItemsAreSkipped(content, 2, items, 2 + n);
    FrameIsRead(content, 2 + n, marker, length, precision, width, height);
  }

  // ----- fill bytes ---------------------------------------------------------------------------------------

  function Fill(n: nat): Bytes { seq(n, i => 0xFF) }

  /** A segment of at least 48 KiB ends the scan of a file in which fewer bytes are left. */
  lemma LongSegmentEndsTheScan(content: Bytes, i: nat)
    requires i + 4 <= |content| <= i + 0xC000
    requires content[i] == 0xFF && content[i + 1] == 0xFF && content[i + 2] >= 0xC0
    ensures ScanFrom(content, i) == Err(MissingFrame)
  {
    var next := i + 2 + WordAt(content, i + 2);
    assert Look(content, i) == Go(next) && Look(content, next) == GiveUp;
  }

  /** Fill bytes before the frame header are taken for such a segment. */
  lemma FillBytesAreASegment(content: Bytes, i: nat, n: nat, frame: Bytes)
    requires n > 0 && |frame| == 9 && frame[0] == 0xFF && IsFrame(frame[1])
    requires StandsAt(content, i, Fill(n) + frame) && |content| <= i + 0xC000
    ensures ScanFrom(content, i) == Err(MissingFrame)
  {
    StandsAtByte(content, i, Fill(n) + frame, 0);
    StandsAtByte(content, i, Fill(n) + frame, 1);
    StandsAtByte(content, i, Fill(n) + frame, 2);
    LongSegmentEndsTheScan(content, i);
  }

  /** An item behind fill bytes. Strays have none; a single one stands before a marker of at least 0xC0, as all markers
      that the standard assigns are, but for 0x01. */
  datatype Filled = Filled(fill: nat, item: Item)

  predicate LegalFilled(f: Filled)
  {
    && Legal(f.item)
    && (f.fill == 0 || (!f.item.Stray? && (f.fill > 1 || f.item.marker >= 0xC0)))
  }

  ghost predicate AllLegalFilled(items: seq<Filled>)
  {
    forall k | 0 <= k < |items| :: LegalFilled(items[k])
  }

  function EncodedFilled(items: seq<Filled>): Bytes
    requires AllLegalFilled(items)
  {
    if items == [] then [] else EncodedOne(items[0]) + EncodedFilled(items[1..])
  }

  ghost predicate NoFill(items: seq<Filled>)
  {
    forall k | 0 <= k < |items| :: items[k].fill == 0
  }

  lemma FilledItemEndsTheScan(content: Bytes, i: nat, f: Filled)
    requires LegalFilled(f) && f.fill > 0 && StandsAt(content, i, Fill(f.fill) + EncodedItem(f.item))
    requires i + 4 <= |content| <= i + 0xC000
    ensures ScanFrom(content, i) == Err(MissingFrame)
  {
    var part := Fill(f.fill) + EncodedItem(f.item);
    assert EncodedItem(f.item)[0] == 0xFF && EncodedItem(f.item)[1] == f.item.marker;
    StandsAtByte(content, i, part, 0);
    StandsAtByte(content, i, part, 1);
    StandsAtByte(content, i, part, 2);
    LongSegmentEndsTheScan(content, i);
  }

  function EncodedOne(f: Filled): (b: Bytes)
    requires LegalFilled(f)
    ensures |b| > 0
  {
    Fill(f.fill) + EncodedItem(f.item)
  }

  lemma FirstFilledStandsFirst(content: Bytes, i: nat, items: seq<Filled>)
    requires AllLegalFilled(items) && items != [] && StandsAt(content, i, EncodedFilled(items))
    ensures LegalFilled(items[0]) && AllLegalFilled(items[1..])
    ensures var first, rest := EncodedOne(items[0]), EncodedFilled(items[1..]);
      && |EncodedFilled(items)| == |first| + |rest|
      && StandsAt(content, i, first) && StandsAt(content, i + |first|, rest)
  {
    StandsAtSplits(content, i, EncodedOne(items[0]), EncodedFilled(items[1..]));
  }

  /** One item: skipped without fill bytes, the end of the scan with them. */
  lemma FilledLook(content: Bytes, i: nat, f: Filled)
    requires LegalFilled(f) && StandsAt(content, i, EncodedOne(f)) && i + |EncodedOne(f)| < |content|
    requires i + 4 <= |content| <= i + 0xC000
    ensures f.fill == 0 ==> Look(content, i) == Go(i + |EncodedOne(f)|)
    ensures f.fill > 0 ==> ScanFrom(content, i) == Err(MissingFrame)
  {
    if f.fill > 0 {
      FilledItemEndsTheScan(content, i, f);
    } else {
      assert EncodedOne(f) == EncodedItem(f.item);
      ItemIsSkipped(content, i, f.item);
    }
  }

  /** With less than 48 KiB left, the scan gets behind the items exactly if no fill byte stands before any of them. */
  lemma {:induction false} FilledScan(content: Bytes, i: nat, items: seq<Filled>, end: nat)
    requires AllLegalFilled(items) && StandsAt(content, i, EncodedFilled(items))
    requires i + |EncodedFilled(items)| == end && end + 4 <= |content| <= i + 0xC000
    ensures ScanFrom(content, i) == if NoFill(items) then ScanFrom(content, end) else Err(MissingFrame)
    decreases |items|
  {
    if items == [] {
      assert i == end;
    } else {
      FirstFilledStandsFirst(content, i, items);
      NoFillSplits(items);
      var next := i + |EncodedOne(items[0])|;
      FilledLook(content, i, items[0]);
      if items[0].fill == 0 {
        FilledScan(content, next, items[1..], end);
        ScanGoesOn(content, i, next);
      }
    }
  }

  lemma NoFillSplits(items: seq<Filled>)
    requires items != []
    ensures NoFill(items) <==> items[0].fill == 0 && NoFill(items[1..])
  {
    if NoFill(items[1..]) && items[0].fill == 0 {
      forall k | 0 <= k < |items| ensures items[k].fill == 0 {
        assert k > 0 ==> items[1..][k - 1] == items[k];
      }
    }
  }

  lemma PartsStand(start: Bytes, a: Bytes, b: Bytes, c: Bytes, after: Bytes)
    ensures var content := start + a + (b + c + after);
      && start <= content && StandsAt(content, |start|, a) && StandsAt(content, |start| + |a|, b)
      && StandsAt(content, |start| + |a| + |b|, c)
  {
  }

  lemma LastIsFrame(content: Bytes, i: nat, n: nat, marker: Byte, length: nat, precision: Byte, width: nat, height: nat)
    requires length < U16_LIMIT && width < U16_LIMIT && height < U16_LIMIT && IsFrame(marker)
    requires StandsAt(content, i, Fill(n) + Frame(marker, length, precision, width, height))
    requires |content| <= i + 0xC000
    ensures ScanFrom(content, i) == if n == 0 then Ok((width, height)) else Err(MissingFrame)
  {
    var frame := Frame(marker, length, precision, width, height);
    if n == 0 {
      assert Fill(0) + frame == frame;
      FrameIsRead(content, i, marker, length, precision, width, height);
    } else {
      FillBytesAreASegment(content, i, n, frame);
    }
  }

  lemma LaidOutSize(
      content: Bytes, clean: seq<Item>, i: nat, items: seq<Filled>, end: nat, n: nat, marker: Byte, length: nat,
      precision: Byte, width: nat, height: nat)
    requires AllLegal(clean) && AllLegalFilled(items)
    requires length < U16_LIMIT && width < U16_LIMIT && height < U16_LIMIT && IsFrame(marker)
    requires i == 2 + |Encoded(clean)| && end == i + |EncodedFilled(items)| && |content| <= i + 0xC000
    requires [0xFF, 0xD8] <= content
    requires StandsAt(content, 2, Encoded(clean)) && StandsAt(content, i, EncodedFilled(items))
    requires StandsAt(content, end, Fill(n) + Frame(marker, length, precision, width, height))
    ensures ReadImageSize(content) == if n == 0 && NoFill(items) then Ok((width, height)) else Err(MissingFrame)
  {
    ItemsAreSkipped(content, 2, clean, i);
    FilledScan(content, i, items, end);
    LastIsFrame(content, end, n, marker, length, precision, width, height);
    StartIsJpeg(content);
  }

  lemma StartIsJpeg(content: Bytes)
    requires [0xFF, 0xD8] <= content
    ensures ReadImageSize(content) == ScanFrom(content, 2)
  {
    assert content[0] == 0xFF;
  }

  /** Section B.1.1.2 of ITU-T T.81 allows any number of fill bytes before any marker. Behind a first part of any length
      without fill bytes, and with less than 48 KiB left from there on, the size is read if and only if no fill byte
      stands before any marker up to the frame header. */
  lemma FrameSizeIsReadIffNoFillByte(
      clean: seq<Item>, items: seq<Filled>, n: nat, marker: Byte, length: nat, precision: Byte,
      width: nat, height: nat, after: Bytes)
    requires AllLegal(clean) && AllLegalFilled(items)
    requires length < U16_LIMIT && width < U16_LIMIT && height < U16_LIMIT && IsFrame(marker)
    requires |EncodedFilled(items)| + n + 9 + |after| <= 0xC000
    ensures var frame := Frame(marker, length, precision, width, height);
      ReadImageSize([0xFF, 0xD8] + Encoded(clean) + (EncodedFilled(items) + (Fill(n) + frame) + after))
      == if n == 0 && NoFill(items) then Ok((width, height)) else Err(MissingFrame)
  {
    var first, middle := Encoded(clean), EncodedFilled(items);
    var last := Fill(n) + Frame(marker, length, precision, width, height);
    PartsStand([0xFF, 0xD8], first, middle, last, after);
    var content: Bytes := [0xFF, 0xD8] + first + (middle + last + after);
    var i := 2 + |first|;
    LaidOutSize(content, clean, i, items, i + |middle|, n, marker, length, precision, width, height);
  }
}
