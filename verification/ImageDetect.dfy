/**
 Detection of JPEG, PNG and WebP images from their header bytes. Bitwise masks and shifts are
 written as `%`, `/` and `*` by powers of two, which agree with them on bytes.
 */
module ImageDetect {
  import opened ByteLayout
  import opened Wrappers

  const MAX_IMAGE_SIZE := 10 * 1024 * 1024
  const MAX_DATABASE_DIMENSION := 0x7fff_ffff
  const PNG_SIGNATURE: seq<Byte> := [0x89, 0x50, 0x4e, 0x47, 0x0d, 0x0a, 0x1a, 0x0a]

  datatype ImageType = Jpg | Png | Webp

  datatype Dimensions = Dimensions(width: int, height: int)

  datatype DetectedImage = DetectedImage(kind: ImageType, width: Option<int>, height: Option<int>)

  // ---------------------------------------------------------------- bounded readers

  predicate MatchesBytes(bytes: seq<Byte>, offset: int, expected: seq<Byte>) {
    && 0 <= offset <= |bytes| - |expected|
    && forall i :: 0 <= i < |expected| ==> bytes[offset + i] == expected[i]
  }

  predicate AsciiAt(bytes: seq<Byte>, offset: int, expected: string) {
    && 0 <= offset <= |bytes| - |expected|
    && forall i :: 0 <= i < |expected| ==> bytes[offset + i] == expected[i] as int
  }

  method MatchesAscii(bytes: seq<Byte>, offset: int, expected: string) returns (r: bool)
    ensures r <==> AsciiAt(bytes, offset, expected)
  {
    if offset < 0 || offset + |expected| > |bytes| {
      return false;
    }
    for index := 0 to |expected|
      invariant forall i :: 0 <= i < index ==> bytes[offset + i] == expected[i] as int
    {
      if bytes[offset + index] != expected[index] as int {
        return false;
      }
    }
    return true;
  }

  function At(bytes: seq<Byte>, i: int): (v: int)
    requires 0 <= i < |bytes|
    ensures 0 <= v < 0x100
  {
    bytes[i]
  }

  function ReadUint16BigEndian(bytes: seq<Byte>, offset: int, limit: int): Option<int> {
    if offset < 0 || offset + 2 > limit || offset + 2 > |bytes| then None
    else Some(At(bytes, offset) * 0x100 + At(bytes, offset + 1))
  }

  function ReadUint16LittleEndian(bytes: seq<Byte>, offset: int, limit: int): Option<int> {
    if offset < 0 || offset + 2 > limit || offset + 2 > |bytes| then None
    else Some(At(bytes, offset) + At(bytes, offset + 1) * 0x100)
  }

  function ReadUint24LittleEndian(bytes: seq<Byte>, offset: int, limit: int): Option<int> {
    if offset < 0 || offset + 3 > limit || offset + 3 > |bytes| then None
    else Some(At(bytes, offset) + At(bytes, offset + 1) * 0x100 + At(bytes, offset + 2) * 0x1_0000)
  }

  function ReadUint32BigEndian(bytes: seq<Byte>, offset: int, limit: int): Option<int> {
    if offset < 0 || offset + 4 > limit || offset + 4 > |bytes| then None
    else Some(At(bytes, offset) * 0x100_0000 + At(bytes, offset + 1) * 0x1_0000
              + At(bytes, offset + 2) * 0x100 + At(bytes, offset + 3))
  }

  function ReadUint32LittleEndian(bytes: seq<Byte>, offset: int, limit: int): Option<int> {
    if offset < 0 || offset + 4 > limit || offset + 4 > |bytes| then None
    else Some(At(bytes, offset) + At(bytes, offset + 1) * 0x100
              + At(bytes, offset + 2) * 0x1_0000 + At(bytes, offset + 3) * 0x100_0000)
  }

  function DimensionsOrNull(width: Option<int>, height: Option<int>): Option<Dimensions> {
    if width.None? || height.None? || width.value <= 0 || height.value <= 0
       || width.value > MAX_DATABASE_DIMENSION || height.value > MAX_DATABASE_DIMENSION
    then None
    else Some(Dimensions(width.value, height.value))
  }

  // ---------------------------------------------------------------- the parsers

  function PngDimensions(bytes: seq<Byte>): Option<Dimensions> {
    var limit := |bytes|;
    if limit < 33 || ReadUint32BigEndian(bytes, 8, limit) != Some(13) || !AsciiAt(bytes, 12, "IHDR") then None
    else DimensionsOrNull(ReadUint32BigEndian(bytes, 16, limit), ReadUint32BigEndian(bytes, 20, limit))
  }

  function Map(o: Option<int>, f: int -> int): Option<int> {
    if o.None? then None else Some(f(o.value))
  }

  function WebpDimensions(bytes: seq<Byte>): Option<Dimensions> {
    var limit := |bytes|;
    var riffSize := ReadUint32LittleEndian(bytes, 4, limit);
    var chunkSize := ReadUint32LittleEndian(bytes, 16, limit);
    if riffSize.None? || riffSize.value < 12 || riffSize.value > limit - 8
       || chunkSize.None? || chunkSize.value > riffSize.value - 12 || chunkSize.value > limit - 20
    then None
    else if AsciiAt(bytes, 12, "VP8X") then
      if chunkSize.value < 10 then None
      else DimensionsOrNull(Map(ReadUint24LittleEndian(bytes, 24, limit), x => x + 1),
                            Map(ReadUint24LittleEndian(bytes, 27, limit), x => x + 1))
    else if AsciiAt(bytes, 12, "VP8L") then
      if chunkSize.value < 5 || limit < 25 || bytes[20] != 0x2f then None
      else DimensionsOrNull(Some(1 + At(bytes, 21) + At(bytes, 22) % 0x40 * 0x100),
                            Some(1 + At(bytes, 22) / 0x40 + At(bytes, 23) * 4 + At(bytes, 24) % 0x10 * 0x400))
    else if AsciiAt(bytes, 12, "VP8 ") then
      if chunkSize.value < 10 || limit < 30 || bytes[20] % 2 != 0
        || !MatchesBytes(bytes, 23, [0x9d, 0x01, 0x2a]) then None
      else DimensionsOrNull(Map(ReadUint16LittleEndian(bytes, 26, limit), x => x % 0x4000),
                            Map(ReadUint16LittleEndian(bytes, 28, limit), x => x % 0x4000))
    else None
  }

  predicate IsFrameMarker(m: Byte) {
    0xc0 <= m <= 0xcf && m != 0xc4 && m != 0xc8 && m != 0xcc
  }

  predicate IsStandalone(m: Byte) {
    m == 0x01 || m == 0xd8 || 0xd0 <= m <= 0xd7
  }

  predicate EndsScan(m: Byte) {
    m == 0x00 || m == 0xd9 || m == 0xda
  }

  function ScanLimit(bytes: seq<Byte>): nat {
    if |bytes| < MAX_IMAGE_SIZE then |bytes| else MAX_IMAGE_SIZE
  }

  /** The first position from `offset` on that holds no 0xff byte, or the limit. */
  function SkipFill(bytes: seq<Byte>, offset: nat, limit: nat): (end: nat)
    requires offset <= limit <= |bytes|
    ensures offset <= end <= limit
    decreases limit - offset
  {
    if offset < limit && bytes[offset] == 0xff then SkipFill(bytes, offset + 1, limit) else offset
  }

  /** The result of the segment walk when the marker byte at `at` is next. */
  function JpegMarker(bytes: seq<Byte>, at: nat): Option<Dimensions>
    requires at < ScanLimit(bytes)
    decreases ScanLimit(bytes) - at, 0
  {
    var limit := ScanLimit(bytes);
    if EndsScan(bytes[at]) then None
    else if IsStandalone(bytes[at]) then JpegFrom(bytes, at + 1)
    else
      var length := ReadUint16BigEndian(bytes, at + 1, limit);
      if length.None? || length.value < 2 then None
      else
        var end := at + 1 + length.value;
        if end > limit || end > |bytes| then None
        else if IsFrameMarker(bytes[at]) then
          if length.value < 8 then None
          else DimensionsOrNull(ReadUint16BigEndian(bytes, at + 6, end), ReadUint16BigEndian(bytes, at + 4, end))
        else JpegFrom(bytes, end)
  }

  /** The result of the segment walk when it stands at `offset`. */
  function JpegFrom(bytes: seq<Byte>, offset: nat): Option<Dimensions>
    decreases ScanLimit(bytes) - offset, 1
  {
    var limit := ScanLimit(bytes);
    if offset >= limit || bytes[offset] != 0xff then None
    else
      var at := SkipFill(bytes, offset, limit);
      if at >= limit then None else JpegMarker(bytes, at)
  }

  method ReadJpegDimensions(bytes: seq<Byte>) returns (r: Option<Dimensions>)
    ensures r == JpegFrom(bytes, 2)
  {
    var scanLimit := if |bytes| < MAX_IMAGE_SIZE then |bytes| else MAX_IMAGE_SIZE;
    var offset := 2;
    while offset < scanLimit
      invariant JpegFrom(bytes, 2) == JpegFrom(bytes, offset)
      decreases scanLimit - offset
    {
      if bytes[offset] != 0xff {
        return None;
      }
      ghost var start := offset;
      while offset < scanLimit && bytes[offset] == 0xff
        invariant start <= offset <= scanLimit
        invariant offset > start || bytes[offset] == 0xff
        invariant SkipFill(bytes, start, scanLimit) == SkipFill(bytes, offset, scanLimit)
      {
        offset := offset + 1;
      }
      if offset >= scanLimit {
        return None;
      }
      assert JpegFrom(bytes, start) == JpegMarker(bytes, offset);
      var marker := bytes[offset];
      offset := offset + 1;
      if marker == 0x00 || marker == 0xd9 || marker == 0xda {
        return None;
      }
      if marker == 0x01 || marker == 0xd8 || (marker >= 0xd0 && marker <= 0xd7) {
        continue;
      }
      var segmentLength := ReadUint16BigEndian(bytes, offset, scanLimit);
      if segmentLength.None? || segmentLength.value < 2 {
        return None;
      }
      var segmentEnd := offset + segmentLength.value;
      if segmentEnd > scanLimit || segmentEnd > |bytes| {
        return None;
      }
      if IsFrameMarker(marker) {
        if segmentLength.value < 8 {
          return None;
        }
        return DimensionsOrNull(ReadUint16BigEndian(bytes, offset + 5, segmentEnd),
                                ReadUint16BigEndian(bytes, offset + 3, segmentEnd));
      }
      offset := segmentEnd;
    }
    return None;
  }

  function DetectType(bytes: seq<Byte>): Option<ImageType> {
    if MatchesBytes(bytes, 0, [0xff, 0xd8, 0xff]) then Some(Jpg)
    else if MatchesBytes(bytes, 0, PNG_SIGNATURE) then Some(Png)
    else if AsciiAt(bytes, 0, "RIFF") && AsciiAt(bytes, 8, "WEBP") then Some(Webp)
    else None
  }

  function HeaderDimensions(kind: ImageType, bytes: seq<Byte>): Option<Dimensions> {
    match kind
    case Jpg => JpegFrom(bytes, 2)
    case Png => PngDimensions(bytes)
    case Webp => WebpDimensions(bytes)
  }

  function Report(kind: ImageType, d: Option<Dimensions>): DetectedImage {
    if d.Some? then DetectedImage(kind, Some(d.value.width), Some(d.value.height)) else DetectedImage(kind, None, None)
  }

  function Detect(bytes: seq<Byte>): Option<DetectedImage> {
    var kind := DetectType(bytes);
    if kind.None? then None else Some(Report(kind.value, HeaderDimensions(kind.value, bytes)))
  }

  method DetectImage(bytes: seq<Byte>) returns (r: Option<DetectedImage>)
    ensures r == Detect(bytes)
  {
    var kind := DetectType(bytes);
    if kind.None? {
      return None;
    }
    var dimensions;
    if kind.value == Jpg {
      dimensions := ReadJpegDimensions(bytes);
    } else {
      dimensions := if kind.value == Png then PngDimensions(bytes) else WebpDimensions(bytes);
    }
    return Some(Report(kind.value, dimensions));
  }

  // ---------------------------------------------------------------- every byte array

  lemma {:induction false} JpegRange(bytes: seq<Byte>, offset: nat)
    ensures var d := JpegFrom(bytes, offset); d.Some? ==> 1 <= d.value.width <= 0xffff && 1 <= d.value.height <= 0xffff
    decreases ScanLimit(bytes) - offset
  {
    var limit := ScanLimit(bytes);
    if offset < limit && bytes[offset] == 0xff {
      var at := SkipFill(bytes, offset, limit);
      if at < limit {
        JpegRange(bytes, at + 1);
        var length := ReadUint16BigEndian(bytes, at + 1, limit);
        if length.Some? && length.value >= 2 {
          JpegRange(bytes, at + 1 + length.value);
        }
      }
    }
  }

  /** Whatever the bytes, both dimensions are reported or neither, and they fit the format's fields. */
  lemma DetectedRange(bytes: seq<Byte>)
    ensures var r := Detect(bytes); r.Some? ==>
      && (r.value.width.Some? <==> r.value.height.Some?)
      && (r.value.width.Some? ==>
        var max := match r.value.kind case Jpg => 0xffff case Png => 0x7fff_ffff case Webp => 0x100_0000;
        1 <= r.value.width.value <= max && 1 <= r.value.height.value <= max)
  {
    JpegRange(bytes, 2);
  }
}
