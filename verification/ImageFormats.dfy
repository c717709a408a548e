/**
 The PNG and WebP headers as encoders, and the proof that the detector reports w by h
 exactly for the byte arrays those encoders produce. Layouts: RFC 2083 section 4.1.1 (IHDR),
 RFC 9649 sections 2.3 to 2.7 (RIFF, VP8X, VP8L), RFC 6386 section 9.1 (VP8 key frame).
 */
module ImageFormats {
  import opened ByteLayout
  import opened ImageDetect
  import opened Wrappers

  function Ascii(s: string): (r: seq<Byte>)
    requires forall i :: 0 <= i < |s| ==> s[i] as int < 256
    ensures |r| == |s| && forall i :: 0 <= i < |s| ==> r[i] == s[i] as int
  {
    seq(|s|, i requires 0 <= i < |s| => s[i] as int)
  }

  function BE32(n: int): seq<Byte>
    requires 0 <= n < 0x1_0000_0000
  {
    [n / 0x100_0000, n / 0x1_0000 % 0x100, n / 0x100 % 0x100, n % 0x100]
  }

  function LE32(n: int): seq<Byte>
    requires 0 <= n < 0x1_0000_0000
  {
    [n % 0x100, n / 0x100 % 0x100, n / 0x1_0000 % 0x100, n / 0x100_0000]
  }

  function LE24(n: int): seq<Byte>
    requires 0 <= n < 0x100_0000
  {
    [n % 0x100, n / 0x100 % 0x100, n / 0x1_0000]
  }

  function LE16(n: int): seq<Byte>
    requires 0 <= n < 0x1_0000
  {
    [n % 0x100, n / 0x100]
  }

  // ---------------------------------------------------------------- reading a held value

  lemma AsciiHeld(bytes: seq<Byte>, offset: nat, s: string)
    requires forall i :: 0 <= i < |s| ==> s[i] as int < 256
    ensures AsciiAt(bytes, offset, s) <==> Holds(bytes, offset, Ascii(s))
  {
  }

  lemma BytesHeld(bytes: seq<Byte>, offset: nat, s: seq<Byte>)
    ensures MatchesBytes(bytes, offset, s) <==> Holds(bytes, offset, s)
  {
  }

  lemma LowDigit(n: int, a: int, m: int)
    requires 0 <= a < 0x100
    ensures n == a + m * 0x100 <==> a == n % 0x100 && m == n / 0x100
  {
  }

  lemma Digits(n: int, a: int, b: int, c: int, d: int)
    requires 0 <= a < 0x100 && 0 <= b < 0x100 && 0 <= c < 0x100 && 0 <= d
    ensures n == a + b * 0x100 + c * 0x1_0000 + d * 0x100_0000 <==>
      a == n % 0x100 && b == n / 0x100 % 0x100 && c == n / 0x1_0000 % 0x100 && d == n / 0x100_0000
  {
    var m, k := n / 0x100, n / 0x1_0000;
    assert k == m / 0x100 && n / 0x100_0000 == k / 0x100;
    LowDigit(n, a, b + c * 0x100 + d * 0x1_0000);
    LowDigit(m, b, c + d * 0x100);
    LowDigit(k, c, d);
  }

  lemma {:induction false} BE32Held(bytes: seq<Byte>, offset: nat, n: int)
    requires 0 <= n < 0x1_0000_0000
    ensures ReadUint32BigEndian(bytes, offset, |bytes|) == Some(n) <==> Holds(bytes, offset, BE32(n))
  {
    if offset + 4 <= |bytes| {
      var s := bytes[offset..offset + 4];
      Digits(n, s[3], s[2], s[1], s[0]);
    }
  }

  lemma {:induction false} LE32Held(bytes: seq<Byte>, offset: nat, n: int)
    requires 0 <= n < 0x1_0000_0000
    ensures ReadUint32LittleEndian(bytes, offset, |bytes|) == Some(n) <==> Holds(bytes, offset, LE32(n))
  {
    if offset + 4 <= |bytes| {
      var s := bytes[offset..offset + 4];
      Digits(n, s[0], s[1], s[2], s[3]);
    }
  }

  // ---------------------------------------------------------------- PNG

  /** PNG's signature: a byte beyond ASCII, the letters, CR LF, end of file, LF. */
  const SIGNATURE: seq<Byte> := [137, 80, 78, 71, 13, 10, 26, 10]

  /** Signature, an IHDR chunk of 13 data bytes, and whatever follows the two dimensions. */
  function EncodePng(w: int, h: int, rest: seq<Byte>): seq<Byte>
    requires 0 <= w < 0x1_0000_0000 && 0 <= h < 0x1_0000_0000
  {
    SIGNATURE + (BE32(13) + (Ascii("IHDR") + (BE32(w) + (BE32(h) + rest))))
  }

  lemma PngLayout(bytes: seq<Byte>, w: int, h: int, rest: seq<Byte>)
    requires 0 <= w < 0x1_0000_0000 && 0 <= h < 0x1_0000_0000
    ensures Holds(bytes, 0, EncodePng(w, h, rest)) <==>
      && Holds(bytes, 0, SIGNATURE) && Holds(bytes, 8, BE32(13)) && Holds(bytes, 12, Ascii("IHDR"))
      && Holds(bytes, 16, BE32(w)) && Holds(bytes, 20, BE32(h)) && Holds(bytes, 24, rest)
  {
    var a, b, c, d, e := SIGNATURE, BE32(13), Ascii("IHDR"), BE32(w), BE32(h);
    HoldsFields(bytes, 0, a, b, c, d, e, rest);
  }

  /** PNG of w by h: both dimensions legal, and at least the rest of IHDR and its checksum present. */
  ghost predicate IsPngOf(bytes: seq<Byte>, w: int, h: int) {
    && 1 <= w <= 0x7fff_ffff && 1 <= h <= 0x7fff_ffff
    && exists rest :: |rest| >= 9 && bytes == EncodePng(w, h, rest)
  }

  lemma WholeIsHeld(bytes: seq<Byte>, s: seq<Byte>)
    ensures bytes == s <==> Holds(bytes, 0, s) && |s| == |bytes|
  {
  }

  lemma FirstByte(bytes: seq<Byte>, s: seq<Byte>)
    requires |s| > 0
    ensures MatchesBytes(bytes, 0, s) ==> bytes[0] == s[0]
  {
  }

  lemma PngMagic(bytes: seq<Byte>)
    ensures DetectType(bytes) == Some(Png) <==> MatchesBytes(bytes, 0, SIGNATURE)
  {
    FirstByte(bytes, [0xff, 0xd8, 0xff]);
    FirstByte(bytes, SIGNATURE);
    assert PNG_SIGNATURE == SIGNATURE;
  }

  lemma {:induction false} PngOfLayout(bytes: seq<Byte>, w: int, h: int)
    requires 1 <= w <= 0x7fff_ffff && 1 <= h <= 0x7fff_ffff
    ensures IsPngOf(bytes, w, h) <==>
      && |bytes| >= 33 && Holds(bytes, 0, SIGNATURE) && Holds(bytes, 8, BE32(13)) && Holds(bytes, 12, Ascii("IHDR"))
      && Holds(bytes, 16, BE32(w)) && Holds(bytes, 20, BE32(h))
  {
    if |bytes| >= 33 {
      var rest := bytes[24..];
      PngLayout(bytes, w, h, rest);
      WholeIsHeld(bytes, EncodePng(w, h, rest));
    }
    if IsPngOf(bytes, w, h) {
      var rest :| |rest| >= 9 && bytes == EncodePng(w, h, rest);
      WholeIsHeld(bytes, EncodePng(w, h, rest));
      PngLayout(bytes, w, h, rest);
    }
  }

  lemma {:induction false} PngDetectedExactly(bytes: seq<Byte>, w: int, h: int)
    ensures Detect(bytes) == Some(DetectedImage(Png, Some(w), Some(h))) <==> IsPngOf(bytes, w, h)
  {
    BytesHeld(bytes, 0, SIGNATURE);
    AsciiHeld(bytes, 12, "IHDR");
    BE32Held(bytes, 8, 13);
    if 1 <= w <= 0x7fff_ffff && 1 <= h <= 0x7fff_ffff {
      BE32Held(bytes, 16, w);
      BE32Held(bytes, 20, h);
      PngMagic(bytes);
      PngOfLayout(bytes, w, h);
    }
  }

  // ---------------------------------------------------------------- WebP

  /** A RIFF container whose first chunk is `fourcc`; `payload` is everything after the chunk header. */
  function EncodeRiff(riffSize: int, fourcc: string, chunkSize: int, payload: seq<Byte>): seq<Byte>
    requires 0 <= riffSize < 0x1_0000_0000 && 0 <= chunkSize < 0x1_0000_0000
    requires forall i :: 0 <= i < |fourcc| ==> fourcc[i] as int < 256
  {
    Ascii("RIFF") + (LE32(riffSize) + (Ascii("WEBP") + (Ascii(fourcc) + (LE32(chunkSize) + payload))))
  }

  /** The declared sizes fit inside the file and the chunk fits inside the container. */
  predicate SizesFit(riffSize: int, chunkSize: int, payload: seq<Byte>) {
    && 12 <= riffSize <= |payload| + 12 && riffSize < 0x1_0000_0000
    && 0 <= chunkSize <= riffSize - 12 && chunkSize <= |payload|
  }

  /** VP8X: four bytes of flags, then 24-bit width and height, both minus one. */
  ghost predicate IsExtended(payload: seq<Byte>, w: int, h: int) {
    && 1 <= w <= 0x100_0000 && 1 <= h <= 0x100_0000 && |payload| >= 10
    && payload[4..10] == LE24(w - 1) + LE24(h - 1)
  }

  function PackedBits(w: int, h: int, t: int): int {
    (w - 1) + (h - 1) * 0x4000 + t * 0x1000_0000
  }

  /**
   VP8L: the signature byte, then 14 bits each of width and height minus one, and 4 bits `t` of alpha
   hint and version.
   */
  ghost predicate IsLossless(payload: seq<Byte>, w: int, h: int) {
    && 1 <= w <= 0x4000 && 1 <= h <= 0x4000 && |payload| >= 5 && payload[0] == 0x2f
    && exists t :: 0 <= t < 0x10 && payload[1..5] == LE32(PackedBits(w, h, t))
  }

  function Scaled(n: int, scale: int): int {
    n + scale * 0x4000
  }

  /** VP8: a key-frame tag, the start code, then 14 bits of width and height, each with a 2-bit scale `hs`, `vs`. */
  ghost predicate IsKeyFrame(payload: seq<Byte>, w: int, h: int) {
    && 1 <= w < 0x4000 && 1 <= h < 0x4000 && |payload| >= 10 && payload[0] % 2 == 0
    && payload[3..6] == [0x9d, 0x01, 0x2a]
    && exists hs, vs :: 0 <= hs < 4 && 0 <= vs < 4 && payload[6..10] == LE16(Scaled(w, hs)) + LE16(Scaled(h, vs))
  }

  lemma {:induction false} RiffLayout(
      bytes: seq<Byte>, riffSize: int, fourcc: string, chunkSize: int, payload: seq<Byte>)
    requires 0 <= riffSize < 0x1_0000_0000 && 0 <= chunkSize < 0x1_0000_0000
    requires |fourcc| == 4 && forall i :: 0 <= i < |fourcc| ==> fourcc[i] as int < 256
    ensures bytes == EncodeRiff(riffSize, fourcc, chunkSize, payload) <==>
      && |bytes| == |payload| + 20 && payload == bytes[20..]
      && AsciiAt(bytes, 0, "RIFF") && AsciiAt(bytes, 8, "WEBP") && AsciiAt(bytes, 12, fourcc)
      && ReadUint32LittleEndian(bytes, 4, |bytes|) == Some(riffSize)
      && ReadUint32LittleEndian(bytes, 16, |bytes|) == Some(chunkSize)
  {
    var a, b, c, d, e := Ascii("RIFF"), LE32(riffSize), Ascii("WEBP"), Ascii(fourcc), LE32(chunkSize);
    WholeIsHeld(bytes, a + (b + (c + (d + (e + payload)))));
    HoldsFields(bytes, 0, a, b, c, d, e, payload);
    AsciiHeld(bytes, 0, "RIFF");
    AsciiHeld(bytes, 8, "WEBP");
    AsciiHeld(bytes, 12, fourcc);
    LE32Held(bytes, 4, riffSize);
    LE32Held(bytes, 16, chunkSize);
  }

  function Low14(a: int, b: int): int {
    (a + b * 0x100) % 0x4000
  }

  /** The dimensions the three chunk parsers find, as functions of the payload. */
  function ChunkDimensions(fourcc: string, chunkSize: int, p: seq<Byte>): Option<Dimensions> {
    if fourcc == "VP8X" then
      if chunkSize < 10 || |p| < 10 then None
      else DimensionsOrNull(Some(At(p, 4) + At(p, 5) * 0x100 + At(p, 6) * 0x1_0000 + 1),
                            Some(At(p, 7) + At(p, 8) * 0x100 + At(p, 9) * 0x1_0000 + 1))
    else if fourcc == "VP8L" then
      if chunkSize < 5 || |p| < 5 || p[0] != 0x2f then None
      else DimensionsOrNull(Some(1 + At(p, 1) + At(p, 2) % 0x40 * 0x100),
                            Some(1 + At(p, 2) / 0x40 + At(p, 3) * 4 + At(p, 4) % 0x10 * 0x400))
    else if fourcc == "VP8 " then
      if chunkSize < 10 || |p| < 10 || p[0] % 2 != 0 || !(p[3] == 0x9d && p[4] == 0x01 && p[5] == 0x2a) then None
      else DimensionsOrNull(Some(Low14(p[6], p[7])), Some(Low14(p[8], p[9])))
    else None
  }

  lemma ExtendedExactly(chunkSize: int, p: seq<Byte>, w: int, h: int)
    requires chunkSize <= |p|
    ensures ChunkDimensions("VP8X", chunkSize, p) == Some(Dimensions(w, h)) <==> chunkSize >= 10 && IsExtended(p, w, h)
  {
    if chunkSize >= 10 {
      Digits(w - 1, At(p, 4), At(p, 5), At(p, 6), 0);
      Digits(h - 1, At(p, 7), At(p, 8), At(p, 9), 0);
      var s := p[4..10];
      assert s == [p[4], p[5], p[6], p[7], p[8], p[9]];
    }
  }

  lemma PackedDigits(w: int, h: int, t: int, b0: int, b1: int, b2: int, b3: int)
    requires 1 <= w <= 0x4000 && 1 <= h <= 0x4000 && 0 <= t < 0x10
    requires 0 <= b0 < 0x100 && 0 <= b1 < 0x100 && 0 <= b2 < 0x100 && 0 <= b3 < 0x100
    ensures PackedBits(w, h, t) == b0 + b1 * 0x100 + b2 * 0x1_0000 + b3 * 0x100_0000 <==>
      w == 1 + b0 + b1 % 0x40 * 0x100 && h == 1 + b1 / 0x40 + b2 * 4 + b3 % 0x10 * 0x400 && t == b3 / 0x10
  {
    var lo, hi := b1 % 0x40, b1 / 0x40;
    var top, rest := b3 % 0x10, b3 / 0x10;
    assert b1 == lo + hi * 0x40 && b3 == top + rest * 0x10;
    var w', h' := b0 + lo * 0x100, hi + b2 * 4 + top * 0x400;
    assert b0 + b1 * 0x100 + b2 * 0x1_0000 + b3 * 0x100_0000 == w' + h' * 0x4000 + rest * 0x1000_0000;
  }

  lemma {:induction false} LosslessBits(p: seq<Byte>, w: int, h: int, t: int)
    requires |p| >= 5 && 1 <= w <= 0x4000 && 1 <= h <= 0x4000 && 0 <= t < 0x10
    ensures p[1..5] == LE32(PackedBits(w, h, t)) <==>
      && w == 1 + At(p, 1) + At(p, 2) % 0x40 * 0x100
      && h == 1 + At(p, 2) / 0x40 + At(p, 3) * 4 + At(p, 4) % 0x10 * 0x400
      && t == At(p, 4) / 0x10
  {
    var n, s := PackedBits(w, h, t), p[1..5];
    PackedDigits(w, h, t, p[1], p[2], p[3], p[4]);
    Digits(n, p[1], p[2], p[3], p[4]);
    assert s[0] == p[1] && s[1] == p[2] && s[2] == p[3] && s[3] == p[4];
    assert LE32(n)[0] == n % 0x100 && LE32(n)[1] == n / 0x100 % 0x100;
    assert LE32(n)[2] == n / 0x1_0000 % 0x100 && LE32(n)[3] == n / 0x100_0000;
  }

  lemma {:induction false} LosslessExactly(chunkSize: int, p: seq<Byte>, w: int, h: int)
    requires chunkSize <= |p|
    ensures ChunkDimensions("VP8L", chunkSize, p) == Some(Dimensions(w, h)) <==> chunkSize >= 5 && IsLossless(p, w, h)
  {
    if chunkSize >= 5 {
      if ChunkDimensions("VP8L", chunkSize, p) == Some(Dimensions(w, h)) {
        LosslessBits(p, w, h, At(p, 4) / 0x10);
      }
      if IsLossless(p, w, h) {
        var t :| 0 <= t < 0x10 && p[1..5] == LE32(PackedBits(w, h, t));
        LosslessBits(p, w, h, t);
      }
    }
  }

  function Top2(a: int, b: int): int {
    (a + b * 0x100) / 0x4000
  }

  lemma ScaledDigits(n: int, s: int, a: int, b: int)
    requires 0 <= n < 0x4000 && 0 <= s < 4 && 0 <= a < 0x100 && 0 <= b < 0x100
    ensures a == Scaled(n, s) % 0x100 && b == Scaled(n, s) / 0x100 <==> n == Low14(a, b) && s == Top2(a, b)
  {
    var hi, top := b % 0x40, b / 0x40;
    assert b == hi + top * 0x40;
    assert a + b * 0x100 == (a + hi * 0x100) + top * 0x4000;
  }

  lemma TwoScaled(w: int, h: int, hs: int, vs: int, a: int, b: int, c: int, d: int)
    requires 0 <= w < 0x4000 && 0 <= h < 0x4000 && 0 <= hs < 4 && 0 <= vs < 4
    requires 0 <= a < 0x100 && 0 <= b < 0x100 && 0 <= c < 0x100 && 0 <= d < 0x100
    ensures
      && a == Scaled(w, hs) % 0x100 && b == Scaled(w, hs) / 0x100
      && c == Scaled(h, vs) % 0x100 && d == Scaled(h, vs) / 0x100
      <==> w == Low14(a, b) && hs == Top2(a, b) && h == Low14(c, d) && vs == Top2(c, d)
  {
    ScaledDigits(w, hs, a, b);
    ScaledDigits(h, vs, c, d);
  }

  lemma FourBytes(p: seq<Byte>, m: int, n: int)
    requires |p| >= 10 && 0 <= m < 0x1_0000 && 0 <= n < 0x1_0000
    ensures p[6..10] == LE16(m) + LE16(n)
      <==> p[6] == m % 0x100 && p[7] == m / 0x100 && p[8] == n % 0x100 && p[9] == n / 0x100
  {
  }

  lemma KeyFrameBits(p: seq<Byte>, w: int, h: int, hs: int, vs: int)
    requires |p| >= 10 && 0 <= w < 0x4000 && 0 <= h < 0x4000 && 0 <= hs < 4 && 0 <= vs < 4
    ensures p[6..10] == LE16(Scaled(w, hs)) + LE16(Scaled(h, vs)) <==>
      && w == Low14(p[6], p[7]) && hs == Top2(p[6], p[7])
      && h == Low14(p[8], p[9]) && vs == Top2(p[8], p[9])
  {
    FourBytes(p, Scaled(w, hs), Scaled(h, vs));
    TwoScaled(w, h, hs, vs, p[6], p[7], p[8], p[9]);
  }

  lemma {:induction false} KeyFrameExactly(chunkSize: int, p: seq<Byte>, w: int, h: int)
    requires chunkSize <= |p|
    ensures ChunkDimensions("VP8 ", chunkSize, p) == Some(Dimensions(w, h)) <==> chunkSize >= 10 && IsKeyFrame(p, w, h)
  {
    if chunkSize >= 10 {
      var hs, vs := Top2(p[6], p[7]), Top2(p[8], p[9]);
      var code := p[3..6];
      assert code[0] == p[3] && code[1] == p[4] && code[2] == p[5];
      if ChunkDimensions("VP8 ", chunkSize, p) == Some(Dimensions(w, h)) {
        KeyFrameBits(p, w, h, hs, vs);
      }
      if IsKeyFrame(p, w, h) {
        hs, vs :| 0 <= hs < 4 && 0 <= vs < 4 && p[6..10] == LE16(Scaled(w, hs)) + LE16(Scaled(h, vs));
        KeyFrameBits(p, w, h, hs, vs);
      }
    }
  }

  ghost predicate IsContainer(bytes: seq<Byte>, riffSize: int, fourcc: string, chunkSize: int, payload: seq<Byte>) {
    && SizesFit(riffSize, chunkSize, payload) && fourcc in {"VP8X", "VP8L", "VP8 "}
    && bytes == EncodeRiff(riffSize, fourcc, chunkSize, payload)
  }

  ghost predicate ShapeOf(fourcc: string, chunkSize: int, payload: seq<Byte>, w: int, h: int) {
    || (fourcc == "VP8X" && chunkSize >= 10 && IsExtended(payload, w, h))
    || (fourcc == "VP8L" && chunkSize >= 5 && IsLossless(payload, w, h))
    || (fourcc == "VP8 " && chunkSize >= 10 && IsKeyFrame(payload, w, h))
  }

  /** A WebP file of w by h: a fitting RIFF container whose first chunk is of one of the three kinds. */
  ghost predicate IsWebpOf(bytes: seq<Byte>, w: int, h: int) {
    exists riffSize, fourcc, chunkSize, payload :: IsContainer(bytes, riffSize, fourcc, chunkSize, payload)
      && ShapeOf(fourcc, chunkSize, payload, w, h)
  }

  lemma ShapeExactly(fourcc: string, chunkSize: int, p: seq<Byte>, w: int, h: int)
    requires chunkSize <= |p|
    ensures ChunkDimensions(fourcc, chunkSize, p) == Some(Dimensions(w, h)) <==> ShapeOf(fourcc, chunkSize, p, w, h)
  {
    ExtendedExactly(chunkSize, p, w, h);
    LosslessExactly(chunkSize, p, w, h);
    KeyFrameExactly(chunkSize, p, w, h);
  }

  function FourCc(bytes: seq<Byte>): string {
    if AsciiAt(bytes, 12, "VP8X") then "VP8X" else if AsciiAt(bytes, 12, "VP8L") then "VP8L" else "VP8 "
  }

  lemma FourCcIsRead(bytes: seq<Byte>, fourcc: string)
    requires fourcc in {"VP8X", "VP8L", "VP8 "} && AsciiAt(bytes, 12, fourcc)
    ensures FourCc(bytes) == fourcc
  {
  }

  lemma StartCode(bytes: seq<Byte>)
    requires |bytes| >= 26
    ensures MatchesBytes(bytes, 23, [0x9d, 0x01, 0x2a]) <==> bytes[23] == 0x9d && bytes[24] == 0x01 && bytes[25] == 0x2a
  {
    var code: seq<Byte> := [0x9d, 0x01, 0x2a];
    if MatchesBytes(bytes, 23, code) {
      assert bytes[23 + 0] == code[0] && bytes[23 + 1] == code[1] && bytes[23 + 2] == code[2];
    }
  }

  lemma WebpReadsPayload(bytes: seq<Byte>, riffSize: int, chunkSize: int)
    requires |bytes| >= 20 && AsciiAt(bytes, 12, FourCc(bytes)) && SizesFit(riffSize, chunkSize, bytes[20..])
    requires ReadUint32LittleEndian(bytes, 4, |bytes|) == Some(riffSize)
    requires ReadUint32LittleEndian(bytes, 16, |bytes|) == Some(chunkSize)
    ensures WebpDimensions(bytes) == ChunkDimensions(FourCc(bytes), chunkSize, bytes[20..])
  {
    var p := bytes[20..];
    assert forall i :: 0 <= i < |p| ==> p[i] == bytes[20 + i];
    if |p| >= 10 {
      assert p[0] == bytes[20] && p[1] == bytes[21] && p[2] == bytes[22] && p[3] == bytes[23] && p[4] == bytes[24];
      assert p[5] == bytes[25] && p[6] == bytes[26] && p[7] == bytes[27] && p[8] == bytes[28] && p[9] == bytes[29];
      StartCode(bytes);
    }
  }

  lemma WebpMagic(bytes: seq<Byte>)
    ensures DetectType(bytes) == Some(Webp) <==> AsciiAt(bytes, 0, "RIFF") && AsciiAt(bytes, 8, "WEBP")
  {
    if AsciiAt(bytes, 0, "RIFF") {
      assert bytes[0 + 0] == "RIFF"[0] as int;
      FirstByte(bytes, [0xff, 0xd8, 0xff]);
      FirstByte(bytes, PNG_SIGNATURE);
    }
  }

  /** What the parser finds in a container is what the chunk parser finds in its payload. */
  lemma ContainerIsRead(bytes: seq<Byte>, riffSize: int, fourcc: string, chunkSize: int, payload: seq<Byte>)
    requires IsContainer(bytes, riffSize, fourcc, chunkSize, payload)
    ensures DetectType(bytes) == Some(Webp) && WebpDimensions(bytes) == ChunkDimensions(fourcc, chunkSize, payload)
  {
    WebpMagic(bytes);
    RiffLayout(bytes, riffSize, fourcc, chunkSize, payload);
    FourCcIsRead(bytes, fourcc);
    WebpReadsPayload(bytes, riffSize, chunkSize);
  }

  lemma WebpSizes(bytes: seq<Byte>) returns (riffSize: int, chunkSize: int)
    requires WebpDimensions(bytes).Some?
    ensures |bytes| >= 20 && SizesFit(riffSize, chunkSize, bytes[20..]) && AsciiAt(bytes, 12, FourCc(bytes))
    ensures ReadUint32LittleEndian(bytes, 4, |bytes|) == Some(riffSize)
    ensures ReadUint32LittleEndian(bytes, 16, |bytes|) == Some(chunkSize)
  {
    riffSize := ReadUint32LittleEndian(bytes, 4, |bytes|).value;
    chunkSize := ReadUint32LittleEndian(bytes, 16, |bytes|).value;
  }

  /** Dimensions are found in containers only. */
  lemma ContainerIsParsed(bytes: seq<Byte>) returns (riffSize: int, fourcc: string, chunkSize: int, payload: seq<Byte>)
    requires DetectType(bytes) == Some(Webp) && WebpDimensions(bytes).Some?
    ensures IsContainer(bytes, riffSize, fourcc, chunkSize, payload)
  {
    WebpMagic(bytes);
    riffSize, chunkSize := WebpSizes(bytes);
    fourcc, payload := FourCc(bytes), bytes[20..];
    RiffLayout(bytes, riffSize, fourcc, chunkSize, payload);
  }

  lemma WebpIsParsed(bytes: seq<Byte>, w: int, h: int)
    requires DetectType(bytes) == Some(Webp) && WebpDimensions(bytes) == Some(Dimensions(w, h))
    ensures IsWebpOf(bytes, w, h)
  {
    var riffSize, fourcc, chunkSize, payload := ContainerIsParsed(bytes);
    ContainerIsRead(bytes, riffSize, fourcc, chunkSize, payload);
    ShapeExactly(fourcc, chunkSize, payload, w, h);
  }

  lemma WebpOfIsDetected(bytes: seq<Byte>, w: int, h: int)
    requires IsWebpOf(bytes, w, h)
    ensures DetectType(bytes) == Some(Webp) && WebpDimensions(bytes) == Some(Dimensions(w, h))
  {
    var riffSize, fourcc, chunkSize, payload :|
      IsContainer(bytes, riffSize, fourcc, chunkSize, payload) && ShapeOf(fourcc, chunkSize, payload, w, h);
    ContainerIsRead(bytes, riffSize, fourcc, chunkSize, payload);
    ShapeExactly(fourcc, chunkSize, payload, w, h);
  }

  lemma ReportedWebp(bytes: seq<Byte>, w: int, h: int)
    ensures Detect(bytes) == Some(DetectedImage(Webp, Some(w), Some(h))) <==>
      DetectType(bytes) == Some(Webp) && WebpDimensions(bytes) == Some(Dimensions(w, h))
  {
  }

  lemma WebpDetectedExactly(bytes: seq<Byte>, w: int, h: int)
    ensures Detect(bytes) == Some(DetectedImage(Webp, Some(w), Some(h))) <==> IsWebpOf(bytes, w, h)
  {
    ReportedWebp(bytes, w, h);
    if Detect(bytes) == Some(DetectedImage(Webp, Some(w), Some(h))) {
      WebpIsParsed(bytes, w, h);
    }
    if IsWebpOf(bytes, w, h) {
      WebpOfIsDetected(bytes, w, h);
    }
  }

  // ---------------------------------------------------------------- the type alone

  /** The type goes by the magic bytes alone, whatever follows them; without one of the three there is no image. */
  lemma TypeIsMagic(bytes: seq<Byte>)
    ensures var r := Detect(bytes);
      && (r.Some? && r.value.kind == Jpg <==> Holds(bytes, 0, [0xff, 0xd8, 0xff]))
      && (r.Some? && r.value.kind == Png <==> Holds(bytes, 0, [137, 80, 78, 71, 13, 10, 26, 10]))
      && (r.Some? && r.value.kind == Webp <==> Holds(bytes, 0, Ascii("RIFF")) && Holds(bytes, 8, Ascii("WEBP")))
  {
    BytesHeld(bytes, 0, [0xff, 0xd8, 0xff]);
    BytesHeld(bytes, 0, SIGNATURE);
    AsciiHeld(bytes, 0, "RIFF");
    AsciiHeld(bytes, 8, "WEBP");
    PngMagic(bytes);
    WebpMagic(bytes);
  }
}
