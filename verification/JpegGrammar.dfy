/**
 The JPEG streams the detector understands (ITU-T T.81 sections B.1.1 and B.2.2) as an encoder, and
 the proof that it reports w by h exactly for the streams the encoder produces.
 */
module JpegGrammar {
  import opened ByteLayout
  import opened ImageDetect
  import opened Wrappers

  /** The frame header markers: all of 0xc0 to 0xcf but DHT, JPG and DAC. */
  const FRAME_MARKERS: set<int> := {0xc0, 0xc1, 0xc2, 0xc3, 0xc5, 0xc6, 0xc7, 0xc9, 0xca, 0xcb, 0xcd, 0xce, 0xcf}

  /** TEM, the restart markers and start of image stand alone. */
  const STANDALONE_MARKERS: set<int> := {0x01, 0xd0, 0xd1, 0xd2, 0xd3, 0xd4, 0xd5, 0xd6, 0xd7, 0xd8}

  /** A stuffed byte, end of image and start of scan end the header. */
  const END_MARKERS: set<int> := {0x00, 0xd9, 0xda}

  /** As much of a file as is looked at: ten mebibytes. */
  const SCANNED_BYTES := 10_485_760

  /** Two big-endian bytes of a 16-bit number. */
  function U16(n: int): seq<Byte> {
    [n / 0x100 % 0x100, n % 0x100]
  }

  function Fill(n: nat): (s: seq<Byte>)
    ensures |s| == n && forall i :: 0 <= i < n ==> s[i] == 0xff
  {
    seq(n, i => 0xff)
  }

  /** A marker with `fill` extra fill bytes before it. */
  function Marker(fill: nat, m: Byte): (s: seq<Byte>)
    ensures |s| == fill + 2
  {
    Fill(fill + 1) + [m]
  }

  /** What may stand between the start of image and the frame header, each with extra fill bytes before its marker. */
  datatype Part =
    | Standalone(fill: nat, marker: Byte)
    | Segment(fill: nat, marker: Byte, payload: seq<Byte>)
  {
    predicate Valid() {
      match this
      case Standalone(_, m) => m in STANDALONE_MARKERS
      case Segment(_, m, payload) =>
        && m != 0xff && m !in STANDALONE_MARKERS && m !in END_MARKERS && m !in FRAME_MARKERS
        && |payload| + 2 < 0x1_0000
    }

    function Encode(): seq<Byte> {
      match this
      case Standalone(fill, m) => Marker(fill, m)
      case Segment(fill, m, payload) => Marker(fill, m) + (U16(|payload| + 2) + payload)
    }
  }

  /** A frame header: sample precision, height, width, then the component specification. */
  datatype Frame = Frame(fill: nat, marker: Byte, precision: Byte, height: int, width: int, rest: seq<Byte>) {
    predicate Valid() {
      && marker in FRAME_MARKERS && 0 <= height < 0x1_0000 && 0 <= width < 0x1_0000
      && 1 <= |rest| && |rest| + 7 < 0x1_0000
    }

    function Encode(): seq<Byte> {
      Marker(fill, marker) + (U16(|rest| + 7) + ([precision] + (U16(height) + (U16(width) + rest))))
    }
  }

  const IS_PART: Part -> bool := (p: Part) => p.Valid()

  const PART_BYTES: Part -> seq<Byte> := (p: Part) => p.Encode()

  function EncodeJpeg(parts: seq<Part>, frame: Frame): seq<Byte> {
    [0xff, 0xd8] + Flatten(PART_BYTES, parts) + frame.Encode()
  }

  /** The detector tells the markers apart as the grammar does. */
  lemma MarkersAgree(m: Byte)
    ensures IsFrameMarker(m) <==> m in FRAME_MARKERS
    ensures IsStandalone(m) <==> m in STANDALONE_MARKERS
    ensures EndsScan(m) <==> m in END_MARKERS
  {
  }

  lemma {:induction false} SkipFillStops(bytes: seq<Byte>, offset: nat, limit: nat, n: nat)
    requires Holds(bytes, offset, Fill(n)) && offset + n < limit <= |bytes| && bytes[offset + n] != 0xff
    ensures SkipFill(bytes, offset, limit) == offset + n
    decreases n
  {
    if n > 0 {
      HoldsAt(bytes, offset, Fill(n), 0);
      assert Fill(n) == Fill(1) + Fill(n - 1);
      HoldsConcat(bytes, offset, Fill(1), Fill(n - 1));
      SkipFillStops(bytes, offset + 1, limit, n - 1);
    }
  }

  /** Past the fill bytes the walk looks at the marker. */
  lemma MarkerIsFound(bytes: seq<Byte>, offset: nat, fill: nat, m: Byte)
    requires Holds(bytes, offset, Marker(fill, m)) && m != 0xff && offset + fill + 1 < ScanLimit(bytes)
    ensures bytes[offset + fill + 1] == m
    ensures JpegFrom(bytes, offset) == JpegMarker(bytes, offset + fill + 1)
  {
    HoldsConcat(bytes, offset, Fill(fill + 1), [m]);
    HoldsAt(bytes, offset, Fill(fill + 1), 0);
    HoldsAt(bytes, offset + (fill + 1), [m], 0);
    SkipFillStops(bytes, offset, ScanLimit(bytes), fill + 1);
  }

  lemma U16IsRead(bytes: seq<Byte>, offset: nat, n: int, limit: nat)
    requires 0 <= n < 0x1_0000 && Holds(bytes, offset, U16(n)) && offset + 2 <= limit
    ensures ReadUint16BigEndian(bytes, offset, limit) == Some(n)
  {
  }

  /** Where the fields of an encoded segment stand. */
  lemma SegmentLayout(bytes: seq<Byte>, offset: nat, p: Part)
    requires p.Valid() && p.Segment?
    ensures var at := offset + p.fill + 1; Holds(bytes, offset, p.Encode()) <==>
      && Holds(bytes, offset, Marker(p.fill, p.marker))
      && Holds(bytes, at + 1, U16(|p.payload| + 2))
      && Holds(bytes, at + 3, p.payload)
  {
    var at := offset + p.fill + 1;
    HoldsConcat(bytes, offset, Marker(p.fill, p.marker), U16(|p.payload| + 2) + p.payload);
    HoldsConcat(bytes, at + 1, U16(|p.payload| + 2), p.payload);
  }

  /** Where the fields of an encoded frame header stand. */
  lemma FrameLayout(bytes: seq<Byte>, offset: nat, f: Frame)
    requires f.Valid()
    ensures var at := offset + f.fill + 1; Holds(bytes, offset, f.Encode()) <==>
      && Holds(bytes, offset, Marker(f.fill, f.marker))
      && Holds(bytes, at + 1, U16(|f.rest| + 7))
      && Holds(bytes, at + 3, [f.precision])
      && Holds(bytes, at + 4, U16(f.height))
      && Holds(bytes, at + 6, U16(f.width))
      && Holds(bytes, at + 8, f.rest)
  {
    var w := U16(f.width);
    HoldsFields(bytes, offset, Marker(f.fill, f.marker), U16(|f.rest| + 7), [f.precision], U16(f.height), w, f.rest);
  }

  /** The walk passes over one encoded part. */
  lemma PartIsSkipped(bytes: seq<Byte>, offset: nat, p: Part)
    requires p.Valid() && offset + |p.Encode()| <= ScanLimit(bytes) && Holds(bytes, offset, p.Encode())
    ensures JpegFrom(bytes, offset) == JpegFrom(bytes, offset + |p.Encode()|)
  {
    MarkersAgree(p.marker);
    if p.Segment? {
      SegmentLayout(bytes, offset, p);
      U16IsRead(bytes, offset + p.fill + 2, |p.payload| + 2, ScanLimit(bytes));
    }
    MarkerIsFound(bytes, offset, p.fill, p.marker);
  }

  lemma FrameFieldsAreRead(bytes: seq<Byte>, at: nat, f: Frame)
    requires f.Valid() && at + |f.rest| + 8 <= ScanLimit(bytes) && bytes[at] == f.marker
    requires Holds(bytes, at + 1, U16(|f.rest| + 7)) && Holds(bytes, at + 4, U16(f.height))
      && Holds(bytes, at + 6, U16(f.width))
    ensures JpegMarker(bytes, at) == DimensionsOrNull(Some(f.width), Some(f.height))
  {
    var end := at + 1 + |f.rest| + 7;
    MarkersAgree(f.marker);
    U16IsRead(bytes, at + 1, |f.rest| + 7, ScanLimit(bytes));
    U16IsRead(bytes, at + 4, f.height, end);
    U16IsRead(bytes, at + 6, f.width, end);
  }

  /** The walk reads the frame header it stands at. */
  lemma FrameIsRead(bytes: seq<Byte>, offset: nat, f: Frame)
    requires f.Valid() && offset + |f.Encode()| <= ScanLimit(bytes) && Holds(bytes, offset, f.Encode())
    ensures JpegFrom(bytes, offset) == DimensionsOrNull(Some(f.width), Some(f.height))
  {
    var at := offset + f.fill + 1;
    FrameLayout(bytes, offset, f);
    assert |f.Encode()| == f.fill + 9 + |f.rest|;
    MarkerIsFound(bytes, offset, f.fill, f.marker);
    FrameFieldsAreRead(bytes, at, f);
  }

  function WalkOf(bytes: seq<Byte>): nat -> Option<Dimensions> {
    (o: nat) => JpegFrom(bytes, o)
  }

  lemma EveryPartIsSkipped(bytes: seq<Byte>)
    ensures forall o: nat, p: Part :: ItemAt(bytes, ScanLimit(bytes), IS_PART, PART_BYTES, o, p) ==>
      WalkOf(bytes)(o) == WalkOf(bytes)(o + |PART_BYTES(p)|)
  {
    forall o: nat, p: Part | ItemAt(bytes, ScanLimit(bytes), IS_PART, PART_BYTES, o, p)
      ensures WalkOf(bytes)(o) == WalkOf(bytes)(o + |PART_BYTES(p)|)
    {
      PartIsSkipped(bytes, o, p);
    }
  }

  lemma PartsAreSkipped(bytes: seq<Byte>, parts: seq<Part>)
    requires All(IS_PART, parts) && Holds(bytes, 2, Flatten(PART_BYTES, parts))
    requires 2 + |Flatten(PART_BYTES, parts)| <= ScanLimit(bytes)
    ensures JpegFrom(bytes, 2) == JpegFrom(bytes, 2 + |Flatten(PART_BYTES, parts)|)
  {
    EveryPartIsSkipped(bytes);
    ItemsAreSkipped(bytes, ScanLimit(bytes), IS_PART, PART_BYTES, WalkOf(bytes), 2, parts);
  }

  lemma JpegLayout(parts: seq<Part>, f: Frame, tail: seq<Byte>)
    ensures var bytes, ps := EncodeJpeg(parts, f) + tail, Flatten(PART_BYTES, parts);
      && Holds(bytes, 2, ps) && Holds(bytes, 2 + |ps|, f.Encode())
      && |bytes| > 2 && bytes[0] == 0xff && bytes[1] == 0xd8 && bytes[2] == 0xff
  {
  }

  /**
   A start of image, any parts, a frame header and anything after it: the detector reports the
   frame's width and height, or no dimensions when one of them is zero.
   */
  lemma JpegRoundTrip(parts: seq<Part>, f: Frame, tail: seq<Byte>)
    requires All(IS_PART, parts) && f.Valid() && |EncodeJpeg(parts, f)| <= SCANNED_BYTES
    ensures Detect(EncodeJpeg(parts, f) + tail) ==
      if f.width > 0 && f.height > 0 then Some(DetectedImage(Jpg, Some(f.width), Some(f.height)))
      else Some(DetectedImage(Jpg, None, None))
  {
    var bytes := EncodeJpeg(parts, f) + tail;
    var end := 2 + |Flatten(PART_BYTES, parts)|;
    JpegLayout(parts, f, tail);
    PartsAreSkipped(bytes, parts);
    FrameIsRead(bytes, end, f);
  }

  lemma PartStartsWithFill(p: Part)
    ensures |p.Encode()| > 0 && p.Encode()[0] == 0xff
  {
  }

  lemma {:induction false} SkipFillSkips(bytes: seq<Byte>, offset: nat, limit: nat)
    requires offset <= limit <= |bytes|
    ensures var end := SkipFill(bytes, offset, limit);
      (forall i :: offset <= i < end ==> bytes[i] == 0xff) && (end < limit ==> bytes[end] != 0xff)
    decreases limit - offset
  {
    if offset < limit && bytes[offset] == 0xff {
      SkipFillSkips(bytes, offset + 1, limit);
    }
  }

  lemma MarkerHeld(bytes: seq<Byte>, offset: nat, limit: nat, at: nat)
    requires offset < limit <= |bytes| && bytes[offset] == 0xff && at == SkipFill(bytes, offset, limit) < limit
    ensures offset < at && bytes[at] != 0xff && Holds(bytes, offset, Marker(at - offset - 1, bytes[at]))
  {
    SkipFillSkips(bytes, offset, limit);
    assert bytes[offset..at + 1] == Fill(at - offset) + [bytes[at]];
  }

  lemma U16Held(bytes: seq<Byte>, offset: nat)
    requires offset + 2 <= |bytes|
    ensures Holds(bytes, offset, U16(At(bytes, offset) * 0x100 + At(bytes, offset + 1)))
  {
  }

  /** The length field the walk accepted, and where it jumps to. */
  lemma SegmentFits(bytes: seq<Byte>, at: nat) returns (length: nat)
    requires at < ScanLimit(bytes) && JpegMarker(bytes, at).Some? && !IsFrameMarker(bytes[at])
      && !IsStandalone(bytes[at])
    ensures 2 <= length && at + 1 + length <= ScanLimit(bytes)
      && length == At(bytes, at + 1) * 0x100 + At(bytes, at + 2)
    ensures !EndsScan(bytes[at]) && JpegMarker(bytes, at) == JpegFrom(bytes, at + 1 + length)
  {
    length := ReadUint16BigEndian(bytes, at + 1, ScanLimit(bytes)).value;
  }

  /** A segment the walk passed over is the encoding of a valid part. */
  lemma SegmentFields(bytes: seq<Byte>, offset: nat, at: nat, length: nat) returns (p: Part)
    requires offset < at && 2 <= length && at + 1 + length <= |bytes|
    requires Holds(bytes, offset, Marker(at - offset - 1, bytes[at])) && bytes[at] != 0xff
    requires !IsFrameMarker(bytes[at]) && !IsStandalone(bytes[at]) && !EndsScan(bytes[at])
    requires length == At(bytes, at + 1) * 0x100 + At(bytes, at + 2)
    ensures p.Valid() && Holds(bytes, offset, p.Encode()) && offset + |p.Encode()| == at + 1 + length
  {
    U16Held(bytes, at + 1);
    MarkersAgree(bytes[at]);
    p := Segment(at - offset - 1, bytes[at], bytes[at + 3..at + 1 + length]);
    SegmentLayout(bytes, offset, p);
  }

  /** A part the walk passed over is the encoding of a valid part. */
  lemma PartIsParsed(bytes: seq<Byte>, offset: nat, at: nat) returns (p: Part)
    requires offset < at < ScanLimit(bytes) && Holds(bytes, offset, Marker(at - offset - 1, bytes[at]))
      && bytes[at] != 0xff
    requires JpegMarker(bytes, at).Some? && !IsFrameMarker(bytes[at])
    ensures p.Valid() && offset + |p.Encode()| <= ScanLimit(bytes) && Holds(bytes, offset, p.Encode())
    ensures JpegMarker(bytes, at) == JpegFrom(bytes, offset + |p.Encode()|)
  {
    MarkersAgree(bytes[at]);
    if IsStandalone(bytes[at]) {
      p := Standalone(at - offset - 1, bytes[at]);
      assert offset + |p.Encode()| == at + 1;
    } else {
      var length := SegmentFits(bytes, at);
      p := SegmentFields(bytes, offset, at, length);
    }
  }

  lemma FrameFields(bytes: seq<Byte>, offset: nat, at: nat, length: nat) returns (f: Frame)
    requires offset < at && 8 <= length && at + 1 + length <= |bytes|
    requires Holds(bytes, offset, Marker(at - offset - 1, bytes[at])) && IsFrameMarker(bytes[at])
    requires length == At(bytes, at + 1) * 0x100 + At(bytes, at + 2)
    ensures f.Valid() && Holds(bytes, offset, f.Encode()) && offset + |f.Encode()| == at + 1 + length
    ensures f.height == At(bytes, at + 4) * 0x100 + At(bytes, at + 5)
    ensures f.width == At(bytes, at + 6) * 0x100 + At(bytes, at + 7)
  {
    var h := At(bytes, at + 4) * 0x100 + At(bytes, at + 5);
    var w := At(bytes, at + 6) * 0x100 + At(bytes, at + 7);
    f := Frame(at - offset - 1, bytes[at], bytes[at + 3], h, w, bytes[at + 8..at + 1 + length]);
    U16Held(bytes, at + 1);
    U16Held(bytes, at + 4);
    U16Held(bytes, at + 6);
    MarkersAgree(bytes[at]);
    FrameLayout(bytes, offset, f);
  }

  /** The frame header the walk stopped at. */
  lemma FrameIsParsed(bytes: seq<Byte>, offset: nat, at: nat) returns (f: Frame)
    requires offset < at < ScanLimit(bytes) && Holds(bytes, offset, Marker(at - offset - 1, bytes[at]))
    requires JpegMarker(bytes, at).Some? && IsFrameMarker(bytes[at])
    ensures f.Valid() && offset + |f.Encode()| <= ScanLimit(bytes) && Holds(bytes, offset, f.Encode())
    ensures JpegMarker(bytes, at) == Some(Dimensions(f.width, f.height))
  {
    var length := ReadUint16BigEndian(bytes, at + 1, ScanLimit(bytes)).value;
    f := FrameFields(bytes, offset, at, length);
  }

  ghost predicate FrameAt(bytes: seq<Byte>, offset: nat, f: Frame) {
    && f.Valid() && Holds(bytes, offset, f.Encode()) && offset + |f.Encode()| <= ScanLimit(bytes)
    && JpegFrom(bytes, offset) == Some(Dimensions(f.width, f.height))
  }

  /** The parts up to a frame header with the walk's dimensions stand from `offset` on. */
  ghost predicate StopsAt(bytes: seq<Byte>, offset: nat) {
    exists f: Frame :: FrameAt(bytes, offset, f)
  }

  lemma MarkerIsReached(bytes: seq<Byte>, offset: nat) returns (at: nat)
    requires JpegFrom(bytes, offset).Some?
    ensures offset < at < ScanLimit(bytes) && bytes[at] != 0xff && JpegFrom(bytes, offset) == JpegMarker(bytes, at)
    ensures Holds(bytes, offset, Marker(at - offset - 1, bytes[at]))
  {
    at := SkipFill(bytes, offset, ScanLimit(bytes));
    MarkerHeld(bytes, offset, ScanLimit(bytes), at);
  }

  /** From every position with a result the walk stops at a frame header or steps over a part. */
  lemma WalkStopsOrSteps(bytes: seq<Byte>, offset: nat)
    requires JpegFrom(bytes, offset).Some?
    ensures StopsAt(bytes, offset) || exists next: nat ::
      StepsOver(bytes, ScanLimit(bytes), IS_PART, PART_BYTES, offset, next)
        && JpegFrom(bytes, offset) == JpegFrom(bytes, next)
  {
    var at := MarkerIsReached(bytes, offset);
    if IsFrameMarker(bytes[at]) {
      var f := FrameIsParsed(bytes, offset, at);
      assert FrameAt(bytes, offset, f);
    } else {
      var p := PartIsParsed(bytes, offset, at);
      var next := offset + |PART_BYTES(p)|;
      PartStartsWithFill(p);
      assert ItemAt(bytes, ScanLimit(bytes), IS_PART, PART_BYTES, offset, p);
      assert StepsOver(bytes, ScanLimit(bytes), IS_PART, PART_BYTES, offset, next);
    }
  }

  ghost function LiveOf(bytes: seq<Byte>): nat -> bool {
    (o: nat) => JpegFrom(bytes, o).Some?
  }

  ghost function StopsOf(bytes: seq<Byte>): nat -> bool {
    (o: nat) => StopsAt(bytes, o)
  }

  lemma EveryWalkStopsOrSteps(bytes: seq<Byte>)
    ensures forall o: nat ::
      Progress(bytes, ScanLimit(bytes), IS_PART, PART_BYTES, WalkOf(bytes), LiveOf(bytes), StopsOf(bytes), o)
  {
    forall o: nat
      ensures Progress(bytes, ScanLimit(bytes), IS_PART, PART_BYTES, WalkOf(bytes), LiveOf(bytes), StopsOf(bytes), o)
    {
      if JpegFrom(bytes, o).Some? {
        WalkStopsOrSteps(bytes, o);
      }
    }
  }

  /** Conversely, dimensions found from `offset` on are those of a frame header preceded by parts only. */
  lemma JpegIsParsed(bytes: seq<Byte>, offset: nat) returns (parts: seq<Part>, f: Frame)
    requires offset <= ScanLimit(bytes) && JpegFrom(bytes, offset).Some?
    ensures All(IS_PART, parts) && Holds(bytes, offset, Flatten(PART_BYTES, parts))
    ensures FrameAt(bytes, offset + |Flatten(PART_BYTES, parts)|, f)
      && JpegFrom(bytes, offset) == Some(Dimensions(f.width, f.height))
  {
    EveryWalkStopsOrSteps(bytes);
    parts := ItemsAreParsed(bytes, ScanLimit(bytes), IS_PART, PART_BYTES, WalkOf(bytes), LiveOf(bytes),
      StopsOf(bytes), offset);
    f :| FrameAt(bytes, offset + |Flatten(PART_BYTES, parts)|, f);
  }

  /** `bytes` is a start of image, parts and a w by h frame header within the scan limit, then anything. */
  ghost predicate IsJpegOf(bytes: seq<Byte>, w: int, h: int) {
    exists parts: seq<Part>, f: Frame, tail: seq<Byte> {:trigger EncodeJpeg(parts, f) + tail} ::
      && All(IS_PART, parts) && f.Valid() && f.width == w && f.height == h
      && |EncodeJpeg(parts, f)| <= SCANNED_BYTES && bytes == EncodeJpeg(parts, f) + tail
  }

  lemma ThreePieces(bytes: seq<Byte>, a: seq<Byte>, b: seq<Byte>)
    requires |bytes| >= 2 && bytes[0] == 0xff && bytes[1] == 0xd8
    requires Holds(bytes, 2, a) && Holds(bytes, 2 + |a|, b)
    ensures bytes == [0xff, 0xd8] + a + b + bytes[2 + |a| + |b|..]
  {
  }

  lemma JpegWhole(bytes: seq<Byte>, parts: seq<Part>, f: Frame)
    requires All(IS_PART, parts) && MatchesBytes(bytes, 0, [0xff, 0xd8, 0xff])
    requires Holds(bytes, 2, Flatten(PART_BYTES, parts)) && FrameAt(bytes, 2 + |Flatten(PART_BYTES, parts)|, f)
    ensures IsJpegOf(bytes, f.width, f.height)
  {
    var start: seq<Byte> := [0xff, 0xd8, 0xff];
    assert bytes[0 + 0] == start[0] && bytes[0 + 1] == start[1];
    ThreePieces(bytes, Flatten(PART_BYTES, parts), f.Encode());
    var tail := bytes[|EncodeJpeg(parts, f)|..];
    assert bytes == EncodeJpeg(parts, f) + tail;
  }

  lemma JpegOfIsDetected(bytes: seq<Byte>, w: int, h: int)
    requires w > 0 && h > 0 && IsJpegOf(bytes, w, h)
    ensures Detect(bytes) == Some(DetectedImage(Jpg, Some(w), Some(h)))
  {
    var parts: seq<Part>, f: Frame, tail: seq<Byte> :|
      && All(IS_PART, parts) && f.Valid() && f.width == w && f.height == h
      && |EncodeJpeg(parts, f)| <= SCANNED_BYTES && bytes == EncodeJpeg(parts, f) + tail;
    JpegRoundTrip(parts, f, tail);
  }

  /** The detector reports a JPEG of w by h exactly for the byte arrays of that grammar. */
  lemma JpegDetectedExactly(bytes: seq<Byte>, w: int, h: int)
    ensures Detect(bytes) == Some(DetectedImage(Jpg, Some(w), Some(h))) <==> w > 0 && h > 0 && IsJpegOf(bytes, w, h)
  {
    if Detect(bytes) == Some(DetectedImage(Jpg, Some(w), Some(h))) {
      JpegRange(bytes, 2);
      var parts, f := JpegIsParsed(bytes, 2);
      JpegWhole(bytes, parts, f);
    }
    if w > 0 && h > 0 && IsJpegOf(bytes, w, h) {
      JpegOfIsDetected(bytes, w, h);
    }
  }
}
