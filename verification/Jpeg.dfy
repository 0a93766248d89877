/** The search for the EXIF segment in a JPEG stream. */
module Jpeg {
  import opened Photos
  import opened Raw
  import Exif

  datatype JpegError = EndOfData | NotJpeg | BadMarker | NoExif | BadLength | BadExif(error: Exif.ExifError)

  /** Markers that stand alone, without a length. */
  predicate StandsAlone(marker: byte) {
    marker == 0x01 || 0xD0 <= marker <= 0xD7
  }

  /** Start of scan and end of image: no metadata after these. */
  predicate EndsMetadata(marker: byte) {
    marker == 0xDA || marker == 0xD9
  }

  const EXIF_MARK: seq<byte> := ['E' as int, 'x' as int, 'i' as int, 'f' as int, 0, 0]

  predicate IsExif(marker: byte, body: seq<byte>) {
    marker == 0xE1 && |body| >= 6 && body[..6] == EXIF_MARK
  }

  /** What follows the start-of-image marker, up to the payload of the first EXIF segment. */
  function FindExif(input: seq<byte>): Result<seq<byte>, JpegError>
    decreases |input|
  {
    if |input| < 2 then Err(EndOfData)
    else if input[0] != 0xFF then Err(BadMarker)
    else if StandsAlone(input[1]) then FindExif(input[2..])
    else if EndsMetadata(input[1]) then Err(NoExif)
    else if |input| < 4 then Err(EndOfData)
    else
      var length := U16(Big, input[2..4]) - 2;
      if length < 0 || length > 0x10_0000 then Err(BadLength)
      else if |input| < 4 + length then Err(EndOfData)
      else if IsExif(input[1], input[4..4 + length]) then Ok(input[10..4 + length])
      else FindExif(input[4 + length..])
  }

  function ReadFrom(input: seq<byte>, parseDate: Exif.Text -> Option<Time>): Result<Exif.Info, JpegError> {
    match FindExif(input)
    case Err(e) => Err(e)
    case Ok(tiff) =>
      match Exif.Parse(tiff, parseDate)
      case Ok(info) => Ok(info)
      case Err(e) => Err(BadExif(e))
  }

  /** Consumes the stream segment by segment; every round consumes at least a marker. */
  method ReadExif(stream: seq<byte>, parseDate: Exif.Text -> Option<Time>) returns (r: Result<Exif.Info, JpegError>)
    ensures |stream| < 2 ==> r == Err(EndOfData)
    ensures |stream| >= 2 && stream[..2] != [0xFF, 0xD8] ==> r == Err(NotJpeg)
    ensures |stream| >= 2 && stream[..2] == [0xFF, 0xD8] ==> r == ReadFrom(stream[2..], parseDate)
  {
    if |stream| < 2 {
      return Err(EndOfData);
    }
    if stream[0] != 0xFF || stream[1] != 0xD8 {
      return Err(NotJpeg);
    }
    var input := stream[2..];
    while true
      invariant FindExif(input) == FindExif(stream[2..])
      decreases |input|
    {
      if |input| < 2 {
        return Err(EndOfData);
      }
      if input[0] != 0xFF {
        return Err(BadMarker);
      }
      var marker := input[1];
      if StandsAlone(marker) {
        input := input[2..];
        continue;
      }
      if EndsMetadata(marker) {
        return Err(NoExif);
      }
      if |input| < 4 {
        return Err(EndOfData);
      }
      var length := U16(Big, input[2..4]) - 2;
      if length < 0 || length > 0x10_0000 {
        return Err(BadLength);
      }
      if |input| < 4 + length {
        return Err(EndOfData);
      }
      var segment := input[4..4 + length];
      if IsExif(marker, segment) {
        assert segment[6..] == input[10..4 + length];
        var parsed := Exif.ParseExif(segment[6..], parseDate);
        match parsed {
          case Ok(info) => return Ok(info);
          case Err(e) => return Err(BadExif(e));
        }
      }
      input := input[4 + length..];
    }
  }

  // ---------- Streams as a writer makes them ----------

  datatype Segment = Alone(marker: byte) | WithBody(marker: byte, body: seq<byte>)

  /** A segment the search passes over. */
  predicate IsPassed(s: Segment) {
    match s
    case Alone(marker) => StandsAlone(marker)
    case WithBody(marker, body) =>
      !StandsAlone(marker) && !EndsMetadata(marker) && |body| <= 0xFFFD && !IsExif(marker, body)
  }

  function EncodeBody(marker: byte, body: seq<byte>): seq<byte>
    requires |body| <= 0xFFFD
  {
    [0xFF, marker] + Exif.B16(Big, |body| + 2) + body
  }

  function EncodeSegment(s: Segment): (b: seq<byte>)
    requires IsPassed(s)
    ensures |b| >= 2
  {
    match s
    case Alone(marker) => [0xFF, marker]
    case WithBody(marker, body) => EncodeBody(marker, body)
  }

  function EncodeSegments(segments: seq<Segment>): seq<byte>
    requires forall s :: s in segments ==> IsPassed(s)
  {
    if segments == [] then []
    else
      assert segments[0] in segments;
      EncodeSegment(segments[0]) + EncodeSegments(segments[1..])
  }

  /** What the search does at a marker, for every marker byte there is. */
  lemma MarkersMean(first: byte, marker: byte, rest: seq<byte>)
    ensures first != 0xFF ==> FindExif([first, marker] + rest) == Err(BadMarker)
    ensures marker == 0x01 || 0xD0 <= marker <= 0xD7 ==> FindExif([0xFF, marker] + rest) == FindExif(rest)
    ensures marker == 0xD9 || marker == 0xDA ==> FindExif([0xFF, marker] + rest) == Err(NoExif)
    ensures marker != 0x01 && !(0xD0 <= marker <= 0xD7) && marker != 0xD9 && marker != 0xDA ==>
      && FindExif([0xFF, marker, 0, 2] + rest) == FindExif(rest)
      && FindExif([0xFF, marker, 0, 1] + rest) == FindExif([0xFF, marker, 0, 0] + rest) == Err(BadLength)
  {
    assert ([0xFF, marker] + rest)[2..] == rest;
    var short := [0xFF, marker, 0, 2] + rest;
    assert short[2..4] == [0, 2] && short[4..] == rest;
    assert ([0xFF, marker, 0, 1] + rest)[2..4] == [0, 1] && ([0xFF, marker, 0, 0] + rest)[2..4] == [0, 0];
  }

  /** The bytes that an EXIF segment starts with. */
  lemma ExifSegmentStarts(tiff: seq<byte>)
    requires |tiff| <= 0xFFF7
    ensures EncodeBody(0xE1, EXIF_MARK + tiff)[..2] == [0xFF, 0xE1]
    ensures EncodeBody(0xE1, EXIF_MARK + tiff)[4..] == [0x45, 0x78, 0x69, 0x66, 0, 0] + tiff
    ensures var b := EncodeBody(0xE1, EXIF_MARK + tiff); 256 * (b[2] as int) + b[3] as int == |tiff| + 8
  {
    assert EXIF_MARK == [0x45, 0x78, 0x69, 0x66, 0, 0];
  }

  lemma BodyRead(marker: byte, body: seq<byte>, rest: seq<byte>)
    requires |body| <= 0xFFFD && !StandsAlone(marker) && !EndsMetadata(marker)
    ensures FindExif(EncodeBody(marker, body) + rest) == if IsExif(marker, body) then Ok(body[6..]) else FindExif(rest)
  {
    var input := EncodeBody(marker, body) + rest;
    assert input[2..4] == Exif.B16(Big, |body| + 2);
    Exif.Decode16(Big, |body| + 2);
    assert input[4..4 + |body|] == body && input[4 + |body|..] == rest;
    if IsExif(marker, body) {
      assert input[10..4 + |body|] == body[6..];
    }
  }

  lemma SegmentPassed(s: Segment, rest: seq<byte>)
    requires IsPassed(s)
    ensures FindExif(EncodeSegment(s) + rest) == FindExif(rest)
  {
    match s {
      case Alone(marker) => assert ([0xFF, marker] + rest)[2..] == rest;
      case WithBody(marker, body) => BodyRead(marker, body, rest);
    }
  }

  lemma {:induction false} SegmentsPassed(segments: seq<Segment>, rest: seq<byte>)
    requires forall s :: s in segments ==> IsPassed(s)
    ensures FindExif(EncodeSegments(segments) + rest) == FindExif(rest)
    decreases |segments|
  {
    if segments == [] {
      assert EncodeSegments(segments) + rest == rest;
    } else {
      assert segments[0] in segments;
      var tail := EncodeSegments(segments[1..]);
      SegmentPassed(segments[0], tail + rest);
      SegmentsPassed(segments[1..], rest);
      Regrouped(EncodeSegment(segments[0]), tail, rest);
    }
  }

  lemma Regrouped(a: seq<byte>, b: seq<byte>, c: seq<byte>)
    ensures a + b + c == a + (b + c)
  {
  }

  /** Whatever segments come before and whatever comes after, the first EXIF segment is found, and
      its payload is what is parsed. */
  lemma FirstExifIsFound(segments: seq<Segment>, tiff: seq<byte>, rest: seq<byte>)
    requires (forall s :: s in segments ==> IsPassed(s)) && |tiff| <= 0xFFF7
    ensures FindExif(EncodeSegments(segments) + (EncodeBody(0xE1, EXIF_MARK + tiff) + rest)) == Ok(tiff)
  {
    SegmentsPassed(segments, EncodeBody(0xE1, EXIF_MARK + tiff) + rest);
    BodyRead(0xE1, EXIF_MARK + tiff, rest);
  }

  // ---------- What the search finds, for all streams ----------

  /** The length that a segment declares for its body. */
  function DeclaredLength(tail: seq<byte>): int
    requires |tail| >= 4
  {
    U16(Big, tail[2..4]) - 2
  }

  /** The stream goes on with a marker that is followed by a body. */
  predicate StartsBody(tail: seq<byte>) {
    |tail| >= 2 && tail[0] == 0xFF && !StandsAlone(tail[1]) && !EndsMetadata(tail[1])
  }

  /** What is left of the stream after the segments passed over ends the search, with this result. */
  ghost predicate StopsWith(tail: seq<byte>, r: Result<seq<byte>, JpegError>) {
    match r
    case Ok(tiff) => |tiff| <= 0xFFF7 && EncodeBody(0xE1, EXIF_MARK + tiff) <= tail
    case Err(BadMarker) => |tail| >= 2 && tail[0] != 0xFF
    case Err(NoExif) => |tail| >= 2 && tail[0] == 0xFF && EndsMetadata(tail[1])
    case Err(BadLength) => StartsBody(tail) && |tail| >= 4 && DeclaredLength(tail) < 0
    case Err(EndOfData) =>
      |tail| < 2 || (StartsBody(tail) &&
        (|tail| < 4 || (DeclaredLength(tail) >= 0 && |tail| < 4 + DeclaredLength(tail))))
    case Err(_) => false
  }

  ghost predicate AllPassed(segments: seq<Segment>) {
    forall s :: s in segments ==> IsPassed(s)
  }

  /** The stream is the segments, then the tail, which ends the search with this result. */
  ghost predicate Splits(input: seq<byte>, segments: seq<Segment>, tail: seq<byte>, r: Result<seq<byte>, JpegError>) {
    AllPassed(segments) && input == EncodeSegments(segments) + tail && StopsWith(tail, r)
  }

  lemma Encode16(x: byte, y: byte)
    ensures Exif.B16(Big, U16(Big, [x, y])) == [x, y]
  {
  }

  /** A segment that is all there is the encoding of its body. */
  lemma BodyBytes(tail: seq<byte>)
    requires StartsBody(tail) && |tail| >= 4 && 0 <= DeclaredLength(tail) && 4 + DeclaredLength(tail) <= |tail|
    ensures DeclaredLength(tail) <= 0xFFFD
    ensures var n := 4 + DeclaredLength(tail); tail[..n] == EncodeBody(tail[1], tail[4..n])
  {
    var n := 4 + DeclaredLength(tail);
    Encode16(tail[2], tail[3]);
    assert tail[2..4] == [tail[2], tail[3]];
    assert tail[..n] == [tail[0], tail[1]] + tail[2..4] + tail[4..n];
  }

  lemma StopIsFound(tail: seq<byte>, r: Result<seq<byte>, JpegError>)
    requires StopsWith(tail, r)
    ensures FindExif(tail) == r
  {
    if r.Ok? {
      var body := EncodeBody(0xE1, EXIF_MARK + r.value);
      BodyRead(0xE1, EXIF_MARK + r.value, tail[|body|..]);
      assert body + tail[|body|..] == tail;
    }
  }

  /** What the search finds in a stream splits it into segments passed over and a tail that ends it. */
  lemma {:induction false} SplitStream(input: seq<byte>) returns (segments: seq<Segment>, tail: seq<byte>)
    ensures Splits(input, segments, tail, FindExif(input))
    decreases |input|
  {
    if |input| >= 2 && input[0] == 0xFF && StandsAlone(input[1]) {
      segments, tail := SplitStream(input[2..]);
      segments := PrependPassed(input, Alone(input[1]), input[2..], segments, tail);
    } else if StartsBody(input) && |input| >= 4 && 0 <= DeclaredLength(input) && 4 + DeclaredLength(input) <= |input|
              && !IsExif(input[1], input[4..4 + DeclaredLength(input)]) {
      var n := 4 + DeclaredLength(input);
      BodyBytes(input);
      assert input == EncodeBody(input[1], input[4..n]) + input[n..];
      segments, tail := SplitStream(input[n..]);
      segments := PrependPassed(input, WithBody(input[1], input[4..n]), input[n..], segments, tail);
    } else {
      segments, tail := [], input;
      assert EncodeSegments([]) + input == input;
      SearchStops(input);
    }
  }

  lemma SliceParts(input: seq<byte>, n: nat)
    requires 10 <= n <= |input|
    ensures input[4..n] == input[4..n][..6] + input[10..n] && input[..n] <= input
  {
  }

  /** The next piece is the EXIF segment. */
  lemma ExifStops(input: seq<byte>)
    requires StartsBody(input) && |input| >= 4 && 0 <= DeclaredLength(input) && 4 + DeclaredLength(input) <= |input|
    requires IsExif(input[1], input[4..4 + DeclaredLength(input)])
    ensures StopsWith(input, FindExif(input))
  {
    var n := 4 + DeclaredLength(input);
    BodyBytes(input);
    SliceParts(input, n);
    ExifPayload(input, n, input[4..n], input[10..n], EncodeBody(0xE1, input[4..n]));
  }

  lemma ExifPayload(input: seq<byte>, n: nat, body: seq<byte>, tiff: seq<byte>, part: seq<byte>)
    requires FindExif(input) == Ok(tiff) && |body| <= 0xFFFD && |body| == 6 + |tiff|
    requires body == EXIF_MARK + tiff && part == EncodeBody(0xE1, body) && part <= input
    ensures StopsWith(input, FindExif(input))
  {
  }

  /** A stream whose next piece is not passed over. */
  lemma SearchStops(input: seq<byte>)
    requires !(|input| >= 2 && input[0] == 0xFF && StandsAlone(input[1]))
    requires StartsBody(input) && |input| >= 4 && 0 <= DeclaredLength(input) && 4 + DeclaredLength(input) <= |input| ==>
      IsExif(input[1], input[4..4 + DeclaredLength(input)])
    ensures StopsWith(input, FindExif(input))
  {
    if StartsBody(input) && |input| >= 4 && 0 <= DeclaredLength(input) && 4 + DeclaredLength(input) <= |input| {
      ExifStops(input);
    }
  }

  lemma OneMoreEncoded(s: Segment, segments: seq<Segment>)
    requires IsPassed(s) && forall t :: t in segments ==> IsPassed(t)
    ensures EncodeSegments([s] + segments) == EncodeSegment(s) + EncodeSegments(segments)
  {
    var longer := [s] + segments;
    assert longer[0] == s && longer[1..] == segments;
  }

  lemma JoinedInFront(a: seq<byte>, b: seq<byte>, tail: seq<byte>)
    ensures a + (b + tail) == (a + b) + tail
  {
  }

  lemma OneMoreSplit(input: seq<byte>, s: Segment, rest: seq<byte>, segments: seq<Segment>, tail: seq<byte>,
                     r: Result<seq<byte>, JpegError>)
    requires IsPassed(s) && input == EncodeSegment(s) + rest && Splits(rest, segments, tail, r)
    ensures Splits(input, [s] + segments, tail, r)
  {
    OneMoreEncoded(s, segments);
    JoinedInFront(EncodeSegment(s), EncodeSegments(segments), tail);
  }

  lemma PrependPassed(input: seq<byte>, s: Segment, rest: seq<byte>, segments: seq<Segment>, tail: seq<byte>)
    returns (longer: seq<Segment>)
    requires IsPassed(s) && input == EncodeSegment(s) + rest && Splits(rest, segments, tail, FindExif(rest))
    ensures Splits(input, longer, tail, FindExif(input))
  {
    longer := [s] + segments;
    SegmentPassed(s, rest);
    OneMoreSplit(input, s, rest, segments, tail, FindExif(rest));
  }

  /** The search has a result exactly if the stream consists of segments to be passed over and something that
      ends the search with that result: the first EXIF segment, a start of scan or end of image, a byte that
      is no marker, a length too small, or the end of the data. */
  lemma SearchIsDetermined(input: seq<byte>, r: Result<seq<byte>, JpegError>)
    ensures FindExif(input) == r <==> exists segments, tail :: Splits(input, segments, tail, r)
  {
    if segments, tail :| Splits(input, segments, tail, r) {
      SegmentsPassed(segments, tail);
      StopIsFound(tail, r);
    }
    if FindExif(input) == r {
      var segments, tail := SplitStream(input);
    }
  }
}
