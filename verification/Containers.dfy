/**
 Image container scanner (product_image_sanitizer.py): the byte scanners that reject
 payloads trailing a PNG, JPEG or WebP image.

 Each format is described by a grammar of encoders, written without reference to any
 scanning: a byte string is in the language when some well-formed structure encodes to
 it.  The scanning methods are proved to accept exactly that language, and the language
 of every format is proved prefix-free.
 */
module Containers {
  import opened Common

  datatype Format = Png | Jpeg | Webp

  /******* Fixed-width integers *******/

  function Be16(s: bytes): nat
    requires |s| == 2
  {
    256 * (s[0] as int) + s[1] as int
  }

  function Be32(s: bytes): nat
    requires |s| == 4
  {
    Be16(s[..2]) * 65536 + Be16(s[2..])
  }

  function Be16Bytes(n: nat): bytes
    requires n < 0x1_0000
  {
    [n / 256, n % 256]
  }

  function Be32Bytes(n: nat): bytes
    requires n < 0x1_0000_0000
  {
    Be16Bytes(n / 65536) + Be16Bytes(n % 65536)
  }

  function Le32Bytes(n: nat): bytes
    requires n < 0x1_0000_0000
  {
    [n % 256, n / 256 % 256, n / 65536 % 256, n / 16777216]
  }

  function Le32(s: bytes): nat
    requires |s| == 4
  {
    s[0] as int + 256 * (s[1] as int) + 65536 * (s[2] as int) + 16777216 * (s[3] as int)
  }

  lemma Be16Inverse(s: bytes, n: nat)
    requires |s| == 2
    ensures Be16(s) < 0x1_0000
    ensures n < 0x1_0000 ==> (s == Be16Bytes(n) <==> Be16(s) == n)
  {
  }

  lemma Be32Inverse(s: bytes, n: nat)
    requires |s| == 4
    ensures Be32(s) < 0x1_0000_0000
    ensures n < 0x1_0000_0000 ==> (s == Be32Bytes(n) <==> Be32(s) == n)
  {
    if n < 0x1_0000_0000 {
      Be16Inverse(s[..2], n / 65536);
      Be16Inverse(s[2..], n % 65536);
      assert s == s[..2] + s[2..];
      if s == Be32Bytes(n) {
        assert s[..2] == Be16Bytes(n / 65536) && s[2..] == Be16Bytes(n % 65536);
      }
    }
  }

  lemma Le32Inverse(s: bytes, n: nat)
    requires |s| == 4 && n < 0x1_0000_0000
    ensures s == Le32Bytes(n) <==> Le32(s) == n
  {
    if Le32(s) == n {
      assert n / 16777216 == s[3];
      assert n / 65536 == s[2] as int + 256 * (s[3] as int);
      assert n / 256 == s[1] as int + 256 * (s[2] as int) + 65536 * (s[3] as int);
    }
  }

  /******* WebP *******/

  const RIFF: bytes := [0x52, 0x49, 0x46, 0x46]
  const WEBP: bytes := [0x57, 0x45, 0x42, 0x50]

  // A RIFF header whose size field counts every byte after itself.
  ghost predicate WebpLanguage(d: bytes) {
    exists body: bytes :: IsWebpWith(d, body)
  }

  ghost predicate IsWebpWith(d: bytes, body: bytes) {
    4 + |body| < 0x1_0000_0000 && d == RIFF + Le32Bytes(4 + |body|) + WEBP + body
  }

  method ScanWebp(data: bytes) returns (ok: bool)
    ensures ok <==> WebpLanguage(data)
  {
    ok := |data| >= 12 && data[..4] == RIFF && data[8..12] == WEBP && Le32(data[4..8]) + 8 == |data|;
    if ok {
      var body := data[12..];
      Le32Inverse(data[4..8], 4 + |body|);
      assert data == data[..4] + data[4..8] + data[8..12] + data[12..];
      assert IsWebpWith(data, body);
    } else if body: bytes :| IsWebpWith(data, body) {
      Le32Inverse(data[4..8], 4 + |body|);
      assert false;
    }
  }

  /******* PNG *******/

  const PNG_SIGNATURE: bytes := [0x89, 0x50, 0x4E, 0x47, 0x0D, 0x0A, 0x1A, 0x0A]
  const IEND: bytes := [0x49, 0x45, 0x4E, 0x44]

  datatype Chunk = Chunk(kind: bytes, payload: bytes, crc: bytes) {
    predicate Legal() {
      |kind| == 4 && |crc| == 4 && |payload| < 0x1_0000_0000
    }

    function Encode(): bytes
      requires Legal()
    {
      Be32Bytes(|payload|) + kind + payload + crc
    }
  }

  function EncodeChunks(chunks: seq<Chunk>): bytes
    requires forall c <- chunks :: c.Legal()
  {
    if chunks == [] then [] else chunks[0].Encode() + EncodeChunks(chunks[1..])
  }

  // Legal chunks, of which the last and only the last is IEND, with no payload.
  ghost predicate PngStream(chunks: seq<Chunk>) {
    && (forall c <- chunks :: c.Legal())
    && |chunks| > 0
    && (forall i :: 0 <= i < |chunks| ==> (chunks[i].kind == IEND <==> i == |chunks| - 1))
    && chunks[|chunks| - 1].payload == []
  }

  ghost predicate IsPngWith(d: bytes, chunks: seq<Chunk>) {
    PngStream(chunks) && d == PNG_SIGNATURE + EncodeChunks(chunks)
  }

  ghost predicate PngLanguage(d: bytes) {
    exists chunks: seq<Chunk> :: IsPngWith(d, chunks)
  }

  // The verdict of the chunk loop on the bytes left.
  function PngOn(s: bytes): bool {
    if |s| < 12 then false
    else
      var length, kind := Be32(s[..4]), s[4..8];
      if length + 12 > |s| then false
      else if kind == IEND then length == 0 && |s| == 12
      else PngOn(s[length + 12..])
  }

  lemma ChunkHead(c: Chunk, rest: bytes)
    requires c.Legal()
    ensures var s := c.Encode() + rest;
            && |s| == |c.payload| + 12 + |rest|
            && Be32(s[..4]) == |c.payload| && s[4..8] == c.kind && s[|c.payload| + 12..] == rest
  {
    var s := c.Encode() + rest;
    assert s[..4] == Be32Bytes(|c.payload|);
    Be32Inverse(s[..4], |c.payload|);
  }

  lemma ChunkSplit(s: bytes, length: nat)
    requires length + 12 <= |s| && length < 0x1_0000_0000 && s[..4] == Be32Bytes(length)
    ensures var c := Chunk(s[4..8], s[8..8 + length], s[8 + length..length + 12]);
      c.Legal() && s == c.Encode() + s[length + 12..]
  {
    hide Be32Bytes;
    assert s == s[..4] + s[4..8] + s[8..8 + length] + s[8 + length..length + 12] + s[length + 12..];
  }

  lemma {:induction false} PngSound(s: bytes) returns (chunks: seq<Chunk>)
    requires PngOn(s)
    ensures PngStream(chunks) && s == EncodeChunks(chunks)
    decreases |s|
  {
    var length := Be32(s[..4]);
    var next := length + 12;
    var c := Chunk(s[4..8], s[8..8 + length], s[8 + length..next]);
    Be32Inverse(s[..4], length);
    ChunkSplit(s, length);
    if c.kind == IEND {
      chunks := [c];
      assert EncodeChunks(chunks) == c.Encode() + EncodeChunks([]);
    } else {
      var rest := PngSound(s[next..]);
      chunks := [c] + rest;
      assert chunks[1..] == rest;
    }
  }

  lemma {:induction false} PngComplete(chunks: seq<Chunk>)
    requires PngStream(chunks)
    ensures PngOn(EncodeChunks(chunks))
  {
    var c, rest := chunks[0], chunks[1..];
    ChunkHead(c, EncodeChunks(rest));
    if rest != [] {
      assert forall i :: 0 <= i < |rest| ==> rest[i] == chunks[i + 1];
      PngComplete(rest);
    }
  }

  predicate PngAccepts(d: bytes) {
    |d| >= 8 && d[..8] == PNG_SIGNATURE && PngOn(d[8..])
  }

  // The chunk loop's verdict and the grammar agree.
  lemma PngVerdict(d: bytes)
    ensures PngLanguage(d) <==> PngAccepts(d)
  {
    if PngAccepts(d) {
      var chunks := PngSound(d[8..]);
      assert d == d[..8] + d[8..];
      assert IsPngWith(d, chunks);
    }
    if chunks: seq<Chunk> :| IsPngWith(d, chunks) {
      assert d[..8] == PNG_SIGNATURE && d[8..] == EncodeChunks(chunks);
      PngComplete(chunks);
    }
  }

  // One round of the chunk loop, by offset and by the bytes left.
  lemma ChunkAt(data: bytes, offset: nat)
    requires offset + 12 <= |data|
    ensures var length, kind := Be32(data[offset..offset + 4]), data[offset + 4..offset + 8];
      PngOn(data[offset..]) == (
        if offset + length + 12 > |data| then false
        else if kind == IEND then length == 0 && |data| == offset + 12
        else PngOn(data[offset + length + 12..]))
  {
    var s := data[offset..];
    assert s[..4] == data[offset..offset + 4] && s[4..8] == data[offset + 4..offset + 8];
    var length := Be32(s[..4]);
    assert offset + length + 12 <= |data| ==> s[length + 12..] == data[offset + length + 12..];
  }

  method ScanPng(data: bytes) returns (ok: bool)
    ensures ok <==> PngLanguage(data)
  {
    PngVerdict(data);
    if |data| < 8 || data[..8] != PNG_SIGNATURE {
      return false;
    }
    ok := PngChunks(data);
  }

  method PngChunks(data: bytes) returns (ok: bool)
    requires |data| >= 8
    ensures ok == PngOn(data[8..])
  {
    ok := false;
    var offset := 8;
    ghost var verdict := PngOn(data[8..]);
    while offset + 12 <= |data|
      invariant 8 <= offset <= |data|
      invariant !ok
      invariant verdict == PngOn(data[offset..])
      decreases |data| - offset
    {
      hide PngOn, Be32;
      ChunkAt(data, offset);
      var length := Be32(data[offset..offset + 4]);
      var kind := data[offset + 4..offset + 8];
      var next := offset + length + 12;
      if next > |data| {
        break;
      }
      if kind == IEND && length == 0 && next == |data| {
        ok := true;
        break;
      }
      if kind == IEND {
        break;
      }
      offset := next;
    }
  }

  lemma {:induction false} PngPrefixFree(s: bytes, x: bytes)
    requires PngOn(s) && PngOn(s + x)
    ensures x == []
    decreases |s|
  {
    var next := Be32(s[..4]) + 12;
    assert (s + x)[..4] == s[..4] && (s + x)[4..8] == s[4..8];
    if s[4..8] != IEND {
      assert (s + x)[next..] == s[next..] + x;
      PngPrefixFree(s[next..], x);
    }
  }

  /******* JPEG *******/

  const SOI: bytes := [0xFF, 0xD8]
  const EOI: byte := 0xD9
  const SOS: byte := 0xDA
  const MAX_MARKERS: nat := 100000

  predicate IsRestart(marker: byte) {
    0xD0 <= marker <= 0xD7
  }

  // Markers that stand alone, without a length field.
  predicate IsStandalone(marker: byte) {
    marker == 0x01 || IsRestart(marker)
  }

  function Fill(n: nat): bytes {
    if n == 0 then [] else [0xFF] + Fill(n - 1)
  }

  // Any number of fill bytes may precede a marker.
  function Marker(fill: nat, code: byte): bytes {
    if fill == 0 then [0xFF, code] else [0xFF] + Marker(fill - 1, code)
  }

  // A piece of entropy-coded data: an ordinary byte, a stuffed FF, or a restart marker.
  datatype Unit =
    | Plain(value: byte)
    | Stuffed(fill: nat)
    | Restart(fill: nat, marker: byte)
  {
    predicate Legal() {
      match this
      case Plain(b) => b != 0xFF
      case Stuffed(_) => true
      case Restart(_, m) => IsRestart(m)
    }

    function Encode(): bytes {
      match this
      case Plain(b) => [b]
      case Stuffed(fill) => Marker(fill, 0x00)
      case Restart(fill, m) => Marker(fill, m)
    }
  }

  datatype Segment =
    | Standalone(fill: nat, marker: byte)
    | Delimited(fill: nat, marker: byte, payload: bytes)
    | Scan(fill: nat, payload: bytes, entropy: seq<Unit>, trailing: nat)
  {
    function Code(): byte {
      match this
      case Standalone(_, m) => m
      case Delimited(_, m, _) => m
      case Scan(_, _, _, _) => SOS
    }

    predicate Legal() {
      match this
      case Standalone(_, m) => IsStandalone(m)
      case Delimited(_, m, payload) =>
        !IsStandalone(m) && m !in {0x00, 0xD8, EOI, SOS, 0xFF} && |payload| <= 65533
      case Scan(_, payload, entropy, _) =>
        |payload| <= 65533 && forall u <- entropy :: u.Legal()
    }

    // Everything after the marker itself.  The length field counts its own two bytes.
    function Body(): bytes
      requires Legal()
    {
      match this
      case Standalone(_, _) => []
      case Delimited(_, _, payload) => Be16Bytes(|payload| + 2) + payload
      case Scan(_, payload, entropy, trailing) =>
        Be16Bytes(|payload| + 2) + payload + (EncodeUnits(entropy) + Fill(trailing))
    }
  }

  function EncodeUnits(units: seq<Unit>): bytes {
    if units == [] then [] else units[0].Encode() + EncodeUnits(units[1..])
  }

  ghost predicate LegalSegments(segments: seq<Segment>) {
    forall s <- segments :: s.Legal()
  }

  // The segments followed by an end-of-image marker.
  ghost function EncodeImage(segments: seq<Segment>, fill: nat): bytes
    requires LegalSegments(segments)
  {
    if segments == [] then Marker(fill, EOI)
    else Marker(segments[0].fill, segments[0].Code()) + (segments[0].Body() + EncodeImage(segments[1..], fill))
  }

  ghost predicate IsJpegWith(d: bytes, segments: seq<Segment>, fill: nat, markers: nat) {
    LegalSegments(segments) && |segments| < markers && d == SOI + EncodeImage(segments, fill)
  }

  ghost predicate JpegLanguage(d: bytes, markers: nat) {
    exists segments: seq<Segment>, fill: nat :: IsJpegWith(d, segments, fill, markers)
  }

  // What is left after leading 0xFF bytes.
  function AfterFill(s: bytes): bytes {
    if |s| > 0 && s[0] == 0xFF then AfterFill(s[1..]) else s
  }

  // What is left where the entropy loop stops; nothing when it runs off the end.
  function AfterEntropy(s: bytes): bytes {
    if |s| <= 1 then []
    else if s[0] != 0xFF then AfterEntropy(s[1..])
    else if s[1] == 0x00 || IsRestart(s[1]) then AfterEntropy(s[2..])
    else if s[1] == 0xFF then AfterEntropy(s[1..])
    else s
  }

  // The verdict of the marker loop on the bytes left, with `budget` iterations left.
  function JpegOn(s: bytes, budget: nat): bool
    decreases budget, 0
  {
    if budget == 0 || |s| < 2 || s[0] != 0xFF then false
    else
      var t := AfterFill(s);
      t != [] && JpegAfterMarker(t[0], t[1..], budget - 1)
  }

  // The rest of an iteration that has just read the marker `code`.
  function JpegAfterMarker(code: byte, s: bytes, budget: nat): bool
    decreases budget, 1
  {
    if code == EOI then s == []
    else if code in {0xD8, 0x00} then false
    else if IsStandalone(code) then JpegOn(s, budget)
    else if |s| < 2 || Be16(s[..2]) < 2 || Be16(s[..2]) > |s| then false
    else
      var next := s[Be16(s[..2])..];
      JpegOn(if code == SOS then AfterEntropy(next) else next, budget)
  }

  /** Every accepted string is in the language. */

  lemma {:induction false} AfterFillSound(s: bytes) returns (fill: nat)
    requires |s| > 0 && s[0] == 0xFF && AfterFill(s) != []
    ensures AfterFill(s)[0] != 0xFF
    ensures s == Marker(fill, AfterFill(s)[0]) + AfterFill(s)[1..]
  {
    var t := s[1..];
    assert s == [0xFF] + t;
    if t[0] == 0xFF {
      var f := AfterFillSound(t);
      fill := f + 1;
    } else {
      fill := 0;
      assert t == [t[0]] + t[1..];
    }
  }

  // One more fill byte in front of a unit that starts with 0xFF.
  lemma Prepend(units: seq<Unit>, trailing: nat, tail: bytes) returns (units': seq<Unit>, trailing': nat)
    requires forall u <- units :: u.Legal()
    requires units != [] ==> !units[0].Plain?
    ensures forall u <- units' :: u.Legal()
    ensures EncodeUnits(units') + (Fill(trailing') + tail) == [0xFF] + (EncodeUnits(units) + (Fill(trailing) + tail))
  {
    if units == [] {
      units', trailing' := [], trailing + 1;
    } else {
      var u, rest, end := units[0], units[1..], Fill(trailing) + tail;
      var v := Lengthened(u);
      assert units == [u] + rest && u in units;
      ConsUnit(u, rest, end);
      ConsUnit(v, rest, end);
      assert [0xFF] + (u.Encode() + (EncodeUnits(rest) + end)) == v.Encode() + (EncodeUnits(rest) + end);
      units', trailing' := [v] + rest, trailing;
    }
  }

  function Lengthened(u: Unit): (v: Unit)
    requires !u.Plain?
    ensures v.Encode() == [0xFF] + u.Encode() && v.Legal() == u.Legal()
  {
    if u.Stuffed? then Stuffed(u.fill + 1) else Restart(u.fill + 1, u.marker)
  }

  lemma {:induction false} EntropySound(s: bytes) returns (units: seq<Unit>, trailing: nat)
    requires AfterEntropy(s) != []
    ensures forall u <- units :: u.Legal()
    ensures s == EncodeUnits(units) + (Fill(trailing) + AfterEntropy(s))
    decreases |s|
  {
    var skip := if s[0] != 0xFF then 1
                else if s[1] == 0x00 || IsRestart(s[1]) then 2
                else if s[1] == 0xFF then 1 else 0;
    if skip == 0 {
      units, trailing := [], 0;
    } else {
      units, trailing := EntropySound(s[skip..]);
      assert s == s[..skip] + s[skip..];
      if s[0] == 0xFF && s[1] == 0xFF {
        assert units != [] ==> units[0] in units && s[1] == units[0].Encode()[0];
        units, trailing := Prepend(units, trailing, AfterEntropy(s));
      } else {
        var u := if s[0] != 0xFF then Plain(s[0]) else if s[1] == 0x00 then Stuffed(0) else Restart(0, s[1]);
        assert u.Encode() == s[..skip];
        ConsUnit(u, units, Fill(trailing) + AfterEntropy(s));
        units := [u] + units;
      }
    }
  }

  lemma ConsUnit(u: Unit, units: seq<Unit>, tail: bytes)
    ensures EncodeUnits([u] + units) + tail == u.Encode() + (EncodeUnits(units) + tail)
  {
    assert ([u] + units)[1..] == units;
  }

  lemma ConsSegment(s: Segment, segments: seq<Segment>, fill: nat)
    requires s.Legal() && LegalSegments(segments)
    ensures LegalSegments([s] + segments)
    ensures EncodeImage([s] + segments, fill) == Marker(s.fill, s.Code()) + (s.Body() + EncodeImage(segments, fill))
  {
    assert ([s] + segments)[1..] == segments;
  }

  // The segment read by one iteration of the marker loop, and the bytes that follow it.
  lemma SegmentSound(fill: nat, code: byte, b: bytes, budget: nat) returns (s: Segment, next: bytes)
    requires code !in {EOI, 0xFF} && JpegAfterMarker(code, b, budget)
    ensures s.Legal() && s.fill == fill && s.Code() == code && b == s.Body() + next
    ensures JpegOn(next, budget)
  {
    if IsStandalone(code) {
      s, next := Standalone(fill, code), b;
    } else {
      var payload, rest := SplitLength(b);
      if code == SOS {
        assert !JpegOn([], budget);
        s, next := ScanSound(fill, payload, rest);
      } else {
        s, next := Delimited(fill, code, payload), rest;
      }
    }
  }

  lemma SplitLength(b: bytes) returns (payload: bytes, rest: bytes)
    requires |b| >= 2 && 2 <= Be16(b[..2]) <= |b|
    ensures |payload| <= 65533 && b == Be16Bytes(|payload| + 2) + payload + rest
    ensures rest == b[Be16(b[..2])..]
  {
    var length := Be16(b[..2]);
    payload, rest := b[2..length], b[length..];
    Be16Inverse(b[..2], length);
    assert b == b[..2] + b[2..length] + b[length..];
  }

  lemma ScanSound(fill: nat, payload: bytes, rest: bytes) returns (s: Segment, next: bytes)
    requires |payload| <= 65533 && AfterEntropy(rest) != []
    ensures s.Legal() && s.fill == fill && s.Code() == SOS && next == AfterEntropy(rest)
    ensures Be16Bytes(|payload| + 2) + payload + rest == s.Body() + next
  {
    var units, trailing := EntropySound(rest);
    s, next := Scan(fill, payload, units, trailing), AfterEntropy(rest);
    var head := Be16Bytes(|payload| + 2) + payload;
    assert head + (EncodeUnits(units) + (Fill(trailing) + next)) == head + (EncodeUnits(units) + Fill(trailing)) + next;
  }

  lemma {:induction false} JpegSound(s: bytes, budget: nat) returns (segments: seq<Segment>, fill: nat)
    requires JpegOn(s, budget)
    ensures LegalSegments(segments) && |segments| < budget && s == EncodeImage(segments, fill)
    decreases budget, 0
  {
    var t := AfterFill(s);
    var f := AfterFillSound(s);
    segments, fill := AfterMarkerSound(f, t[0], t[1..], budget - 1);
  }

  lemma {:induction false} AfterMarkerSound(f: nat, code: byte, b: bytes, budget: nat)
    returns (segments: seq<Segment>, fill: nat)
    requires code != 0xFF && JpegAfterMarker(code, b, budget)
    ensures LegalSegments(segments) && |segments| <= budget
    ensures Marker(f, code) + b == EncodeImage(segments, fill)
    decreases budget, 1
  {
    if code == EOI {
      segments, fill := [], f;
    } else {
      var head, next := SegmentSound(f, code, b, budget);
      segments, fill := JpegSound(next, budget);
      ConsSegment(head, segments, fill);
      segments := [head] + segments;
    }
  }

  /** Every string of the language is accepted. */

  lemma {:induction false} AfterFillComplete(fill: nat, code: byte, rest: bytes)
    requires code != 0xFF
    ensures AfterFill(Marker(fill, code) + rest) == [code] + rest
  {
    var s := Marker(fill, code) + rest;
    if fill > 0 {
      assert s[1..] == Marker(fill - 1, code) + rest;
      AfterFillComplete(fill - 1, code, rest);
    } else {
      assert s[1..] == [code] + rest;
    }
  }

  // Fill bytes do not stop the entropy loop: it reaches the marker they precede.
  lemma {:induction false} EntropySkipsFill(fill: nat, code: byte, rest: bytes)
    ensures AfterEntropy(Marker(fill, code) + rest) == AfterEntropy([0xFF, code] + rest)
  {
    var s := Marker(fill, code) + rest;
    if fill > 0 {
      assert Marker(fill - 1, code)[0] == 0xFF;
      assert s[1..] == Marker(fill - 1, code) + rest;
      EntropySkipsFill(fill - 1, code, rest);
    }
  }

  lemma UnitComplete(u: Unit, rest: bytes)
    requires u.Legal() && rest != []
    ensures AfterEntropy(u.Encode() + rest) == AfterEntropy(rest)
  {
    if u.Plain? {
      assert ([u.value] + rest)[1..] == rest;
    } else {
      var code := if u.Stuffed? then 0x00 else u.marker;
      EntropySkipsFill(u.fill, code, rest);
      assert ([0xFF, code] + rest)[2..] == rest;
    }
  }

  lemma {:induction false} EntropyComplete(units: seq<Unit>, tail: bytes)
    requires (forall u <- units :: u.Legal()) && tail != []
    ensures AfterEntropy(EncodeUnits(units) + tail) == AfterEntropy(tail)
  {
    if units == [] {
      assert EncodeUnits(units) + tail == tail;
    } else {
      var rest := EncodeUnits(units[1..]) + tail;
      assert EncodeUnits(units) + tail == units[0].Encode() + rest;
      assert units[0].Legal();
      UnitComplete(units[0], rest);
      EntropyComplete(units[1..], tail);
    }
  }

  lemma {:induction false} FillMarker(n: nat, fill: nat, code: byte, rest: bytes)
    ensures Fill(n) + (Marker(fill, code) + rest) == Marker(n + fill, code) + rest
  {
    if n > 0 {
      FillMarker(n - 1, fill, code, rest);
      assert Fill(n) + (Marker(fill, code) + rest) == [0xFF] + (Fill(n - 1) + (Marker(fill, code) + rest));
    }
  }

  lemma MarkerComplete(fill: nat, code: byte, rest: bytes, budget: nat)
    requires code != 0xFF
    ensures JpegOn(Marker(fill, code) + rest, budget + 1) == JpegAfterMarker(code, rest, budget)
  {
    AfterFillComplete(fill, code, rest);
    assert ([code] + rest)[1..] == rest;
  }

  lemma BodyComplete(s: Segment, rest: bytes, budget: nat)
    requires s.Legal() && rest != []
    requires JpegOn(if s.Scan? then AfterEntropy(Fill(s.trailing) + rest) else rest, budget)
    ensures JpegAfterMarker(s.Code(), s.Body() + rest, budget)
  {
    match s
    case Standalone(_, _) =>
      assert s.Body() + rest == rest;
    case Delimited(_, code, payload) =>
      LengthField(code, payload, rest, budget);
    case Scan(_, payload, entropy, trailing) =>
      ScanBody(payload, entropy, Fill(trailing), rest, budget);
  }

  lemma Regroup(head: bytes, e: bytes, trailing: bytes, rest: bytes)
    ensures head + (e + trailing) + rest == head + (e + (trailing + rest))
  {
  }

  lemma ScanBody(payload: bytes, entropy: seq<Unit>, trailing: bytes, rest: bytes, budget: nat)
    requires |payload| <= 65533 && (forall u <- entropy :: u.Legal()) && rest != []
    requires JpegOn(AfterEntropy(trailing + rest), budget)
    ensures JpegAfterMarker(SOS, Be16Bytes(|payload| + 2) + payload + (EncodeUnits(entropy) + trailing) + rest, budget)
  {
    hide AfterEntropy, EncodeUnits, JpegOn, JpegAfterMarker, Be16Bytes;
    EntropyComplete(entropy, trailing + rest);
    var e := EncodeUnits(entropy);
    Regroup(Be16Bytes(|payload| + 2) + payload, e, trailing, rest);
    LengthField(SOS, payload, e + (trailing + rest), budget);
  }

  lemma SegmentComplete(s: Segment, rest: bytes, budget: nat)
    requires s.Legal() && rest != []
    requires JpegOn(if s.Scan? then AfterEntropy(Fill(s.trailing) + rest) else rest, budget)
    ensures JpegOn(Marker(s.fill, s.Code()) + (s.Body() + rest), budget + 1)
  {
    MarkerComplete(s.fill, s.Code(), s.Body() + rest, budget);
    BodyComplete(s, rest, budget);
  }

  lemma EoiComplete(fill: nat, budget: nat)
    ensures JpegOn(Marker(fill, EOI), budget + 1)
  {
    assert Marker(fill, EOI) == Marker(fill, EOI) + [];
    MarkerComplete(fill, EOI, [], budget);
  }

  lemma EncodeImageNonempty(segments: seq<Segment>, fill: nat)
    requires LegalSegments(segments)
    ensures EncodeImage(segments, fill) != []
  {
    assert forall f: nat, code: byte :: Marker(f, code) != [];
  }

  lemma {:induction false} JpegComplete(segments: seq<Segment>, fill: nat, budget: nat)
    requires LegalSegments(segments) && |segments| < budget
    ensures JpegOn(EncodeImage(segments, fill), budget)
    decreases |segments|, 0
  {
    if segments == [] {
      EoiComplete(fill, budget - 1);
    } else {
      TailComplete(segments[0], segments[1..], fill, budget - 1);
    }
  }

  lemma {:induction false} TailComplete(s: Segment, tail: seq<Segment>, fill: nat, budget: nat)
    requires s.Legal() && LegalSegments(tail) && |tail| < budget
    ensures JpegOn(Marker(s.fill, s.Code()) + (s.Body() + EncodeImage(tail, fill)), budget + 1)
    decreases |tail|, 2
  {
    if s.Scan? {
      ScanComplete(s.trailing, tail, fill, budget);
    } else {
      JpegComplete(tail, fill, budget);
    }
    EncodeImageNonempty(tail, fill);
    SegmentComplete(s, EncodeImage(tail, fill), budget);
  }

  lemma LengthField(code: byte, payload: bytes, rest: bytes, budget: nat)
    requires |payload| <= 65533 && !IsStandalone(code) && code !in {0x00, 0xD8, EOI, 0xFF}
    ensures JpegAfterMarker(code, Be16Bytes(|payload| + 2) + payload + rest, budget)
         == JpegOn(if code == SOS then AfterEntropy(rest) else rest, budget)
  {
    var s := Be16Bytes(|payload| + 2) + payload + rest;
    assert s[..2] == Be16Bytes(|payload| + 2);
    Be16Inverse(s[..2], |payload| + 2);
    assert s[|payload| + 2..] == rest;
  }

  // After entropy-coded data the scanner skips fill bytes and takes restart markers into
  // the data, so it may need fewer iterations than there are segments.
  lemma {:induction false} ScanComplete(trailing: nat, segments: seq<Segment>, fill: nat, budget: nat)
    requires LegalSegments(segments) && |segments| < budget
    ensures JpegOn(AfterEntropy(Fill(trailing) + EncodeImage(segments, fill)), budget)
    decreases |segments|, 1
  {
    if segments == [] {
      assert EncodeImage([], fill) == Marker(fill, EOI) + [];
      FillMarker(trailing, fill, EOI, []);
      EntropySkipsFill(trailing + fill, EOI, []);
      assert [0xFF, EOI] + [] == EncodeImage([], 0);
      JpegComplete([], 0, budget);
    } else {
      var s := segments[0];
      var rest := EncodeImage(segments[1..], fill);
      FillMarker(trailing, s.fill, s.Code(), s.Body() + rest);
      EntropySkipsFill(trailing + s.fill, s.Code(), s.Body() + rest);
      var t := [0xFF, s.Code()] + (s.Body() + rest);
      if IsRestart(s.Code()) {
        assert s.Body() + rest == rest && Fill(0) + rest == rest;
        assert t[2..] == rest;
        ScanComplete(0, segments[1..], fill, budget);
      } else {
        var bare := s.(fill := 0);
        ConsSegment(bare, segments[1..], fill);
        assert Marker(0, s.Code()) == [0xFF, s.Code()];
        JpegComplete([bare] + segments[1..], fill, budget);
      }
    }
  }

  /** The scanner. */

  // First index at or after `o` holding 0xFF, or -1.
  method Find(data: bytes, o: nat) returns (r: int)
    requires o <= |data|
    ensures r < 0 ==> AfterEntropy(data[o..]) == []
    ensures r >= 0 ==> o <= r < |data| && data[r] == 0xFF && AfterEntropy(data[o..]) == AfterEntropy(data[r..])
  {
    r := o;
    while r < |data| && data[r] != 0xFF
      invariant o <= r <= |data|
      invariant AfterEntropy(data[o..]) == AfterEntropy(data[r..])
    {
      assert data[r..][1..] == data[r + 1..];
      r := r + 1;
    }
    if r == |data| {
      r := -1;
    }
  }

  method SkipFill(data: bytes, start: nat) returns (offset: nat)
    requires start <= |data|
    ensures start <= offset <= |data| && data[offset..] == AfterFill(data[start..])
  {
    offset := start;
    while offset < |data| && data[offset] == 0xFF
      invariant start <= offset <= |data|
      invariant AfterFill(data[start..]) == AfterFill(data[offset..])
    {
      assert data[offset..][1..] == data[offset + 1..];
      offset := offset + 1;
    }
  }

  // The entropy loop: the new offset, |data| when no marker ends the data.
  method SkipEntropy(data: bytes, start: nat) returns (offset: nat)
    requires start <= |data|
    ensures start <= offset <= |data| && data[offset..] == AfterEntropy(data[start..])
  {
    offset := start;
    while true
      invariant start <= offset <= |data|
      invariant AfterEntropy(data[start..]) == AfterEntropy(data[offset..])
      decreases |data| - offset
    {
      var next := Find(data, offset);
      if next < 0 || next + 1 >= |data| {
        offset := |data|;
        break;
      }
      var value := data[next + 1];
      assert data[next..][1..] == data[next + 1..] && data[next..][2..] == data[next + 2..];
      if value == 0 || IsRestart(value) {
        offset := next + 2;
      } else if value == 0xFF {
        offset := next + 1;
      } else {
        offset := next;
        break;
      }
    }
  }

  predicate JpegAccepts(d: bytes, markers: nat) {
    |d| >= 2 && d[..2] == SOI && JpegOn(d[2..], markers)
  }

  // The marker loop's verdict and the grammar agree, whatever the marker budget.
  lemma JpegVerdict(d: bytes, markers: nat)
    ensures JpegLanguage(d, markers) <==> JpegAccepts(d, markers)
  {
    if JpegAccepts(d, markers) {
      var segments, fill := JpegSound(d[2..], markers);
      assert d == d[..2] + d[2..];
      assert IsJpegWith(d, segments, fill, markers);
    }
    if segments: seq<Segment>, fill: nat :| IsJpegWith(d, segments, fill, markers) {
      assert d[..2] == SOI && d[2..] == EncodeImage(segments, fill);
      JpegComplete(segments, fill, markers);
    }
  }

  method ScanJpeg(data: bytes, markers: nat) returns (ok: bool)
    ensures ok <==> JpegLanguage(data, markers)
  {
    JpegVerdict(data, markers);
    if |data| < 2 || data[..2] != SOI {
      return false;
    }
    ok := JpegMarkers(data, markers);
  }

  // One round of the marker loop up to its marker.
  lemma MarkerAt(data: bytes, offset: nat, m: nat, budget: nat)
    requires offset <= m <= |data| && data[m..] == AfterFill(data[offset..]) && budget > 0
    ensures JpegOn(data[offset..], budget) == (
      if offset + 2 > |data| || data[offset] != 0xFF || m >= |data| then false
      else JpegAfterMarker(data[m], data[m + 1..], budget - 1))
  {
    hide JpegAfterMarker, AfterFill;
    assert m < |data| ==> data[m..][1..] == data[m + 1..];
  }

  // The rest of a round, behind a marker without one.
  lemma MarkerEnds(code: byte, data: bytes, offset: nat, budget: nat)
    requires offset <= |data|
    ensures code == EOI ==> JpegAfterMarker(code, data[offset..], budget) == (offset == |data|)
    ensures code in {0xD8, 0x00} ==> !JpegAfterMarker(code, data[offset..], budget)
    ensures IsStandalone(code) && code != EOI && code !in {0xD8, 0x00} ==>
      JpegAfterMarker(code, data[offset..], budget) == JpegOn(data[offset..], budget)
  {
    hide JpegOn;
  }

  // The rest of a round, behind a marker with a length field.
  lemma FieldAt(code: byte, data: bytes, offset: nat, budget: nat)
    requires offset <= |data| && !IsStandalone(code) && code !in {0x00, 0xD8, EOI}
    ensures JpegAfterMarker(code, data[offset..], budget) == (
      if offset + 2 > |data| then false
      else
        var length := Be16(data[offset..offset + 2]);
        if length < 2 || offset + length > |data| then false
        else JpegOn(if code == SOS then AfterEntropy(data[offset + length..]) else data[offset + length..], budget))
  {
    hide JpegOn, AfterEntropy;
    var s := data[offset..];
    if |s| >= 2 {
      assert s[..2] == data[offset..offset + 2];
      var length := Be16(s[..2]);
      assert length <= |s| ==> s[length..] == data[offset + length..];
    }
  }

  lemma EmptyBudget(data: bytes)
    ensures forall offset: nat :: offset <= |data| ==> !JpegOn(data[offset..], 0)
  {
  }

  method JpegMarkers(data: bytes, markers: nat) returns (ok: bool)
    requires |data| >= 2
    ensures ok == JpegOn(data[2..], markers)
  {
    hide JpegOn, JpegAfterMarker, AfterFill, AfterEntropy, Be16;
    var offset := 2;
    ghost var verdict := JpegOn(data[2..], markers);
    EmptyBudget(data);
    for i := 0 to markers
      invariant 2 <= offset <= |data|
      invariant verdict == JpegOn(data[offset..], markers - i)
    {
      var m := SkipFill(data, offset);
      MarkerAt(data, offset, m, markers - i);
      if offset + 2 > |data| || data[offset] != 0xFF {
        return false;
      }
      if m >= |data| {
        return false;
      }
      var marker := data[m];
      offset := m + 1;
      MarkerEnds(marker, data, offset, markers - i - 1);
      if marker == EOI {
        return offset == |data|;
      }
      if marker in {0xD8, 0x00} {
        return false;
      }
      if marker == 0x01 || IsRestart(marker) {
        continue;
      }
      FieldAt(marker, data, offset, markers - i - 1);
      if offset + 2 > |data| {
        return false;
      }
      var length := Be16(data[offset..offset + 2]);
      if length < 2 || offset + length > |data| {
        return false;
      }
      offset := offset + length;
      if marker == SOS {
        offset := SkipEntropy(data, offset);
      }
    }
    return false;
  }

  lemma {:induction false} AfterFillExtends(s: bytes, x: bytes)
    requires AfterFill(s) != []
    ensures AfterFill(s + x) == AfterFill(s) + x
  {
    if s[0] == 0xFF {
      assert (s + x)[1..] == s[1..] + x;
      AfterFillExtends(s[1..], x);
    }
  }

  lemma {:induction false} AfterEntropyExtends(s: bytes, x: bytes)
    requires AfterEntropy(s) != []
    ensures AfterEntropy(s + x) == AfterEntropy(s) + x
    decreases |s|
  {
    assert (s + x)[1..] == s[1..] + x && (s + x)[2..] == s[2..] + x;
    if s[0] != 0xFF || s[1] == 0xFF {
      AfterEntropyExtends(s[1..], x);
    } else if s[1] == 0x00 || IsRestart(s[1]) {
      AfterEntropyExtends(s[2..], x);
    }
  }

  lemma {:induction false} JpegPrefixFree(s: bytes, x: bytes, budget: nat)
    requires JpegOn(s, budget) && JpegOn(s + x, budget)
    ensures x == []
    decreases budget
  {
    AfterFillExtends(s, x);
    var code, b := AfterFill(s)[0], AfterFill(s)[1..];
    assert AfterFill(s + x)[0] == code && AfterFill(s + x)[1..] == b + x;
    if code == EOI {
    } else if IsStandalone(code) {
      JpegPrefixFree(b, x, budget - 1);
    } else {
      assert (b + x)[..2] == b[..2];
      var next := b[Be16(b[..2])..];
      assert (b + x)[Be16(b[..2])..] == next + x;
      if code == SOS {
        assert !JpegOn([], budget - 1);
        AfterEntropyExtends(next, x);
        JpegPrefixFree(AfterEntropy(next), x, budget - 1);
      } else {
        JpegPrefixFree(next, x, budget - 1);
      }
    }
  }

  lemma JpegAcceptsPrefixFree(d: bytes, x: bytes, markers: nat)
    requires JpegAccepts(d, markers) && JpegAccepts(d + x, markers)
    ensures x == []
  {
    assert (d + x)[2..] == d[2..] + x;
    JpegPrefixFree(d[2..], x, markers);
  }

  lemma PngAcceptsPrefixFree(d: bytes, x: bytes)
    requires PngAccepts(d) && PngAccepts(d + x)
    ensures x == []
  {
    assert (d + x)[8..] == d[8..] + x;
    PngPrefixFree(d[8..], x);
  }

  lemma WebpLanguagePrefixFree(d: bytes, x: bytes)
    requires WebpLanguage(d) && WebpLanguage(d + x)
    ensures x == []
  {
    var a: bytes :| IsWebpWith(d, a);
    var b: bytes :| IsWebpWith(d + x, b);
    assert d[4..8] == Le32Bytes(4 + |a|) && (d + x)[4..8] == Le32Bytes(4 + |b|);
    assert (d + x)[4..8] == d[4..8];
    Le32Inverse(d[4..8], 4 + |a|);
    Le32Inverse(d[4..8], 4 + |b|);
  }

  /******* All formats *******/

  ghost predicate Language(format: Format, d: bytes) {
    match format
    case Png => PngLanguage(d)
    case Jpeg => JpegLanguage(d, MAX_MARKERS)
    case Webp => WebpLanguage(d)
  }

  // `_container`: false where the source raises UnsafeProductImage.
  method Container(data: bytes, format: Format) returns (ok: bool)
    ensures ok <==> Language(format, data)
  {
    match format
    case Png => ok := ScanPng(data);
    case Jpeg => ok := ScanJpeg(data, MAX_MARKERS);
    case Webp => ok := ScanWebp(data);
  }

  /** No accepted image can be extended: a trailing payload is always rejected. */
  lemma PrefixFree(format: Format, d: bytes, x: bytes)
    requires Language(format, d) && x != []
    ensures !Language(format, d + x)
  {
    if Language(format, d + x) {
      match format
      case Png => PngVerdict(d); PngVerdict(d + x); PngAcceptsPrefixFree(d, x);
      case Jpeg =>
        JpegVerdict(d, MAX_MARKERS);
        JpegVerdict(d + x, MAX_MARKERS);
        JpegAcceptsPrefixFree(d, x, MAX_MARKERS);
      case Webp => WebpLanguagePrefixFree(d, x);
    }
  }
}
