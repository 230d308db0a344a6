/**
 The container languages on literal bytes: each format's markers, signatures, byte order and
 budget, stated without the constants and the arithmetic that the scanners and grammars share.
 */
module ContainerBytes {
  import opened Common
  import opened Containers

  /******* WebP *******/

  /** Exactly RIFF, a little-endian count of the bytes after it, and WEBP. */
  lemma WebpBytes(d: bytes)
    ensures Language(Webp, d) <==>
      && |d| >= 12 && [d[0], d[1], d[2], d[3]] == [0x52, 0x49, 0x46, 0x46]
      && [d[8], d[9], d[10], d[11]] == [0x57, 0x45, 0x42, 0x50]
      && d[4] as int + d[5] as int * 0x100 + d[6] as int * 0x1_0000 + d[7] as int * 0x100_0000 == |d| - 8
  {
    if |d| >= 12 {
      var size := d[4..8];
      assert d == d[..4] + size + d[8..12] + d[12..];
      assert d[..4] == [d[0], d[1], d[2], d[3]] && d[8..12] == [d[8], d[9], d[10], d[11]];
      if |d| - 8 < 0x1_0000_0000 {
        Le32Inverse(size, |d| - 8);
        if Language(Webp, d) {
          var body: bytes :| IsWebpWith(d, body);
          assert |d| == 12 + |body| && size == Le32Bytes(|d| - 8);
        } else {
          assert !IsWebpWith(d, d[12..]);
        }
      }
    }
  }

  /******* PNG *******/

  // A chunk with its length spelled out in four bytes.
  function ChunkBytes(b3: byte, b2: byte, b1: byte, b0: byte, kind: bytes, payload: bytes, crc: bytes): bytes {
    [b3, b2, b1, b0] + kind + payload + crc
  }

  /** The smallest image is a signature and an empty IEND chunk, and nothing else is. */
  lemma SmallestPng(signature: bytes, kind: bytes, crc: bytes)
    requires |signature| == 8 && |kind| == 4 && |crc| == 4
    ensures Language(Png, signature + ChunkBytes(0, 0, 0, 0, kind, [], crc)) <==>
      && signature == [0x89, 0x50, 0x4E, 0x47, 0x0D, 0x0A, 0x1A, 0x0A]
      && kind == [0x49, 0x45, 0x4E, 0x44]
  {
    var tail := ChunkBytes(0, 0, 0, 0, kind, [], crc);
    var d := signature + tail;
    PngVerdict(d);
    assert d[..8] == signature && d[8..] == tail;
    assert tail[..4] == [0, 0, 0, 0] && tail[4..8] == kind && |tail| == 12;
    BigEndian(tail[..4]);
    assert PngOn(tail) <==> kind == IEND;
  }

  /** A chunk of another kind before it is skipped by its big-endian length. */
  lemma PngSkipsChunk(b3: byte, b2: byte, b1: byte, b0: byte, kind: bytes, payload: bytes, crc: bytes, end: bytes)
    requires |kind| == |crc| == |end| == 4 && kind != [0x49, 0x45, 0x4E, 0x44]
    requires |payload| == b3 as int * 0x100_0000 + b2 as int * 0x1_0000 + b1 as int * 0x100 + b0 as int
    ensures Language(Png, [0x89, 0x50, 0x4E, 0x47, 0x0D, 0x0A, 0x1A, 0x0A]
      + (ChunkBytes(b3, b2, b1, b0, kind, payload, crc)
         + ChunkBytes(0, 0, 0, 0, [0x49, 0x45, 0x4E, 0x44], [], end)))
  {
    var signature: bytes := [0x89, 0x50, 0x4E, 0x47, 0x0D, 0x0A, 0x1A, 0x0A];
    var first, last := ChunkBytes(b3, b2, b1, b0, kind, payload, crc),
                       ChunkBytes(0, 0, 0, 0, [0x49, 0x45, 0x4E, 0x44], [], end);
    var s := first + last;
    assert PngOn(last) by {
      SmallestPng(signature, [0x49, 0x45, 0x4E, 0x44], end);
      PngVerdict(signature + last);
      assert (signature + last)[8..] == last;
    }
    assert PngOn(s) by {
      hide Be32;
      assert s[..4] == [b3, b2, b1, b0] && s[4..8] == kind && s[|payload| + 12..] == last;
      BigEndian(s[..4]);
    }
    PngVerdict(signature + s);
    assert (signature + s)[8..] == s && (signature + s)[..8] == signature;
  }

  lemma BigEndian(s: bytes)
    requires |s| == 4
    ensures Be32(s) == s[0] as int * 0x100_0000 + s[1] as int * 0x1_0000 + s[2] as int * 0x100 + s[3] as int
  {
  }

  /******* JPEG *******/

  lemma JpegOnBytes(d: bytes)
    ensures Language(Jpeg, d) <==> |d| >= 2 && d[0] == 0xFF && d[1] == 0xD8 && JpegOn(d[2..], MAX_MARKERS)
  {
    JpegVerdict(d, MAX_MARKERS);
    if |d| >= 2 { assert d[..2] == [d[0], d[1]]; }
  }

  // A marker that no fill precedes.
  lemma PlainMarker(m: byte, body: bytes, budget: nat)
    requires m != 0xFF
    ensures JpegOn([0xFF, m] + body, budget) == (budget > 0 && JpegAfterMarker(m, body, budget - 1))
  {
    var s := [0xFF, m] + body;
    assert s[1..] == [m] + body && s[1..][1..] == body && AfterFill(s) == s[1..];
  }

  lemma EndOfImage(budget: nat)
    ensures JpegOn([0xFF, 0xD9], budget) <==> budget > 0
  {
    assert [0xFF, 0xD9] + [] == [0xFF, 0xD9];
    PlainMarker(0xD9, [], budget);
  }

  /** Between start and end of image, exactly 01 and D0 to D7 stand alone; FF only fills. */
  lemma OneMarker(m: byte)
    ensures Language(Jpeg, [0xFF, 0xD8, 0xFF, m, 0xFF, 0xD9]) <==> m == 0x01 || 0xD0 <= m <= 0xD7 || m == 0xFF
  {
    var d: bytes := [0xFF, 0xD8, 0xFF, m, 0xFF, 0xD9];
    JpegOnBytes(d);
    EndOfImage(MAX_MARKERS - 1);
    if m == 0xFF {
      var filled, marker, end: bytes := d[2..], [0xFF, 0xD9], [0xD9];
      assert filled[1..][1..] == marker && marker[1..] == end;
      assert AfterFill(marker) == end && AfterFill(filled[1..]) == AfterFill(marker);
      assert AfterFill(filled) == end && end[1..] == [];
    } else {
      assert d[2..] == [0xFF, m] + [0xFF, 0xD9];
      PlainMarker(m, [0xFF, 0xD9], MAX_MARKERS);
    }
  }

  /** Inside a scan, FF is followed by 00 or a restart marker D0 to D7, and by nothing else. */
  lemma ScanMarker(a: byte, m: byte, b: byte)
    requires a != 0xFF && m != 0xFF && b != 0xFF
    ensures Language(Jpeg, [0xFF, 0xD8, 0xFF, 0xDA, 0x00, 0x02, a, 0xFF, m, b, 0xFF, 0xD9])
       <==> m == 0x00 || 0xD0 <= m <= 0xD7
  {
    var d: bytes := [0xFF, 0xD8, 0xFF, 0xDA, 0x00, 0x02, a, 0xFF, m, b, 0xFF, 0xD9];
    var body, scan: bytes := [0x00, 0x02, a, 0xFF, m, b, 0xFF, 0xD9], [a, 0xFF, m, b, 0xFF, 0xD9];
    JpegOnBytes(d);
    assert d[2..] == [0xFF, 0xDA] + body;
    PlainMarker(0xDA, body, MAX_MARKERS);
    assert body[..2] == [0x00, 0x02] && body[2..] == scan;
    ScanEnds(a, m, b, MAX_MARKERS - 1);
  }

  lemma ScanEnds(a: byte, m: byte, b: byte, budget: nat)
    requires a != 0xFF && m != 0xFF && b != 0xFF && budget > 1
    ensures JpegOn(AfterEntropy([a, 0xFF, m, b, 0xFF, 0xD9]), budget) <==> m == 0x00 || 0xD0 <= m <= 0xD7
  {
    var scan: bytes := [a, 0xFF, m, b, 0xFF, 0xD9];
    var unit, tail, end: bytes := [0xFF, m, b, 0xFF, 0xD9], [b, 0xFF, 0xD9], [0xFF, 0xD9];
    assert scan[1..] == unit && AfterEntropy(scan) == AfterEntropy(unit);
    if m == 0x00 || 0xD0 <= m <= 0xD7 {
      assert unit[2..] == tail && tail[1..] == end;
      assert AfterEntropy(end) == end && AfterEntropy(tail) == end;
      EndOfImage(budget);
    } else {
      assert AfterEntropy(unit) == unit && unit == [0xFF, m] + tail;
      PlainMarker(m, tail, budget);
      StraySegment(m, b, budget - 1);
    }
  }

  // Whatever other marker stands there, the byte after it is no marker and no fitting length.
  lemma StraySegment(m: byte, b: byte, budget: nat)
    requires m != 0x00 && !(0xD0 <= m <= 0xD7) && b != 0xFF
    ensures !JpegAfterMarker(m, [b, 0xFF, 0xD9], budget)
  {
    var tail: bytes := [b, 0xFF, 0xD9];
    assert tail[..2] == [b, 0xFF] && Be16(tail[..2]) == 256 * (b as int) + 255;
  }

  // `n` stand-alone markers and the end of the image.
  function Temporaries(n: nat): bytes {
    if n == 0 then [0xFF, 0xD9] else [0xFF, 0x01] + Temporaries(n - 1)
  }

  lemma {:induction false} TemporariesFit(n: nat, budget: nat)
    ensures JpegOn(Temporaries(n), budget) <==> n < budget
  {
    if n == 0 {
      EndOfImage(budget);
    } else {
      PlainMarker(0x01, Temporaries(n - 1), budget);
      if budget > 0 { TemporariesFit(n - 1, budget - 1); }
    }
  }

  /** The scanner reads a hundred thousand markers, the end of image among them, and no more. */
  lemma MarkerBudget(n: nat)
    ensures Language(Jpeg, [0xFF, 0xD8] + Temporaries(n)) <==> n < 100_000
  {
    var d := [0xFF, 0xD8] + Temporaries(n);
    JpegOnBytes(d);
    assert d[2..] == Temporaries(n);
    TemporariesFit(n, MAX_MARKERS);
  }

  /** The length of any other segment is big-endian and counts its own two bytes. */
  lemma JpegSkipsSegment(m: byte, high: byte, low: byte, payload: bytes)
    requires m !in {0x00, 0x01, 0xFF} && !(0xD0 <= m <= 0xDA)
    requires high as int * 0x100 + low as int == |payload| + 2
    ensures Language(Jpeg, [0xFF, 0xD8] + ([0xFF, m] + ([high, low] + payload + [0xFF, 0xD9])))
  {
    var body := [high, low] + payload + [0xFF, 0xD9];
    var d := [0xFF, 0xD8] + ([0xFF, m] + body);
    JpegOnBytes(d);
    assert d[2..] == [0xFF, m] + body;
    PlainMarker(m, body, MAX_MARKERS);
    SegmentSkipped(m, high, low, payload, MAX_MARKERS - 1);
  }

  lemma SegmentSkipped(m: byte, high: byte, low: byte, payload: bytes, budget: nat)
    requires m !in {0x00, 0x01, 0xFF} && !(0xD0 <= m <= 0xDA) && budget > 0
    requires high as int * 0x100 + low as int == |payload| + 2
    ensures JpegAfterMarker(m, [high, low] + payload + [0xFF, 0xD9], budget)
  {
    var body := [high, low] + payload + [0xFF, 0xD9];
    assert body[..2] == [high, low] && Be16(body[..2]) == |payload| + 2;
    assert body[|payload| + 2..] == [0xFF, 0xD9];
    EndOfImage(budget);
  }
}
