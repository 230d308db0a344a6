/**
 Private list cursors (services/personalization_cursor.py): the browse codec's frame with
 another payload, bound to user, list and page size.
 */
module PersonalCursor {
  import opened Common
  import opened Base64Url
  import opened CursorText
  import opened SignedToken
  import opened BrowseCursor

  datatype ListKind = Favorites | RecentlyViewed

  datatype Context = Context(user: string, kind: ListKind, limit: nat)

  datatype PrivatePayload = PrivatePayload(v: nat, f: string, k: string, r: string) {
    predicate IsPlainText() {
      Plain(f) && Plain(k) && Plain(r)
    }
  }

  datatype PrivatePosition = PrivatePosition(at: Micros, slug: string)

  // Days of the proleptic Gregorian calendar from the first of year 1 to the first of year y.
  function DaysBefore(y: nat): int
    requires y >= 1
  {
    365 * (y - 1) + (y - 1) / 4 - (y - 1) / 100 + (y - 1) / 400
  }

  // A time has a year of at least 1000 from here on.
  const YEAR_1000: int := DaysBefore(1000) * 24 * 3600 * SECOND

  datatype PrivateLibrary = PrivateLibrary(
    mac: bytes -> bytes,
    contextJson: Context -> bytes,
    loads: bytes -> Option<PrivatePayload>,
    isoformat: Micros -> string,
    fromisoformat: string -> Option<Micros>)
  {
    ghost predicate Trusted() {
      && (forall m: bytes :: |mac(m)| == 32)
      && (forall a: Context, b: Context :: contextJson(a) == contextJson(b) ==> a == b)
      && (forall p: PrivatePayload :: p.IsPlainText() ==>
          DumpsPrivateIsAscii(p) && loads(AsciiBytes(DumpsPrivate(p))) == Some(p))
      && (forall m: Micros :: IsTimestamp(isoformat(m)) && fromisoformat(isoformat(m)) == Some(m))
    }
  }

  function DumpsPrivate(p: PrivatePayload): string {
    "{\"f\":\"" + p.f + "\",\"k\":\"" + p.k + "\",\"r\":\"" + p.r + "\",\"v\":" + Decimal(p.v) + "}"
  }

  predicate DumpsPrivateIsAscii(p: PrivatePayload) {
    Ascii(DumpsPrivate(p))
  }

  // dddd-dd-ddTdd:dd:dd.dddddd
  predicate IsTimestamp(s: string) {
    && |s| == 26 && s[4] == '-' && s[7] == '-' && s[10] == 'T' && s[13] == ':' && s[16] == ':' && s[19] == '.'
    && forall i :: 0 <= i < 26 && i !in {4, 7, 10, 13, 16, 19} ==> IsDigitChar(s[i])
  }

  lemma TimestampIsPlain(s: string)
    requires IsTimestamp(s)
    ensures Plain(s)
  {
    forall i | 0 <= i < |s|
      ensures IsPlain(s[i])
    {
      if i !in {4, 7, 10, 13, 16, 19} { assert IsDigitChar(s[i]); }
    }
  }

  lemma PrivatePayloadIsAscii(p: PrivatePayload)
    requires p.IsPlainText()
    ensures Ascii(DumpsPrivate(p))
    ensures |DumpsPrivate(p)| == 27 + |p.f| + |p.k| + |p.r| + |Decimal(p.v)|
  {
    PlainIsAscii(p.f);
    PlainIsAscii(p.k);
    PlainIsAscii(p.r);
    DecimalFacts(p.v);
    assert Ascii(Decimal(p.v));
    var a := "{\"f\":\"" + p.f;
    AsciiConcat("{\"f\":\"", p.f);
    var b := a + "\",\"k\":\"" + p.k;
    AsciiConcat(a + "\",\"k\":\"", p.k);
    var c := b + "\",\"r\":\"" + p.r;
    AsciiConcat(b + "\",\"r\":\"", p.r);
    AsciiConcat(c + "\",\"v\":", Decimal(p.v));
    assert DumpsPrivate(p) == c + "\",\"v\":" + Decimal(p.v) + "}";
  }

  const PRIVATE_CONTEXT_PREFIX: bytes := AsciiBytes("personal-context-v1") + [0]
  const PAGE_PREFIX: bytes := AsciiBytes("personal-page-v1") + [0]

  function PageMac(lib: PrivateLibrary): bytes -> bytes {
    data => lib.mac(PAGE_PREFIX + data)
  }

  // `_context`
  function ContextHash(lib: PrivateLibrary, c: Context): string {
    Hex(lib.mac(PRIVATE_CONTEXT_PREFIX + lib.contextJson(c)))
  }

  function PrivatePayloadOf(lib: PrivateLibrary, c: Context, p: PrivatePosition): PrivatePayload {
    PrivatePayload(1, ContextHash(lib, c), lib.isoformat(p.at), p.slug)
  }

  // `PersonalizationCursorCodec.encode`; an invalid slug raises.
  function EncodePrivate(lib: PrivateLibrary, c: Context, p: PrivatePosition): Option<string>
    requires IsSlug(p.slug) ==> DumpsPrivateIsAscii(PrivatePayloadOf(lib, c, p))
  {
    if IsSlug(p.slug) then Some(Sign(PageMac(lib), AsciiBytes(DumpsPrivate(PrivatePayloadOf(lib, c, p))))) else None
  }

  // `PersonalizationCursorCodec.decode`
  function DecodePrivate(lib: PrivateLibrary, token: string, c: Context): Option<PrivatePosition> {
    var data := Open(PageMac(lib), token);
    if data.None? then None
    else match lib.loads(data.value)
    case None => None
    case Some(p) =>
      if p.v != 1 || p.f != ContextHash(lib, c) || !IsTimestamp(p.k) then None
      else match lib.fromisoformat(p.k)
        case None => None
        case Some(at) => if at < YEAR_1000 || !IsSlug(p.r) then None else Some(PrivatePosition(at, p.r))
  }

  lemma PrivateIsPlain(lib: PrivateLibrary, c: Context, p: PrivatePosition)
    requires lib.Trusted() && IsSlug(p.slug)
    ensures PrivatePayloadOf(lib, c, p).IsPlainText() && DumpsPrivateIsAscii(PrivatePayloadOf(lib, c, p))
    ensures |DumpsPrivate(PrivatePayloadOf(lib, c, p))| == 147
  {
    var payload := PrivatePayloadOf(lib, c, p);
    HexIsPlain(lib.mac(PRIVATE_CONTEXT_PREFIX + lib.contextJson(c)));
    SlugIsPlain(p.slug);
    assert IsTimestamp(lib.isoformat(p.at));
    TimestampIsPlain(payload.k);
    PrivatePayloadIsAscii(payload);
    assert |Decimal(1)| == 1 && |payload.f| == 64;
  }

  /** A private cursor has 240 characters and decodes to its position exactly for the same user,
      list and page size (up to a collision of the keyed hash) and exactly from year 1000 on,
      the first day of which is day 364,877 from the start of year 1. */
  lemma PrivateRoundTrip(lib: PrivateLibrary, c: Context, p: PrivatePosition, other: Context)
    requires lib.Trusted() && IsSlug(p.slug)
    ensures DumpsPrivateIsAscii(PrivatePayloadOf(lib, c, p))
    ensures EncodePrivate(lib, c, p).Some? && |EncodePrivate(lib, c, p).value| == 240
    ensures DecodePrivate(lib, EncodePrivate(lib, c, p).value, other) ==
            if ContextHash(lib, other) == ContextHash(lib, c) && p.at >= 364_877 * 86_400_000_000 then Some(p) else None
  {
    hide Plain, IsSlug, Hex, Decimal, IsTimestamp, Encode, Decode;
    PrivateIsPlain(lib, c, p);
    var payload := PrivatePayloadOf(lib, c, p);
    var data := AsciiBytes(DumpsPrivate(payload));
    assert |PageMac(lib)(data)| == 32;
    OpenSigned(PageMac(lib), data);
    assert lib.loads(data) == Some(payload);
    assert IsTimestamp(payload.k) && lib.fromisoformat(payload.k) == Some(p.at);
  }

  // The keyed hash does not collide on the two contexts.
  predicate NoContextCollision(lib: PrivateLibrary, a: Context, b: Context) {
    var x, y := PRIVATE_CONTEXT_PREFIX + lib.contextJson(a), PRIVATE_CONTEXT_PREFIX + lib.contextJson(b);
    lib.mac(x) == lib.mac(y) ==> x == y
  }

  /** Distinct users, lists or page sizes have distinct context hashes. */
  lemma ContextHashBinds(lib: PrivateLibrary, a: Context, b: Context)
    requires lib.Trusted() && NoContextCollision(lib, a, b) && ContextHash(lib, a) == ContextHash(lib, b)
    ensures a == b
  {
    HexInjective(lib.mac(PRIVATE_CONTEXT_PREFIX + lib.contextJson(a)),
                 lib.mac(PRIVATE_CONTEXT_PREFIX + lib.contextJson(b)));
    SamePrefix(PRIVATE_CONTEXT_PREFIX, lib.contextJson(a), lib.contextJson(b));
  }
}
