/**
 Signed browse cursors (services/product_browse_cursor.py).

 A cursor is two base64url parts, a JSON payload and its keyed hash.  Library code enters
 through the record `Library`; what the proofs ask of it is its predicate `Trusted`.
 */
module BrowseCursor {
  import opened Common
  import opened Base64Url
  import opened CursorText
  import opened SignedToken

  datatype Sort = Newest | PriceAsc | PriceDesc

  function SortName(s: Sort): string {
    match s
    case Newest => "newest"
    case PriceAsc => "price_asc"
    case PriceDesc => "price_desc"
  }

  // The validated browse query; prices are in cents.
  datatype Query = Query(
    q: Option<string>, city: Option<string>, category: Option<string>,
    minPrice: Option<nat>, maxPrice: Option<nat>, condition: Option<string>, sort: Sort, limit: nat)

  // Microseconds since the start of year 1, within the years a datetime can hold.
  type Micros = m: int | 0 <= m < 315_537_897_600_000_000

  datatype Value = Moment(at: Micros) | Amount(cents: nat)

  datatype Position = Position(value: Value, slug: string)

  datatype Payload = Payload(v: nat, s: string, f: string, k: string, r: string) {
    predicate IsPlainText() {
      Plain(s) && Plain(f) && Plain(k) && Plain(r)
    }
  }

  datatype Library = Library(
    mac: bytes -> bytes,                       // HMAC-SHA256 under the server's key
    contextJson: Query -> bytes,               // json.dumps of the query context
    loads: bytes -> Option<Payload>,           // json.loads plus the check of the key set and types
    isoformat: Micros -> string,
    fromisoformat: string -> Option<Micros>)
  {
    ghost predicate Trusted() {
      && (forall m: bytes :: |mac(m)| == 32)
      && (forall a: Query, b: Query :: contextJson(a) == contextJson(b) ==> a == b)
      && (forall p: Payload :: p.IsPlainText() ==> DumpsIsAscii(p) && loads(AsciiBytes(Dumps(p))) == Some(p))
      && (forall m: Micros :: |isoformat(m)| == 26 && Plain(isoformat(m)) && fromisoformat(isoformat(m)) == Some(m))
    }
  }

  // json.dumps(payload, sort_keys=True, separators=(",", ":"))
  function Dumps(p: Payload): string {
    "{\"f\":\"" + p.f + "\",\"k\":\"" + p.k + "\",\"r\":\"" + p.r + "\",\"s\":\"" + p.s + "\",\"v\":"
        + Decimal(p.v) + "}"
  }

  predicate DumpsIsAscii(p: Payload) {
    Ascii(Dumps(p))
  }

  lemma PlainIsAscii(s: string)
    requires Plain(s)
    ensures Ascii(s)
  {
  }

  lemma AsciiConcat(a: string, b: string)
    requires Ascii(a) && Ascii(b)
    ensures Ascii(a + b)
  {
  }

  lemma PayloadIsAscii(p: Payload)
    requires p.IsPlainText()
    ensures Ascii(Dumps(p))
    ensures |Dumps(p)| == 34 + |p.f| + |p.k| + |p.r| + |p.s| + |Decimal(p.v)|
  {
    PlainIsAscii(p.f);
    PlainIsAscii(p.k);
    PlainIsAscii(p.r);
    PlainIsAscii(p.s);
    DecimalFacts(p.v);
    assert Ascii(Decimal(p.v));
    var a := "{\"f\":\"" + p.f;
    AsciiConcat("{\"f\":\"", p.f);
    var b := a + "\",\"k\":\"" + p.k;
    AsciiConcat(a + "\",\"k\":\"", p.k);
    var c := b + "\",\"r\":\"" + p.r;
    AsciiConcat(b + "\",\"r\":\"", p.r);
    var d := c + "\",\"s\":\"" + p.s;
    AsciiConcat(c + "\",\"s\":\"", p.s);
    AsciiConcat(d + "\",\"v\":", Decimal(p.v));
    assert Dumps(p) == d + "\",\"v\":" + Decimal(p.v) + "}";
  }

  /******* Codec *******/

  const CONTEXT_PREFIX: bytes := AsciiBytes("browse-context-v1") + [0]

  // `query_fingerprint`
  function Fingerprint(lib: Library, query: Query): string {
    Hex(lib.mac(CONTEXT_PREFIX + lib.contextJson(query)))
  }

  function KeyText(lib: Library, value: Value): string {
    match value
    case Moment(at) => lib.isoformat(at)
    case Amount(cents) => FormatCents(cents)
  }

  function PayloadOf(lib: Library, query: Query, p: Position): Payload {
    Payload(1, SortName(query.sort), Fingerprint(lib, query), KeyText(lib, p.value), p.slug)
  }

  // `BrowseCursorCodec.encode`; `data.encode("ascii")` is defined on what reaches it.
  function EncodeCursor(lib: Library, query: Query, p: Position): string
    requires DumpsIsAscii(PayloadOf(lib, query, p))
  {
    Sign(lib.mac, AsciiBytes(Dumps(PayloadOf(lib, query, p))))
  }

  function ParseKey(lib: Library, sort: Sort, k: string): Option<Value> {
    if sort.Newest? then
      if |k| > 26 then None
      else match lib.fromisoformat(k)
        case None => None
        case Some(at) => Some(Moment(at))
    else match ParseCents(k)
      case None => None
      case Some(cents) => Some(Amount(cents))
  }

  // `BrowseCursorCodec.decode`; None is InvalidBrowseCursor.
  function DecodeCursor(lib: Library, token: string, query: Query): Option<Position> {
    var data := Open(lib.mac, token);
    if data.None? then None
    else match lib.loads(data.value)
    case None => None
    case Some(p) =>
      if p.v != 1 || p.s != SortName(query.sort) || p.f != Fingerprint(lib, query) || !IsSlug(p.r) then None
      else match ParseKey(lib, query.sort, p.k)
        case None => None
        case Some(value) => Some(Position(value, p.r))
  }

  /******* Round trip *******/

  // A position the repository can produce for the query: its slug is one, its value has the sort's type.
  predicate Produced(query: Query, p: Position) {
    IsSlug(p.slug) && (query.sort.Newest? <==> p.value.Moment?)
  }

  // A price the decoder accepts back: positive and within the column.
  predicate Representable(p: Position) {
    p.value.Moment? || 0 < p.value.cents <= MAX_CENTS
  }

  lemma ProducedIsPlain(lib: Library, query: Query, p: Position)
    requires lib.Trusted() && Produced(query, p)
    ensures PayloadOf(lib, query, p).IsPlainText() && DumpsIsAscii(PayloadOf(lib, query, p))
  {
    HexIsPlain(lib.mac(CONTEXT_PREFIX + lib.contextJson(query)));
    SlugIsPlain(p.slug);
    if p.value.Amount? { PriceRoundTrip(p.value.cents); }
    assert Plain("newest") && Plain("price_asc") && Plain("price_desc");
    PayloadIsAscii(PayloadOf(lib, query, p));
  }

  lemma KeyRoundTrip(lib: Library, query: Query, p: Position)
    requires lib.Trusted() && Produced(query, p)
    ensures ParseKey(lib, query.sort, KeyText(lib, p.value)) == if Representable(p) then Some(p.value) else None
    ensures Representable(p) ==> |KeyText(lib, p.value)| <= 26
  {
    if p.value.Amount? { PriceRoundTrip(p.value.cents); }
  }

  lemma SortNamesDiffer(a: Sort, b: Sort)
    ensures SortName(a) == SortName(b) <==> a == b
    ensures |SortName(a)| <= 10
  {
    assert |SortName(Newest)| == 6 && |SortName(PriceAsc)| == 9 && |SortName(PriceDesc)| == 10;
  }

  /** Every cursor fits the limit of the decoder, with room to spare. */
  lemma CursorFits(lib: Library, query: Query, p: Position)
    requires lib.Trusted() && Produced(query, p) && Representable(p)
    ensures DumpsIsAscii(PayloadOf(lib, query, p)) && |EncodeCursor(lib, query, p)| <= 264
  {
    ProducedIsPlain(lib, query, p);
    var payload := PayloadOf(lib, query, p);
    PayloadIsAscii(payload);
    KeyRoundTrip(lib, query, p);
    SortNamesDiffer(query.sort, query.sort);
    assert |Decimal(1)| == 1;
    assert |payload.f| == 64;
    OpenSigned(lib.mac, AsciiBytes(Dumps(payload)));
  }

  /** A cursor decodes to its position under exactly the queries with its sort and fingerprint,
      and exactly for the prices the decoder's pattern admits. */
  lemma CursorRoundTrip(lib: Library, query: Query, p: Position, other: Query)
    requires lib.Trusted() && Produced(query, p)
    ensures DumpsIsAscii(PayloadOf(lib, query, p))
    ensures DecodeCursor(lib, EncodeCursor(lib, query, p), other) ==
            if Representable(p) && other.sort == query.sort && Fingerprint(lib, other) == Fingerprint(lib, query)
            then Some(p) else None
  {
    hide Plain, IsSlug, Hex, Decimal, FormatCents;
    ProducedIsPlain(lib, query, p);
    var payload := PayloadOf(lib, query, p);
    var data := AsciiBytes(Dumps(payload));
    OpenSigned(lib.mac, data);
    assert lib.loads(data) == Some(payload);
    KeyRoundTrip(lib, query, p);
    SortNamesDiffer(query.sort, other.sort);
    if Representable(p) {
      CursorFits(lib, query, p);
    }
  }

  lemma SamePrefix(prefix: bytes, a: bytes, b: bytes)
    requires prefix + a == prefix + b
    ensures a == b
  {
    assert (prefix + a)[|prefix|..] == a && (prefix + b)[|prefix|..] == b;
  }

  // The keyed hash does not collide on the two queries.
  predicate NoCollision(lib: Library, a: Query, b: Query) {
    var x, y := CONTEXT_PREFIX + lib.contextJson(a), CONTEXT_PREFIX + lib.contextJson(b);
    lib.mac(x) == lib.mac(y) ==> x == y
  }

  lemma FingerprintBinds(lib: Library, a: Query, b: Query)
    requires lib.Trusted() && NoCollision(lib, a, b) && Fingerprint(lib, a) == Fingerprint(lib, b)
    ensures a == b
  {
    HexInjective(lib.mac(CONTEXT_PREFIX + lib.contextJson(a)), lib.mac(CONTEXT_PREFIX + lib.contextJson(b)));
    SamePrefix(CONTEXT_PREFIX, lib.contextJson(a), lib.contextJson(b));
  }

  /** A cursor made for another query is rejected, unless the keyed hash collides on the two. */
  lemma OtherContextRejected(lib: Library, query: Query, p: Position, other: Query)
    requires lib.Trusted() && Produced(query, p) && query != other && NoCollision(lib, query, other)
    ensures DumpsIsAscii(PayloadOf(lib, query, p)) && DecodeCursor(lib, EncodeCursor(lib, query, p), other).None?
  {
    hide Fingerprint, DecodeCursor, EncodeCursor, DumpsIsAscii, NoCollision;
    CursorRoundTrip(lib, query, p, other);
    if Fingerprint(lib, other) == Fingerprint(lib, query) {
      FingerprintBinds(lib, query, other);
    }
  }

  /** Whatever is accepted is the one signed text of its payload: no second spelling exists. */
  lemma AcceptedIsSigned(lib: Library, token: string, query: Query)
    requires DecodeCursor(lib, token, query).Some?
    ensures exists data: bytes :: data != [] && token == Sign(lib.mac, data) && lib.loads(data).Some?
  {
    OpenIsSigned(lib.mac, token);
  }
}
