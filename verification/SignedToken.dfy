/**
 The frame both cursor codecs share: two base64url parts joined by one dot, the second the
 keyed hash of the first.
 */
module SignedToken {
  import opened Common
  import opened Base64Url

  function Sign(mac: bytes -> bytes, data: bytes): string {
    Encode(data) + "." + Encode(mac(data))
  }

  // `token.count(".") == 1` and `token.split(".")`: the index of the only dot.
  function OnlyDot(token: string): (r: Option<nat>)
    ensures r.Some? ==> r.value < |token|
  {
    if token == "" then None
    else
      var rest := OnlyDot(token[1..]);
      if token[0] == '.' then (if '.' in token[1..] then None else Some(0))
      else if rest.Some? then Some(rest.value + 1) else None
  }

  // The data of a token that is well formed, short enough and correctly signed.
  function Open(mac: bytes -> bytes, token: string): Option<bytes> {
    var dot := OnlyDot(token);
    if token == "" || |token| > 512 || dot.None? then None
    else
      var data, signature := Decode(token[..dot.value]), Decode(token[dot.value + 1..]);
      if data.None? || signature.None? || |signature.value| != 32 || signature.value != mac(data.value) then None
      else data
  }

  lemma {:induction false} OnlyDotFound(a: string, b: string)
    requires '.' !in a && '.' !in b
    ensures OnlyDot(a + "." + b) == Some(|a|)
  {
    var token := a + "." + b;
    if a == "" {
      assert token[1..] == b;
    } else {
      assert token[1..] == a[1..] + "." + b;
      OnlyDotFound(a[1..], b);
    }
  }

  /** A signed text opens to its data, as long as it fits. */
  lemma OpenSigned(mac: bytes -> bytes, data: bytes)
    requires |mac(data)| == 32 && data != []
    ensures |Sign(mac, data)| == (4 * |data| + 2) / 3 + 44
    ensures Open(mac, Sign(mac, data)) == if |Sign(mac, data)| <= 512 then Some(data) else None
  {
    var a, b := Encode(data), Encode(mac(data));
    EncodeIsText(data);
    EncodeIsText(mac(data));
    OnlyDotFound(a, b);
    var token := a + "." + b;
    assert token[..|a|] == a && token[|a| + 1..] == b;
    DecodeIsInverse(a, data);
    DecodeIsInverse(b, mac(data));
  }

  lemma {:induction false} DotIsThere(token: string)
    requires OnlyDot(token).Some?
    ensures token[OnlyDot(token).value] == '.'
  {
    if token[0] != '.' {
      DotIsThere(token[1..]);
    }
  }

  /** Only signed texts open, each to its own data. */
  lemma OpenIsSigned(mac: bytes -> bytes, token: string)
    requires Open(mac, token).Some?
    ensures Open(mac, token).value != [] && token == Sign(mac, Open(mac, token).value)
  {
    hide Encode, Decode, LenientDecode, OnlyDot;
    var dot := OnlyDot(token).value;
    DotIsThere(token);
    var data, signature := Decode(token[..dot]).value, Decode(token[dot + 1..]).value;
    DecodeIsInverse(token[..dot], data);
    DecodeIsInverse(token[dot + 1..], signature);
    assert token == token[..dot] + [token[dot]] + token[dot + 1..];
  }
}
