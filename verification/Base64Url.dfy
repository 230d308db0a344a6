/**
 Unpadded base64url (section 5 of RFC 4648) as both cursor codecs use it: encode, strip the
 padding; decode, then insist that encoding again gives the same text.
 */
module Base64Url {
  import opened Common

  type digit = d: int | 0 <= d < 64

  function Symbol(d: digit): char {
    if d < 26 then 'A' + d as char
    else if d < 52 then 'a' + (d - 26) as char
    else if d < 62 then '0' + (d - 52) as char
    else if d == 62 then '-' else '_'
  }

  predicate IsSymbol(c: char) {
    'A' <= c <= 'Z' || 'a' <= c <= 'z' || '0' <= c <= '9' || c == '-' || c == '_'
  }

  function Digit(c: char): digit
    requires IsSymbol(c)
  {
    if 'A' <= c <= 'Z' then (c - 'A') as int
    else if 'a' <= c <= 'z' then (c - 'a') as int + 26
    else if '0' <= c <= '9' then (c - '0') as int + 52
    else if c == '-' then 62 else 63
  }

  lemma SymbolIsDigit(d: digit)
    ensures IsSymbol(Symbol(d)) && Digit(Symbol(d)) == d
  {
  }

  // Digits of one group, most significant first.
  function Group(a: byte, b: byte, c: byte): (g: seq<digit>)
    ensures |g| == 4
  {
    [a / 4, (a % 4) * 16 + b / 16, (b % 16) * 4 + c / 64, c % 64]
  }

  function Symbols(ds: seq<digit>): (s: string)
    ensures |s| == |ds| && forall i :: 0 <= i < |ds| ==> s[i] == Symbol(ds[i])
  {
    seq(|ds|, i requires 0 <= i < |ds| => Symbol(ds[i]))
  }

  function Encode(data: bytes): string {
    if |data| == 0 then ""
    else if |data| == 1 then Symbols(Group(data[0], 0, 0)[..2])
    else if |data| == 2 then Symbols(Group(data[0], data[1], 0)[..3])
    else Symbols(Group(data[0], data[1], data[2])) + Encode(data[3..])
  }

  // Bytes of one group of digits.
  function First(w: digit, x: digit): byte {
    w * 4 + x / 16
  }

  function Second(x: digit, y: digit): byte {
    (x % 16) * 16 + y / 4
  }

  function Third(y: digit, z: digit): byte {
    (y % 4) * 64 + z
  }

  lemma GroupInverse(a: byte, b: byte, c: byte)
    ensures var g := Group(a, b, c); First(g[0], g[1]) == a && Second(g[1], g[2]) == b && Third(g[2], g[3]) == c
  {
  }

  // The library decoder: unused low bits of the last symbol are dropped, and a text one
  // symbol past a group is an error.
  function LenientDecode(s: string): Option<bytes>
    requires forall c <- s :: IsSymbol(c)
  {
    if |s| == 0 then Some([])
    else if |s| == 1 then None
    else
      var w, x := Digit(s[0]), Digit(s[1]);
      var first := First(w, x);
      if |s| == 2 then Some([first])
      else
        var y := Digit(s[2]);
        var second := Second(x, y);
        if |s| == 3 then Some([first, second])
        else
          var third := Third(y, Digit(s[3]));
          match LenientDecode(s[4..])
          case None => None
          case Some(rest) => Some([first, second, third] + rest)
  }

  // `_unbase64url` and `_decode`
  function Decode(s: string): Option<bytes> {
    if s == "" || exists c <- s :: !IsSymbol(c) then None
    else
      var data := LenientDecode(s);
      if data.Some? && Encode(data.value) == s then data else None
  }

  lemma {:induction false} EncodeIsText(data: bytes)
    ensures forall c <- Encode(data) :: IsSymbol(c)
    ensures |Encode(data)| == (4 * |data| + 2) / 3
    decreases |data|
  {
    forall d: digit
      ensures IsSymbol(Symbol(d))
    {
      SymbolIsDigit(d);
    }
    if |data| > 2 {
      EncodeIsText(data[3..]);
    }
  }

  lemma {:induction false} LenientInverse(data: bytes)
    ensures (forall c <- Encode(data) :: IsSymbol(c)) && LenientDecode(Encode(data)) == Some(data)
    decreases |data|
  {
    hide Group, First, Second, Third, Symbol, Digit, IsSymbol;
    EncodeIsText(data);
    if |data| == 1 {
      ReadGroup(Group(data[0], 0, 0), "");
      GroupInverse(data[0], 0, 0);
      assert data == [data[0]];
    } else if |data| == 2 {
      ReadGroup(Group(data[0], data[1], 0), "");
      GroupInverse(data[0], data[1], 0);
      assert data == [data[0], data[1]];
    } else if |data| > 2 {
      var g, rest := Group(data[0], data[1], data[2]), Encode(data[3..]);
      LenientInverse(data[3..]);
      EncodeIsText(data[3..]);
      ReadGroup(g, rest);
      GroupInverse(data[0], data[1], data[2]);
      assert data == [data[0], data[1], data[2]] + data[3..];
    }
  }

  // Reading the symbols of a whole or partial group gives its bytes back.
  lemma ReadGroup(g: seq<digit>, rest: string)
    requires |g| == 4 && (forall c <- rest :: IsSymbol(c)) && LenientDecode(rest).Some?
    ensures forall c <- Symbols(g) :: IsSymbol(c)
    ensures forall c <- Symbols(g[..2]) :: IsSymbol(c)
    ensures forall c <- Symbols(g[..3]) :: IsSymbol(c)
    ensures forall c <- Symbols(g) + rest :: IsSymbol(c)
    ensures LenientDecode(Symbols(g[..2])) == Some([First(g[0], g[1])])
    ensures LenientDecode(Symbols(g[..3])) == Some([First(g[0], g[1]), Second(g[1], g[2])])
    ensures LenientDecode(Symbols(g) + rest)
         == Some([First(g[0], g[1]), Second(g[1], g[2]), Third(g[2], g[3])] + LenientDecode(rest).value)
  {
    hide First, Second, Third, Symbol, Digit, IsSymbol;
    SymbolIsDigit(g[0]);
    SymbolIsDigit(g[1]);
    SymbolIsDigit(g[2]);
    SymbolIsDigit(g[3]);
    assert (Symbols(g) + rest)[4..] == rest;
  }

  /** Decoding accepts exactly the encodings of nonempty data, and inverts them. */
  lemma DecodeIsInverse(s: string, data: bytes)
    ensures Decode(s) == Some(data) <==> data != [] && s == Encode(data)
  {
    LenientInverse(data);
    EncodeIsText(data);
    if Decode(s) == Some(data) {
      assert s == Encode(data);
    }
  }

  /** Encoding is injective, and its length is that of the data in six-bit digits. */
  lemma EncodeInjective(a: bytes, b: bytes)
    requires Encode(a) == Encode(b)
    ensures a == b
  {
    LenientInverse(a);
    LenientInverse(b);
  }
}
