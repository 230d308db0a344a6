/**
 Text formats inside a cursor: ASCII bytes, hexadecimal digests, listing slugs and prices.
 */
module CursorText {
  import opened Common

  // Printable ASCII that JSON writes as itself inside a string.
  predicate IsPlain(c: char) {
    ' ' <= c <= '~' && c != '"' && c != '\\'
  }

  predicate Plain(s: string) {
    forall c <- s :: IsPlain(c)
  }

  predicate Ascii(s: string) {
    forall c <- s :: c as int < 128
  }

  // `encode("ascii")`
  function AsciiBytes(s: string): (b: bytes)
    requires Ascii(s)
    ensures |b| == |s| && forall i :: 0 <= i < |s| ==> b[i] == s[i] as int
  {
    seq<byte>(|s|, i requires 0 <= i < |s| => Code(s, i))
  }

  function Code(s: string, i: nat): byte
    requires Ascii(s) && i < |s|
  {
    assert s[i] in s;
    s[i] as int
  }

  /******* Hexadecimal *******/

  function Nibble(n: nat): char
    requires n < 16
  {
    if n < 10 then '0' + n as char else 'a' + (n - 10) as char
  }

  predicate IsHex(c: char) {
    '0' <= c <= '9' || 'a' <= c <= 'f'
  }

  // `hexdigest`
  function Hex(data: bytes): (s: string)
    ensures |s| == 2 * |data|
    ensures forall i :: 0 <= i < |data| ==> s[2 * i] == Nibble(data[i] / 16) && s[2 * i + 1] == Nibble(data[i] % 16)
  {
    seq(2 * |data|, i requires 0 <= i < 2 * |data| => if i % 2 == 0 then Nibble(data[i / 2] / 16)
        else Nibble(data[i / 2] % 16))
  }

  lemma HexIsPlain(data: bytes)
    ensures Plain(Hex(data))
  {
    var s := Hex(data);
    assert forall n: nat :: n < 16 ==> IsPlain(Nibble(n));
    forall i | 0 <= i < |s|
      ensures IsPlain(s[i])
    {
      assert s[i] == if i % 2 == 0 then s[2 * (i / 2)] else s[2 * (i / 2) + 1];
    }
  }

  lemma HexInjective(a: bytes, b: bytes)
    requires Hex(a) == Hex(b)
    ensures a == b
  {
    forall i | 0 <= i < |a|
      ensures a[i] == b[i]
    {
      assert Hex(a)[2 * i] == Hex(b)[2 * i] && Hex(a)[2 * i + 1] == Hex(b)[2 * i + 1];
      NibbleInjective(a[i] / 16, b[i] / 16);
      NibbleInjective(a[i] % 16, b[i] % 16);
    }
  }

  lemma NibbleInjective(m: nat, n: nat)
    requires m < 16 && n < 16 && Nibble(m) == Nibble(n)
    ensures m == n
  {
  }

  /******* Slugs *******/

  // ^item-[0-9a-f]{24}$
  predicate IsSlug(s: string) {
    |s| == 29 && s[..5] == "item-" && forall c <- s[5..] :: IsHex(c)
  }

  /** A slug is "item-" and 24 lower-case hexadecimal digits, whichever they are. */
  lemma SlugForm(s: string)
    ensures IsSlug(s) <==>
      exists digits: string :: |digits| == 24 && s == "item-" + digits && forall c <- digits :: c in "0123456789abcdef"
  {
    if IsSlug(s) {
      assert s == "item-" + s[5..];
    }
    if digits: string :| |digits| == 24 && s == "item-" + digits && forall c <- digits :: c in "0123456789abcdef" {
      assert s[..5] == "item-" && s[5..] == digits;
    }
  }

  lemma SlugIsPlain(s: string)
    requires IsSlug(s)
    ensures Plain(s)
  {
    forall i | 0 <= i < |s|
      ensures IsPlain(s[i])
    {
      assert i < 5 ==> s[i] == s[..5][i];
      assert i >= 5 ==> s[i] == s[5..][i - 5] && s[i] in s[5..];
    }
  }

  /******* Prices *******/

  function DigitChar(n: nat): char
    requires n < 10
  {
    '0' + n as char
  }

  predicate IsDigitChar(c: char) {
    '0' <= c <= '9'
  }

  function Decimal(n: nat): string {
    if n < 10 then [DigitChar(n)] else Decimal(n / 10) + [DigitChar(n % 10)]
  }

  function ParseDigits(s: string): nat
    requires forall c <- s :: IsDigitChar(c)
  {
    if s == "" then 0
    else
      assert IsDigitChar(s[|s| - 1]);
      10 * ParseDigits(s[..|s| - 1]) + (s[|s| - 1] - '0') as int
  }

  // `format(price, ".2f")` of a price in cents.
  function FormatCents(cents: nat): string {
    Decimal(cents / 100) + "." + [DigitChar(cents / 10 % 10), DigitChar(cents % 10)]
  }

  const MAX_CENTS: nat := 999_999_999_999

  // (?:0|[1-9][0-9]{0,9})\.[0-9]{2}
  predicate IsPriceText(s: string) {
    && 4 <= |s| <= 13 && s[|s| - 3] == '.'
    && (forall c <- s[..|s| - 3] :: IsDigitChar(c)) && IsDigitChar(s[|s| - 2]) && IsDigitChar(s[|s| - 1])
    && (s[0] == '0' ==> |s| == 4)
  }

  // The price in cents, when it is positive and has at most twelve digits.
  function ParseCents(s: string): Option<nat> {
    if !IsPriceText(s) then None
    else
      var cents := 100 * ParseDigits(s[..|s| - 3]) + 10 * (s[|s| - 2] - '0') as int + (s[|s| - 1] - '0') as int;
      if 0 < cents <= MAX_CENTS then Some(cents) else None
  }

  lemma {:induction false} DecimalFacts(n: nat)
    ensures (forall c <- Decimal(n) :: IsDigitChar(c)) && ParseDigits(Decimal(n)) == n
    ensures |Decimal(n)| >= 1 && (Decimal(n)[0] == '0' ==> n == 0)
  {
    if n >= 10 {
      DecimalFacts(n / 10);
      var init := Decimal(n / 10);
      assert Decimal(n)[..|init|] == init;
    }
  }

  lemma {:induction false} DecimalLength(n: nat, k: nat, bound: nat)
    requires k >= 1 && bound == PowerOfTen(k)
    ensures |Decimal(n)| <= k <==> n < bound
    decreases k
  {
    if k == 1 {
      if n >= 10 { DecimalFacts(n / 10); }
    } else if n >= 10 {
      DecimalLength(n / 10, k - 1, PowerOfTen(k - 1));
    } else {
      assert PowerOfTen(k - 1) >= 1;
    }
  }

  function PowerOfTen(k: nat): (r: nat)
    ensures r >= 1
  {
    if k == 0 then 1 else 10 * PowerOfTen(k - 1)
  }

  /** A formatted price parses back exactly when it is positive and fits the column. */
  lemma PriceRoundTrip(cents: nat)
    ensures ParseCents(FormatCents(cents)) == (if 0 < cents <= MAX_CENTS then Some(cents) else None)
    ensures cents <= MAX_CENTS ==> |FormatCents(cents)| <= 13
    ensures Plain(FormatCents(cents))
  {
    hide Decimal, ParseDigits, IsPriceText, Plain, DigitChar;
    var units, tens, yuan := cents % 10, cents / 10 % 10, cents / 100;
    var s := FormatCents(cents);
    DecimalFacts(yuan);
    TenDigits(yuan);
    PriceShape(Decimal(yuan), tens, units, s);
    PriceDigits(cents);
    if yuan == 0 { ZeroDigits(); }
  }

  lemma PriceDigits(cents: nat)
    ensures cents == 100 * (cents / 100) + 10 * (cents / 10 % 10) + cents % 10
    ensures cents <= MAX_CENTS <==> cents / 100 <= 9_999_999_999
  {
    var tens := cents / 10;
    assert cents == 10 * tens + cents % 10;
    TensOfTens(cents);
  }

  lemma TensOfTens(n: nat)
    ensures n / 10 / 10 == n / 100
  {
  }

  lemma ZeroDigits()
    ensures Decimal(0) == "0"
  {
  }

  lemma PriceShape(whole: string, tens: nat, units: nat, s: string)
    requires tens < 10 && units < 10 && (forall c <- whole :: IsDigitChar(c)) && |whole| >= 1
    requires s == whole + "." + [DigitChar(tens), DigitChar(units)]
    ensures s[..|s| - 3] == whole && Plain(s)
    ensures IsPriceText(s) <==> |whole| <= 10 && (whole[0] == '0' ==> |whole| == 1)
    ensures (s[|s| - 2] - '0') as int == tens && (s[|s| - 1] - '0') as int == units
  {
    assert s[..|s| - 3] == whole;
    assert forall c <- s :: c in whole || c == '.' || c == DigitChar(tens) || c == DigitChar(units);
  }

  lemma TenDigits(n: nat)
    ensures |Decimal(n)| <= 10 <==> n <= 9_999_999_999
  {
    assert PowerOfTen(10) == 10_000_000_000 by {
      assert PowerOfTen(2) == 100 && PowerOfTen(4) == 10000;
      assert PowerOfTen(6) == 1000000 && PowerOfTen(8) == 100000000;
    }
    DecimalLength(n, 10, PowerOfTen(10));
  }
}
