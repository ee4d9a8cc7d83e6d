/** Character-level helpers shared by the parsers and formatters: decimal and
    hexadecimal digits, ASCII lower-casing and joining. */
module Text {

  predicate IsDigit(c: char) {
    '0' <= c <= '9'
  }

  predicate AllDigits(s: string) {
    forall i :: 0 <= i < |s| ==> IsDigit(s[i])
  }

  function DigitValue(c: char): (n: nat)
    requires IsDigit(c)
    ensures n < 10
  {
    (c as int) - ('0' as int)
  }

  function DigitChar(n: nat): (c: char)
    requires n < 10
    ensures IsDigit(c) && DigitValue(c) == n
  {
    (('0' as int) + n) as char
  }

  /** The value of a non-empty run of decimal digits, most significant first. */
  function ValueOf(ds: string): nat
    requires AllDigits(ds)
  {
    if |ds| == 0 then 0 else ValueOf(ds[..|ds| - 1]) * 10 + DigitValue(ds[|ds| - 1])
  }

  /** The shortest decimal rendering of `n` (Rust's `{}` on an unsigned integer). */
  function Decimal(n: nat): (ds: string)
    ensures |ds| >= 1 && AllDigits(ds)
    ensures n < 10 <==> |ds| == 1
  {
    if n < 10 then [DigitChar(n)] else Decimal(n / 10) + [DigitChar(n % 10)]
  }

  lemma {:induction false} DecimalRoundTrip(n: nat)
    ensures ValueOf(Decimal(n)) == n
  {
    if n >= 10 {
      var ds := Decimal(n);
      assert ds[..|ds| - 1] == Decimal(n / 10);
      DecimalRoundTrip(n / 10);
    }
  }

  function Zeros(k: nat): (z: string)
    ensures |z| == k && AllDigits(z)
    ensures forall i :: 0 <= i < k ==> z[i] == '0'
  {
    if k == 0 then [] else Zeros(k - 1) + ['0']
  }

  /** Decimal rendering left-padded with zeros to at least `width` characters (Rust's `{:0w}`). */
  function ZeroPad(n: nat, width: nat): (ds: string)
    ensures |ds| >= width && |ds| >= 1 && AllDigits(ds)
    ensures n < 10 && width == 2 ==> |ds| == 2 && ds[0] == '0' && ds[1] == DigitChar(n)
  {
    var d := Decimal(n);
    if |d| >= width then d else Zeros(width - |d|) + d
  }

  predicate IsAsciiUpper(c: char) {
    'A' <= c <= 'Z'
  }

  /** ASCII lower-casing, character by character. */
  function AsciiLower(s: string): (r: string)
    ensures |r| == |s|
    ensures forall i :: 0 <= i < |s| ==>
      r[i] == (if IsAsciiUpper(s[i]) then ((s[i] as int) + 32) as char else s[i])
  {
    if |s| == 0 then [] else
      var c := s[0];
      [if IsAsciiUpper(c) then ((c as int) + 32) as char else c] + AsciiLower(s[1..])
  }

  /** Text without ASCII capitals is its own lower-casing. */
  lemma LowerOfLower(s: string)
    requires forall i :: 0 <= i < |s| ==> !IsAsciiUpper(s[i])
    ensures AsciiLower(s) == s
  {
    var r := AsciiLower(s);
    assert forall i :: 0 <= i < |s| ==> r[i] == s[i];
  }

  predicate IsHexDigit(c: char) {
    IsDigit(c) || 'a' <= c <= 'f' || 'A' <= c <= 'F'
  }

  function HexValue(c: char): (n: nat)
    requires IsHexDigit(c)
    ensures n < 16
  {
    if IsDigit(c) then DigitValue(c)
    else if 'a' <= c <= 'f' then (c as int) - ('a' as int) + 10
    else (c as int) - ('A' as int) + 10
  }

  /** The lower-case hexadecimal digit for `n` (Rust's `{:x}`). */
  function HexChar(n: nat): (c: char)
    requires n < 16
    ensures IsHexDigit(c) && HexValue(c) == n
    ensures !IsAsciiUpper(c)
  {
    if n < 10 then DigitChar(n) else (('a' as int) + n - 10) as char
  }

  /** `items.join(sep)`. */
  function Join(sep: string, items: seq<string>): (r: string)
    ensures |items| == 0 ==> r == []
    ensures |items| == 1 ==> r == items[0]
  {
    if |items| == 0 then []
    else if |items| == 1 then items[0]
    else items[0] + sep + Join(sep, items[1..])
  }
}
