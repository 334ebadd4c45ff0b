/**
 * The parts of the JavaScript runtime that the CQR pixel code relies on:
 * the byte stored by a Uint8ClampedArray, strings as sequences of UTF-16
 * code units, String.prototype.substring and String.prototype.slice,
 * parseInt with radix 16, and the ToInt32 conversion that the bitwise
 * operators apply, as the ECMAScript language specification defines them.
 */
module Js {

  /** One element of a Uint8ClampedArray. */
  type Byte = b: int | 0 <= b < 256

  datatype Option<T> = None | Some(value: T)

  function Min(a: int, b: int): int { if a <= b then a else b }

  /** A UTF-16 code unit: what a JavaScript string holds, and what its length and substring count. */
  type CodeUnit = u: int | 0 <= u < 0x1_0000

  /** A JavaScript string value. */
  type JsString = seq<CodeUnit>

  /** The code units of one character: itself inside the Basic Multilingual Plane, else a surrogate pair. */
  function CodeUnitsOf(c: char): (u: JsString)
    ensures |u| == 1 <==> (c as int) < 0x1_0000
    ensures |u| == 1 ==> u[0] == c as int
    ensures |u| == 2 ==> 0xD800 <= u[0] < 0xDC00 <= u[1] < 0xE000
    ensures |u| == 1 || |u| == 2
  {
    var n := c as int;
    if n < 0x1_0000 then [n]
    else [0xD800 + (n - 0x1_0000) / 0x400, 0xDC00 + (n - 0x1_0000) % 0x400]
  }

  /** The UTF-16 encoding of a string, as a JavaScript string literal holds it. */
  function Utf16(s: string): (u: JsString)
    ensures |u| >= |s|
  {
    if |s| == 0 then [] else Utf16(s[..|s| - 1]) + CodeUnitsOf(s[|s| - 1])
  }

  /**
   * Storing a number into a Uint8ClampedArray: NaN (here None, which is
   * also what an undefined array read converts to) becomes 0, values
   * outside 0..255 are clamped.
   */
  function ToUint8Clamped(v: Option<int>): (b: Byte)
    ensures v.Some? && 0 <= v.value < 256 ==> b == v.value
    ensures v.None? ==> b == 0
  {
    match v
    case None => 0
    case Some(n) => if n < 0 then 0 else if n > 255 then 255 else n
  }

  /** A position argument of substring, clamped into 0..len. */
  function ClampIndex(i: int, len: nat): (r: nat)
    ensures r <= len
    ensures 0 <= i <= len ==> r == i
    ensures i > len ==> r == len
  {
    if i < 0 then 0 else if i > len then len else i
  }

  /** s.substring(start, end): both ends clamped, swapped when reversed. */
  function Substring<T>(s: seq<T>, start: int, end: int): (r: seq<T>)
    ensures |r| <= |s|
    ensures 0 <= start <= end <= |s| ==> r == s[start..end]
  {
    var a := ClampIndex(start, |s|);
    var b := ClampIndex(end, |s|);
    if a <= b then s[a..b] else s[b..a]
  }

  /** s.substring(start) */
  function SubstringFrom<T>(s: seq<T>, start: int): (r: seq<T>)
    ensures 0 <= start <= |s| ==> r == s[start..]
    ensures start >= |s| ==> r == []
  {
    s[ClampIndex(start, |s|)..]
  }

  /** A position argument of slice: a negative one counts from the end. */
  function RelativeIndex(i: int, len: nat): (r: nat)
    ensures r <= len
    ensures 0 <= i <= len ==> r == i
  {
    if i < 0 then (if len + i < 0 then 0 else len + i)
    else if i > len then len
    else i
  }

  /** s.slice(start, end): empty when the ends cross. */
  function Slice<T>(s: seq<T>, start: int, end: int): (r: seq<T>)
    ensures 0 <= start <= end <= |s| ==> r == s[start..end]
  {
    var a := RelativeIndex(start, |s|);
    var b := RelativeIndex(end, |s|);
    if a < b then s[a..b] else []
  }

  /** s.slice(start) */
  function SliceFrom<T>(s: seq<T>, start: int): (r: seq<T>)
    ensures 0 <= start <= |s| ==> r == s[start..]
  {
    s[RelativeIndex(start, |s|)..]
  }

  predicate IsHexDigit(c: char) {
    ('0' <= c <= '9') || ('a' <= c <= 'f') || ('A' <= c <= 'F')
  }

  predicate AllHexDigits(s: string) {
    forall i :: 0 <= i < |s| ==> IsHexDigit(s[i])
  }

  function HexDigitValue(c: char): (v: nat)
    requires IsHexDigit(c)
    ensures v < 16
  {
    if '0' <= c <= '9' then c as int - '0' as int
    else if 'a' <= c <= 'f' then c as int - 'a' as int + 10
    else c as int - 'A' as int + 10
  }

  function Pow16(n: nat): (r: nat)
    ensures r >= 1
  {
    if n == 0 then 1 else 16 * Pow16(n - 1)
  }

  /** The number a run of hex digits denotes, most significant first. */
  function HexValue(d: string): (v: nat)
    requires AllHexDigits(d)
    ensures v < Pow16(|d|)
    decreases |d|
  {
    if |d| == 0 then 0
    else HexValue(d[..|d| - 1]) * 16 + HexDigitValue(d[|d| - 1])
  }

  /** Length of the longest prefix of s made of hex digits. */
  function HexRunLength(s: string): (n: nat)
    ensures n <= |s|
    ensures AllHexDigits(s[..n])
    ensures n < |s| ==> !IsHexDigit(s[n])
  {
    if |s| == 0 || !IsHexDigit(s[0]) then 0
    else
      var m := HexRunLength(s[1..]);
      assert s[..m + 1] == [s[0]] + s[1..][..m];
      m + 1
  }

  /**
   * parseInt(s, 16): an optional sign, an optional 0x/0X prefix, then the
   * longest run of hex digits; None is NaN (no digit at all).
   */
  function ParseIntHex(s: string): (r: Option<int>)
  {
    var negative := |s| > 0 && s[0] == '-';
    var rest := if |s| > 0 && (s[0] == '-' || s[0] == '+') then s[1..] else s;
    var body := if |rest| >= 2 && rest[0] == '0' && (rest[1] == 'x' || rest[1] == 'X')
                then rest[2..] else rest;
    var n := HexRunLength(body);
    var magnitude: int := HexValue(body[..n]);
    if n == 0 then None
    else Some(if negative then -magnitude else magnitude)
  }

  /**
   * ToInt32 as the bitwise operators apply it to a parseInt result: NaN
   * becomes 0, every other value is reduced modulo 2^32 into the signed
   * 32-bit range.
   */
  function ToInt32(v: Option<int>): (r: int)
    ensures -0x8000_0000 <= r < 0x8000_0000
    ensures v.Some? && 0 <= v.value < 0x8000_0000 ==> r == v.value
  {
    match v
    case None => 0
    case Some(n) =>
      var u := n % 0x1_0000_0000;
      if u >= 0x8000_0000 then u - 0x1_0000_0000 else u
  }

  /** A string made only of hex digits is one whole run. */
  lemma {:induction false} HexRunOfDigits(d: string)
    requires AllHexDigits(d)
    ensures HexRunLength(d) == |d|
  {
    if |d| > 0 {
      assert AllHexDigits(d[1..]) by {
        forall i | 0 <= i < |d[1..]| ensures IsHexDigit(d[1..][i]) { assert d[1..][i] == d[i + 1]; }
      }
      HexRunOfDigits(d[1..]);
    }
  }

  /** A non-empty run of hex digits parses to the number it denotes. */
  lemma ParseIntHexOfDigits(d: string)
    requires |d| > 0 && AllHexDigits(d)
    ensures ParseIntHex(d) == Some(HexValue(d))
  {
    assert IsHexDigit(d[0]);
    assert !(d[0] == '-' || d[0] == '+');
    if |d| >= 2 {
      assert IsHexDigit(d[1]);
      assert !(d[0] == '0' && (d[1] == 'x' || d[1] == 'X'));
    }
    HexRunOfDigits(d);
    assert d[..|d|] == d;
  }

  /** Two hex digits denote 16 times the first plus the second. */
  lemma HexValuePair(d: string)
    requires |d| == 2 && AllHexDigits(d)
    ensures HexValue(d) == HexDigitValue(d[0]) * 16 + HexDigitValue(d[1])
  {
    assert d[..1][..0] == [];
  }

  /** Appending digit d[k] to the prefix d[..k] multiplies its value by 16 and adds the digit. */
  lemma HexValueSnoc(d: string, k: nat)
    requires k < |d| && AllHexDigits(d)
    ensures AllHexDigits(d[..k]) && AllHexDigits(d[..k + 1])
    ensures HexValue(d[..k + 1]) == HexValue(d[..k]) * 16 + HexDigitValue(d[k])
  {
    assert d[..k + 1][..k] == d[..k];
  }

  /**
   * Six hex digits #RRGGBB-style: the number they denote packs the three
   * digit pairs as 65536 * RR + 256 * GG + BB.
   */
  lemma HexValueSix(d: string)
    requires |d| == 6 && AllHexDigits(d)
    ensures AllHexDigits(d[..2]) && AllHexDigits(d[2..4]) && AllHexDigits(d[4..])
    ensures HexValue(d) == HexValue(d[..2]) * 65536 + HexValue(d[2..4]) * 256 + HexValue(d[4..])
  {
    assert d[..6] == d;
    HexValueSnoc(d, 5);
    HexValueSnoc(d, 4);
    HexValueSnoc(d, 3);
    HexValueSnoc(d, 2);
    HexValuePair(d[2..4]);
    HexValuePair(d[4..]);
  }
}
