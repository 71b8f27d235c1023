/** Lower-case hexadecimal text of a byte string, as produced by Node's
    `Buffer.toString("hex")` on the output of `crypto.randomBytes`. */
module Hex {

  newtype byte = x: int | 0 <= x < 256

  const Digits: string := "0123456789abcdef"

  predicate IsHexDigit(c: char)
  {
    '0' <= c <= '9' || 'a' <= c <= 'f'
  }

  predicate IsHexText(s: string)
  {
    forall i :: 0 <= i < |s| ==> IsHexDigit(s[i])
  }

  /** The value of one lower-case hex digit. */
  function DigitValue(c: char): (v: int)
    requires IsHexDigit(c)
    ensures 0 <= v < 16 && Digits[v] == c
  {
    if '0' <= c <= '9' then c as int - '0' as int else c as int - 'a' as int + 10
  }

  lemma DigitValueOfDigit(k: int)
    requires 0 <= k < 16
    ensures IsHexDigit(Digits[k]) && DigitValue(Digits[k]) == k
  {
  }

  lemma NibblesOf(b: int)
    requires 0 <= b < 256
    ensures IsHexDigit(Digits[b / 16]) && IsHexDigit(Digits[b % 16])
    ensures DigitValue(Digits[b / 16]) * 16 + DigitValue(Digits[b % 16]) == b
  {
    var hi, lo := b / 16, b % 16;
    DigitValueOfDigit(hi);
    DigitValueOfDigit(lo);
    assert hi * 16 + lo == b;
  }

  /** Two digits per byte, high nibble first. */
  function ToHex(bytes: seq<byte>): (s: string)
    ensures |s| == 2 * |bytes|
    ensures IsHexText(s)
  {
    if bytes == [] then ""
    else
      var b := bytes[0] as int;
      [Digits[b / 16], Digits[b % 16]] + ToHex(bytes[1..])
  }

  /** The inverse reading of a hex text with an even number of digits. */
  function FromHex(s: string): (r: seq<byte>)
    requires |s| % 2 == 0 && IsHexText(s)
    ensures |r| == |s| / 2
  {
    if s == [] then []
    else
      assert IsHexDigit(s[0]) && IsHexDigit(s[1]);
      [(DigitValue(s[0]) * 16 + DigitValue(s[1])) as byte] + FromHex(s[2..])
  }

  /** Hex text loses nothing: the bytes can be read back. */
  lemma {:induction false} FromHexToHex(bytes: seq<byte>)
    ensures FromHex(ToHex(bytes)) == bytes
  {
    if bytes != [] {
      var b := bytes[0] as int;
      var s := ToHex(bytes);
      assert s[0] == Digits[b / 16] && s[1] == Digits[b % 16] && s[2..] == ToHex(bytes[1..]);
      NibblesOf(b);
      assert FromHex(s)[0] == bytes[0];
      FromHexToHex(bytes[1..]);
      assert FromHex(s)[1..] == bytes[1..];
    }
  }
}
