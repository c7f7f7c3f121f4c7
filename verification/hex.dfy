/** Lower-case hexadecimal rendering of a digest, as `hashlib`'s `hexdigest()`
    produces it, with its decoder. */
module Hex {
  import opened Wrappers
  import opened Bytes

  const Digits: string := "0123456789abcdef"

  predicate IsHexDigit(c: char) {
    ('0' <= c <= '9') || ('a' <= c <= 'f')
  }

  function DigitChar(n: nat): (c: char)
    requires n < 16
    ensures IsHexDigit(c)
  {
    Digits[n]
  }

  function DigitValue(c: char): (r: Option<nat>)
    ensures r.Some? <==> IsHexDigit(c)
    ensures r.Some? ==> r.value < 16 && DigitChar(r.value) == c
  {
    if '0' <= c <= '9' then Some(c as int - '0' as int)
    else if 'a' <= c <= 'f' then Some(c as int - 'a' as int + 10)
    else None
  }

  /** Two lower-case hex digits per byte, high nibble first. */
  function Encode(b: seq<byte>): (r: string)
    ensures |r| == 2 * |b|
    ensures forall i :: 0 <= i < |r| ==> IsHexDigit(r[i])
    decreases |b|
  {
    if |b| == 0 then "" else [DigitChar(b[0] / 16), DigitChar(b[0] % 16)] + Encode(b[1..])
  }

  /** Reading bytes back from lower-case hex digits; `None` for an odd length or a
      character that is not a lower-case hex digit. */
  function Decode(s: string): (r: Option<seq<byte>>)
    decreases |s|
  {
    if |s| == 0 then Some([])
    else if |s| == 1 then None
    else
      match (DigitValue(s[0]), DigitValue(s[1]))
      case (Some(hi), Some(lo)) =>
        (match Decode(s[2..])
         case None => None
         case Some(rest) => Some([hi * 16 + lo] + rest))
      case _ => None
  }

  lemma DigitValueOfDigitChar(n: nat)
    requires n < 16
    ensures DigitValue(DigitChar(n)) == Some(n)
  {
  }

  /** Two digits of a byte read back as the byte. */
  lemma ByteDigits(x: byte)
    ensures DigitValue(DigitChar(x / 16)) == Some(x / 16)
    ensures DigitValue(DigitChar(x % 16)) == Some(x % 16)
    ensures (x / 16) * 16 + x % 16 == x
  {
    DigitValueOfDigitChar(x / 16);
    DigitValueOfDigitChar(x % 16);
  }

  lemma DecodeStep(s: string, x: byte, rest: seq<byte>)
    requires |s| >= 2 && DigitValue(s[0]) == Some(x / 16) && DigitValue(s[1]) == Some(x % 16)
    requires Decode(s[2..]) == Some(rest)
    ensures Decode(s) == Some([x] + rest)
  {
    assert (x / 16) * 16 + x % 16 == x;
  }

  /** Decoding a hex rendering gives back the bytes. */
  lemma {:induction false} DecodeEncode(b: seq<byte>)
    ensures Decode(Encode(b)) == Some(b)
    decreases |b|
  {
    if |b| > 0 {
      var s := Encode(b);
      ByteDigits(b[0]);
      assert s[2..] == Encode(b[1..]);
      DecodeEncode(b[1..]);
      DecodeStep(s, b[0], b[1..]);
      assert b == [b[0]] + b[1..];
    }
  }
}
