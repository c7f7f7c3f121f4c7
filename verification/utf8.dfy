/** UTF-8 (RFC 3629) as Python's string encoding produces it, with the
    matching strict decoder. A Dafny `char` is a Unicode scalar value, so every
    string of the model encodes; a Python string holding a lone surrogate,
    which cannot be encoded, is outside the model. */
module Utf8 {
  import opened Wrappers
  import opened Bytes
  import opened Text

  predicate IsContinuation(b: byte) {
    0x80 <= b < 0xC0
  }

  /** The one to four bytes of one scalar value. */
  function EncodeChar(c: char): (r: seq<byte>)
    ensures 1 <= |r| <= 4
    ensures |r| == 1 <==> c as int < 0x80
    ensures r[0] < 0x80 || 0xC0 <= r[0] < 0xF5
    ensures forall i :: 1 <= i < |r| ==> IsContinuation(r[i])
  {
    var n := c as int;
    if n < 0x80 then [n]
    else if n < 0x800 then [0xC0 + n / 64, 0x80 + n % 64]
    else if n < 0x10000 then [0xE0 + n / 4096, 0x80 + (n / 64) % 64, 0x80 + n % 64]
    else [0xF0 + n / 262144, 0x80 + (n / 4096) % 64, 0x80 + (n / 64) % 64, 0x80 + n % 64]
  }

  /** `s.encode("utf-8")` */
  function Encode(s: string): (r: seq<byte>)
    ensures |s| <= |r| <= 4 * |s|
    ensures forall i :: 0 <= i < |r| ==> r[i] < 0xF5
    decreases |s|
  {
    if |s| == 0 then [] else EncodeChar(s[0]) + Encode(s[1..])
  }

  /** An ASCII string encodes to one byte per character, the byte being the
      character's code. */
  lemma {:induction false} EncodeAscii(s: string)
    requires IsAscii(s)
    ensures |Encode(s)| == |s|
    ensures forall i :: 0 <= i < |s| ==> Encode(s)[i] == s[i] as int
    decreases |s|
  {
    if |s| > 0 {
      EncodeAscii(s[1..]);
    }
  }

  predicate IsScalar(n: int) {
    (0 <= n < 0xD800) || (0xE000 <= n < 0x110000)
  }

  /** The first scalar value of `b` and the number of bytes it used; `None` for
      a malformed, overlong, surrogate or out-of-range sequence. */
  function DecodeFirst(b: seq<byte>): (r: Option<(char, nat)>)
    requires |b| > 0
    ensures r.Some? ==> 1 <= r.value.1 <= |b|
  {
    var b0 := b[0] as int;
    if b0 < 0x80 then Some((b0 as char, 1))
    else if 0xC0 <= b0 < 0xE0 && |b| >= 2 && IsContinuation(b[1]) then
      var n := (b0 - 0xC0) * 64 + (b[1] as int - 0x80);
      if n < 0x80 then None else Some((n as char, 2))
    else if 0xE0 <= b0 < 0xF0 && |b| >= 3 && IsContinuation(b[1]) && IsContinuation(b[2]) then
      var n := (b0 - 0xE0) * 4096 + (b[1] as int - 0x80) * 64 + (b[2] as int - 0x80);
      if n < 0x800 || !IsScalar(n) then None else Some((n as char, 3))
    else if 0xF0 <= b0 < 0xF5 && |b| >= 4
            && IsContinuation(b[1]) && IsContinuation(b[2]) && IsContinuation(b[3]) then
      var n := (b0 - 0xF0) * 262144 + (b[1] as int - 0x80) * 4096 + (b[2] as int - 0x80) * 64 + (b[3] as int - 0x80);
      if n < 0x10000 || !IsScalar(n) then None else Some((n as char, 4))
    else None
  }

  /** `b.decode("utf-8")`, `None` where Python raises. */
  function Decode(b: seq<byte>): Option<string>
    decreases |b|
  {
    if |b| == 0 then Some("")
    else
      match DecodeFirst(b)
      case None => None
      case Some((c, n)) =>
        match Decode(b[n..])
        case None => None
        case Some(rest) => Some([c] + rest)
  }

  lemma DecodeFirstTwo(n: int, b: seq<byte>)
    requires 0x80 <= n < 0x800
    requires |b| >= 2 && b[0] == 0xC0 + n / 64 && b[1] == 0x80 + n % 64
    ensures 0xC0 <= b[0] < 0xE0 && IsContinuation(b[1])
    ensures (b[0] as int - 0xC0) * 64 + (b[1] as int - 0x80) == n
  {
  }

  lemma DecodeFirstThree(n: int, b: seq<byte>)
    requires 0x800 <= n < 0x10000
    requires |b| >= 3 && b[0] == 0xE0 + n / 4096
    requires b[1] == 0x80 + (n / 64) % 64 && b[2] == 0x80 + n % 64
    ensures 0xE0 <= b[0] < 0xF0 && IsContinuation(b[1]) && IsContinuation(b[2])
    ensures (b[0] as int - 0xE0) * 4096 + (b[1] as int - 0x80) * 64 + (b[2] as int - 0x80) == n
  {
    var q := n / 64;
    assert n == q * 64 + n % 64;
    assert q == (n / 4096) * 64 + q % 64;
  }

  lemma DecodeFirstFour(n: int, b: seq<byte>)
    requires 0x10000 <= n < 0x110000
    requires |b| >= 4 && b[0] == 0xF0 + n / 262144 && b[1] == 0x80 + (n / 4096) % 64
    requires b[2] == 0x80 + (n / 64) % 64 && b[3] == 0x80 + n % 64
    ensures 0xF0 <= b[0] < 0xF5
    ensures IsContinuation(b[1]) && IsContinuation(b[2]) && IsContinuation(b[3])
    ensures (b[0] as int - 0xF0) * 262144 + (b[1] as int - 0x80) * 4096
            + (b[2] as int - 0x80) * 64 + (b[3] as int - 0x80) == n
  {
    var q := n / 64;
    var p := n / 4096;
    assert n == q * 64 + n % 64;
    assert q == p * 64 + q % 64;
    assert p == (n / 262144) * 64 + p % 64;
  }

  /** Decoding the front of an encoded character gives that character back. */
  lemma DecodeFirstEncodeChar(c: char, rest: seq<byte>)
    ensures DecodeFirst(EncodeChar(c) + rest) == Some((c, |EncodeChar(c)|))
  {
    var n := c as int;
    var b := EncodeChar(c) + rest;
    if n < 0x80 {
    } else if n < 0x800 {
      DecodeFirstTwo(n, b);
    } else if n < 0x10000 {
      DecodeFirstThree(n, b);
    } else {
      DecodeFirstFour(n, b);
    }
  }

  /** Decoding an encoding gives back the string. */
  lemma {:induction false} DecodeEncode(s: string)
    ensures Decode(Encode(s)) == Some(s)
    decreases |s|
  {
    if |s| > 0 {
      var e := EncodeChar(s[0]);
      var b := Encode(s);
      DecodeFirstEncodeChar(s[0], Encode(s[1..]));
      assert b[|e|..] == Encode(s[1..]);
      DecodeEncode(s[1..]);
      assert s == [s[0]] + s[1..];
    }
  }
}
