/** The base 64 encoding of section 4 of RFC 4648, as `base64.b64encode`
    produces it (standard alphabet, `=` padding), with its decoder. */
module Base64 {
  import opened Wrappers
  import opened Bytes

  /** The character for a six-bit value: `A`-`Z`, `a`-`z`, `0`-`9`, `+`, `/`. */
  function SextetChar(n: nat): (c: char)
    requires n < 64
    ensures IsBase64Char(c)
  {
    if n < 26 then ('A' as int + n) as char
    else if n < 52 then ('a' as int + (n - 26)) as char
    else if n < 62 then ('0' as int + (n - 52)) as char
    else if n == 62 then '+'
    else '/'
  }

  predicate IsBase64Char(c: char) {
    ('A' <= c <= 'Z') || ('a' <= c <= 'z') || ('0' <= c <= '9') || c == '+' || c == '/'
  }

  function SextetValue(c: char): (r: Option<nat>)
    ensures r.Some? <==> IsBase64Char(c)
    ensures r.Some? ==> r.value < 64 && SextetChar(r.value) == c
  {
    if 'A' <= c <= 'Z' then Some(c as int - 'A' as int)
    else if 'a' <= c <= 'z' then Some(c as int - 'a' as int + 26)
    else if '0' <= c <= '9' then Some(c as int - '0' as int + 52)
    else if c == '+' then Some(62)
    else if c == '/' then Some(63)
    else None
  }

  /** The text of a standard base 64 encoding: alphabet characters followed by
      at most two `=`, the padding falling only in the last quantum. */
  predicate IsPadded(s: string) {
    |s| % 4 == 0
    && (forall i :: 0 <= i < |s| ==> IsBase64Char(s[i]) || s[i] == '=')
    && (forall i :: 0 <= i < |s| && s[i] == '=' ==> i >= |s| - 2)
  }

  /** One output quantum for one to three bytes: the missing bits are zero and
      each missing byte becomes one `=`. */
  function EncodeQuantum(b: seq<byte>): (r: string)
    requires 1 <= |b| <= 3
    ensures |r| == 4
    ensures forall i :: 0 <= i <= |b| ==> IsBase64Char(r[i])
    ensures forall i :: |b| < i < 4 ==> r[i] == '='
  {
    var x := b[0];
    var y := if |b| > 1 then b[1] else 0;
    var z := if |b| > 2 then b[2] else 0;
    [SextetChar(x / 4),
     SextetChar((x % 4) * 16 + y / 16),
     if |b| > 1 then SextetChar((y % 16) * 4 + z / 64) else '=',
     if |b| > 2 then SextetChar(z % 64) else '=']
  }

  /** The base 64 text of some bytes: four characters per started three-byte group. */
  function Encode(b: seq<byte>): (r: string)
    ensures |r| == 4 * ((|b| + 2) / 3)
    ensures IsPadded(r)
    decreases |b|
  {
    if |b| == 0 then ""
    else if |b| <= 3 then
      QuantumPadded(b);
      EncodeQuantum(b)
    else
      var q := EncodeQuantum(b[..3]);
      var rest := Encode(b[3..]);
      PaddedPrepend(q, rest);
      QuantumCount(|b|);
      q + rest
  }

  lemma QuantumPadded(b: seq<byte>)
    requires 1 <= |b| <= 3
    ensures IsPadded(EncodeQuantum(b)) && 4 * ((|b| + 2) / 3) == 4
  {
  }

  lemma QuantumCount(n: int)
    requires n > 3
    ensures 4 + 4 * ((n - 3 + 2) / 3) == 4 * ((n + 2) / 3)
  {
    assert (n + 2) / 3 == (n - 3 + 2) / 3 + 1;
  }

  lemma PaddedPrepend(q: string, rest: string)
    requires |q| == 4 && forall i :: 0 <= i < 4 ==> IsBase64Char(q[i])
    requires IsPadded(rest)
    ensures IsPadded(q + rest)
  {
    var s := q + rest;
    forall i | 0 <= i < |s| ensures IsBase64Char(s[i]) || s[i] == '=' {
      if i >= 4 {
        assert s[i] == rest[i - 4];
      }
    }
    forall i | 0 <= i < |s| && s[i] == '=' ensures i >= |s| - 2 {
      if i >= 4 {
        assert s[i] == rest[i - 4];
      }
    }
  }

  /** The bytes of one four-character quantum, `None` if it is malformed. A
      padded quantum must leave its unused low bits zero, as section 3.5 of
      RFC 4648 requires of an encoder, so each byte string has one text. */
  function DecodeQuantum(q: string): (r: Option<seq<byte>>)
    requires |q| == 4
    ensures r.Some? ==> 1 <= |r.value| <= 3
  {
    match (SextetValue(q[0]), SextetValue(q[1]), SextetValue(q[2]), SextetValue(q[3]))
    case (Some(a), Some(b), Some(c), Some(d)) =>
      Some([a * 4 + b / 16, (b % 16) * 16 + c / 4, (c % 4) * 64 + d])
    case (Some(a), Some(b), Some(c), None) =>
      if q[3] == '=' && c % 4 == 0 then Some([a * 4 + b / 16, (b % 16) * 16 + c / 4]) else None
    case (Some(a), Some(b), None, None) =>
      if q[2] == '=' && q[3] == '=' && b % 16 == 0 then Some([a * 4 + b / 16]) else None
    case _ => None
  }

  /** Strict base 64 decoding, the inverse of `Encode` used to state the round
      trip: any character outside the alphabet gives `None`, padding is
      accepted only in the last quantum, and the unused bits before the
      padding must be zero. */
  function Decode(s: string): (r: Option<seq<byte>>)
    decreases |s|
  {
    if |s| == 0 then Some([])
    else if |s| < 4 then None
    else
      match DecodeQuantum(s[..4])
      case None => None
      case Some(front) =>
        if |front| < 3 && |s| > 4 then None
        else
          match Decode(s[4..])
          case None => None
          case Some(rest) => Some(front + rest)
  }

  lemma SextetValueOfSextetChar(n: nat)
    requires n < 64
    ensures SextetValue(SextetChar(n)) == Some(n)
  {
  }

  lemma DivModSixteen(hi: int, lo: int)
    requires 0 <= lo < 16
    ensures (hi * 16 + lo) / 16 == hi && (hi * 16 + lo) % 16 == lo
  {
  }

  lemma DivModFour(hi: int, lo: int)
    requires 0 <= lo < 4
    ensures (hi * 4 + lo) / 4 == hi && (hi * 4 + lo) % 4 == lo
  {
  }

  /** The three sextet boundaries of a full quantum put the bytes back together. */
  lemma QuantumArithmetic(x: byte, y: byte, z: byte)
    ensures var b := (x % 4) * 16 + y / 16;
            var c := (y % 16) * 4 + z / 64;
            && (x / 4) * 4 + b / 16 == x
            && (b % 16) * 16 + c / 4 == y
            && (c % 4) * 64 + z % 64 == z
  {
    DivModSixteen(x % 4, y / 16);
    DivModFour(y % 16, z / 64);
  }

  lemma QuantumThree(b: seq<byte>)
    requires |b| == 3
    ensures DecodeQuantum(EncodeQuantum(b)) == Some(b)
  {
    var x, y, z := b[0], b[1], b[2];
    var s1, s2, s3, s4 := x / 4, (x % 4) * 16 + y / 16, (y % 16) * 4 + z / 64, z % 64;
    SextetValueOfSextetChar(s1);
    SextetValueOfSextetChar(s2);
    SextetValueOfSextetChar(s3);
    SextetValueOfSextetChar(s4);
    QuantumArithmetic(x, y, z);
    assert EncodeQuantum(b) == [SextetChar(s1), SextetChar(s2), SextetChar(s3), SextetChar(s4)];
    assert [x, y, z] == b;
  }

  lemma QuantumTwo(b: seq<byte>)
    requires |b| == 2
    ensures DecodeQuantum(EncodeQuantum(b)) == Some(b)
  {
    var x, y := b[0], b[1];
    SextetValueOfSextetChar(x / 4);
    SextetValueOfSextetChar((x % 4) * 16 + y / 16);
    SextetValueOfSextetChar((y % 16) * 4);
    assert [x, y] == b;
  }

  lemma QuantumOne(b: seq<byte>)
    requires |b| == 1
    ensures DecodeQuantum(EncodeQuantum(b)) == Some(b)
  {
    var x := b[0];
    SextetValueOfSextetChar(x / 4);
    SextetValueOfSextetChar((x % 4) * 16);
    assert [x] == b;
  }

  /** Every quantum decodes to the bytes it encodes. */
  lemma QuantumRoundTrip(b: seq<byte>)
    requires 1 <= |b| <= 3
    ensures DecodeQuantum(EncodeQuantum(b)) == Some(b)
  {
    if |b| == 1 {
      QuantumOne(b);
    } else if |b| == 2 {
      QuantumTwo(b);
    } else {
      QuantumThree(b);
    }
  }

  /** A last quantum on its own. */
  lemma DecodeLastQuantum(s: string, front: seq<byte>)
    requires |s| == 4 && DecodeQuantum(s) == Some(front)
    ensures Decode(s) == Some(front)
  {
    assert s[..4] == s;
    assert Decode(s[4..]) == Some([]);
    assert front + [] == front;
  }

  /** A full leading quantum followed by a decodable rest. */
  lemma DecodeFullQuantum(s: string, front: seq<byte>, rest: seq<byte>)
    requires |s| >= 4
    requires DecodeQuantum(s[..4]) == Some(front) && |front| == 3
    requires Decode(s[4..]) == Some(rest)
    ensures Decode(s) == Some(front + rest)
  {
  }

  /** Decoding an encoding gives back the bytes. */
  lemma {:induction false} DecodeEncode(b: seq<byte>)
    ensures Decode(Encode(b)) == Some(b)
    decreases |b|
  {
    if 1 <= |b| <= 3 {
      QuantumRoundTrip(b);
      DecodeLastQuantum(Encode(b), b);
    } else if |b| > 3 {
      DecodeEncode(b[3..]);
      var s := Encode(b);
      assert s[..4] == EncodeQuantum(b[..3]);
      assert s[4..] == Encode(b[3..]);
      QuantumRoundTrip(b[..3]);
      DecodeFullQuantum(s, b[..3], b[3..]);
      assert b[..3] + b[3..] == b;
    }
  }

  // ---------------------------------------------------------------------------
  // Only the encoding decodes: one text per byte string

  lemma SextetCharOfSextetValue(c: char)
    requires IsBase64Char(c)
    ensures SextetChar(SextetValue(c).value) == c
  {
  }

  /** The first byte of a quantum gives back its first sextet and the top
      bits of its second. */
  lemma SplitFirstByte(a: nat, b: nat, x: int)
    requires a < 64 && b < 64 && x == a * 4 + b / 16
    ensures x / 4 == a && x % 4 == b / 16
  {
    DivModFour(a, b / 16);
  }

  lemma SplitSecondByte(b: nat, c: nat, y: int)
    requires b < 64 && c < 64 && y == (b % 16) * 16 + c / 4
    ensures y / 16 == b % 16 && y % 16 == c / 4
  {
    DivModSixteen(b % 16, c / 4);
  }

  lemma SplitThirdByte(c: nat, d: nat, z: int)
    requires c < 64 && d < 64 && z == (c % 4) * 64 + d
    ensures z / 64 == c % 4 && z % 64 == d
  {
  }

  lemma JoinSextet16(b: nat)
    requires b < 64
    ensures (b / 16) * 16 + b % 16 == b
  {
  }

  lemma JoinSextet4(c: nat)
    requires c < 64
    ensures (c / 4) * 4 + c % 4 == c
  {
  }

  /** The quantum written for the bytes of sextets `a`, `b`, `c`, `d`. */
  lemma ReencodeFull(a: nat, b: nat, c: nat, d: nat, x: byte, y: byte, z: byte)
    requires a < 64 && b < 64 && c < 64 && d < 64
    requires x == a * 4 + b / 16 && y == (b % 16) * 16 + c / 4 && z == (c % 4) * 64 + d
    ensures EncodeQuantum([x, y, z]) == [SextetChar(a), SextetChar(b), SextetChar(c), SextetChar(d)]
  {
    SplitFirstByte(a, b, x);
    SplitSecondByte(b, c, y);
    SplitThirdByte(c, d, z);
    JoinSextet16(b);
    JoinSextet4(c);
  }

  /** The same with one byte missing: the pad bits of `c` are zero. */
  lemma ReencodeTwo(a: nat, b: nat, c: nat, x: byte, y: byte)
    requires a < 64 && b < 64 && c < 64 && c % 4 == 0
    requires x == a * 4 + b / 16 && y == (b % 16) * 16 + c / 4
    ensures EncodeQuantum([x, y]) == [SextetChar(a), SextetChar(b), SextetChar(c), '=']
  {
    SplitFirstByte(a, b, x);
    SplitSecondByte(b, c, y);
    JoinSextet16(b);
    JoinSextet4(c);
  }

  /** The same with two bytes missing: the pad bits of `b` are zero. */
  lemma ReencodeOne(a: nat, b: nat, x: byte)
    requires a < 64 && b < 64 && b % 16 == 0
    requires x == a * 4 + b / 16
    ensures EncodeQuantum([x]) == [SextetChar(a), SextetChar(b), '=', '=']
  {
    SplitFirstByte(a, b, x);
    JoinSextet16(b);
  }

  lemma EncodeOfDecodedFull(q: string)
    requires |q| == 4 && forall i :: 0 <= i < 4 ==> IsBase64Char(q[i])
    ensures DecodeQuantum(q).Some? && EncodeQuantum(DecodeQuantum(q).value) == q
  {
    var a, b, c, d := SextetValue(q[0]).value, SextetValue(q[1]).value,
                      SextetValue(q[2]).value, SextetValue(q[3]).value;
    var x: byte, y: byte, z: byte := a * 4 + b / 16, (b % 16) * 16 + c / 4, (c % 4) * 64 + d;
    assert DecodeQuantum(q) == Some([x, y, z]);
    ReencodeFull(a, b, c, d, x, y, z);
    SextetCharOfSextetValue(q[0]);
    SextetCharOfSextetValue(q[1]);
    SextetCharOfSextetValue(q[2]);
    SextetCharOfSextetValue(q[3]);
    assert q == [q[0], q[1], q[2], q[3]];
  }

  lemma EncodeOfDecodedTwo(q: string)
    requires |q| == 4 && IsBase64Char(q[0]) && IsBase64Char(q[1]) && IsBase64Char(q[2]) && q[3] == '='
    requires DecodeQuantum(q).Some?
    ensures EncodeQuantum(DecodeQuantum(q).value) == q
  {
    var a, b, c := SextetValue(q[0]).value, SextetValue(q[1]).value, SextetValue(q[2]).value;
    assert c % 4 == 0;
    var x: byte, y: byte := a * 4 + b / 16, (b % 16) * 16 + c / 4;
    assert DecodeQuantum(q) == Some([x, y]);
    ReencodeTwo(a, b, c, x, y);
    SextetCharOfSextetValue(q[0]);
    SextetCharOfSextetValue(q[1]);
    SextetCharOfSextetValue(q[2]);
    assert q == [q[0], q[1], q[2], q[3]];
  }

  lemma EncodeOfDecodedOne(q: string)
    requires |q| == 4 && IsBase64Char(q[0]) && IsBase64Char(q[1]) && q[2] == '=' && q[3] == '='
    requires DecodeQuantum(q).Some?
    ensures EncodeQuantum(DecodeQuantum(q).value) == q
  {
    var a, b := SextetValue(q[0]).value, SextetValue(q[1]).value;
    assert b % 16 == 0;
    var x: byte := a * 4 + b / 16;
    assert DecodeQuantum(q) == Some([x]);
    ReencodeOne(a, b, x);
    SextetCharOfSextetValue(q[0]);
    SextetCharOfSextetValue(q[1]);
    assert q == [q[0], q[1], q[2], q[3]];
  }

  /** A quantum that decodes is the encoding of its bytes. */
  lemma EncodeOfDecodedQuantum(q: string)
    requires |q| == 4 && DecodeQuantum(q).Some?
    ensures EncodeQuantum(DecodeQuantum(q).value) == q
  {
    if IsBase64Char(q[3]) {
      EncodeOfDecodedFull(q);
    } else if IsBase64Char(q[2]) {
      EncodeOfDecodedTwo(q);
    } else {
      EncodeOfDecodedOne(q);
    }
  }

  /** A decoded quantum followed by a decoded rest re-encodes to the text. */
  lemma EncodeAppendQuantum(s: string, front: seq<byte>, rest: seq<byte>)
    requires |s| >= 4 && 1 <= |front| <= 3
    requires EncodeQuantum(front) == s[..4] && Encode(rest) == s[4..]
    requires |front| < 3 ==> rest == []
    ensures Encode(front + rest) == s
  {
    var b := front + rest;
    if |rest| == 0 {
      assert b == front;
      assert s == s[..4];
    } else {
      assert b[..3] == front && b[3..] == rest;
      assert s == s[..4] + s[4..];
    }
  }

  /** Whatever text decodes is the encoding of what it decodes to. */
  lemma {:induction false} EncodeDecode(s: string)
    requires Decode(s).Some?
    ensures Encode(Decode(s).value) == s
    decreases |s|
  {
    if |s| > 0 {
      var front := DecodeQuantum(s[..4]).value;
      EncodeOfDecodedQuantum(s[..4]);
      EncodeDecode(s[4..]);
      var rest := Decode(s[4..]).value;
      assert |front| < 3 ==> s[4..] == "";
      EncodeAppendQuantum(s, front, rest);
    }
  }

  /** Two texts that decode to the same bytes are the same text: the base 64
      of some bytes is the only text that decodes to them. */
  lemma DecodeInjective(s: string, t: string)
    requires Decode(s).Some? && Decode(s) == Decode(t)
    ensures s == t
  {
    EncodeDecode(s);
    EncodeDecode(t);
  }

  /** The encoding of `b` is exactly the set of texts decoding to `b`. */
  lemma OnlyEncodingDecodes(b: seq<byte>, t: string)
    ensures Decode(t) == Some(b) <==> t == Encode(b)
  {
    DecodeEncode(b);
    if Decode(t) == Some(b) {
      EncodeDecode(t);
    }
  }

  /** The non-canonical text `QR==`, whose unused bits are not zero, is
      refused; the encoding of `A` is `QQ==`. */
  lemma NonZeroPadBitsRefused()
    ensures Decode("QR==") == None
    ensures Encode([65]) == "QQ=="
  {
    assert "QR=="[..4] == "QR==";
    assert SextetValue('R') == Some(17);
    assert DecodeQuantum("QR==") == None;
  }
}
