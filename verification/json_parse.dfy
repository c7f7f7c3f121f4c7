/** The reader of `Json.Serialize`'s compact text: the
    grammar of section 2 of RFC 8259 without whitespace, which
    `separators=(",", ":")` never writes. Its round trip with `Json.Serialize`
    shows that the text that is hashed and sent determines the body. */
module JsonParse {
  import opened Wrappers
  import opened Text
  import opened Decimal
  import opened Json
  import Hex

  // ---------------------------------------------------------------------------
  // String literals

  /** Four hex digits, most significant first. */
  function ReadHex4(s: string): (r: Option<nat>)
    requires |s| == 4
    ensures r.Some? ==> r.value < 0x10000
  {
    var a :- Hex.DigitValue(s[0]);
    var b :- Hex.DigitValue(s[1]);
    var c :- Hex.DigitValue(s[2]);
    var d :- Hex.DigitValue(s[3]);
    Some(a * 4096 + b * 256 + c * 16 + d)
  }

  predicate IsHighSurrogate(n: int) {
    0xD800 <= n < 0xDC00
  }

  predicate IsLowSurrogate(n: int) {
    0xDC00 <= n < 0xE000
  }

  /** The character a backslash escape stands for, read from the text after
      the backslash, with the text after the escape. A `\u` escape of a high
      surrogate must be followed by one of a low surrogate; a lone surrogate is
      refused. */
  function ParseEscape(s: string): (r: Option<(char, string)>)
    ensures r.Some? ==> |r.value.1| < |s|
  {
    if |s| == 0 then None
    else if s[0] == '"' then Some(('"', s[1..]))
    else if s[0] == '\\' then Some(('\\', s[1..]))
    else if s[0] == '/' then Some(('/', s[1..]))
    else if s[0] == 'n' then Some(('\n', s[1..]))
    else if s[0] == 'r' then Some(('\r', s[1..]))
    else if s[0] == 't' then Some(('\t', s[1..]))
    else if s[0] == 'b' then Some((8 as char, s[1..]))
    else if s[0] == 'f' then Some((12 as char, s[1..]))
    else if s[0] == 'u' then ParseUnicode(s[1..])
    else None
  }

  /** The character of a `\u` escape, read from the text after the `u`. */
  function ParseUnicode(s: string): (r: Option<(char, string)>)
    ensures r.Some? ==> |r.value.1| < |s|
  {
    if |s| < 4 then None
    else
      var n :- ReadHex4(s[..4]);
      if IsLowSurrogate(n) then None
      else if !IsHighSurrogate(n) then Some((n as char, s[4..]))
      else if |s| >= 10 && s[4..6] == "\\u" then
        var m :- ReadHex4(s[6..10]);
        if IsLowSurrogate(m) then Some((Combine(n, m) as char, s[10..]))
        else None
      else None
  }

  /** The code point a surrogate pair stands for. */
  function Combine(hi: int, lo: int): (r: int)
    requires IsHighSurrogate(hi) && IsLowSurrogate(lo)
    ensures 0x10000 <= r < 0x110000
  {
    0x10000 + (hi - 0xD800) * 1024 + (lo - 0xDC00)
  }

  /** The characters of a string literal up to its closing quote, read from the
      text after the opening quote, with the text after the closing quote.
      Control characters must be escaped. */
  function ParseChars(s: string): (r: Option<(string, string)>)
    ensures r.Some? ==> |r.value.1| < |s|
    decreases |s|
  {
    if |s| == 0 then None
    else if s[0] == '"' then Some(("", s[1..]))
    else if s[0] == '\\' then
      var e :- ParseEscape(s[1..]);
      var t :- ParseChars(e.1);
      Some(([e.0] + t.0, t.1))
    else if s[0] as int < 0x20 then None
    else
      var t :- ParseChars(s[1..]);
      Some(([s[0]] + t.0, t.1))
  }

  // ---------------------------------------------------------------------------
  // Numbers

  /** The length of the run of digits `s` starts with. */
  function DigitRun(s: string): (k: nat)
    ensures k <= |s| && AllDigits(s[..k])
    ensures k < |s| ==> !IsDigit(s[k])
    decreases |s|
  {
    if |s| == 0 || !IsDigit(s[0]) then 0
    else
      var k := 1 + DigitRun(s[1..]);
      assert s[..k] == [s[0]] + s[1..][..k - 1];
      k
  }

  /** An optional minus sign and the digits of an integer without a leading
      zero. */
  function ParseNumber(s: string): (r: Option<(Json, string)>)
    ensures r.Some? ==> |r.value.1| < |s|
  {
    var neg := |s| > 0 && s[0] == '-';
    var t := if neg then s[1..] else s;
    var k := DigitRun(t);
    if k == 0 || (k > 1 && t[0] == '0') then None
    else
      var v: int := Value(t[..k]);
      Some((Number(if neg then -v else v), t[k..]))
  }

  // ---------------------------------------------------------------------------
  // Values

  /** One value read from the front of `s`, with the text after it. */
  function ParseValue(s: string): (r: Option<(Json, string)>)
    ensures r.Some? ==> |r.value.1| < |s|
    decreases |s|, 0
  {
    if |s| == 0 then None
    else if s[0] == 'n' then (if |s| >= 4 && s[..4] == "null" then Some((Null, s[4..])) else None)
    else if s[0] == 't' then (if |s| >= 4 && s[..4] == "true" then Some((Bool(true), s[4..])) else None)
    else if s[0] == 'f' then (if |s| >= 5 && s[..5] == "false" then Some((Bool(false), s[5..])) else None)
    else if s[0] == '"' then
      var t :- ParseChars(s[1..]);
      Some((String(t.0), t.1))
    else if s[0] == '[' then
      if |s| >= 2 && s[1] == ']' then Some((Array([]), s[2..]))
      else
        var t :- ParseItems(s[1..]);
        Some((Array(t.0), t.1))
    else if s[0] == '{' then
      if |s| >= 2 && s[1] == '}' then Some((Object([]), s[2..]))
      else
        var t :- ParseMembers(s[1..]);
        Some((Object(t.0), t.1))
    else ParseNumber(s)
  }

  /** `value ("," value)* "]"`: the items of a non-empty array. */
  function ParseItems(s: string): (r: Option<(seq<Json>, string)>)
    ensures r.Some? ==> |r.value.1| < |s|
    decreases |s|, 1
  {
    var v :- ParseValue(s);
    var rest := v.1;
    if |rest| > 0 && rest[0] == ']' then Some(([v.0], rest[1..]))
    else if |rest| > 0 && rest[0] == ',' then
      var t :- ParseItems(rest[1..]);
      Some(([v.0] + t.0, t.1))
    else None
  }

  /** `string ":" value ("," string ":" value)* "}"`: the members of a
      non-empty object, in the order written. */
  function ParseMembers(s: string): (r: Option<(seq<(string, Json)>, string)>)
    ensures r.Some? ==> |r.value.1| < |s|
    decreases |s|, 1
  {
    if |s| == 0 || s[0] != '"' then None
    else
      var k :- ParseChars(s[1..]);
      var after := k.1;
      if |after| == 0 || after[0] != ':' then None
      else
        var v :- ParseValue(after[1..]);
        var rest := v.1;
        if |rest| > 0 && rest[0] == '}' then Some(([(k.0, v.0)], rest[1..]))
        else if |rest| > 0 && rest[0] == ',' then
          var t :- ParseMembers(rest[1..]);
          Some(([(k.0, v.0)] + t.0, t.1))
        else None
  }

  /** A whole document: one value and nothing after it. */
  function Parse(s: string): Option<Json> {
    var v :- ParseValue(s);
    if v.1 == "" then Some(v.0) else None
  }

  // ---------------------------------------------------------------------------
  // Reading back what `Serialize` writes

  lemma DivSixteenTwice(n: nat)
    ensures n / 256 == (n / 16) / 16
  {
  }

  lemma DivSixteenThrice(n: nat)
    ensures n / 4096 == (n / 256) / 16
  {
  }

  lemma Hex4Digits(n: nat)
    requires n < 0x10000
    ensures n / 4096 * 4096 + (n / 256) % 16 * 256 + (n / 16) % 16 * 16 + n % 16 == n
  {
    DivSixteenTwice(n);
    DivSixteenThrice(n);
    var q1 := n / 16;
    var q2 := q1 / 16;
    var q3 := q2 / 16;
    assert n == q1 * 16 + n % 16;
    assert q1 == q2 * 16 + q1 % 16;
    assert q2 == q3 * 16 + q2 % 16;
  }

  lemma ReadHex4Hex4(n: nat)
    requires n < 0x10000
    ensures ReadHex4(Hex4(n)) == Some(n)
  {
    Hex.DigitValueOfDigitChar(n / 4096);
    Hex.DigitValueOfDigitChar((n / 256) % 16);
    Hex.DigitValueOfDigitChar((n / 16) % 16);
    Hex.DigitValueOfDigitChar(n % 16);
    Hex4Digits(n);
  }

  /** A `\u` escape of a character of the Basic Multilingual Plane. */
  lemma EscapeBasicPlane(c: char, rest: string)
    requires !IsPlain(c) && c as int < 0x10000
    ensures ParseUnicode(Hex4(c as int) + rest) == Some((c, rest))
  {
    var n := c as int;
    var s := Hex4(n) + rest;
    assert s[..4] == Hex4(n);
    assert s[4..] == rest;
    ReadHex4Hex4(n);
    assert !IsLowSurrogate(n) && !IsHighSurrogate(n);
  }

  lemma SurrogateArithmetic(n: int, hi: int, lo: int)
    requires 0x10000 <= n < 0x110000
    requires hi == 0xD800 + (n - 0x10000) / 1024 && lo == 0xDC00 + (n - 0x10000) % 1024
    ensures IsHighSurrogate(hi) && IsLowSurrogate(lo) && Combine(hi, lo) == n
  {
  }

  lemma PairSlices(hi: nat, lo: nat, rest: string)
    requires hi < 0x10000 && lo < 0x10000
    ensures var s := Hex4(hi) + "\\u" + Hex4(lo) + rest;
            |s| >= 10 && s[..4] == Hex4(hi) && s[4..6] == "\\u"
            && s[6..10] == Hex4(lo) && s[10..] == rest
  {
  }

  lemma UnicodePair(s: string, hi: nat, lo: nat)
    requires |s| >= 10 && s[4..6] == "\\u"
    requires ReadHex4(s[..4]) == Some(hi) && IsHighSurrogate(hi)
    requires ReadHex4(s[6..10]) == Some(lo) && IsLowSurrogate(lo)
    ensures ParseUnicode(s) == Some((Combine(hi, lo) as char, s[10..]))
  {
  }

  /** A surrogate pair of `\u` escapes for a character beyond the Basic
      Multilingual Plane. */
  lemma EscapeSurrogatePair(c: char, hi: nat, lo: nat, rest: string)
    requires c as int >= 0x10000
    requires hi == 0xD800 + (c as int - 0x10000) / 1024 && lo == 0xDC00 + (c as int - 0x10000) % 1024
    ensures ParseUnicode(Hex4(hi) + "\\u" + Hex4(lo) + rest) == Some((c, rest))
  {
    SurrogateArithmetic(c as int, hi, lo);
    PairSlices(hi, lo, rest);
    ReadHex4Hex4(hi);
    ReadHex4Hex4(lo);
    UnicodePair(Hex4(hi) + "\\u" + Hex4(lo) + rest, hi, lo);
  }

  lemma EscapeOfUnicode(s: string)
    requires |s| > 0 && s[0] == 'u'
    ensures ParseEscape(s) == ParseUnicode(s[1..])
  {
  }

  /** The characters with a two-character escape. */
  predicate HasShortEscape(c: char) {
    c == '"' || c == '\\' || c == '\n' || c == '\r' || c == '\t' || c as int == 8 || c as int == 12
  }

  lemma EscapeShort(c: char, rest: string)
    requires HasShortEscape(c)
    ensures var e := EscapeChar(c);
            |e| == 2 && e[0] == '\\' && ParseEscape(e[1..] + rest) == Some((c, rest))
  {
    var e := EscapeChar(c);
    assert |e| == 2;
    assert (e[1..] + rest)[1..] == rest;
  }

  /** The text of a `\u` escape `EscapeChar` writes, after the `\u`. */
  lemma LongShape(c: char, hi: int, lo: int)
    requires !IsPlain(c) && !HasShortEscape(c)
    requires hi == 0xD800 + (c as int - 0x10000) / 1024 && lo == 0xDC00 + (c as int - 0x10000) % 1024
    ensures var e := EscapeChar(c);
            && |e| >= 6 && e[0] == '\\' && e[1] == 'u'
            && (c as int < 0x10000 ==> e[2..] == Hex4(c as int))
            && (c as int >= 0x10000 ==> 0 <= hi < 0x10000 && 0 <= lo < 0x10000 && e[2..] == Hex4(hi) + "\\u" + Hex4(lo))
  {
    var e := EscapeChar(c);
    if c as int < 0x10000 {
      assert e == "\\u" + Hex4(c as int);
    } else {
      assert e == "\\u" + Hex4(hi) + "\\u" + Hex4(lo);
    }
  }

  lemma EscapeLong(c: char, rest: string)
    requires !IsPlain(c) && !HasShortEscape(c)
    ensures var e := EscapeChar(c);
            |e| >= 2 && e[0] == '\\' && ParseEscape(e[1..] + rest) == Some((c, rest))
  {
    var e := EscapeChar(c);
    var n := c as int;
    var hi, lo := 0xD800 + (n - 0x10000) / 1024, 0xDC00 + (n - 0x10000) % 1024;
    LongShape(c, hi, lo);
    HeadShape(e[1..], rest);
    assert e[1..][1..] == e[2..];
    EscapeOfUnicode(e[1..] + rest);
    if n < 0x10000 {
      EscapeBasicPlane(c, rest);
    } else {
      EscapeSurrogatePair(c, hi, lo, rest);
    }
  }

  /** Every backslash escape `EscapeChar` writes reads back as its character. */
  lemma EscapeRoundTrip(c: char, rest: string)
    requires !IsPlain(c)
    ensures var e := EscapeChar(c);
            |e| >= 2 && e[0] == '\\' && ParseEscape(e[1..] + rest) == Some((c, rest))
  {
    if HasShortEscape(c) {
      EscapeShort(c, rest);
    } else {
      EscapeLong(c, rest);
    }
  }

  lemma CharsPlainStep(c: char, tail: string, r: (string, string))
    requires IsPlain(c) && ParseChars(tail) == Some(r)
    ensures ParseChars([c] + tail) == Some(([c] + r.0, r.1))
  {
    assert ([c] + tail)[1..] == tail;
  }

  lemma HeadShape(e: string, tail: string)
    requires |e| >= 1
    ensures |e + tail| >= 1 && (e + tail)[0] == e[0] && (e + tail)[1..] == e[1..] + tail
  {
  }

  lemma CharsEscapeAt(s: string, c: char, tail: string, r: (string, string))
    requires |s| >= 2 && s[0] == '\\' && ParseEscape(s[1..]) == Some((c, tail))
    requires ParseChars(tail) == Some(r)
    ensures ParseChars(s) == Some(([c] + r.0, r.1))
  {
  }

  lemma CharsEscapeStep(e: string, c: char, tail: string, r: (string, string))
    requires |e| >= 2 && e[0] == '\\' && ParseEscape(e[1..] + tail) == Some((c, tail))
    requires ParseChars(tail) == Some(r)
    ensures ParseChars(e + tail) == Some(([c] + r.0, r.1))
  {
    HeadShape(e, tail);
    CharsEscapeAt(e + tail, c, tail, r);
  }

  lemma EscapeNil(t: string, rest: string)
    requires |t| == 0
    ensures Escape(t) + "\"" + rest == "\"" + rest
  {
    assert Escape(t) == "";
  }

  lemma EscapeCons(t: string, rest: string)
    requires |t| > 0
    ensures Escape(t) + "\"" + rest == EscapeChar(t[0]) + (Escape(t[1..]) + "\"" + rest)
  {
    var a, b := EscapeChar(t[0]), Escape(t[1..]);
    assert Escape(t) == a + b;
    RegroupFour(a, b, "\"", rest);
  }

  lemma RegroupFour(a: string, b: string, c: string, d: string)
    ensures a + b + c + d == a + (b + c + d)
  {
  }

  lemma CharsEnd(s: string)
    requires |s| > 0 && s[0] == '"'
    ensures ParseChars(s) == Some(("", s[1..]))
  {
  }

  /** One character of a literal, as `EscapeChar` writes it, reads back. */
  lemma CharsStep(c: char, tail: string, r: (string, string))
    requires ParseChars(tail) == Some(r)
    ensures ParseChars(EscapeChar(c) + tail) == Some(([c] + r.0, r.1))
  {
    if IsPlain(c) {
      CharsPlainStep(c, tail, r);
    } else {
      EscapeRoundTrip(c, tail);
      CharsEscapeStep(EscapeChar(c), c, tail, r);
    }
  }

  /** The literal `Quote` writes reads back as the string, whatever follows
      the closing quote. */
  lemma {:induction false} ParseCharsEscape(t: string, rest: string)
    ensures ParseChars(Escape(t) + "\"" + rest) == Some((t, rest))
    decreases |t|, 1
  {
    if |t| == 0 {
      EscapeNil(t, rest);
      CharsEnd("\"" + rest);
    } else {
      ParseCharsCons(t, rest);
    }
  }

  lemma {:induction false} ParseCharsCons(t: string, rest: string)
    requires |t| > 0
    ensures ParseChars(Escape(t) + "\"" + rest) == Some((t, rest))
    decreases |t|, 0
  {
    var c := t[0];
    var tail := Escape(t[1..]) + "\"" + rest;
    ParseCharsEscape(t[1..], rest);
    EscapeCons(t, rest);
    CharsStep(c, tail, (t[1..], rest));
    assert [c] + t[1..] == t;
  }

  /** What may follow a value in a serialised document. */
  predicate Delimited(rest: string) {
    rest == "" || rest[0] == ',' || rest[0] == ']' || rest[0] == '}'
  }

  lemma {:induction false} DigitRunOf(d: string, rest: string)
    requires AllDigits(d) && (rest == "" || !IsDigit(rest[0]))
    ensures DigitRun(d + rest) == |d|
    decreases |d|
  {
    if |d| > 0 {
      DigitRunOf(d[1..], rest);
      assert (d + rest)[1..] == d[1..] + rest;
    }
  }

  lemma ParseDigits(n: nat, rest: string)
    requires Delimited(rest)
    ensures var d := NatToString(n);
            var s := d + rest;
            DigitRun(s) == |d| && s[..|d|] == d && s[|d|..] == rest && IsDigit(s[0])
  {
    var d := NatToString(n);
    DigitRunOf(d, rest);
    assert (d + rest)[..|d|] == d;
  }

  lemma ParseNatural(n: nat, rest: string)
    requires Delimited(rest)
    ensures ParseNumber(NatToString(n) + rest) == Some((Number(n), rest))
  {
    ParseDigits(n, rest);
  }

  lemma ParseNegative(n: nat, rest: string)
    requires Delimited(rest) && n > 0
    ensures ParseNumber("-" + NatToString(n) + rest) == Some((Number(-(n as int)), rest))
  {
    var d := NatToString(n);
    ParseDigits(n, rest);
    Regroup("-", d, rest);
    DropOne("-", d + rest);
  }

  lemma IntToStringShape(n: int)
    ensures n < 0 ==> IntToString(n) == "-" + NatToString(-n)
    ensures n >= 0 ==> IntToString(n) == NatToString(n)
  {
  }

  lemma NumberText(n: int, rest: string)
    requires Delimited(rest)
    ensures var s := IntToString(n) + rest;
            |s| > 0 && (s[0] == '-' || IsDigit(s[0])) && ParseNumber(s) == Some((Number(n), rest))
  {
    IntToStringShape(n);
    if n < 0 {
      ParseNegative(-n, rest);
    } else {
      ParseNatural(n, rest);
      ParseDigits(n, rest);
    }
  }

  lemma ValueOfNumber(s: string, j: Json, rest: string)
    requires |s| > 0 && (s[0] == '-' || IsDigit(s[0])) && ParseNumber(s) == Some((j, rest))
    ensures ParseValue(s) == Some((j, rest))
  {
    var c := s[0];
    assert c != 'n' && c != 't' && c != 'f' && c != '"' && c != '[' && c != '{';
  }

  /** `str(n)` reads back as `n`. */
  lemma ParseIntToString(n: int, rest: string)
    requires Delimited(rest)
    ensures ParseValue(IntToString(n) + rest) == Some((Number(n), rest))
  {
    NumberText(n, rest);
    ValueOfNumber(IntToString(n) + rest, Number(n), rest);
  }

  function ItemTexts(items: seq<Json>): seq<string> {
    seq(|items|, i requires 0 <= i < |items| => Serialize(items[i]))
  }

  function MemberTexts(members: seq<(string, Json)>): seq<string> {
    seq(|members|, i requires 0 <= i < |members| => Quote(members[i].0) + ":" + Serialize(members[i].1))
  }

  lemma SerializeArray(items: seq<Json>)
    ensures Serialize(Array(items)) == "[" + Join(",", ItemTexts(items)) + "]"
  {
  }

  lemma SerializeObject(members: seq<(string, Json)>)
    ensures Serialize(Object(members)) == "{" + Join(",", MemberTexts(members)) + "}"
  {
  }

  /** No value's text is empty or starts with a closing bracket. */
  lemma SerializeStart(j: Json)
    ensures |Serialize(j)| > 0 && Serialize(j)[0] != ']' && Serialize(j)[0] != '}'
  {
    match j
    case Number(n) =>
      assert n >= 0 ==> IsDigit(IntToString(n)[0]);
    case Array(items) =>
      SerializeArray(items);
    case Object(members) =>
      SerializeObject(members);
    case _ =>
  }

  lemma JoinStart(parts: seq<string>)
    requires |parts| >= 1 && |parts[0]| > 0
    ensures |Join(",", parts)| > 0 && Join(",", parts)[0] == parts[0][0]
  {
  }

  lemma DropOne(c: string, x: string)
    requires |c| == 1
    ensures (c + x)[1..] == x
  {
  }

  lemma Regroup(a: string, b: string, c: string)
    ensures a + b + c == a + (b + c)
  {
  }

  lemma RegroupJoin(p: string, j: string, close: string, rest: string)
    ensures p + "," + j + close + rest == p + ("," + (j + close + rest))
  {
  }

  /** Where the key of a member ends. */
  lemma MemberShape(e: string, v: string, after: string)
    ensures var s := "\"" + e + "\"" + ":" + v + after;
            |s| > 0 && s[0] == '"' && s[1..] == e + "\"" + (":" + v + after)
  {
  }

  /** `ParseItems` on an item that ends the array. */
  lemma ItemsLast(s: string, v: Json, after: string)
    requires ParseValue(s) == Some((v, after)) && |after| > 0 && after[0] == ']'
    ensures ParseItems(s) == Some(([v], after[1..]))
  {
  }

  /** `ParseItems` on an item followed by `,` and more items. */
  lemma ItemsMore(s: string, v: Json, after: string, r: (seq<Json>, string))
    requires ParseValue(s) == Some((v, after)) && |after| > 0 && after[0] == ','
    requires ParseItems(after[1..]) == Some(r)
    ensures ParseItems(s) == Some(([v] + r.0, r.1))
  {
  }

  /** `ParseMembers` on a member that ends the object. */
  lemma MembersLast(s: string, key: string, v: Json, a: string, after: string)
    requires |s| > 0 && s[0] == '"' && ParseChars(s[1..]) == Some((key, a))
    requires |a| > 0 && a[0] == ':' && ParseValue(a[1..]) == Some((v, after))
    requires |after| > 0 && after[0] == '}'
    ensures ParseMembers(s) == Some(([(key, v)], after[1..]))
  {
  }

  /** `ParseMembers` on a member followed by `,` and more members. */
  lemma MembersMore(s: string, key: string, v: Json, a: string, after: string,
                    r: (seq<(string, Json)>, string))
    requires |s| > 0 && s[0] == '"' && ParseChars(s[1..]) == Some((key, a))
    requires |a| > 0 && a[0] == ':' && ParseValue(a[1..]) == Some((v, after))
    requires |after| > 0 && after[0] == ',' && ParseMembers(after[1..]) == Some(r)
    ensures ParseMembers(s) == Some(([(key, v)] + r.0, r.1))
  {
  }

  /** A member's text followed by `after`: the key reads back, then `:`, then
      the value's text followed by `after`. */
  lemma MemberText(key: string, v: Json, after: string)
    ensures var s := Quote(key) + ":" + Serialize(v) + after;
            var a := ":" + Serialize(v) + after;
            && |s| > 0 && s[0] == '"' && ParseChars(s[1..]) == Some((key, a))
            && |a| > 0 && a[0] == ':' && a[1..] == Serialize(v) + after
  {
    MemberShape(Escape(key), Serialize(v), after);
    ParseCharsEscape(key, ":" + Serialize(v) + after);
    Regroup(":", Serialize(v), after);
    DropOne(":", Serialize(v) + after);
  }

  lemma ParseLiteral(word: string, rest: string)
    requires word == "null" || word == "true" || word == "false"
    ensures var s := word + rest;
            |s| >= |word| && s[0] == word[0] && s[..|word|] == word && s[|word|..] == rest
  {
  }

  lemma QuotedShape(e: string, rest: string)
    ensures var s := "\"" + e + "\"" + rest;
            |s| > 0 && s[0] == '"' && s[1..] == e + "\"" + rest
  {
  }

  /** `ParseValue` on a string literal. */
  lemma ValueOfChars(s: string, t: string, after: string)
    requires |s| > 0 && s[0] == '"' && ParseChars(s[1..]) == Some((t, after))
    ensures ParseValue(s) == Some((String(t), after))
  {
  }

  lemma ParseQuoted(t: string, rest: string)
    ensures ParseValue(Quote(t) + rest) == Some((String(t), rest))
  {
    QuotedShape(Escape(t), rest);
    ParseCharsEscape(t, rest);
    ValueOfChars(Quote(t) + rest, t, rest);
  }

  /** `ParseValue` on a non-empty array. */
  lemma ValueOfItems(s: string, items: seq<Json>, after: string)
    requires |s| >= 2 && s[0] == '[' && s[1] != ']' && ParseItems(s[1..]) == Some((items, after))
    ensures ParseValue(s) == Some((Array(items), after))
  {
  }

  /** `ParseValue` on a non-empty object. */
  lemma ValueOfMembers(s: string, members: seq<(string, Json)>, after: string)
    requires |s| >= 2 && s[0] == '{' && s[1] != '}' && ParseMembers(s[1..]) == Some((members, after))
    ensures ParseValue(s) == Some((Object(members), after))
  {
  }

  lemma ItemTextsLast(items: seq<Json>, k: nat)
    requires k == |items| - 1
    ensures Join(",", ItemTexts(items)[k..]) == Serialize(items[k])
    ensures items[k..] == [items[k]]
  {
    assert ItemTexts(items)[k..] == [Serialize(items[k])];
  }

  lemma ItemTextsMore(items: seq<Json>, k: nat)
    requires k < |items| - 1
    ensures Join(",", ItemTexts(items)[k..])
         == Serialize(items[k]) + "," + Join(",", ItemTexts(items)[k + 1..])
    ensures items[k..] == [items[k]] + items[k + 1..]
  {
    var parts := ItemTexts(items)[k..];
    assert parts[1..] == ItemTexts(items)[k + 1..];
    JoinCons(parts);
  }

  lemma JoinCons(parts: seq<string>)
    requires |parts| >= 2
    ensures Join(",", parts) == parts[0] + "," + Join(",", parts[1..])
  {
  }

  lemma MemberTextsLast(members: seq<(string, Json)>, k: nat)
    requires k == |members| - 1
    ensures Join(",", MemberTexts(members)[k..]) == Quote(members[k].0) + ":" + Serialize(members[k].1)
    ensures members[k..] == [members[k]]
  {
    assert MemberTexts(members)[k..] == [Quote(members[k].0) + ":" + Serialize(members[k].1)];
  }

  lemma MemberTextsMore(members: seq<(string, Json)>, k: nat)
    requires k < |members| - 1
    ensures Join(",", MemberTexts(members)[k..])
         == Quote(members[k].0) + ":" + Serialize(members[k].1) + "," + Join(",", MemberTexts(members)[k + 1..])
    ensures members[k..] == [members[k]] + members[k + 1..]
  {
    var parts := MemberTexts(members)[k..];
    assert parts[0] == Quote(members[k].0) + ":" + Serialize(members[k].1);
    assert parts[1..] == MemberTexts(members)[k + 1..];
    JoinCons(parts);
  }

  lemma TextsStart(texts: seq<string>, first: string)
    requires |texts| >= 1 && texts[0] == first && |first| > 0
    ensures var s := Join(",", texts);
            |s| > 0 && s[0] == first[0]
  {
  }

  /** Reading back the text `Serialize` writes gives the value and leaves what
      follows it, so a body's text determines the body. */
  lemma {:induction false} ParseSerialize(j: Json, rest: string)
    requires Delimited(rest)
    ensures ParseValue(Serialize(j) + rest) == Some((j, rest))
    decreases j, 1, 0, 0
  {
    match j
    case Null =>
      ParseLiteral("null", rest);
    case Bool(b) =>
      ParseLiteral(if b then "true" else "false", rest);
    case Number(n) =>
      ParseIntToString(n, rest);
    case String(t) =>
      ParseQuoted(t, rest);
    case Array(items) =>
      SerializeArray(items);
      if |items| == 0 {
        ParseEmpty("[", "]", rest);
      } else {
        ParseArray(j, rest);
      }
    case Object(members) =>
      SerializeObject(members);
      if |members| == 0 {
        ParseEmpty("{", "}", rest);
      } else {
        ParseObject(j, rest);
      }
  }

  lemma ParseEmpty(open: string, close: string, rest: string)
    requires (open == "[" && close == "]") || (open == "{" && close == "}")
    ensures ParseValue(open + Join(",", []) + close + rest)
         == Some((if open == "[" then Array([]) else Object([]), rest))
  {
    var s := open + Join(",", []) + close + rest;
    assert s == open + close + rest;
    assert s[2..] == rest;
  }

  lemma {:induction false} ParseArray(j: Json, rest: string)
    requires j.Array? && |j.items| > 0 && Delimited(rest)
    ensures ParseValue("[" + Join(",", ItemTexts(j.items)) + "]" + rest) == Some((j, rest))
    decreases j, 0, |j.items| + 1, 0
  {
    var texts := ItemTexts(j.items);
    var inner := Join(",", texts) + "]" + rest;
    ItemsFrom(j, 0, rest);
    assert texts[0..] == texts && j.items[0..] == j.items;
    SerializeStart(j.items[0]);
    TextsStart(texts, Serialize(j.items[0]));
    Regroup("[", Join(",", texts), "]");
    Regroup("[", Join(",", texts) + "]", rest);
    DropOne("[", inner);
    ValueOfItems("[" + inner, j.items, rest);
  }

  lemma {:induction false} ParseObject(j: Json, rest: string)
    requires j.Object? && |j.members| > 0 && Delimited(rest)
    ensures ParseValue("{" + Join(",", MemberTexts(j.members)) + "}" + rest) == Some((j, rest))
    decreases j, 0, |j.members| + 1, 0
  {
    var texts := MemberTexts(j.members);
    var inner := Join(",", texts) + "}" + rest;
    MembersFrom(j, 0, rest);
    assert texts[0..] == texts && j.members[0..] == j.members;
    TextsStart(texts, Quote(j.members[0].0) + ":" + Serialize(j.members[0].1));
    Regroup("{", Join(",", texts), "}");
    Regroup("{", Join(",", texts) + "}", rest);
    DropOne("{", inner);
    ValueOfMembers("{" + inner, j.members, rest);
  }

  lemma {:induction false} ItemsFrom(j: Json, k: nat, rest: string)
    requires j.Array? && k < |j.items| && Delimited(rest)
    ensures ParseItems(Join(",", ItemTexts(j.items)[k..]) + "]" + rest) == Some((j.items[k..], rest))
    decreases j, 0, |j.items| - k, 1
  {
    if k == |j.items| - 1 {
      ItemsFromLast(j, k, rest);
    } else {
      ItemsFromMore(j, k, rest);
    }
  }

  lemma {:induction false} ItemsFromLast(j: Json, k: nat, rest: string)
    requires j.Array? && k == |j.items| - 1 && Delimited(rest)
    ensures ParseItems(Join(",", ItemTexts(j.items)[k..]) + "]" + rest) == Some((j.items[k..], rest))
    decreases j, 0, |j.items| - k, 0
  {
    var v := j.items[k];
    ItemTextsLast(j.items, k);
    Regroup(Serialize(v), "]", rest);
    ParseSerialize(v, "]" + rest);
    DropOne("]", rest);
    ItemsLast(Serialize(v) + "]" + rest, v, "]" + rest);
  }

  lemma {:induction false} ItemsFromMore(j: Json, k: nat, rest: string)
    requires j.Array? && k < |j.items| - 1 && Delimited(rest)
    ensures ParseItems(Join(",", ItemTexts(j.items)[k..]) + "]" + rest) == Some((j.items[k..], rest))
    decreases j, 0, |j.items| - k, 0
  {
    var v := j.items[k];
    var more := Join(",", ItemTexts(j.items)[k + 1..]);
    var tail := more + "]" + rest;
    ItemTextsMore(j.items, k);
    RegroupJoin(Serialize(v), more, "]", rest);
    ParseSerialize(v, "," + tail);
    DropOne(",", tail);
    ItemsFrom(j, k + 1, rest);
    ItemsMore(Serialize(v) + ("," + tail), v, "," + tail, (j.items[k + 1..], rest));
  }

  lemma {:induction false} MembersFrom(j: Json, k: nat, rest: string)
    requires j.Object? && k < |j.members| && Delimited(rest)
    ensures ParseMembers(Join(",", MemberTexts(j.members)[k..]) + "}" + rest) == Some((j.members[k..], rest))
    decreases j, 0, |j.members| - k, 1
  {
    if k == |j.members| - 1 {
      MembersFromLast(j, k, rest);
    } else {
      MembersFromMore(j, k, rest);
    }
  }

  lemma {:induction false} MembersFromLast(j: Json, k: nat, rest: string)
    requires j.Object? && k == |j.members| - 1 && Delimited(rest)
    ensures ParseMembers(Join(",", MemberTexts(j.members)[k..]) + "}" + rest) == Some((j.members[k..], rest))
    decreases j, 0, |j.members| - k, 0
  {
    var key, v := j.members[k].0, j.members[k].1;
    var p := Quote(key) + ":" + Serialize(v);
    MemberTextsLast(j.members, k);
    Regroup(p, "}", rest);
    ParseSerialize(v, "}" + rest);
    MemberText(key, v, "}" + rest);
    DropOne("}", rest);
    MembersLast(p + ("}" + rest), key, v, ":" + Serialize(v) + ("}" + rest), "}" + rest);
  }

  lemma {:induction false} MembersFromMore(j: Json, k: nat, rest: string)
    requires j.Object? && k < |j.members| - 1 && Delimited(rest)
    ensures ParseMembers(Join(",", MemberTexts(j.members)[k..]) + "}" + rest) == Some((j.members[k..], rest))
    decreases j, 0, |j.members| - k, 0
  {
    var key, v := j.members[k].0, j.members[k].1;
    var p := Quote(key) + ":" + Serialize(v);
    var more := Join(",", MemberTexts(j.members)[k + 1..]);
    var tail := more + "}" + rest;
    MemberTextsMore(j.members, k);
    RegroupJoin(p, more, "}", rest);
    ParseSerialize(v, "," + tail);
    MemberText(key, v, "," + tail);
    DropOne(",", tail);
    MembersFrom(j, k + 1, rest);
    MembersMore(p + ("," + tail), key, v, ":" + Serialize(v) + ("," + tail), "," + tail,
                (j.members[k + 1..], rest));
  }

  /** A whole serialised document reads back as the value. */
  lemma ParseOfSerialize(j: Json)
    ensures Parse(Serialize(j)) == Some(j)
  {
    ParseSerialize(j, "");
    assert Serialize(j) + "" == Serialize(j);
  }

  /** Different values have different texts. */
  lemma SerializeInjective(a: Json, b: Json)
    requires Serialize(a) == Serialize(b)
    ensures a == b
  {
    ParseOfSerialize(a);
    ParseOfSerialize(b);
  }
}
