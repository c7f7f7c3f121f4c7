/** The JSON documents a request body or a response holds, and their compact
    serialisation: no space after `,` or `:`, non-ASCII characters escaped,
    members in the caller's order. Floating-point numbers
    are not modelled. */
module Json {
  import opened Text
  import opened Decimal
  import Hex

  /** An `Object` may repeat a key, which a Python dictionary cannot, so the
      model admits more bodies than the program can be given. */
  datatype Json =
    | Null
    | Bool(b: bool)
    | Number(n: int)
    | String(s: string)
    | Array(items: seq<Json>)
    | Object(members: seq<(string, Json)>)

  /** Four lower-case hex digits, most significant first. */
  function Hex4(n: nat): (r: string)
    requires n < 0x10000
    ensures |r| == 4 && IsAscii(r)
  {
    [Hex.DigitChar(n / 4096), Hex.DigitChar((n / 256) % 16),
     Hex.DigitChar((n / 16) % 16), Hex.DigitChar(n % 16)]
  }

  /** Printable ASCII other than the quote and the backslash is copied. */
  predicate IsPlain(c: char) {
    ' ' <= c <= '~' && c != '"' && c != '\\'
  }

  /** One character of a string literal under `ensure_ascii`: plain characters
      are copied, everything else becomes a backslash escape; characters beyond
      the Basic Multilingual Plane become a UTF-16 surrogate pair of `\u`
      escapes. */
  function EscapeChar(c: char): (r: string)
    ensures IsAscii(r) && |r| >= 1
    ensures IsPlain(c) <==> r == [c]
    ensures !IsPlain(c) <==> r[0] == '\\'
  {
    var n := c as int;
    if c == '"' then "\\\""
    else if c == '\\' then "\\\\"
    else if c == '\n' then "\\n"
    else if c == '\r' then "\\r"
    else if c == '\t' then "\\t"
    else if n == 8 then "\\b"
    else if n == 12 then "\\f"
    else if IsPlain(c) then [c]
    else if n < 0x10000 then "\\u" + Hex4(n)
    else
      var m := n - 0x10000;
      "\\u" + Hex4(0xD800 + m / 1024) + "\\u" + Hex4(0xDC00 + m % 1024)
  }

  function Escape(s: string): (r: string)
    ensures IsAscii(r)
    decreases |s|
  {
    if |s| == 0 then "" else EscapeChar(s[0]) + Escape(s[1..])
  }

  function Quote(s: string): (r: string)
    ensures IsAscii(r)
  {
    "\"" + Escape(s) + "\""
  }

  /** `json.dumps(j, separators=(",", ":"))`: the text is pure ASCII, so its
      UTF-8 encoding has one byte per character. */
  function Serialize(j: Json): (r: string)
    ensures IsAscii(r)
    decreases j
  {
    match j
    case Null => "null"
    case Bool(b) => if b then "true" else "false"
    case Number(n) => IntToString(n)
    case String(s) => Quote(s)
    case Array(items) =>
      var parts := seq(|items|, i requires 0 <= i < |items| => Serialize(items[i]));
      JoinAscii(",", parts);
      Bracketed("[", Join(",", parts), "]");
      "[" + Join(",", parts) + "]"
    case Object(members) =>
      var parts := seq(|members|, i requires 0 <= i < |members| =>
                         Quote(members[i].0) + ":" + Serialize(members[i].1));
      assert forall i :: 0 <= i < |parts| ==> IsAscii(parts[i]) by {
        forall i | 0 <= i < |parts| ensures IsAscii(parts[i]) {
          Bracketed(Quote(members[i].0), ":", Serialize(members[i].1));
        }
      }
      JoinAscii(",", parts);
      Bracketed("{", Join(",", parts), "}");
      "{" + Join(",", parts) + "}"
  }

  lemma Bracketed(open: string, inner: string, close: string)
    requires IsAscii(open) && IsAscii(inner) && IsAscii(close)
    ensures IsAscii(open + inner + close)
  {
    var s := open + inner + close;
    forall i | 0 <= i < |s| ensures s[i] as int < 128 {
      if i < |open| {
        assert s[i] == open[i];
      } else if i < |open| + |inner| {
        assert s[i] == inner[i - |open|];
      } else {
        assert s[i] == close[i - |open| - |inner|];
      }
    }
  }
}
