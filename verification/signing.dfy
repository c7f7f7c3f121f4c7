/** The pure signing part of `PuduClient._request`: the path that is signed,
    the content digest, the signing string, the signature and the headers. */
module Signing {
  import opened Wrappers
  import opened Bytes
  import opened Text
  import opened Errors
  import Query
  import Utf8
  import Hex
  import Base64

  type Md5Digest = d: seq<byte> | |d| == 16 witness seq(16, _ => 0)
  type Sha1Digest = d: seq<byte> | |d| == 20 witness seq(20, _ => 0)

  /** MD5 (RFC 1321) and HMAC-SHA1 (RFC 2104 over SHA-1 of FIPS 180-4), taken as
      given: only their output lengths are known. `hmacSha1(key, message)`. */
  datatype Primitives = Primitives(
    md5: seq<byte> -> Md5Digest,
    hmacSha1: (seq<byte>, seq<byte>) -> Sha1Digest)

  const Accept: string := "application/json"
  const ContentType: string := "application/json"

  // ---------------------------------------------------------------------------
  // The signed path

  /** Whether the path begins with one of the environment names `/release`,
      `/test` or `/prepub`. The test is on characters, not on whole segments,
      so `/testing` matches too. A matching path starts with `/` and has a
      character after it, which the strip relies on. */
  predicate HasEnvironmentPrefix(path: string): (b: bool)
    ensures b ==> |path| >= 5 && path[0] == '/'
  {
    StartsWith(path, "/release") || StartsWith(path, "/test") || StartsWith(path, "/prepub")
  }

  /** The test looks only at the front of the path: whatever follows a matching
      path, it still matches. */
  lemma PrefixTestExtends(path: string, more: string)
    requires HasEnvironmentPrefix(path)
    ensures HasEnvironmentPrefix(path + more)
  {
    if StartsWith(path, "/release") {
      StartsWithExtends(path, more, "/release");
    } else if StartsWith(path, "/test") {
      StartsWithExtends(path, more, "/test");
    } else {
      StartsWithExtends(path, more, "/prepub");
    }
  }

  lemma StartsWithExtends(s: string, more: string, p: string)
    requires StartsWith(s, p)
    ensures StartsWith(s + more, p)
  {
    assert (s + more)[..|p|] == s[..|p|];
  }

  /** The prefix test on characters: `/testing` and `/release/v1` match, while a
      shorter `/tes`, a relative `test/x` and a later `/api/test` do not. */
  lemma PrefixTestExamples()
    ensures HasEnvironmentPrefix("/testing/robots") && HasEnvironmentPrefix("/release/v1")
    ensures !HasEnvironmentPrefix("/tes") && !HasEnvironmentPrefix("test/x")
    ensures !HasEnvironmentPrefix("/api/test")
  {
    assert "/testing/robots"[..5] == "/test";
    assert "/release/v1"[..8] == "/release";
    assert "/api/test"[1] == 'a';
    assert "/api/test"[..5][1] == 'a';
    assert "/api/test"[..8][1] == 'a';
    assert "/api/test"[..7][1] == 'a';
  }

  /** The environment prefix removed from a path that passes the prefix test:
      its first segment is dropped and the rest keeps its leading `/`. A
      prefixed path with no second `/` raises. Other paths are unchanged. */
  function StripEnvironmentPrefix(path: string): (r: Result<string, Error>)
    ensures !HasEnvironmentPrefix(path) ==> r == Success(path)
    ensures HasEnvironmentPrefix(path) ==> (r.Failure? <==> '/' !in path[1..])
    ensures r.Failure? ==> r.error == MalformedEnvironmentPath(path)
    ensures HasEnvironmentPrefix(path) && r.Success? ==>
              var k := |path| - |r.value|;
              1 <= k < |path| && r.value == path[k..] && path[k] == '/' && '/' !in path[1..k]
  {
    if !HasEnvironmentPrefix(path) then Success(path)
    else
      assert |path| >= 1;
      match SplitOnce(path[1..], '/')
      case None => Failure(MalformedEnvironmentPath(path))
      case Some((first, rest)) =>
        DropFirstSegment(path, first, rest);
        Success("/" + rest)
  }

  /** Dropping the first segment leaves a suffix that starts at the second `/`. */
  lemma DropFirstSegment(path: string, first: string, rest: string)
    requires |path| >= 1 && path[1..] == first + "/" + rest && '/' !in first
    ensures var k := |path| - |"/" + rest|;
            1 <= k < |path| && "/" + rest == path[k..] && path[k] == '/' && '/' !in path[1..k]
  {
    var k := 1 + |first|;
    assert path[k..] == path[1..][|first|..];
    assert path[1..][|first|..] == "/" + rest;
    assert path[1..k] == path[1..][..|first|];
    assert path[1..][..|first|] == first;
  }

  /** The stripped path is a suffix of the path, so it holds no character the
      path lacks. */
  lemma StrippedAvoids(path: string, c: char)
    requires c !in path && StripEnvironmentPrefix(path).Success?
    ensures c !in StripEnvironmentPrefix(path).value
  {
    var stripped := StripEnvironmentPrefix(path).value;
    if HasEnvironmentPrefix(path) {
      assert stripped == path[|path| - |stripped|..];
    }
  }

  /** The URL path, or `/` when the URL has none: never empty, and `/`
      exactly for an empty or root path. */
  function PathOrRoot(urlPath: string): (r: string)
    ensures r != ""
    ensures urlPath != "" ==> r == urlPath
    ensures r == "/" <==> urlPath == "" || urlPath == "/"
  {
    if urlPath == "" then "/" else urlPath
  }

  /** The path that is signed: the stripped path, followed by `?` and the
      normalised query exactly when the URL has a query whose normalisation is
      not empty. */
  function SigningPath(urlPath: string, query: string): (r: Result<string, Error>)
    ensures r.Failure? <==> StripEnvironmentPrefix(PathOrRoot(urlPath)).Failure?
    ensures r.Failure? ==> r.error == MalformedEnvironmentPath(PathOrRoot(urlPath))
    ensures r.Success? ==>
              var stripped := StripEnvironmentPrefix(PathOrRoot(urlPath)).value;
              StartsWith(r.value, stripped)
              && (r.value == stripped || r.value == stripped + "?" + Query.NormalizeQuery(query))
    ensures r.Success? && '?' !in urlPath ==>
              ('?' in r.value <==> query != "" && Query.NormalizeQuery(query) != "")
  {
    var path := PathOrRoot(urlPath);
    var stripped :- StripEnvironmentPrefix(path);
    assert '?' !in urlPath ==> '?' !in stripped by {
      if '?' !in urlPath {
        StrippedAvoids(path, '?');
      }
    }
    var normalized := if query != "" then Query.NormalizeQuery(query) else "";
    if normalized != "" then
      var r := stripped + "?" + normalized;
      assert r[|stripped|] == '?';
      Success(r)
    else Success(stripped)
  }

  /** The signed path holds only characters of the URL's path and query, plus
      the `/`, `?`, `=`, `,`, `&` and space that stripping and normalising write. */
  lemma SigningPathAvoids(urlPath: string, query: string, c: char)
    requires c !in urlPath && c !in query
    requires c != '/' && c != '?' && c != ' ' && c != '=' && c != ',' && c != '&'
    requires SigningPath(urlPath, query).Success?
    ensures c !in SigningPath(urlPath, query).value
  {
    StrippedAvoids(PathOrRoot(urlPath), c);
    Query.NormalizeAvoids(query, c);
  }

  // ---------------------------------------------------------------------------
  // The content digest

  /** Base 64 of the ASCII bytes of the lower-case hex MD5 of the body's UTF-8
      bytes, for `POST` only: always 44 characters then, and the one text that
      decodes to those bytes; empty otherwise. */
  function ContentMd5(verb: string, bodyJson: string, prims: Primitives): (r: string)
    ensures verb != "POST" ==> r == ""
    ensures verb == "POST" ==> |r| == 44 && Base64.IsPadded(r)
    ensures verb == "POST" ==>
              forall t :: Base64.Decode(t) == Some(Utf8.Encode(Hex.Encode(prims.md5(Utf8.Encode(bodyJson)))))
                      <==> t == r
  {
    if verb == "POST" then
      var digest := prims.md5(Utf8.Encode(bodyJson));
      var bytes := Utf8.Encode(Hex.Encode(digest));
      EncodedDigestShape(digest);
      forall t ensures Base64.Decode(t) == Some(bytes) <==> t == Base64.Encode(bytes) {
        Base64.OnlyEncodingDecodes(bytes, t);
      }
      Base64.Encode(bytes)
    else ""
  }

  /** The 32 hex digits of an MD5 digest are 32 ASCII bytes. */
  lemma DigestHexBytes(digest: Md5Digest)
    ensures |Utf8.Encode(Hex.Encode(digest))| == 32
  {
    var hex := Hex.Encode(digest);
    assert IsAscii(hex) by {
      forall i | 0 <= i < |hex| ensures hex[i] as int < 0x80 {
        assert Hex.IsHexDigit(hex[i]);
      }
    }
    Utf8.EncodeAscii(hex);
  }

  /** The base 64 of those 32 bytes is 44 characters. */
  lemma EncodedDigestShape(digest: Md5Digest)
    ensures var t := Base64.Encode(Utf8.Encode(Hex.Encode(digest)));
            |t| == 44 && Base64.IsPadded(t)
  {
    DigestHexBytes(digest);
    var bytes := Utf8.Encode(Hex.Encode(digest));
    assert |Base64.Encode(bytes)| == 4 * ((32 + 2) / 3);
  }

  /** The double encoding can be undone: decoding the base 64, then the UTF-8,
      then the hex gives back the MD5 of the body. */
  lemma ContentMd5Recovers(bodyJson: string, prims: Primitives)
    ensures var r := ContentMd5("POST", bodyJson, prims);
            var digest := prims.md5(Utf8.Encode(bodyJson));
            && Base64.Decode(r) == Some(Utf8.Encode(Hex.Encode(digest)))
            && Utf8.Decode(Utf8.Encode(Hex.Encode(digest))) == Some(Hex.Encode(digest))
            && Hex.Decode(Hex.Encode(digest)) == Some(digest)
  {
    var digest := prims.md5(Utf8.Encode(bodyJson));
    Base64.DecodeEncode(Utf8.Encode(Hex.Encode(digest)));
    Utf8.DecodeEncode(Hex.Encode(digest));
    Hex.DecodeEncode(digest);
  }

  // ---------------------------------------------------------------------------
  // The signing string, the signature and the Authorization header

  /** The six signed lines, in order. */
  function SigningLines(date: string, verb: string, digest: string, path: string): seq<string> {
    ["x-date: " + date, verb, Accept, ContentType, digest, path]
  }

  /** The six lines joined with `\n`. When no field holds a newline, splitting
      the string at `\n` gives back exactly the six lines, so the string
      determines every field it covers. */
  function SigningString(date: string, verb: string, digest: string, path: string): (r: string)
    ensures |r| >= |"x-date: "| && r[..|"x-date: "|] == "x-date: "
    ensures '\n' !in date && '\n' !in verb && '\n' !in digest && '\n' !in path ==>
              Split(r, '\n') == SigningLines(date, verb, digest, path)
  {
    var lines := SigningLines(date, verb, digest, path);
    var r := Join("\n", lines);
    assert r == lines[0] + "\n" + Join("\n", lines[1..]);
    assert '\n' !in date && '\n' !in verb && '\n' !in digest && '\n' !in path ==>
             Split(r, '\n') == lines by {
      if '\n' !in date && '\n' !in verb && '\n' !in digest && '\n' !in path {
        assert forall i :: 0 <= i < |lines| ==> '\n' !in lines[i];
        SplitJoin(lines, '\n');
      }
    }
    r
  }

  /** Base 64 of HMAC-SHA1 keyed with the secret's UTF-8 bytes over the signing
      string's UTF-8 bytes: 28 characters that decode back to the MAC. */
  function Signature(secret: string, signingString: string, prims: Primitives): (r: string)
    ensures |r| == 28 && Base64.IsPadded(r)
    ensures Base64.Decode(r) == Some(prims.hmacSha1(Utf8.Encode(secret), Utf8.Encode(signingString)))
    ensures forall t :: Base64.Decode(t) == Some(prims.hmacSha1(Utf8.Encode(secret), Utf8.Encode(signingString)))
                    ==> t == r
  {
    var mac := prims.hmacSha1(Utf8.Encode(secret), Utf8.Encode(signingString));
    EncodedMacShape(mac);
    forall t | Base64.Decode(t) == Some(mac) ensures t == Base64.Encode(mac) {
      Base64.OnlyEncodingDecodes(mac, t);
    }
    Base64.Encode(mac)
  }

  /** The base 64 of a 20-byte MAC is 28 characters and decodes back to it. */
  lemma EncodedMacShape(mac: Sha1Digest)
    ensures var t := Base64.Encode(mac);
            |t| == 28 && Base64.IsPadded(t) && Base64.Decode(t) == Some(mac)
  {
    Base64.DecodeEncode(mac);
    assert |Base64.Encode(mac)| == 4 * ((20 + 2) / 3) == 28;
  }

  const AuthorizationHead: string := "hmac id=\""
  const AuthorizationMiddle: string := "\", algorithm=\"hmac-sha1\", headers=\"x-date\", signature=\""

  /** The Authorization header value: the fixed head, the key in quotes, the
      fixed algorithm and header list, then the signature in quotes. The server
      reads exactly the key and a 28-character signature back out of it,
      whatever characters the key holds. */
  function Authorization(key: string, signature: string): (h: string)
    ensures |signature| == 28 ==> ParseAuthorization(h) == Some((key, signature))
  {
    var h := AuthorizationHead + key + AuthorizationMiddle + signature + "\"";
    var keyEnd := |AuthorizationHead| + |key|;
    assert h[..|AuthorizationHead|] == AuthorizationHead;
    assert h[|AuthorizationHead|..keyEnd] == key;
    assert h[keyEnd..|h| - 1 - |signature|] == AuthorizationMiddle;
    assert h[|h| - 1 - |signature|..|h| - 1] == signature;
    h
  }

  /** Reads the key and the 28-character signature out of an Authorization
      header value, as the server does: the fixed parts must sit where the
      layout puts them, and the key is whatever lies between them. */
  function ParseAuthorization(h: string): Option<(string, string)> {
    var fixed := |AuthorizationHead| + |AuthorizationMiddle| + 28 + 1;
    if |h| < fixed then None
    else
      var sigStart := |h| - 29;
      var keyEnd := sigStart - |AuthorizationMiddle|;
      if h[..|AuthorizationHead|] == AuthorizationHead
         && h[keyEnd..sigStart] == AuthorizationMiddle && h[|h| - 1] == '"'
      then Some((h[|AuthorizationHead|..keyEnd], h[sigStart..|h| - 1]))
      else None
  }

  /** Only header values `Authorization` writes are read: what is read back
      rebuilds the value exactly. */
  lemma ParseAuthorizationSound(h: string, key: string, signature: string)
    requires ParseAuthorization(h) == Some((key, signature))
    ensures |signature| == 28 && h == Authorization(key, signature)
  {
    var sigStart := |h| - 29;
    var keyEnd := sigStart - |AuthorizationMiddle|;
    assert h == h[..|AuthorizationHead|] + h[|AuthorizationHead|..keyEnd]
              + h[keyEnd..sigStart] + h[sigStart..|h| - 1] + [h[|h| - 1]];
  }

  // ---------------------------------------------------------------------------
  // The headers sent

  datatype Header = Header(name: string, value: string)

  const HeaderNames: seq<string> := ["Host", "Accept", "Content-Type", "x-date", "Authorization"]

  function Names(hs: seq<Header>): seq<string> {
    seq(|hs|, i requires 0 <= i < |hs| => hs[i].name)
  }

  /** The value sent under `name`, if any: the first header carrying it. */
  function Lookup(hs: seq<Header>, name: string): Option<string>
    decreases |hs|
  {
    if |hs| == 0 then None
    else if hs[0].name == name then Some(hs[0].value)
    else Lookup(hs[1..], name)
  }

  lemma {:induction false} LookupAt(hs: seq<Header>, i: nat, name: string)
    requires i < |hs| && hs[i].name == name
    requires forall j :: 0 <= j < i ==> hs[j].name != name
    ensures Lookup(hs, name) == Some(hs[i].value)
    decreases i
  {
    if i > 0 {
      LookupAt(hs[1..], i - 1, name);
    }
  }

  /** The Host header value: the host name `urlparse` found, or empty when it
      found none. The header is never left out. */
  function HostOrEmpty(host: Option<string>): (r: string)
    ensures r == "" <==> host.None? || host.value == ""
    ensures r != "" ==> host == Some(r)
  {
    if host.Some? then host.value else ""
  }

  /** The header dictionary: exactly Host (the host name or empty), Accept,
      Content-Type, x-date and Authorization, in that order. */
  function Headers(host: Option<string>, date: string, authorization: string): (r: seq<Header>)
    ensures Names(r) == HeaderNames
    ensures Lookup(r, "Host") == Some(HostOrEmpty(host))
    ensures Lookup(r, "Accept") == Some(Accept) && Lookup(r, "Content-Type") == Some(ContentType)
    ensures Lookup(r, "x-date") == Some(date) && Lookup(r, "Authorization") == Some(authorization)
  {
    var r := [Header("Host", HostOrEmpty(host)),
              Header("Accept", Accept),
              Header("Content-Type", ContentType),
              Header("x-date", date),
              Header("Authorization", authorization)];
    assert Names(r) == HeaderNames;
    HeaderLookups(r);
    r
  }

  /** Under the five distinct header names, each header is found at its own
      position. */
  lemma HeaderLookups(r: seq<Header>)
    requires Names(r) == HeaderNames
    ensures Lookup(r, "Host") == Some(r[0].value) && Lookup(r, "Accept") == Some(r[1].value)
    ensures Lookup(r, "Content-Type") == Some(r[2].value) && Lookup(r, "x-date") == Some(r[3].value)
    ensures Lookup(r, "Authorization") == Some(r[4].value)
  {
    assert |r| == |Names(r)| == 5;
    assert forall i :: 0 <= i < 5 ==> r[i].name == HeaderNames[i] by {
      forall i | 0 <= i < 5 ensures r[i].name == HeaderNames[i] {
        assert Names(r)[i] == r[i].name;
      }
    }
    DistinctHeaderNames();
    LookupAt(r, 0, "Host");
    LookupAt(r, 1, "Accept");
    LookupAt(r, 2, "Content-Type");
    LookupAt(r, 3, "x-date");
    LookupAt(r, 4, "Authorization");
  }

  lemma DistinctHeaderNames()
    ensures forall i, j :: 0 <= i < j < |HeaderNames| ==> HeaderNames[i] != HeaderNames[j]
  {
    assert HeaderNames[0][0] == 'H' && HeaderNames[1][0] == 'A' && HeaderNames[2][0] == 'C';
    assert HeaderNames[3][0] == 'x' && HeaderNames[4][0] == 'A';
    assert HeaderNames[1][1] == 'c' && HeaderNames[4][1] == 'u';
  }
}
