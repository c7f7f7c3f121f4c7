/** `PuduClient`: construction, the generic signed request `_request`, and the
    handling of the server's answer. The network is a parameter. */
module Client {
  import opened Wrappers
  import opened Text
  import opened Errors
  import opened Signing
  import opened Json
  import opened HttpDate
  import Base64
  import Utf8
  import JsonParse
  import Query

  datatype Client = Client(apiKey: string, apiSecret: string, baseUrl: string)

  /** Building a client from a key, a secret and a base URL: every argument must be
      non-empty; trailing slashes are then removed from the base URL. The test
      comes before the stripping, so a base URL of slashes only is accepted and
      becomes empty. */
  function NewClient(apiKey: string, apiSecret: string, baseUrl: string): (r: Result<Client, Error>)
    ensures r.Failure? <==> apiKey == "" || apiSecret == "" || baseUrl == ""
    ensures r.Failure? ==> r.error == MissingCredentials
    ensures r.Success? ==> r.value.apiKey == apiKey && r.value.apiSecret == apiSecret
    ensures r.Success? ==>
              var b := r.value.baseUrl;
              && StartsWith(baseUrl, b)
              && (b == "" || b[|b| - 1] != '/')
              && forall i :: |b| <= i < |baseUrl| ==> baseUrl[i] == '/'
  {
    if apiKey == "" || apiSecret == "" || baseUrl == "" then Failure(MissingCredentials)
    else Success(Client(apiKey, apiSecret, RStrip(baseUrl, '/')))
  }

  /** A base URL of a single slash passes the emptiness test and leaves an empty
      base URL behind. */
  lemma SlashOnlyBaseUrl(apiKey: string, apiSecret: string)
    requires apiKey != "" && apiSecret != ""
    ensures NewClient(apiKey, apiSecret, "/") == Success(Client(apiKey, apiSecret, ""))
  {
  }

  /** The parts of `urlparse(url)` the signature uses. */
  datatype UrlParts = UrlParts(hostname: Option<string>, path: string, query: string)

  /** `urlparse` removes tab, carriage return and line feed from a URL, so no
      part it yields holds a line feed; and it cuts the query off at the first
      `?`, so the path holds none. */
  predicate FromUrlParse(parts: UrlParts) {
    '\n' !in parts.path && '\n' !in parts.query && '?' !in parts.path
  }

  /** The request handed to the HTTP client. */
  datatype Dispatch =
    | Get(url: string, headers: seq<Header>)
    | Post(url: string, headers: seq<Header>, content: string)

  /** The compact JSON text of the body, a missing body counting as the empty
      object: `{}` exactly for a missing or empty body, a longer object text
      otherwise, and in every case a text that reads back as the body. */
  function BodyJson(body: Option<seq<(string, Json)>>): (r: string)
    ensures IsAscii(r)
    ensures |r| >= 2 && r[0] == '{' && r[|r| - 1] == '}'
    ensures r == "{}" <==> body.None? || body.value == []
    ensures JsonParse.Parse(r) == Some(Object(if body.Some? then body.value else []))
  {
    var members := if body.Some? then body.value else [];
    var r := Serialize(Object(members));
    JsonParse.ParseOfSerialize(Object(members));
    var parts := seq(|members|, i requires 0 <= i < |members| =>
                       Quote(members[i].0) + ":" + Serialize(members[i].1));
    assert r == "{" + Join(",", parts) + "}";
    assert |members| > 0 ==> Join(",", parts) != "" by {
      if |members| > 0 {
        assert |parts| == 1 || Join(",", parts) == parts[0] + "," + Join(",", parts[1..]);
        assert parts[0] != "";
      }
    }
    r
  }

  /** Everything `_request` does before the network call: the strip error comes
      first, then the method test; on success the URL is passed on untouched,
      a `POST` carries the serialised body, and the headers are the five of
      the header map with the date of `now`. */
  function Prepare(c: Client, verb: string, url: string, parts: UrlParts,
                   body: Option<seq<(string, Json)>>, now: DateTime, prims: Primitives)
    : (r: Result<Dispatch, Error>)
    requires Valid(now)
    ensures var m := Upper(verb);
            r.Failure? <==> SigningPath(parts.path, parts.query).Failure? || (m != "GET" && m != "POST")
    ensures var sp := SigningPath(parts.path, parts.query);
            sp.Failure? ==> r == Failure(sp.error)
    ensures var m := Upper(verb);
            SigningPath(parts.path, parts.query).Success? && m != "GET" && m != "POST" ==>
              r == Failure(UnsupportedMethod(m))
    ensures r.Success? ==> r.value.url == url && (r.value.Get? <==> Upper(verb) == "GET")
    ensures r.Success? && r.value.Post? ==> r.value.content == BodyJson(body)
    ensures r.Success? ==>
              && Names(r.value.headers) == HeaderNames
              && Lookup(r.value.headers, "Host") == Some(HostOrEmpty(parts.hostname))
              && Lookup(r.value.headers, "x-date") == Some(Format(now))
              && Lookup(r.value.headers, "Accept") == Some(Accept)
              && Lookup(r.value.headers, "Content-Type") == Some(ContentType)
  {
    var m := Upper(verb);
    var path :- SigningPath(parts.path, parts.query);
    var content := if m == "POST" then BodyJson(body) else "";
    var digest := ContentMd5(m, content, prims);
    var date := Format(now);
    var signature := Signature(c.apiSecret, SigningString(date, m, digest, path), prims);
    var headers := Headers(parts.hostname, date, Authorization(c.apiKey, signature));
    if m == "GET" then Success(Get(url, headers))
    else if m == "POST" then Success(Post(url, headers, content))
    else Failure(UnsupportedMethod(m))
  }

  lemma PaddedSingleLine(s: string)
    requires Base64.IsPadded(s)
    ensures '\n' !in s
  {
    forall i | 0 <= i < |s| ensures s[i] != '\n' {
      assert Base64.IsBase64Char(s[i]) || s[i] == '=';
    }
  }

  /** The dispatch `d` is signed by `c` for method `m` and signed path `path`:
      its Authorization header names the client's key and carries the base 64
      HMAC-SHA1, under the client's secret, of a string whose six lines are the
      `x-date` header sent, `m`, the two media types, the digest of the content
      sent (empty for `GET`) and `path`. */
  predicate SignedFor(c: Client, m: string, path: string, d: Dispatch, prims: Primitives) {
    && Lookup(d.headers, "x-date").Some?
    && Lookup(d.headers, "Authorization").Some?
    && var date := Lookup(d.headers, "x-date").value;
       var digest := if d.Post? then ContentMd5("POST", d.content, prims) else "";
       var signed := SigningString(date, m, digest, path);
       var auth := ParseAuthorization(Lookup(d.headers, "Authorization").value);
       && Split(signed, '\n') == SigningLines(date, m, digest, path)
       && auth.Some? && auth.value.0 == c.apiKey
       && Base64.Decode(auth.value.1) == Some(prims.hmacSha1(Utf8.Encode(c.apiSecret), Utf8.Encode(signed)))
  }

  /** What a prepared request proves to the server: the Authorization header
      names the client's key and carries the base 64 HMAC-SHA1, under the
      client's secret, of a string whose six lines are the `x-date` header sent,
      the upper-cased method, the two media types, the digest of the content
      sent (empty for `GET`) and the signed path. */
  lemma SignatureCoversRequest(c: Client, verb: string, url: string, parts: UrlParts,
                               body: Option<seq<(string, Json)>>, now: DateTime, prims: Primitives)
    requires Valid(now) && FromUrlParse(parts)
    requires Prepare(c, verb, url, parts, body, now, prims).Success?
    ensures SignedFor(c, Upper(verb), SigningPath(parts.path, parts.query).value,
                      Prepare(c, verb, url, parts, body, now, prims).value, prims)
  {
    var d := Prepare(c, verb, url, parts, body, now, prims).value;
    var m := Upper(verb);
    var path := SigningPath(parts.path, parts.query).value;
    var digest := ContentMd5(m, if m == "POST" then BodyJson(body) else "", prims);
    var date := Format(now);
    var signed := SigningString(date, m, digest, path);
    var signature := Signature(c.apiSecret, signed, prims);
    PreparedHeaders(c, verb, url, parts, body, now, prims);
    assert Lookup(d.headers, "x-date") == Some(date);
    assert Lookup(d.headers, "Authorization") == Some(Authorization(c.apiKey, signature));
    SignedFieldsSingleLine(m, digest, path, parts, now);
  }

  /** A prepared request carries the headers built from the signature of its
      own method, digest and signed path. */
  lemma PreparedHeaders(c: Client, verb: string, url: string, parts: UrlParts,
                        body: Option<seq<(string, Json)>>, now: DateTime, prims: Primitives)
    requires Valid(now)
    requires Prepare(c, verb, url, parts, body, now, prims).Success?
    ensures var d := Prepare(c, verb, url, parts, body, now, prims).value;
            var m := Upper(verb);
            var digest := ContentMd5(m, if m == "POST" then BodyJson(body) else "", prims);
            var signed := SigningString(Format(now), m, digest, SigningPath(parts.path, parts.query).value);
            && (m == "GET" || m == "POST")
            && (d.Post? <==> m == "POST")
            && (d.Post? ==> d.content == BodyJson(body))
            && d.headers == Headers(parts.hostname, Format(now),
                                    Authorization(c.apiKey, Signature(c.apiSecret, signed, prims)))
  {
  }

  /** No signed field holds a line feed, so the signing string splits back
      into its six lines. */
  lemma SignedFieldsSingleLine(m: string, digest: string, path: string, parts: UrlParts, now: DateTime)
    requires Valid(now) && FromUrlParse(parts)
    requires m == "GET" || m == "POST"
    requires digest == "" || Base64.IsPadded(digest)
    requires SigningPath(parts.path, parts.query) == Success(path)
    ensures '\n' !in Format(now) && '\n' !in m && '\n' !in digest && '\n' !in path
  {
    FormatSingleLine(now);
    SigningPathAvoids(parts.path, parts.query, '\n');
    if digest != "" {
      PaddedSingleLine(digest);
    }
  }

  /** What the server answered: status, body text, and the body parsed as JSON
      when it is JSON. */
  datatype Response = Response(status: int, text: string, json: Option<Json>)

  /** The handling of the server's answer: any status outside 200-299 is an
      error carrying the status and the body text; a successful JSON answer is
      returned as parsed, and one that is not JSON comes back as an object with
      `raw` set to the text and `status_code` set to the status. */
  function Classify(resp: Response): (r: Result<Json, Error>)
    ensures r.Failure? <==> !(200 <= resp.status < 300)
    ensures r.Failure? ==> r.error == UpstreamHttpError(resp.status, resp.text)
    ensures r.Success? && resp.json.Some? ==> r.value == resp.json.value
    ensures r.Success? && resp.json.None? ==>
              r.value.Object? && |r.value.members| == 2
              && r.value.members[0] == ("raw", String(resp.text))
              && r.value.members[1] == ("status_code", Number(resp.status))
  {
    if !(200 <= resp.status < 300) then Failure(UpstreamHttpError(resp.status, resp.text))
    else if resp.json.Some? then Success(resp.json.value)
    else Success(Object([("raw", String(resp.text)), ("status_code", Number(resp.status))]))
  }

  /** `_request`: prepare, send through `network`, classify the answer. No
      request reaches the network when preparation fails. */
  function Request(c: Client, verb: string, url: string, parts: UrlParts,
                   body: Option<seq<(string, Json)>>, now: DateTime, prims: Primitives,
                   network: Dispatch -> Response)
    : (r: Result<Json, Error>)
    requires Valid(now)
    ensures Prepare(c, verb, url, parts, body, now, prims).Failure? ==>
              r == Failure(Prepare(c, verb, url, parts, body, now, prims).error)
    ensures Prepare(c, verb, url, parts, body, now, prims).Success? ==>
              r == Classify(network(Prepare(c, verb, url, parts, body, now, prims).value))
  {
    var d :- Prepare(c, verb, url, parts, body, now, prims);
    Classify(network(d))
  }

  /** `_request` end to end, for every network: it fails exactly when the
      strip fails, the method is neither `GET` nor `POST`, or the server
      answers outside 200-299; the strip error comes first, then the method
      error; an upstream error is raised exactly for a non-2xx answer to the
      prepared dispatch and carries that answer's status and text; and the
      dispatch sent is signed for the upper-cased method and the signed path,
      which carries a `?` exactly when the URL has a query that does not
      normalise to the empty text. */
  lemma RequestOutcome(c: Client, verb: string, url: string, parts: UrlParts,
                       body: Option<seq<(string, Json)>>, now: DateTime, prims: Primitives,
                       network: Dispatch -> Response)
    requires Valid(now)
    ensures var r := Request(c, verb, url, parts, body, now, prims, network);
            var p := Prepare(c, verb, url, parts, body, now, prims);
            var m := Upper(verb);
            var sp := SigningPath(parts.path, parts.query);
            && (r.Failure? <==>
                  sp.Failure? || (m != "GET" && m != "POST")
                  || (p.Success? && !(200 <= network(p.value).status < 300)))
            && (sp.Failure? ==> r == Failure(sp.error))
            && (sp.Success? && m != "GET" && m != "POST" ==> r == Failure(UnsupportedMethod(m)))
            && (r.Failure? && r.error.UpstreamHttpError? <==>
                  p.Success? && !(200 <= network(p.value).status < 300))
            && (p.Success? && !(200 <= network(p.value).status < 300) ==>
                  r == Failure(UpstreamHttpError(network(p.value).status, network(p.value).text)))
            && (r.Success? ==> p.Success? && 200 <= network(p.value).status < 300)
            && (r.Success? && network(p.value).json.Some? ==> r.value == network(p.value).json.value)
            && (p.Success? ==> p.value.url == url && (p.value.Get? <==> m == "GET"))
            && (p.Success? && FromUrlParse(parts) ==> SignedFor(c, m, sp.value, p.value, prims))
            && (p.Success? && FromUrlParse(parts) ==>
                  ('?' in sp.value <==> parts.query != "" && Query.NormalizeQuery(parts.query) != ""))
  {
    var p := Prepare(c, verb, url, parts, body, now, prims);
    if p.Success? && FromUrlParse(parts) {
      SignatureCoversRequest(c, verb, url, parts, body, now, prims);
    }
  }

  /** A request whose preparation fails has the same outcome whatever the
      network would answer: nothing is sent. */
  lemma FailedPreparationSendsNothing(c: Client, verb: string, url: string, parts: UrlParts,
                                      body: Option<seq<(string, Json)>>, now: DateTime, prims: Primitives,
                                      network1: Dispatch -> Response, network2: Dispatch -> Response)
    requires Valid(now)
    requires Prepare(c, verb, url, parts, body, now, prims).Failure?
    ensures Request(c, verb, url, parts, body, now, prims, network1)
         == Request(c, verb, url, parts, body, now, prims, network2)
  {
  }
}
