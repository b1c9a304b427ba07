/** The four request serialisers of http_requests.cpp, and the HTTP/1.1
    message layout (RFC 9112 sections 2.1 and 3) they write: a request line,
    header fields each ended by CRLF, a blank line, then the body. The
    serialisers are written as the source appends them; `Message` is the same
    layout stated once, and `ParseMessage` reads it back. */
module Requests {
  import opened Wrappers
  import opened Text

  /** The arguments of one `compute_*_request` call, apart from the host. */
  datatype Request =
    | Get(url: string, query: string, cookies: seq<string>, token: string)
    | Post(url: string, contentType: string, body: string, cookies: seq<string>, token: string)
    | Delete(url: string, cookies: seq<string>, token: string)
    | Put(url: string, contentType: string, body: string, cookies: seq<string>, token: string)

  // ---------------------------------------------------------------------------
  // The serialisers, piece by piece as the source writes them

  /** The cookies, each but the last followed by "; " (RFC 6265 section 5.4). */
  function JoinCookies(cookies: seq<string>): string {
    if |cookies| == 0 then ""
    else if |cookies| == 1 then cookies[0]
    else cookies[0] + "; " + JoinCookies(cookies[1..])
  }

  function CookieHeader(cookies: seq<string>): string {
    if cookies == [] then "" else "Cookie: " + JoinCookies(cookies) + CRLF
  }

  /** The bearer-token header of RFC 6750 section 2.1, left out for an empty token. */
  function AuthorizationHeader(token: string): string {
    if token == "" then "" else "Authorization: Bearer " + token + CRLF
  }

  function Target(url: string, query: string): string {
    if query != "" then url + "?" + query else url
  }

  // Each parenthesised group is one `request_string << ...` statement of the source.

  function ComputeGetRequest(host: string, url: string, query: string, cookies: seq<string>, token: string): string {
    ("GET " + url + (if query != "" then "?" + query else "") + " HTTP/1.1" + CRLF)
    + ("Host: " + host + CRLF)
    + CookieHeader(cookies)
    + AuthorizationHeader(token)
    + ("Connection: keep-alive" + CRLF)
    + CRLF
  }

  /** `body` is the JSON payload as `dump()` wrote it. */
  function ComputePostRequest(host: string, url: string, contentType: string, body: string,
                              cookies: seq<string>, token: string): string {
    ("POST " + url + " HTTP/1.1" + CRLF)
    + ("Host: " + host + CRLF)
    + ("Content-Type: " + contentType + CRLF)
    + ("Content-Length: " + DecimalString(|body|) + CRLF)
    + CookieHeader(cookies)
    + AuthorizationHeader(token)
    + ("Connection: keep-alive" + CRLF)
    + CRLF
    + body
  }

  function ComputeDeleteRequest(host: string, url: string, cookies: seq<string>, token: string): string {
    ("DELETE " + url + " HTTP/1.1" + CRLF)
    + ("Host: " + host + CRLF)
    + CookieHeader(cookies)
    + AuthorizationHeader(token)
    + ("Connection: keep-alive" + CRLF)
    + CRLF
  }

  function ComputePutRequest(host: string, url: string, contentType: string, body: string,
                             cookies: seq<string>, token: string): string {
    ("PUT " + url + " HTTP/1.1" + CRLF)
    + ("Host: " + host + CRLF)
    + ("Content-Type: " + contentType + CRLF)
    + ("Content-Length: " + DecimalString(|body|) + CRLF)
    + CookieHeader(cookies)
    + AuthorizationHeader(token)
    + ("Connection: keep-alive" + CRLF)
    + CRLF
    + body
  }

  /** The bytes a request goes out as. */
  function Serialize(host: string, r: Request): string {
    match r
    case Get(url, query, cookies, token) => ComputeGetRequest(host, url, query, cookies, token)
    case Post(url, ct, body, cookies, token) => ComputePostRequest(host, url, ct, body, cookies, token)
    case Delete(url, cookies, token) => ComputeDeleteRequest(host, url, cookies, token)
    case Put(url, ct, body, cookies, token) => ComputePutRequest(host, url, ct, body, cookies, token)
  }

  // ---------------------------------------------------------------------------
  // The message layout

  /** One header field, written `name: value`. */
  datatype Field = Field(name: string, value: string)

  function FieldLine(f: Field): string {
    f.name + ": " + f.value
  }

  /** Each line followed by CRLF. */
  function Lines(ls: seq<string>): string {
    if ls == [] then "" else ls[0] + CRLF + Lines(ls[1..])
  }

  function FieldLines(fs: seq<Field>): seq<string> {
    if fs == [] then [] else [FieldLine(fs[0])] + FieldLines(fs[1..])
  }

  /** An HTTP/1.1 message: start line, header fields, blank line, body. */
  function Message(start: string, fields: seq<Field>, body: string): string {
    Lines([start] + FieldLines(fields)) + CRLF + body
  }

  function RequestLine(verb: string, target: string): string {
    verb + " " + target + " HTTP/1.1"
  }

  function CookieFields(cookies: seq<string>): seq<Field> {
    if cookies == [] then [] else [Field("Cookie", JoinCookies(cookies))]
  }

  function AuthorizationFields(token: string): seq<Field> {
    if token == "" then [] else [Field("Authorization", "Bearer " + token)]
  }

  /** The header fields of a request without a body (GET, DELETE). */
  function PlainFields(host: string, cookies: seq<string>, token: string): seq<Field> {
    [Field("Host", host)] + CookieFields(cookies) + AuthorizationFields(token)
    + [Field("Connection", "keep-alive")]
  }

  /** The header fields of a request with a body (POST, PUT). */
  function EntityFields(host: string, contentType: string, body: string,
                        cookies: seq<string>, token: string): seq<Field> {
    [Field("Host", host), Field("Content-Type", contentType),
     Field("Content-Length", DecimalString(|body|))]
    + CookieFields(cookies) + AuthorizationFields(token)
    + [Field("Connection", "keep-alive")]
  }

  function StartLine(r: Request): string {
    match r
    case Get(url, query, _, _) => RequestLine("GET", Target(url, query))
    case Post(url, _, _, _, _) => RequestLine("POST", url)
    case Delete(url, _, _) => RequestLine("DELETE", url)
    case Put(url, _, _, _, _) => RequestLine("PUT", url)
  }

  function HeaderFields(host: string, r: Request): seq<Field> {
    match r
    case Get(_, _, cookies, token) => PlainFields(host, cookies, token)
    case Post(_, ct, body, cookies, token) => EntityFields(host, ct, body, cookies, token)
    case Delete(_, cookies, token) => PlainFields(host, cookies, token)
    case Put(_, ct, body, cookies, token) => EntityFields(host, ct, body, cookies, token)
  }

  function BodyOf(r: Request): string {
    match r
    case Post(_, _, body, _, _) => body
    case Put(_, _, body, _, _) => body
    case _ => ""
  }

  /** The values of the fields called `name`, in order. */
  function FieldValues(fields: seq<Field>, name: string): seq<string> {
    if fields == [] then []
    else (if fields[0].name == name then [fields[0].value] else []) + FieldValues(fields[1..], name)
  }

  // ---------------------------------------------------------------------------
  // Reading a message back

  /** Splits `s` into the lines before the first empty line and what follows
      that empty line; None when no empty line ends the head. */
  function SplitHead(s: string): Option<(seq<string>, string)>
    decreases |s|
  {
    match Find(s, CRLF, 0)
    case None => None
    case Some(p) =>
      if p == 0 then Some(([], s[2..]))
      else
        match SplitHead(s[p + 2..])
        case None => None
        case Some(rest) => Some(([s[..p]] + rest.0, rest.1))
  }

  function ParseField(line: string): Option<Field> {
    match Find(line, ": ", 0)
    case None => None
    case Some(p) => Some(Field(line[..p], line[p + 2..]))
  }

  function ParseFields(lines: seq<string>): Option<seq<Field>> {
    if lines == [] then Some([])
    else
      match (ParseField(lines[0]), ParseFields(lines[1..]))
      case (Some(f), Some(fs)) => Some([f] + fs)
      case _ => None
  }

  /** Start line, header fields and body of a message. */
  function ParseMessage(s: string): Option<(string, seq<Field>, string)> {
    match SplitHead(s)
    case None => None
    case Some((lines, body)) =>
      if lines == [] then None
      else
        match ParseFields(lines[1..])
        case None => None
        case Some(fs) => Some((lines[0], fs, body))
  }

  /** The inverse of JoinCookies: cut at every "; ". */
  function SplitCookies(s: string): seq<string>
    decreases |s|
  {
    match Find(s, "; ", 0)
    case None => [s]
    case Some(p) => [s[..p]] + SplitCookies(s[p + 2..])
  }

  // ---------------------------------------------------------------------------
  // Properties

  predicate NoCR(s: string) {
    '\r' !in s
  }

  /** A field that can be written in a head and read back. */
  predicate PlainField(f: Field) {
    ':' !in f.name && NoCR(f.name) && NoCR(f.value)
  }

  predicate AllPlain(fs: seq<Field>) {
    forall f :: f in fs ==> PlainField(f)
  }

  /** What the serialisers place in the head must not break lines. */
  predicate HeadSafe(host: string, r: Request) {
    NoCR(host) && NoCR(r.url) && NoCR(r.token)
    && (forall i :: 0 <= i < |r.cookies| ==> NoCR(r.cookies[i]))
    && (r.Get? ==> NoCR(r.query))
    && ((r.Post? || r.Put?) ==> NoCR(r.contentType))
  }

  lemma {:induction false} LinesAppend(a: seq<string>, b: seq<string>)
    ensures Lines(a + b) == Lines(a) + Lines(b)
  {
    if a == [] {
      assert a + b == b;
    } else {
      assert (a + b)[0] == a[0];
      assert (a + b)[1..] == a[1..] + b;
      LinesAppend(a[1..], b);
    }
  }

  lemma {:induction false} FieldLinesAppend(a: seq<Field>, b: seq<Field>)
    ensures FieldLines(a + b) == FieldLines(a) + FieldLines(b)
  {
    if a == [] {
      assert a + b == b;
    } else {
      assert (a + b)[0] == a[0];
      assert (a + b)[1..] == a[1..] + b;
      FieldLinesAppend(a[1..], b);
    }
  }

  lemma {:induction false} FieldValuesAppend(a: seq<Field>, b: seq<Field>, name: string)
    ensures FieldValues(a + b, name) == FieldValues(a, name) + FieldValues(b, name)
  {
    if a == [] {
      assert a + b == b;
    } else {
      assert (a + b)[0] == a[0];
      assert (a + b)[1..] == a[1..] + b;
      FieldValuesAppend(a[1..], b, name);
    }
  }

  lemma FieldLinesOne(f: Field)
    ensures FieldLines([f]) == [FieldLine(f)]
  {
    assert [f][1..] == [];
  }

  lemma OptionalLines(cookies: seq<string>, token: string)
    ensures Lines(FieldLines(CookieFields(cookies))) == CookieHeader(cookies)
    ensures Lines(FieldLines(AuthorizationFields(token))) == AuthorizationHeader(token)
  {
    if cookies != [] {
      var f := Field("Cookie", JoinCookies(cookies));
      FieldLinesOne(f);
      LinesOne(FieldLine(f));
      FieldLineText("Cookie", "Cookie: ", JoinCookies(cookies));
    }
    if token != "" {
      var f := Field("Authorization", "Bearer " + token);
      FieldLinesOne(f);
      LinesOne(FieldLine(f));
      FieldLineText("Authorization", "Authorization: ", "Bearer " + token);
      assert "Authorization: " + ("Bearer " + token) == "Authorization: Bearer " + token;
    }
  }

  /** The lines of a request head: start line, the fixed fields, the optional
      Cookie and Authorization fields, then a last field. */
  lemma HeadLines(start: string, fixed: seq<Field>, cookies: seq<string>, token: string, last: Field)
    ensures Lines([start] + FieldLines(fixed + CookieFields(cookies) + AuthorizationFields(token) + [last]))
         == (start + CRLF) + Lines(FieldLines(fixed)) + CookieHeader(cookies) + AuthorizationHeader(token)
            + (FieldLine(last) + CRLF)
  {
    var c := CookieFields(cookies);
    var z := AuthorizationFields(token);
    HeadFieldLines(fixed, c, z, last);
    FiveLineGroups(start, FieldLines(fixed), FieldLines(c), FieldLines(z), FieldLine(last));
    OptionalLines(cookies, token);
  }

  /** The field lines of the four groups of a head, in order. */
  lemma HeadFieldLines(fixed: seq<Field>, c: seq<Field>, z: seq<Field>, last: Field)
    ensures FieldLines(fixed + c + z + [last]) == FieldLines(fixed) + FieldLines(c) + FieldLines(z) + [FieldLine(last)]
  {
    FieldLinesAppend(fixed + c + z, [last]);
    FieldLinesAppend(fixed + c, z);
    FieldLinesAppend(fixed, c);
    FieldLinesOne(last);
  }

  /** The lines of a start line, three groups of lines and a last line. */
  lemma FiveLineGroups(start: string, fl: seq<string>, cl: seq<string>, al: seq<string>, l: string)
    ensures Lines([start] + (fl + cl + al + [l]))
         == (start + CRLF) + Lines(fl) + Lines(cl) + Lines(al) + (l + CRLF)
  {
    assert [start] + (fl + cl + al + [l]) == [start] + fl + cl + al + [l];
    LinesAppend([start] + fl + cl + al, [l]);
    LinesAppend([start] + fl + cl, al);
    LinesAppend([start] + fl, cl);
    LinesAppend([start], fl);
    LinesOne(start);
    LinesOne(l);
  }

  lemma LinesOne(l: string)
    ensures Lines([l]) == l + CRLF
  {
    assert [l][1..] == [];
  }

  /** The request line the builders write, as a start line. */
  lemma StartLines(url: string, query: string)
    ensures "GET " + url + (if query != "" then "?" + query else "") + " HTTP/1.1" + CRLF
         == RequestLine("GET", Target(url, query)) + CRLF
    ensures "POST " + url + " HTTP/1.1" + CRLF == RequestLine("POST", url) + CRLF
    ensures "DELETE " + url + " HTTP/1.1" + CRLF == RequestLine("DELETE", url) + CRLF
    ensures "PUT " + url + " HTTP/1.1" + CRLF == RequestLine("PUT", url) + CRLF
  {
  }

  lemma HostLines(host: string)
    ensures Lines(FieldLines([Field("Host", host)])) == "Host: " + host + CRLF
  {
    var f := Field("Host", host);
    assert FieldLines([f]) == [FieldLine(f)] by { assert [f][1..] == []; }
    LinesOne(FieldLine(f));
    assert "Host" + ": " == "Host: ";
  }

  lemma ConnectionLine()
    ensures FieldLine(Field("Connection", "keep-alive")) + CRLF == "Connection: keep-alive" + CRLF
  {
  }

  lemma ThreeLines(f1: Field, f2: Field, f3: Field)
    ensures Lines(FieldLines([f1, f2, f3])) == (FieldLine(f1) + CRLF) + (FieldLine(f2) + CRLF) + (FieldLine(f3) + CRLF)
  {
    var l1, l2, l3 := FieldLine(f1), FieldLine(f2), FieldLine(f3);
    calc {
      Lines(FieldLines([f1, f2, f3]));
      == { assert [f3][1..] == [];
           assert FieldLines([f3]) == [l3];
           assert [f2, f3][1..] == [f3];
           assert FieldLines([f2, f3]) == [l2, l3];
           assert [f1, f2, f3][1..] == [f2, f3]; }
      Lines([l1, l2, l3]);
      == { assert [l1, l2, l3] == [l1] + ([l2] + [l3]);
           LinesAppend([l1], [l2] + [l3]);
           LinesAppend([l2], [l3]); }
      Lines([l1]) + (Lines([l2]) + Lines([l3]));
      == { LinesOne(l1); LinesOne(l2); LinesOne(l3); }
      (l1 + CRLF) + ((l2 + CRLF) + (l3 + CRLF));
    }
  }

  lemma EntityLines(host: string, ct: string, len: string)
    ensures Lines(FieldLines([Field("Host", host), Field("Content-Type", ct), Field("Content-Length", len)]))
         == ("Host: " + host + CRLF) + ("Content-Type: " + ct + CRLF) + ("Content-Length: " + len + CRLF)
  {
    var f1, f2, f3 := Field("Host", host), Field("Content-Type", ct), Field("Content-Length", len);
    ThreeLines(f1, f2, f3);
    FieldLineText("Host", "Host: ", host);
    FieldLineText("Content-Type", "Content-Type: ", ct);
    FieldLineText("Content-Length", "Content-Length: ", len);
  }

  lemma FieldLineText(name: string, prefix: string, value: string)
    requires prefix == name + ": "
    ensures FieldLine(Field(name, value)) + CRLF == prefix + value + CRLF
  {
  }

  lemma EntityAssoc(a: string, b1: string, b2: string, b3: string)
    ensures a + (b1 + b2 + b3) == a + b1 + b2 + b3
  {
  }

  /** compute_get_request writes a GET message with the plain fields and no body. */
  lemma GetLayout(host: string, url: string, query: string, cookies: seq<string>, token: string)
    ensures ComputeGetRequest(host, url, query, cookies, token)
         == Message(RequestLine("GET", Target(url, query)), PlainFields(host, cookies, token), "")
  {
    StartLines(url, query);
    HostLines(host);
    ConnectionLine();
    HeadLines(RequestLine("GET", Target(url, query)), [Field("Host", host)], cookies, token,
              Field("Connection", "keep-alive"));
  }

  /** compute_post_request writes a POST message with the entity fields and the body. */
  lemma PostLayout(host: string, url: string, ct: string, body: string, cookies: seq<string>, token: string)
    ensures ComputePostRequest(host, url, ct, body, cookies, token)
         == Message(RequestLine("POST", url), EntityFields(host, ct, body, cookies, token), body)
  {
    StartLines(url, "");
    EntityLines(host, ct, DecimalString(|body|));
    ConnectionLine();
    HeadLines(RequestLine("POST", url),
              [Field("Host", host), Field("Content-Type", ct), Field("Content-Length", DecimalString(|body|))],
              cookies, token, Field("Connection", "keep-alive"));
    EntityAssoc(RequestLine("POST", url) + CRLF, "Host: " + host + CRLF, "Content-Type: " + ct + CRLF,
                "Content-Length: " + DecimalString(|body|) + CRLF);
  }

  /** compute_delete_request writes a DELETE message with the plain fields and no body. */
  lemma DeleteLayout(host: string, url: string, cookies: seq<string>, token: string)
    ensures ComputeDeleteRequest(host, url, cookies, token)
         == Message(RequestLine("DELETE", url), PlainFields(host, cookies, token), "")
  {
    StartLines(url, "");
    HostLines(host);
    ConnectionLine();
    HeadLines(RequestLine("DELETE", url), [Field("Host", host)], cookies, token,
              Field("Connection", "keep-alive"));
  }

  /** compute_put_request writes a PUT message with the entity fields and the body. */
  lemma PutLayout(host: string, url: string, ct: string, body: string, cookies: seq<string>, token: string)
    ensures ComputePutRequest(host, url, ct, body, cookies, token)
         == Message(RequestLine("PUT", url), EntityFields(host, ct, body, cookies, token), body)
  {
    StartLines(url, "");
    EntityLines(host, ct, DecimalString(|body|));
    ConnectionLine();
    HeadLines(RequestLine("PUT", url),
              [Field("Host", host), Field("Content-Type", ct), Field("Content-Length", DecimalString(|body|))],
              cookies, token, Field("Connection", "keep-alive"));
    EntityAssoc(RequestLine("PUT", url) + CRLF, "Host: " + host + CRLF, "Content-Type: " + ct + CRLF,
                "Content-Length: " + DecimalString(|body|) + CRLF);
  }

  /** Every serialised request is the message of its start line, fields and body. */
  lemma SerializeLayout(host: string, r: Request)
    ensures Serialize(host, r) == Message(StartLine(r), HeaderFields(host, r), BodyOf(r))
  {
    match r
    case Get(url, query, cookies, token) => GetLayout(host, url, query, cookies, token);
    case Post(url, ct, body, cookies, token) => PostLayout(host, url, ct, body, cookies, token);
    case Delete(url, cookies, token) => DeleteLayout(host, url, cookies, token);
    case Put(url, ct, body, cookies, token) => PutLayout(host, url, ct, body, cookies, token);
  }

  /** A line without CR is found whole by the search for CRLF. */
  lemma FindLineEnd(l: string, rest: string)
    requires NoCR(l)
    ensures Find(l + CRLF + rest, CRLF, 0) == Some(|l|)
  {
    var s := l + CRLF + rest;
    assert s[|l|..|l| + 2] == CRLF;
    forall j: nat | j < |l|
      ensures !OccursAt(s, CRLF, j)
    {
      assert s[j] == l[j];
      NotOccursAt(s, CRLF, j);
    }
    FindIs(s, CRLF, 0, |l|);
  }

  /** Splitting a head written by Lines gives its lines and the body back. */
  lemma {:induction false} SplitHeadOfLines(ls: seq<string>, body: string)
    requires forall i :: 0 <= i < |ls| ==> ls[i] != "" && NoCR(ls[i])
    ensures SplitHead(Lines(ls) + CRLF + body) == Some((ls, body))
  {
    var s := Lines(ls) + CRLF + body;
    if ls == [] {
      FindLineEnd("", body);
      assert s == "" + CRLF + body;
    } else {
      var rest := Lines(ls[1..]) + CRLF + body;
      assert s == ls[0] + CRLF + rest;
      FindLineEnd(ls[0], rest);
      assert s[|ls[0]| + 2..] == rest;
      assert s[..|ls[0]|] == ls[0];
      SplitHeadOfLines(ls[1..], body);
      assert [ls[0]] + ls[1..] == ls;
    }
  }

  /** A field written with a colon-free name reads back as itself. */
  lemma ParseFieldLine(f: Field)
    requires ':' !in f.name
    ensures ParseField(FieldLine(f)) == Some(f)
  {
    var s := FieldLine(f);
    assert s[|f.name|..|f.name| + 2] == ": ";
    forall j: nat | j < |f.name|
      ensures !OccursAt(s, ": ", j)
    {
      assert s[j] == f.name[j];
      NotOccursAt(s, ": ", j);
    }
    FindIs(s, ": ", 0, |f.name|);
    assert s[..|f.name|] == f.name;
    assert s[|f.name| + 2..] == f.value;
  }

  lemma {:induction false} ParseFieldLines(fs: seq<Field>)
    requires AllPlain(fs)
    ensures ParseFields(FieldLines(fs)) == Some(fs)
    ensures forall i :: 0 <= i < |FieldLines(fs)| ==> FieldLines(fs)[i] != "" && NoCR(FieldLines(fs)[i])
  {
    if fs != [] {
      assert fs[0] in fs;
      ParseFieldLine(fs[0]);
      ParseFieldLines(fs[1..]);
      var ls := FieldLines(fs);
      assert ls[1..] == FieldLines(fs[1..]);
      assert [fs[0]] + fs[1..] == fs;
      assert NoCR(FieldLine(fs[0])) by {
        assert FieldLine(fs[0]) == fs[0].name + ": " + fs[0].value;
      }
    }
  }

  /** Reading a message back gives its start line, fields and body
      (RFC 9112 section 2.1), whatever the body holds. */
  lemma MessageRoundTrip(start: string, fields: seq<Field>, body: string)
    requires start != "" && NoCR(start)
    requires AllPlain(fields)
    ensures ParseMessage(Message(start, fields, body)) == Some((start, fields, body))
  {
    ParseFieldLines(fields);
    var ls := [start] + FieldLines(fields);
    SplitHeadOfLines(ls, body);
    assert ls[1..] == FieldLines(fields);
  }

  /** No blank line starts within a line or its CRLF when a non-empty line follows. */
  lemma NoBlankInLine(l: string, t: string, j: nat)
    requires NoCR(l) && j <= |l| + 1
    requires |t| > 0 && t[0] != '\r'
    ensures !OccursAt(l + CRLF + t, HeaderEnd, j)
  {
    var s := l + CRLF + t;
    if j < |l| {
      assert s[j] == l[j];
      NotOccursAt(s, HeaderEnd, j);
    } else if j == |l| {
      assert s[j + 2] == t[0];
      NotOccursAtOffset(s, HeaderEnd, j, 2);
    } else {
      assert s[j] == '\n';
      NotOccursAt(s, HeaderEnd, j);
    }
  }

  /** The blank line right after the last line. */
  lemma BlankAfterLastLine(l: string, body: string)
    requires NoCR(l)
    ensures FirstOccurrence(l + CRLF + CRLF + body, HeaderEnd, 0, |l|)
  {
    var s := l + CRLF + CRLF + body;
    assert s[|l|..|l| + 4] == HeaderEnd;
    forall j: nat | j < |l|
      ensures !OccursAt(s, HeaderEnd, j)
    {
      assert s[j] == l[j];
      NotOccursAt(s, HeaderEnd, j);
    }
  }

  /** A line in front of the rest of a head moves its first blank line along. */
  lemma BlankAfterLine(l: string, t: string, q: nat)
    requires NoCR(l) && |t| > 0 && t[0] != '\r'
    requires FirstOccurrence(t, HeaderEnd, 0, q)
    ensures FirstOccurrence(l + CRLF + t, HeaderEnd, 0, |l| + 2 + q)
  {
    var s := l + CRLF + t;
    OccursShift(l + CRLF, t, HeaderEnd, q);
    forall j: nat | j < |l| + 2 + q
      ensures !OccursAt(s, HeaderEnd, j)
    {
      if j <= |l| + 1 {
        NoBlankInLine(l, t, j);
      } else {
        OccursShift(l + CRLF, t, HeaderEnd, j - |l| - 2);
      }
    }
  }

  /** The first blank line of a head written by Lines is the one after its last line. */
  lemma {:induction false} HeadEndOfLines(ls: seq<string>, body: string)
    requires |ls| > 0
    requires forall i :: 0 <= i < |ls| ==> ls[i] != "" && NoCR(ls[i])
    ensures |Lines(ls)| >= 2
    ensures FirstOccurrence(Lines(ls) + CRLF + body, HeaderEnd, 0, |Lines(ls)| - 2)
  {
    var l := ls[0];
    var rest := Lines(ls[1..]);
    assert Lines(ls) == l + CRLF + rest;
    assert Lines(ls) + CRLF + body == l + CRLF + (rest + CRLF + body);
    if |ls| == 1 {
      assert rest == "";
      assert l + CRLF + (rest + CRLF + body) == l + CRLF + CRLF + body;
      BlankAfterLastLine(l, body);
    } else {
      var t := rest + CRLF + body;
      assert rest == ls[1..][0] + CRLF + Lines(ls[1..][1..]);
      assert t[0] == ls[1][0];
      assert ls[1][0] in ls[1];
      HeadEndOfLines(ls[1..], body);
      BlankAfterLine(l, t, |rest| - 2);
    }
  }

  /** In a message the first "\r\n\r\n" ends the head, and what follows it is the body. */
  lemma MessageHeadEnd(start: string, fields: seq<Field>, body: string)
    requires start != "" && NoCR(start)
    requires AllPlain(fields)
    ensures var head := Lines([start] + FieldLines(fields));
            var m := Message(start, fields, body);
            |head| >= 2 && Find(m, HeaderEnd, 0) == Some(|head| - 2) && m[|head| + 2..] == body
  {
    ParseFieldLines(fields);
    var fl := FieldLines(fields);
    var ls := [start] + fl;
    forall i | 0 <= i < |ls|
      ensures ls[i] != "" && NoCR(ls[i])
    {
      if i > 0 {
        assert ls[i] == fl[i - 1];
      }
    }
    HeadEndOfLines(ls, body);
    var head := Lines(ls);
    var m := Message(start, fields, body);
    assert m == head + CRLF + body;
    FindIs(m, HeaderEnd, 0, |head| - 2);
    assert m[|head| + 2..] == body;
  }

  lemma {:induction false} JoinNoCR(cookies: seq<string>)
    requires forall i :: 0 <= i < |cookies| ==> NoCR(cookies[i])
    ensures NoCR(JoinCookies(cookies))
  {
    if |cookies| > 1 {
      JoinNoCR(cookies[1..]);
    }
  }

  lemma HeadFieldsPlain(fixed: seq<Field>, cookies: seq<string>, token: string)
    requires AllPlain(fixed) && NoCR(token)
    requires forall i :: 0 <= i < |cookies| ==> NoCR(cookies[i])
    ensures AllPlain(fixed + CookieFields(cookies) + AuthorizationFields(token) + [Field("Connection", "keep-alive")])
  {
    var cf, af, kf := CookieFields(cookies), AuthorizationFields(token), [Field("Connection", "keep-alive")];
    CookieFieldsPlain(cookies);
    AuthorizationFieldsPlain(token);
    ConnectionFieldPlain();
    AllPlainAppend(fixed, cf);
    AllPlainAppend(fixed + cf, af);
    AllPlainAppend(fixed + cf + af, kf);
  }

  lemma CookieFieldsPlain(cookies: seq<string>)
    requires forall i :: 0 <= i < |cookies| ==> NoCR(cookies[i])
    ensures AllPlain(CookieFields(cookies))
  {
    if cookies != [] {
      JoinNoCR(cookies);
      assert ':' !in "Cookie" && NoCR("Cookie");
    }
  }

  lemma AuthorizationFieldsPlain(token: string)
    requires NoCR(token)
    ensures AllPlain(AuthorizationFields(token))
  {
    if token != "" {
      assert ':' !in "Authorization" && NoCR("Authorization") && NoCR("Bearer ");
    }
  }

  lemma ConnectionFieldPlain()
    ensures AllPlain([Field("Connection", "keep-alive")])
  {
    assert ':' !in "Connection" && NoCR("Connection") && NoCR("keep-alive");
  }

  lemma AllPlainAppend(a: seq<Field>, b: seq<Field>)
    requires AllPlain(a) && AllPlain(b)
    ensures AllPlain(a + b)
  {
  }

  lemma DigitsNoCR(s: string)
    requires AllDigits(s)
    ensures NoCR(s)
  {
  }

  lemma StartLineSafe(r: Request)
    requires NoCR(r.url) && (r.Get? ==> NoCR(r.query))
    ensures StartLine(r) != "" && NoCR(StartLine(r))
  {
  }

  lemma FixedFieldsPlain(host: string, ct: string, len: string)
    requires NoCR(host) && NoCR(ct) && NoCR(len)
    ensures AllPlain([Field("Host", host)])
    ensures AllPlain([Field("Host", host), Field("Content-Type", ct), Field("Content-Length", len)])
  {
    var f1, f2, f3 := Field("Host", host), Field("Content-Type", ct), Field("Content-Length", len);
    assert PlainField(f1) by {
      assert ':' !in "Host" && NoCR("Host");
    }
    assert PlainField(f2) by {
      assert ':' !in "Content-Type" && NoCR("Content-Type");
    }
    assert PlainField(f3) by {
      assert ':' !in "Content-Length" && NoCR("Content-Length");
    }
    forall f | f in [f1, f2, f3]
      ensures PlainField(f)
    {
    }
  }

  lemma HeaderFieldsPlain(host: string, r: Request)
    requires HeadSafe(host, r)
    ensures AllPlain(HeaderFields(host, r))
  {
    if r.Get? || r.Delete? {
      FixedFieldsPlain(host, "", "");
      HeadFieldsPlain([Field("Host", host)], r.cookies, r.token);
    } else {
      var len := DecimalString(|r.body|);
      DigitsNoCR(len);
      FixedFieldsPlain(host, r.contentType, len);
      HeadFieldsPlain([Field("Host", host), Field("Content-Type", r.contentType), Field("Content-Length", len)],
                      r.cookies, r.token);
    }
  }

  /** Every request the client can build parses back into its start line,
      header fields and body, provided the strings placed in the head hold no CR. */
  lemma SerializeRoundTrip(host: string, r: Request)
    requires HeadSafe(host, r)
    ensures ParseMessage(Serialize(host, r)) == Some((StartLine(r), HeaderFields(host, r), BodyOf(r)))
  {
    SerializeLayout(host, r);
    StartLineSafe(r);
    HeaderFieldsPlain(host, r);
    MessageRoundTrip(StartLine(r), HeaderFields(host, r), BodyOf(r));
  }

  /** Splitting a serialised request at its first "\r\n\r\n" gives back the body verbatim. */
  lemma SerializeBodySplit(host: string, r: Request)
    requires HeadSafe(host, r)
    ensures var s := Serialize(host, r);
            Find(s, HeaderEnd, 0).Some? && s[Find(s, HeaderEnd, 0).value + 4..] == BodyOf(r)
  {
    SerializeLayout(host, r);
    StartLineSafe(r);
    HeaderFieldsPlain(host, r);
    MessageHeadEnd(StartLine(r), HeaderFields(host, r), BodyOf(r));
  }

  function Only(b: bool, v: string): seq<string> {
    if b then [v] else []
  }

  lemma FieldValuesOne(f: Field, name: string)
    ensures FieldValues([f], name) == Only(f.name == name, f.value)
  {
    assert [f][1..] == [];
  }

  /** The values a head carries under `name`: those of the fixed fields, then
      the Cookie, Authorization and Connection fields. */
  lemma HeadFieldValues(fixed: seq<Field>, cookies: seq<string>, token: string, name: string)
    ensures FieldValues(fixed + CookieFields(cookies) + AuthorizationFields(token)
                        + [Field("Connection", "keep-alive")], name)
         == FieldValues(fixed, name)
            + Only(name == "Cookie" && cookies != [], JoinCookies(cookies))
            + Only(name == "Authorization" && token != "", "Bearer " + token)
            + Only(name == "Connection", "keep-alive")
  {
    var c := CookieFields(cookies);
    var z := AuthorizationFields(token);
    var k := [Field("Connection", "keep-alive")];
    FieldValuesAppend(fixed + c + z, k, name);
    FieldValuesAppend(fixed + c, z, name);
    FieldValuesAppend(fixed, c, name);
    FieldValuesOne(Field("Connection", "keep-alive"), name);
    if cookies != [] {
      FieldValuesOne(Field("Cookie", JoinCookies(cookies)), name);
    }
    if token != "" {
      FieldValuesOne(Field("Authorization", "Bearer " + token), name);
    }
  }

  /** The fields of GET and DELETE: Host, Cookie only for a non-empty cookie
      list, Authorization only for a non-empty token, Connection, and nothing
      else (in particular no Content-Length). */
  lemma PlainFieldValues(host: string, cookies: seq<string>, token: string, name: string)
    ensures FieldValues(PlainFields(host, cookies, token), name)
         == Only(name == "Host", host)
            + Only(name == "Cookie" && cookies != [], JoinCookies(cookies))
            + Only(name == "Authorization" && token != "", "Bearer " + token)
            + Only(name == "Connection", "keep-alive")
  {
    HeadFieldValues([Field("Host", host)], cookies, token, name);
    FieldValuesOne(Field("Host", host), name);
  }

  /** The fields of POST and PUT: those of GET with Content-Type and
      Content-Length after Host. */
  lemma EntityFieldValues(host: string, ct: string, body: string, cookies: seq<string>, token: string, name: string)
    ensures FieldValues(EntityFields(host, ct, body, cookies, token), name)
         == Only(name == "Host", host)
            + Only(name == "Content-Type", ct)
            + Only(name == "Content-Length", DecimalString(|body|))
            + Only(name == "Cookie" && cookies != [], JoinCookies(cookies))
            + Only(name == "Authorization" && token != "", "Bearer " + token)
            + Only(name == "Connection", "keep-alive")
  {
    var len := DecimalString(|body|);
    var f1, f2, f3 := Field("Host", host), Field("Content-Type", ct), Field("Content-Length", len);
    HeadFieldValues([f1, f2, f3], cookies, token, name);
    assert [f1, f2, f3] == [f1] + [f2] + [f3];
    FieldValuesAppend([f1] + [f2], [f3], name);
    FieldValuesAppend([f1], [f2], name);
    FieldValuesOne(f1, name);
    FieldValuesOne(f2, name);
    FieldValuesOne(f3, name);
  }

  /** The Content-Length a POST or PUT carries reads back, with `std::stoul`,
      as the length of its body (RFC 9112 section 6.3). */
  lemma ContentLengthReadsBack(host: string, ct: string, body: string, cookies: seq<string>, token: string)
    requires |body| <= ULongMax
    ensures FieldValues(EntityFields(host, ct, body, cookies, token), "Content-Length") == [DecimalString(|body|)]
    ensures Stoul(DecimalString(|body|)) == Some(|body|)
  {
    var len := DecimalString(|body|);
    ContentLengthField(host, ct, len, cookies, token);
    assert EntityFields(host, ct, body, cookies, token)
        == [Field("Host", host), Field("Content-Type", ct), Field("Content-Length", len)]
           + CookieFields(cookies) + AuthorizationFields(token)
           + [Field("Connection", "keep-alive")];
    StoulOfDecimal(|body|);
  }

  /** Among the entity fields, only the Content-Length one is named so,
      whatever its value. */
  lemma ContentLengthField(host: string, ct: string, len: string, cookies: seq<string>, token: string)
    ensures FieldValues([Field("Host", host), Field("Content-Type", ct), Field("Content-Length", len)]
                        + CookieFields(cookies) + AuthorizationFields(token)
                        + [Field("Connection", "keep-alive")], "Content-Length") == [len]
  {
    var f1, f2, f3 := Field("Host", host), Field("Content-Type", ct), Field("Content-Length", len);
    HeadFieldValues([f1, f2, f3], cookies, token, "Content-Length");
    assert [f1, f2, f3] == [f1] + [f2] + [f3];
    FieldValuesAppend([f1] + [f2], [f3], "Content-Length");
    FieldValuesAppend([f1], [f2], "Content-Length");
    FieldValuesOne(f1, "Content-Length");
    FieldValuesOne(f2, "Content-Length");
    FieldValuesOne(f3, "Content-Length");
  }

  /** The cookie value splits back into the cookies, when none holds a ';'
      (a cookie pair never does, RFC 6265 section 4.1.1): so the join puts
      exactly one separator between neighbours and none after the last. */
  lemma {:induction false} SplitJoinCookies(cookies: seq<string>)
    requires |cookies| > 0
    requires forall i :: 0 <= i < |cookies| ==> ';' !in cookies[i]
    ensures SplitCookies(JoinCookies(cookies)) == cookies
  {
    var c := cookies[0];
    if |cookies| == 1 {
      forall j: nat
        ensures !OccursAt(c, "; ", j)
      {
        if j < |c| {
          NotOccursAt(c, "; ", j);
        }
      }
    } else {
      var rest := JoinCookies(cookies[1..]);
      var s := c + "; " + rest;
      assert s[|c|..|c| + 2] == "; ";
      forall j: nat | j < |c|
        ensures !OccursAt(s, "; ", j)
      {
        assert s[j] == c[j];
        NotOccursAt(s, "; ", j);
      }
      FindIs(s, "; ", 0, |c|);
      assert s[..|c|] == c;
      assert s[|c| + 2..] == rest;
      SplitJoinCookies(cookies[1..]);
      assert [c] + cookies[1..] == cookies;
    }
  }

  predicate EndsWith(s: string, suffix: string) {
    |suffix| <= |s| && s[|s| - |suffix|..] == suffix
  }

  lemma PrefixOfAppend(p: string, r: string)
    ensures p <= p + r
  {
    assert (p + r)[..|p|] == p;
  }

  lemma SuffixOfAppend(f: string, e: string)
    ensures EndsWith(f + e, e)
  {
    assert (f + e)[|f|..] == e;
  }

  lemma PrefixTrans(a: string, b: string, c: string)
    requires a <= b && b <= c
    ensures a <= c
  {
    assert c[..|a|] == c[..|b|][..|a|];
  }

  lemma Assoc(a: string, b: string, c: string)
    ensures (a + b) + c == a + (b + c)
  {
  }

  /** A head of the form `start`, optional lines, "Connection: keep-alive"
      and the blank line, with nothing after it. */
  lemma PlainShape(start: string, ch: string, ah: string)
    ensures var keep := "Connection: keep-alive" + CRLF;
            start <= start + ch + ah + keep + CRLF
            && EndsWith(start + ch + ah + keep + CRLF, keep + CRLF)
  {
    var keep := "Connection: keep-alive" + CRLF;
    PrefixOfAppend(start, ch);
    PrefixOfAppend(start + ch, ah);
    PrefixOfAppend(start + ch + ah, keep);
    PrefixOfAppend(start + ch + ah + keep, CRLF);
    PrefixTrans(start, start + ch, start + ch + ah);
    PrefixTrans(start, start + ch + ah, start + ch + ah + keep);
    PrefixTrans(start, start + ch + ah + keep, start + ch + ah + keep + CRLF);
    Assoc(start + ch + ah, keep, CRLF);
    SuffixOfAppend(start + ch + ah, keep + CRLF);
  }

  /** A GET starts with its request line, the query only when there is one,
      then the Host line; it ends with "Connection: keep-alive" and the blank
      line, so it carries no body. */
  lemma GetRequestShape(host: string, url: string, query: string, cookies: seq<string>, token: string)
    ensures var s := ComputeGetRequest(host, url, query, cookies, token);
            && ("GET " + url + (if query != "" then "?" + query else "") + " HTTP/1.1" + CRLF)
               + ("Host: " + host + CRLF) <= s
            && EndsWith(s, ("Connection: keep-alive" + CRLF) + CRLF)
  {
    var line := "GET " + url + (if query != "" then "?" + query else "") + " HTTP/1.1" + CRLF;
    PlainShape(line + ("Host: " + host + CRLF), CookieHeader(cookies), AuthorizationHeader(token));
  }

  /** A DELETE starts with its request line and the Host line and ends with
      "Connection: keep-alive" and the blank line: it carries no body. */
  lemma DeleteRequestShape(host: string, url: string, cookies: seq<string>, token: string)
    ensures var s := ComputeDeleteRequest(host, url, cookies, token);
            && ("DELETE " + url + " HTTP/1.1" + CRLF) + ("Host: " + host + CRLF) <= s
            && EndsWith(s, ("Connection: keep-alive" + CRLF) + CRLF)
  {
    var line := "DELETE " + url + " HTTP/1.1" + CRLF;
    PlainShape(line + ("Host: " + host + CRLF), CookieHeader(cookies), AuthorizationHeader(token));
  }

  lemma EntityRegroup(l1: string, l2: string, l3: string, l4: string, ch: string, ah: string,
                       keep: string, body: string)
    ensures l1 + l2 + l3 + l4 + ch + ah + keep + CRLF + body
         == (l1 + l2 + l3 + l4 + ch + ah) + (keep + CRLF + body)
  {
  }

  /** POST and PUT end with "Connection: keep-alive", the blank line and the
      body verbatim. */
  lemma EntityRequestShape(host: string, url: string, ct: string, body: string, cookies: seq<string>, token: string)
    ensures EndsWith(ComputePostRequest(host, url, ct, body, cookies, token),
                     ("Connection: keep-alive" + CRLF) + CRLF + body)
    ensures EndsWith(ComputePutRequest(host, url, ct, body, cookies, token),
                     ("Connection: keep-alive" + CRLF) + CRLF + body)
  {
    var l2, l3 := "Host: " + host + CRLF, "Content-Type: " + ct + CRLF;
    var l4 := "Content-Length: " + DecimalString(|body|) + CRLF;
    var ch, ah := CookieHeader(cookies), AuthorizationHeader(token);
    var keep := "Connection: keep-alive" + CRLF;
    var post := "POST " + url + " HTTP/1.1" + CRLF;
    var put := "PUT " + url + " HTTP/1.1" + CRLF;
    EntityRegroup(post, l2, l3, l4, ch, ah, keep, body);
    SuffixOfAppend(post + l2 + l3 + l4 + ch + ah, keep + CRLF + body);
    EntityRegroup(put, l2, l3, l4, ch, ah, keep, body);
    SuffixOfAppend(put + l2 + l3 + l4 + ch + ah, keep + CRLF + body);
  }
}
