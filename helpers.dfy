/** The string helpers of helpers.cpp that take replies apart: finding a
    cookie in the `Set-Cookie` headers (RFC 6265 section 4.1), extracting the
    JSON body, and the empty case of the numeric-input check. */
module Helpers {
  import opened Wrappers
  import opened Text

  const SetCookie: string := "Set-Cookie: "
  const ContentLengthName: string := "Content-Length: "
  const LowerContentLengthName: string := "content-length: "
  /** The header name without its colon: what the second search, after a
      lowercase match, looks for. */
  const ContentLengthWord: string := "Content-Length"
  /** The characters that can open a JSON text. */
  const JsonOpeners: string := "{["

  // ---------------------------------------------------------------------------
  // get_cookie_value

  /** Where the cookie that starts at `start` ends: the next ';' anywhere
      after it, or else the next CRLF. */
  function CookieEnd(response: string, start: nat): (r: Option<nat>)
    ensures r.Some? ==> start <= r.value <= |response|
  {
    match Find(response, ";", start)
    case Some(e) => Some(e)
    case None => Find(response, CRLF, start)
  }

  /** The part of `cookie` before its first '=' is `name`. */
  predicate NameIs(cookie: string, name: string) {
    match Find(cookie, "=", 0)
    case None => false
    case Some(k) => cookie[..k] == name
  }

  /** A `Set-Cookie: ` header at `p` whose cookie ends somewhere and is called `name`. */
  predicate MatchAt(response: string, name: string, p: nat) {
    OccursAt(response, SetCookie, p)
    && CookieEnd(response, p + |SetCookie|).Some?
    && NameIs(response[p + |SetCookie|..CookieEnd(response, p + |SetCookie|).value], name)
  }

  /** What the search loop of get_cookie_value returns once it has advanced to
      `from`: the first matching cookie `name=value` at or after `from`, or "". */
  function CookieScan(response: string, name: string, from: nat): string
    decreases |response| - from
  {
    match Find(response, SetCookie, from)
    case None => ""
    case Some(p) =>
      var start := p + |SetCookie|;
      match CookieEnd(response, start)
      case None => CookieScan(response, name, start)
      case Some(e) =>
        if NameIs(response[start..e], name) then response[start..e]
        else CookieScan(response, name, start)
  }

  /** get_cookie_value: the loop advances `start` past every `Set-Cookie: ` it
      finds, so it ends; it returns the first cookie called `name`. */
  method GetCookieValue(response: string, name: string) returns (cookie: string)
    ensures cookie == CookieScan(response, name, 0)
  {
    var start: nat := 0;
    while true
      invariant start <= |response|
      invariant CookieScan(response, name, start) == CookieScan(response, name, 0)
      decreases |response| - start
    {
      var found := Find(response, SetCookie, start);
      if found.None? {
        return "";
      }
      start := found.value + |SetCookie|;
      var endPos := Find(response, ";", start);
      if endPos.None? {
        endPos := Find(response, CRLF, start);
      }
      if endPos.None? {
        continue;
      }
      var full := response[start..endPos.value];
      var eq := Find(full, "=", 0);
      if eq.Some? && full[..eq.value] == name {
        return full;
      }
    }
  }

  /** "Set-Cookie: " has no border: no occurrence starts inside another. */
  lemma SetCookieNoOverlap(s: string, p: nat, q: nat)
    requires OccursAt(s, SetCookie, p) && p < q < p + |SetCookie|
    ensures !OccursAt(s, SetCookie, q)
  {
    assert s[q] == s[p..p + |SetCookie|][q - p] == SetCookie[q - p];
    assert SetCookie[q - p] != SetCookie[0];
    NotOccursAt(s, SetCookie, q);
  }

  /** Between the position a search starts from and the end of the
      `Set-Cookie: ` it finds, no other header starts. */
  lemma NoMatchAround(response: string, name: string, from: nat, q: nat)
    requires Find(response, SetCookie, from) == Some(q)
    ensures forall p: nat :: from <= p < q + |SetCookie| && p != q ==> !MatchAt(response, name, p)
  {
    forall p: nat | from <= p < q + |SetCookie| && p != q
      ensures !OccursAt(response, SetCookie, p)
    {
      if q < p {
        SetCookieNoOverlap(response, q, p);
      }
    }
  }

  /** The result is "" exactly when no `Set-Cookie: ` header at or after
      `from` carries a cookie called `name`. */
  lemma {:induction false} CookieScanEmpty(response: string, name: string, from: nat)
    ensures CookieScan(response, name, from) == "" <==> forall p: nat :: from <= p ==> !MatchAt(response, name, p)
    decreases |response| - from
  {
    var found := Find(response, SetCookie, from);
    if found.Some? {
      var q := found.value;
      var start := q + |SetCookie|;
      CookieScanEmpty(response, name, start);
      NoMatchAround(response, name, from, q);
      if MatchAt(response, name, q) {
        var e := CookieEnd(response, start).value;
        NameIsPrefix(response[start..e], name);
        assert CookieScan(response, name, from) == response[start..e];
      } else {
        assert CookieScan(response, name, from) == CookieScan(response, name, start);
      }
    }
  }

  /** A cookie called `name` starts with `name=`. */
  lemma NameIsPrefix(cookie: string, name: string)
    requires NameIs(cookie, name)
    ensures name + "=" <= cookie
  {
    var k := Find(cookie, "=", 0).value;
    assert cookie[k..k + 1] == "=";
    assert cookie[..k + 1] == cookie[..k] + cookie[k..k + 1];
  }

  /** A cookie runs up to the first ';' after its start, so it holds none. */
  lemma CookieHasNoSemicolon(response: string, start: nat, e: nat)
    requires CookieEnd(response, start) == Some(e)
    ensures ';' !in response[start..e]
  {
    var c := response[start..e];
    forall j | 0 <= j < |c|
      ensures c[j] != ';'
    {
      assert c[j] == response[start + j];
      assert !OccursAt(response, ";", start + j);
      assert response[start + j..start + j + 1] == [response[start + j]];
    }
  }

  /** Everything about a cookie that was found: it is `name=` followed by
      its value, it holds no ';', and it stands right after a
      `Set-Cookie: ` in the response. */
  lemma {:induction false} CookieScanFound(response: string, name: string, from: nat)
    requires CookieScan(response, name, from) != ""
    ensures var c := CookieScan(response, name, from);
            && name + "=" <= c
            && ';' !in c
            && exists p: nat :: from <= p && OccursAt(response, SetCookie + c, p)
    decreases |response| - from
  {
    var q := Find(response, SetCookie, from).value;
    var start := q + |SetCookie|;
    var end := CookieEnd(response, start);
    if end.Some? && NameIs(response[start..end.value], name) {
      var c := response[start..end.value];
      assert CookieScan(response, name, from) == c;
      NameIsPrefix(c, name);
      CookieHasNoSemicolon(response, start, end.value);
      assert response[q..q + |SetCookie|] == SetCookie;
      assert response[q..start + |c|] == SetCookie + c;
      assert OccursAt(response, SetCookie + c, q);
    } else {
      assert CookieScan(response, name, from) == CookieScan(response, name, start);
      CookieScanFound(response, name, start);
    }
  }

  /** A cookie that holds no ';' and is followed by one ends there. */
  lemma CookieEndsAtSemicolon(response: string, start: nat, c: string)
    requires OccursAt(response, c + ";", start) && ';' !in c
    ensures CookieEnd(response, start) == Some(start + |c|)
    ensures response[start..start + |c|] == c
  {
    assert response[start..start + |c| + 1] == c + ";";
    forall j | start <= j < start + |c|
      ensures response[j] != ';'
    {
      assert response[j] == (c + ";")[j - start] == c[j - start];
    }
    assert response[start + |c|] == (c + ";")[|c|];
    FindChar(response, ';', start, start + |c|);
    assert response[start..start + |c|] == (c + ";")[..|c|];
  }

  /** `name=value` is called `name` when the name holds no '='. */
  lemma CookieNamed(name: string, value: string)
    requires '=' !in name
    ensures NameIs(name + "=" + value, name)
  {
    assert name + "=" + value == name + ['='] + value;
    FindCharAfter(name, '=', value, 0);
    assert (name + "=" + value)[..|name|] == name;
  }

  /** The scan stops at the first `Set-Cookie: ` when its cookie ends and
      is called `name`. */
  lemma CookieScanFirst(response: string, name: string, p: nat, start: nat, e: nat)
    requires Find(response, SetCookie, 0) == Some(p) && start == p + |SetCookie|
    requires CookieEnd(response, start) == Some(e)
    requires NameIs(response[start..e], name)
    ensures CookieScan(response, name, 0) == response[start..e]
  {
  }

  /** A response whose first `Set-Cookie: ` header holds `name=value;`:
      the cookie is `name=value`. */
  lemma CookieInFirstHeader(response: string, p: nat, name: string, value: string)
    requires FirstOccurrence(response, SetCookie, 0, p)
    requires OccursAt(response, name + "=" + value + ";", p + |SetCookie|)
    requires '=' !in name && ';' !in name && ';' !in value
    ensures CookieScan(response, name, 0) == name + "=" + value
  {
    var c := name + "=" + value;
    var start := p + |SetCookie|;
    FindIs(response, SetCookie, 0, p);
    CookieEndsAtSemicolon(response, start, c);
    CookieNamed(name, value);
    CookieScanFirst(response, name, p, start, start + |c|);
  }

  /** A cookie that holds no CR, followed by CRLF, with no ';' anywhere
      after its start, ends at that CRLF. */
  lemma CookieEndsAtCrlf(response: string, start: nat, c: string)
    requires OccursAt(response, c + CRLF, start) && '\r' !in c
    requires ';' !in response[start..]
    ensures CookieEnd(response, start) == Some(start + |c|)
    ensures response[start..start + |c|] == c
  {
    assert response[start..start + |c| + 2] == c + CRLF;
    forall j: nat | start <= j
      ensures !OccursAt(response, ";", j)
    {
      if j < |response| {
        assert response[j] == response[start..][j - start];
        NotOccursAt(response, ";", j);
      }
    }
    forall j: nat | start <= j < start + |c|
      ensures !OccursAt(response, CRLF, j)
    {
      assert response[j] == (c + CRLF)[j - start] == c[j - start];
      NotOccursAt(response, CRLF, j);
    }
    assert response[start + |c|..start + |c| + 2] == (c + CRLF)[|c|..];
    FindIs(response, CRLF, start, start + |c|);
    assert response[start..start + |c|] == (c + CRLF)[..|c|];
  }

  /** A response whose first `Set-Cookie: ` header holds `name=value` and
      then ends, with no ';' anywhere after it: the cookie is `name=value`. */
  lemma CookieLastInHeader(response: string, p: nat, name: string, value: string)
    requires FirstOccurrence(response, SetCookie, 0, p)
    requires OccursAt(response, name + "=" + value + CRLF, p + |SetCookie|)
    requires ';' !in response[p + |SetCookie|..]
    requires '=' !in name && '\r' !in name && '\r' !in value
    ensures CookieScan(response, name, 0) == name + "=" + value
  {
    var c := name + "=" + value;
    var start := p + |SetCookie|;
    assert '\r' !in c by {
      assert c == name + ['='] + value;
    }
    FindIs(response, SetCookie, 0, p);
    CookieEndsAtCrlf(response, start, c);
    CookieNamed(name, value);
    CookieScanFirst(response, name, p, start, start + |c|);
  }

  /** A reply that starts with a `Set-Cookie` header holding only
      `name=value`, with no ';' after it: the cookie is `name=value`. */
  lemma CookieLastAtStart(name: string, value: string, rest: string)
    requires '=' !in name && '\r' !in name && '\r' !in value
    requires ';' !in name + "=" + value + CRLF + rest
    ensures CookieScan(SetCookie + (name + "=" + value + CRLF + rest), name, 0) == name + "=" + value
  {
    var tail := name + "=" + value + CRLF + rest;
    var response := SetCookie + tail;
    assert response[..|SetCookie|] == SetCookie;
    assert FirstOccurrence(response, SetCookie, 0, 0);
    assert response[|SetCookie|..] == tail;
    assert tail[..|name + "=" + value + CRLF|] == name + "=" + value + CRLF;
    CookieLastInHeader(response, 0, name, value);
  }

  /** The documented example: a reply whose first `Set-Cookie` header is
      `Set-Cookie: session=XYZ; Path=/` yields `session=XYZ`, whatever follows. */
  lemma SessionCookieExample(rest: string)
    ensures CookieScan(SetCookie + "session=XYZ;" + rest, "session", 0) == "session=XYZ"
  {
    var response := SetCookie + "session=XYZ;" + rest;
    assert response[..|SetCookie|] == SetCookie;
    assert FirstOccurrence(response, SetCookie, 0, 0);
    assert response[|SetCookie|..|SetCookie| + 12] == "session" + "=" + "XYZ" + ";";
    CookieInFirstHeader(response, 0, "session", "XYZ");
  }

  // ---------------------------------------------------------------------------
  // extract_json_body

  /** `s.substr(pos, count)`. A negative `count` is what the source passes when
      an `int` or a `size_t` difference goes below zero; as a `size_t` it is
      huge, and the substring runs to the end. */
  function Substr(s: string, pos: nat, count: int): string
    requires pos <= |s|
  {
    if count < 0 || pos + count > |s| then s[pos..] else s[pos..pos + count]
  }

  /** `substr` gives `count` characters from `pos`, or all the rest when
      fewer remain or the count is negative. */
  lemma SubstrIs(s: string, pos: nat, count: int)
    requires pos <= |s|
    ensures var r := Substr(s, pos, count);
            && pos + |r| <= |s| && r == s[pos..pos + |r|]
            && (0 <= count && pos + count <= |s| ==> |r| == count)
            && ((count < 0 || pos + count > |s|) ==> |r| == |s| - pos)
  {
  }

  /** The fallback: the text from the first '{' or '[' at or after the body
      start, or the whole body when there is none. */
  function JsonFallback(response: string, bodyStart: nat): string
    requires bodyStart <= |response|
  {
    match FindFirstOf(response, JsonOpeners, bodyStart)
    case Some(j) => response[j..]
    case None => response[bodyStart..]
  }

  /** The fallback is a suffix of the response: from the first '{' or '['
      after the body start when there is one, else the whole body. */
  lemma JsonFallbackSuffix(response: string, bodyStart: nat)
    requires bodyStart <= |response|
    ensures var r := JsonFallback(response, bodyStart);
            && bodyStart <= |response| - |r| && r == response[|response| - |r|..]
            && ((exists j :: bodyStart <= j < |response| && response[j] in JsonOpeners)
                ==> |r| > 0 && r[0] in JsonOpeners
                    && forall j :: bodyStart <= j < |response| - |r| ==> response[j] !in JsonOpeners)
            && ((forall j :: bodyStart <= j < |response| ==> response[j] !in JsonOpeners)
                ==> r == response[bodyStart..])
  {
  }

  /** Where the Content-Length header is taken to start: the exact spelling,
      or else, when a lower-cased copy of the response has one, the next
      "Content-Length" (14 characters, no colon) from that position. */
  function ContentLengthPos(response: string): (r: Option<nat>)
    ensures r.Some? ==> OccursAt(response, ContentLengthWord, r.value)
  {
    match Find(response, ContentLengthName, 0)
    case Some(q) =>
      assert response[q..q + 14] == response[q..q + 16][..14] == ContentLengthName[..14] == ContentLengthWord;
      Some(q)
    case None =>
      match Find(ToLower(response), LowerContentLengthName, 0)
      case None => None
      case Some(lq) => Find(response, ContentLengthWord, lq)
  }

  /** extract_json_body. When the response has no Content-Length in any
      spelling the source returns the fallback at once; the later fallback
      computes the same string, so both paths meet here. `std::stoi`
      throwing on a malformed or out-of-range length ends the process. The
      guard `body_start + length <= response.length()` is evaluated in
      `size_t`, so a negative length passes it only when the sum stays at
      or above zero. */
  function ExtractJsonBody(response: string): (r: Result<string>)
    ensures Find(response, HeaderEnd, 0).None? ==> r == Ok("")
  {
    match Find(response, HeaderEnd, 0)
    case None => Ok("")
    case Some(h) => BodyAfterHead(response, h + 4)
  }

  /** extract_json_body once the body start is known: a Content-Length
      found before the body start decides, otherwise the fallback. */
  function BodyAfterHead(response: string, bodyStart: nat): Result<string>
    requires bodyStart <= |response|
  {
    match ContentLengthPos(response)
    case Some(q) =>
      if q < bodyStart then DeclaredAt(response, bodyStart, q + |ContentLengthName|)
      else Ok(JsonFallback(response, bodyStart))
    case None => Ok(JsonFallback(response, bodyStart))
  }

  /** The Content-Length value starting at `vs`: read up to the next CRLF
      with `std::stoi`; without a CRLF the fallback. */
  function DeclaredAt(response: string, bodyStart: nat, vs: nat): Result<string>
    requires bodyStart <= |response|
  {
    match Find(response, CRLF, vs)
    case Some(e) =>
      (match Stoi(response[vs..e])
       case None => Abort
       case Some(length) => DeclaredBody(response, bodyStart, length))
    case None => Ok(JsonFallback(response, bodyStart))
  }

  /** Where the first '{' or '[' lies in the first ten bytes of the body, if anywhere. */
  function JsonOffset(response: string, bodyStart: nat): (r: Option<nat>)
    ensures r.Some? ==> r.value < 10 && bodyStart + r.value < |response|
                        && response[bodyStart + r.value] in JsonOpeners
                        && forall j :: bodyStart <= j < bodyStart + r.value ==> response[j] !in JsonOpeners
    ensures r.None? ==> forall j :: bodyStart <= j < |response| && j < bodyStart + 10 ==> response[j] !in JsonOpeners
  {
    match FindFirstOf(response, JsonOpeners, bodyStart)
    case Some(j) => if j < bodyStart + 10 then Some(j - bodyStart) else None
    case None => None
  }

  /** Digits followed by CRLF: the CRLF search from their start stops
      right after them. */
  lemma NumeralLine(response: string, vs: nat, d: string)
    requires AllDigits(d)
    requires OccursAt(response, d + CRLF, vs)
    ensures Find(response, CRLF, vs) == Some(vs + |d|)
    ensures response[vs..vs + |d|] == d
  {
    assert response[vs..vs + |d| + 2] == d + CRLF;
    forall j: nat | vs <= j < vs + |d|
      ensures !OccursAt(response, CRLF, j)
    {
      assert response[j] == (d + CRLF)[j - vs] == d[j - vs];
      assert IsDigit(d[j - vs]);
      NotOccursAt(response, CRLF, j);
    }
    assert response[vs + |d|..vs + |d| + 2] == (d + CRLF)[|d|..] == CRLF;
    FindIs(response, CRLF, vs, vs + |d|);
    assert response[vs..vs + |d|] == response[vs..vs + |d| + 2][..|d|] == (d + CRLF)[..|d|] == d;
  }

  /** An exact `Content-Length: ` is the one used. */
  lemma ContentLengthAt(response: string, q: nat)
    requires Find(response, ContentLengthName, 0) == Some(q)
    ensures ContentLengthPos(response) == Some(q)
  {
  }

  /** Digits followed by CRLF at `vs` read back, with `std::stoi`, as the
      number they denote. */
  lemma NumeralValue(response: string, vs: nat, d: string)
    requires d != [] && AllDigits(d) && DecimalValue(d) <= IntMax
    requires OccursAt(response, d + CRLF, vs)
    ensures Find(response, CRLF, vs) == Some(vs + |d|)
    ensures Stoi(response[vs..vs + |d|]) == Some(DecimalValue(d))
  {
    NumeralLine(response, vs, d);
    StoiOfDigits(d);
  }

  /** With a Content-Length found before the body whose value line reads,
      with `std::stoi`, as `length`, and the whole declared body present, the
      result is the declared body, trimmed at the front to its first '{' or
      '[' when one lies in its first ten bytes. When that opener lies past
      the declared length the count goes negative and the rest of the
      response is returned. */
  lemma DeclaredLengthBody(response: string, h: nat, q: nat, e: nat, length: nat)
    requires Find(response, HeaderEnd, 0) == Some(h)
    requires Find(response, ContentLengthName, 0) == Some(q) && q < h + 4
    requires Find(response, CRLF, q + |ContentLengthName|) == Some(e)
    requires Stoi(response[q + |ContentLengthName|..e]) == Some(length)
    requires h + 4 + length <= |response|
    ensures ExtractJsonBody(response) == Ok(DeclaredValue(response, h + 4, length))
  {
    DeclaredPath(response, h, q, e, length);
    DeclaredBodyValue(response, h + 4, length);
  }

  /** The path through extract_json_body when the length is declared. */
  lemma DeclaredPath(response: string, h: nat, q: nat, e: nat, length: nat)
    requires Find(response, HeaderEnd, 0) == Some(h)
    requires Find(response, ContentLengthName, 0) == Some(q) && q < h + 4
    requires Find(response, CRLF, q + |ContentLengthName|) == Some(e)
    requires Stoi(response[q + |ContentLengthName|..e]) == Some(length)
    requires h + 4 + length <= |response|
    ensures ExtractJsonBody(response) == DeclaredBody(response, h + 4, length)
  {
    HeadDeclares(response, h, q);
    DeclaredValueAt(response, h + 4, q + |ContentLengthName|, e, length);
  }

  /** A Content-Length in the head sends extract_json_body to its value line. */
  lemma HeadDeclares(response: string, h: nat, q: nat)
    requires Find(response, HeaderEnd, 0) == Some(h)
    requires Find(response, ContentLengthName, 0) == Some(q) && q < h + 4
    requires h + 4 <= |response|
    ensures ExtractJsonBody(response) == DeclaredAt(response, h + 4, q + |ContentLengthName|)
  {
    BodyStartsAfterHead(response, h);
    ContentLengthInHead(response, h + 4, q);
  }

  /** The declared body of `length` bytes at `bodyStart`, trimmed at the
      front to its first '{' or '[' when one lies in its first ten bytes;
      when that opener lies past the declared length, the rest of the
      response. */
  function DeclaredValue(response: string, bodyStart: nat, length: nat): string
    requires bodyStart + length <= |response|
  {
    match JsonOffset(response, bodyStart)
    case None => response[bodyStart..bodyStart + length]
    case Some(k) =>
      if k <= length then response[bodyStart + k..bodyStart + length]
      else response[bodyStart + k..]
  }

  /** Once the head ends at `h`, the body starts four characters later. */
  lemma BodyStartsAfterHead(response: string, h: nat)
    requires Find(response, HeaderEnd, 0) == Some(h)
    ensures ExtractJsonBody(response) == BodyAfterHead(response, h + 4)
  {
  }

  /** An exact `Content-Length: ` found before the body start is the one read. */
  lemma ContentLengthInHead(response: string, bodyStart: nat, q: nat)
    requires bodyStart <= |response|
    requires Find(response, ContentLengthName, 0) == Some(q) && q < bodyStart
    ensures BodyAfterHead(response, bodyStart) == DeclaredAt(response, bodyStart, q + |ContentLengthName|)
  {
  }

  /** A value line reading as `length` selects the declared body. */
  lemma DeclaredValueAt(response: string, bodyStart: nat, vs: nat, e: nat, length: int)
    requires bodyStart <= |response|
    requires Find(response, CRLF, vs) == Some(e)
    requires Stoi(response[vs..e]) == Some(length)
    ensures DeclaredAt(response, bodyStart, vs) == DeclaredBody(response, bodyStart, length)
  {
  }

  lemma DeclaredBodyValue(response: string, bodyStart: nat, length: nat)
    requires bodyStart + length <= |response|
    ensures DeclaredBody(response, bodyStart, length) == Ok(DeclaredValue(response, bodyStart, length))
  {
  }

  /** The declared-length branch of extract_json_body. */
  function DeclaredBody(response: string, bodyStart: nat, length: int): (r: Result<string>)
    requires bodyStart <= |response|
    ensures r.Ok? && |r.value| <= |response| - bodyStart
  {
    if 0 <= bodyStart + length <= |response| then
      (match FindFirstOf(response, JsonOpeners, bodyStart)
       case Some(j) =>
         if j < bodyStart + 10 then Ok(Substr(response, j, length - (j - bodyStart)))
         else Ok(Substr(response, bodyStart, length))
       case None => Ok(Substr(response, bodyStart, length)))
    else Ok(JsonFallback(response, bodyStart))
  }

  lemma NoContentLengthPos(response: string)
    requires forall j: nat :: !OccursAt(ToLower(response), LowerContentLengthName, j)
    ensures ContentLengthPos(response).None?
  {
    assert ToLower(ContentLengthName) == LowerContentLengthName;
    forall j: nat
      ensures !OccursAt(response, ContentLengthName, j)
    {
      LowerKeepsOccurrence(response, ContentLengthName, j);
    }
  }

  /** Without any Content-Length, in either spelling, the result is the fallback. */
  lemma NoContentLengthBody(response: string, h: nat)
    requires FirstOccurrence(response, HeaderEnd, 0, h)
    requires forall j: nat :: !OccursAt(ToLower(response), LowerContentLengthName, j)
    ensures ExtractJsonBody(response) == Ok(JsonFallback(response, h + 4))
  {
    FindIs(response, HeaderEnd, 0, h);
    NoContentLengthPos(response);
  }

  /** A Content-Length found only at or after the body start is not used:
      the result is the fallback. */
  lemma LateContentLengthBody(response: string, h: nat, q: nat)
    requires Find(response, HeaderEnd, 0) == Some(h)
    requires ContentLengthPos(response) == Some(q) && h + 4 <= q
    ensures ExtractJsonBody(response) == Ok(JsonFallback(response, h + 4))
  {
    BodyStartsAfterHead(response, h);
  }

  /** The branch for a value line without a CRLF is never taken: a header
      name found before the body start lies inside the head, so a CRLF (at
      the latest the second half of the blank line) follows its value. */
  lemma ValueLineEnds(response: string, h: nat, q: nat)
    requires Find(response, HeaderEnd, 0) == Some(h)
    requires ContentLengthPos(response) == Some(q) && q < h + 4
    ensures Find(response, CRLF, q + |ContentLengthName|).Some?
  {
    NameHasNoLineBreak(response, q);
    BlankLineChars(response, h);
    assert q + |ContentLengthWord| <= h;
    assert OccursAt(response, CRLF, h + 2) by {
      assert response[h + 2..h + 4] == [response[h + 2], response[h + 3]];
    }
  }

  /** The header name, wherever it occurs, holds no CR or LF. */
  lemma NameHasNoLineBreak(response: string, q: nat)
    requires OccursAt(response, ContentLengthWord, q)
    ensures forall k :: q <= k < q + |ContentLengthWord| ==> response[k] != '\r' && response[k] != '\n'
  {
    forall k | q <= k < q + |ContentLengthWord|
      ensures response[k] != '\r' && response[k] != '\n'
    {
      assert response[k] == response[q..q + |ContentLengthWord|][k - q] == ContentLengthWord[k - q];
    }
  }

  /** The characters of a blank line. */
  lemma BlankLineChars(response: string, h: nat)
    requires OccursAt(response, HeaderEnd, h)
    ensures response[h] == '\r' && response[h + 1] == '\n' && response[h + 2] == '\r' && response[h + 3] == '\n'
  {
    assert response[h..h + 4] == HeaderEnd;
    assert response[h] == HeaderEnd[0] && response[h + 1] == HeaderEnd[1];
    assert response[h + 2] == HeaderEnd[2] && response[h + 3] == HeaderEnd[3];
  }

  /** A Content-Length before the body whose value `std::stoi` reads as a
      length that overruns the response (or, through the `size_t` sum,
      reaches below its start) gives the fallback. */
  lemma OverrunContentLengthBody(response: string, h: nat, q: nat, e: nat, length: int)
    requires Find(response, HeaderEnd, 0) == Some(h)
    requires ContentLengthPos(response) == Some(q) && q < h + 4
    requires Find(response, CRLF, q + |ContentLengthName|) == Some(e)
    requires Stoi(response[q + |ContentLengthName|..e]) == Some(length)
    requires h + 4 + length > |response| || h + 4 + length < 0
    ensures ExtractJsonBody(response) == Ok(JsonFallback(response, h + 4))
  {
    BodyStartsAfterHead(response, h);
    assert BodyAfterHead(response, h + 4) == DeclaredAt(response, h + 4, q + |ContentLengthName|);
    DeclaredValueAt(response, h + 4, q + |ContentLengthName|, e, length);
  }

  /** A value line `std::stoi` cannot read ends the process. */
  lemma MalformedContentLengthAborts(response: string, h: nat, q: nat, e: nat)
    requires Find(response, HeaderEnd, 0) == Some(h)
    requires ContentLengthPos(response) == Some(q) && q < h + 4
    requires Find(response, CRLF, q + |ContentLengthName|) == Some(e)
    requires Stoi(response[q + |ContentLengthName|..e]).None?
    ensures ExtractJsonBody(response).Abort?
  {
    BodyStartsAfterHead(response, h);
    assert BodyAfterHead(response, h + 4) == DeclaredAt(response, h + 4, q + |ContentLengthName|);
  }

  /** A response whose header is spelled only in another case, such as
      `content-length: `, has no "Content-Length" for the second search to
      find, so its declared length is ignored and the result is the fallback. */
  lemma LowercaseOnlyBody(response: string, h: nat)
    requires Find(response, HeaderEnd, 0) == Some(h)
    requires Find(response, ContentLengthWord, 0).None?
    ensures ContentLengthPos(response).None?
    ensures ExtractJsonBody(response) == Ok(JsonFallback(response, h + 4))
  {
    BodyStartsAfterHead(response, h);
  }

  // ---------------------------------------------------------------------------
  // is_number

  /** A line typed at a numeric prompt, with what `strtod` makes of it: true
      when it consumed every character. Floating-point parsing is not part of
      this model; the caller supplies that answer. */
  datatype NumericInput = NumericInput(text: string, strtodWhole: bool)

  /** is_number: the empty line is never a number; otherwise `strtod` decides. */
  function IsNumber(input: NumericInput): (r: bool)
    ensures input.text == "" ==> !r
    ensures r ==> input.strtodWhole
  {
    if input.text == "" then false else input.strtodWhole
  }
}
