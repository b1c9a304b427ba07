/** One request/reply exchange over an open connection (send_request_get_reply
    in http_requests.cpp). The socket is replaced by two scripts: the values
    successive `write` calls return and the outcomes of successive `read`
    calls. A write script that runs out behaves as a write of zero bytes and
    a read script that runs out behaves as end of stream. */
module Transport {
  import opened Wrappers
  import opened Text
  import opened Http
  import Helpers

  /** What one `read` on the socket gives: some bytes (none at end of
      stream) or a failure (a negative return). */
  datatype ReadResult = Data(bytes: string) | Failure

  /** What the exchange leaves behind: how many request bytes reached the
      socket and the framed reply. */
  datatype Transfer = Transfer(sent: nat, response: HttpResponse)

  /** The state in which the header loop stops: everything read so far, the
      index of the next read and where the blank line was found, if it was. */
  datatype Head = Head(buf: string, next: nat, headerEnd: Option<nat>)

  function Min(a: int, b: int): int {
    if a <= b then a else b
  }

  /** What the `k`-th write returns; the write loop clamps it to the bytes
      it asked for. */
  function WriteAt(writes: seq<int>, k: nat): int {
    if k < |writes| then writes[k] else 0
  }

  /** The `i`-th read. */
  function ReadAt(incoming: seq<ReadResult>, i: nat): ReadResult {
    if i < |incoming| then incoming[i] else Data("")
  }

  // ---------------------------------------------------------------------------
  // The write loop
  // ---------------------------------------------------------------------------

  /** The do/while write loop, from `sent` bytes already written and write
      number `k` on: a negative write ends the process, a zero write stops
      the loop, and the loop also stops once every byte is out. */
  function Delivered(total: nat, sent: nat, writes: seq<int>, k: nat): (r: Result<nat>)
    requires sent <= total
    ensures r.Ok? ==> sent <= r.value <= total
    decreases |writes| - k
  {
    var w := WriteAt(writes, k);
    if w < 0 then Abort
    else
      var b := Min(w, total - sent);
      if b == 0 then Ok(sent)
      else if sent + b < total then Delivered(total, sent + b, writes, k + 1)
      else Ok(sent + b)
  }

  /** When every write from `k` on moves at least one byte and there are
      enough of them, the whole request goes out. */
  lemma {:induction false} DeliveredAll(total: nat, sent: nat, writes: seq<int>, k: nat)
    requires sent <= total
    requires forall j :: k <= j < |writes| ==> writes[j] > 0
    requires k + (total - sent) <= |writes|
    ensures Delivered(total, sent, writes, k) == Ok(total)
    decreases |writes| - k
  {
    if sent < total {
      assert WriteAt(writes, k) > 0;
      var b := Min(writes[k], total - sent);
      if sent + b < total {
        DeliveredAll(total, sent + b, writes, k + 1);
      }
    }
  }

  /** The process ends in the write loop only when some write failed, and
      it always ends when the first write fails. */
  lemma {:induction false} DeliveredAbort(total: nat, sent: nat, writes: seq<int>, k: nat)
    requires sent <= total
    ensures Delivered(total, sent, writes, k).Abort? ==> exists j :: k <= j < |writes| && writes[j] < 0
    ensures k < |writes| && writes[k] < 0 ==> Delivered(total, sent, writes, k).Abort?
    decreases |writes| - k
  {
    var w := WriteAt(writes, k);
    if w >= 0 {
      var b := Min(w, total - sent);
      if b != 0 && sent + b < total {
        DeliveredAbort(total, sent + b, writes, k + 1);
      }
    }
  }

  /** A zero-byte write stops the loop with what was written so far. */
  lemma DeliveredStopsAtZero(total: nat, sent: nat, writes: seq<int>, k: nat)
    requires sent <= total && k < |writes| && writes[k] == 0
    ensures Delivered(total, sent, writes, k) == Ok(sent)
  {
  }

  // ---------------------------------------------------------------------------
  // The header loop
  // ---------------------------------------------------------------------------

  /** The bytes that incoming `i` to `j - 1` delivered, in order. */
  function Chunks(incoming: seq<ReadResult>, i: nat, j: nat): string
    decreases j - i
  {
    if j <= i then ""
    else
      var last := ReadAt(incoming, j - 1);
      Chunks(incoming, i, j - 1) + (if last.Data? then last.bytes else "")
  }

  /** The header loop: read, append, and look for the blank line in the
      whole buffer after every read; stop at end of stream or once the blank
      line is there. A failed read ends the process. */
  function ReadHead(buf: string, incoming: seq<ReadResult>, i: nat): (r: Result<Head>)
    ensures r.Ok? ==> i < r.value.next
    ensures r.Ok? && r.value.headerEnd.Some? ==> r.value.headerEnd.value + 4 <= |r.value.buf|
    decreases |incoming| - i
  {
    match ReadAt(incoming, i)
    case Failure => Abort
    case Data(bytes) =>
      if bytes == "" then Ok(Head(buf, i + 1, None))
      else
        var grown := buf + bytes;
        match Find(grown, HeaderEnd, 0)
        case Some(h) => Ok(Head(grown, i + 1, Some(h)))
        case None => ReadHead(grown, incoming, i + 1)
  }

  /** The buffer the header loop ends with is what it started with followed
      by every chunk it read, in order. */
  lemma {:induction false} ReadHeadChunks(buf: string, incoming: seq<ReadResult>, i: nat)
    requires ReadHead(buf, incoming, i).Ok?
    ensures ReadHead(buf, incoming, i).value.buf == buf + Chunks(incoming, i, ReadHead(buf, incoming, i).value.next)
    decreases |incoming| - i
  {
    var rd := ReadAt(incoming, i);
    if rd.Data? && rd.bytes != "" && Find(buf + rd.bytes, HeaderEnd, 0).None? {
      ReadHeadChunks(buf + rd.bytes, incoming, i + 1);
      HeadStep(buf, incoming, i, rd.bytes);
    } else {
      HeadStops(buf, incoming, i);
    }
  }

  /** Where the header loop stops, its buffer ends with the last chunk read. */
  lemma HeadStops(buf: string, incoming: seq<ReadResult>, i: nat)
    requires ReadHead(buf, incoming, i).Ok?
    requires !(ReadAt(incoming, i).Data? && ReadAt(incoming, i).bytes != ""
               && Find(buf + ReadAt(incoming, i).bytes, HeaderEnd, 0).None?)
    ensures ReadHead(buf, incoming, i).value.buf == buf + Chunks(incoming, i, ReadHead(buf, incoming, i).value.next)
  {
    ChunksOne(incoming, i);
    assert buf + "" == buf;
  }

  /** One turn of the header loop without a blank line appends one chunk. */
  lemma HeadStep(buf: string, incoming: seq<ReadResult>, i: nat, bytes: string)
    requires ReadAt(incoming, i) == Data(bytes) && bytes != "" && Find(buf + bytes, HeaderEnd, 0).None?
    requires ReadHead(buf + bytes, incoming, i + 1).Ok?
    requires ReadHead(buf + bytes, incoming, i + 1).value.buf
             == buf + bytes + Chunks(incoming, i + 1, ReadHead(buf + bytes, incoming, i + 1).value.next)
    ensures ReadHead(buf, incoming, i) == ReadHead(buf + bytes, incoming, i + 1)
    ensures ReadHead(buf, incoming, i).value.buf == buf + Chunks(incoming, i, ReadHead(buf, incoming, i).value.next)
  {
    var next := ReadHead(buf + bytes, incoming, i + 1).value.next;
    ChunksFront(incoming, i, next, bytes);
    assert buf + bytes + Chunks(incoming, i + 1, next) == buf + (bytes + Chunks(incoming, i + 1, next));
  }

  lemma ChunksOne(incoming: seq<ReadResult>, i: nat)
    ensures Chunks(incoming, i, i + 1) == (if ReadAt(incoming, i).Data? then ReadAt(incoming, i).bytes else "")
  {
    assert Chunks(incoming, i, i) == "";
  }

  /** Chunks over adjacent ranges concatenate. */
  lemma {:induction false} ChunksSplit(incoming: seq<ReadResult>, i: nat, m: nat, j: nat)
    requires i <= m <= j
    ensures Chunks(incoming, i, j) == Chunks(incoming, i, m) + Chunks(incoming, m, j)
    decreases j - m
  {
    if m == j {
      assert Chunks(incoming, m, j) == "";
    } else {
      ChunksSplit(incoming, i, m, j - 1);
    }
  }

  /** Starting from a buffer without a blank line, the header loop reports
      exactly the first blank line of the buffer it ends with, or none. */
  lemma {:induction false} ReadHeadFindsFirst(buf: string, incoming: seq<ReadResult>, i: nat)
    requires Find(buf, HeaderEnd, 0).None?
    requires ReadHead(buf, incoming, i).Ok?
    ensures ReadHead(buf, incoming, i).value.headerEnd == Find(ReadHead(buf, incoming, i).value.buf, HeaderEnd, 0)
    decreases |incoming| - i
  {
    var bytes := ReadAt(incoming, i).bytes;
    if bytes != "" && Find(buf + bytes, HeaderEnd, 0).None? {
      ReadHeadFindsFirst(buf + bytes, incoming, i + 1);
    }
  }

  /** The header loop stops at the first chunk after which the buffer holds
      a blank line, or at end of stream: no buffer it had before its last
      read held one, and when it stops without one its last read returned
      no bytes. */
  lemma {:induction false} ReadHeadStops(buf: string, incoming: seq<ReadResult>, i: nat)
    requires Find(buf, HeaderEnd, 0).None?
    requires ReadHead(buf, incoming, i).Ok?
    ensures var hd := ReadHead(buf, incoming, i).value;
            && (forall m :: i <= m < hd.next ==> Find(buf + Chunks(incoming, i, m), HeaderEnd, 0).None?)
            && (hd.headerEnd.None? ==> ReadAt(incoming, hd.next - 1) == Data(""))
    decreases |incoming| - i
  {
    var rd := ReadAt(incoming, i);
    assert buf + Chunks(incoming, i, i) == buf;
    if rd.Data? && rd.bytes != "" && Find(buf + rd.bytes, HeaderEnd, 0).None? {
      ReadHeadStops(buf + rd.bytes, incoming, i + 1);
      HeadStopsStep(buf, incoming, i, i + 1, rd.bytes, ReadHead(buf, incoming, i).value.next);
    }
  }

  /** One turn of the header loop without a blank line: the buffers seen
      from the next read on are this one's buffer followed by the chunk. */
  lemma HeadStopsStep(buf: string, incoming: seq<ReadResult>, i: nat, i1: nat, bytes: string, next: nat)
    requires i1 == i + 1 && ReadAt(incoming, i) == Data(bytes)
    requires forall m :: i1 <= m < next ==> Find(buf + bytes + Chunks(incoming, i1, m), HeaderEnd, 0).None?
    ensures forall m :: i < m < next ==> Find(buf + Chunks(incoming, i, m), HeaderEnd, 0).None?
  {
    forall m | i < m < next
      ensures Find(buf + Chunks(incoming, i, m), HeaderEnd, 0).None?
    {
      ChunksFront(incoming, i, m, bytes);
      assert buf + Chunks(incoming, i, m) == buf + bytes + Chunks(incoming, i1, m);
    }
  }

  // ---------------------------------------------------------------------------
  // The Content-Length the body loop waits for
  // ---------------------------------------------------------------------------

  /** Where the header loop takes the Content-Length header to start: in the
      head (the buffer up to the blank line), in its exact spelling or else
      in any spelling, in which case the 16 characters found there are looked
      up again in the whole buffer. */
  function ContentLengthStart(buf: string, h: nat): (r: Option<nat>)
    requires h <= |buf|
    ensures r.Some? ==> r.value + |Helpers.ContentLengthName| <= |buf|
  {
    var head := buf[..h];
    match Find(head, Helpers.ContentLengthName, 0)
    case Some(p) => Some(p)
    case None =>
      match Find(ToLower(head), Helpers.LowerContentLengthName, 0)
      case None => None
      case Some(lp) =>
        assert OccursAt(buf, head[lp..lp + 16], lp) by {
          assert OccursAt(ToLower(head), Helpers.LowerContentLengthName, lp);
          assert |Helpers.LowerContentLengthName| == 16;
          assert |ToLower(head)| == |head| == h;
          assert lp + 16 <= h;
          assert buf[lp..lp + 16] == buf[..h][lp..lp + 16];
        }
        Find(buf, head[lp..lp + 16], 0)
  }

  /** The length the body loop waits for: the number after the header name,
      up to the next CRLF inside the head; 0 when there is no such header or
      no CRLF after it in the head. `std::stoul` throwing ends the process. */
  function ContentLength(buf: string, h: nat): (r: Result<nat>)
    requires h <= |buf|
    ensures r.Ok? ==> r.value <= ULongMax
  {
    var head := buf[..h];
    match ContentLengthStart(buf, h)
    case None => Ok(0)
    case Some(p) =>
      match Find(head, CRLF, p + |Helpers.ContentLengthName|)
      case None => Ok(0)
      case Some(e) =>
        match Stoul(head[p + |Helpers.ContentLengthName|..e])
        case None => Abort
        case Some(n) => Ok(n)
  }

  /** A Content-Length header whose value line ends inside the head is read
      as the number written there. */
  lemma DeclaredContentLength(buf: string, h: nat, p: nat, n: nat)
    requires h <= |buf| && n <= ULongMax
    requires FirstOccurrence(buf[..h], Helpers.ContentLengthName, 0, p)
    requires OccursAt(buf[..h], DecimalString(n) + CRLF, p + |Helpers.ContentLengthName|)
    ensures ContentLength(buf, h) == Ok(n)
  {
    ContentLengthStartExact(buf, h, p);
    ValueLine(buf[..h], p + |Helpers.ContentLengthName|, n);
  }

  /** The value after the header name reads back as the number written. */
  lemma ValueLine(head: string, vs: nat, n: nat)
    requires n <= ULongMax
    requires OccursAt(head, DecimalString(n) + CRLF, vs)
    ensures Find(head, CRLF, vs).Some?
    ensures Stoul(head[vs..Find(head, CRLF, vs).value]) == Some(n)
  {
    Helpers.NumeralLine(head, vs, DecimalString(n));
    StoulOfNumeral(n, "");
    assert DecimalString(n) + "" == DecimalString(n);
  }

  lemma ContentLengthStartExact(buf: string, h: nat, p: nat)
    requires h <= |buf|
    requires FirstOccurrence(buf[..h], Helpers.ContentLengthName, 0, p)
    ensures ContentLengthStart(buf, h) == Some(p)
  {
    FindIs(buf[..h], Helpers.ContentLengthName, 0, p);
  }

  /** With no exact `Content-Length: ` in the head, a header in another
      case is used at its own position: the 16 characters taken from the
      head there occur nowhere earlier in the buffer, since an earlier
      occurrence would lie in the head and lower-case to the header name. */
  lemma ContentLengthStartLower(buf: string, h: nat, lp: nat)
    requires h <= |buf|
    requires Find(buf[..h], Helpers.ContentLengthName, 0).None?
    requires Find(ToLower(buf[..h]), Helpers.LowerContentLengthName, 0) == Some(lp)
    ensures ContentLengthStart(buf, h) == Some(lp)
  {
    var head := buf[..h];
    LowerMatchSpan(head, lp);
    var pat := head[lp..lp + 16];
    assert buf[lp..lp + 16] == pat;
    NoEarlierCopy(buf, h, lp, pat);
    FindIs(buf, pat, 0, lp);
  }

  /** The lowercase match spans 16 characters of the head that lower-case
      to the header name. */
  lemma LowerMatchSpan(head: string, lp: nat)
    requires Find(ToLower(head), Helpers.LowerContentLengthName, 0) == Some(lp)
    ensures lp + 16 <= |head| && ToLower(head[lp..lp + 16]) == Helpers.LowerContentLengthName
  {
    assert OccursAt(ToLower(head), Helpers.LowerContentLengthName, lp);
    assert |ToLower(head)| == |head|;
    assert ToLower(head[lp..lp + 16]) == ToLower(head)[lp..lp + 16];
  }

  /** Text that lower-cases to the header name occurs nowhere in the buffer
      before the first lowercase match in the head. */
  lemma NoEarlierCopy(buf: string, h: nat, lp: nat, pat: string)
    requires h <= |buf| && lp + 16 <= h && |pat| == 16
    requires Find(ToLower(buf[..h]), Helpers.LowerContentLengthName, 0) == Some(lp)
    requires ToLower(pat) == Helpers.LowerContentLengthName
    ensures forall j: nat :: j < lp ==> !OccursAt(buf, pat, j)
  {
    var head := buf[..h];
    forall j: nat | j < lp
      ensures !OccursAt(buf, pat, j)
    {
      OccursInPrefix(buf, h, pat, j);
      LowerKeepsOccurrence(head, pat, j);
    }
  }

  /** When the Content-Length header is the last line of the head, no CRLF
      follows its value before the blank line, so the body loop waits for
      nothing, whatever length the header declares. */
  lemma LastHeaderLengthIgnored(buf: string, h: nat, p: nat)
    requires h <= |buf|
    requires FirstOccurrence(buf[..h], Helpers.ContentLengthName, 0, p)
    requires forall j :: p + |Helpers.ContentLengthName| <= j < h ==> buf[j] != '\r'
    ensures ContentLength(buf, h) == Ok(0)
  {
    var head := buf[..h];
    ContentLengthStartExact(buf, h, p);
    forall j: nat | p + 16 <= j
      ensures !OccursAt(head, CRLF, j)
    {
      if j < h {
        assert head[j] == buf[j];
        NotOccursAt(head, CRLF, j);
      }
    }
  }

  // ---------------------------------------------------------------------------
  // The body loop
  // ---------------------------------------------------------------------------

  /** The body loop: while fewer body bytes than declared have arrived,
      read and append; stop at end of stream. A failed read ends the
      process. */
  function ReadBody(buf: string, incoming: seq<ReadResult>, i: nat, current: nat, length: nat): (r: Result<string>)
    ensures r.Ok? ==> |buf| <= |r.value|
    decreases |incoming| - i
  {
    if current >= length then Ok(buf)
    else
      match ReadAt(incoming, i)
      case Failure => Abort
      case Data(bytes) =>
        if bytes == "" then Ok(buf)
        else ReadBody(buf + bytes, incoming, i + 1, current + |bytes|, length)
  }

  /** The body loop appends whole chunks, in order, and stops short of the
      declared length only at end of stream: the read after the last chunk
      it took returned no bytes. */
  lemma {:induction false} ReadBodyChunks(buf: string, incoming: seq<ReadResult>, i: nat, current: nat, length: nat)
      returns (j: nat)
    requires ReadBody(buf, incoming, i, current, length).Ok?
    ensures i <= j
    ensures ReadBody(buf, incoming, i, current, length).value == buf + Chunks(incoming, i, j)
    ensures current + |Chunks(incoming, i, j)| < length ==> ReadAt(incoming, j) == Data("")
    ensures j > i ==> current + |Chunks(incoming, i, j - 1)| < length
    decreases |incoming| - i
  {
    var rd := ReadAt(incoming, i);
    if current < length && rd.Data? && rd.bytes != "" {
      j := ReadBodyChunks(buf + rd.bytes, incoming, i + 1, current + |rd.bytes|, length);
      BodyStep(buf, incoming, i, current, length, rd.bytes, j);
      BodyShortBefore(incoming, i, j, current, length, rd.bytes);
    } else {
      j := i;
      BodyStops(buf, incoming, i, current, length);
    }
  }

  /** Where the body loop stops, it has read no further chunk. */
  lemma BodyStops(buf: string, incoming: seq<ReadResult>, i: nat, current: nat, length: nat)
    requires ReadBody(buf, incoming, i, current, length).Ok?
    requires !(current < length && ReadAt(incoming, i).Data? && ReadAt(incoming, i).bytes != "")
    ensures ReadBody(buf, incoming, i, current, length).value == buf + Chunks(incoming, i, i)
    ensures current + |Chunks(incoming, i, i)| < length ==> ReadAt(incoming, i) == Data("")
  {
    assert Chunks(incoming, i, i) == "";
    assert buf + "" == buf;
  }

  /** One turn of the body loop appends one chunk. */
  lemma BodyStep(buf: string, incoming: seq<ReadResult>, i: nat, current: nat, length: nat, bytes: string, j: nat)
    requires current < length && ReadAt(incoming, i) == Data(bytes) && bytes != ""
    requires i + 1 <= j
    requires ReadBody(buf + bytes, incoming, i + 1, current + |bytes|, length).Ok?
    requires ReadBody(buf + bytes, incoming, i + 1, current + |bytes|, length).value == buf + bytes + Chunks(incoming, i + 1, j)
    requires current + |bytes| + |Chunks(incoming, i + 1, j)| < length ==> ReadAt(incoming, j) == Data("")
    ensures ReadBody(buf, incoming, i, current, length).Ok?
    ensures ReadBody(buf, incoming, i, current, length).value == buf + Chunks(incoming, i, j)
    ensures current + |Chunks(incoming, i, j)| < length ==> ReadAt(incoming, j) == Data("")
  {
    ChunksFront(incoming, i, j, bytes);
    assert buf + bytes + Chunks(incoming, i + 1, j) == buf + (bytes + Chunks(incoming, i + 1, j));
  }

  /** The body loop took its last chunk while still short of the length. */
  lemma BodyShortBefore(incoming: seq<ReadResult>, i: nat, j: nat, current: nat, length: nat, bytes: string)
    requires current < length && ReadAt(incoming, i) == Data(bytes) && i + 1 <= j
    requires j > i + 1 ==> current + |bytes| + |Chunks(incoming, i + 1, j - 1)| < length
    ensures current + |Chunks(incoming, i, j - 1)| < length
  {
    if j > i + 1 {
      ChunksFront(incoming, i, j - 1, bytes);
    } else {
      assert Chunks(incoming, i, j - 1) == "";
    }
  }

  /** The chunks from `i` on start with chunk `i`. */
  lemma ChunksFront(incoming: seq<ReadResult>, i: nat, j: nat, bytes: string)
    requires i < j && ReadAt(incoming, i) == Data(bytes)
    ensures Chunks(incoming, i, j) == bytes + Chunks(incoming, i + 1, j)
  {
    ChunksOne(incoming, i);
    ChunksSplit(incoming, i, i + 1, j);
  }

  /** Reads that keep delivering bytes until the declared length is reached
      fill the body completely. */
  lemma {:induction false} ReadBodyComplete(buf: string, incoming: seq<ReadResult>, i: nat, current: nat, length: nat)
    requires forall j :: i <= j < |incoming| ==> incoming[j].Data? && incoming[j].bytes != ""
    requires current + |Chunks(incoming, i, |incoming|)| >= length
    ensures ReadBody(buf, incoming, i, current, length).Ok?
    ensures current + |ReadBody(buf, incoming, i, current, length).value| - |buf| >= length
    decreases |incoming| - i
  {
    if current < length {
      if i < |incoming| {
        var bytes := incoming[i].bytes;
        ChunksOne(incoming, i);
        ChunksSplit(incoming, i, i + 1, |incoming|);
        ReadBodyComplete(buf + bytes, incoming, i + 1, current + |bytes|, length);
      }
    }
  }

  // ---------------------------------------------------------------------------
  // The status code and the split into head and body
  // ---------------------------------------------------------------------------

  /** The status code: the text between the first two spaces, read with
      `std::stoi`; 0 when either space is missing or `std::stoi` throws
      (the exception is caught here). */
  function StatusCode(full: string): (r: int)
    ensures IntMin <= r <= IntMax
  {
    match Find(full, " ", 0)
    case None => 0
    case Some(f) =>
      match Find(full, " ", f + 1)
      case None => 0
      case Some(s) =>
        match Stoi(full[f + 1..s])
        case None => 0
        case Some(c) => c
  }

  /** A status line "<version> <code> <reason>" whose version holds no space
      yields its code. */
  lemma StatusCodeOfStatusLine(version: string, code: nat, rest: string)
    requires ' ' !in version && code <= IntMax
    ensures StatusCode(version + " " + DecimalString(code) + " " + rest) == code
  {
    var d := DecimalString(code);
    DigitsHaveNoSpace(d);
    StoiOfNumeral(code, "");
    assert d + "" == d;
    StatusCodeBetween(version, d, rest, code);
  }

  /** Without any space the status code stays 0. */
  lemma StatusCodeNoSpace(full: string)
    requires Find(full, " ", 0).None?
    ensures StatusCode(full) == 0
  {
  }

  /** Without a second space the status code stays 0. */
  lemma StatusCodeNoSecondSpace(full: string, f: nat)
    requires Find(full, " ", 0) == Some(f) && Find(full, " ", f + 1).None?
    ensures StatusCode(full) == 0
  {
  }

  /** When `std::stoi` throws on the text between the first two spaces, the
      exception is caught and the status code stays 0. */
  lemma StatusCodeNotNumeric(full: string, f: nat, s: nat)
    requires Find(full, " ", 0) == Some(f) && Find(full, " ", f + 1) == Some(s)
    requires Stoi(full[f + 1..s]).None?
    ensures StatusCode(full) == 0
  {
  }

  /** A reply whose status does not parse is framed with status 0, so every
      handler treats it as an error. */
  lemma UnparsedReplyIsError(full: string, headerEnd: Option<nat>)
    requires headerEnd.Some? ==> headerEnd.value <= |full|
    requires Frame(full, headerEnd).Ok? && StatusCode(full) == 0
    ensures Frame(full, headerEnd).value.statusCode == 0
    ensures Frame(full, headerEnd).value.IsError()
  {
    IsErrorExactly(Frame(full, headerEnd).value);
  }

  lemma DigitsHaveNoSpace(d: string)
    requires AllDigits(d)
    ensures ' ' !in d
  {
  }

  /** A status line "<version> <code> <reason>" yields whatever `std::stoi`
      reads from its code. */
  lemma StatusCodeBetween(version: string, d: string, rest: string, c: int)
    requires ' ' !in version && ' ' !in d
    requires Stoi(d) == Some(c)
    ensures StatusCode(version + " " + d + " " + rest) == c
  {
    var full := version + " " + d + " " + rest;
    FirstSpace(version, d, rest);
    SecondSpace(version, d, rest);
    CodeBetweenSpaces(version, d, rest);
    StatusCodeAt(full, |version|, |version| + 1 + |d|, d, c);
  }

  /** The code read between two found spaces is the status code. */
  lemma StatusCodeAt(full: string, f: nat, s: nat, code: string, c: int)
    requires Find(full, " ", 0) == Some(f)
    requires Find(full, " ", f + 1) == Some(s)
    requires f + 1 <= s <= |full| && full[f + 1..s] == code
    requires Stoi(code) == Some(c)
    ensures StatusCode(full) == c
  {
  }

  /** The first space of a status line ends the version. */
  lemma FirstSpace(version: string, d: string, rest: string)
    requires ' ' !in version
    ensures Find(version + " " + d + " " + rest, " ", 0) == Some(|version|)
  {
    assert version + " " + d + " " + rest == version + [' '] + (d + " " + rest);
    FindCharAfter(version, ' ', d + " " + rest, 0);
  }

  /** The second space ends the code. */
  lemma SecondSpace(version: string, d: string, rest: string)
    requires ' ' !in d
    ensures Find(version + " " + d + " " + rest, " ", |version| + 1) == Some(|version| + 1 + |d|)
  {
    var front := version + " " + d;
    assert version + " " + d + " " + rest == front + [' '] + rest;
    assert forall j :: |version| + 1 <= j < |front| ==> front[j] == d[j - |version| - 1];
    FindCharAfter(front, ' ', rest, |version| + 1);
  }

  lemma CodeBetweenSpaces(version: string, d: string, rest: string)
    ensures (version + " " + d + " " + rest)[|version| + 1..|version| + 1 + |d|] == d
  {
  }

  /** Fill in the response from the final buffer: the head is everything
      before the blank line and the body is what extract_json_body takes
      out; without a blank line the whole buffer is the body. */
  function Frame(full: string, headerEnd: Option<nat>): (r: Result<HttpResponse>)
    requires headerEnd.Some? ==> headerEnd.value <= |full|
    ensures r.Ok? ==> r.value.fullResponse == full && r.value.statusCode == StatusCode(full)
  {
    match headerEnd
    case None => Ok(HttpResponse(StatusCode(full), "", full, full))
    case Some(h) =>
      match Helpers.ExtractJsonBody(full)
      case Abort => Abort
      case Ok(body) => Ok(HttpResponse(StatusCode(full), full[..h], body, full))
  }

  // ---------------------------------------------------------------------------
  // The whole exchange
  // ---------------------------------------------------------------------------

  /** What the two read loops leave: the whole buffer and where its head
      ends, if a blank line arrived. */
  datatype Received = Received(full: string, headerEnd: Option<nat>)

  /** The header loop, then, once a blank line has arrived, the body loop
      waiting for the declared length. */
  function Receive(incoming: seq<ReadResult>): (r: Result<Received>)
    ensures r.Ok? && r.value.headerEnd.Some? ==> r.value.headerEnd.value + 4 <= |r.value.full|
  {
    match ReadHead("", incoming, 0)
    case Abort => Abort
    case Ok(hd) =>
      match DeclaredLength(hd)
      case Abort => Abort
      case Ok(length) => AfterHead(hd, length, incoming)
  }

  /** The length the header loop leaves for the body loop: 0 until a blank
      line has arrived. */
  function DeclaredLength(hd: Head): Result<nat>
    requires hd.headerEnd.Some? ==> hd.headerEnd.value <= |hd.buf|
  {
    match hd.headerEnd
    case None => Ok(0)
    case Some(h) => ContentLength(hd.buf, h)
  }

  /** What happens once the header loop has stopped with the declared length. */
  function AfterHead(hd: Head, length: nat, incoming: seq<ReadResult>): (r: Result<Received>)
    requires hd.headerEnd.Some? ==> hd.headerEnd.value + 4 <= |hd.buf|
    ensures r.Ok? && r.value.headerEnd.Some? ==> r.value.headerEnd.value + 4 <= |r.value.full|
  {
    match hd.headerEnd
    case None => Ok(Received(hd.buf, None))
    case Some(h) =>
      match ReadBody(hd.buf, incoming, hd.next, |hd.buf| - (h + 4), length)
      case Abort => Abort
      case Ok(full) => Ok(Received(full, Some(h)))
  }

  /** send_request_get_reply, as a function of the two scripts. */
  function Exchange(request: string, writes: seq<int>, incoming: seq<ReadResult>): Result<Transfer> {
    match Delivered(|request|, 0, writes, 0)
    case Abort => Abort
    case Ok(sent) =>
      match Receive(incoming)
      case Abort => Abort
      case Ok(rc) =>
        match Frame(rc.full, rc.headerEnd)
        case Abort => Abort
        case Ok(response) => Ok(Transfer(sent, response))
  }

  /** The write loop. */
  method WriteAll(request: string, writes: seq<int>) returns (r: Result<nat>)
    ensures r == Delivered(|request|, 0, writes, 0)
  {
    var total := |request|;
    var sent: nat := 0;
    var k := 0;
    while true
      invariant sent <= total
      invariant Delivered(total, sent, writes, k) == Delivered(total, 0, writes, 0)
      decreases |writes| - k
    {
      var bytes := WriteAt(writes, k);
      if bytes < 0 {
        return Abort;
      }
      bytes := Min(bytes, total - sent);
      if bytes == 0 {
        break;
      }
      sent := sent + bytes;
      k := k + 1;
      if sent >= total {
        break;
      }
    }
    return Ok(sent);
  }

  /** The header loop, which also reads the declared length once the blank
      line is in. */
  method ReadHeaders(incoming: seq<ReadResult>) returns (r: Result<Head>, contentLength: Result<nat>)
    ensures r == ReadHead("", incoming, 0)
    ensures r.Ok? ==> contentLength == DeclaredLength(r.value)
  {
    var buf := "";
    var i := 0;
    while true
      invariant ReadHead(buf, incoming, i) == ReadHead("", incoming, 0)
      decreases |incoming| - i
    {
      var rd := ReadAt(incoming, i);
      i := i + 1;
      if rd.Failure? {
        return Abort, Ok(0);
      }
      if rd.bytes == "" {
        return Ok(Head(buf, i, None)), Ok(0);
      }
      buf := buf + rd.bytes;
      var headerEnd := Find(buf, HeaderEnd, 0);
      if headerEnd.Some? {
        contentLength := ContentLength(buf, headerEnd.value);
        return Ok(Head(buf, i, headerEnd)), contentLength;
      }
    }
  }

  /** The body loop: read until `current` body bytes reach `length` or the
      stream ends. */
  method ReadBodyBytes(buf: string, incoming: seq<ReadResult>, i: nat, current: nat, length: nat)
      returns (r: Result<string>)
    ensures r == ReadBody(buf, incoming, i, current, length)
  {
    var out := buf;
    var next := i;
    var have: nat := current;
    while have < length
      invariant ReadBody(out, incoming, next, have, length) == ReadBody(buf, incoming, i, current, length)
      decreases |incoming| - next
    {
      var rd := ReadAt(incoming, next);
      next := next + 1;
      if rd.Failure? {
        return Abort;
      }
      if rd.bytes == "" {
        break;
      }
      out := out + rd.bytes;
      have := have + |rd.bytes|;
    }
    return Ok(out);
  }

  /** Both read loops. */
  method ReceiveReply(incoming: seq<ReadResult>) returns (r: Result<Received>)
    ensures r == Receive(incoming)
  {
    var head, contentLength := ReadHeaders(incoming);
    if head.Abort? || contentLength.Abort? {
      return Abort;
    }
    r := FinishReply(head.value, contentLength.value, incoming);
  }

  /** The body loop, when the header loop found a blank line. */
  method FinishReply(hd: Head, contentLength: nat, incoming: seq<ReadResult>) returns (r: Result<Received>)
    requires hd.headerEnd.Some? ==> hd.headerEnd.value + 4 <= |hd.buf|
    ensures r == AfterHead(hd, contentLength, incoming)
  {
    if hd.headerEnd.None? {
      return Ok(Received(hd.buf, None));
    }
    var h := hd.headerEnd.value;
    var body := ReadBodyBytes(hd.buf, incoming, hd.next, |hd.buf| - (h + 4), contentLength);
    if body.Abort? {
      return Abort;
    }
    return Ok(Received(body.value, Some(h)));
  }

  /** Send the request, then read the head and as much of the body as the
      Content-Length asks for, and frame what arrived. */
  method SendRequestGetReply(request: string, writes: seq<int>, incoming: seq<ReadResult>) returns (r: Result<Transfer>)
    ensures r == Exchange(request, writes, incoming)
  {
    var sent := WriteAll(request, writes);
    if sent.Abort? {
      return Abort;
    }
    var received := ReceiveReply(incoming);
    if received.Abort? {
      return Abort;
    }
    var framed := Frame(received.value.full, received.value.headerEnd);
    if framed.Abort? {
      return Abort;
    }
    return Ok(Transfer(sent.value, framed.value));
  }

  /** The reply buffer is the chunks read, in order, and the head ends at
      its first blank line. */
  lemma ReceiveChunks(incoming: seq<ReadResult>) returns (j: nat)
    requires Receive(incoming).Ok?
    ensures Receive(incoming).value.full == Chunks(incoming, 0, j)
    ensures Receive(incoming).value.headerEnd == Find(Receive(incoming).value.full, HeaderEnd, 0)
  {
    var hd := ReadHead("", incoming, 0).value;
    ReadHeadChunks("", incoming, 0);
    ReadHeadFindsFirst("", incoming, 0);
    assert "" + Chunks(incoming, 0, hd.next) == Chunks(incoming, 0, hd.next);
    j := AfterHeadChunks(hd, DeclaredLength(hd).value, incoming);
  }

  /** The body loop only appends chunks, so the first blank line stays where
      the header loop found it. */
  lemma AfterHeadChunks(hd: Head, length: nat, incoming: seq<ReadResult>) returns (j: nat)
    requires hd.headerEnd.Some? ==> hd.headerEnd.value + 4 <= |hd.buf|
    requires AfterHead(hd, length, incoming).Ok?
    requires hd.buf == Chunks(incoming, 0, hd.next)
    requires hd.headerEnd == Find(hd.buf, HeaderEnd, 0)
    ensures AfterHead(hd, length, incoming).value.full == Chunks(incoming, 0, j)
    ensures AfterHead(hd, length, incoming).value.headerEnd == Find(AfterHead(hd, length, incoming).value.full, HeaderEnd, 0)
  {
    j := hd.next;
    if hd.headerEnd.Some? {
      var h := hd.headerEnd.value;
      j := BodyKeepsHead(hd.buf, incoming, hd.next, |hd.buf| - (h + 4), length);
    }
  }

  /** A buffer of whole chunks that holds a blank line grows, in the body
      loop, into a buffer of whole chunks whose first blank line is the same. */
  lemma BodyKeepsHead(buf: string, incoming: seq<ReadResult>, next: nat, current: nat, length: nat) returns (j: nat)
    requires buf == Chunks(incoming, 0, next) && Find(buf, HeaderEnd, 0).Some?
    requires ReadBody(buf, incoming, next, current, length).Ok?
    ensures ReadBody(buf, incoming, next, current, length).value == Chunks(incoming, 0, j)
    ensures Find(ReadBody(buf, incoming, next, current, length).value, HeaderEnd, 0) == Find(buf, HeaderEnd, 0)
  {
    j := ReadBodyChunks(buf, incoming, next, current, length);
    ChunksSplit(incoming, 0, next, j);
    FindExtends(buf, Chunks(incoming, next, j), HeaderEnd, 0);
  }

  /** What the caller gets back: at most the whole request went out; the
      full response is the chunks read, in order; the head is the text
      before its first blank line and the body is what extract_json_body
      takes from the full response, or, without a blank line, the body is
      the full response and the head is empty. */
  lemma ExchangeFrames(request: string, writes: seq<int>, incoming: seq<ReadResult>)
    requires Exchange(request, writes, incoming).Ok?
    ensures var t := Exchange(request, writes, incoming).value;
            && t.sent <= |request|
            && (exists j :: t.response.fullResponse == Chunks(incoming, 0, j))
            && t.response.statusCode == StatusCode(t.response.fullResponse)
            && match Find(t.response.fullResponse, HeaderEnd, 0)
               case None => t.response.headers == "" && t.response.body == t.response.fullResponse
               case Some(h) =>
                 && t.response.headers == t.response.fullResponse[..h]
                 && Helpers.ExtractJsonBody(t.response.fullResponse) == Ok(t.response.body)
  {
    var j := ReceiveChunks(incoming);
  }
}
