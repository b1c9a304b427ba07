# HTTP client for a movie library service — Dafny model

The system is a command-line HTTP/1.1 client for a REST movie-library
service. An administrator logs in and manages users. A user logs in, obtains
a JWT for the library, and then lists, adds, updates and deletes movies and
collections of movies. The client keeps a small session between commands:
two session cookies, the library token, the admin name, and the ids of the
movies and collections it created, so that the user can refer to them by
1-based position. It writes its requests by hand (`compute_*_request`), reads
replies over a raw socket (`send_request_get_reply`), and takes the cookie
and the JSON body out of the reply text with string searches
(`get_cookie_value`, `extract_json_body`).

The model is split into the following modules:

- `Wrappers` (wrappers.dfy): `Option`, plus `Result`, whose `Abort` stands
  for the process ending. This covers `error()`, and an uncaught `std::stoi`
  or `std::stoul` exception.
- `Text` (text.dfy): the pieces of `std::string` and `<string>` the client
  relies on:
  - `find`, `find_first_of` and a lowercase copy;
  - `std::to_string`;
  - `std::stoi` and `std::stoul`, with their exceptions.
- `Http` (http.dfy): `HttpResponse` and `is_error`.
- `Requests` (requests.dfy):
  - the four request serialisers, written as the source appends them;
  - the HTTP/1.1 message layout they produce (RFC 9112 sections 2.1 and 3), with a parser that reads it back;
  - the `Cookie` join of RFC 6265 section 5.4;
  - `Authorization: Bearer` (RFC 6750 section 2.1);
  - `Content-Length` (RFC 9112 section 6.3).
- `Helpers` (helpers.dfy):
  - `get_cookie_value` as a method with its search loop;
  - `extract_json_body` as a function;
  - `is_number`, whose `strtod` part is an input.
- `Transport` (transport.dfy): `send_request_get_reply`. It is made of:
  - a write loop over a script of `write` results;
  - a header read loop and a body read loop over a script of `read` results;
  - the `Content-Length` lookup;
  - the status-line parse and the head/body split.

  Each loop is a method proved equal to a recursive specification function, and the lemmas are stated about those functions.
- `Client` (client.dfy):
  - `validate_credentials`;
  - a `Session` class holding the six global variables of client.cpp;
  - one method per `handle_*` command.

  A handler takes:
  - the lines typed at its prompts;
  - the reply the server gives;
  - where the source reads a value out of the reply's JSON (a new id, a token), that value.

  It returns the requests it sends and an `Outcome`. Every state-changing handler keeps the invariant `Session.Valid`: each cookie held is empty or a `session=...` string without `;`, as `get_cookie_value` hands it over, and an admin cookie is only held together with a valid admin name.

Several behaviours of the source are modelled as written and stated as
lemmas:

- `delete_movie` erases position `id-1` and then names the movie now at that
  position, which is the one after it (`Client.ErasedThenIndexed`).
- A `Content-Length` that is the last line of the head reads as 0, because
  its value line has no CRLF inside the head (`Transport.LastHeaderLengthIgnored`).
- `extract_json_body` looks the header up again in its exact case
  ("Content-Length") after a case-insensitive match. A reply whose header
  is spelled only in another case, such as `content-length: `, therefore
  gets the fallback body rather than the declared length
  (`Helpers.LowercaseOnlyBody`). The header loop of
  `send_request_get_reply` does use such a header, at its own position
  (`Transport.ContentLengthStartLower`).
- The branch of `extract_json_body` for a value line without a CRLF is
  never taken. A header found before the body start lies inside the head,
  so the blank line supplies a CRLF after its value (`Helpers.ValueLineEnds`).
- `get_movie`, `delete_movie`, `update_movie` and `add_collection` check only
  the upper bound of a typed position. A position of 0 or less indexes the
  vector out of range, which the model reports as `Outcome.Undefined`.

## Model

| member | source | states |
|---|---|---|
| Text.Find | client.cpp:37 | `find` gives the first occurrence at or after the start, and None only when there is none |
| Text.FindCharIn | client.cpp:37 | a search for a single character succeeds exactly when the character occurs in the string |
| Text.FindFirstOf | helpers.cpp:61 | `find_first_of` gives the first position holding one of the characters, and None when no such position exists |
| Text.LowerKeepsOccurrence | helpers.cpp:55-58 | an occurrence found in the original string is still found in the lowercase copy |
| Text.DecimalRoundTrip | client.cpp:303-304 | the digits `to_string` writes read back as the same number |
| Text.IntToStringRoundTrip | client.cpp:303-304 | `to_string(i)` followed by a non-digit reads back as `i` |
| Text.IntToStringInjective | client.cpp:303-304 | two ints have the same decimal text exactly when they are equal |
| Text.DigitRunOfNumeral | http_requests.cpp:123 | the digit run of a numeral followed by a non-digit is the whole numeral |
| Text.StoiOfNumeral | http_requests.cpp:123 | `std::stoi` reads back what `to_string` wrote, for every non-negative `int` |
| Text.StoulOfNumeral | http_requests.cpp:90 | `std::stoul` reads back what `to_string` wrote, for every `unsigned long` |
| Text.Stoi | helpers.cpp:74 | `std::stoi` succeeds exactly when `strtol` reads an integer that fits a 32-bit `int`, and then gives that integer |
| Text.Stoul | http_requests.cpp:90 | `std::stoul` succeeds exactly when `strtol` reads an integer of magnitude at most 2^64-1, and then gives a value below 2^64 congruent to it modulo 2^64 |
| Text.StoiOfDigits | helpers.cpp:74 | `std::stoi` reads a run of digits as the number it denotes, when that fits an `int` |
| Text.NumberedIdentifies | client.cpp:303-304 | text written around `to_string(i)`, with no digit after it, tells `i` apart from every other int |
| Http.DefaultResponse | http_requests.h:9-13 | a fresh response has status 0 and empty text, and is an error |
| Http.IsErrorExactly | http_requests.h:15-17 | a response is an error exactly when its status is outside [200, 300); 0, 1xx and 3xx are errors |
| Requests.GetRequestShape | http_requests.cpp:146-164 | a GET starts with its request line, with `?query` only for a non-empty query, then the Host line, and ends with `Connection: keep-alive` and the blank line |
| Requests.DeleteRequestShape | http_requests.cpp:195-214 | a DELETE starts with its request line and Host line and ends with `Connection: keep-alive` and the blank line |
| Requests.EntityRequestShape | http_requests.cpp:167-242 | a POST or PUT ends with `Connection: keep-alive`, the blank line and the body verbatim |
| Requests.SerializeLayout | http_requests.cpp:141-242 | each serialiser writes the HTTP/1.1 layout: request line, header fields, blank line, body |
| Requests.GetLayout | http_requests.cpp:141-165 | `compute_get_request` is the message layout of its request line and plain fields |
| Requests.PostLayout | http_requests.cpp:167-193 | `compute_post_request` is the message layout of its request line, entity fields and body |
| Requests.DeleteLayout | http_requests.cpp:195-214 | `compute_delete_request` is the message layout of its request line and plain fields |
| Requests.PutLayout | http_requests.cpp:216-242 | `compute_put_request` is the message layout of its request line, entity fields and body |
| Requests.PlainFieldValues | http_requests.cpp:151-162 | a GET or DELETE carries Host, a Cookie field exactly when there are cookies, an Authorization field exactly when the token is non-empty, Connection, and nothing else |
| Requests.EntityFieldValues | http_requests.cpp:176-189 | a POST or PUT carries in addition Content-Type and a Content-Length equal to the body's length |
| Requests.ContentLengthReadsBack | http_requests.cpp:178 | the Content-Length of a POST or PUT reads back with `stoul` as the length of its body |
| Requests.SplitJoinCookies | http_requests.cpp:152-158 | the Cookie value is the cookies joined by "; " with no trailing separator; splitting it at "; " gives the list back |
| Requests.MessageRoundTrip | http_requests.cpp:141-242 | parsing a message with CR/LF-free head fields gives back its start line, fields and body |
| Requests.SerializeRoundTrip | http_requests.cpp:141-242 | every serialised request parses back into its request line, header fields and body |
| Requests.SerializeBodySplit | http_requests.cpp:162-192 | splitting a serialised request at its first blank line gives back the body verbatim (empty for GET and DELETE) |
| Requests.MessageHeadEnd | http_requests.cpp:163 | the first "\r\n\r\n" of a message is the one that ends its head |
| Helpers.GetCookieValue | helpers.cpp:20-42 | the search loop returns the first `Set-Cookie` cookie whose name matches, or "" |
| Helpers.CookieScanEmpty | helpers.cpp:24-41 | the result is "" exactly when no `Set-Cookie: ` header carries a cookie with that name |
| Helpers.CookieScanFound | helpers.cpp:26-37 | a non-empty result starts with `name=`, contains no `;`, and follows a `Set-Cookie: ` in the response |
| Helpers.CookieInFirstHeader | helpers.cpp:20-37 | when the first `Set-Cookie: ` of the response is followed by `name=value;`, with no `=` in the name and no `;` in the value, the result is `name=value` |
| Helpers.CookieLastInHeader | helpers.cpp:26-37 | when the first `Set-Cookie: ` is followed by `name=value` and CRLF, with no `;` anywhere after it, the cookie ends at the CRLF and the result is `name=value` |
| Helpers.CookieLastAtStart | helpers.cpp:26-37 | a reply that starts with `Set-Cookie: name=value` and CRLF, with no `;` after it, gives `name=value` |
| Helpers.SessionCookieExample | helpers.cpp:20-37 | `Set-Cookie: session=XYZ;...` gives `session=XYZ` |
| Helpers.SubstrIs | helpers.cpp:79-81 | `substr` gives `count` characters, or the rest of the string when fewer remain |
| Helpers.JsonFallbackSuffix | helpers.cpp:86-93 | the fallback body is the suffix from the first `{` or `[` after the head, or the whole suffix when there is none |
| Helpers.ExtractJsonBody | helpers.cpp:45-48 | a response without "\r\n\r\n" gives "" |
| Helpers.JsonOffset | helpers.cpp:77-78 | the offset is that of the first `{` or `[` among the first 10 body bytes, if there is one |
| Helpers.ContentLengthPos | helpers.cpp:51-67 | the header position used, when there is one, holds "Content-Length" in its exact case |
| Helpers.ContentLengthAt | helpers.cpp:51-53 | an exact `Content-Length: ` in the response is the header position used |
| Helpers.NumeralValue | helpers.cpp:71-74 | digits followed by CRLF after the header name end the value line there and read back with `stoi` as the number they denote |
| Helpers.HeadDeclares | helpers.cpp:45-70 | a `Content-Length: ` found before the body start sends the extraction to the value line after it |
| Helpers.DeclaredLengthBody | helpers.cpp:70-81 | a `Content-Length: ` before the body whose value line `stoi` reads as L, with the L bytes present, gives the L bytes after the head, starting instead at the first `{`/`[` when one lies within the first 10 bytes (the rest of the response when that opener lies past L) |
| Helpers.DeclaredBody | helpers.cpp:75-93 | the declared-length branch never ends the process and returns no more text than follows the body start |
| Helpers.NoContentLengthBody | helpers.cpp:52-65 | without a Content-Length in any case, the body is the fallback suffix |
| Helpers.LowercaseOnlyBody | helpers.cpp:52-67 | with no "Content-Length" in exact case, no header position is found and the body is the fallback, even when a lowercase header is present |
| Helpers.LateContentLengthBody | helpers.cpp:70-93 | a header found only at or after the body start is ignored and the body is the fallback |
| Helpers.ValueLineEnds | helpers.cpp:70-73 | a header found before the body start always has a CRLF after its value, so the no-CRLF branch is never taken |
| Helpers.OverrunContentLengthBody | helpers.cpp:74-93 | a declared length that overruns the response, or whose `size_t` sum with the body start goes below zero, gives the fallback |
| Helpers.MalformedContentLengthAborts | helpers.cpp:74 | a value line that `stoi` cannot read ends the process |
| Helpers.IsNumber | helpers.cpp:96-102 | the empty string is not a number, and a number is a string `strtod` consumes whole |
| Transport.Delivered | http_requests.cpp:37-48 | the bytes sent never exceed the request's length |
| Transport.DeliveredAll | http_requests.cpp:37-48 | when every write makes progress, the whole request is sent |
| Transport.DeliveredAbort | http_requests.cpp:41-43 | the loop ends the process exactly when a write fails (a failing first write always does) |
| Transport.DeliveredStopsAtZero | http_requests.cpp:44-46 | a zero-byte write stops the loop with what was sent so far |
| Transport.WriteAll | http_requests.cpp:37-48 | the write loop computes `Delivered` |
| Transport.ReadHead | http_requests.cpp:58-94 | the header loop reads at least one chunk and, when it finds the head's end, the buffer holds the whole separator |
| Transport.ReadHeadChunks | http_requests.cpp:58-67 | the header buffer is exactly the chunks read, in order |
| Transport.ReadHeadStops | http_requests.cpp:58-94 | the header loop stops at the first chunk after which the buffer holds "\r\n\r\n": no buffer before its last read held one, and without one its last read returned no bytes |
| Transport.ReadHeadFindsFirst | http_requests.cpp:69-70 | the head's end is the first "\r\n\r\n" of the buffer |
| Transport.ReadHeaders | http_requests.cpp:58-94 | the header loop computes `ReadHead` and the length the body loop waits for: 0 without a blank line, else the Content-Length of the head |
| Transport.ContentLengthStart | http_requests.cpp:73-84 | a header position found leaves room for the 16-character name within the buffer |
| Transport.ContentLengthStartExact | http_requests.cpp:74 | an exact `Content-Length: ` in the head is the one used |
| Transport.ContentLengthStartLower | http_requests.cpp:75-83 | without an exact `Content-Length: ` in the head, a header in another case is used at the position of its first lowercase match |
| Transport.ContentLength | http_requests.cpp:86-91 | the declared length fits an `unsigned long` |
| Transport.DeclaredContentLength | http_requests.cpp:86-91 | a `Content-Length: n` line inside the head gives n |
| Transport.LastHeaderLengthIgnored | http_requests.cpp:85-90 | a Content-Length whose value line has no CRLF inside the head gives 0 |
| Transport.ReadBody | http_requests.cpp:96-111 | the body loop only appends to the buffer |
| Transport.ReadBodyChunks | http_requests.cpp:96-111 | the body loop appends the chunks read, in order; it was still short of the length before its last chunk, and it stops short of the length only at end of file |
| Transport.ReadBodyComplete | http_requests.cpp:96-111 | with enough non-empty chunks, the body loop reads at least the declared length |
| Transport.ReadBodyBytes | http_requests.cpp:96-111 | the body loop computes `ReadBody` |
| Transport.StatusCode | http_requests.cpp:117-128 | the status code always fits an `int` |
| Transport.StatusCodeNoSpace | http_requests.cpp:118-119 | a reply without a space has status 0 |
| Transport.StatusCodeNoSecondSpace | http_requests.cpp:120-121 | a reply without a second space has status 0 |
| Transport.StatusCodeNotNumeric | http_requests.cpp:122-126 | when `stoi` throws on the text between the first two spaces, the status is 0 |
| Transport.UnparsedReplyIsError | http_requests.cpp:114-128 | a reply whose status does not parse is framed with status 0 and is an error |
| Transport.StatusCodeOfStatusLine | http_requests.cpp:117-128 | the status code is the number between the first and second spaces of the status line |
| Transport.StatusCodeBetween | http_requests.cpp:117-128 | whatever `stoi` reads from the text between the first two spaces is the status code, when the version holds no space |
| Transport.Frame | http_requests.cpp:113-135 | the response keeps the whole text read and the status code parsed from it |
| Transport.FinishReply | http_requests.cpp:96-111 | the body loop, started on the declared length, computes `AfterHead` |
| Transport.ReceiveReply | http_requests.cpp:50-111 | the read loops compute `Receive` |
| Transport.ReceiveChunks | http_requests.cpp:50-111 | what is received is the chunks read, and its head ends at the first "\r\n\r\n" |
| Transport.SendRequestGetReply | http_requests.cpp:35-138 | `send_request_get_reply` computes `Exchange` |
| Transport.ExchangeFrames | http_requests.cpp:35-138 | the bytes sent are bounded; the reply is the chunks read, its status is parsed from them; the headers are the text before the first "\r\n\r\n" and the body is what `extract_json_body` gives, or the whole text when there is no separator |
| Client.ValidateCredentials | client.cpp:27-43 | the credentials are accepted exactly when both are non-empty and neither holds a space |
| Client.ReplyOutcome | http_requests.h:15-17 | a reply succeeds exactly when it is not an error, and otherwise fails with its status |
| Client.ReadNumber | client.cpp:363 | a typed line is a number only when `is_number` accepts it, and then its value is what `stoi` reads |
| Client.ReadPosition | client.cpp:449 | a position is chosen exactly when it is a number within 1..size, as a 0-based index |
| Client.ReadPair | client.cpp:549-550 | both positions are checked, the collection position first, each against both bounds |
| Client.RemoveAt | client.cpp:368 | `erase` keeps the entries before the position and shifts those after it down by one |
| Client.RemoveAtMultiset | client.cpp:535 | erasing loses exactly the erased entry |
| Client.ErasedThenIndexed | client.cpp:368-369 | after the erase, delete_movie names the movie that followed the erased one, a different movie when their ids differ |
| Client.MovieUrlIdentifies | client.cpp:303-304 | two movie paths are equal exactly when their ids are |
| Client.CollectionMoviesUrlIdentifies | client.cpp:509 | two attach paths are equal exactly when their collection ids are |
| Client.IdPayloadIdentifies | client.cpp:512 | two attach bodies are equal exactly when their movie ids are |
| Client.ScannedCookie | client.cpp:121 | what `get_cookie_value` hands over for "session" is empty or a `session=` cookie without `;` |
| Client.ScanIds | client.cpp:490-498 | accepted ids are one per prompt, each a number no larger than the number of movies |
| Client.ScanRefused | client.cpp:493-496 | a refusal names a prompt that is not a number or exceeds the number of movies |
| Client.ScanPositions | client.cpp:490-498 | the first loop of add_collection computes `ScanIds` |
| Client.Attachments | client.cpp:511-515 | one attach request per position, the i-th naming `movie_ids[ids[i]-1]` |
| Client.AttachAll | client.cpp:511-515 | the second loop of add_collection sends `Attachments` when every position is at least 1 |
| Client.Session.constructor | client.cpp:12-18 | a new session is empty and valid |
| Client.Session.LoginAdmin | client.cpp:99-130 | refused on bad credentials, then when an admin is logged in; on success the cookie from the reply is kept, and the admin name only with a cookie; nothing else changes |
| Client.Session.AddUser | client.cpp:132-151 | needs the admin cookie and sends it with the new user |
| Client.Session.GetUsers | client.cpp:153-178 | needs the admin cookie and sends it |
| Client.Session.DeleteUser | client.cpp:180-196 | needs the admin cookie; the path names the user |
| Client.Session.LogoutAdmin | client.cpp:198-213 | without an admin cookie nothing happens; otherwise the cookie is dropped whatever the reply and nothing else changes |
| Client.Session.Login | client.cpp:215-246 | the typed admin name must equal the stored one and the credentials be valid; a 2xx reply replaces the user cookie |
| Client.Session.GetAccess | client.cpp:248-267 | needs the user cookie; a 2xx reply with a token sets the token, and nothing else changes |
| Client.Session.GetMovies | client.cpp:269-290 | needs library access |
| Client.Session.GetMovie | client.cpp:292-319 | needs library access; a position above the count is refused, one below 1 is undefined, otherwise the movie's id is in the path |
| Client.Session.AddMovie | client.cpp:321-354 | needs library access and numeric year and rating; a 2xx reply appends exactly the returned id, and anything else leaves the state unchanged |
| Client.Session.DeleteMovie | client.cpp:356-377 | needs library access; refused above the count; for 1 ≤ id < count the entry at id-1 is erased and the entry at id is named; id = count erases and then indexes out of range |
| Client.Session.UpdateMovie | client.cpp:379-416 | needs library access, numeric year and rating, then a position no larger than the count |
| Client.Session.GetCollections | client.cpp:418-440 | needs library access |
| Client.Session.GetCollection | client.cpp:442-474 | needs library access and a position within both bounds |
| Client.Session.AddCollection | client.cpp:476-518 | every typed position is checked before anything is sent; a 2xx reply appends exactly the returned id and is followed by one attach request per position |
| Client.Session.DeleteCollection | client.cpp:520-539 | needs a position within both bounds; the named collection is deleted and erased from the list whatever the reply |
| Client.Session.AddMovieToCollection | client.cpp:541-563 | needs both positions within bounds; posts `{"id":N}` to the collection's movies |
| Client.Session.DeleteMovieFromCollection | client.cpp:565-587 | needs both positions within bounds; the path names the collection and the movie |
| Client.Session.Logout | client.cpp:589-603 | the token is always dropped; with a user cookie the logout is sent and the cookie dropped whatever the reply |
| Client.ValidSessionCookies | client.cpp:146 | each cookie a valid session holds goes out as a Cookie header that splits back into exactly that cookie |
| Client.LogoutLocksLibrary | client.cpp:269-273 | after logout a library command is refused locally |

## Left out

- Sockets are not modelled. `open_connection`, `close_connection` and the
  raw `read`/`write` calls are replaced by scripts of their results. An
  exhausted write script is a zero-byte write, and an exhausted read script
  is end of file.
- `error()` is not modelled as I/O. It prints and exits, and the model
  represents it as `Result.Abort`.
- Console I/O is not modelled: `read_line_with_prompt`, `print_success`,
  `print_error` and the `main` dispatch loop. Prompts become parameters, and
  messages become `Outcome` values.
- `close_server_connection` and the socket descriptor are not modelled,
  because they only manage the connection.
- JSON `parse`, `dump` and `get` are not modelled. Request bodies are given
  as already-dumped strings, except `{"id":N}`, which is built. Values read
  from a reply (a new id, a token) are inputs. The printing loops of the
  list commands and `build_error_message` are not modelled. Exceptions
  thrown by `json::parse` and `get` are not modelled.
- `strtod` and `std::stod` are floating point. `is_number` is modelled by
  its empty-string check together with an input flag that says whether
  `strtod` consumed the whole line.
- Exceptions thrown by `std::stod` on the rating are not modelled.
- `HOST`, `PORT` and `BUFLEN` are not modelled. There is no bound on the
  size of a read chunk.
- `logged_users` is declared but never used, so it is not modelled.
- Integer widths:
  - `stoi` and `stoul` are checked against the `int` and 64-bit
    `unsigned long` ranges;
  - the `int` running total of the write loop and the `size_t` arithmetic
    on `header_end_pos` are unbounded.
- Client.Session.AddCollection: the replies to the attach requests are not
  looked at, as in the source. A transport failure (`Abort`) while sending
  them is not modelled. When a position below 1 is reached, the requests
  sent are left unstated.
- Client.Session.DeleteMovie and the other handlers with an `Undefined`
  outcome: an out-of-range vector access in C++ has no defined result.
  There the model stops without sending anything. The state is left as it
  was before the access.
- `std::stoi` throwing in a handler is not a precondition. The model gives
  the outcome `Terminated` and sends nothing.
