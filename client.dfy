/** The command handlers of the client (client.cpp) and the session state
    they keep between commands. Each handler takes what would be typed at
    its prompts and the reply the server gives to its request, and returns
    the requests it sends together with how the command ended. */
module Client {
  import opened Wrappers
  import opened Text
  import opened Http
  import opened Requests
  import Helpers

  const Json: string := "application/json"
  const SessionCookieName: string := "session"

  const AdminLoginUrl: string := "/api/v1/tema/admin/login"
  const AdminUsersUrl: string := "/api/v1/tema/admin/users"
  const AdminLogoutUrl: string := "/api/v1/tema/admin/logout"
  const UserLoginUrl: string := "/api/v1/tema/user/login"
  const AccessUrl: string := "/api/v1/tema/library/access"
  const MoviesUrl: string := "/api/v1/tema/library/movies"
  const CollectionsUrl: string := "/api/v1/tema/library/collections"
  const UserLogoutUrl: string := "/api/v1/tema/user/logout"

  function UserUrl(username: string): string {
    AdminUsersUrl + "/" + username
  }

  function MovieUrl(id: int): string {
    MoviesUrl + "/" + IntToString(id)
  }

  function CollectionUrl(id: int): string {
    CollectionsUrl + "/" + IntToString(id)
  }

  function CollectionMoviesUrl(id: int): string {
    CollectionUrl(id) + "/movies"
  }

  function CollectionMovieUrl(collection: int, movie: int): string {
    CollectionMoviesUrl(collection) + "/" + IntToString(movie)
  }

  /** The body `{"id":N}` that attaches movie N to a collection. */
  function IdPayload(id: int): string {
    "{\"id\":" + IntToString(id) + "}"
  }

  /** How a command ended. */
  datatype Outcome =
    | Rejected             // a local check failed; nothing was sent
    | Failed(status: int)  // the server answered with a status outside 2xx
    | Succeeded
    | NoSessionCookie      // a 2xx login reply that set no session cookie
    | NoToken              // a 2xx access reply without a token
    | Terminated           // `std::stoi` threw and the process ended
    | Undefined            // a vector was indexed out of range

  /** The outcome the reply to the command's request decides. */
  function ReplyOutcome(reply: HttpResponse): (o: Outcome)
    ensures o == Succeeded <==> !reply.IsError()
    ensures o != Succeeded ==> o == Failed(reply.statusCode)
  {
    if reply.IsError() then Failed(reply.statusCode) else Succeeded
  }

  /** validate_credentials: both present and neither with a space. */
  function ValidateCredentials(username: string, password: string): (ok: bool)
    ensures ok <==> username != "" && password != "" && ' ' !in username && ' ' !in password
  {
    FindCharIn(username, ' ');
    FindCharIn(password, ' ');
    if username == "" then false
    else if password == "" then false
    else if Find(username, " ", 0).Some? || Find(password, " ", 0).Some? then false
    else true
  }

  /** A number typed at a prompt: rejected unless is_number holds, and the
      process ends when `std::stoi` then throws. */
  datatype Number = Value(n: int) | NotNumber | Throws

  function ReadNumber(input: Helpers.NumericInput): (r: Number)
    ensures r.Value? ==> Helpers.IsNumber(input) && Stoi(input.text) == Some(r.n)
    ensures r.NotNumber? <==> !Helpers.IsNumber(input)
  {
    if !Helpers.IsNumber(input) then NotNumber
    else
      match Stoi(input.text)
      case None => Throws
      case Some(n) => Value(n)
  }

  /** A 1-based position typed at a prompt and checked against both bounds
      of a list of `size` entries; `Chosen` carries the 0-based index. */
  datatype Position = Chosen(index: nat) | Invalid | Crashes

  function ReadPosition(input: Helpers.NumericInput, size: nat): (r: Position)
    ensures r.Chosen? <==> ReadNumber(input).Value? && 1 <= ReadNumber(input).n <= size
    ensures r.Chosen? ==> r.index == ReadNumber(input).n - 1
    ensures r.Crashes? <==> ReadNumber(input).Throws?
  {
    match ReadNumber(input)
    case NotNumber => Invalid
    case Throws => Crashes
    case Value(k) => if k <= 0 || k > size then Invalid else Chosen(k - 1)
  }

  /** The check of the two-position commands: both lines must be numbers,
      then the collection position, then the movie position. */
  function ReadPair(collection: Helpers.NumericInput, movie: Helpers.NumericInput,
                    collections: nat, movies: nat): (r: Option<Result<(nat, nat)>>)
    ensures r.Some? && r.value.Ok? ==> r.value.value.0 < collections && r.value.value.1 < movies
    ensures r.Some? && r.value.Ok? ==>
              ReadPosition(collection, collections) == Chosen(r.value.value.0)
              && ReadPosition(movie, movies) == Chosen(r.value.value.1)
    ensures r.None? ==> !Helpers.IsNumber(collection) || !Helpers.IsNumber(movie)
                        || ReadPosition(collection, collections).Invalid?
                        || (ReadPosition(collection, collections).Chosen? && ReadPosition(movie, movies).Invalid?)
  {
    if !Helpers.IsNumber(collection) || !Helpers.IsNumber(movie) then None
    else
      match ReadPosition(collection, collections)
      case Invalid => None
      case Crashes => Some(Abort)
      case Chosen(c) =>
        match ReadPosition(movie, movies)
        case Invalid => None
        case Crashes => Some(Abort)
        case Chosen(m) => Some(Ok((c, m)))
  }

  /** `vector::erase` at index `i`. */
  function RemoveAt(xs: seq<int>, i: nat): (r: seq<int>)
    requires i < |xs|
    ensures |r| == |xs| - 1
    ensures forall j :: 0 <= j < i ==> r[j] == xs[j]
    ensures forall j :: i <= j < |r| ==> r[j] == xs[j + 1]
  {
    xs[..i] + xs[i + 1..]
  }

  /** Erasing loses exactly the erased entry. */
  lemma RemoveAtMultiset(xs: seq<int>, i: nat)
    requires i < |xs|
    ensures multiset(RemoveAt(xs, i)) + multiset{xs[i]} == multiset(xs)
  {
    assert xs == xs[..i] + [xs[i]] + xs[i + 1..];
  }

  /** After erasing position k-1, position k-1 holds what was at position k:
      the movie delete_movie names in its request is the one after the movie
      it erased, and a different one whenever the two ids differ. */
  lemma ErasedThenIndexed(xs: seq<int>, k: nat)
    requires 1 <= k < |xs|
    ensures RemoveAt(xs, k - 1)[k - 1] == xs[k]
    ensures xs[k - 1] != xs[k] ==> MovieUrl(RemoveAt(xs, k - 1)[k - 1]) != MovieUrl(xs[k - 1])
  {
    MovieUrlIdentifies(xs[k], xs[k - 1]);
  }

  /** The ids typed for a new collection, read from prompt `i` on: each must
      be a number no larger than `limit` (only the upper bound is checked). A
      prompt past the end of the input reads as an empty line. */
  datatype Scan = Accepted(ids: seq<int>) | Refused | Throwing

  function InputAt(inputs: seq<Helpers.NumericInput>, i: nat): Helpers.NumericInput {
    if i < |inputs| then inputs[i] else Helpers.NumericInput("", false)
  }

  function ScanIds(inputs: seq<Helpers.NumericInput>, i: nat, count: int, limit: int): (r: Scan)
    ensures r.Accepted? ==> |r.ids| == (if i < count then count - i else 0)
    ensures r.Accepted? ==> forall j :: 0 <= j < |r.ids| ==>
              ReadNumber(InputAt(inputs, i + j)) == Value(r.ids[j]) && r.ids[j] <= limit
    decreases count - i
  {
    if i >= count then Accepted([])
    else
      match ReadNumber(InputAt(inputs, i))
      case NotNumber => Refused
      case Throws => Throwing
      case Value(k) =>
        if k > limit then Refused
        else
          match ScanIds(inputs, i + 1, count, limit)
          case Accepted(rest) => Accepted([k] + rest)
          case Refused => Refused
          case Throwing => Throwing
  }

  /** A refusal names a prompt whose line is not a number or too large. */
  lemma {:induction false} ScanRefused(inputs: seq<Helpers.NumericInput>, i: nat, count: int, limit: int)
    requires ScanIds(inputs, i, count, limit).Refused?
    ensures exists j :: i <= j < count && match ReadNumber(InputAt(inputs, j))
                                          case NotNumber => true
                                          case Throws => false
                                          case Value(k) => k > limit
    decreases count - i
  {
    match ReadNumber(InputAt(inputs, i))
    case NotNumber =>
    case Throws =>
    case Value(k) =>
      if k <= limit {
        ScanRefused(inputs, i + 1, count, limit);
      }
  }

  /** The request that attaches `movie` to the collection at `url`. */
  function Attach(url: string, movie: int, token: string): Request {
    Post(url, Json, IdPayload(movie), [], token)
  }

  /** The attach requests of add_collection, one per typed position. */
  function Attachments(url: string, ids: seq<int>, movies: seq<int>, token: string): (r: seq<Request>)
    requires forall j :: 0 <= j < |ids| ==> 1 <= ids[j] <= |movies|
    ensures |r| == |ids|
    ensures forall j :: 0 <= j < |ids| ==> r[j] == Attach(url, movies[ids[j] - 1], token)
  {
    seq(|ids|, j requires 0 <= j < |ids| => Attach(url, movies[ids[j] - 1], token))
  }

  /** Any list holding the right attach request at every position is the
      list Attachments builds. */
  lemma AttachmentsAre(url: string, ids: seq<int>, movies: seq<int>, token: string, sent: seq<Request>)
    requires forall j :: 0 <= j < |ids| ==> 1 <= ids[j] <= |movies|
    requires |sent| == |ids|
    requires forall j :: 0 <= j < |ids| ==> sent[j] == Attach(url, movies[ids[j] - 1], token)
    ensures sent == Attachments(url, ids, movies, token)
  {
  }

  /** `Prepend(ids, r)` is the scan `r` of the later prompts, after the
      ids `ids` of the earlier ones were accepted. */
  function Prepend(ids: seq<int>, r: Scan): Scan {
    match r
    case Accepted(rest) => Accepted(ids + rest)
    case Refused => Refused
    case Throwing => Throwing
  }

  /** The first loop of add_collection: reads `count` positions and stops
      at the first one that is not a number or exceeds `limit`. */
  method ScanPositions(inputs: seq<Helpers.NumericInput>, count: int, limit: int) returns (r: Scan)
    ensures r == ScanIds(inputs, 0, count, limit)
  {
    var ids: seq<int> := [];
    var i: nat := 0;
    while i < count
      invariant ScanIds(inputs, 0, count, limit) == Prepend(ids, ScanIds(inputs, i, count, limit))
      decreases count - i
    {
      var typed := ReadNumber(InputAt(inputs, i));
      if typed.NotNumber? {
        return Refused;
      }
      if typed.Throws? {
        return Throwing;
      }
      if typed.n > limit {
        return Refused;
      }
      ScanStep(inputs, i, count, limit, ids, typed.n);
      ids := ids + [typed.n];
      i := i + 1;
    }
    assert ids + [] == ids;
    return Accepted(ids);
  }

  /** One accepted prompt moves its id from the scan still to come to the
      ids already read. */
  lemma ScanStep(inputs: seq<Helpers.NumericInput>, i: nat, count: int, limit: int, ids: seq<int>, k: int)
    requires i < count && ReadNumber(InputAt(inputs, i)) == Value(k) && k <= limit
    ensures Prepend(ids, ScanIds(inputs, i, count, limit)) == Prepend(ids + [k], ScanIds(inputs, i + 1, count, limit))
  {
    match ScanIds(inputs, i + 1, count, limit) {
      case Accepted(rest) =>
        assert ids + ([k] + rest) == (ids + [k]) + rest;
      case Refused =>
      case Throwing =>
    }
  }

  /** The second loop of add_collection: one attach request per accepted
      position, as long as the positions index the movie list; `complete`
      is false when a position below 1 was reached. */
  method AttachAll(url: string, ids: seq<int>, movies: seq<int>, token: string)
      returns (sent: seq<Request>, complete: bool)
    requires forall j :: 0 <= j < |ids| ==> ids[j] <= |movies|
    ensures complete <==> forall j :: 0 <= j < |ids| ==> ids[j] >= 1
    ensures complete ==> sent == Attachments(url, ids, movies, token)
  {
    sent := [];
    var j := 0;
    while j < |ids|
      invariant j <= |ids|
      invariant forall m :: 0 <= m < j ==> ids[m] >= 1
      invariant |sent| == j
      invariant forall m :: 0 <= m < j ==> sent[m] == Attach(url, movies[ids[m] - 1], token)
    {
      if ids[j] <= 0 {
        return sent, false;
      }
      AttachOne(url, ids, movies, token, sent, j);
      sent := sent + [Attach(url, movies[ids[j] - 1], token)];
      j := j + 1;
    }
    AttachmentsAre(url, ids, movies, token, sent);
    complete := true;
  }

  /** One turn of that loop: the attach request for position `j` goes after
      those for the earlier positions. */
  lemma AttachOne(url: string, ids: seq<int>, movies: seq<int>, token: string, sent: seq<Request>, j: nat)
    requires j < |ids| && 1 <= ids[j] <= |movies| && |sent| == j
    requires forall m :: 0 <= m < j ==> 1 <= ids[m] <= |movies|
    requires forall m :: 0 <= m < j ==> sent[m] == Attach(url, movies[ids[m] - 1], token)
    ensures forall m :: 0 <= m <= j ==> ids[m] >= 1
    ensures var next := sent + [Attach(url, movies[ids[j] - 1], token)];
            |next| == j + 1 && forall m :: 0 <= m <= j ==> next[m] == Attach(url, movies[ids[m] - 1], token)
  {
    var next := sent + [Attach(url, movies[ids[j] - 1], token)];
    assert forall m :: 0 <= m < j ==> next[m] == sent[m];
  }

  /** A cookie as get_cookie_value hands it over: none, or `session=...`
      without a ';'. */
  predicate SessionCookie(cookie: string) {
    cookie == "" || (SessionCookieName + "=" <= cookie && ';' !in cookie)
  }

  /** get_cookie_value always hands over a session cookie of that shape. */
  lemma ScannedCookie(response: string)
    ensures SessionCookie(Helpers.CookieScan(response, SessionCookieName, 0))
  {
    if Helpers.CookieScan(response, SessionCookieName, 0) != "" {
      Helpers.CookieScanFound(response, SessionCookieName, 0);
    }
  }

  /** A request path names the movie it was built for. */
  lemma MovieUrlIdentifies(a: int, b: int)
    ensures MovieUrl(a) == MovieUrl(b) <==> a == b
  {
    var prefix := MoviesUrl + "/";
    assert MovieUrl(a)[|prefix|..] == IntToString(a);
    assert MovieUrl(b)[|prefix|..] == IntToString(b);
    IntToStringInjective(a, b);
  }

  /** The attach path names the collection it was built for. */
  lemma CollectionMoviesUrlIdentifies(a: int, b: int)
    ensures CollectionMoviesUrl(a) == CollectionMoviesUrl(b) <==> a == b
  {
    assert !IsDigit('/');
    NumberedIdentifies(CollectionsUrl + "/", a, b, "/movies");
  }

  /** The attach body carries the movie id it was built for. */
  lemma IdPayloadIdentifies(a: int, b: int)
    ensures IdPayload(a) == IdPayload(b) <==> a == b
  {
    assert !IsDigit('}');
    NumberedIdentifies("{\"id\":", a, b, "}");
  }

  /** The session fields, taken together. */
  datatype Snapshot = Snapshot(adminCookie: string, userCookie: string, jwtToken: string,
                               adminUsername: string, movieIds: seq<int>, collectionIds: seq<int>)

  /** The state the handlers share: the two session cookies, the library
      token, the name of the logged-in admin and the ids of the movies and
      collections this client created, in creation order. */
  class Session {
    var adminCookie: string
    var userCookie: string
    var jwtToken: string
    var adminUsername: string
    var movieIds: seq<int>
    var collectionIds: seq<int>

    function State(): Snapshot
      reads this
    {
      Snapshot(adminCookie, userCookie, jwtToken, adminUsername, movieIds, collectionIds)
    }

    /** Cookies are the ones get_cookie_value handed over, and an admin
        cookie is only ever held together with the valid admin name it was
        obtained for. */
    predicate Valid()
      reads this
    {
      && SessionCookie(adminCookie)
      && SessionCookie(userCookie)
      && (adminCookie != "" ==> adminUsername != "" && ' ' !in adminUsername)
    }

    constructor()
      ensures Valid()
      ensures State() == Snapshot("", "", "", "", [], [])
    {
      adminCookie := "";
      userCookie := "";
      jwtToken := "";
      adminUsername := "";
      movieIds := [];
      collectionIds := [];
    }

    /** handle_login_admin: refused for bad credentials or when an admin is
        already logged in; on a 2xx reply the admin cookie is taken from the
        reply, and the admin name is kept only when there was one. */
    method LoginAdmin(username: string, password: string, payload: string, reply: HttpResponse)
        returns (sent: seq<Request>, outcome: Outcome)
      requires Valid()
      modifies this
      ensures Valid()
      ensures !ValidateCredentials(username, password) || old(adminCookie) != "" ==>
                sent == [] && outcome == Rejected && State() == old(State())
      ensures ValidateCredentials(username, password) && old(adminCookie) == "" ==>
                && sent == [Post(AdminLoginUrl, Json, payload, [], "")]
                && var cookie := Helpers.CookieScan(reply.fullResponse, SessionCookieName, 0);
                   if reply.IsError() then outcome == Failed(reply.statusCode) && State() == old(State())
                   else if cookie == "" then outcome == NoSessionCookie && State() == old(State())
                   else outcome == Succeeded && State() == old(State()).(adminCookie := cookie, adminUsername := username)
    {
      if !ValidateCredentials(username, password) {
        return [], Rejected;
      }
      if adminCookie != "" {
        return [], Rejected;
      }
      sent := [Post(AdminLoginUrl, Json, payload, [], "")];
      if reply.IsError() {
        return sent, Failed(reply.statusCode);
      }
      adminCookie := Helpers.GetCookieValue(reply.fullResponse, SessionCookieName);
      ScannedCookie(reply.fullResponse);
      if adminCookie == "" {
        outcome := NoSessionCookie;
      } else {
        adminUsername := username;
        outcome := Succeeded;
      }
    }

    /** handle_add_user: needs the admin cookie. */
    method AddUser(payload: string, reply: HttpResponse) returns (sent: seq<Request>, outcome: Outcome)
      ensures adminCookie == "" ==> sent == [] && outcome == Rejected
      ensures adminCookie != "" ==>
                sent == [Post(AdminUsersUrl, Json, payload, [adminCookie], "")] && outcome == ReplyOutcome(reply)
    {
      if adminCookie == "" {
        return [], Rejected;
      }
      sent := [Post(AdminUsersUrl, Json, payload, [adminCookie], "")];
      outcome := ReplyOutcome(reply);
    }

    /** handle_get_users: needs the admin cookie. */
    method GetUsers(reply: HttpResponse) returns (sent: seq<Request>, outcome: Outcome)
      ensures adminCookie == "" ==> sent == [] && outcome == Rejected
      ensures adminCookie != "" ==>
                sent == [Get(AdminUsersUrl, "", [adminCookie], "")] && outcome == ReplyOutcome(reply)
    {
      if adminCookie == "" {
        return [], Rejected;
      }
      sent := [Get(AdminUsersUrl, "", [adminCookie], "")];
      outcome := ReplyOutcome(reply);
    }

    /** handle_delete_user: needs the admin cookie; the name goes into the path. */
    method DeleteUser(username: string, reply: HttpResponse) returns (sent: seq<Request>, outcome: Outcome)
      ensures adminCookie == "" ==> sent == [] && outcome == Rejected
      ensures adminCookie != "" ==>
                sent == [Delete(UserUrl(username), [adminCookie], "")] && outcome == ReplyOutcome(reply)
    {
      if adminCookie == "" {
        return [], Rejected;
      }
      sent := [Delete(UserUrl(username), [adminCookie], "")];
      outcome := ReplyOutcome(reply);
    }

    /** handle_logout_admin: nothing to do without an admin cookie; otherwise
        the cookie is dropped whatever the server answers. */
    method LogoutAdmin(reply: HttpResponse) returns (sent: seq<Request>, outcome: Outcome)
      requires Valid()
      modifies this
      ensures Valid()
      ensures adminCookie == ""
      ensures old(adminCookie) == "" ==> sent == [] && outcome == Rejected && State() == old(State())
      ensures old(adminCookie) != "" ==>
                && sent == [Get(AdminLogoutUrl, "", [old(adminCookie)], "")]
                && outcome == ReplyOutcome(reply)
                && State() == old(State()).(adminCookie := "")
    {
      if adminCookie == "" {
        return [], Rejected;
      }
      sent := [Get(AdminLogoutUrl, "", [adminCookie], "")];
      outcome := ReplyOutcome(reply);
      adminCookie := "";
    }

    /** handle_login: the admin name typed must be the stored one and the
        credentials valid; a 2xx reply replaces the user cookie with the one
        it sets, which may be none. */
    method Login(adminName: string, username: string, password: string, payload: string, reply: HttpResponse)
        returns (sent: seq<Request>, outcome: Outcome)
      requires Valid()
      modifies this
      ensures Valid()
      ensures adminName != old(adminUsername) || !ValidateCredentials(username, password) ==>
                sent == [] && outcome == Rejected && State() == old(State())
      ensures adminName == old(adminUsername) && ValidateCredentials(username, password) ==>
                && sent == [Post(UserLoginUrl, Json, payload, [], "")]
                && var cookie := Helpers.CookieScan(reply.fullResponse, SessionCookieName, 0);
                   if reply.IsError() then outcome == Failed(reply.statusCode) && State() == old(State())
                   else
                     && outcome == (if cookie == "" then NoSessionCookie else Succeeded)
                     && State() == old(State()).(userCookie := cookie)
    {
      if adminName != adminUsername {
        return [], Rejected;
      }
      if !ValidateCredentials(username, password) {
        return [], Rejected;
      }
      sent := [Post(UserLoginUrl, Json, payload, [], "")];
      if reply.IsError() {
        return sent, Failed(reply.statusCode);
      }
      userCookie := Helpers.GetCookieValue(reply.fullResponse, SessionCookieName);
      ScannedCookie(reply.fullResponse);
      outcome := if userCookie == "" then NoSessionCookie else Succeeded;
    }

    /** handle_get_access: needs the user cookie; a 2xx reply carrying a
        token (`token`, read from its body) grants library access. */
    method GetAccess(token: Option<string>, reply: HttpResponse) returns (sent: seq<Request>, outcome: Outcome)
      requires Valid()
      modifies this
      ensures Valid()
      ensures old(userCookie) == "" ==> sent == [] && outcome == Rejected && State() == old(State())
      ensures old(userCookie) != "" ==>
                && sent == [Get(AccessUrl, "", [old(userCookie)], "")]
                && if reply.IsError() then outcome == Failed(reply.statusCode) && State() == old(State())
                   else match token
                        case None => outcome == NoToken && State() == old(State())
                        case Some(t) => outcome == Succeeded && State() == old(State()).(jwtToken := t)
    {
      if userCookie == "" {
        return [], Rejected;
      }
      sent := [Get(AccessUrl, "", [userCookie], "")];
      if reply.IsError() {
        return sent, Failed(reply.statusCode);
      }
      match token
      case None =>
        outcome := NoToken;
      case Some(t) =>
        jwtToken := t;
        outcome := Succeeded;
    }

    /** handle_get_movies: needs library access. */
    method GetMovies(reply: HttpResponse) returns (sent: seq<Request>, outcome: Outcome)
      ensures jwtToken == "" ==> sent == [] && outcome == Rejected
      ensures jwtToken != "" ==> sent == [Get(MoviesUrl, "", [], jwtToken)] && outcome == ReplyOutcome(reply)
    {
      if jwtToken == "" {
        return [], Rejected;
      }
      sent := [Get(MoviesUrl, "", [], jwtToken)];
      outcome := ReplyOutcome(reply);
    }

    /** handle_get_movie: the typed position is read with `std::stoi` and
        only its upper bound is checked, so a position below 1 indexes the
        movie list out of range. */
    method GetMovie(id: string, reply: HttpResponse) returns (sent: seq<Request>, outcome: Outcome)
      ensures jwtToken == "" ==> sent == [] && outcome == Rejected
      ensures jwtToken != "" ==>
                match Stoi(id)
                case None => sent == [] && outcome == Terminated
                case Some(k) =>
                  if k > |movieIds| then sent == [] && outcome == Rejected
                  else if k <= 0 then sent == [] && outcome == Undefined
                  else sent == [Get(MovieUrl(movieIds[k - 1]), "", [], jwtToken)] && outcome == ReplyOutcome(reply)
    {
      if jwtToken == "" {
        return [], Rejected;
      }
      var k := Stoi(id);
      if k.None? {
        return [], Terminated;
      }
      if k.value > |movieIds| {
        return [], Rejected;
      }
      if k.value <= 0 {
        return [], Undefined;
      }
      sent := [Get(MovieUrl(movieIds[k.value - 1]), "", [], jwtToken)];
      outcome := ReplyOutcome(reply);
    }

    /** handle_add_movie: year and rating must be numbers and the year is
        read with `std::stoi`; a 2xx reply appends the id it returns
        (`newId`, read from its body) to the movie list. */
    method AddMovie(year: Helpers.NumericInput, rating: Helpers.NumericInput, payload: string,
                    reply: HttpResponse, newId: int)
        returns (sent: seq<Request>, outcome: Outcome)
      requires Valid()
      modifies this
      ensures Valid()
      ensures old(jwtToken) == "" || !Helpers.IsNumber(year) || !Helpers.IsNumber(rating) ==>
                sent == [] && outcome == Rejected && State() == old(State())
      ensures old(jwtToken) != "" && Helpers.IsNumber(year) && Helpers.IsNumber(rating) ==>
                if Stoi(year.text).None? then sent == [] && outcome == Terminated && State() == old(State())
                else
                  && sent == [Post(MoviesUrl, Json, payload, [], old(jwtToken))]
                  && outcome == ReplyOutcome(reply)
                  && if reply.IsError() then State() == old(State())
                     else State() == old(State()).(movieIds := old(movieIds) + [newId])
    {
      if jwtToken == "" {
        return [], Rejected;
      }
      if !Helpers.IsNumber(year) || !Helpers.IsNumber(rating) {
        return [], Rejected;
      }
      if Stoi(year.text).None? {
        return [], Terminated;
      }
      sent := [Post(MoviesUrl, Json, payload, [], jwtToken)];
      outcome := ReplyOutcome(reply);
      if !reply.IsError() {
        movieIds := movieIds + [newId];
      }
    }

    /** handle_delete_movie: only the upper bound of the position is checked;
        the entry at position k is erased and the request then names the
        entry that moved into its place, so k must lie below the length. */
    method DeleteMovie(id: Helpers.NumericInput, reply: HttpResponse) returns (sent: seq<Request>, outcome: Outcome)
      requires Valid()
      modifies this
      ensures Valid()
      ensures old(jwtToken) == "" ==> sent == [] && outcome == Rejected && State() == old(State())
      ensures old(jwtToken) != "" ==>
                match ReadNumber(id)
                case NotNumber => sent == [] && outcome == Rejected && State() == old(State())
                case Throws => sent == [] && outcome == Terminated && State() == old(State())
                case Value(k) =>
                  if k > |old(movieIds)| then sent == [] && outcome == Rejected && State() == old(State())
                  else if k <= 0 then sent == [] && outcome == Undefined && State() == old(State())
                  else if k == |old(movieIds)| then
                    sent == [] && outcome == Undefined && State() == old(State()).(movieIds := RemoveAt(old(movieIds), k - 1))
                  else
                    && movieIds == RemoveAt(old(movieIds), k - 1)
                    && State() == old(State()).(movieIds := movieIds)
                    && sent == [Delete(MovieUrl(old(movieIds)[k]), [], old(jwtToken))]
                    && outcome == ReplyOutcome(reply)
    {
      if jwtToken == "" {
        return [], Rejected;
      }
      var number := ReadNumber(id);
      if number.NotNumber? {
        return [], Rejected;
      }
      if number.Throws? {
        return [], Terminated;
      }
      var k := number.n;
      if k > |movieIds| {
        return [], Rejected;
      }
      if k <= 0 {
        return [], Undefined;
      }
      movieIds := RemoveAt(movieIds, k - 1);
      if k - 1 >= |movieIds| {
        return [], Undefined;
      }
      sent := [Delete(MovieUrl(movieIds[k - 1]), [], jwtToken)];
      outcome := ReplyOutcome(reply);
    }

    /** handle_update_movie: year and rating must be numbers, then the
        position; only its upper bound is checked. */
    method UpdateMovie(id: Helpers.NumericInput, year: Helpers.NumericInput, rating: Helpers.NumericInput,
                       payload: string, reply: HttpResponse)
        returns (sent: seq<Request>, outcome: Outcome)
      ensures jwtToken == "" || !Helpers.IsNumber(year) || !Helpers.IsNumber(rating) ==>
                sent == [] && outcome == Rejected
      ensures jwtToken != "" && Helpers.IsNumber(year) && Helpers.IsNumber(rating) ==>
                match ReadNumber(id)
                case NotNumber => sent == [] && outcome == Rejected
                case Throws => sent == [] && outcome == Terminated
                case Value(k) =>
                  if k > |movieIds| then sent == [] && outcome == Rejected
                  else if k <= 0 then sent == [] && outcome == Undefined
                  else sent == [Put(MovieUrl(movieIds[k - 1]), Json, payload, [], jwtToken)]
                       && outcome == ReplyOutcome(reply)
    {
      if jwtToken == "" {
        return [], Rejected;
      }
      if !Helpers.IsNumber(year) || !Helpers.IsNumber(rating) {
        return [], Rejected;
      }
      var number := ReadNumber(id);
      if number.NotNumber? {
        return [], Rejected;
      }
      if number.Throws? {
        return [], Terminated;
      }
      var k := number.n;
      if k > |movieIds| {
        return [], Rejected;
      }
      if k <= 0 {
        return [], Undefined;
      }
      sent := [Put(MovieUrl(movieIds[k - 1]), Json, payload, [], jwtToken)];
      outcome := ReplyOutcome(reply);
    }

    /** handle_get_collections: needs library access. */
    method GetCollections(reply: HttpResponse) returns (sent: seq<Request>, outcome: Outcome)
      ensures jwtToken == "" ==> sent == [] && outcome == Rejected
      ensures jwtToken != "" ==> sent == [Get(CollectionsUrl, "", [], jwtToken)] && outcome == ReplyOutcome(reply)
    {
      if jwtToken == "" {
        return [], Rejected;
      }
      sent := [Get(CollectionsUrl, "", [], jwtToken)];
      outcome := ReplyOutcome(reply);
    }

    /** handle_get_collection: the position is checked against both bounds. */
    method GetCollection(id: Helpers.NumericInput, reply: HttpResponse) returns (sent: seq<Request>, outcome: Outcome)
      ensures jwtToken == "" ==> sent == [] && outcome == Rejected
      ensures jwtToken != "" ==>
                match ReadPosition(id, |collectionIds|)
                case Invalid => sent == [] && outcome == Rejected
                case Crashes => sent == [] && outcome == Terminated
                case Chosen(i) =>
                  sent == [Get(CollectionUrl(collectionIds[i]), "", [], jwtToken)] && outcome == ReplyOutcome(reply)
    {
      if jwtToken == "" {
        return [], Rejected;
      }
      match ReadPosition(id, |collectionIds|)
      case Invalid =>
        return [], Rejected;
      case Crashes =>
        return [], Terminated;
      case Chosen(i) =>
        sent := [Get(CollectionUrl(collectionIds[i]), "", [], jwtToken)];
        outcome := ReplyOutcome(reply);
    }

    /** handle_add_collection: every typed movie position is checked (upper
        bound only) before anything is sent; on a 2xx reply the new
        collection's id (`newId`, read from its body) is appended and one
        attach request per position follows, whose replies are not looked
        at. A position below 1 indexes the movie list out of range. */
    method AddCollection(count: Helpers.NumericInput, positions: seq<Helpers.NumericInput>,
                         payload: string, reply: HttpResponse, newId: int)
        returns (sent: seq<Request>, outcome: Outcome)
      requires Valid()
      modifies this
      ensures Valid()
      ensures old(jwtToken) == "" ==> sent == [] && outcome == Rejected && State() == old(State())
      ensures old(jwtToken) != "" ==>
                match ReadNumber(count)
                case NotNumber => sent == [] && outcome == Rejected && State() == old(State())
                case Throws => sent == [] && outcome == Terminated && State() == old(State())
                case Value(n) =>
                  match ScanIds(positions, 0, n, |old(movieIds)|)
                  case Refused => sent == [] && outcome == Rejected && State() == old(State())
                  case Throwing => sent == [] && outcome == Terminated && State() == old(State())
                  case Accepted(ids) =>
                    var create := Post(CollectionsUrl, Json, payload, [], old(jwtToken));
                    if reply.IsError() then
                      sent == [create] && outcome == Failed(reply.statusCode) && State() == old(State())
                    else
                      && State() == old(State()).(collectionIds := old(collectionIds) + [newId])
                      && |sent| >= 1 && sent[0] == create
                      && if forall j :: 0 <= j < |ids| ==> ids[j] >= 1 then
                           sent == [create] + Attachments(CollectionMoviesUrl(newId), ids, old(movieIds), old(jwtToken))
                           && outcome == Succeeded
                         else outcome == Undefined
    {
      if jwtToken == "" {
        return [], Rejected;
      }
      var number := ReadNumber(count);
      if number.NotNumber? {
        return [], Rejected;
      }
      if number.Throws? {
        return [], Terminated;
      }
      var scan := ScanPositions(positions, number.n, |movieIds|);
      if scan.Refused? {
        return [], Rejected;
      }
      if scan.Throwing? {
        return [], Terminated;
      }
      var create := Post(CollectionsUrl, Json, payload, [], jwtToken);
      if reply.IsError() {
        return [create], Failed(reply.statusCode);
      }
      collectionIds := collectionIds + [newId];
      var attached, complete := AttachAll(CollectionMoviesUrl(newId), scan.ids, movieIds, jwtToken);
      sent := [create] + attached;
      outcome := if complete then Succeeded else Undefined;
    }

    /** handle_delete_collection: the position is checked against both
        bounds; the entry is erased whatever the server answers. */
    method DeleteCollection(id: Helpers.NumericInput, reply: HttpResponse) returns (sent: seq<Request>, outcome: Outcome)
      requires Valid()
      modifies this
      ensures Valid()
      ensures old(jwtToken) == "" ==> sent == [] && outcome == Rejected && State() == old(State())
      ensures old(jwtToken) != "" ==>
                match ReadPosition(id, |old(collectionIds)|)
                case Invalid => sent == [] && outcome == Rejected && State() == old(State())
                case Crashes => sent == [] && outcome == Terminated && State() == old(State())
                case Chosen(i) =>
                  && sent == [Delete(CollectionUrl(old(collectionIds)[i]), [], old(jwtToken))]
                  && outcome == ReplyOutcome(reply)
                  && State() == old(State()).(collectionIds := RemoveAt(old(collectionIds), i))
    {
      if jwtToken == "" {
        return [], Rejected;
      }
      match ReadPosition(id, |collectionIds|)
      case Invalid =>
        return [], Rejected;
      case Crashes =>
        return [], Terminated;
      case Chosen(i) =>
        sent := [Delete(CollectionUrl(collectionIds[i]), [], jwtToken)];
        collectionIds := RemoveAt(collectionIds, i);
        outcome := ReplyOutcome(reply);
    }

    /** handle_add_movie_to_collection: both positions are checked against
        both bounds. */
    method AddMovieToCollection(collection: Helpers.NumericInput, movie: Helpers.NumericInput, reply: HttpResponse)
        returns (sent: seq<Request>, outcome: Outcome)
      ensures jwtToken == "" ==> sent == [] && outcome == Rejected
      ensures jwtToken != "" ==>
                match ReadPair(collection, movie, |collectionIds|, |movieIds|)
                case None => sent == [] && outcome == Rejected
                case Some(Abort) => sent == [] && outcome == Terminated
                case Some(Ok((c, m))) =>
                  && sent == [Post(CollectionMoviesUrl(collectionIds[c]), Json, IdPayload(movieIds[m]), [], jwtToken)]
                  && outcome == ReplyOutcome(reply)
    {
      if jwtToken == "" {
        return [], Rejected;
      }
      match ReadPair(collection, movie, |collectionIds|, |movieIds|)
      case None =>
        return [], Rejected;
      case Some(Abort) =>
        return [], Terminated;
      case Some(Ok((c, m))) =>
        sent := [Post(CollectionMoviesUrl(collectionIds[c]), Json, IdPayload(movieIds[m]), [], jwtToken)];
        outcome := ReplyOutcome(reply);
    }

    /** handle_delete_movie_from_collection: both positions are checked
        against both bounds. */
    method DeleteMovieFromCollection(collection: Helpers.NumericInput, movie: Helpers.NumericInput, reply: HttpResponse)
        returns (sent: seq<Request>, outcome: Outcome)
      ensures jwtToken == "" ==> sent == [] && outcome == Rejected
      ensures jwtToken != "" ==>
                match ReadPair(collection, movie, |collectionIds|, |movieIds|)
                case None => sent == [] && outcome == Rejected
                case Some(Abort) => sent == [] && outcome == Terminated
                case Some(Ok((c, m))) =>
                  && sent == [Delete(CollectionMovieUrl(collectionIds[c], movieIds[m]), [], jwtToken)]
                  && outcome == ReplyOutcome(reply)
    {
      if jwtToken == "" {
        return [], Rejected;
      }
      match ReadPair(collection, movie, |collectionIds|, |movieIds|)
      case None =>
        return [], Rejected;
      case Some(Abort) =>
        return [], Terminated;
      case Some(Ok((c, m))) =>
        sent := [Delete(CollectionMovieUrl(collectionIds[c], movieIds[m]), [], jwtToken)];
        outcome := ReplyOutcome(reply);
    }

    /** handle_logout: library access is dropped first, even when no user is
        logged in; the user cookie is dropped whatever the server answers. */
    method Logout(reply: HttpResponse) returns (sent: seq<Request>, outcome: Outcome)
      requires Valid()
      modifies this
      ensures Valid()
      ensures jwtToken == "" && userCookie == ""
      ensures old(userCookie) == "" ==>
                sent == [] && outcome == Rejected && State() == old(State()).(jwtToken := "")
      ensures old(userCookie) != "" ==>
                && sent == [Get(UserLogoutUrl, "", [old(userCookie)], "")]
                && outcome == ReplyOutcome(reply)
                && State() == old(State()).(jwtToken := "", userCookie := "")
    {
      jwtToken := "";
      if userCookie == "" {
        return [], Rejected;
      }
      sent := [Get(UserLogoutUrl, "", [userCookie], "")];
      outcome := ReplyOutcome(reply);
      userCookie := "";
    }
  }

  /** What Valid() buys the requests: each cookie a valid session holds
      goes out as a Cookie header carrying exactly that one cookie, since a
      session cookie holds no ';' for the server to split it at. */
  lemma ValidSessionCookies(s: Session)
    requires s.Valid()
    ensures s.adminCookie != "" ==> SplitCookies(JoinCookies([s.adminCookie])) == [s.adminCookie]
    ensures s.userCookie != "" ==> SplitCookies(JoinCookies([s.userCookie])) == [s.userCookie]
  {
    if s.adminCookie != "" {
      SplitJoinCookies([s.adminCookie]);
    }
    if s.userCookie != "" {
      SplitJoinCookies([s.userCookie]);
    }
  }

  /** After logout every library command is refused locally. */
  method LogoutLocksLibrary(s: Session, logoutReply: HttpResponse, reply: HttpResponse)
      returns (sent: seq<Request>, outcome: Outcome)
    requires s.Valid()
    modifies s
    ensures sent == [] && outcome == Rejected
  {
    var _, _ := s.Logout(logoutReply);
    sent, outcome := s.GetMovies(reply);
  }
}
