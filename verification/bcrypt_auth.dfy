/**
  Login to the API with a username and password checked against a stored
  bcrypt hash. The three collaborators are parameters: the HTTP Basic
  credential decoder, the user lookup by username and the bcrypt comparison.
  `Authenticate` follows the control flow of wavepipe's Go method
  `BcryptAuth.Authenticate` (api/auth/bcrypt.go) and returns its four-slot
  reply; `Outcome` is the same decision as a tagged result built from one
  function per step, and the lemmas below state how every outcome is reached.
 */
module BcryptAuth {
  import opened Http
  import opened Data

  datatype Option<T> = None | Some(value: T)

  /** Every error that authentication can hand back. */
  datatype Error =
    | NoUsername                  // the resolved username is blank
    | NoPassword                  // the resolved password is blank
    | InvalidUsername             // no user record has that username
    | InvalidPassword             // the password does not match the stored hash
    | Malformed(cause: string)    // the decoder's own error for a bad Authorization header
    | Backend(cause: string)      // a lookup failure other than "no rows"
    | HashFailure(cause: string)  // a bcrypt failure other than a mismatch
  {
    /** Failures caused by the server, not by what the client sent. */
    predicate IsServer() { Backend? || HashFailure? }
    /** Failures the client can fix. */
    predicate IsClient() { !IsServer() }
  }

  type ClientErr = e: Error | e.IsClient() witness NoUsername
  type ServerErr = e: Error | e.IsServer() witness Backend("")

  /** A username/password pair, as sent by the client. */
  datatype Credentials = Credentials(username: string, password: string)

  /** What the HTTP Basic decoder makes of an Authorization header value. */
  datatype Decoding = Decoded(credentials: Credentials) | DecodeFailed(cause: string)

  /** What a lookup of a user by username reports. */
  datatype Lookup = Found(hash: string) | NoRows | LookupFailed(cause: string)

  /** What bcrypt reports when it compares a stored hash with a password. */
  datatype Comparison = Match | Mismatch | CompareFailed(cause: string)

  /** The "Basic" scheme decoder of section 2 of RFC 7617, kept abstract. */
  type Decoder = string -> Decoding
  /** The user store, keyed by username. */
  type UserStore = string -> Lookup
  /** bcrypt's comparison of (stored hash, password). */
  type HashComparer = (string, string) -> Comparison

  /** The four return slots of wavepipe's Go `BcryptAuth.Authenticate`: user, session, client error, server error (None is nil). */
  datatype Reply = Reply(user: Option<User>, session: Option<Session>, clientErr: Option<Error>, serverErr: Option<Error>)

  /** A reply the transport layer can act on: no session, and either a user or exactly one classified error. */
  predicate WellShaped(t: Reply)
  {
    && t.session == None
    && (t.user.Some? <==> t.clientErr.None? && t.serverErr.None?)
    && !(t.clientErr.Some? && t.serverErr.Some?)
    && (t.clientErr.Some? ==> t.clientErr.value.IsClient())
    && (t.serverErr.Some? ==> t.serverErr.value.IsServer())
  }

  /** The reply for a client error. */
  function ClientReply(e: Error): Reply { Reply(None, None, Some(e), None) }

  /** The reply for a server error. */
  function ServerReply(e: Error): Reply { Reply(None, None, None, Some(e)) }

  /** Authentication as wavepipe's Go `BcryptAuth.Authenticate` performs it, branch by branch. */
  function Authenticate(req: Request, decode: Decoder, load: UserStore, compare: HashComparer): (t: Reply)
    ensures WellShaped(t)
  {
    var header := Get(req.header, Authorization);
    var sent := if header == "" then Decoded(Credentials(Get(req.query, "u"), Get(req.query, "p")))
                else decode(header);
    if sent.DecodeFailed? then ClientReply(Malformed(sent.cause))
    else
      var username, password := sent.credentials.username, sent.credentials.password;
      if username == "" then ClientReply(NoUsername)
      else if password == "" then ClientReply(NoPassword)
      else
        match load(username)
        case NoRows => ClientReply(InvalidUsername)
        case LookupFailed(cause) => ServerReply(Backend(cause))
        case Found(hash) =>
          var user := User(username, hash);
          var err := compare(user.password, password);
          if err != Match && err == Mismatch then ClientReply(InvalidPassword)
          else if err != Match && err != Mismatch then ServerReply(HashFailure(err.cause))
          else Reply(Some(user), None, None, None)
  }

  // ---------------------------------------------------------------------------
  // The same decision as a tagged result, one function per step

  /** Either a value, or a failure classified as the client's or the server's. */
  datatype Result<T> = Ok(value: T) | ClientError(client: ClientErr) | ServerError(server: ServerErr)
  {
    predicate IsFailure() { !Ok? }

    function PropagateFailure<U>(): Result<U>
      requires IsFailure()
    {
      if ClientError? then ClientError(client) else ServerError(server)
    }

    function Extract(): T
      requires Ok?
    {
      value
    }
  }

  /** The credentials a request carries: the query's "u" and "p" when it has no
      Authorization header, the decoder's answer for that header otherwise. */
  ghost predicate ResolvesTo(req: Request, decode: Decoder, cr: Credentials)
  {
    var header := Get(req.header, Authorization);
    if header == "" then cr == Credentials(Get(req.query, "u"), Get(req.query, "p"))
    else decode(header) == Decoded(cr)
  }

  /** Step 1: pick the credential source and read the credentials from it. */
  function Resolve(req: Request, decode: Decoder): (r: Result<Credentials>)
    ensures r.Ok? ==> ResolvesTo(req, decode, r.value)
    ensures !r.Ok? ==> r.ClientError? && r.client.Malformed? && ResolvesToFailure(req, decode, r.client.cause)
  {
    var header := Get(req.header, Authorization);
    if header == "" then Ok(Credentials(Get(req.query, "u"), Get(req.query, "p")))
    else
      match decode(header)
      case Decoded(cr) => Ok(cr)
      case DecodeFailed(cause) => ClientError(Malformed(cause))
  }

  /** The request has an Authorization header that the decoder rejects with `cause`. */
  ghost predicate ResolvesToFailure(req: Request, decode: Decoder, cause: string)
  {
    var header := Get(req.header, Authorization);
    header != "" && decode(header) == DecodeFailed(cause)
  }

  /** Step 2: reject a blank username, then a blank password. */
  function RequireNonBlank(cr: Credentials): (r: Result<Credentials>)
    ensures r.Ok? <==> cr.username != "" && cr.password != ""
    ensures r.Ok? ==> r.value == cr
    ensures cr.username == "" ==> r == ClientError(NoUsername)
    ensures cr.username != "" && cr.password == "" ==> r == ClientError(NoPassword)
    ensures !r.ServerError?
  {
    if cr.username == "" then ClientError(NoUsername)
    else if cr.password == "" then ClientError(NoPassword)
    else Ok(cr)
  }

  /** Step 3: load the user by username. */
  function LoadUser(username: string, load: UserStore): (r: Result<User>)
    ensures r.Ok? <==> load(username).Found?
    ensures load(username).Found? ==> r == Ok(User(username, load(username).hash))
    ensures r.ClientError? <==> load(username) == NoRows
    ensures r.ClientError? ==> r.client == InvalidUsername
    ensures load(username).LookupFailed? ==> r == ServerError(Backend(load(username).cause))
  {
    match load(username)
    case Found(hash) => Ok(User(username, hash))
    case NoRows => ClientError(InvalidUsername)
    case LookupFailed(cause) => ServerError(Backend(cause))
  }

  /** Step 4: compare the password with the user's stored hash. */
  function CheckPassword(user: User, password: string, compare: HashComparer): (r: Result<User>)
    ensures r.Ok? <==> compare(user.password, password) == Match
    ensures r.Ok? ==> r.value == user
    ensures r.ClientError? <==> compare(user.password, password) == Mismatch
    ensures r.ClientError? ==> r.client == InvalidPassword
    ensures compare(user.password, password).CompareFailed? ==>
              r == ServerError(HashFailure(compare(user.password, password).cause))
  {
    match compare(user.password, password)
    case Match => Ok(user)
    case Mismatch => ClientError(InvalidPassword)
    case CompareFailed(cause) => ServerError(HashFailure(cause))
  }

  /** Steps 2 to 4, given the credentials. */
  function Verify(cr: Credentials, load: UserStore, compare: HashComparer): (r: Result<User>)
    ensures r.Ok? <==> && cr.username != "" && cr.password != ""
                       && load(cr.username).Found?
                       && compare(load(cr.username).hash, cr.password) == Match
    ensures r.Ok? ==> r.value == User(cr.username, load(cr.username).hash)
    ensures cr.username == "" ==> r == ClientError(NoUsername)
    ensures cr.username != "" && cr.password == "" ==> r == ClientError(NoPassword)
    ensures r.ServerError? ==> cr.username != "" && cr.password != "" && !load(cr.username).NoRows?
    ensures cr.username != "" && cr.password != "" && load(cr.username) == NoRows ==> r == ClientError(InvalidUsername)
    ensures cr.username != "" && cr.password != "" && load(cr.username).LookupFailed? ==>
              r == ServerError(Backend(load(cr.username).cause))
    ensures (cr.username != "" && cr.password != "" && load(cr.username).Found?
             && compare(load(cr.username).hash, cr.password) == Mismatch) ==> r == ClientError(InvalidPassword)
    ensures (cr.username != "" && cr.password != "" && load(cr.username).Found?
             && compare(load(cr.username).hash, cr.password).CompareFailed?) ==>
              r == ServerError(HashFailure(compare(load(cr.username).hash, cr.password).cause))
  {
    var sent :- RequireNonBlank(cr);
    var user :- LoadUser(sent.username, load);
    CheckPassword(user, sent.password, compare)
  }

  /** The four-slot reply that stands for a tagged result. */
  function AsReply(r: Result<User>): (t: Reply)
    ensures WellShaped(t)
    ensures t.user.Some? <==> r.Ok?
    ensures t.clientErr.Some? <==> r.ClientError?
    ensures t.serverErr.Some? <==> r.ServerError?
    ensures r.Ok? ==> t.user == Some(r.value)
    ensures r.ClientError? ==> t.clientErr.Some? && t.clientErr.value == r.client
    ensures r.ServerError? ==> t.serverErr.Some? && t.serverErr.value == r.server
  {
    match r
    case Ok(user) => Reply(Some(user), None, None, None)
    case ClientError(e) => ClientReply(e)
    case ServerError(e) => ServerReply(e)
  }

  /** The tagged result that a well-shaped reply stands for. */
  function FromReply(t: Reply): (r: Result<User>)
    requires WellShaped(t)
    ensures AsReply(r) == t
  {
    if t.user.Some? then Ok(t.user.value)
    else if t.clientErr.Some? then ClientError(t.clientErr.value)
    else ServerError(t.serverErr.value)
  }

  /** Authentication as a tagged result; its four-slot reply is exactly the one `Authenticate` gives. */
  function Outcome(req: Request, decode: Decoder, load: UserStore, compare: HashComparer): (r: Result<User>)
    ensures AsReply(r) == Authenticate(req, decode, load, compare)
  {
    var cr :- Resolve(req, decode);
    Verify(cr, load, compare)
  }

  // ---------------------------------------------------------------------------
  // Properties

  /** The tagged results stand for exactly the well-shaped replies, and no two for the same one. */
  lemma ReplyShape(t: Reply)
    ensures WellShaped(t) <==> exists r :: AsReply(r) == t
    ensures forall r1, r2 :: AsReply(r1) == AsReply(r2) ==> r1 == r2
  {
    if WellShaped(t) {
      var r := FromReply(t);
      assert AsReply(r) == t;
    }
  }

  /** The relation `ResolvesTo` that `Resolve`'s contract uses fixes its value: a request
      carries at most one pair of credentials, and never both a pair and a decoding failure. */
  lemma OneSource(req: Request, decode: Decoder, c1: Credentials, c2: Credentials, cause: string)
    requires ResolvesTo(req, decode, c1)
    ensures ResolvesTo(req, decode, c2) ==> c1 == c2
    ensures !ResolvesToFailure(req, decode, cause)
  {
  }

  /** Without an Authorization header the query's "u" and "p" are used as they are. */
  lemma QueryCredentials(req: Request, decode: Decoder, load: UserStore, compare: HashComparer)
    requires Get(req.header, Authorization) == ""
    ensures Authenticate(req, decode, load, compare)
            == AsReply(Verify(Credentials(Get(req.query, "u"), Get(req.query, "p")), load, compare))
  {
  }

  /** Without an Authorization header the decoder is never consulted. */
  lemma DecoderNotConsulted(req: Request, d1: Decoder, d2: Decoder, load: UserStore, compare: HashComparer)
    requires Get(req.header, Authorization) == ""
    ensures Authenticate(req, d1, load, compare) == Authenticate(req, d2, load, compare)
  {
  }

  /** With an Authorization header the credentials come from the decoder alone, and
      a decoding failure is handed back as the client error. */
  lemma HeaderCredentials(req: Request, decode: Decoder, load: UserStore, compare: HashComparer)
    requires Get(req.header, Authorization) != ""
    ensures var d := decode(Get(req.header, Authorization));
            && (d.Decoded? ==> Authenticate(req, decode, load, compare) == AsReply(Verify(d.credentials, load, compare)))
            && (d.DecodeFailed? ==> Authenticate(req, decode, load, compare) == ClientReply(Malformed(d.cause)))
  {
  }

  /** With an Authorization header the query string is ignored. */
  lemma QueryIgnored(req: Request, query: Values, decode: Decoder, load: UserStore, compare: HashComparer)
    requires Get(req.header, Authorization) != ""
    ensures Authenticate(req, decode, load, compare) == Authenticate(req.(query := query), decode, load, compare)
  {
  }

  /** A blank username is reported first, whatever the password. */
  lemma MissingUsername(req: Request, decode: Decoder, load: UserStore, compare: HashComparer, cr: Credentials)
    requires ResolvesTo(req, decode, cr) && cr.username == ""
    ensures Authenticate(req, decode, load, compare) == ClientReply(NoUsername)
  {
  }

  /** A blank password with a username present is a client error. */
  lemma MissingPassword(req: Request, decode: Decoder, load: UserStore, compare: HashComparer, cr: Credentials)
    requires ResolvesTo(req, decode, cr) && cr.username != "" && cr.password == ""
    ensures Authenticate(req, decode, load, compare) == ClientReply(NoPassword)
  {
  }

  /** Blank credentials are rejected before the user store or bcrypt is consulted. */
  lemma BlankNeverReachesBackend(req: Request, decode: Decoder, cr: Credentials,
                                 l1: UserStore, c1: HashComparer, l2: UserStore, c2: HashComparer)
    requires ResolvesTo(req, decode, cr) && (cr.username == "" || cr.password == "")
    ensures Authenticate(req, decode, l1, c1) == Authenticate(req, decode, l2, c2)
  {
  }

  /** A lookup with no rows is the client's error, any other lookup failure the server's,
      and neither consults bcrypt. */
  lemma LookupClassified(req: Request, decode: Decoder, load: UserStore, c1: HashComparer, c2: HashComparer, cr: Credentials)
    requires ResolvesTo(req, decode, cr) && cr.username != "" && cr.password != ""
    ensures load(cr.username) == NoRows ==> Authenticate(req, decode, load, c1) == ClientReply(InvalidUsername)
    ensures load(cr.username).LookupFailed? ==>
              Authenticate(req, decode, load, c1) == ServerReply(Backend(load(cr.username).cause))
    ensures !load(cr.username).Found? ==> Authenticate(req, decode, load, c1) == Authenticate(req, decode, load, c2)
  {
  }

  /** After a successful lookup, a mismatch is the client's error, any other bcrypt
      failure the server's, and a match logs the loaded user in. */
  lemma ComparisonClassified(req: Request, decode: Decoder, load: UserStore, compare: HashComparer, cr: Credentials)
    requires ResolvesTo(req, decode, cr) && cr.username != "" && cr.password != ""
    requires load(cr.username).Found?
    ensures var hash := load(cr.username).hash;
            var c := compare(hash, cr.password);
            && (c == Mismatch ==> Authenticate(req, decode, load, compare) == ClientReply(InvalidPassword))
            && (c.CompareFailed? ==> Authenticate(req, decode, load, compare) == ServerReply(HashFailure(c.cause)))
            && (c == Match ==> Authenticate(req, decode, load, compare) == Reply(Some(User(cr.username, hash)), None, None, None))
  {
  }

  /** Credentials that a request can carry and that bcrypt accepts for the stored user. */
  ghost predicate Accepted(req: Request, decode: Decoder, load: UserStore, compare: HashComparer, cr: Credentials)
  {
    && ResolvesTo(req, decode, cr)
    && cr.username != "" && cr.password != ""
    && load(cr.username).Found?
    && compare(load(cr.username).hash, cr.password) == Match
  }

  /** A user comes back exactly when the request's credentials are non-blank, the
      lookup found the user and bcrypt matched; the user is the one loaded. */
  lemma AuthenticatedExactly(req: Request, decode: Decoder, load: UserStore, compare: HashComparer)
    ensures var t := Authenticate(req, decode, load, compare);
            && (t.user.Some? <==> exists cr :: Accepted(req, decode, load, compare, cr))
            && (forall cr :: Accepted(req, decode, load, compare, cr) ==>
                  t.user == Some(User(cr.username, load(cr.username).hash)))
  {
    var r := Resolve(req, decode);
    if r.Ok? && Outcome(req, decode, load, compare).Ok? {
      assert Accepted(req, decode, load, compare, r.value);
    }
  }

  /** `hash` is a well-formed bcrypt hash of `secret`: bcrypt matches `secret` against it
      and never fails on it. bcrypt reads only the first 72 bytes of a password, so
      passwords other than `secret` may match too. */
  ghost predicate HashOf(compare: HashComparer, hash: string, secret: string)
  {
    && compare(hash, secret) == Match
    && forall p :: !compare(hash, p).CompareFailed?
  }

  /** For a stored user whose hash is a well-formed hash of `secret`, the secret logs in,
      any password bcrypt rejects is an invalid password, and no password gives a server error. */
  lemma PasswordDecides(req: Request, decode: Decoder, load: UserStore, compare: HashComparer,
                        cr: Credentials, secret: string)
    requires ResolvesTo(req, decode, cr) && cr.username != "" && cr.password != ""
    requires load(cr.username).Found? && HashOf(compare, load(cr.username).hash, secret)
    ensures var t := Authenticate(req, decode, load, compare);
            && (cr.password == secret ==> t == Reply(Some(User(cr.username, load(cr.username).hash)), None, None, None))
            && (t.serverErr == None)
            && (t.user == None <==> t == ClientReply(InvalidPassword))
            && (t == ClientReply(InvalidPassword) <==> compare(load(cr.username).hash, cr.password) == Mismatch)
  {
  }

  /** Every client error can occur. */
  lemma ClientErrorsOccur(e: ClientErr)
    ensures exists req, decode, load, compare :: Outcome(req, decode, load, compare) == ClientError(e)
  {
    var withHeader := Request(map[Authorization := ["Basic"]], map[]);
    var noStore: UserStore := u => NoRows;
    var noHash: HashComparer := (h, p) => Mismatch;
    var found: UserStore := u => Found("hash");
    match e {
      case NoUsername =>
        var decode: Decoder := h => Decoded(Credentials("", ""));
        assert Outcome(withHeader, decode, noStore, noHash) == ClientError(e);
      case NoPassword =>
        var decode: Decoder := h => Decoded(Credentials("alice", ""));
        assert Outcome(withHeader, decode, noStore, noHash) == ClientError(e);
      case InvalidUsername =>
        var decode: Decoder := h => Decoded(Credentials("bob", "x"));
        assert Outcome(withHeader, decode, noStore, noHash) == ClientError(e);
      case InvalidPassword =>
        var decode: Decoder := h => Decoded(Credentials("alice", "wrong"));
        assert Outcome(withHeader, decode, found, noHash) == ClientError(e);
      case Malformed(cause) =>
        var decode: Decoder := h => DecodeFailed(cause);
        assert Outcome(withHeader, decode, noStore, noHash) == ClientError(e);
    }
  }

  /** Every server error can occur. */
  lemma ServerErrorsOccur(e: ServerErr)
    ensures exists req, decode, load, compare :: Outcome(req, decode, load, compare) == ServerError(e)
  {
    var withHeader := Request(map[Authorization := ["Basic"]], map[]);
    var decode: Decoder := h => Decoded(Credentials("alice", "wonder"));
    match e {
      case Backend(cause) =>
        var load: UserStore := u => LookupFailed(cause);
        var compare: HashComparer := (h, p) => Match;
        assert Outcome(withHeader, decode, load, compare) == ServerError(e);
      case HashFailure(cause) =>
        var load: UserStore := u => Found("hash");
        var compare: HashComparer := (h, p) => CompareFailed(cause);
        assert Outcome(withHeader, decode, load, compare) == ServerError(e);
    }
  }

  /** Every user with a non-blank username can log in. */
  lemma SuccessOccurs(user: User)
    requires user.username != ""
    ensures exists req, decode, load, compare :: Outcome(req, decode, load, compare) == Ok(user)
  {
    var req := Request(map[], map["u" := [user.username], "p" := ["secret"]]);
    var decode: Decoder := h => DecodeFailed("unused");
    var load: UserStore := u => Found(user.password);
    var compare: HashComparer := (h, p) => Match;
    assert Outcome(req, decode, load, compare) == Ok(user);
  }

  /** A worked scenario: "alice" is stored with the hash of "wonder" and "bob" is unknown. */
  lemma AliceScenario(decode: Decoder, load: UserStore, compare: HashComparer, hash: string)
    requires decode("Basic YWxpY2U6d29uZGVy") == Decoded(Credentials("alice", "wonder"))
    requires decode("Basic YWxpY2U6d3Jvbmc=") == Decoded(Credentials("alice", "wrong"))
    requires decode("Basic YWxpY2U6") == Decoded(Credentials("alice", ""))
    requires load("alice") == Found(hash) && load("bob") == NoRows
    requires compare(hash, "wonder") == Match && compare(hash, "wrong") == Mismatch
    ensures Authenticate(Request(map[Authorization := ["Basic YWxpY2U6d29uZGVy"]], map[]), decode, load, compare)
            == Reply(Some(User("alice", hash)), None, None, None)
    ensures Authenticate(Request(map[Authorization := ["Basic YWxpY2U6d3Jvbmc="]], map[]), decode, load, compare)
            == ClientReply(InvalidPassword)
    ensures Authenticate(Request(map[], map["u" := ["bob"], "p" := ["x"]]), decode, load, compare)
            == ClientReply(InvalidUsername)
    ensures Authenticate(Request(map[Authorization := ["Basic YWxpY2U6"]], map[]), decode, load, compare)
            == ClientReply(NoPassword)
  {
  }
}
