/** The API handlers of apiConfig. Each one is a decision table over the
    outcomes of its collaborators: the JSON decoder (an Option, None when
    the body does not decode), the password hasher and checker, and the
    queries of the database layer (functions returning None on error). */
module Handlers {
  import opened Records
  import opened Http
  import opened Validator

  /** The body of POST /api/users and POST /api/login. */
  datatype Credentials = Credentials(email: string, password: string)

  /** The body of POST /api/chirps. */
  datatype ChirpParams = ChirpParams(body: string, userId: Uuid)

  const IncorrectLogin: string := "Incorrect email or password"
  /** The login handler's decode error, spelled with a lower-case s unlike
      every other handler's. */
  const LoginDecodeFailed: string := "something went wrong"
  const ChirpNotFound: string := "Chirp not found"

  // ---------------------------------------------------------------- users

  /** The stored user, when decoding, hashing and the insert all succeed. */
  function CreatedUser(decoded: Option<Credentials>,
                       hashPassword: string -> Option<string>,
                       createUser: (string, string) -> Option<User>): Option<User>
  {
    if decoded.None? then None
    else
      var hash := hashPassword(decoded.value.password);
      if hash.None? then None else createUser(decoded.value.email, hash.value)
  }

  /** handleCreateUser: 201 with the public view of the stored user, or the
      generic 500 when any step fails. The insert receives the hash of the
      password, never the password. */
  function HandleCreateUser(decoded: Option<Credentials>,
                            hashPassword: string -> Option<string>,
                            createUser: (string, string) -> Option<User>): (r: Response)
    ensures r.status == 201 || r == ErrorResponse(500, SomethingWentWrong)
    ensures decoded.None? ==> r == ErrorResponse(500, SomethingWentWrong)
    ensures decoded.Some? && hashPassword(decoded.value.password).None? ==>
              r == ErrorResponse(500, SomethingWentWrong)
    ensures decoded.Some? && hashPassword(decoded.value.password).Some? &&
            createUser(decoded.value.email, hashPassword(decoded.value.password).value).None? ==>
              r == ErrorResponse(500, SomethingWentWrong)
    ensures var u := CreatedUser(decoded, hashPassword, createUser);
            u.Some? ==> r == Answer(201, UserPayload(UserView(u.value.id, u.value.createdAt,
                                                                u.value.updatedAt, u.value.email)))
  {
    match decoded
    case None => Sent(RespondWithError(Unwritten, 500, SomethingWentWrong))
    case Some(req) =>
      match hashPassword(req.password)
      case None => Sent(RespondWithError(Unwritten, 500, SomethingWentWrong))
      case Some(hash) =>
        match createUser(req.email, hash)
        case None => Sent(RespondWithError(Unwritten, 500, SomethingWentWrong))
        case Some(user) => Sent(RespondWithJSON(Unwritten, 201, UserPayload(PublicUser(user))))
  }

  // --------------------------------------------------------------- chirps

  /** handleCreateChirp: 201 echoing the stored chirp, or the generic 500
      when the body does not decode or the insert fails. */
  function HandleCreateChirp(decoded: Option<ChirpParams>,
                             createChirp: (string, Uuid) -> Option<Chirp>): (r: Response)
    ensures decoded.None? ==> r == ErrorResponse(500, SomethingWentWrong)
    ensures decoded.Some? && createChirp(decoded.value.body, decoded.value.userId).None? ==>
              r == ErrorResponse(500, SomethingWentWrong)
    ensures decoded.Some? && createChirp(decoded.value.body, decoded.value.userId).Some? ==>
              var c := createChirp(decoded.value.body, decoded.value.userId).value;
              r == Answer(201, ChirpPayload(ChirpView(c.id, c.createdAt, c.updatedAt, c.body, c.userId)))
  {
    match decoded
    case None => Sent(RespondWithError(Unwritten, 500, SomethingWentWrong))
    case Some(params) =>
      match createChirp(params.body, params.userId)
      case None => Sent(RespondWithError(Unwritten, 500, SomethingWentWrong))
      case Some(chirp) => Sent(RespondWithJSON(Unwritten, 201, ChirpPayload(PublicChirp(chirp))))
  }

  /** Creating a chirp checks neither its length nor its words: a body the
      validator refuses as too long is stored and echoed as it is. */
  lemma CreateChirpSkipsLengthCheck(body: string, author: Uuid,
                                    createChirp: (string, Uuid) -> Option<Chirp>)
    requires |body| > MaxChirpLength
    requires createChirp(body, author).Some?
    requires createChirp(body, author).value.body == body
    requires ChirpMarshals(PublicChirp(createChirp(body, author).value))
    ensures ChirpValidator(Some(ValidateRequest(body))).status == 400
    ensures var r := HandleCreateChirp(Some(ChirpParams(body, author)), createChirp);
            r.status == 201 && r.body[0].chirp.body == body
  {
  }

  /** handleGetChirp: the generic 500 for an id that does not parse, 404
      for any failure of the lookup, otherwise 200 with the chirp. */
  function HandleGetChirp(parsed: Option<Uuid>, getChirp: Uuid -> Option<Chirp>): (r: Response)
    ensures parsed.None? ==> r == ErrorResponse(500, SomethingWentWrong)
    ensures parsed.Some? && getChirp(parsed.value).None? ==> r == ErrorResponse(404, ChirpNotFound)
    ensures parsed.Some? && getChirp(parsed.value).Some? ==>
              var c := getChirp(parsed.value).value;
              r == Answer(200, ChirpPayload(ChirpView(c.id, c.createdAt, c.updatedAt, c.body, c.userId)))
  {
    match parsed
    case None => Sent(RespondWithError(Unwritten, 500, SomethingWentWrong))
    case Some(id) =>
      match getChirp(id)
      case None => Sent(RespondWithError(Unwritten, 404, ChirpNotFound))
      case Some(chirp) => Sent(RespondWithJSON(Unwritten, 200, ChirpPayload(PublicChirp(chirp))))
  }

  /** A 404 means exactly that the id parsed and the lookup failed. */
  lemma NotFoundOnlyForFailedLookup(parsed: Option<Uuid>, getChirp: Uuid -> Option<Chirp>)
    ensures HandleGetChirp(parsed, getChirp).status == 404 <==>
              parsed.Some? && getChirp(parsed.value).None?
  {
  }

  /** The chirps as the list endpoint sends them, one view per stored chirp. */
  function ChirpViews(cs: seq<Chirp>): (r: seq<ChirpView>)
    ensures |r| == |cs|
    ensures forall i :: 0 <= i < |cs| ==> r[i] == PublicChirp(cs[i])
  {
    if cs == [] then [] else [PublicChirp(cs[0])] + ChirpViews(cs[1..])
  }

  /** handleGetChirps as written. listed is the result of the query, None
      when it fails; the query then returns no rows. The error branch has
      no return, so the handler goes on to write the (empty) list with 200,
      which the writer ignores as a superfluous status. */
  function GetChirpsAsWritten(listed: Option<seq<Chirp>>): (r: Response)
    ensures listed.Some? ==> r == Answer(200, ChirpListPayload(ChirpViews(listed.value)))
    ensures listed.None? ==>
              r == Response(500, [ErrorPayload(SomethingWentWrong), ChirpListPayload([])])
  {
    var rows := if listed.Some? then listed.value else [];
    var w := if listed.None? then RespondWithError(Unwritten, 500, SomethingWentWrong) else Unwritten;
    Sent(RespondWithJSON(w, 200, ChirpListPayload(ChirpViews(rows))))
  }

  /** The list handler as it runs: the loop appends one view per row. */
  method HandleGetChirps(listed: Option<seq<Chirp>>) returns (r: Response)
    ensures r == GetChirpsAsWritten(listed)
  {
    var w := Unwritten;
    var chirps: seq<Chirp> := [];
    if listed.None? {
      w := RespondWithError(w, 500, SomethingWentWrong);
    } else {
      chirps := listed.value;
    }
    var res: seq<ChirpView> := [];
    var i := 0;
    while i < |chirps|
      invariant 0 <= i <= |chirps|
      invariant |res| == i
      invariant forall j :: 0 <= j < i ==> res[j] == PublicChirp(chirps[j])
    {
      res := res + [PublicChirp(chirps[i])];
      i := i + 1;
    }
    assert res == ChirpViews(chirps);
    w := RespondWithJSON(w, 200, ChirpListPayload(res));
    r := Sent(w);
  }

  /** The list keeps the length and the order of the query's rows. */
  lemma ListingKeepsStoreOrder(rows: seq<Chirp>)
    requires forall i :: 0 <= i < |rows| ==> ChirpMarshals(PublicChirp(rows[i]))
    ensures var r := GetChirpsAsWritten(Some(rows));
            r.status == 200 && |r.body| == 1 && r.body[0].ChirpListPayload?
            && |r.body[0].chirps| == |rows|
            && forall i :: 0 <= i < |rows| ==> r.body[0].chirps[i].id == rows[i].id
                                               && r.body[0].chirps[i].body == rows[i].body
  {
    var vs := ChirpViews(rows);
    assert forall i :: 0 <= i < |vs| ==> ChirpMarshals(vs[i]);
  }

  /** handleGetChirps as evidently intended: a failed query answers with
      the generic 500 and nothing else. */
  function GetChirpsResponse(listed: Option<seq<Chirp>>): (r: Response)
    ensures listed.None? ==> r == ErrorResponse(500, SomethingWentWrong)
    ensures listed.Some? ==> r == GetChirpsAsWritten(listed)
  {
    match listed
    case None => Sent(RespondWithError(Unwritten, 500, SomethingWentWrong))
    case Some(rows) => Sent(RespondWithJSON(Unwritten, 200, ChirpListPayload(ChirpViews(rows))))
  }

  /** On a failed query the handler as written sends the error document
      followed by a second document, so the body is not the single error
      object every other failure sends. */
  lemma GetChirpsErrorFallsThrough()
    ensures GetChirpsAsWritten(None).status == 500
    ensures |GetChirpsAsWritten(None).body| == 2
    ensures GetChirpsAsWritten(None) != GetChirpsResponse(None)
  {
  }

  // ---------------------------------------------------------------- login

  /** Whether the credentials name a stored user whose hash matches the
      password. */
  predicate Authenticated(req: Credentials,
                          getUserByEmail: string -> Option<User>,
                          checkPasswordHash: (string, string) -> bool)
  {
    var user := getUserByEmail(req.email);
    user.Some? && checkPasswordHash(req.password, user.value.hashedPassword)
  }

  /** handleLogin: 500 when the body does not decode, the same 401 for an
      unknown email and for a wrong password, otherwise 200 with the public
      view of the user. */
  function HandleLogin(decoded: Option<Credentials>,
                       getUserByEmail: string -> Option<User>,
                       checkPasswordHash: (string, string) -> bool): (r: Response)
    ensures decoded.None? ==> r == ErrorResponse(500, LoginDecodeFailed)
    ensures decoded.Some? && getUserByEmail(decoded.value.email).None? ==>
              r == ErrorResponse(401, IncorrectLogin)
    ensures decoded.Some? && !Authenticated(decoded.value, getUserByEmail, checkPasswordHash) ==>
              r == ErrorResponse(401, IncorrectLogin)
    ensures decoded.Some? && Authenticated(decoded.value, getUserByEmail, checkPasswordHash) ==>
              var u := getUserByEmail(decoded.value.email).value;
              r == Answer(200, UserPayload(UserView(u.id, u.createdAt, u.updatedAt, u.email)))
  {
    match decoded
    case None => Sent(RespondWithError(Unwritten, 500, LoginDecodeFailed))
    case Some(req) =>
      match getUserByEmail(req.email)
      case None => Sent(RespondWithError(Unwritten, 401, IncorrectLogin))
      case Some(user) =>
        if !checkPasswordHash(req.password, user.hashedPassword) then
          Sent(RespondWithError(Unwritten, 401, IncorrectLogin))
        else
          Sent(RespondWithJSON(Unwritten, 200, UserPayload(PublicUser(user))))
  }

  /** The 401 does not tell an unknown email from a wrong password. */
  lemma LoginFailuresLookAlike(unknown: Credentials, wrong: Credentials,
                               getUserByEmail: string -> Option<User>,
                               checkPasswordHash: (string, string) -> bool)
    requires getUserByEmail(unknown.email).None?
    requires getUserByEmail(wrong.email).Some?
    requires !checkPasswordHash(wrong.password, getUserByEmail(wrong.email).value.hashedPassword)
    ensures HandleLogin(Some(unknown), getUserByEmail, checkPasswordHash)
         == HandleLogin(Some(wrong), getUserByEmail, checkPasswordHash)
  {
  }

  /** A user who signed up can log in with the same password, and both
      endpoints describe the user the same way, provided the checker
      accepts a password against its own hash and the lookup by email
      finds the stored user. */
  lemma SignedUpUserCanLogIn(req: Credentials,
                             hashPassword: string -> Option<string>,
                             createUser: (string, string) -> Option<User>,
                             getUserByEmail: string -> Option<User>,
                             checkPasswordHash: (string, string) -> bool)
    requires CreatedUser(Some(req), hashPassword, createUser).Some?
    requires getUserByEmail(req.email) == CreatedUser(Some(req), hashPassword, createUser)
    requires createUser(req.email, hashPassword(req.password).value).value.hashedPassword
             == hashPassword(req.password).value
    requires checkPasswordHash(req.password, hashPassword(req.password).value)
    ensures HandleLogin(Some(req), getUserByEmail, checkPasswordHash).body
         == HandleCreateUser(Some(req), hashPassword, createUser).body
    ensures HandleCreateUser(Some(req), hashPassword, createUser).status == 201 ==>
              HandleLogin(Some(req), getUserByEmail, checkPasswordHash).status == 200
  {
  }
}
