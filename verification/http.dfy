/** The response side of a request: what a handler writes through its
    http.ResponseWriter, and the two helpers every handler answers with,
    respondWithError and respondWithJSON. */
module Http {
  import opened Records

  datatype Option<+T> = None | Some(value: T)

  /** The generic message of every 500 the service sends. */
  const SomethingWentWrong: string := "Something went wrong"

  /** A JSON (or, for the metrics page, HTML) document written to the client. */
  datatype Payload =
    | ErrorPayload(error: string)             // {"error": ...}
    | CleanedPayload(cleanedBody: string)     // {"cleaned_body": ...}
    | UserPayload(user: UserView)
    | ChirpPayload(chirp: ChirpView)
    | ChirpListPayload(chirps: seq<ChirpView>)
    | MetricsPage(hits: int)                  // the admin HTML page with the hit count

  predicate InYearRange(t: Timestamp) {
    0 <= t.year <= 9999
  }

  predicate ChirpMarshals(c: ChirpView) {
    InYearRange(c.createdAt) && InYearRange(c.updatedAt)
  }

  /** Whether json.Marshal succeeds on the payload, as far as the model
      can tell: only a time.Time can make it fail, and the model keeps only
      its year, which must lie in [0, 9999]. */
  predicate Marshals(p: Payload) {
    match p
    case UserPayload(u) => InYearRange(u.createdAt) && InYearRange(u.updatedAt)
    case ChirpPayload(c) => ChirpMarshals(c)
    case ChirpListPayload(cs) => forall i :: 0 <= i < |cs| ==> ChirpMarshals(cs[i])
    case _ => true
  }

  /** The state of a response being written: the status line, once sent, and
      the documents written so far. */
  datatype Writer = Writer(status: Option<int>, written: seq<Payload>)

  /** The writer a handler starts from. */
  const Unwritten: Writer := Writer(None, [])

  /** Only the first status written reaches the client; a later one is
      ignored as superfluous. */
  function WriteHeader(w: Writer, code: int): Writer {
    if w.status.Some? then w else w.(status := Some(code))
  }

  /** Writing a body before any status sends 200 first. */
  function Write(w: Writer, p: Payload): Writer {
    Writer(if w.status.Some? then w.status else Some(200), w.written + [p])
  }

  /** What the client receives once the handler returns. */
  datatype Response = Response(status: int, body: seq<Payload>)

  function Sent(w: Writer): Response {
    Response(if w.status.Some? then w.status.value else 200, w.written)
  }

  /** A response made of a single error document. */
  function ErrorResponse(code: int, msg: string): Response {
    Response(code, [ErrorPayload(msg)])
  }

  /** What the client receives when a handler answers with respondWithJSON
      on a fresh writer: the code and the payload, or the generic 500 when
      the payload cannot be encoded. */
  function Answer(code: int, p: Payload): Response {
    if Marshals(p) then Response(code, [p]) else ErrorResponse(500, SomethingWentWrong)
  }

  /** respondWithError: the code, then {"error": msg}. Encoding a struct of
      one string cannot fail, so its 500 fallback is never taken. */
  function RespondWithError(w: Writer, code: int, msg: string): (w': Writer)
    ensures w'.written == w.written + [ErrorPayload(msg)]
    ensures w'.status == (if w.status.Some? then w.status else Some(code))
    ensures w == Unwritten ==> Sent(w') == ErrorResponse(code, msg)
  {
    Write(WriteHeader(w, code), ErrorPayload(msg))
  }

  /** respondWithJSON: the code and the payload, or the generic 500 when
      the payload cannot be encoded. */
  function RespondWithJSON(w: Writer, code: int, p: Payload): (w': Writer)
    ensures Marshals(p) ==> w'.written == w.written + [p]
    ensures !Marshals(p) ==> w'.written == w.written + [ErrorPayload(SomethingWentWrong)]
    ensures w.status.Some? ==> w'.status == w.status
    ensures w == Unwritten ==> Sent(w') == Answer(code, p)
  {
    if !Marshals(p) then RespondWithError(w, 500, SomethingWentWrong)
    else Write(WriteHeader(w, code), p)
  }

  /** The rules of the writer: a later status never replaces the first, a
      write keeps the status already sent and otherwise sends 200, and
      every write appends its document. */
  lemma WriterRules(w: Writer, first: int, later: int, p: Payload)
    ensures WriteHeader(WriteHeader(w, first), later) == WriteHeader(w, first)
    ensures Sent(WriteHeader(w, first)).status == if w.status.Some? then w.status.value else first
    ensures Write(WriteHeader(w, first), p).status == WriteHeader(w, first).status
    ensures w.status.None? ==> Sent(Write(w, p)).status == 200
    ensures Sent(Write(w, p)).body == w.written + [p]
  {
  }

  /** Once an error has been sent, nothing the handler writes afterwards
      changes the status the client sees; it only adds to the body. */
  lemma {:induction false} ErrorStatusStands(code: int, msg: string, later: int, p: Payload)
    ensures var w := RespondWithJSON(RespondWithError(Unwritten, code, msg), later, p);
            Sent(w).status == code && |Sent(w).body| == 2 && Sent(w).body[0] == ErrorPayload(msg)
  {
  }
}
