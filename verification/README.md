# Chirpy (goserver) in Dafny

A model of the core of Chirpy, a small Go web service for posting short
messages ("chirps"). The model covers:

- the content filter `replaceBadWords` that masks the banned words
  `kerfuffle`, `sharbert` and `fornax`;
- the `POST /api/validate_chirp` decision table built on top of it;
- how `respondWithError` and `respondWithJSON` pick the status and the body
  of a response;
- the `apiConfig` state: its page-hit counter, the metrics page and the
  dev-only reset;
- the decision logic of the user, chirp and login handlers.

Modules:

- `Records` (`records.dfy`): the database rows and the public views the
  handlers send back.
- `Http` (`http.dfy`): a response writer with the semantics of net/http,
  plus the two `respondWith` helpers. Only the first status written
  reaches the client. A body written before any status sends 200.
  `json.Marshal` can fail only on a time; the model keeps the year of a
  time, and a year outside [0, 9999] makes encoding fail.
- `Moderation` (`moderation.dfy`):
  - the string functions the filter is built from, as recursive functions;
  - `ReplaceBadWords`, the filter's loop as the source writes it, with
    its `make` padding;
  - the filter's specification `Moderate`, and the lemmas about it.
- `Validator` (`validator.dfy`): `chirpValidator`.
- `Config` (`config.dfy`): `apiConfig` as a class. The counter is an
  `atomic.Int32` and wraps around in two's complement. The user table is a
  `seq<User>` that the reset empties.
- `Handlers` (`handlers.dfy`): the handlers of `config.go`.
  - Collaborators are parameters: the password hasher and checker, and
    the database queries, which return `None` on error.
  - A request body that fails to decode is a `None` input.
  - `handleGetChirps` is a method with the source's append loop.

Strings are sequences of bytes (one `char` per byte), so `len` is `|s|`.
Lower-casing is ASCII.

Unlike `POST /api/validate_chirp`, `handleCreateChirp` (config.go:94-131)
does not check the 140-byte limit: it stores any body.
`Handlers.CreateChirpSkipsLengthCheck` states the difference.

## Model

| member | source | states |
|---|---|---|
| Moderation.Split | main.go:110 | strings.Split on a space yields at least one piece and no piece holds a space |
| Moderation.TrimLeft | main.go:120 | what is left is a suffix not starting with a space, and only spaces were removed |
| Moderation.TrimRight | main.go:120 | what is left is a prefix not ending with a space, and only spaces were removed |
| Moderation.Trim | main.go:120 | no space is left at either end; a string with no space at its ends is unchanged |
| Moderation.TrimRemovesOnlyEdgeSpaces | main.go:120 | the trimmed string is a run of the message with nothing but spaces before and after it, so trimming removes only edge spaces |
| Moderation.MaskTokens | main.go:113-119 | same number of tokens; a token becomes `****` exactly when its lower-case form is banned, and every other token is kept as it is, in place |
| Moderation.Moderate | main.go:108-121 | the filtered message never starts or ends with a space |
| Moderation.ReplaceBadWords | main.go:108-121 | the loop over the lower-cased pieces, appending after the n empty placeholders and then joining and trimming, computes exactly `Moderate` |
| Moderation.SplitLowerAligned | main.go:110-111 | the pieces of the lower-cased message are the lower-cased pieces of the message, so `msgSlice[idx]` is the piece matching `lowerSlice[idx]` |
| Moderation.LowerIsAsciiLowerCase | main.go:111 | lower-casing maps each upper-case ASCII letter to its lower-case form, leaves every other byte and so every space in place, keeps the length, and is idempotent |
| Moderation.JoinSnoc | main.go:120 | joining one more token adds a space and the token |
| Moderation.JoinCons | main.go:120 | joining a token in front adds the token and a space |
| Moderation.BlanksCons | main.go:112 | the `make` padding is a run of empty strings in front of the appended tokens |
| Moderation.JoinSplit | main.go:110-120 | joining the pieces of a split with a space gives the message back |
| Moderation.SplitJoin | main.go:110-120 | splitting a join of space-free tokens gives the tokens back |
| Moderation.PaddingTrimmed | main.go:112-120 | the n empty strings from `make` only add leading spaces, and the trim removes them |
| Moderation.TrimJoin | main.go:120 | trimming joined tokens is joining them without the empty tokens at either end |
| Moderation.DropEdgeEmpty | main.go:120 | an infix of the tokens that neither starts nor ends with an empty token |
| Moderation.DropEdgeEmptyDropsOnlyEmpty | main.go:120 | every token dropped at either end is empty |
| Moderation.BadWordsMasked | main.go:109-118 | a token whose lower-case form is one of the three words is masked, and the list holds the words in lower case |
| Moderation.NotBannedByLength | main.go:109-114 | a token whose length is not 9, 8 or 6 is never banned |
| Moderation.MaskNotBanned | main.go:109-117 | `****` itself is not banned |
| Moderation.FixedNotBanned | main.go:113-118 | a token the filter leaves alone is not banned |
| Moderation.MaskTokenNoLonger | main.go:109-118 | masking never lengthens a token |
| Moderation.MaskTokenIdempotent | main.go:109-117 | `****` is not banned, so masking a token twice is masking it once |
| Moderation.MatchingIsWholeTokenCaseInsensitive | main.go:111-114 | `Sharbert` and `KERFUFFLE` are masked; `kerfuffle!` and `fornaxes` are kept |
| Moderation.ModerateShape | main.go:108-121 | the output is the masked tokens joined by single spaces, without empty tokens at the ends, so interior runs of spaces are kept |
| Moderation.ModerateTokens | main.go:108-121 | splitting the output gives back the masked tokens in the message's order, without empty tokens at the ends |
| Moderation.ModerateTokensFixed | main.go:108-121 | every token of the output is either `****` or a token that is not banned |
| Moderation.ModerateLeavesNoBadWord | main.go:108-121 | no token of the output is a banned word in any case |
| Moderation.ModerateKeepsCleanMessage | main.go:108-121 | a message with no banned token and no space at its ends comes out unchanged |
| Moderation.ModerateIdempotent | main.go:108-121 | filtering twice is filtering once |
| Moderation.ModerateNoLonger | main.go:108-121 | the output is never longer than the message, because every banned word is longer than `****` |
| Moderation.KerfuffleExample | main.go:108-121 | "This is a kerfuffle opinion I need to share with the world" becomes "This is a **** opinion I need to share with the world" |
| Moderation.InteriorSpacingKept | main.go:110-120 | "a  b" comes out as "a  b" |
| Moderation.ModerateIgnoresLeadingSpace | main.go:112-120 | a space in front of a message does not change the output |
| Moderation.EdgeSpacingTrimmed | main.go:110-120 | " Fornax ", the join of `["", "Fornax", ""]`, becomes "****" |
| Http.RespondWithError | main.go:84-95 | appends `{"error": msg}`; the status is `code` unless one was already written; on a fresh writer the client gets exactly `code` and the error document |
| Http.RespondWithJSON | main.go:96-106 | an encodable payload is written with `code`; one that cannot be encoded gives the generic 500 error instead; a status already written is kept |
| Http.WriterRules | main.go:84-106 | a later status never replaces the first one, a write keeps the status already sent or else sends 200, and every write appends its document |
| Http.ErrorStatusStands | main.go:84-106 | after an error response, a later JSON response leaves the status at the error's code and adds a second document |
| Validator.ChirpValidator | main.go:59-83 | decode failure gives 500 "Something went wrong"; more than 140 bytes gives 400 "Chirp is too long"; otherwise 200 with `cleaned_body` equal to the filtered body |
| Validator.LengthBoundary | main.go:74 | 140 bytes are accepted and 141 are refused |
| Validator.CleanedBodyIsClean | main.go:78-82 | an accepted chirp comes back without edge spaces or banned tokens, within 140 bytes, and validating it again returns it unchanged |
| Config.Wrap32 | config.go:17 | the counter value is the only int32 congruent to the exact sum modulo 2^32 |
| Config.AfterRequests | config.go:17-24 | the counter stays an int32 after any number of increments |
| Config.AfterRequestsWrapsSum | config.go:17-24 | after n requests the counter is the wrapped sum of its start and n |
| Config.CounterCountsRequests | config.go:24 | from zero, n requests leave the counter at n while n fits in an int32 |
| Config.CounterWrapsNegative | config.go:17-24 | one request past 2147483647 turns the counter to -2147483648 |
| Config.ApiConfig.constructor | config.go:48-53 | a new configuration starts with zero hits on the given platform |
| Config.ApiConfig.MiddlewareMetricsInc | config.go:22-27 | the counter goes up by one (modulo int32), the users are untouched, and the response is the wrapped handler's |
| Config.ApiConfig.GetFileServerHits | config.go:29-34 | 200 with the page showing the current count; nothing changes |
| Config.ApiConfig.ResetServerHits | config.go:36-46 | off "dev": 403 "Forbidden" and nothing changes; on "dev": 200 with an empty body, the counter at zero and the users deleted, and a failed deletion does not change the response |
| Config.ServeRequests | config.go:22-27 | serving a sequence of requests through the middleware answers each as the wrapped handler does, and leaves the counter where n increments take it |
| Config.ResetThenMetrics | config.go:29-46 | on "dev", the metrics page after a reset reports zero visits |
| Records.PublicUserHidesOnlyTheHash | config.go:79-90 | two users have the same view exactly when they differ at most in the password hash, so the hash never reaches the client |
| Records.PublicChirpKeepsEveryField | config.go:115-128 | two chirps have the same view exactly when they are equal, so the view echoes every stored field |
| Handlers.HandleCreateUser | config.go:55-92 | a decode, hash or insert failure gives 500 "Something went wrong"; success gives 201 with only the stored user's id, timestamps and email |
| Handlers.HandleCreateChirp | config.go:94-131 | a decode or insert failure gives 500; success gives 201 echoing the stored chirp |
| Handlers.CreateChirpSkipsLengthCheck | config.go:94-131 | a body over 140 bytes, which the validator refuses with 400, is stored and echoed with 201 |
| Handlers.HandleGetChirp | config.go:154-183 | an id that does not parse gives 500; any lookup failure gives 404 "Chirp not found"; otherwise 200 with the chirp |
| Handlers.NotFoundOnlyForFailedLookup | config.go:161-165 | the status is 404 exactly when the id parsed and the lookup failed |
| Handlers.ChirpViews | config.go:146-149 | one view per row, in the rows' order |
| Handlers.GetChirpsAsWritten | config.go:133-152 | a successful query gives 200 with the list; a failed one gives status 500 with the error document followed by an empty list |
| Handlers.HandleGetChirps | config.go:133-152 | the append loop builds exactly the listing response |
| Handlers.ListingKeepsStoreOrder | config.go:146-150 | the list has the query's length and order |
| Handlers.GetChirpsResponse | config.go:133-152 | a failed query gives exactly the generic 500 error document; a successful one is unchanged |
| Handlers.GetChirpsErrorFallsThrough | config.go:135-138 | on a failed query the handler sends 500 with two documents, not the single error document |
| Handlers.HandleLogin | config.go:185-219 | decode failure gives 500 "something went wrong"; an unknown email or a wrong password gives 401 "Incorrect email or password"; success gives 200 with the user's id, timestamps and email |
| Handlers.LoginFailuresLookAlike | config.go:197-205 | the responses for an unknown email and for a wrong password are identical |
| Handlers.SignedUpUserCanLogIn | config.go:55-218 | if the checker accepts a password against its own hash, a user who signed up logs in with 200 and the same public view |

## Left out

- `main`: environment loading, opening the database, routing, the static
  file server and `ListenAndServe` are wiring and I/O. `healtWriter` is a
  constant response.
- internal/auth/auth.go is a wrapper over bcrypt. Hashing and checking are
  parameters of the handlers, and no cryptographic property is claimed.
- The internal/database query layer is not part of this model. Its queries
  are parameters whose `None` result stands for any error. UUID
  generation, timestamps, `req.Context()` and logging are left out with it.
- JSON wire bytes: decoding is an `Option` input and a body is a `Payload`
  value. Two consequences:
  - an empty chirp list is sent as `null` (a nil slice) in the source, but
    in the model it is an empty `ChirpListPayload`;
  - the `Content-Type` headers are not modelled.
- Times: a `time.Time` keeps only its year. Encoding a time also fails
  when its zone offset is 24 hours or more; that failure is not modelled,
  so `Marshals` may accept a payload the service would not encode.
- Handlers.GetChirpsAsWritten: a failed `GetChirps` query is assumed to
  return no rows alongside its error, as queries generated over
  database/sql do. The query layer is not part of this model, so the
  second document of the error response rests on that assumption.
- Concurrency: `atomic.Int32` makes each increment atomic. The model runs
  requests one at a time.
- Unicode: `strings.ToLower` is modelled on ASCII letters only. A message
  is a sequence of bytes.
- The 500 fallback of `respondWithError` (main.go:87-91) is not modelled,
  because encoding a struct holding one string cannot fail.
- Config.ApiConfig.ResetServerHits: `DeleteUsers` is modelled as a
  success flag. The rows it deletes and any error beyond that flag are
  not modelled.
- Config.ApiConfig.MiddlewareMetricsInc: the wrapped handler is a function
  of the request alone. It cannot observe the updated counter.

## Findings

| source | as written | input that shows it | evidently intended | confidence | as-written member | corrected member |
|---|---|---|---|---|---|---|
| config.go:135-138 | the error branch of `handleGetChirps` calls `respondWithError` without `return`, so the handler also writes the chirp list; the status stays 500 and the body is the error document followed by `null` | any error from `GetChirps` | answer with the single 500 error document and stop | high, not executed | Handlers.GetChirpsAsWritten | Handlers.GetChirpsResponse |
