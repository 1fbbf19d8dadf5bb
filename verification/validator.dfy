/** chirpValidator, the POST /api/validate_chirp endpoint: checks the
    length of a chirp and returns it through the content filter. */
module Validator {
  import opened Http
  import opened Moderation

  /** The decoded request body {"body": ...}. */
  datatype ValidateRequest = ValidateRequest(body: string)

  /** The longest chirp accepted, in bytes. */
  const MaxChirpLength: nat := 140

  const ChirpTooLong: string := "Chirp is too long"

  /** The endpoint's decision table: a body that does not decode is a 500,
      a body over 140 bytes a 400, anything else a 200 with the filtered
      body. */
  function ChirpValidator(decoded: Option<ValidateRequest>): (r: Response)
    ensures decoded.None? ==> r == ErrorResponse(500, SomethingWentWrong)
    ensures decoded.Some? && |decoded.value.body| > MaxChirpLength ==>
              r == ErrorResponse(400, ChirpTooLong)
    ensures decoded.Some? && |decoded.value.body| <= MaxChirpLength ==>
              r == Response(200, [CleanedPayload(Moderate(decoded.value.body))])
  {
    match decoded
    case None => Sent(RespondWithError(Unwritten, 500, SomethingWentWrong))
    case Some(params) =>
      if |params.body| > MaxChirpLength then Sent(RespondWithError(Unwritten, 400, ChirpTooLong))
      else Sent(RespondWithJSON(Unwritten, 200, CleanedPayload(Moderate(params.body))))
  }

  /** The length limit is inclusive: 140 bytes are accepted, 141 are not. */
  lemma LengthBoundary(at: string, over: string)
    requires |at| == 140 && |over| == 141
    ensures ChirpValidator(Some(ValidateRequest(at))).status == 200
    ensures ChirpValidator(Some(ValidateRequest(over))) == ErrorResponse(400, ChirpTooLong)
  {
  }

  /** An accepted chirp comes back clean: no space at either end, no token
      that is a banned word in any case, and validating the cleaned body
      again gives it back unchanged. */
  lemma CleanedBodyIsClean(body: string)
    requires |body| <= MaxChirpLength
    ensures var r := ChirpValidator(Some(ValidateRequest(body)));
            r.status == 200 && |r.body| == 1 && r.body[0].CleanedPayload?
    ensures var cleaned := ChirpValidator(Some(ValidateRequest(body))).body[0].cleanedBody;
            && EdgeSpaceFree(cleaned)
            && (forall t :: t in Split(cleaned) ==> !Banned(t))
            && |cleaned| <= MaxChirpLength
            && ChirpValidator(Some(ValidateRequest(cleaned))).body == [CleanedPayload(cleaned)]
  {
    ModerateLeavesNoBadWord(body);
    ModerateIdempotent(body);
    ModerateNoLonger(body);
  }
}
