/**
 * The four HTTP handlers of the prover's front end, from the decoded request
 * to the response.  The kernel is a parameter: `kernel(cause)` is what
 * `app.poke` returns for that cause.  The effect parser is still a stub that
 * recognises nothing, so every successful poke ends in the handler's
 * fallback response.
 */
module Handlers {
  import opened Wrappers
  import opened Nouns
  import opened Cords
  import opened Responses
  import opened Validation
  import opened Causes

  /** What `app.poke(..)` returns: the kernel's effects, or an error. */
  datatype PokeResult = Effects(effects: seq<Noun>) | PokeError

  /** `parse_http_response`: not implemented yet, it recognises no effect. */
  function ParseHttpResponse(effect: Noun): (r: Option<Response>)
    ensures r.None?
  {
    None
  }

  /**
   * The `for effect in effects` loop: the first effect that `parse` turns
   * into a response, if any.
   */
  function FirstResponse(effects: seq<Noun>, parse: Noun -> Option<Response>): (r: Option<Response>)
    ensures r.None? <==> forall i :: 0 <= i < |effects| ==> parse(effects[i]).None?
    ensures r.Some? ==> exists i :: 0 <= i < |effects| && parse(effects[i]) == r &&
                          forall j :: 0 <= j < i ==> parse(effects[j]).None?
    decreases |effects|
  {
    if |effects| == 0 then None
    else match parse(effects[0])
      case Some(resp) => Some(resp)
      case None => FirstResponse(effects[1..], parse)
  }

  /**
   * The `match app.poke(..)` block of a handler: on success the response of
   * the first effect that `parse` recognises, else `fallback`; `onError`
   * when the poke fails.
   */
  function AfterPoke(result: PokeResult, parse: Noun -> Option<Response>,
                     fallback: Response, onError: Response): (r: Response)
    ensures result.PokeError? ==> r == onError
    ensures result.Effects? && (forall i :: 0 <= i < |result.effects| ==> parse(result.effects[i]).None?) ==>
              r == fallback
    ensures result.Effects? && (exists i :: 0 <= i < |result.effects| && parse(result.effects[i]).Some?) ==>
              exists i :: 0 <= i < |result.effects| && parse(result.effects[i]) == Some(r) &&
                forall j :: 0 <= j < i ==> parse(result.effects[j]).None?
  {
    match result
    case Effects(effects) =>
      (match FirstResponse(effects, parse)
       case Some(resp) => resp
       case None => fallback)
    case PokeError => onError
  }

  /** Because the parser is a stub, a successful poke always gets the fallback. */
  lemma AfterPokeIsFallback(effects: seq<Noun>, fallback: Response, onError: Response)
    ensures AfterPoke(Effects(effects), ParseHttpResponse, fallback, onError) == fallback
  {
  }

  /** One request handled: the cause poked into the kernel, if any, and the response. */
  datatype Exchange = Exchange(sent: Option<Noun>, response: Response)

  /** `submit_snark`: validate, then poke the `%submit-snark` cause. */
  function SubmitSnark(s: Submission, validB64: seq<byte> -> bool, tags: Tags,
                       kernel: Noun -> PokeResult): (x: Exchange)
    ensures x.sent.None? <==> Validate(s, validB64).Some?
    ensures x.sent.None? ==> x.response == Validate(s, validB64).value
    ensures x.sent.None? ==> x.response.status == BadRequest
    ensures x.sent.Some? ==> x.sent.value == SubmitCause(s, tags)
    ensures x.sent.Some? ==>
      x.response == (if kernel(x.sent.value).PokeError?
                     then ErrorResponse(InternalServerError, "Failed to submit SNARK")
                     else SuccessResponse(Created, "SNARK submitted successfully"))
  {
    match Validate(s, validB64)
    case Some(rejection) => Exchange(None, rejection)
    case None =>
      var cause := SubmitCause(s, tags);
      Exchange(Some(cause), AfterPoke(kernel(cause), ParseHttpResponse,
        SuccessResponse(Created, "SNARK submitted successfully"),
        ErrorResponse(InternalServerError, "Failed to submit SNARK")))
  }

  /** `get_snark`: poke `[%get-snark id]`. */
  function GetSnark(id: uint64, tags: Tags, kernel: Noun -> PokeResult): (x: Exchange)
    ensures x.sent == Some(GetCause(id, tags))
    ensures x.response == (if kernel(GetCause(id, tags)).PokeError?
                           then ErrorResponse(NotFound, "SNARK not found")
                           else ErrorResponse(InternalServerError, "Invalid response from kernel"))
  {
    var cause := GetCause(id, tags);
    Exchange(Some(cause), AfterPoke(kernel(cause), ParseHttpResponse,
      ErrorResponse(InternalServerError, "Invalid response from kernel"),
      ErrorResponse(NotFound, "SNARK not found")))
  }

  /** `list_snarks`: poke the bare `%list-snarks` tag. */
  function ListSnarks(tags: Tags, kernel: Noun -> PokeResult): (x: Exchange)
    ensures x.sent == Some(ListCause(tags))
    ensures x.response == (if kernel(ListCause(tags)).PokeError?
                           then ErrorResponse(InternalServerError, "Failed to list SNARKs")
                           else Response(Ok, EmptySnarkList))
  {
    var cause := ListCause(tags);
    Exchange(Some(cause), AfterPoke(kernel(cause), ParseHttpResponse,
      Response(Ok, EmptySnarkList),
      ErrorResponse(InternalServerError, "Failed to list SNARKs")))
  }

  /** `delete_snark`: poke `[%delete-snark id]`. */
  function DeleteSnark(id: uint64, tags: Tags, kernel: Noun -> PokeResult): (x: Exchange)
    ensures x.sent == Some(DeleteCause(id, tags))
    ensures x.response == (if kernel(DeleteCause(id, tags)).PokeError?
                           then ErrorResponse(NotFound, "SNARK not found")
                           else SuccessResponse(Ok, "SNARK deleted"))
  {
    var cause := DeleteCause(id, tags);
    Exchange(Some(cause), AfterPoke(kernel(cause), ParseHttpResponse,
      SuccessResponse(Ok, "SNARK deleted"),
      ErrorResponse(NotFound, "SNARK not found")))
  }

  /** `route(request)`: the handler the router sends each request to. */
  function Handle(req: Request, validB64: seq<byte> -> bool, tags: Tags,
                  kernel: Noun -> PokeResult): (x: Exchange)
    ensures x.sent.Some? ==> x.sent.value == CauseOf(req, tags)
    ensures !req.Submit? ==> x.sent.Some?
    ensures req.Submit? ==> (x.sent.None? <==> Validate(req.submission, validB64).Some?)
    ensures req.Submit? ==> x == SubmitSnark(req.submission, validB64, tags, kernel)
    ensures req.Get? ==> x == GetSnark(req.id, tags, kernel)
    ensures req.List? ==> x == ListSnarks(tags, kernel)
    ensures req.Delete? ==> x == DeleteSnark(req.id, tags, kernel)
  {
    match req
    case Submit(s) => SubmitSnark(s, validB64, tags, kernel)
    case Get(id) => GetSnark(id, tags, kernel)
    case List => ListSnarks(tags, kernel)
    case Delete(id) => DeleteSnark(id, tags, kernel)
  }

  /**
   * The response depends on the kernel only through whether the poke
   * failed: two kernels that agree on that yield the same exchange.  Every
   * response carries one of the five status codes the handlers use.
   */
  lemma ResponseIgnoresEffects(req: Request, validB64: seq<byte> -> bool, tags: Tags,
                               k1: Noun -> PokeResult, k2: Noun -> PokeResult)
    requires k1(CauseOf(req, tags)).PokeError? == k2(CauseOf(req, tags)).PokeError?
    ensures Handle(req, validB64, tags, k1) == Handle(req, validB64, tags, k2)
    ensures Handle(req, validB64, tags, k1).response.status in {Ok, Created, BadRequest, NotFound, InternalServerError}
  {
  }

  /** A lookup never answers 200: a found record still gets the fallback 500. */
  lemma GetNeverOk(id: uint64, tags: Tags, kernel: Noun -> PokeResult)
    ensures GetSnark(id, tags, kernel).response.status != Ok
  {
  }
}
