/**
 * The validation prefix of `submit_snark`: five checks made in a fixed
 * order, the first one that fails deciding a 400 response.  Base64
 * well-formedness (`base64::decode(..).is_ok()`) belongs to a library and is
 * a parameter `validB64` here.
 */
module Validation {
  import opened Wrappers
  import opened Cords
  import opened Responses

  /** The JSON body of a submission; every string is its UTF-8 bytes. */
  datatype Submission = Submission(
    proof: seq<byte>,
    publicInputs: seq<seq<byte>>,
    verificationKey: seq<byte>,
    proofSystem: seq<byte>,
    submitter: seq<byte>,
    notes: Option<seq<byte>>)

  /** The checks of `submit_snark`, named for what they demand. */
  datatype Check = ProofPresent | KeyPresent | SubmitterPresent | ProofIsBase64 | KeyIsBase64

  /** The order in which `submit_snark` makes its checks. */
  const Checks: seq<Check> := [ProofPresent, KeyPresent, SubmitterPresent, ProofIsBase64, KeyIsBase64]

  predicate Holds(c: Check, s: Submission, validB64: seq<byte> -> bool)
  {
    match c
    case ProofPresent => |s.proof| > 0
    case KeyPresent => |s.verificationKey| > 0
    case SubmitterPresent => |s.submitter| > 0
    case ProofIsBase64 => validB64(s.proof)
    case KeyIsBase64 => validB64(s.verificationKey)
  }

  function Message(c: Check): string
  {
    match c
    case ProofPresent => "Proof data is required"
    case KeyPresent => "Verification key is required"
    case SubmitterPresent => "Submitter is required"
    case ProofIsBase64 => "Invalid Base64 in proof data"
    case KeyIsBase64 => "Invalid Base64 in verification key"
  }

  /** The response sent when check `c` fails. */
  function Reject(c: Check): Response
  {
    ErrorResponse(BadRequest, Message(c))
  }

  /**
   * The cascade at the top of `submit_snark`: `None` lets the submission
   * through, `Some(response)` is the 400 of the first check that fails.
   */
  function Validate(s: Submission, validB64: seq<byte> -> bool): (r: Option<Response>)
    ensures r.None? <==> forall i :: 0 <= i < |Checks| ==> Holds(Checks[i], s, validB64)
    ensures r.Some? ==>
      r.value.status == BadRequest &&
      exists i :: 0 <= i < |Checks| && r.value == Reject(Checks[i]) &&
        !Holds(Checks[i], s, validB64) &&
        forall j :: 0 <= j < i ==> Holds(Checks[j], s, validB64)
  {
    assert Checks[0] == ProofPresent && Checks[1] == KeyPresent && Checks[2] == SubmitterPresent;
    assert Checks[3] == ProofIsBase64 && Checks[4] == KeyIsBase64;
    if |s.proof| == 0 then Some(Reject(ProofPresent))
    else if |s.verificationKey| == 0 then Some(Reject(KeyPresent))
    else if |s.submitter| == 0 then Some(Reject(SubmitterPresent))
    else if !validB64(s.proof) then Some(Reject(ProofIsBase64))
    else if !validB64(s.verificationKey) then Some(Reject(KeyIsBase64))
    else None
  }

  /** Each check has its own message, so a response names exactly one check. */
  lemma MessagesDistinct(c: Check, d: Check)
    requires c != d
    ensures Message(c) != Message(d)
    ensures Reject(c) != Reject(d)
  {
  }

  /**
   * First failure wins: when check `i` fails and every earlier one holds,
   * the response is that of check `i`, whatever the later fields hold.
   */
  lemma FirstFailureDecides(s: Submission, validB64: seq<byte> -> bool, i: nat)
    requires i < |Checks|
    requires !Holds(Checks[i], s, validB64)
    requires forall j :: 0 <= j < i ==> Holds(Checks[j], s, validB64)
    ensures Validate(s, validB64) == Some(Reject(Checks[i]))
  {
    var r := Validate(s, validB64);
    var k :| 0 <= k < |Checks| && r.value == Reject(Checks[k]) && !Holds(Checks[k], s, validB64) &&
             forall j :: 0 <= j < k ==> Holds(Checks[j], s, validB64);
    assert k == i;
  }

  /** An empty proof is reported whatever the other fields hold. */
  lemma EmptyProofFirst(s: Submission, validB64: seq<byte> -> bool)
    requires |s.proof| == 0
    ensures Validate(s, validB64) == Some(ErrorResponse(BadRequest, "Proof data is required"))
  {
    FirstFailureDecides(s, validB64, 0);
  }
}
