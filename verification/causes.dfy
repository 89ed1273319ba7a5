/**
 * The causes the four HTTP handlers poke into the kernel.  A submission is
 * the 7-tuple `[%submit-snark proof inputs vk system submitter notes]`, a
 * lookup or a deletion is the pair `[tag id]`, and a listing is the bare tag.
 * The atoms that the nockapp library's `D` makes of the tag names and of the
 * proof-system name are opaque: they are the fields of a `Tags` value.
 */
module Causes {
  import opened Wrappers
  import opened Nouns
  import opened Cords
  import opened Validation

  /** The `u64` a path segment such as `/api/v1/snark/:id` is parsed into. */
  type uint64 = x: nat | x < U64Limit

  /**
   * `D(b"submit-snark")`, `D(b"get-snark")`, `D(b"list-snarks")`,
   * `D(b"delete-snark")`, and the atom `D(name)` of a proof-system name.
   */
  datatype Tags = Tags(submit: nat, get: nat, list: nat, delete: nat, symbol: seq<byte> -> nat)

  /** Different tag names give different atoms. */
  predicate Distinct(tags: Tags)
  {
    && tags.submit != tags.get && tags.submit != tags.list && tags.submit != tags.delete
    && tags.get != tags.list && tags.get != tags.delete
    && tags.list != tags.delete
  }

  /** `string_to_cord(notes.unwrap_or(""))` */
  function NotesCord(notes: Option<seq<byte>>): (r: Noun)
    ensures notes.None? ==> r == Null
    ensures notes.Some? ==> r == StringToCord(notes.value)
  {
    var text := match notes case Some(t) => t case None => [];
    StringToCord(text)
  }

  /** The six fields after the tag: `proof inputs vk system submitter notes`. */
  function SubmitPayload(s: Submission, tags: Tags): (p: seq<Noun>)
    ensures |p| == 6
    ensures p[0] == StringToCord(s.proof)
    ensures DecodeList(p[1]) == Some(CordList(s.publicInputs))
    ensures p[2] == StringToCord(s.verificationKey)
    ensures p[3] == Atom(tags.symbol(s.proofSystem))
    ensures p[4] == StringToCord(s.submitter)
    ensures p[5] == NotesCord(s.notes)
    ensures s.notes.None? ==> p[5] == Null
    ensures forall i :: 0 <= i < 6 && i != 1 && i != 3 ==> p[i].Atom? && p[i].value < U64Limit
  {
    StringListShape(s.publicInputs);
    var p := [ StringToCord(s.proof),
               StringListToNoun(s.publicInputs),
               StringToCord(s.verificationKey),
               Atom(tags.symbol(s.proofSystem)),
               StringToCord(s.submitter),
               NotesCord(s.notes) ];
    assert p[0].value < U64Limit && p[2].value < U64Limit && p[4].value < U64Limit && p[5].value < U64Limit;
    p
  }

  /** The `%submit-snark` cause: the submit tag followed by the payload, right-nested. */
  function SubmitCause(s: Submission, tags: Tags): (r: Noun)
    ensures Untuple(r, 7) == Some([Atom(tags.submit)] + SubmitPayload(s, tags))
    ensures r.Cell? && r.head == Atom(tags.submit)
  {
    var items := [Atom(tags.submit)] + SubmitPayload(s, tags);
    TupleRoundTrip(items);
    Tuple(items)
  }

  /** The `%get-snark` cause: exactly the tag and the id. */
  function GetCause(id: uint64, tags: Tags): (r: Noun)
    ensures Untuple(r, 2) == Some([Atom(tags.get), Atom(id)])
  {
    TupleRoundTrip([Atom(tags.get), Atom(id)]);
    Tuple([Atom(tags.get), Atom(id)])
  }

  /** The `%list-snarks` cause: the bare tag atom. */
  function ListCause(tags: Tags): (r: Noun)
    ensures r.Atom? && r.value == tags.list
  {
    Atom(tags.list)
  }

  /** The `%delete-snark` cause: exactly the tag and the id. */
  function DeleteCause(id: uint64, tags: Tags): (r: Noun)
    ensures Untuple(r, 2) == Some([Atom(tags.delete), Atom(id)])
  {
    TupleRoundTrip([Atom(tags.delete), Atom(id)]);
    Tuple([Atom(tags.delete), Atom(id)])
  }

  /** The requests the HTTP API accepts; each becomes one cause. */
  datatype Request = Submit(submission: Submission) | Get(id: uint64) | List | Delete(id: uint64)

  function CauseOf(req: Request, tags: Tags): Noun
  {
    match req
    case Submit(s) => SubmitCause(s, tags)
    case Get(id) => GetCause(id, tags)
    case List => ListCause(tags)
    case Delete(id) => DeleteCause(id, tags)
  }

  /** What a receiver can read off a cause noun. */
  datatype Decoded = SubmitFields(fields: seq<Noun>) | GetId(id: nat) | ListAll | DeleteId(id: nat)

  /** Reads a cause noun by its shape and its head tag. */
  function DecodeCause(n: Noun, tags: Tags): Option<Decoded>
  {
    match n
    case Atom(t) => if t == tags.list then Some(ListAll) else None
    case Cell(Atom(t), Atom(id)) =>
      if t == tags.get then Some(GetId(id))
      else if t == tags.delete then Some(DeleteId(id))
      else None
    case Cell(Atom(t), Cell(_, _)) =>
      if t != tags.submit then None
      else (match Untuple(n, 7)
        case Some(items) => Some(SubmitFields(items[1..]))
        case None => None)
    case Cell(Cell(_, _), _) => None
  }

  /**
   * With distinct tags every cause reads back as what was sent: the kind of
   * request, the id of a lookup or deletion, the payload of a submission,
   * and nothing else.
   */
  lemma CauseRoundTrip(req: Request, tags: Tags)
    requires Distinct(tags)
    ensures req.Submit? ==>
      DecodeCause(CauseOf(req, tags), tags) == Some(SubmitFields(SubmitPayload(req.submission, tags)))
    ensures req.Get? ==> DecodeCause(CauseOf(req, tags), tags) == Some(GetId(req.id))
    ensures req.List? ==> DecodeCause(CauseOf(req, tags), tags) == Some(ListAll)
    ensures req.Delete? ==> DecodeCause(CauseOf(req, tags), tags) == Some(DeleteId(req.id))
  {
    match req
    case Submit(s) =>
      var n := SubmitCause(s, tags);
      var items := [Atom(tags.submit)] + SubmitPayload(s, tags);
      assert items[1..] == SubmitPayload(s, tags);
      assert n.tail.Cell? by {
        UntupleSound(n, 7, items);
        assert n == Tuple(items) == Cell(items[0], Tuple(items[1..]));
      }
    case Get(id) =>
    case List =>
    case Delete(id) =>
  }

  /** A lookup, listing or deletion is determined by its cause noun. */
  lemma CauseDeterminesRequest(r1: Request, r2: Request, tags: Tags)
    requires Distinct(tags)
    requires !r1.Submit?
    requires CauseOf(r1, tags) == CauseOf(r2, tags)
    ensures r1 == r2
  {
    CauseRoundTrip(r1, tags);
    CauseRoundTrip(r2, tags);
  }
}
