/**
 * Nock nouns as the prover's HTTP front end builds them: an atom is an
 * unbounded natural number, a cell is an ordered pair of nouns.  The tuple
 * builder `T` of the nockapp library right-nests its items into cells, and a
 * Hoon list is a right-nested chain of cells ending in the atom 0.
 */
module Nouns {
  import opened Wrappers

  datatype Noun = Atom(value: nat) | Cell(head: Noun, tail: Noun)

  /** The empty list (and the empty cord): the atom 0. */
  const Null: Noun := Atom(0)

  /** `T(&[a, b, c, ...])`: the items right-nested into cells, `[a [b [c ...]]]`. */
  function Tuple(items: seq<Noun>): (r: Noun)
    requires |items| >= 2
    ensures r.Cell? && r.head == items[0]
    decreases |items|
  {
    if |items| == 2 then Cell(items[0], items[1])
    else Cell(items[0], Tuple(items[1..]))
  }

  /** Reads a noun back as a tuple of exactly `arity` items, if it has that shape. */
  function Untuple(n: Noun, arity: nat): Option<seq<Noun>>
    requires arity >= 2
    decreases arity
  {
    match n
    case Atom(_) => None
    case Cell(h, t) =>
      if arity == 2 then Some([h, t])
      else match Untuple(t, arity - 1)
        case None => None
        case Some(rest) => Some([h] + rest)
  }

  /** Reading a tuple back with its own arity recovers exactly its items. */
  lemma {:induction false} TupleRoundTrip(items: seq<Noun>)
    requires |items| >= 2
    ensures Untuple(Tuple(items), |items|) == Some(items)
    decreases |items|
  {
    if |items| == 2 {
      assert [items[0], items[1]] == items;
    } else {
      TupleRoundTrip(items[1..]);
      assert [items[0]] + items[1..] == items;
    }
  }

  /** Conversely, whatever reads back as a tuple is that tuple. */
  lemma {:induction false} UntupleSound(n: Noun, arity: nat, items: seq<Noun>)
    requires arity >= 2
    requires Untuple(n, arity) == Some(items)
    ensures |items| == arity
    ensures Tuple(items) == n
    decreases arity
  {
    if arity > 2 {
      var rest :| Untuple(n.tail, arity - 1) == Some(rest);
      UntupleSound(n.tail, arity - 1, rest);
      assert items[1..] == rest;
    }
  }

  /** The Hoon list `[x0 [x1 [... 0]]]` holding `xs` in order. */
  function NounList(xs: seq<Noun>): Noun
    decreases |xs|
  {
    if |xs| == 0 then Null else Cell(xs[0], NounList(xs[1..]))
  }

  /** Reads a noun back as a null-terminated list, if it is one. */
  function DecodeList(n: Noun): Option<seq<Noun>>
  {
    match n
    case Atom(v) => if v == 0 then Some([]) else None
    case Cell(h, t) =>
      match DecodeList(t)
      case None => None
      case Some(rest) => Some([h] + rest)
  }

  /** A list noun decodes to exactly its items, in order. */
  lemma {:induction false} ListRoundTrip(xs: seq<Noun>)
    ensures DecodeList(NounList(xs)) == Some(xs)
    decreases |xs|
  {
    if |xs| > 0 {
      ListRoundTrip(xs[1..]);
      assert [xs[0]] + xs[1..] == xs;
    }
  }

  /** Conversely, whatever decodes as a list is the list of what it decodes to. */
  lemma {:induction false} DecodeListSound(n: Noun, xs: seq<Noun>)
    requires DecodeList(n) == Some(xs)
    ensures NounList(xs) == n
  {
    match n
    case Atom(_) =>
    case Cell(h, t) =>
      var rest :| DecodeList(t) == Some(rest);
      DecodeListSound(t, rest);
      assert xs[1..] == rest;
  }
}
