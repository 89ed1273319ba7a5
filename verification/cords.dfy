/**
 * The byte packers of the prover's HTTP front end: `string_to_cord`, which
 * turns a Rust string into one atom, and `string_list_to_noun`, which turns
 * a list of strings into a Hoon list of such atoms.
 *
 * A Rust `String` is modelled by its UTF-8 bytes.  `string_to_cord` keeps a
 * `u128` accumulator, shifts it left by 8 and ors in each of the first 16
 * bytes, then truncates the accumulator to `u64`.  The packing is big-endian
 * (first byte most significant), not Hoon's least-significant-first cord
 * layout, and the model keeps it that way.
 */
module Cords {
  import opened Wrappers
  import opened Nouns

  type byte = b: nat | b < 256

  /** How many leading bytes `string_to_cord` reads (`take(16)`). */
  const PrefixLength: nat := 16
  /** How many trailing bytes of that prefix survive the `as u64` cast. */
  const KeptLength: nat := 8

  function Pow256(n: nat): (r: nat)
    ensures r >= 1
  {
    if n == 0 then 1 else 256 * Pow256(n - 1)
  }

  lemma {:induction false} Pow256Add(a: nat, b: nat)
    ensures Pow256(a + b) == Pow256(a) * Pow256(b)
    decreases a
  {
    if a > 0 {
      Pow256Add(a - 1, b);
    }
  }

  lemma {:induction false} Pow256Monotone(a: nat, b: nat)
    requires a <= b
    ensures Pow256(a) <= Pow256(b)
    decreases b
  {
    if a < b {
      Pow256Monotone(a, b - 1);
    }
  }

  /** The values of `u128`, `u64` and the bits a `u128` keeps after `<< 8`. */
  const U128Limit: nat := 0x1_0000_0000_0000_0000_0000_0000_0000_0000
  const U120Limit: nat := 0x100_0000_0000_0000_0000_0000_0000_0000
  const U64Limit: nat := 0x1_0000_0000_0000_0000

  lemma Limits()
    ensures Pow256(PrefixLength) == U128Limit
    ensures Pow256(PrefixLength - 1) == U120Limit
    ensures Pow256(KeptLength) == U64Limit
  {
    assert Pow256(2) == 0x1_0000;
    assert Pow256(4) == 0x1_0000_0000 by { Pow256Add(2, 2); }
    assert Pow256(7) == 0x100_0000_0000_0000 by { Pow256Add(4, 3); }
    assert Pow256(8) == U64Limit by { Pow256Add(4, 4); }
    assert Pow256(15) == U120Limit by { Pow256Add(8, 7); }
    assert Pow256(16) == U128Limit by { Pow256Add(8, 8); }
  }

  /** A base-256 digit followed by lower digits stays below the next power. */
  lemma DigitBound(d: nat, p: nat, rest: nat)
    requires d < 256 && rest < p
    ensures d * p + rest < 256 * p
  {
    assert d * p <= 255 * p by { MulMonotone(d, 255, p); }
  }

  lemma MulMonotone(a: nat, b: nat, c: nat)
    requires a <= b
    ensures a * c <= b * c
  {
  }

  /**
   * The big-endian value of a byte string: the first byte is the most
   * significant digit in base 256.
   */
  function BigEndian(bs: seq<byte>): (r: nat)
    ensures r < Pow256(|bs|)
    decreases |bs|
  {
    if |bs| == 0 then 0
    else
      var rest := BigEndian(bs[1..]);
      DigitBound(bs[0], Pow256(|bs| - 1), rest);
      bs[0] * Pow256(|bs| - 1) + rest
  }

  lemma Regroup(d: nat, p: nat, q: nat, a: nat, b: nat)
    ensures d * (p * q) + (a * q + b) == (d * p + a) * q + b
  {
  }

  /** Splitting a byte string splits its value into high and low digits. */
  lemma {:induction false} BigEndianAppend(x: seq<byte>, y: seq<byte>)
    ensures BigEndian(x + y) == BigEndian(x) * Pow256(|y|) + BigEndian(y)
    decreases |x|
  {
    if |x| > 0 {
      assert (x + y)[0] == x[0];
      assert (x + y)[1..] == x[1..] + y;
      BigEndianAppend(x[1..], y);
      Pow256Add(|x| - 1, |y|);
      assert |x + y| - 1 == |x| - 1 + |y|;
      Regroup(x[0], Pow256(|x| - 1), Pow256(|y|), BigEndian(x[1..]), BigEndian(y));
    } else {
      assert x + y == y;
    }
  }

  /** One loop step `result = (result << 8) | byte` on a `u128`: the shift drops the top byte. */
  function ShiftIn(acc: nat, b: byte): (r: nat)
    ensures r < U128Limit
  {
    (acc % U120Limit) * 256 + b
  }

  /** The `u128` accumulator loop over `bs`, starting from `acc`. */
  function PackU128(acc: nat, bs: seq<byte>): (r: nat)
    ensures acc < U128Limit || |bs| > 0 ==> r < U128Limit
    decreases |bs|
  {
    if |bs| == 0 then acc else PackU128(ShiftIn(acc, bs[0]), bs[1..])
  }

  /** `bytes.iter().take(16)` */
  function Prefix(bs: seq<byte>): (p: seq<byte>)
    ensures |p| == if |bs| <= PrefixLength then |bs| else PrefixLength
    ensures p == bs[..|p|]
  {
    if |bs| <= PrefixLength then bs else bs[..PrefixLength]
  }

  /** `string_to_cord`: the empty string is atom 0; otherwise the packed prefix cast to `u64`. */
  function StringToCord(bs: seq<byte>): (r: Noun)
    ensures r.Atom? && r.value < U64Limit
  {
    if |bs| == 0 then Null
    else Atom(PackU128(0, Prefix(bs)) % U64Limit)
  }

  /** Shifting in one more digit below `acc < p` stays below `256 * p`. */
  lemma ShiftBound(acc: nat, d: nat, p: nat)
    requires acc < p && d < 256
    ensures acc * 256 + d < 256 * p
  {
    MulMonotone(acc + 1, p, 256);
  }

  lemma Regroup256(acc: nat, d: nat, p: nat, rest: nat)
    ensures (acc * 256 + d) * p + rest == acc * (256 * p) + (d * p + rest)
  {
  }

  /**
   * While the accumulator leaves room for the remaining bytes, the `u128`
   * loop never drops a byte: it appends the bytes as low base-256 digits.
   */
  lemma {:induction false} PackU128Exact(acc: nat, bs: seq<byte>)
    requires |bs| <= PrefixLength
    requires acc < Pow256(PrefixLength - |bs|)
    ensures PackU128(acc, bs) == acc * Pow256(|bs|) + BigEndian(bs)
    decreases |bs|
  {
    if |bs| > 0 {
      var room := PrefixLength - |bs|;
      Limits();
      Pow256Monotone(room, PrefixLength - 1);
      assert acc % U120Limit == acc;
      var acc' := acc * 256 + bs[0];
      assert ShiftIn(acc, bs[0]) == acc';
      ShiftBound(acc, bs[0], Pow256(room));
      assert Pow256(room + 1) == 256 * Pow256(room);
      PackU128Exact(acc', bs[1..]);
      Regroup256(acc, bs[0], Pow256(|bs| - 1), BigEndian(bs[1..]));
    }
  }

  /** The bytes whose value survives: the last (up to) eight of the 16-byte prefix. */
  function Kept(bs: seq<byte>): (k: seq<byte>)
  {
    var p := Prefix(bs);
    if |p| <= KeptLength then p else p[|p| - KeptLength..]
  }

  lemma ModOfShifted(q: nat, m: nat, r: nat)
    requires r < m
    ensures (q * m + r) % m == r
  {
    var x := q * m + r;
    assert x == (x / m) * m + x % m;
    DivModUnique(x / m, x % m, q, r, m);
  }

  /**
   * What `string_to_cord` computes: the big-endian value of the last (up to)
   * eight bytes among the first sixteen; the empty string gives atom 0.
   */
  lemma CordIsKeptValue(bs: seq<byte>)
    ensures StringToCord(bs) == Atom(BigEndian(Kept(bs)))
    ensures |bs| == 0 ==> StringToCord(bs) == Atom(0)
  {
    Limits();
    var p := Prefix(bs);
    if |bs| > 0 {
      PackU128Exact(0, p);
      assert PackU128(0, p) == BigEndian(p);
      if |p| <= KeptLength {
        Pow256Monotone(|p|, KeptLength);
      } else {
        var x, y := p[..|p| - KeptLength], p[|p| - KeptLength..];
        assert x + y == p;
        BigEndianAppend(x, y);
        ModOfShifted(BigEndian(x), U64Limit, BigEndian(y));
      }
    }
  }

  /** Only the first 16 bytes matter. */
  lemma OnlyPrefixMatters(a: seq<byte>, b: seq<byte>)
    requires |a| >= PrefixLength && |b| >= PrefixLength
    requires a[..PrefixLength] == b[..PrefixLength]
    ensures StringToCord(a) == StringToCord(b)
  {
    assert Prefix(a) == a[..PrefixLength] == b[..PrefixLength] == Prefix(b);
  }

  /**
   * In fact only the last eight of those 16 matter: strings whose kept bytes
   * agree encode alike, whatever their other bytes.
   */
  lemma OnlyKeptBytesMatter(a: seq<byte>, b: seq<byte>)
    requires Kept(a) == Kept(b)
    ensures StringToCord(a) == StringToCord(b)
  {
    CordIsKeptValue(a);
    CordIsKeptValue(b);
  }

  /** Two different nine-byte strings (0x01 and 0x02 followed by eight zero bytes). */
  const NineBytesA: seq<byte> := [1, 0, 0, 0, 0, 0, 0, 0, 0]
  const NineBytesB: seq<byte> := [2, 0, 0, 0, 0, 0, 0, 0, 0]

  /** So the encoding is lossy: the two nine-byte strings above share one atom. */
  lemma NineByteCollision()
    ensures NineBytesA != NineBytesB
    ensures StringToCord(NineBytesA) == StringToCord(NineBytesB)
  {
    assert NineBytesA[0] != NineBytesB[0];
    assert Kept(NineBytesA) == NineBytesA[1..] == Kept(NineBytesB);
    OnlyKeptBytesMatter(NineBytesA, NineBytesB);
  }

  /** A string of at most eight bytes encodes as exactly its big-endian value. */
  lemma ShortCordIsBigEndian(bs: seq<byte>)
    requires |bs| <= KeptLength
    ensures StringToCord(bs) == Atom(BigEndian(bs))
  {
    CordIsKeptValue(bs);
  }

  predicate NoLeadingZero(bs: seq<byte>)
  {
    |bs| == 0 || bs[0] != 0
  }

  lemma NoLeadingZeroLowerBound(bs: seq<byte>)
    requires |bs| > 0 && bs[0] != 0
    ensures Pow256(|bs| - 1) <= BigEndian(bs)
  {
    MulMonotone(1, bs[0], Pow256(|bs| - 1));
  }

  lemma DivModUnique(q1: nat, r1: nat, q2: nat, r2: nat, m: nat)
    requires r1 < m && r2 < m
    requires q1 * m + r1 == q2 * m + r2
    ensures q1 == q2 && r1 == r2
  {
    if q1 < q2 {
      MulMonotone(q1 + 1, q2, m);
    } else if q2 < q1 {
      MulMonotone(q2 + 1, q1, m);
    }
  }

  /** Byte strings of equal length are told apart by their big-endian values. */
  lemma {:induction false} BigEndianInjective(a: seq<byte>, b: seq<byte>)
    requires |a| == |b|
    requires BigEndian(a) == BigEndian(b)
    ensures a == b
    decreases |a|
  {
    if |a| > 0 {
      var n := |a|;
      assert a[..n - 1] + [a[n - 1]] == a;
      assert b[..n - 1] + [b[n - 1]] == b;
      BigEndianAppend(a[..n - 1], [a[n - 1]]);
      BigEndianAppend(b[..n - 1], [b[n - 1]]);
      assert BigEndian([a[n - 1]]) == a[n - 1];
      assert BigEndian([b[n - 1]]) == b[n - 1];
      DivModUnique(BigEndian(a[..n - 1]), a[n - 1], BigEndian(b[..n - 1]), b[n - 1], 256);
      BigEndianInjective(a[..n - 1], b[..n - 1]);
    }
  }

  /**
   * Distinct strings of at most eight bytes with no leading zero byte encode
   * to distinct atoms.
   */
  lemma ShortCordInjective(a: seq<byte>, b: seq<byte>)
    requires |a| <= KeptLength && |b| <= KeptLength
    requires NoLeadingZero(a) && NoLeadingZero(b)
    requires a != b
    ensures StringToCord(a) != StringToCord(b)
  {
    ShortCordIsBigEndian(a);
    ShortCordIsBigEndian(b);
    if |a| == |b| {
      if BigEndian(a) == BigEndian(b) {
        BigEndianInjective(a, b);
      }
    } else if |a| < |b| {
      NoLeadingZeroLowerBound(b);
      Pow256Monotone(|a|, |b| - 1);
    } else {
      NoLeadingZeroLowerBound(a);
      Pow256Monotone(|b|, |a| - 1);
    }
  }

  /** The cords of a list of strings, in order. */
  function CordList(ss: seq<seq<byte>>): (cs: seq<Noun>)
    ensures |cs| == |ss|
    ensures forall i :: 0 <= i < |ss| ==> cs[i] == StringToCord(ss[i])
  {
    seq(|ss|, i requires 0 <= i < |ss| => StringToCord(ss[i]))
  }

  /** The loop of `string_list_to_noun`: cons each cord onto `list`, last string first. */
  function ConsFromRight(ss: seq<seq<byte>>, list: Noun): (r: Noun)
    ensures |ss| == 0 ==> r == list
    ensures |ss| > 0 ==> r.Cell? && r.head == StringToCord(ss[0])
    decreases |ss|
  {
    if |ss| == 0 then list
    else ConsFromRight(ss[..|ss| - 1], Cell(StringToCord(ss[|ss| - 1]), list))
  }

  /** Consing from the right onto a list prepends the cords in their original order. */
  lemma {:induction false} ConsFromRightPrepends(ss: seq<seq<byte>>, tail: seq<Noun>)
    ensures ConsFromRight(ss, NounList(tail)) == NounList(CordList(ss) + tail)
    decreases |ss|
  {
    if |ss| > 0 {
      var n := |ss|;
      var last := StringToCord(ss[n - 1]);
      assert ([last] + tail)[1..] == tail;
      assert Cell(last, NounList(tail)) == NounList([last] + tail);
      ConsFromRightPrepends(ss[..n - 1], [last] + tail);
      assert CordList(ss[..n - 1]) + ([last] + tail) == CordList(ss) + tail;
    } else {
      assert CordList(ss) + tail == tail;
    }
  }

  /**
   * `string_list_to_noun`: the Hoon list of the strings' cords, in order,
   * terminated by atom 0; the empty list is atom 0 itself.
   */
  function StringListToNoun(ss: seq<seq<byte>>): (r: Noun)
    ensures r == NounList(CordList(ss))
  {
    ConsFromRightPrepends(ss, []);
    assert CordList(ss) + [] == CordList(ss);
    if |ss| == 0 then Null else ConsFromRight(ss, Null)
  }

  /**
   * The list noun reads back as exactly one cord per string, in order: the
   * i-th head is the cord of the i-th string.
   */
  lemma StringListShape(ss: seq<seq<byte>>)
    ensures DecodeList(StringListToNoun(ss)) == Some(CordList(ss))
    ensures |ss| == 0 ==> StringListToNoun(ss) == Null
    ensures forall xs :: DecodeList(StringListToNoun(ss)) == Some(xs) ==>
              |xs| == |ss| && forall i :: 0 <= i < |xs| ==> xs[i] == StringToCord(ss[i])
  {
    ListRoundTrip(CordList(ss));
  }
}
