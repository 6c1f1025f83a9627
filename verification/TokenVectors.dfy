/**
 * Late-interaction token vectors as one row.
 */
module TokenVectors {
  import opened Arith
  import opened Wrappers
  import opened ByteStrings
  import opened Parsers

  // A count, a dimension, and the words of every vector. Reading back gives the vectors exactly
  // when they all share one dimension.

  type Words = seq<Word>

  function RowBytes(v: Words): Bytes { WriteMany(WordBytes, v) }

  /** The dimension written: the first vector's. */
  function DimOf(vs: seq<Words>): nat { if vs == [] then 0 else |vs[0]| }

  function EncodeMulti(vs: seq<Words>): Bytes {
    Le(|vs|, 4) + (Le(DimOf(vs), 4) + WriteMany(RowBytes, vs))
  }

  /** One vector of `dim` words. */
  function ParseRow(dim: nat): Parser<Words> {
    s => Many(U32, dim, s)
  }

  /** `decode_multi`: the empty list on malformed input. */
  function DecodeMulti(b: Bytes): seq<Words> {
    match U32(b)
    case None => []
    case Some((n, s)) =>
      match U32(s)
      case None => []
      case Some((dim, t)) =>
        match Many(ParseRow(dim), n, t)
        case None => []
        case Some((vs, _)) => vs
  }

  lemma RowInverse(v: Words, dim: nat)
    requires |v| == dim
    ensures Inverts(ParseRow(dim), RowBytes, v)
  {
    forall t: Bytes ensures ParseRow(dim)(RowBytes(v) + t) == Some((v, t)) {
      WordsInverse(v, t);
    }
  }

  lemma {:induction false} ManyCount<T>(p: Parser<T>, n: nat, s: Bytes)
    ensures Many(p, n, s).Some? ==> |Many(p, n, s).value.0| == n
  {
    if n != 0 {
      ManyCount(p, n - 1, s);
    }
  }

  lemma {:induction false} RowsSized(dim: nat, n: nat, s: Bytes, i: nat)
    requires Many(ParseRow(dim), n, s).Some? && i < |Many(ParseRow(dim), n, s).value.0|
    ensures |Many(ParseRow(dim), n, s).value.0[i]| == dim
  {
    if n != 0 {
      var (xs, t) := Many(ParseRow(dim), n - 1, s).value;
      ManyCount(U32, dim, t);
      if i < |xs| {
        RowsSized(dim, n - 1, s, i);
      }
    }
  }

  ghost predicate Even(vs: seq<Words>) {
    forall i :: 0 <= i < |vs| ==> |vs[i]| == DimOf(vs)
  }

  /** Token vectors survive their row exactly when they all have the first one's dimension. */
  lemma MultiRoundTripIff(vs: seq<Words>)
    requires |vs| < 0x1_0000_0000 && DimOf(vs) < 0x1_0000_0000
    ensures DecodeMulti(EncodeMulti(vs)) == vs <==> Even(vs)
  {
    hide U32, Many, RowBytes;
    var dim := DimOf(vs);
    var t := WriteMany(RowBytes, vs);
    U32Inverse(|vs|, Le(dim, 4) + t);
    U32Inverse(dim, t);
    if Even(vs) {
      forall i | 0 <= i < |vs| ensures Inverts(ParseRow(dim), RowBytes, vs[i]) {
        RowInverse(vs[i], dim);
      }
      ManyInverse(ParseRow(dim), RowBytes, vs, []);
      assert t + [] == t;
    }
    if DecodeMulti(EncodeMulti(vs)) == vs {
      forall i | 0 <= i < |vs| ensures |vs[i]| == dim {
        RowsSized(dim, |vs|, t, i);
      }
    }
  }

  // ---- by offset ---------------------------------------------------------------------

  lemma WordAt(b: Bytes, off: nat)
    requires off + 4 <= |b|
    ensures U32(b[off..]) == Some((AsWord(b[off..off + 4]), b[off + 4..]))
  {
    assert b[off..][..4] == b[off..off + 4] && b[off..][4..] == b[off + 4..];
  }

  /** Read `dim` words from an offset the caller has checked. */
  method ReadRow(b: Bytes, start: nat, dim: nat) returns (v: Words)
    requires start + 4 * dim <= |b|
    ensures ParseRow(dim)(b[start..]) == Some((v, b[start + 4 * dim..]))
  {
    v := [];
    var off := start;
    for k := 0 to dim
      invariant off == start + 4 * k
      invariant Many(U32, k, b[start..]) == Some((v, b[off..]))
    {
      WordAt(b, off);
      v := v + [AsWord(b[off..off + 4])];
      off := off + 4;
    }
  }

  /** Too few bytes for `n` rows: they do not parse. */
  lemma {:induction false} WordsNeed(n: nat, s: Bytes)
    ensures Many(U32, n, s).Some? ==> 4 * n <= |s| && |Many(U32, n, s).value.1| == |s| - 4 * n
  {
    if n != 0 {
      WordsNeed(n - 1, s);
    }
  }

  lemma {:induction false} RowsNeed(dim: nat, n: nat, s: Bytes)
    ensures Many(ParseRow(dim), n, s).Some? ==>
              4 * Times(n, dim) <= |s| && |Many(ParseRow(dim), n, s).value.1| == |s| - 4 * Times(n, dim)
  {
    if n != 0 {
      RowsNeed(dim, n - 1, s);
      if Many(ParseRow(dim), n - 1, s).Some? {
        WordsNeed(dim, Many(ParseRow(dim), n - 1, s).value.1);
      }
      Distribute(n - 1, 1, dim);
    }
  }

  /** `decode_multi`, checking the length once and then reading by offset. */
  method Decode(b: Bytes) returns (out: seq<Words>)
    ensures out == DecodeMulti(b)
  {
    hide Many;
    out := [];
    if |b| < 8 {
      if 4 <= |b| {
        WordAt(b, 0);
      }
      return;
    }
    WordAt(b, 0);
    WordAt(b, 4);
    assert b[0..] == b && b[0..4] == b[..4];
    var n, dim := AsWord(b[..4]), AsWord(b[4..8]);
    RowsNeed(dim, n, b[8..]);
    if |b| < 8 + 4 * Times(n, dim) {
      return;
    }
    out := ReadRows(b, n, dim);
  }

  method ReadRows(b: Bytes, n: nat, dim: nat) returns (out: seq<Words>)
    requires 8 + 4 * Times(n, dim) <= |b|
    ensures Many(ParseRow(dim), n, b[8..]) == Some((out, b[8 + 4 * Times(n, dim)..]))
  {
    hide ParseRow;
    out := [];
    var off: nat := 8;
    for i := 0 to n
      invariant off == 8 + 4 * Times(i, dim)
      invariant Many(ParseRow(dim), i, b[8..]) == Some((out, b[off..]))
    {
      SlotInRange(i, n, dim);
      var v := ReadRow(b, off, dim);
      out := out + [v];
      off := off + 4 * dim;
    }
  }
}
