/**
 * Split persistence: a structure blob and a node-ordered vector sidecar.
 */
module Sidecar {
  import opened Arith
  import opened Wrappers
  import opened ByteStrings
  import opened Parsers
  import opened GraphBytes
  import opened GraphCodec
  import opened Paged

  // The blob holds everything but the vectors; a later open pages the sidecar through a bounded
  // cache.

  /** "RROS": structure only. */
  const STRUCT_MAGIC: Bytes := [0x52, 0x52, 0x4F, 0x53]

  /** The store without its vectors: what the structure blob keeps of it. */
  function Side(s: Store): Store {
    match s
    case Full(_) => Full([])
    case Sq8(_, params) => Sq8([], params)
    case Bq(_) => Bq([])
    case Pq(codebook, _, _, m) => Pq(codebook, [], [], m)
  }

  function SideBytes(s: Store): Bytes {
    match s
    case Full(_) => [0]
    case Sq8(_, params) => [1] + ParamsBytes(params)
    case Bq(_) => [2]
    case Pq(codebook, _, _, m) => [3] + PqBytes(m, codebook)
  }

  function ToStructure(g: Graph): Bytes { STRUCT_MAGIC + ([VERSION] + (HeadBytes(g) + SideBytes(g.store))) }

  /** The raw vectors in node order. */
  function VectorBytes(s: Store): Bytes {
    match s
    case Full(words) => WriteMany(WordBytes, words)
    case Sq8(codes, _) => codes
    case Bq(bits) => bits
    case Pq(_, _, codes, _) => codes
  }

  function ParseSide(s: Bytes): Option<(Store, Bytes)> {
    var (tag, t) :- U8(s);
    match tag
    case 0 => Some((Full([]), t))
    case 1 =>
      var (params, u) :- ParseParams(t);
      Some((Sq8([], params), u))
    case 2 => Some((Bq([]), t))
    case 3 =>
      var (header, u) :- ParsePq(t);
      Some((Pq(header.1, [], [], header.0), u))
    case _ => None
  }

  function ParseStructBody(s: Bytes): Option<(Graph, Bytes)> {
    var (head, t) :- ParseHead(s);
    var (side, u) :- ParseSide(t);
    Some((head.(store := side), u))
  }

  /** A structure blob: the head, and the store's side data. */
  function ParseStruct(s: Bytes): Option<(Graph, Bytes)> {
    var (magic, t) :- Take(4, s);
    if magic != STRUCT_MAGIC then None
    else
      var (version, u) :- U8(t);
      if version != VERSION then None else ParseStructBody(u)
  }

  /** Bytes per vector in the sidecar. */
  function Unit(q: Quantizer, dim: nat): nat {
    match q
    case Exact => 4 * dim
    case Scalar => dim
    case Binary => (dim + 7) / 8
    case Product(m) => m
  }

  function EmptyStore(q: Quantizer): Store {
    match q
    case Exact => Full([])
    case Scalar => Sq8([], [])
    case Binary => Bq([])
    case Product(m) => Pq(None, [], [], m)
  }

  /** The floats of a sidecar. */
  function WordsIn(b: Bytes): seq<Word> {
    match Many(U32, |b| / 4, b)
    case Some((ws, _)) => ws
    case None => []
  }

  function Filled(side: Store, vectors: Bytes): Store {
    match side
    case Full(_) => Full(WordsIn(vectors))
    case Sq8(_, params) => Sq8(vectors, params)
    case Bq(_) => Bq(vectors)
    case Pq(codebook, _, _, m) => Pq(codebook, [], vectors, m)
  }

  /** One parameter block per vector, a codebook for PQ, and a sidecar of exactly the implied size. */
  predicate Consistent(q: Quantizer, g: Graph, length: nat) {
    && (g.store.Sq8? ==> |g.store.params| == |g.ids|)
    && (g.store.Pq? ==> g.store.codebook.Some?)
    && length == Times(|g.ids|, Unit(q, DimOr0(g.dim)))
  }

  /** `from_paged`, reading the sidecar whole. */
  function FromPaged(q: Quantizer, structure: Bytes, vectors: Bytes): Option<Graph> {
    var (g, _) :- ParseStruct(structure);
    if QuantizerOf(g.store) != q then None
    else if g.ids == [] then Some(g.(store := EmptyStore(q)))
    else if Consistent(q, g, |vectors|) then Some(g.(store := Filled(g.store, vectors)))
    else None
  }

  // ---- round trip ------------------------------------------------------------------------

  lemma SideInverse(s: Store, t: Bytes)
    requires StoreFits(s)
    ensures ParseSide(SideBytes(s) + t) == Some((Side(s), t))
  {
    hide U8, ParseParams, ParamsBytes, ParsePq, PqBytes, CodebookFits;
    match s {
      case Full(_) => U8Inverse(0, t);
      case Sq8(_, params) =>
        assert SideBytes(s) + t == [1] + (ParamsBytes(params) + t);
        U8Inverse(1, ParamsBytes(params) + t);
        ParamsInverse(params, t);
      case Bq(_) => U8Inverse(2, t);
      case Pq(codebook, _, _, m) =>
        assert SideBytes(s) + t == [3] + (PqBytes(m, codebook) + t);
        U8Inverse(3, PqBytes(m, codebook) + t);
        PqInverse(m, codebook, t);
    }
  }

  lemma StructInverse(g: Graph)
    requires Fits(g)
    ensures ParseStruct(ToStructure(g)) == Some((HeadOf(g).(store := Side(g.store)), []))
  {
    hide U8, Take, ParseHead, HeadBytes, ParseSide, SideBytes, StoreFits, HeadFits, Side;
    var s1 := HeadBytes(g) + SideBytes(g.store);
    TakeInverse(STRUCT_MAGIC, [VERSION] + s1);
    U8Inverse(VERSION, s1);
    HeadInverse(g, SideBytes(g.store));
    SideInverse(g.store, []);
    assert SideBytes(g.store) + [] == SideBytes(g.store);
  }

  lemma {:induction false} WordsLength(ws: seq<Word>)
    ensures |WriteMany(WordBytes, ws)| == 4 * |ws|
  {
    if ws != [] {
      WordsLength(ws[..|ws| - 1]);
    }
  }

  lemma WordsInInverse(ws: seq<Word>)
    ensures WordsIn(WriteMany(WordBytes, ws)) == ws
  {
    hide WriteMany, Many;
    WordsLength(ws);
    WordsInverse(ws, []);
    assert WriteMany(WordBytes, ws) + [] == WriteMany(WordBytes, ws);
  }

  lemma FilledInverse(s: Store)
    ensures Filled(Side(s), VectorBytes(s)) == StoreOf(s)
  {
    if s.Full? {
      WordsInInverse(s.words);
    }
  }

  /** Structure and sidecar together reload every vector, exactly when the dimension is not zero, the
      quantizer is the configured one, and there is one vector (and one parameter block) per node under
      a trained codebook — or no node and an empty store. */
  lemma PagedRoundTripIff(q: Quantizer, g: Graph)
    requires Fits(g)
    ensures FromPaged(q, ToStructure(g), VectorBytes(g.store)) == Some(g)
            <==> g.dim != Some(0) && QuantizerOf(g.store) == q
                 && (if g.ids == [] then g.store == EmptyStore(q)
                     else Consistent(q, g, |VectorBytes(g.store)|) && (g.store.Pq? ==> g.store.warmup == []))
  {
    hide ParseStruct, ToStructure, Fits, WordsIn, VectorBytes, Times, EmptyStore;
    StructInverse(g);
    FilledInverse(g.store);
  }

  /** The store holds one vector per node. */
  ghost predicate OnePerNode(g: Graph) {
    |VectorBytes(g.store)| == Times(|g.ids|, Unit(QuantizerOf(g.store), DimOr0(g.dim)))
  }

  /** Over a graph's structure only a sidecar as long as its own vectors loads, whatever the vectors say. */
  lemma SkewRejected(q: Quantizer, g: Graph, vectors: Bytes)
    requires Fits(g) && g.ids != [] && OnePerNode(g)
    requires |vectors| != |VectorBytes(g.store)|
    ensures FromPaged(q, ToStructure(g), vectors) == None
  {
    hide ParseStruct, ToStructure, Fits, WordsIn, VectorBytes, Times, EmptyStore, Filled;
    StructInverse(g);
    assert QuantizerOf(Side(g.store)) == QuantizerOf(g.store);
  }

  // ---- opening ------------------------------------------------------------------------------

  method ReadSide(r: ByteReader) returns (res: Option<Store>)
    requires r.Valid()
    modifies r
    ensures r.Valid() && Agrees(ParseSide(old(r.Rest())), res, r.Rest())
  {
    hide U8, ParseParams, ParsePq;
    var tag :- r.ReadU8();
    match tag {
      case 0 => res := Some(Full([]));
      case 1 =>
        var params :- ReadParams(r);
        res := Some(Sq8([], params));
      case 2 => res := Some(Bq([]));
      case 3 =>
        var header :- ReadPq(r);
        res := Some(Pq(header.1, [], [], header.0));
      case _ => res := None;
    }
  }

  method ReadStruct(structure: Bytes) returns (res: Option<Graph>)
    ensures Agrees(ParseStruct(structure), res, if ParseStruct(structure).Some? then ParseStruct(structure).value.1 else [])
  {
    hide Take, U8, ParseHead, ParseSide;
    var r := new ByteReader(structure);
    var magic :- r.Pull(4);
    if magic != STRUCT_MAGIC {
      return None;
    }
    var version :- r.ReadU8();
    if version != VERSION {
      return None;
    }
    var head :- ReadHead(r);
    var side :- ReadSide(r);
    res := Some(head.(store := side));
  }

  /** `from_paged`: the structure, and the sidecar opened as a paged base. The vectors are not read
      here, yet every node's vector is the one `FromPaged` would load. */
  method OpenPaged(structure: Bytes, vectors: Bytes, q: Quantizer, budget: nat)
    returns (res: Option<Graph>, v: MappedVec)
    ensures res.Some? <==> FromPaged(q, structure, vectors).Some?
    ensures v.Valid() && fresh(v)
    ensures res.Some? ==>
              var g := FromPaged(q, structure, vectors).value;
              && res.value.(store := g.store) == g
              && (g.ids == [] ==> v.Contents() == [] && res.value.store == g.store)
              && (g.ids != [] && Unit(q, DimOr0(g.dim)) > 0 ==>
                    v.base != null && v.base.file == vectors && v.Contents() == vectors
                    && g.store == Filled(res.value.store, v.Contents()))
  {
    hide ParseStruct, WordsIn, Filled, EmptyStore;
    v := new MappedVec.InRam();
    var parsed := ReadStruct(structure);
    if parsed.None? {
      return None, v;
    }
    var g := parsed.value;
    if QuantizerOf(g.store) != q {
      return None, v;
    }
    if g.ids == [] {
      return Some(g.(store := EmptyStore(q))), v;
    }
    if !Consistent(q, g, |vectors|) {
      return None, v;
    }
    var unit := Unit(q, DimOr0(g.dim));
    if unit > 0 {
      var base := new PagedBase(vectors, unit, |g.ids|, budget);
      v := new MappedVec.Mapped(base);
      assert vectors[..|vectors|] == vectors;
    }
    res := Some(g);
  }
}
