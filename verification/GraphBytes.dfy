/**
 * The graph's binary format.
 */
module GraphBytes {
  import opened Arith
  import opened Wrappers
  import opened ByteStrings
  import opened Parsers
  import Ann

  // A head (dimension, rng, entry, ids, tombstones, links) and a store section tagged by quantizer.
  // Floats are their 32-bit patterns. The reader methods follow the source's cursor; each agrees
  // with a parser function, and the theorems are about those: `RoundTripIff`, `PrefixRejected`,
  // `WrongQuantizerRejected`.

  datatype Params = Params(scale: Word, offset: Word, codeSum: Word)

  datatype Codebook = Codebook(m: nat, k: nat, subDim: nat, centroids: seq<Word>)

  datatype Store =
    | Full(words: seq<Word>)
    | Sq8(codes: Bytes, params: seq<Params>)
    | Bq(bits: Bytes)
    | Pq(codebook: Option<Codebook>, warmup: seq<Word>, codes: Bytes, m: nat)

  datatype Quantizer = Exact | Scalar | Binary | Product(m: nat)

  type Layers = seq<seq<Word>>

  /** Everything of an index but its open-time configuration. */
  datatype Graph = Graph(dim: Option<nat>, rng: Word64, live: Word64, entry: Option<(Word, Word)>, ids: seq<Bytes>,
                         byId: map<Bytes, nat>, deleted: seq<bool>, links: seq<Layers>, store: Store)

  function QuantizerOf(s: Store): Quantizer {
    match s
    case Full(_) => Exact
    case Sq8(_, _) => Scalar
    case Bq(_) => Binary
    case Pq(_, _, _, m) => Product(m)
  }

  /** The newest node of each id. */
  function Newest(ids: seq<Bytes>): map<Bytes, nat> {
    if ids == [] then map[] else Newest(ids[..|ids| - 1])[ids[|ids| - 1] := |ids| - 1]
  }

  lemma {:induction false} NewestLast(ids: seq<Bytes>, id: Bytes)
    ensures id in Newest(ids) <==> id in ids
    ensures id in ids ==> Newest(ids)[id] < |ids| && ids[Newest(ids)[id]] == id
                          && forall x: nat :: x < |ids| && ids[x] == id ==> x <= Newest(ids)[id]
  {
    if ids != [] {
      var init := ids[..|ids| - 1];
      NewestLast(init, id);
      assert ids == init + [ids[|ids| - 1]];
      assert forall x: nat :: x < |init| ==> init[x] == ids[x];
    }
  }

  /** In every graph that inserts and removes can reach, `by_id` is what a reader rebuilds from the ids. */
  lemma ReachableById(ids: seq<Bytes>, byId: map<Bytes, nat>, deleted: seq<bool>)
    requires Ann.IdsOk(ids, byId, deleted)
    ensures byId == Newest(ids)
  {
    forall id ensures id in byId <==> id in Newest(ids)
              ensures id in byId ==> byId[id] == Newest(ids)[id]
    {
      NewestLast(ids, id);
      if id in ids {
        var x: nat :| x < |ids| && ids[x] == id;
        assert ids[x] in byId;
        var y := Newest(ids)[id];
        assert ids[y] in byId && y <= byId[ids[y]];
      }
    }
  }

  // ---- UTF-8 ------------------------------------------------------------------------

  predicate Cont(b: Byte) { 0x80 <= b < 0xC0 }

  /** Well-formed UTF-8 byte strings, the only ids a string type admits. */
  predicate Utf8(b: Bytes) {
    || b == []
    || (b[0] < 0x80 && Utf8(b[1..]))
    || (|b| >= 2 && 0xC2 <= b[0] < 0xE0 && Cont(b[1]) && Utf8(b[2..]))
    || (|b| >= 3 && 0xE0 <= b[0] < 0xF0 && Cont(b[1]) && Cont(b[2])
        && (b[0] == 0xE0 ==> b[1] >= 0xA0) && (b[0] == 0xED ==> b[1] < 0xA0) && Utf8(b[3..]))
    || (|b| >= 4 && 0xF0 <= b[0] <= 0xF4 && Cont(b[1]) && Cont(b[2]) && Cont(b[3])
        && (b[0] == 0xF0 ==> b[1] >= 0x90) && (b[0] == 0xF4 ==> b[1] < 0x90) && Utf8(b[4..]))
  }

  // ---- what is written ----------------------------------------------------------------

  function IdBytes(id: Bytes): Bytes { Le(|id|, 4) + id }

  function FlagBytes(d: bool): Bytes { if d then [1] else [0] }

  function LayerBytes(layer: seq<Word>): Bytes { Le(|layer|, 4) + WriteMany(WordBytes, layer) }

  function NodeBytes(layers: Layers): Bytes { Le(|layers|, 4) + WriteMany(LayerBytes, layers) }

  function EntryBytes(entry: Option<(Word, Word)>): Bytes {
    match entry
    case Some((node, layer)) => [1] + (Le(node, 4) + Le(layer, 4))
    case None => [0]
  }

  function DimOr0(dim: Option<nat>): nat { if dim.Some? then dim.value else 0 }

  function Lists(g: Graph): Bytes {
    WriteMany(IdBytes, g.ids) + (WriteMany(FlagBytes, g.deleted) + WriteMany(NodeBytes, g.links))
  }

  function HeadBytes(g: Graph): Bytes {
    Le(DimOr0(g.dim), 4) + (Le(g.rng, 8) + (Le(g.live, 8) + (EntryBytes(g.entry) + (Le(|g.ids|, 4) + Lists(g)))))
  }

  function ParamBytes(p: Params): Bytes { Le(p.scale, 4) + (Le(p.offset, 4) + Le(p.codeSum, 4)) }

  function ParamsBytes(ps: seq<Params>): Bytes { Le(|ps|, 4) + WriteMany(ParamBytes, ps) }

  function PqBytes(m: nat, codebook: Option<Codebook>): Bytes {
    Le(m, 4) + match codebook
               case Some(cb) => [1] + (Le(cb.k, 4) + (Le(cb.subDim, 4) + WriteMany(WordBytes, cb.centroids)))
               case None => [0]
  }

  function Blob(b: Bytes): Bytes { Le(|b|, 8) + b }

  function StoreBytes(s: Store): Bytes {
    match s
    case Full(words) => [0] + (Le(|words|, 8) + WriteMany(WordBytes, words))
    case Sq8(codes, params) => [1] + (Blob(codes) + ParamsBytes(params))
    case Bq(bits) => [2] + Blob(bits)
    case Pq(codebook, _, codes, m) => [3] + (PqBytes(m, codebook) + Blob(codes))
  }

  /** One past the largest `usize`. */
  const MAX_USIZE: nat := 0x1_0000_0000_0000_0000

  /** "RROG" and the format version. */
  const MAGIC: Bytes := [0x52, 0x52, 0x4F, 0x47]
  const VERSION: Byte := 1

  function ToBytes(g: Graph): Bytes { MAGIC + ([VERSION] + (HeadBytes(g) + StoreBytes(g.store))) }

  // ---- what is read --------------------------------------------------------------------

  function ParseId(s: Bytes): Option<(Bytes, Bytes)> {
    var (n, t) :- U32(s);
    var (b, u) :- Take(n, t);
    if Utf8(b) then Some((b, u)) else None
  }

  function ParseFlag(s: Bytes): Option<(bool, Bytes)> {
    var (b, t) :- U8(s);
    Some((b != 0, t))
  }

  function ParseLayer(s: Bytes): Option<(seq<Word>, Bytes)> {
    var (n, t) :- U32(s);
    Many(U32, n, t)
  }

  function ParseNode(s: Bytes): Option<(Layers, Bytes)> {
    var (n, t) :- U32(s);
    Many(ParseLayer, n, t)
  }

  function ParseEntry(s: Bytes): Option<(Option<(Word, Word)>, Bytes)> {
    var (flag, t) :- U8(s);
    if flag == 1 then
      var (node, u) :- U32(t);
      var (layer, v) :- U32(u);
      Some((Some((node, layer)), v))
    else Some((None, t))
  }

  /** The head without its store, which the reader fills in next. */
  function Headed(dim: Word, rng: Word64, live: Word64, entry: Option<(Word, Word)>, ids: seq<Bytes>, deleted: seq<bool>,
                  links: seq<Layers>): Graph
  {
    Graph(if dim == 0 then None else Some(dim), rng, live, entry, ids, Newest(ids), deleted, links, Full([]))
  }

  function ParseLists(dim: Word, rng: Word64, live: Word64, entry: Option<(Word, Word)>, n: nat, s: Bytes)
    : Option<(Graph, Bytes)>
  {
    var (ids, t) :- Many(ParseId, n, s);
    var (deleted, u) :- Many(ParseFlag, n, t);
    var (links, v) :- Many(ParseNode, n, u);
    Some((Headed(dim, rng, live, entry, ids, deleted, links), v))
  }

  function ParseHead(s: Bytes): Option<(Graph, Bytes)> {
    var (dim, s1) :- U32(s);
    var (rng, s2) :- U64(s1);
    var (live, s3) :- U64(s2);
    var (entry, s4) :- ParseEntry(s3);
    var (n, s5) :- U32(s4);
    ParseLists(dim, rng, live, entry, n, s5)
  }

  function ParseParam(s: Bytes): Option<(Params, Bytes)> {
    var (scale, t) :- U32(s);
    var (offset, u) :- U32(t);
    var (codeSum, v) :- U32(u);
    Some((Params(scale, offset, codeSum), v))
  }

  function ParseParams(s: Bytes): Option<(seq<Params>, Bytes)> {
    var (n, t) :- U32(s);
    Many(ParseParam, n, t)
  }

  /** `m.checked_mul(k)?.checked_mul(sub_dim)?` */
  function CentroidCount(m: Word, k: Word, subDim: Word): Option<nat> {
    var mk := Times(m, k);
    if mk >= MAX_USIZE then None
    else if Times(mk, subDim) >= MAX_USIZE then None
    else Some(Times(mk, subDim))
  }

  function ParseCodebook(m: Word, s: Bytes): Option<(Option<Codebook>, Bytes)> {
    var (k, t) :- U32(s);
    var (subDim, u) :- U32(t);
    var n :- CentroidCount(m, k, subDim);
    var (centroids, v) :- Many(U32, n, u);
    Some((Some(Codebook(m, k, subDim, centroids)), v))
  }

  function ParsePq(s: Bytes): Option<((Word, Option<Codebook>), Bytes)> {
    var (m, t) :- U32(s);
    var (flag, u) :- U8(t);
    if flag == 0 then Some(((m, None), u))
    else if flag == 1 then
      var (codebook, v) :- ParseCodebook(m, u);
      Some(((m, codebook), v))
    else None
  }

  function ParseBlob(s: Bytes): Option<(Bytes, Bytes)> {
    var (n, t) :- U64(s);
    Take(n, t)
  }

  function ParseFull(s: Bytes): Option<(Store, Bytes)> {
    var (n, t) :- U64(s);
    var (words, u) :- Many(U32, n, t);
    Some((Full(words), u))
  }

  function ParseSq8(s: Bytes): Option<(Store, Bytes)> {
    var (codes, t) :- ParseBlob(s);
    var (params, u) :- ParseParams(t);
    Some((Sq8(codes, params), u))
  }

  function ParseBq(s: Bytes): Option<(Store, Bytes)> {
    var (bits, t) :- ParseBlob(s);
    Some((Bq(bits), t))
  }

  /** A non-empty PQ graph without a codebook, or without one code per node, is unusable. */
  predicate PqUsable(nodes: nat, m: nat, codebook: Option<Codebook>, codes: Bytes) {
    nodes == 0 || (codebook.Some? && |codes| == nodes * m)
  }

  function ParsePqStore(nodes: nat, s: Bytes): Option<(Store, Bytes)> {
    var (header, t) :- ParsePq(s);
    var (codes, u) :- ParseBlob(t);
    if PqUsable(nodes, header.0, header.1, codes) then Some((Pq(header.1, [], codes, header.0), u)) else None
  }

  function ParseStore(nodes: nat, s: Bytes): Option<(Store, Bytes)> {
    var (tag, t) :- U8(s);
    match tag
    case 0 => ParseFull(t)
    case 1 => ParseSq8(t)
    case 2 => ParseBq(t)
    case 3 => ParsePqStore(nodes, t)
    case _ => None
  }

  function ParseBody(q: Quantizer, s: Bytes): Option<(Graph, Bytes)> {
    var (head, t) :- ParseHead(s);
    var (store, u) :- ParseStore(|head.ids|, t);
    if QuantizerOf(store) == q then Some((head.(store := store), u)) else None
  }

  function Parse(q: Quantizer, s: Bytes): Option<(Graph, Bytes)> {
    var (magic, t) :- Take(4, s);
    if magic != MAGIC then None
    else
      var (version, u) :- U8(t);
      if version != VERSION then None else ParseBody(q, u)
  }

  /** `from_bytes`: what is left over is ignored. */
  function FromBytes(q: Quantizer, s: Bytes): Option<Graph> {
    var (g, _) :- Parse(q, s);
    Some(g)
  }

  // ---- more input changes nothing -----------------------------------------------------

  lemma IdExtends()
    ensures Extends(ParseId)
  {
    PrimitivesExtend();
    forall s: Bytes, t: Bytes | ParseId(s).Some? ensures ParseId(s + t) == Some((ParseId(s).value.0, ParseId(s).value.1 + t)) {
      assert U32(s).Some?;
      TakeExtends(U32(s).value.0, U32(s).value.1, t);
    }
  }

  lemma FlagExtends()
    ensures Extends(ParseFlag)
  {
    PrimitivesExtend();
  }

  lemma LayerExtends()
    ensures Extends(ParseLayer)
  {
    PrimitivesExtend();
    forall s: Bytes, t: Bytes | ParseLayer(s).Some?
      ensures ParseLayer(s + t) == Some((ParseLayer(s).value.0, ParseLayer(s).value.1 + t))
    {
      assert U32(s).Some?;
      ManyExtends(U32, U32(s).value.0, U32(s).value.1, t);
    }
  }

  lemma NodeExtends()
    ensures Extends(ParseNode)
  {
    PrimitivesExtend();
    LayerExtends();
    forall s: Bytes, t: Bytes | ParseNode(s).Some?
      ensures ParseNode(s + t) == Some((ParseNode(s).value.0, ParseNode(s).value.1 + t))
    {
      assert U32(s).Some?;
      ManyExtends(ParseLayer, U32(s).value.0, U32(s).value.1, t);
    }
  }

  lemma EntryExtends()
    ensures Extends(ParseEntry)
  {
    PrimitivesExtend();
  }

  lemma ListsExtend(dim: Word, rng: Word64, live: Word64, entry: Option<(Word, Word)>, n: nat, s: Bytes, t: Bytes)
    requires ParseLists(dim, rng, live, entry, n, s).Some?
    ensures var r := ParseLists(dim, rng, live, entry, n, s).value;
            ParseLists(dim, rng, live, entry, n, s + t) == Some((r.0, r.1 + t))
  {
    IdExtends();
    FlagExtends();
    NodeExtends();
    hide Extends;
    ManyExtends(ParseId, n, s, t);
    var s1 := Many(ParseId, n, s).value.1;
    ManyExtends(ParseFlag, n, s1, t);
    var s2 := Many(ParseFlag, n, s1).value.1;
    ManyExtends(ParseNode, n, s2, t);
  }

  lemma HeadExtends(s: Bytes, t: Bytes)
    requires ParseHead(s).Some?
    ensures ParseHead(s + t) == Some((ParseHead(s).value.0, ParseHead(s).value.1 + t))
  {
    PrimitivesExtend();
    EntryExtends();
    var (dim, s1) := U32(s).value;
    var (rng, s2) := U64(s1).value;
    var (live, s3) := U64(s2).value;
    var (entry, s4) := ParseEntry(s3).value;
    var (n, s5) := U32(s4).value;
    ListsExtend(dim, rng, live, entry, n, s5, t);
  }

  lemma ParamsExtend(s: Bytes, t: Bytes)
    requires ParseParams(s).Some?
    ensures ParseParams(s + t) == Some((ParseParams(s).value.0, ParseParams(s).value.1 + t))
  {
    PrimitivesExtend();
    assert Extends(ParseParam);
    assert U32(s).Some?;
    ManyExtends(ParseParam, U32(s).value.0, U32(s).value.1, t);
  }

  lemma CodebookExtends(m: Word, s: Bytes, t: Bytes)
    requires ParseCodebook(m, s).Some?
    ensures ParseCodebook(m, s + t) == Some((ParseCodebook(m, s).value.0, ParseCodebook(m, s).value.1 + t))
  {
    PrimitivesExtend();
    var (k, s1) := U32(s).value;
    var (subDim, s2) := U32(s1).value;
    ManyExtends(U32, CentroidCount(m, k, subDim).value, s2, t);
  }

  lemma PqExtends(s: Bytes, t: Bytes)
    requires ParsePq(s).Some?
    ensures ParsePq(s + t) == Some((ParsePq(s).value.0, ParsePq(s).value.1 + t))
  {
    PrimitivesExtend();
    var (m, s1) := U32(s).value;
    var (flag, s2) := U8(s1).value;
    if flag == 1 {
      CodebookExtends(m, s2, t);
    }
  }

  lemma BlobExtends(s: Bytes, t: Bytes)
    requires ParseBlob(s).Some?
    ensures ParseBlob(s + t) == Some((ParseBlob(s).value.0, ParseBlob(s).value.1 + t))
  {
    PrimitivesExtend();
    assert U64(s).Some?;
    TakeExtends(U64(s).value.0, U64(s).value.1, t);
  }

  lemma StoreExtends(nodes: nat, s: Bytes, t: Bytes)
    requires ParseStore(nodes, s).Some?
    ensures ParseStore(nodes, s + t) == Some((ParseStore(nodes, s).value.0, ParseStore(nodes, s).value.1 + t))
  {
    PrimitivesExtend();
    var (tag, s1) := U8(s).value;
    match tag {
      case 0 =>
        ManyExtends(U32, U64(s1).value.0, U64(s1).value.1, t);
      case 1 =>
        BlobExtends(s1, t);
        ParamsExtend(ParseBlob(s1).value.1, t);
      case 2 =>
        BlobExtends(s1, t);
      case _ =>
        PqExtends(s1, t);
        BlobExtends(ParsePq(s1).value.1, t);
    }
  }

  lemma ParseExtends(q: Quantizer, s: Bytes, t: Bytes)
    requires Parse(q, s).Some?
    ensures Parse(q, s + t) == Some((Parse(q, s).value.0, Parse(q, s).value.1 + t))
  {
    PrimitivesExtend();
    TakeExtends(4, s, t);
    var (_, s1) := Take(4, s).value;
    var (_, s2) := U8(s1).value;
    HeadExtends(s2, t);
    StoreExtends(|ParseHead(s2).value.0.ids|, ParseHead(s2).value.1, t);
  }

  // ---- reading undoes writing ----------------------------------------------------------

  lemma IdInverse(id: Bytes)
    requires Utf8(id) && |id| < 0x1_0000_0000
    ensures Inverts(ParseId, IdBytes, id)
  {
    hide Utf8, U32, Take;
    forall t: Bytes ensures ParseId(IdBytes(id) + t) == Some((id, t)) {
      assert IdBytes(id) + t == Le(|id|, 4) + (id + t);
      U32Inverse(|id|, id + t);
      TakeInverse(id, t);
    }
  }

  lemma FlagInverse(d: bool)
    ensures Inverts(ParseFlag, FlagBytes, d)
  {
    forall t: Bytes ensures ParseFlag(FlagBytes(d) + t) == Some((d, t)) {
      U8Inverse(if d then 1 else 0, t);
    }
  }

  lemma LayerInverse(layer: seq<Word>)
    requires |layer| < 0x1_0000_0000
    ensures Inverts(ParseLayer, LayerBytes, layer)
  {
    forall t: Bytes ensures ParseLayer(LayerBytes(layer) + t) == Some((layer, t)) {
      assert LayerBytes(layer) + t == Le(|layer|, 4) + (WriteMany(WordBytes, layer) + t);
      U32Inverse(|layer|, WriteMany(WordBytes, layer) + t);
      WordsInverse(layer, t);
    }
  }

  ghost predicate LayersFit(layers: Layers) {
    |layers| < 0x1_0000_0000 && forall l :: 0 <= l < |layers| ==> |layers[l]| < 0x1_0000_0000
  }

  lemma NodeInverse(layers: Layers)
    requires LayersFit(layers)
    ensures Inverts(ParseNode, NodeBytes, layers)
  {
    forall t: Bytes ensures ParseNode(NodeBytes(layers) + t) == Some((layers, t)) {
      assert NodeBytes(layers) + t == Le(|layers|, 4) + (WriteMany(LayerBytes, layers) + t);
      U32Inverse(|layers|, WriteMany(LayerBytes, layers) + t);
      forall l | 0 <= l < |layers| ensures Inverts(ParseLayer, LayerBytes, layers[l]) {
        LayerInverse(layers[l]);
      }
      ManyInverse(ParseLayer, LayerBytes, layers, t);
    }
  }

  lemma EntryInverse(entry: Option<(Word, Word)>, t: Bytes)
    ensures ParseEntry(EntryBytes(entry) + t) == Some((entry, t))
  {
    match entry {
      case Some((node, layer)) =>
        assert EntryBytes(entry) + t == [1] + (Le(node, 4) + (Le(layer, 4) + t));
        U8Inverse(1, Le(node, 4) + (Le(layer, 4) + t));
        U32Inverse(node, Le(layer, 4) + t);
        U32Inverse(layer, t);
      case None =>
        U8Inverse(0, t);
    }
  }

  /** The sizes the format has room for, and the shape every index keeps. */
  ghost predicate HeadFits(g: Graph) {
    && DimOr0(g.dim) < 0x1_0000_0000
    && |g.ids| < 0x1_0000_0000
    && |g.deleted| == |g.ids| && |g.links| == |g.ids|
    && (forall i :: 0 <= i < |g.ids| ==> Utf8(g.ids[i]) && |g.ids[i]| < 0x1_0000_0000)
    && (forall i :: 0 <= i < |g.links| ==> LayersFit(g.links[i]))
    && g.byId == Newest(g.ids)
  }

  ghost predicate CodebookFits(m: nat, cb: Codebook) {
    && m < 0x1_0000_0000 && cb.m == m && cb.k < 0x1_0000_0000 && cb.subDim < 0x1_0000_0000
    && CentroidCount(m, cb.k, cb.subDim) == Some(|cb.centroids|)
  }

  ghost predicate StoreFits(s: Store) {
    match s
    case Full(words) => |words| < MAX_USIZE
    case Sq8(codes, params) => |codes| < MAX_USIZE && |params| < 0x1_0000_0000
    case Bq(bits) => |bits| < MAX_USIZE
    case Pq(codebook, _, codes, m) =>
      |codes| < MAX_USIZE && m < 0x1_0000_0000 && (codebook.Some? ==> CodebookFits(m, codebook.value))
  }

  lemma ListsInverse(g: Graph, dim: Word, t: Bytes)
    requires HeadFits(g)
    ensures ParseLists(dim, g.rng, g.live, g.entry, |g.ids|, Lists(g) + t)
            == Some((Headed(dim, g.rng, g.live, g.entry, g.ids, g.deleted, g.links), t))
  {
    var u := WriteMany(NodeBytes, g.links) + t;
    var v := WriteMany(FlagBytes, g.deleted) + u;
    assert Lists(g) + t == WriteMany(IdBytes, g.ids) + v;
    forall i | 0 <= i < |g.ids|
      ensures Inverts(ParseId, IdBytes, g.ids[i]) && Inverts(ParseFlag, FlagBytes, g.deleted[i])
              && Inverts(ParseNode, NodeBytes, g.links[i])
    {
      IdInverse(g.ids[i]);
      FlagInverse(g.deleted[i]);
      NodeInverse(g.links[i]);
    }
    hide Inverts;
    ManyInverse(ParseId, IdBytes, g.ids, v);
    ManyInverse(ParseFlag, FlagBytes, g.deleted, u);
    ManyInverse(ParseNode, NodeBytes, g.links, t);
  }

  /** What the head of a written graph reads back as: a dimension of zero comes back as none. */
  function HeadOf(g: Graph): Graph {
    g.(dim := if DimOr0(g.dim) == 0 then None else g.dim, store := Full([]))
  }

  lemma HeadInverse(g: Graph, t: Bytes)
    requires HeadFits(g)
    ensures ParseHead(HeadBytes(g) + t) == Some((HeadOf(g), t))
  {
    hide U32, U64, ParseEntry, ParseLists, Lists, EntryBytes;
    var s5 := Lists(g) + t;
    var s4 := Le(|g.ids|, 4) + s5;
    var s3 := EntryBytes(g.entry) + s4;
    var s2 := Le(g.live, 8) + s3;
    var s1 := Le(g.rng, 8) + s2;
    assert HeadBytes(g) + t == Le(DimOr0(g.dim), 4) + s1;
    U32Inverse(DimOr0(g.dim), s1);
    U64Inverse(g.rng, s2);
    U64Inverse(g.live, s3);
    EntryInverse(g.entry, s4);
    U32Inverse(|g.ids|, s5);
    ListsInverse(g, DimOr0(g.dim), t);
  }

  lemma ParamsInverse(ps: seq<Params>, t: Bytes)
    requires |ps| < 0x1_0000_0000
    ensures ParseParams(ParamsBytes(ps) + t) == Some((ps, t))
  {
    assert ParamsBytes(ps) + t == Le(|ps|, 4) + (WriteMany(ParamBytes, ps) + t);
    U32Inverse(|ps|, WriteMany(ParamBytes, ps) + t);
    forall i | 0 <= i < |ps| ensures Inverts(ParseParam, ParamBytes, ps[i]) {
      var p := ps[i];
      forall t: Bytes ensures ParseParam(ParamBytes(p) + t) == Some((p, t)) {
        assert ParamBytes(p) + t == Le(p.scale, 4) + (Le(p.offset, 4) + (Le(p.codeSum, 4) + t));
        U32Inverse(p.scale, Le(p.offset, 4) + (Le(p.codeSum, 4) + t));
        U32Inverse(p.offset, Le(p.codeSum, 4) + t);
        U32Inverse(p.codeSum, t);
      }
    }
    ManyInverse(ParseParam, ParamBytes, ps, t);
  }

  lemma BlobInverse(b: Bytes, t: Bytes)
    requires |b| < MAX_USIZE
    ensures ParseBlob(Blob(b) + t) == Some((b, t))
  {
    assert Blob(b) + t == Le(|b|, 8) + (b + t);
    U64Inverse(|b|, b + t);
    TakeInverse(b, t);
  }

  lemma PqInverse(m: nat, codebook: Option<Codebook>, t: Bytes)
    requires m < 0x1_0000_0000 && (codebook.Some? ==> CodebookFits(m, codebook.value))
    ensures ParsePq(PqBytes(m, codebook) + t) == Some(((m, codebook), t))
  {
    match codebook {
      case Some(cb) =>
        var s3 := WriteMany(WordBytes, cb.centroids) + t;
        var s2 := Le(cb.subDim, 4) + s3;
        var s1 := Le(cb.k, 4) + s2;
        assert PqBytes(m, codebook) + t == Le(m, 4) + ([1] + s1);
        U32Inverse(m, [1] + s1);
        U8Inverse(1, s1);
        U32Inverse(cb.k, s2);
        U32Inverse(cb.subDim, s3);
        WordsInverse(cb.centroids, t);
      case None =>
        assert PqBytes(m, codebook) + t == Le(m, 4) + ([0] + t);
        U32Inverse(m, [0] + t);
        U8Inverse(0, t);
    }
  }

  /** Warmup vectors are not written. */
  function StoreOf(s: Store): Store {
    if s.Pq? then s.(warmup := []) else s
  }

  predicate Usable(nodes: nat, s: Store) {
    s.Pq? ==> PqUsable(nodes, s.m, s.codebook, s.codes)
  }

  /** The store section after its tag. */
  function StoreBody(s: Store): Bytes {
    match s
    case Full(words) => Le(|words|, 8) + WriteMany(WordBytes, words)
    case Sq8(codes, params) => Blob(codes) + ParamsBytes(params)
    case Bq(bits) => Blob(bits)
    case Pq(codebook, _, codes, m) => PqBytes(m, codebook) + Blob(codes)
  }

  lemma FullInverse(words: seq<Word>, t: Bytes)
    requires |words| < MAX_USIZE
    ensures ParseFull(StoreBody(Full(words)) + t) == Some((Full(words), t))
  {
    hide U64, U32, Many, WriteMany;
    assert StoreBody(Full(words)) + t == Le(|words|, 8) + (WriteMany(WordBytes, words) + t);
    U64Inverse(|words|, WriteMany(WordBytes, words) + t);
    WordsInverse(words, t);
  }

  lemma Sq8Inverse(codes: Bytes, params: seq<Params>, t: Bytes)
    requires |codes| < MAX_USIZE && |params| < 0x1_0000_0000
    ensures ParseSq8(StoreBody(Sq8(codes, params)) + t) == Some((Sq8(codes, params), t))
  {
    hide ParseBlob, ParseParams, Blob, ParamsBytes;
    assert StoreBody(Sq8(codes, params)) + t == Blob(codes) + (ParamsBytes(params) + t);
    BlobInverse(codes, ParamsBytes(params) + t);
    ParamsInverse(params, t);
  }

  lemma PqStoreInverse(nodes: nat, s: Store, t: Bytes)
    requires s.Pq? && StoreFits(s)
    ensures ParsePqStore(nodes, StoreBody(s) + t) == if Usable(nodes, s) then Some((StoreOf(s), t)) else None
  {
    hide ParseBlob, ParsePq, Blob, PqBytes, PqUsable, CodebookFits;
    assert StoreBody(s) + t == PqBytes(s.m, s.codebook) + (Blob(s.codes) + t);
    PqInverse(s.m, s.codebook, Blob(s.codes) + t);
    BlobInverse(s.codes, t);
  }

  lemma StoreInverse(nodes: nat, s: Store, t: Bytes)
    requires StoreFits(s)
    ensures ParseStore(nodes, StoreBytes(s) + t) == if Usable(nodes, s) then Some((StoreOf(s), t)) else None
  {
    hide U8, ParseFull, ParseSq8, ParseBlob, ParsePqStore, Blob, PqUsable, CodebookFits;
    var tag: Byte := match s case Full(_) => 0 case Sq8(_, _) => 1 case Bq(_) => 2 case Pq(_, _, _, _) => 3;
    assert StoreBytes(s) + t == [tag] + (StoreBody(s) + t);
    U8Inverse(tag, StoreBody(s) + t);
    match s {
      case Full(words) => FullInverse(words, t);
      case Sq8(codes, params) => Sq8Inverse(codes, params, t);
      case Bq(bits) => BlobInverse(bits, t);
      case Pq(_, _, _, _) => PqStoreInverse(nodes, s, t);
    }
  }

  // ---- the theorems -----------------------------------------------------------------------

  ghost predicate Fits(g: Graph) {
    HeadFits(g) && StoreFits(g.store)
  }

  /** What a written graph reads back as, with whatever follows it left over. */
  lemma ReadsBack(q: Quantizer, g: Graph, t: Bytes)
    requires Fits(g)
    ensures Parse(q, ToBytes(g) + t)
            == if Usable(|g.ids|, g.store) && QuantizerOf(g.store) == q
               then Some((HeadOf(g).(store := StoreOf(g.store)), t)) else None
  {
    hide U8, Take, ParseHead, HeadBytes, ParseStore, StoreBytes, StoreFits, HeadFits, Usable;
    var s2 := StoreBytes(g.store) + t;
    var s1 := HeadBytes(g) + s2;
    assert ToBytes(g) + t == MAGIC + ([VERSION] + s1);
    TakeInverse(MAGIC, [VERSION] + s1);
    U8Inverse(VERSION, s1);
    HeadInverse(g, s2);
    StoreInverse(|g.ids|, g.store, t);
  }

  /** A blob loads as the graph it was written from, `by_id` included, exactly when the dimension is
      not zero, the quantizer is the configured one, and a PQ graph is sealed or empty. */
  lemma RoundTripIff(q: Quantizer, g: Graph)
    requires Fits(g)
    ensures FromBytes(q, ToBytes(g)) == Some(g)
            <==> g.dim != Some(0) && QuantizerOf(g.store) == q && Usable(|g.ids|, g.store)
                 && (g.store.Pq? ==> g.store.warmup == [])
  {
    hide Parse, ToBytes, Fits, Usable;
    ReadsBack(q, g, []);
    assert ToBytes(g) + [] == ToBytes(g);
  }

  /** Every strict prefix of a loadable blob is rejected. */
  lemma PrefixRejected(q: Quantizer, g: Graph, n: nat)
    requires Fits(g) && Usable(|g.ids|, g.store) && n < |ToBytes(g)|
    ensures FromBytes(q, ToBytes(g)[..n]) == None
  {
    hide Parse, ToBytes, Fits, Usable;
    var b := ToBytes(g);
    if Parse(q, b[..n]).Some? {
      ParseExtends(q, b[..n], b[n..]);
      assert b[..n] + b[n..] == b && b + [] == b;
      ReadsBack(q, g, []);
    }
  }

  /** A blob of another quantizer is rejected. */
  lemma WrongQuantizerRejected(q: Quantizer, g: Graph)
    requires Fits(g) && QuantizerOf(g.store) != q
    ensures FromBytes(q, ToBytes(g)) == None
  {
    hide Parse, ToBytes, Fits, Usable;
    ReadsBack(q, g, []);
    assert ToBytes(g) + [] == ToBytes(g);
  }

  /** Bytes after a loadable blob are ignored, not detected. */
  lemma TrailingIgnored(q: Quantizer, s: Bytes, junk: Bytes)
    requires FromBytes(q, s).Some?
    ensures FromBytes(q, s + junk) == FromBytes(q, s)
  {
    ParseExtends(q, s, junk);
  }
}
