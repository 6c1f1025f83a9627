/**
 * `to_bytes` and `from_bytes` as the source runs them: a buffer that grows, and a cursor over the
 * blob. Each method is tied to the format's writing or parsing function.
 */
module GraphCodec {
  import opened Wrappers
  import opened ByteStrings
  import opened Parsers
  import opened GraphBytes

  // ---- reading --------------------------------------------------------------------

  method ReadWords(r: ByteReader, n: nat) returns (res: Option<seq<Word>>)
    requires r.Valid()
    modifies r
    ensures r.Valid() && Agrees(Many(U32, n, old(r.Rest())), res, r.Rest())
  {
    var ws: seq<Word> := [];
    for i := 0 to n
      invariant r.Valid() && Many(U32, i, old(r.Rest())) == Some((ws, r.Rest()))
    {
      var w := r.ReadU32();
      if w.None? {
        ManyFails(U32, i + 1, n, old(r.Rest()));
        return None;
      }
      ws := ws + [w.value];
    }
    res := Some(ws);
  }

  /** The ids, and the newest node of each. */
  method ReadIds(r: ByteReader, n: nat) returns (res: Option<seq<Bytes>>, byId: map<Bytes, nat>)
    requires r.Valid()
    modifies r
    ensures r.Valid() && Agrees(Many(ParseId, n, old(r.Rest())), res, r.Rest())
    ensures res.Some? ==> byId == Newest(res.value)
  {
    var ids: seq<Bytes> := [];
    byId := map[];
    for node := 0 to n
      invariant r.Valid() && Many(ParseId, node, old(r.Rest())) == Some((ids, r.Rest()))
      invariant |ids| == node && byId == Newest(ids)
    {
      var id := ReadId(r);
      if id.None? {
        ManyFails(ParseId, node + 1, n, old(r.Rest()));
        return None, byId;
      }
      assert (ids + [id.value])[..node] == ids;
      byId := byId[id.value := node];
      ids := ids + [id.value];
    }
    res := Some(ids);
  }

  method ReadId(r: ByteReader) returns (res: Option<Bytes>)
    requires r.Valid()
    modifies r
    ensures r.Valid() && Agrees(ParseId(old(r.Rest())), res, r.Rest())
  {
    var len :- r.ReadU32();
    var id :- r.Pull(len);
    if !Utf8(id) {
      return None;
    }
    res := Some(id);
  }

  method ReadFlags(r: ByteReader, n: nat) returns (res: Option<seq<bool>>)
    requires r.Valid()
    modifies r
    ensures r.Valid() && Agrees(Many(ParseFlag, n, old(r.Rest())), res, r.Rest())
  {
    var flags: seq<bool> := [];
    for i := 0 to n
      invariant r.Valid() && Many(ParseFlag, i, old(r.Rest())) == Some((flags, r.Rest()))
    {
      var b := r.ReadU8();
      if b.None? {
        ManyFails(ParseFlag, i + 1, n, old(r.Rest()));
        return None;
      }
      flags := flags + [b.value != 0];
    }
    res := Some(flags);
  }

  method ReadNode(r: ByteReader) returns (res: Option<Layers>)
    requires r.Valid()
    modifies r
    ensures r.Valid() && Agrees(ParseNode(old(r.Rest())), res, r.Rest())
  {
    var n :- r.ReadU32();
    ghost var start := r.Rest();
    var layers: Layers := [];
    for i := 0 to n
      invariant r.Valid() && Many(ParseLayer, i, start) == Some((layers, r.Rest()))
    {
      var layer := ReadLayer(r);
      if layer.None? {
        ManyFails(ParseLayer, i + 1, n, start);
        return None;
      }
      layers := layers + [layer.value];
    }
    res := Some(layers);
  }

  method ReadLayer(r: ByteReader) returns (res: Option<seq<Word>>)
    requires r.Valid()
    modifies r
    ensures r.Valid() && Agrees(ParseLayer(old(r.Rest())), res, r.Rest())
  {
    var count :- r.ReadU32();
    res := ReadWords(r, count);
  }

  method ReadLinks(r: ByteReader, n: nat) returns (res: Option<seq<Layers>>)
    requires r.Valid()
    modifies r
    ensures r.Valid() && Agrees(Many(ParseNode, n, old(r.Rest())), res, r.Rest())
  {
    var links: seq<Layers> := [];
    for i := 0 to n
      invariant r.Valid() && Many(ParseNode, i, old(r.Rest())) == Some((links, r.Rest()))
    {
      var node := ReadNode(r);
      if node.None? {
        ManyFails(ParseNode, i + 1, n, old(r.Rest()));
        return None;
      }
      links := links + [node.value];
    }
    res := Some(links);
  }

  method ReadEntry(r: ByteReader) returns (res: Option<Option<(Word, Word)>>)
    requires r.Valid()
    modifies r
    ensures r.Valid() && Agrees(ParseEntry(old(r.Rest())), res, r.Rest())
  {
    var flag :- r.ReadU8();
    if flag == 1 {
      var node :- r.ReadU32();
      var layer :- r.ReadU32();
      res := Some(Some((node, layer)));
    } else {
      res := Some(None);
    }
  }

  /** `Head::read`. */
  method ReadHead(r: ByteReader) returns (res: Option<Graph>)
    requires r.Valid()
    modifies r
    ensures r.Valid() && Agrees(ParseHead(old(r.Rest())), res, r.Rest())
  {
    hide U32, U64, ParseEntry, Newest;
    var dim :- r.ReadU32();
    var rng :- r.ReadU64();
    var live :- r.ReadU64();
    var entry :- ReadEntry(r);
    var n :- r.ReadU32();
    var ids, byId := ReadIds(r, n);
    if ids.None? {
      return None;
    }
    var deleted :- ReadFlags(r, n);
    var links :- ReadLinks(r, n);
    res := Some(Graph(if dim == 0 then None else Some(dim), rng, live, entry, ids.value, byId, deleted, links, Full([])));
  }

  method ReadParams(r: ByteReader) returns (res: Option<seq<Params>>)
    requires r.Valid()
    modifies r
    ensures r.Valid() && Agrees(ParseParams(old(r.Rest())), res, r.Rest())
  {
    var n :- r.ReadU32();
    ghost var start := r.Rest();
    var params: seq<Params> := [];
    for i := 0 to n
      invariant r.Valid() && Many(ParseParam, i, start) == Some((params, r.Rest()))
    {
      var p := ReadParam(r);
      if p.None? {
        ManyFails(ParseParam, i + 1, n, start);
        return None;
      }
      params := params + [p.value];
    }
    res := Some(params);
  }

  method ReadParam(r: ByteReader) returns (res: Option<Params>)
    requires r.Valid()
    modifies r
    ensures r.Valid() && Agrees(ParseParam(old(r.Rest())), res, r.Rest())
  {
    var scale :- r.ReadU32();
    var offset :- r.ReadU32();
    var codeSum :- r.ReadU32();
    res := Some(Params(scale, offset, codeSum));
  }

  method ReadPq(r: ByteReader) returns (res: Option<(Word, Option<Codebook>)>)
    requires r.Valid()
    modifies r
    ensures r.Valid() && Agrees(ParsePq(old(r.Rest())), res, r.Rest())
  {
    var m :- r.ReadU32();
    var flag :- r.ReadU8();
    if flag == 0 {
      return Some((m, None));
    }
    if flag != 1 {
      return None;
    }
    var k :- r.ReadU32();
    var subDim :- r.ReadU32();
    var n :- CentroidCount(m, k, subDim);
    var centroids :- ReadWords(r, n);
    res := Some((m, Some(Codebook(m, k, subDim, centroids))));
  }

  method ReadBlob(r: ByteReader) returns (res: Option<Bytes>)
    requires r.Valid()
    modifies r
    ensures r.Valid() && Agrees(ParseBlob(old(r.Rest())), res, r.Rest())
  {
    var len :- r.ReadU64();
    res := r.Pull(len);
  }

  method ReadStore(r: ByteReader, nodes: nat) returns (res: Option<Store>)
    requires r.Valid()
    modifies r
    ensures r.Valid() && Agrees(ParseStore(nodes, old(r.Rest())), res, r.Rest())
  {
    hide U8, U64, ParseBlob, ParsePq, ParseParams, Many, PqUsable;
    var tag :- r.ReadU8();
    match tag {
      case 0 =>
        var len :- r.ReadU64();
        var words :- ReadWords(r, len);
        res := Some(Full(words));
      case 1 =>
        var codes :- ReadBlob(r);
        var params :- ReadParams(r);
        res := Some(Sq8(codes, params));
      case 2 =>
        var bits :- ReadBlob(r);
        res := Some(Bq(bits));
      case 3 =>
        var header :- ReadPq(r);
        var codes :- ReadBlob(r);
        if !PqUsable(nodes, header.0, header.1, codes) {
          return None;
        }
        res := Some(Pq(header.1, [], codes, header.0));
      case _ =>
        res := None;
    }
  }

  /** `from_bytes`: never out of bounds, and exactly the parser's answer. */
  method Load(bytes: Bytes, q: Quantizer) returns (res: Option<Graph>)
    ensures res == FromBytes(q, bytes)
  {
    hide Take, U8, ParseHead, ParseStore, QuantizerOf;
    var r := new ByteReader(bytes);
    var magic :- r.Pull(4);
    if magic != MAGIC {
      return None;
    }
    var version :- r.ReadU8();
    if version != VERSION {
      return None;
    }
    var head :- ReadHead(r);
    var store :- ReadStore(r, |head.ids|);
    if QuantizerOf(store) != q {
      return None;
    }
    res := Some(head.(store := store));
  }

  // ---- writing --------------------------------------------------------------------

  method WriteIds(ids: seq<Bytes>) returns (w: Bytes)
    ensures w == WriteMany(IdBytes, ids)
  {
    w := [];
    for i := 0 to |ids|
      invariant w == WriteMany(IdBytes, ids[..i])
    {
      assert ids[..i + 1][..i] == ids[..i];
      w := w + (Le(|ids[i]|, 4) + ids[i]);
    }
    assert ids[..|ids|] == ids;
  }

  method WriteFlags(deleted: seq<bool>) returns (w: Bytes)
    ensures w == WriteMany(FlagBytes, deleted)
  {
    w := [];
    for i := 0 to |deleted|
      invariant w == WriteMany(FlagBytes, deleted[..i])
    {
      assert deleted[..i + 1][..i] == deleted[..i];
      w := w + (if deleted[i] then [1] else [0]);
    }
    assert deleted[..|deleted|] == deleted;
  }

  method WriteWords(ws: seq<Word>) returns (w: Bytes)
    ensures w == WriteMany(WordBytes, ws)
  {
    w := [];
    for i := 0 to |ws|
      invariant w == WriteMany(WordBytes, ws[..i])
    {
      assert ws[..i + 1][..i] == ws[..i];
      w := w + Le(ws[i], 4);
    }
    assert ws[..|ws|] == ws;
  }

  method WriteNode(layers: Layers) returns (w: Bytes)
    ensures w == NodeBytes(layers)
  {
    var body: Bytes := [];
    for i := 0 to |layers|
      invariant body == WriteMany(LayerBytes, layers[..i])
    {
      assert layers[..i + 1][..i] == layers[..i];
      var words := WriteWords(layers[i]);
      body := body + (Le(|layers[i]|, 4) + words);
    }
    assert layers[..|layers|] == layers;
    w := Le(|layers|, 4) + body;
  }

  method WriteLinks(links: seq<Layers>) returns (w: Bytes)
    ensures w == WriteMany(NodeBytes, links)
  {
    w := [];
    for i := 0 to |links|
      invariant w == WriteMany(NodeBytes, links[..i])
    {
      assert links[..i + 1][..i] == links[..i];
      var node := WriteNode(links[i]);
      w := w + node;
    }
    assert links[..|links|] == links;
  }

  /** `write_head`. */
  method WriteHead(g: Graph) returns (w: Bytes)
    ensures w == HeadBytes(g)
  {
    hide Le, WriteMany;
    w := Le(if g.dim.Some? then g.dim.value else 0, 4);
    w := w + Le(g.rng, 8);
    w := w + Le(g.live, 8);
    match g.entry {
      case Some((node, layer)) => w := w + ([1] + (Le(node, 4) + Le(layer, 4)));
      case None => w := w + [0];
    }
    w := w + Le(|g.ids|, 4);
    var ids := WriteIds(g.ids);
    var deleted := WriteFlags(g.deleted);
    var links := WriteLinks(g.links);
    w := w + ids + deleted + links;
    assert w == HeadBytes(g);
  }

  method WriteParams(ps: seq<Params>) returns (w: Bytes)
    ensures w == ParamsBytes(ps)
  {
    var body: Bytes := [];
    for i := 0 to |ps|
      invariant body == WriteMany(ParamBytes, ps[..i])
    {
      assert ps[..i + 1][..i] == ps[..i];
      body := body + (Le(ps[i].scale, 4) + (Le(ps[i].offset, 4) + Le(ps[i].codeSum, 4)));
    }
    assert ps[..|ps|] == ps;
    w := Le(|ps|, 4) + body;
  }

  method WritePq(m: nat, codebook: Option<Codebook>) returns (w: Bytes)
    ensures w == PqBytes(m, codebook)
  {
    match codebook {
      case Some(cb) =>
        var centroids := WriteWords(cb.centroids);
        w := Le(m, 4) + ([1] + (Le(cb.k, 4) + (Le(cb.subDim, 4) + centroids)));
      case None =>
        w := Le(m, 4) + [0];
    }
  }

  method WriteStore(s: Store) returns (w: Bytes)
    ensures w == StoreBytes(s)
  {
    match s {
      case Full(words) =>
        var body := WriteWords(words);
        w := [0] + (Le(|words|, 8) + body);
      case Sq8(codes, params) =>
        var tail := WriteParams(params);
        w := [1] + (Le(|codes|, 8) + codes + tail);
      case Bq(bits) =>
        w := [2] + (Le(|bits|, 8) + bits);
      case Pq(codebook, _, codes, m) =>
        var header := WritePq(m, codebook);
        w := [3] + (header + (Le(|codes|, 8) + codes));
    }
  }

  /** `to_bytes`. */
  method Save(g: Graph) returns (w: Bytes)
    ensures w == ToBytes(g)
  {
    hide HeadBytes, StoreBytes;
    w := MAGIC + [VERSION];
    var head := WriteHead(g);
    var store := WriteStore(g.store);
    w := w + head + store;
    assert w == ToBytes(g);
  }
}
