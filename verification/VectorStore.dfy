/**
 * The graph's vector storage.
 */
module VectorStore {
  import opened Arith
  import opened Quant
  import opened Wrappers

  // Flat, node-ordered slots of full vectors, SQ8 codes, BQ bits or PQ codes.
  // PQ warms up on full vectors, trains a codebook once it has enough of them, re-encodes the warm-
  // up and frees it. `Holds(dim, vecs)` says what every slot stands for: the encoding of the vector
  // that was pushed for that node. It is kept by every push, across training.

  datatype Quantizer = Exact | ScalarCodes | BinaryCodes | ProductCodes(m: nat)

  /** Warm-up size before a PQ codebook is trained. */
  const PQ_TRAIN_SIZE: nat := 4096

  /** Codebook training, a function of the warm-up sample (k-means is not modelled). */
  type Trainer = seq<Vec> -> Codebook

  /** What the source's training asserts and returns: `m` divides `dim`, blocks of `dim / m`. */
  ghost predicate TrainsFor(train: Trainer, dim: nat, m: nat) {
    && m > 0 && dim % m == 0
    && forall sample: seq<Vec> :: sample != [] ==>
         var cb := train(sample);
         cb.Valid() && cb.m == m && cb.m * cb.subDim == dim
  }

  /** Slot `i` of flat storage with `w` elements per slot. */
  function Slot<T>(flat: seq<T>, i: nat, w: nat): (s: seq<T>)
    requires i * w + w <= |flat|
    ensures |s| == w
  {
    flat[i * w..i * w + w]
  }

  lemma SlotFits<T>(flat: seq<T>, i: nat, n: nat, w: nat)
    requires |flat| == n * w && i < n
    ensures i * w + w <= |flat|
  {
    SlotInRange(i, n, w);
  }

  /** Appending one slot leaves the others where they are. */
  lemma SlotAppend<T>(flat: seq<T>, n: nat, w: nat, block: seq<T>)
    requires |flat| == n * w && |block| == w
    ensures |flat + block| == (n + 1) * w
    ensures forall i: nat :: i < n ==> i * w + w <= |flat| && Slot(flat + block, i, w) == Slot(flat, i, w)
    ensures n * w + w <= |flat + block| && Slot(flat + block, n, w) == block
  {
    Distribute(n, 1, w);
    forall i: nat | i < n ensures i * w + w <= |flat| && Slot(flat + block, i, w) == Slot(flat, i, w) {
      SlotInRange(i, n, w);
    }
  }

  ghost predicate FullSlots(flat: seq<real>, dim: nat, vecs: seq<Vec>) {
    && |flat| == |vecs| * dim
    && forall i: nat :: i < |vecs| ==> (SlotFits(flat, i, |vecs|, dim); Slot(flat, i, dim) == vecs[i])
  }

  ghost predicate SqSlots(codes: seq<Byte>, params: seq<SqParams>, dim: nat, vecs: seq<Vec>) {
    && |codes| == |vecs| * dim && |params| == |vecs|
    && forall i: nat :: i < |vecs| ==>
         (SlotFits(codes, i, |vecs|, dim); Slot(codes, i, dim) == SqCodes(vecs[i]) && params[i] == SqParamsOf(vecs[i]))
  }

  ghost predicate BqSlots(bits: seq<Packed>, dim: nat, vecs: seq<Vec>) {
    && |bits| == |vecs| * BqBytes(dim)
    && forall i: nat :: i < |vecs| ==>
         (SlotFits(bits, i, |vecs|, BqBytes(dim)); PacksSigns(vecs[i], Slot(bits, i, BqBytes(dim))))
  }

  ghost predicate PqSlots(codes: seq<Byte>, cb: Codebook, dim: nat, vecs: seq<Vec>) {
    && cb.Valid() && cb.m * cb.subDim == dim
    && |codes| == |vecs| * cb.m
    && forall i: nat :: i < |vecs| ==>
         (SlotFits(codes, i, |vecs|, cb.m); |vecs[i]| == dim && PqCodeOf(vecs[i], cb, Slot(codes, i, cb.m)))
  }

  datatype Store =
    | Full(vectors: seq<real>)
    | Sq8(codes: seq<Byte>, params: seq<SqParams>)
    | Bq(bits: seq<Packed>)
    | Pq(codebook: Option<Codebook>, warmup: seq<real>, pqCodes: seq<Byte>, m: nat)
  {
    function Kind(): Quantizer {
      match this
      case Full(_) => Exact
      case Sq8(_, _) => ScalarCodes
      case Bq(_) => BinaryCodes
      case Pq(_, _, _, m) => ProductCodes(m)
    }

    /** Slot by slot, the store encodes exactly the vectors pushed so far. */
    ghost predicate Holds(dim: nat, vecs: seq<Vec>) {
      && (forall i: nat :: i < |vecs| ==> |vecs[i]| == dim)
      && match this
         case Full(vectors) => FullSlots(vectors, dim, vecs)
         case Sq8(codes, params) => SqSlots(codes, params, dim, vecs)
         case Bq(bits) => BqSlots(bits, dim, vecs)
         case Pq(None, warmup, codes, m) => codes == [] && FullSlots(warmup, dim, vecs)
         case Pq(Some(cb), warmup, codes, m) => warmup == [] && cb.m == m && PqSlots(codes, cb, dim, vecs)
    }

    /** PQ is trained as soon as the warm-up is large enough. */
    ghost predicate TrainedWhenDue(dim: nat, n: nat) {
      Pq? && codebook == None && dim > 0 ==> n < 4096
    }

    /** The elements one node occupies. */
    function Unit(dim: nat): nat {
      match this
      case Full(_) => dim
      case Sq8(_, _) => dim
      case Bq(_) => BqBytes(dim)
      case Pq(None, _, _, _) => dim
      case Pq(Some(_), _, _, m) => m
    }

    /** Total elements of the live buffer. */
    function Elements(): nat {
      match this
      case Full(vectors) => |vectors|
      case Sq8(codes, _) => |codes|
      case Bq(bits) => |bits|
      case Pq(None, warmup, _, _) => |warmup|
      case Pq(Some(_), _, codes, _) => |codes|
    }

    /** Dot of `node`'s stored vector with a full-precision query. */
    function DotQuery(node: nat, dim: nat, q: Vec, qsum: real, ghost vecs: seq<Vec>): real
      requires Holds(dim, vecs) && node < |vecs|
    {
      match this
      case Full(vectors) => SlotFits(vectors, node, |vecs|, dim); Dot(Slot(vectors, node, dim), q)
      case Sq8(codes, params) =>
        SlotFits(codes, node, |vecs|, dim); SqDotQuery(Slot(codes, node, dim), params[node], q, qsum)
      case Bq(bits) =>
        SlotFits(bits, node, |vecs|, BqBytes(dim)); Dot(Signs(Slot(bits, node, BqBytes(dim)), dim), q)
      case Pq(None, warmup, _, _) => SlotFits(warmup, node, |vecs|, dim); Dot(Slot(warmup, node, dim), q)
      case Pq(Some(cb), _, codes, m) =>
        SlotFits(codes, node, |vecs|, m); PqCodesFit(vecs[node], cb, Slot(codes, node, m));
        Dot(PqDecode(Slot(codes, node, m), cb), q)
    }

    /** Dot between two stored vectors. */
    function DotNodes(a: nat, b: nat, dim: nat, ghost vecs: seq<Vec>): real
      requires Holds(dim, vecs) && a < |vecs| && b < |vecs|
    {
      match this
      case Full(vectors) =>
        SlotFits(vectors, a, |vecs|, dim); SlotFits(vectors, b, |vecs|, dim);
        Dot(Slot(vectors, a, dim), Slot(vectors, b, dim))
      case Sq8(codes, params) =>
        SlotFits(codes, a, |vecs|, dim); SlotFits(codes, b, |vecs|, dim);
        SqDotCodes(Slot(codes, a, dim), params[a], Slot(codes, b, dim), params[b])
      case Bq(bits) =>
        SlotFits(bits, a, |vecs|, BqBytes(dim)); SlotFits(bits, b, |vecs|, BqBytes(dim));
        BqDotCodes(Slot(bits, a, BqBytes(dim)), Slot(bits, b, BqBytes(dim)), dim)
      case Pq(None, warmup, _, _) =>
        SlotFits(warmup, a, |vecs|, dim); SlotFits(warmup, b, |vecs|, dim);
        Dot(Slot(warmup, a, dim), Slot(warmup, b, dim))
      case Pq(Some(cb), _, codes, m) =>
        SlotFits(codes, a, |vecs|, m); SlotFits(codes, b, |vecs|, m);
        PqCodesFit(vecs[a], cb, Slot(codes, a, m)); PqCodesFit(vecs[b], cb, Slot(codes, b, m));
        Dot(PqDecode(Slot(codes, a, m), cb), PqDecode(Slot(codes, b, m), cb))
    }

    /** The (possibly lossy) vector of `node`; `unit` is the BQ component `1/sqrt(dim)`. */
    function Materialize(node: nat, dim: nat, unit: real, ghost vecs: seq<Vec>): (v: Vec)
      requires Holds(dim, vecs) && node < |vecs|
      ensures |v| == dim
    {
      match this
      case Full(vectors) => SlotFits(vectors, node, |vecs|, dim); Slot(vectors, node, dim)
      case Sq8(codes, params) => SlotFits(codes, node, |vecs|, dim); SqDecode(Slot(codes, node, dim), params[node])
      case Bq(bits) =>
        SlotFits(bits, node, |vecs|, BqBytes(dim));
        var s := Signs(Slot(bits, node, BqBytes(dim)), dim);
        seq(dim, i requires 0 <= i < dim => s[i] * unit)
      case Pq(None, warmup, _, _) => SlotFits(warmup, node, |vecs|, dim); Slot(warmup, node, dim)
      case Pq(Some(cb), _, codes, m) =>
        SlotFits(codes, node, |vecs|, m); PqCodesFit(vecs[node], cb, Slot(codes, node, m));
        PqDecode(Slot(codes, node, m), cb)
    }
  }

  /** A centroid of subspace `s` no other is nearer than. */
  ghost predicate NearestBlock(cb: Codebook, s: nat, sub: Vec, block: Vec)
    requires cb.Valid() && s < cb.m
  {
    exists code: nat :: code < cb.k && block == cb.Centroid(s, code)
      && forall other: nat :: other < cb.k ==> L2Sq(sub, cb.Centroid(s, code)) <= L2Sq(sub, cb.Centroid(s, other))
  }

  /** What each kind of store keeps of a vector `v`: all of it, its 256-step rounding, its signs, or nearest centroids. */
  ghost predicate KeptAs(store: Store, dim: nat, unit: real, v: Vec, d: Vec)
    requires |v| == |d| == dim
  {
    match store
    case Full(_) => d == v
    case Sq8(_, _) => d == SqDecode(SqCodes(v), SqParamsOf(v))
    case Bq(_) => forall i: nat :: i < dim ==> d[i] == if v[i] > 0.0 then unit else 0.0 - unit
    case Pq(None, _, _, _) => d == v
    case Pq(Some(cb), _, _, _) =>
      cb.Valid() && cb.m * cb.subDim == dim
      && forall s: nat :: s < cb.m ==>
           (BlockInRange(cb.m, cb.subDim, s); NearestBlock(cb, s, Block(v, cb.subDim, s), Block(d, cb.subDim, s)))
  }

  /** A node's stored vector is what its store keeps of the vector pushed for it. */
  lemma StoredVector(store: Store, node: nat, dim: nat, unit: real, vecs: seq<Vec>)
    requires store.Holds(dim, vecs) && node < |vecs|
    ensures KeptAs(store, dim, unit, vecs[node], store.Materialize(node, dim, unit, vecs))
  {
    var v := vecs[node];
    match store
    case Full(vectors) => SlotFits(vectors, node, |vecs|, dim);
    case Sq8(codes, params) => SlotFits(codes, node, |vecs|, dim);
    case Bq(bits) => StoredSigns(bits, node, dim, unit, vecs);
    case Pq(None, warmup, _, _) => SlotFits(warmup, node, |vecs|, dim);
    case Pq(Some(cb), warmup, codes, m) =>
      SlotFits(codes, node, |vecs|, m);
      StoredBlocks(v, cb, Slot(codes, node, m));
  }

  lemma StoredSigns(bits: seq<Packed>, node: nat, dim: nat, unit: real, vecs: seq<Vec>)
    requires Bq(bits).Holds(dim, vecs) && node < |vecs|
    ensures KeptAs(Bq(bits), dim, unit, vecs[node], Bq(bits).Materialize(node, dim, unit, vecs))
  {
    SlotFits(bits, node, |vecs|, BqBytes(dim));
    var own := Slot(bits, node, BqBytes(dim));
    forall i: nat | i < dim ensures Positive(own, i) <==> vecs[node][i] > 0.0 {
      assert i < 8 * |own|;
    }
  }

  lemma StoredBlocks(v: Vec, cb: Codebook, codes: seq<Byte>)
    requires cb.Valid() && |v| == cb.m * cb.subDim && PqCodeOf(v, cb, codes)
    ensures CodesFit(codes, cb)
    ensures forall s: nat :: s < cb.m ==>
              (BlockInRange(cb.m, cb.subDim, s);
               NearestBlock(cb, s, Block(v, cb.subDim, s), Block(PqDecode(codes, cb), cb.subDim, s)))
  {
    PqCodesFit(v, cb, codes);
    forall s: nat | s < cb.m
      ensures (BlockInRange(cb.m, cb.subDim, s);
               NearestBlock(cb, s, Block(v, cb.subDim, s), Block(PqDecode(codes, cb), cb.subDim, s)))
    {
      BlockInRange(cb.m, cb.subDim, s);
      PqDecodeAt(codes, cb, cb.m, s);
      assert IsNearest(cb, s, Block(v, cb.subDim, s), codes[s] as nat);
    }
  }

  /** Every fast dot with a query is the plain dot of the stored vector (a packed sign standing for one). */
  lemma StoredDotQuery(store: Store, node: nat, dim: nat, q: Vec, vecs: seq<Vec>)
    requires store.Holds(dim, vecs) && node < |vecs| && |q| == dim
    ensures store.DotQuery(node, dim, q, Sum(q), vecs) == Dot(store.Materialize(node, dim, 1.0, vecs), q)
  {
    match store
    case Full(vectors) =>
    case Sq8(codes, params) =>
      SlotFits(codes, node, |vecs|, dim);
      SqDotQueryExact(Slot(codes, node, dim), params[node], q);
    case Bq(bits) =>
      SignsOnce(bits, node, dim, vecs);
    case Pq(None, warmup, _, _) =>
    case Pq(Some(cb), warmup, codes, m) =>
  }

  lemma SignsOnce(bits: seq<Packed>, node: nat, dim: nat, vecs: seq<Vec>)
    requires Bq(bits).Holds(dim, vecs) && node < |vecs|
    ensures |bits| == |vecs| * BqBytes(dim) && node * BqBytes(dim) + BqBytes(dim) <= |bits|
    ensures Bq(bits).Materialize(node, dim, 1.0, vecs) == Signs(Slot(bits, node, BqBytes(dim)), dim)
  {
    SlotFits(bits, node, |vecs|, BqBytes(dim));
  }

  /** ... and so is the dot of two nodes, for codes up to the width their 32-bit counter carries. */
  lemma StoredDotNodes(store: Store, a: nat, b: nat, dim: nat, vecs: seq<Vec>)
    requires store.Holds(dim, vecs) && a < |vecs| && b < |vecs| && (store.Sq8? ==> dim <= MAX_DIMS)
    ensures store.DotNodes(a, b, dim, vecs)
         == Dot(store.Materialize(a, dim, 1.0, vecs), store.Materialize(b, dim, 1.0, vecs))
  {
    match store
    case Full(vectors) =>
    case Sq8(codes, params) =>
      SlotFits(codes, a, |vecs|, dim);
      SlotFits(codes, b, |vecs|, dim);
      SqDotCodesExact(vecs[a], vecs[b]);
    case Bq(bits) =>
      SignsOnce(bits, a, dim, vecs);
      SignsOnce(bits, b, dim, vecs);
      BqDotCodesExact(vecs[a], Slot(bits, a, BqBytes(dim)), vecs[b], Slot(bits, b, BqBytes(dim)));
    case Pq(None, warmup, _, _) =>
    case Pq(Some(cb), warmup, codes, m) =>
  }

  lemma PqCodesFit(v: Vec, cb: Codebook, codes: seq<Byte>)
    requires cb.Valid() && |v| == cb.m * cb.subDim && PqCodeOf(v, cb, codes)
    ensures CodesFit(codes, cb)
  {
    forall s | 0 <= s < |codes| ensures codes[s] as nat < cb.k {
      BlockInRange(cb.m, cb.subDim, s);
      assert IsNearest(cb, s, Block(v, cb.subDim, s), codes[s] as nat);
    }
  }

  function Empty(quantizer: Quantizer): (s: Store)
    ensures s.Kind() == quantizer
    ensures forall dim: nat :: s.Holds(dim, [])
  {
    match quantizer
    case Exact => Full([])
    case ScalarCodes => Sq8([], [])
    case BinaryCodes => Bq([])
    case ProductCodes(m) => Pq(None, [], [], m)
  }

  lemma FullPush(flat: seq<real>, dim: nat, vecs: seq<Vec>, v: Vec)
    requires FullSlots(flat, dim, vecs) && |v| == dim
    ensures FullSlots(flat + v, dim, vecs + [v])
  {
    SlotAppend(flat, |vecs|, dim, v);
  }

  lemma SqPush(codes: seq<Byte>, params: seq<SqParams>, dim: nat, vecs: seq<Vec>, v: Vec)
    requires SqSlots(codes, params, dim, vecs) && |v| == dim
    ensures SqSlots(codes + SqCodes(v), params + [SqParamsOf(v)], dim, vecs + [v])
  {
    SlotAppend(codes, |vecs|, dim, SqCodes(v));
  }

  lemma BqPush(bits: seq<Packed>, dim: nat, vecs: seq<Vec>, v: Vec, own: seq<Packed>)
    requires BqSlots(bits, dim, vecs) && |v| == dim && PacksSigns(v, own)
    ensures BqSlots(bits + own, dim, vecs + [v])
  {
    hide PacksSigns;
    PacksLength(v, own);
    SlotAppend(bits, |vecs|, BqBytes(dim), own);
  }

  lemma PacksLength(v: Vec, own: seq<Packed>)
    requires PacksSigns(v, own)
    ensures |own| == BqBytes(|v|)
  {
  }

  lemma PqPush(codes: seq<Byte>, cb: Codebook, dim: nat, vecs: seq<Vec>, v: Vec, own: seq<Byte>)
    requires PqSlots(codes, cb, dim, vecs) && |v| == dim && PqCodeOf(v, cb, own)
    ensures PqSlots(codes + own, cb, dim, vecs + [v])
  {
    PqLength(v, cb, own);
    hide PqCodeOf;
    SlotAppend(codes, |vecs|, cb.m, own);
  }

  lemma PqLength(v: Vec, cb: Codebook, own: seq<Byte>)
    requires cb.Valid() && |v| == cb.m * cb.subDim && PqCodeOf(v, cb, own)
    ensures |own| == cb.m
  {
  }

  /** Train on the warm-up and re-encode it, vector by vector. */
  method TrainAndEncode(warmup: seq<real>, dim: nat, m: nat, train: Trainer, ghost vecs: seq<Vec>)
    returns (cb: Codebook, codes: seq<Byte>)
    requires dim > 0 && vecs != [] && TrainsFor(train, dim, m) && FullSlots(warmup, dim, vecs)
    requires forall i: nat :: i < |vecs| ==> |vecs[i]| == dim
    ensures cb.m == m && PqSlots(codes, cb, dim, vecs)
  {
    hide PqCodeOf;
    var n := |warmup| / dim;
    QuotientOfProduct(|vecs|, dim);
    var sample: seq<Vec> := [];
    for i := 0 to n
      invariant sample == vecs[..i]
    {
      SlotFits(warmup, i, n, dim);
      assert Slot(warmup, i, dim) == vecs[i];
      sample := sample + [Slot(warmup, i, dim)];
    }
    cb := train(sample);
    codes := [];
    for i := 0 to n
      invariant PqSlots(codes, cb, dim, vecs[..i])
    {
      var codes' := PqEncodeInto(sample[i], cb, codes);
      ghost var own := codes'[|codes|..];
      assert codes' == codes + own;
      PqPush(codes, cb, dim, vecs[..i], vecs[i], own);
      assert vecs[..i] + [vecs[i]] == vecs[..i + 1];
      codes := codes';
    }
    assert vecs[..n] == vecs;
  }

  /** Append one vector; the PQ store trains when the warm-up reaches its size. */
  method Push(store: Store, v: Vec, train: Trainer, ghost vecs: seq<Vec>) returns (store': Store)
    requires store.Holds(|v|, vecs)
    requires store.Pq? ==> TrainsFor(train, |v|, store.m)
    requires store.TrainedWhenDue(|v|, |vecs|)
    ensures store'.Kind() == store.Kind()
    ensures store'.Holds(|v|, vecs + [v]) && store'.TrainedWhenDue(|v|, |vecs| + 1)
    ensures store.Pq? && store.codebook.Some? ==> store'.codebook == store.codebook
  {
    match store
    case Full(vectors) =>
      FullPush(vectors, |v|, vecs, v);
      store' := Full(vectors + v);
    case Sq8(codes, params) =>
      var codes', p := QuantizeInto(v, codes);
      SqPush(codes, params, |v|, vecs, v);
      store' := Sq8(codes', params + [p]);
    case Bq(bits) =>
      var bits' := BqEncodeInto(v, bits);
      ghost var own := bits'[|bits|..];
      assert bits' == bits + own;
      BqPush(bits, |v|, vecs, v, own);
      store' := Bq(bits');
    case Pq(Some(cb), warmup, codes, m) =>
      var codes' := PqEncodeInto(v, cb, codes);
      ghost var own := codes'[|codes|..];
      assert codes' == codes + own;
      PqPush(codes, cb, |v|, vecs, v, own);
      store' := Pq(Some(cb), warmup, codes', m);
    case Pq(None, warmup, codes, m) =>
      FullPush(warmup, |v|, vecs, v);
      var warmup' := warmup + v;
      if |v| > 0 && |warmup'| / |v| >= PQ_TRAIN_SIZE {
        var cb, codes' := TrainAndEncode(warmup', |v|, m, train, vecs + [v]);
        store' := Pq(Some(cb), [], codes', m);
      } else {
        store' := Pq(None, warmup', codes, m);
        if |v| > 0 {
          QuotientOfProduct(|vecs| + 1, |v|);
        }
      }
  }

  /** An empty warm-up buffer holds no node of a positive dimension. */
  lemma NothingWarm(n: nat, dim: nat, length: nat)
    requires length == n * dim && (length == 0 || dim == 0)
    ensures n == 0 || dim == 0
  {
    if n > 0 {
      SlotInRange(0, n, dim);
    }
  }

  /** Train now if PQ is still warming up, so a small graph can be serialized. */
  method Seal(store: Store, dim: nat, train: Trainer, ghost vecs: seq<Vec>) returns (store': Store)
    requires store.Holds(dim, vecs)
    requires store.Pq? && vecs != [] ==> TrainsFor(train, dim, store.m)
    ensures store'.Kind() == store.Kind() && store'.Holds(dim, vecs)
    ensures store'.Pq? && vecs != [] && dim > 0 ==> store'.codebook.Some?
    ensures !(store.Pq? && store.codebook == None) ==> store' == store
  {
    match store
    case Pq(None, warmup, codes, m) =>
      if warmup != [] && dim > 0 {
        var cb, codes' := TrainAndEncode(warmup, dim, m, train, vecs);
        return Pq(Some(cb), [], codes', m);
      }
      store' := store;
      NothingWarm(|vecs|, dim, |warmup|);
    case _ =>
      store' := store;
  }

  /** The buffer length is exactly one unit per node, before and after PQ training. */
  lemma StorageMatchesNodes(store: Store, dim: nat, vecs: seq<Vec>)
    requires store.Holds(dim, vecs)
    ensures store.Elements() == |vecs| * store.Unit(dim)
  {
  }
}
