/**
 * Sparse vectors and search by their postings.
 */
module SparseSearch {
  import opened Wrappers
  import opened ByteStrings
  import opened Ranking

  // A vector is parallel ascending indices and weights; the merge join is its dot product, and
  // accumulating over postings ranks by exactly that dot product.

  datatype Sparse = Sparse(indices: seq<nat>, values: seq<real>)

  /** Strictly ascending indices, one weight each: what the constructor builds. */
  ghost predicate Well(v: Sparse) {
    |v.values| == |v.indices| && forall i, j :: 0 <= i < j < |v.indices| ==> v.indices[i] < v.indices[j]
  }

  /** The weight at a dimension. */
  function At(v: Sparse, dim: nat): Option<real>
    decreases |v.indices|
  {
    if |v.values| < |v.indices| || v.indices == [] then None
    else
      var n := |v.indices| - 1;
      if v.indices[n] == dim then Some(v.values[n]) else At(Sparse(v.indices[..n], v.values[..n]), dim)
  }

  function Or0(w: Option<real>): real { if w.Some? then w.value else 0.0 }

  lemma {:induction false} AtIs(v: Sparse, dim: nat)
    requires Well(v)
    ensures At(v, dim).Some? <==> dim in v.indices
    ensures forall i :: 0 <= i < |v.indices| && v.indices[i] == dim ==> At(v, dim) == Some(v.values[i])
    decreases |v.indices|
  {
    if v.indices != [] {
      var n := |v.indices| - 1;
      AtIs(Sparse(v.indices[..n], v.values[..n]), dim);
      assert v.indices == v.indices[..n] + [v.indices[n]];
    }
  }

  // ---- construction -----------------------------------------------------------------

  /** The last weight given for a dimension. */
  function LastOf(pairs: seq<(nat, real)>, dim: nat): Option<real> {
    if pairs == [] then None
    else if pairs[|pairs| - 1].0 == dim then Some(pairs[|pairs| - 1].1)
    else LastOf(pairs[..|pairs| - 1], dim)
  }

  /** `SparseVector::new`: sorted and without duplicates, the last weight of each index winning. */
  method New(pairs: seq<(nat, real)>) returns (v: Sparse)
    ensures Well(v) && forall dim :: At(v, dim) == LastOf(pairs, dim)
  {
    var m: map<nat, real> := map[];
    for i := 0 to |pairs|
      invariant forall dim :: LastOf(pairs[..i], dim) == if dim in m then Some(m[dim]) else None
    {
      assert pairs[..i + 1][..i] == pairs[..i];
      m := m[pairs[i].0 := pairs[i].1];
    }
    assert pairs[..|pairs|] == pairs;
    v := FromMap(m);
    forall dim ensures At(v, dim) == LastOf(pairs, dim) {
      AtIs(v, dim);
    }
  }

  /** The keys of a map in ascending order, with their weights. */
  method FromMap(m: map<nat, real>) returns (v: Sparse)
    ensures Well(v) && forall dim :: dim in v.indices <==> dim in m
    ensures forall i :: 0 <= i < |v.indices| ==> v.values[i] == m[v.indices[i]]
  {
    var todo := m.Keys;
    v := Sparse([], []);
    while todo != {}
      invariant todo <= m.Keys && Well(v)
      invariant forall dim :: dim in v.indices <==> dim in m.Keys - todo
      invariant forall i, dim :: 0 <= i < |v.indices| && dim in todo ==> v.indices[i] < dim
      invariant forall i :: 0 <= i < |v.indices| ==> v.indices[i] in m && v.values[i] == m[v.indices[i]]
      decreases |todo|
    {
      var dim := Smallest(todo);
      v := Sparse(v.indices + [dim], v.values + [m[dim]]);
      todo := todo - {dim};
    }
  }

  method Smallest(s: set<nat>) returns (x: nat)
    requires s != {}
    ensures x in s && forall y :: y in s ==> x <= y
  {
    x :| x in s;
    var todo := s - {x};
    while todo != {}
      invariant todo <= s && x in s && forall y :: y in s ==> y in todo || x <= y
      decreases |todo|
    {
      var y :| y in todo;
      if y < x {
        x := y;
      }
      todo := todo - {y};
    }
  }

  // ---- the dot product ----------------------------------------------------------------

  function Mul(x: real, y: real): real { x * y }

  /** The dot product over the first `n` indices of `a`. */
  function DotTo(a: Sparse, b: Sparse, n: nat): real
    requires n <= |a.indices| && |a.values| == |a.indices|
  {
    if n == 0 then 0.0 else DotTo(a, b, n - 1) + Mul(a.values[n - 1], Or0(At(b, a.indices[n - 1])))
  }

  function Dot(a: Sparse, b: Sparse): real
    requires |a.values| == |a.indices|
  {
    DotTo(a, b, |a.indices|)
  }

  lemma {:induction false} DotTail(a: Sparse, b: Sparse, i: nat, n: nat)
    requires Well(a) && Well(b) && i <= n <= |a.indices|
    requires forall x :: i <= x < n ==> a.indices[x] !in b.indices
    ensures DotTo(a, b, n) == DotTo(a, b, i)
    decreases n
  {
    if i < n {
      DotTail(a, b, i, n - 1);
      AtIs(b, a.indices[n - 1]);
    }
  }

  lemma AtInit(a: Sparse, init: Sparse, dim: nat)
    requires Well(a) && a.indices != []
    requires init == Sparse(a.indices[..|a.indices| - 1], a.values[..|a.indices| - 1])
    ensures Well(init)
    ensures var n := |a.indices| - 1;
            && At(a, dim) == (if dim == a.indices[n] then Some(a.values[n]) else At(init, dim))
            && (dim == a.indices[n] ==> At(init, dim) == None)
  {
    assert Well(init);
    AtIs(init, dim);
  }

  /** The last entry of `a`, split off. */
  lemma {:induction false} DotSplit(b: Sparse, a: Sparse, init: Sparse, m: nat)
    requires Well(a) && Well(b) && a.indices != [] && m <= |b.indices|
    requires init == Sparse(a.indices[..|a.indices| - 1], a.values[..|a.indices| - 1])
    ensures var n := |a.indices| - 1;
            DotTo(b, a, m) == DotTo(b, init, m)
              + if a.indices[n] in b.indices[..m] then Mul(Or0(At(b, a.indices[n])), a.values[n]) else 0.0
    decreases m
  {
    if m > 0 {
      var last, dim := a.indices[|a.indices| - 1], b.indices[m - 1];
      DotSplit(b, a, init, m - 1);
      AtInit(a, init, dim);
      AtIs(b, dim);
      assert b.indices[..m] == b.indices[..m - 1] + [dim];
      if dim == last {
        assert last !in b.indices[..m - 1];
      }
      hide At, Mul, Well;
    }
  }

  /** The dot product does not depend on the side it is summed over. */
  lemma {:induction false} DotSymmetric(a: Sparse, b: Sparse)
    requires Well(a) && Well(b)
    ensures Dot(a, b) == Dot(b, a)
    decreases |a.indices|
  {
    if a.indices == [] {
      DotTail(b, a, 0, |b.indices|);
    } else {
      var n := |a.indices| - 1;
      var init := Sparse(a.indices[..n], a.values[..n]);
      assert Well(init);
      DotSymmetric(init, b);
      DotSplit(b, a, init, |b.indices|);
      DotPrefix(a, init, b, n);
      AtIs(b, a.indices[n]);
      assert b.indices[..|b.indices|] == b.indices;
      MulCommutes(a.values[n], Or0(At(b, a.indices[n])));
    }
  }

  lemma MulCommutes(x: real, y: real)
    ensures Mul(x, y) == Mul(y, x) && Mul(x, 0.0) == 0.0
  {
  }

  lemma {:induction false} DotPrefix(a: Sparse, init: Sparse, b: Sparse, n: nat)
    requires n <= |init.indices| <= |a.indices| && |a.values| == |a.indices| && |init.values| == |init.indices|
    requires init.indices <= a.indices && init.values <= a.values
    ensures DotTo(a, b, n) == DotTo(init, b, n)
  {
    if n > 0 {
      DotPrefix(a, init, b, n - 1);
    }
  }

  /** A vector of one entry picks out the other's weight there. */
  lemma DotSingle(dim: nat, w: real, b: Sparse)
    ensures Dot(Sparse([dim], [w]), b) == w * Or0(At(b, dim))
  {
    hide At, Or0;
    var a := Sparse([dim], [w]);
    assert DotTo(a, b, 1) == DotTo(a, b, 0) + Mul(w, Or0(At(b, dim)));
  }

  /** The merge join: advance whichever side is behind, multiply where they meet. */
  method MergeDot(a: Sparse, b: Sparse) returns (acc: real)
    requires Well(a) && Well(b)
    ensures acc == Dot(a, b)
  {
    var i, j := 0, 0;
    acc := 0.0;
    while i < |a.indices| && j < |b.indices|
      invariant i <= |a.indices| && j <= |b.indices|
      invariant acc == DotTo(a, b, i)
      invariant forall y, x :: 0 <= y < j && i <= x < |a.indices| ==> b.indices[y] < a.indices[x]
      decreases |a.indices| + |b.indices| - i - j
    {
      if a.indices[i] < b.indices[j] {
        AtIs(b, a.indices[i]);
        i := i + 1;
      } else if a.indices[i] > b.indices[j] {
        j := j + 1;
      } else {
        AtIs(b, a.indices[i]);
        acc := acc + Mul(a.values[i], b.values[j]);
        i, j := i + 1, j + 1;
      }
    }
    DotTail(a, b, i, |a.indices|);
  }

  // ---- search by postings ---------------------------------------------------------------

  /** Postings per dimension: one row per document carrying it. */
  type Postings = map<nat, map<Id, real>>

  function Post(p: Postings, dim: nat): map<Id, real> { if dim in p then p[dim] else map[] }

  /** The postings are the image of the documents' vectors. */
  ghost predicate PostingsOk(p: Postings, docs: map<Id, Sparse>) {
    && (forall id :: id in docs ==> Well(docs[id]))
    && (forall dim, id :: id in Post(p, dim) <==> id in docs && dim in docs[id].indices)
    && (forall dim, id :: id in Post(p, dim) ==> At(docs[id], dim) == Some(Post(p, dim)[id]))
  }

  /** Whether a document carries one of the first `n` query dimensions. */
  ghost predicate Shares(q: Sparse, docs: map<Id, Sparse>, n: nat, id: Id)
    requires n <= |q.indices|
  {
    id in docs && exists i :: 0 <= i < n && q.indices[i] in docs[id].indices
  }

  /** What has been accumulated after `n` query dimensions, and `done` of the next one's postings. */
  ghost predicate Accumulated(q: Sparse, docs: map<Id, Sparse>, n: nat, scores: map<Id, real>)
    requires n <= |q.indices| == |q.values|
  {
    && (forall id :: id in scores <==> Shares(q, docs, n, id))
    && (forall id :: id in scores ==> scores[id] == DotTo(q, docs[id], n))
  }

  function ScoreOf(scores: map<Id, real>, id: Id): real { if id in scores then scores[id] else 0.0 }

  function Gain(post: map<Id, real>, qw: real, id: Id): real { if id in post then Mul(qw, post[id]) else 0.0 }

  /** Add one dimension's weighted postings. */
  method AddPostings(post: map<Id, real>, qw: real, before: map<Id, real>) returns (scores: map<Id, real>)
    ensures forall id :: id in scores <==> id in before || id in post
    ensures forall id :: ScoreOf(scores, id) == ScoreOf(before, id) + Gain(post, qw, id)
  {
    hide Mul, ScoreOf;
    assert forall id :: id !in post ==> Gain(post, qw, id) == 0.0;
    scores := before;
    var todo := post.Keys;
    while todo != {}
      invariant todo <= post.Keys
      invariant forall id :: id in scores <==> id in before || (id in post && id !in todo)
      invariant forall id :: ScoreOf(scores, id) == ScoreOf(before, id) + if id in todo then 0.0 else Gain(post, qw, id)
      decreases |todo|
    {
      var id :| id in todo;
      var next := scores[id := ScoreOf(scores, id) + Mul(qw, post[id])];
      AddOne(scores, post, qw, id, next);
      scores := next;
      todo := todo - {id};
    }
  }

  lemma AddOne(scores: map<Id, real>, post: map<Id, real>, qw: real, id: Id, next: map<Id, real>)
    requires id in post && next == scores[id := ScoreOf(scores, id) + Mul(qw, post[id])]
    ensures forall x :: ScoreOf(next, x) == if x == id then ScoreOf(scores, x) + Gain(post, qw, x) else ScoreOf(scores, x)
  {
  }

  lemma NoShare(q: Sparse, docs: map<Id, Sparse>, n: nat, id: Id)
    requires Well(q) && n <= |q.indices| && id in docs && Well(docs[id]) && !Shares(q, docs, n, id)
    ensures DotTo(q, docs[id], n) == 0.0
  {
    DotTail(q, docs[id], 0, n);
  }

  lemma AccumulateStep(q: Sparse, docs: map<Id, Sparse>, p: Postings, n: nat, before: map<Id, real>, scores: map<Id, real>)
    requires Well(q) && PostingsOk(p, docs) && n < |q.indices| && Accumulated(q, docs, n, before)
    requires forall id :: id in scores <==> id in before || id in Post(p, q.indices[n])
    requires forall id :: ScoreOf(scores, id) == ScoreOf(before, id) + Gain(Post(p, q.indices[n]), q.values[n], id)
    ensures Accumulated(q, docs, n + 1, scores)
  {
    hide At, Mul, DotTo;
    var dim := q.indices[n];
    forall id ensures id in scores <==> Shares(q, docs, n + 1, id) {
      assert id in scores <==> id in before || id in Post(p, dim);
    }
    forall id | id in scores ensures scores[id] == DotTo(q, docs[id], n + 1) {
      assert Shares(q, docs, n + 1, id);
      AtIs(docs[id], dim);
      if id !in before {
        NoShare(q, docs, n, id);
      }
      assert ScoreOf(scores, id) == ScoreOf(before, id) + Gain(Post(p, dim), q.values[n], id);
      DotStep(q, docs[id], n, Gain(Post(p, dim), q.values[n], id));
    }
  }

  lemma DotStep(q: Sparse, d: Sparse, n: nat, gain: real)
    requires n < |q.indices| == |q.values|
    requires gain == if At(d, q.indices[n]).Some? then Mul(q.values[n], At(d, q.indices[n]).value) else 0.0
    ensures DotTo(q, d, n + 1) == DotTo(q, d, n) + gain
  {
  }

  /** The documents a query touches, with their dot products. */
  ghost predicate ScoredBy(q: Sparse, docs: map<Id, Sparse>, items: set<Hit>)
    requires |q.values| == |q.indices|
  {
    forall h: Hit :: h in items <==> Shares(q, docs, |q.indices|, h.0) && h.1 == Dot(q, docs[h.0])
  }

  /** `sparse_search`: posting-accumulated scores are merge-join dot products, so the answer is the best
      `k` by dot product among the documents sharing a dimension with the query. */
  method Search(q: Sparse, p: Postings, k: nat, ghost docs: map<Id, Sparse>)
    returns (r: seq<Hit>, ghost items: set<Hit>)
    requires Well(q) && PostingsOk(p, docs)
    ensures ScoredBy(q, docs, items)
    ensures IsTop(r, items, k)
  {
    var scores: map<Id, real> := map[];
    for n := 0 to |q.indices|
      invariant Accumulated(q, docs, n, scores)
    {
      var before := scores;
      scores := AddPostings(Post(p, q.indices[n]), q.values[n], before);
      AccumulateStep(q, docs, p, n, before, scores);
    }
    var hits := set id | id in scores :: (id, scores[id]);
    items := hits;
    forall h: Hit ensures h in items <==> Shares(q, docs, |q.indices|, h.0) && h.1 == Dot(q, docs[h.0]) {
      assert h in items <==> h.0 in scores && h.1 == scores[h.0];
    }
    if q.indices == [] || k == 0 {
      r := [];
      return;
    }
    r := SortAndCut(hits, k);
  }
}
