/**
 * Lexical search.
 */
module Lexical {
  import opened Arith
  import opened ByteStrings
  import opened Ranking
  import opened Pruning

  // BM25 over the persistent index, by full scan and by max-score. Scores are reals and the logarithm
  // is an arbitrary function; `idf` is clamped to be non-negative, which is all the pruning needs of it.

  const K1: real := 1.2
  const B: real := 0.75

  datatype Posting = Posting(tf: nat, len: nat)

  function Max(x: real, y: real): real { if x < y then y else x }

  /** The persistent index: one row per (term, document), the counters, the blind df counters. */
  datatype Index = Index(nDocs: nat, totalTokens: nat, postings: map<Term, map<Id, Posting>>,
                         tdf: map<Term, int>, ln: real -> real)
  {
    /** A term's postings rows. */
    function Post(t: Term): map<Id, Posting> { if t in postings then postings[t] else map[] }

    function Df(t: Term): int { if t in tdf then tdf[t] else 0 }

    function Docs(): real { if nDocs == 0 then 1.0 else nDocs as real }

    function Avgdl(): real {
      if nDocs == 0 then 1.0 else Max(totalTokens as real / nDocs as real, 1.0)
    }

    /** BM25 idf with +0.5 smoothing, clamped non-negative. */
    function Idf(df: nat): real {
      Max(ln((Docs() - df as real + 0.5) / (df as real + 0.5) + 1.0), 0.0)
    }

    /** The df counters count postings rows, and an empty estate has none. */
    ghost predicate Consistent() {
      && (forall t :: Df(t) == |Post(t)|)
      && (nDocs == 0 ==> forall t :: Post(t) == map[])
    }

    /** One term's contribution to one document's score; none without a posting. */
    function Part(t: Term, id: Id): real {
      if id in Post(t) then Bm25Term(Idf(|Post(t)|), Post(t)[id], Avgdl()) else 0.0
    }

    /** The most one term can contribute: `idf * (k1 + 1)`. */
    function Bound(t: Term): real { Idf(|Post(t)|) * (K1 + 1.0) }

    /** BM25 as an additive scorer. */
    function Bm25(): Scorer {
      Scorer((t: Term) => Post(t).Keys, (t: Term, id: Id) => Part(t, id), (t: Term) => Bound(t))
    }
  }

  function Denominator(p: Posting, avgdl: real): real
    requires avgdl >= 1.0
  {
    p.tf as real + K1 * (1.0 - B + B * p.len as real / avgdl)
  }

  lemma DenominatorPositive(p: Posting, avgdl: real)
    requires avgdl >= 1.0
    ensures Denominator(p, avgdl) > p.tf as real
  {
    QuotientNonNegative(B * p.len as real, avgdl);
  }

  lemma QuotientNonNegative(x: real, y: real)
    requires x >= 0.0 && y > 0.0
    ensures x / y >= 0.0
  {
  }

  function Bm25Term(idf: real, p: Posting, avgdl: real): real
    requires avgdl >= 1.0
  {
    DenominatorPositive(p, avgdl);
    idf * (p.tf as real * (K1 + 1.0)) / Denominator(p, avgdl)
  }

  lemma FractionBound(idf: real, f: real, d: real, c: real)
    requires idf >= 0.0 && 0.0 <= f < d && c >= 0.0
    ensures 0.0 <= idf * (f * c) / d <= idf * c
  {
    var q := f / d;
    assert q * d == f;
    UnitQuotient(f, d);
    var top := idf * (f * c);
    assert top == (idf * c) * q * d by {
      assert idf * (f * c) == idf * c * f;
      assert idf * c * f == idf * c * (q * d);
      assert idf * c * (q * d) == idf * c * q * d;
    }
    DivideOut((idf * c) * q, d);
    ProductNonNegative(idf, c);
    ScaleDown(idf * c, q);
  }

  lemma UnitQuotient(f: real, d: real)
    requires 0.0 <= f < d
    ensures 0.0 <= f / d <= 1.0
  {
  }

  lemma ScaleDown(x: real, q: real)
    requires x >= 0.0 && 0.0 <= q <= 1.0
    ensures 0.0 <= x * q <= x
  {
    ProductNonNegative(x, q);
    ProductNonNegative(x, 1.0 - q);
    assert x * (1.0 - q) == x - x * q;
  }

  /** A contribution is non-negative and at most the term's bound. */
  lemma PartBound(ix: Index, t: Term, id: Id)
    ensures 0.0 <= ix.Part(t, id) <= ix.Bound(t)
  {
    var idf := ix.Idf(|ix.Post(t)|);
    assert idf >= 0.0;
    ProductNonNegative(idf, K1 + 1.0);
    if id in ix.Post(t) {
      var p := ix.Post(t)[id];
      DenominatorPositive(p, ix.Avgdl());
      hide *;
      PartIs(ix, t, id);
      assert K1 + 1.0 >= 0.0 by { K1Positive(); }
      FractionBound(idf, p.tf as real, Denominator(p, ix.Avgdl()), K1 + 1.0);
      BoundIs(ix, t);
    }
  }

  lemma K1Positive()
    ensures K1 == 1.2
  {
  }

  lemma BoundIs(ix: Index, t: Term)
    ensures ix.Bound(t) == ix.Idf(|ix.Post(t)|) * (K1 + 1.0)
  {
  }

  lemma PartIs(ix: Index, t: Term, id: Id)
    requires id in ix.Post(t)
    ensures ix.Avgdl() >= 1.0
    ensures ix.Part(t, id)
         == ix.Idf(|ix.Post(t)|) * (ix.Post(t)[id].tf as real * (K1 + 1.0)) / Denominator(ix.Post(t)[id], ix.Avgdl())
  {
  }

  // ---- what a contribution responds to ------------------------------------------------

  lemma CrossLess(x: real, d: real, y: real, e: real)
    requires d > 0.0 && e > 0.0 && x * e < y * d
    ensures x / d < y / e
  {
    var p, q := x / d, y / e;
    assert p * d == x && q * e == y;
    assert x * e == p * (d * e) && y * d == q * (d * e);
    assert d * e >= 0.0;
    if p >= q {
      ScaleBoth(p, q, d * e);
    }
  }

  lemma ScaleBoth(p: real, q: real, c: real)
    requires p >= q && c >= 0.0
    ensures p * c >= q * c
  {
    ProductNonNegative(p - q, c);
    assert (p - q) * c == p * c - q * c;
  }

  lemma ScaleStrict(p: real, q: real, c: real)
    requires p > q && c > 0.0
    ensures p * c > q * c && (q >= 0.0 ==> q * c >= 0.0)
  {
    assert (p - q) * c > 0.0;
    assert (p - q) * c == p * c - q * c;
  }

  /** What a posting's length adds to the denominator. */
  function LengthPart(len: nat, avgdl: real): real
    requires avgdl >= 1.0
  {
    K1 * (1.0 - B + B * len as real / avgdl)
  }

  lemma LengthPartMono(len: nat, len': nat, avgdl: real)
    requires avgdl >= 1.0 && len < len'
    ensures 0.0 < LengthPart(len, avgdl) < LengthPart(len', avgdl)
  {
    QuotientNonNegative(B * len as real, avgdl);
    ScaleStrict(B * len' as real, B * len as real, avgdl);
    CrossLess(B * len as real, avgdl, B * len' as real, avgdl);
  }

  /** A longer document scores strictly less for the same term frequency. */
  lemma ShorterScoresMore(idf: real, p: Posting, q: Posting, avgdl: real)
    requires avgdl >= 1.0 && idf > 0.0 && p.tf == q.tf > 0 && p.len < q.len
    ensures Bm25Term(idf, p, avgdl) > Bm25Term(idf, q, avgdl)
  {
    LengthPartMono(p.len, q.len, avgdl);
    var top := idf * (p.tf as real * (K1 + 1.0));
    ScaleStrict(p.tf as real, 0.0, K1 + 1.0);
    ScaleStrict(p.tf as real * (K1 + 1.0), 0.0, idf);
    DenominatorPositive(p, avgdl);
    DenominatorPositive(q, avgdl);
    ScaleStrict(Denominator(q, avgdl), Denominator(p, avgdl), top);
    CrossLess(top, Denominator(q, avgdl), top, Denominator(p, avgdl));
  }

  /** A higher term frequency scores strictly more at the same length. */
  lemma MoreOftenScoresMore(idf: real, p: Posting, q: Posting, avgdl: real)
    requires avgdl >= 1.0 && idf > 0.0 && p.tf < q.tf && p.len == q.len
    ensures Bm25Term(idf, p, avgdl) < Bm25Term(idf, q, avgdl)
  {
    LengthPartMono(p.len, p.len + 1, avgdl);
    Bm25Saturates(idf, p, avgdl);
    Bm25Saturates(idf, q, avgdl);
    SaturatedMono(idf, p.tf as real, q.tf as real, K1 + 1.0, LengthPart(p.len, avgdl));
  }

  lemma Bm25Saturates(idf: real, p: Posting, avgdl: real)
    requires avgdl >= 1.0 && LengthPart(p.len, avgdl) > 0.0
    ensures Bm25Term(idf, p, avgdl) == idf * (p.tf as real * (K1 + 1.0)) / (p.tf as real + LengthPart(p.len, avgdl))
  {
  }

  lemma SaturatedMono(idf: real, f: real, g: real, k: real, c: real)
    requires idf > 0.0 && 0.0 <= f < g && k > 0.0 && c > 0.0
    ensures idf * (f * k) / (f + c) < idf * (g * k) / (g + c)
  {
    var x, d, y, e := idf * (f * k), f + c, idf * (g * k), g + c;
    SaturationMono(idf, f, g, k, c, x, d, y, e);
    CrossLess(x, d, y, e);
  }

  lemma SaturationMono(idf: real, f: real, g: real, k: real, c: real, x: real, d: real, y: real, e: real)
    requires idf > 0.0 && 0.0 <= f < g && k > 0.0 && c > 0.0
    requires x == idf * (f * k) && d == f + c && y == idf * (g * k) && e == g + c
    ensures x * e < y * d
  {
    var w := idf * k;
    assert w > 0.0;
    ScaleStrict(g, f, c);
    Regroup(idf, f, k, e);
    Regroup(idf, g, k, d);
    assert f * e == f * g + f * c && g * d == f * g + g * c;
    ScaleStrict(g * d, f * e, w);
  }

  lemma Regroup(a: real, f: real, k: real, x: real)
    ensures (a * (f * k)) * x == (f * x) * (a * k)
  {
    assert a * (f * k) == (a * k) * f;
    assert ((a * k) * f) * x == (a * k) * (f * x);
  }

  /** At the average length the length term drops out. */
  lemma AverageLength(idf: real, p: Posting, avgdl: real)
    requires avgdl >= 1.0 && p.len as real == avgdl
    ensures Bm25Term(idf, p, avgdl) == idf * (p.tf as real * (K1 + 1.0)) / (p.tf as real + K1)
  {
    DivideOut(B, avgdl);
    assert B * p.len as real / avgdl == B;
  }

  lemma NoLength(idf: real, p: Posting, avgdl: real)
    requires avgdl >= 1.0 && p.len == 0
    ensures Bm25Term(idf, p, avgdl) == idf * (p.tf as real * (K1 + 1.0)) / (p.tf as real + K1 * (1.0 - B))
  {
  }

  /**
   * How a term's contribution responds to a posting, the term's idf being positive: it falls strictly with the document's
   * length and rises strictly with the term's frequency in it; at the average length it is `2.2 tf / (tf + 1.2)` times the
   * idf, at length 0 `2.2 tf / (tf + 0.3)` times.
   */
  lemma PartResponds(ix: Index, t: Term, a: Id, b: Id)
    requires a in ix.Post(t) && b in ix.Post(t) && ix.Idf(|ix.Post(t)|) > 0.0
    ensures var p, q := ix.Post(t)[a], ix.Post(t)[b];
            && (p.tf == q.tf > 0 && p.len < q.len ==> ix.Part(t, a) > ix.Part(t, b))
            && (p.tf < q.tf && p.len == q.len ==> ix.Part(t, a) < ix.Part(t, b))
            && (p.len as real == ix.Avgdl() ==>
                  ix.Part(t, a) == ix.Idf(|ix.Post(t)|) * (p.tf as real * 2.2) / (p.tf as real + 1.2))
            && (p.len == 0 ==> ix.Part(t, a) == ix.Idf(|ix.Post(t)|) * (p.tf as real * 2.2) / (p.tf as real + 0.3))
  {
    hide Bm25Term, Index.Idf, Index.Avgdl, Index.Post;
    var p, q, idf := ix.Post(t)[a], ix.Post(t)[b], ix.Idf(|ix.Post(t)|);
    AvgdlAtLeastOne(ix);
    assert K1 + 1.0 == 2.2 && K1 * (1.0 - B) == 0.3;
    if p.tf == q.tf > 0 && p.len < q.len {
      ShorterScoresMore(idf, p, q, ix.Avgdl());
    }
    if p.tf < q.tf && p.len == q.len {
      MoreOftenScoresMore(idf, p, q, ix.Avgdl());
    }
    if p.len as real == ix.Avgdl() {
      AverageLength(idf, p, ix.Avgdl());
    }
    if p.len == 0 {
      NoLength(idf, p, ix.Avgdl());
    }
  }

  lemma AvgdlAtLeastOne(ix: Index)
    ensures ix.Avgdl() >= 1.0
  {
  }

  /** The logarithm grows on the positive numbers. */
  ghost predicate Grows(ln: real -> real) {
    forall x: real, y: real :: 0.0 < x <= y ==> ln(x) <= ln(y)
  }

  /** Idf is the clamped logarithm of `(N + 1) / (df + 0.5)`, so a commoner term never has the larger one. */
  lemma IdfFalls(ix: Index, df: nat, df': nat)
    requires df <= df'
    ensures ix.Idf(df) == Max(ix.ln((ix.Docs() + 1.0) / (df as real + 0.5)), 0.0)
    ensures Grows(ix.ln) ==> ix.Idf(df') <= ix.Idf(df)
  {
    IdfRatio(ix.Docs(), df as real);
    IdfRatio(ix.Docs(), df' as real);
    if df < df' {
      var n, d, d' := ix.Docs() + 1.0, df as real + 0.5, df' as real + 0.5;
      ScaleStrict(d', d, n);
      CrossLess(n, d', n, d);
      QuotientPositive(n, d');
    }
  }

  lemma IdfRatio(n: real, df: real)
    requires df >= 0.0
    ensures (n - df + 0.5) / (df + 0.5) + 1.0 == (n + 1.0) / (df + 0.5)
  {
    var d := df + 0.5;
    DivideOut(1.0, d);
    assert (n + 1.0) / d == (n - df + 0.5 + d) / d;
    assert (n - df + 0.5 + d) / d == (n - df + 0.5) / d + d / d;
  }

  lemma QuotientPositive(x: real, y: real)
    requires x > 0.0 && y > 0.0
    ensures x / y > 0.0
  {
  }

  /** The average length times the number of documents is the number of tokens, when there is a token a document. */
  lemma AverageIsMean(ix: Index)
    requires ix.nDocs > 0
    ensures ix.totalTokens >= ix.nDocs ==> ix.Avgdl() * ix.nDocs as real == ix.totalTokens as real
    ensures ix.totalTokens < ix.nDocs ==> ix.Avgdl() == 1.0
  {
    var n, total := ix.nDocs as real, ix.totalTokens as real;
    var mean := total / n;
    assert mean * n == total;
    if mean < 1.0 {
      ScaleStrict(1.0, mean, n);
    } else {
      ScaleBoth(mean, 1.0, n);
    }
  }

  // ---- ... carried to the answer --------------------------------------------------------

  /** The same postings of a term on both documents but for the length, which is no larger on `a`. */
  ghost predicate NoLonger(ix: Index, t: Term, a: Id, b: Id) {
    && (a in ix.Post(t) <==> b in ix.Post(t))
    && (a in ix.Post(t) ==> ix.Post(t)[a].tf == ix.Post(t)[b].tf && ix.Post(t)[a].len <= ix.Post(t)[b].len)
  }

  /** The term counts for both, and `a` is the shorter. */
  ghost predicate CountsShorter(ix: Index, t: Term, a: Id, b: Id) {
    && a in ix.Post(t) && b in ix.Post(t) && ix.Post(t)[a].len < ix.Post(t)[b].len
    && ix.Post(t)[a].tf > 0 && ix.Idf(|ix.Post(t)|) > 0.0
  }

  /** Two documents a query matches alike, except that `a` is shorter. */
  ghost predicate Shorter(ix: Index, terms: seq<Term>, a: Id, b: Id) {
    (forall t :: t in terms ==> NoLonger(ix, t, a, b)) && exists t :: t in terms && CountsShorter(ix, t, a, b)
  }

  /** `b` is never shown without `a` before it. */
  ghost predicate OnlyAfter(r: seq<Hit>, a: Id, b: Id) {
    forall j: nat :: j < |r| && r[j].0 == b ==> exists i: nat :: i < j && r[i].0 == a
  }

  lemma PartNoLonger(ix: Index, t: Term, a: Id, b: Id)
    requires NoLonger(ix, t, a, b)
    ensures ix.Part(t, a) >= ix.Part(t, b)
    ensures CountsShorter(ix, t, a, b) ==> ix.Part(t, a) > ix.Part(t, b)
  {
    if a in ix.Post(t) {
      var p, q, idf := ix.Post(t)[a], ix.Post(t)[b], ix.Idf(|ix.Post(t)|);
      if p.len < q.len && p.tf > 0 && idf > 0.0 {
        ShorterScoresMore(idf, p, q, ix.Avgdl());
      } else if p.len < q.len {
        NothingCounted(idf, p, ix.Avgdl());
        NothingCounted(idf, q, ix.Avgdl());
      }
    }
  }

  lemma NothingCounted(idf: real, p: Posting, avgdl: real)
    requires avgdl >= 1.0 && (idf == 0.0 || p.tf == 0)
    ensures Bm25Term(idf, p, avgdl) == 0.0
  {
  }

  lemma {:induction false} ScoreNoLonger(ix: Index, ts: seq<Term>, a: Id, b: Id)
    requires forall t :: t in ts ==> NoLonger(ix, t, a, b)
    ensures ix.Bm25().Score(ts, a) >= ix.Bm25().Score(ts, b)
    ensures (exists t :: t in ts && CountsShorter(ix, t, a, b)) ==> ix.Bm25().Score(ts, a) > ix.Bm25().Score(ts, b)
    decreases |ts|
  {
    hide Index.Part, NoLonger, CountsShorter;
    if ts != [] {
      var k := |ts| - 1;
      assert ts == ts[..k] + [ts[k]];
      ScoreNoLonger(ix, ts[..k], a, b);
      PartNoLonger(ix, ts[k], a, b);
    }
  }

  /** Of two documents a query matches alike, the longer is never shown without the shorter before it. */
  lemma ShorterFirst(ix: Index, ts: seq<Term>, k: nat, r: seq<Hit>, a: Id, b: Id)
    requires IsTop(r, ItemsOf(ix.Bm25().Scores(ts)), k) && Shorter(ix, ts, a, b)
    ensures OnlyAfter(r, a, b)
  {
    hide Index.Bm25;
    var s := ix.Bm25();
    ScoreNoLonger(ix, ts, a, b);
    BothMatched(ix, ts, a, b);
    assert (a, s.Score(ts, a)) in ItemsOf(s.Scores(ts)) by {
      assert a in s.Scores(ts) && s.Scores(ts)[a] == s.Score(ts, a);
    }
    forall j: nat | j < |r| && r[j].0 == b ensures exists i: nat :: i < j && r[i].0 == a {
      assert r[j] in r && r[j] in ItemsOf(s.Scores(ts));
      assert r[j] == (b, s.Score(ts, b));
      RankedBefore(r, (a, s.Score(ts, a)), j, ItemsOf(s.Scores(ts)), k);
    }
  }

  /** An item that scores better than a shown one is shown before it. */
  lemma RankedBefore(r: seq<Hit>, h: Hit, j: nat, items: set<Hit>, k: nat)
    requires IsTop(r, items, k) && h in items && j < |r| && h.1 > r[j].1
    ensures exists i: nat :: i < j && r[i] == h
  {
    assert r[j] in r && !Before(r[j], h);
    var i: nat :| i < |r| && r[i] == h;
  }

  lemma BothMatched(ix: Index, ts: seq<Term>, a: Id, b: Id)
    requires Shorter(ix, ts, a, b)
    ensures a in ix.Bm25().Matched(ts)
  {
    var t :| t in ts && CountsShorter(ix, t, a, b);
    MatchedIff(ix.Bm25(), ts, a);
    assert a in ix.Bm25().post(t);
  }

  lemma {:induction false} DedupSame(ts: seq<Term>, t: Term)
    ensures t in Dedup(ts) <==> t in ts
    decreases |ts|
  {
    if ts != [] {
      var k := |ts| - 1;
      DedupSame(ts[..k], t);
      assert ts == ts[..k] + [ts[k]];
    }
  }

  lemma DedupShorter(ix: Index, ts: seq<Term>, a: Id, b: Id)
    requires Shorter(ix, ts, a, b)
    ensures Shorter(ix, Dedup(ts), a, b)
  {
    hide NoLonger, CountsShorter, Dedup;
    forall t ensures t in Dedup(ts) <==> t in ts {
      DedupSame(ts, t);
    }
    var t :| t in ts && CountsShorter(ix, t, a, b);
    assert t in Dedup(ts);
  }

  lemma Bm25Valid(ix: Index)
    ensures ix.Bm25().Valid()
  {
    hide Index.Part, Index.Bound;
    forall t, id ensures ix.Bm25().PartOk(t, id) {
      PartBound(ix, t, id);
      PartOff(ix, t, id);
    }
  }

  lemma PartOff(ix: Index, t: Term, id: Id)
    ensures id !in ix.Post(t) ==> ix.Part(t, id) == 0.0
  {
  }

  lemma NothingIndexed(ix: Index, ts: seq<Term>)
    requires ix.Consistent() && ix.nDocs == 0
    ensures ix.Bm25().Scores(ts) == map[]
  {
    hide Index.Part, Index.Bound;
    forall id ensures id !in ix.Bm25().Matched(ts) {
      MatchedIff(ix.Bm25(), ts, id);
    }
  }

  /** The slow scorer. */
  method LexicalScan(ix: Index, terms: seq<Term>, k: nat) returns (r: seq<Hit>)
    ensures IsTop(r, ItemsOf(ix.Bm25().Scores(terms)), k)
    ensures forall a, b :: Shorter(ix, terms, a, b) ==> OnlyAfter(r, a, b)
  {
    Bm25Valid(ix);
    hide Index.Bm25, Shorter, OnlyAfter;
    r := FullScan(ix.Bm25(), terms, k);
    forall a, b | Shorter(ix, terms, a, b) ensures OnlyAfter(r, a, b) {
      ShorterFirst(ix, terms, k, r, a, b);
    }
  }

  /** The max-score scorer; estates without maintained df counters take the full scan. */
  method LexicalTopK(ix: Index, terms: seq<Term>, k: nat, lexStats: bool) returns (r: seq<Hit>)
    requires ix.Consistent()
    ensures IsTop(r, ItemsOf(ix.Bm25().Scores(if lexStats then Dedup(terms) else terms)), k)
    ensures forall a, b :: Shorter(ix, terms, a, b) ==> OnlyAfter(r, a, b)
  {
    hide Shorter;
    if !lexStats {
      r := LexicalScan(ix, terms, k);
      return;
    }
    if ix.nDocs == 0 || k == 0 {
      if k > 0 { NothingIndexed(ix, Dedup(terms)); }
      return [];
    }
    Bm25Valid(ix);
    var s, df := ix.Bm25(), (t: Term) => ix.Df(t);
    assert forall t :: df(t) <= 0 ==> s.post(t) == {};
    hide Index.Bm25, OnlyAfter;
    r := PrunedScan(s, df, terms, k);
    forall a, b | Shorter(ix, terms, a, b) ensures OnlyAfter(r, a, b) {
      DedupShorter(ix, terms, a, b);
      ShorterFirst(ix, Dedup(terms), k, r, a, b);
    }
  }

  /**
   * Pruning is exact: for every query of distinct terms the max-score answer is the
   * full scan's answer, same ids, same order, same scores.
   */
  lemma PruningIsExact(ix: Index, terms: seq<Term>, k: nat, lexStats: bool, fast: seq<Hit>, slow: seq<Hit>)
    requires ix.Consistent() && Distinct(terms)
    requires IsTop(fast, ItemsOf(ix.Bm25().Scores(if lexStats then Dedup(terms) else terms)), k)
    requires IsTop(slow, ItemsOf(ix.Bm25().Scores(terms)), k)
    ensures fast == slow
  {
    hide Index.Bm25;
    DedupDistinct(terms);
    TopUnique(fast, slow, ItemsOf(ix.Bm25().Scores(terms)), k);
  }

  // ---- repeated query terms -----------------------------------------------------------

  /** The max-score answer `fast` and the full-scan answer `slow` of one query agree. */
  ghost predicate Agrees(ix: Index, terms: seq<Term>, k: nat, fast: seq<Hit>, slow: seq<Hit>) {
    IsTop(fast, ItemsOf(ix.Bm25().Scores(Dedup(terms))), k) && IsTop(slow, ItemsOf(ix.Bm25().Scores(terms)), k)
    ==> fast == slow
  }

  /** The two scorers agree on a query over every consistent index, at every cut. */
  ghost predicate AlwaysAgree(ln: real -> real, terms: seq<Term>) {
    forall ix: Index, k: nat, fast, slow :: ix.Consistent() && ix.ln == ln ==> Agrees(ix, terms, k, fast, slow)
  }

  /**
   * The two scorers agree on a query whatever is indexed exactly when no term of it is repeated.
   * Of the logarithm only `ln(4/3) > 0` is used.
   */
  lemma AgreeIffDistinct(ln: real -> real, terms: seq<Term>)
    requires ln(0.5 / 1.5 + 1.0) > 0.0
    ensures AlwaysAgree(ln, terms) <==> Distinct(terms)
  {
    hide Index.Bm25, Index.Consistent, IsTop, ItemsOf, Scorer.Scores, Dedup, Distinct, OneDoc;
    if Distinct(terms) {
      forall ix: Index, k: nat, fast, slow | ix.Consistent() ensures Agrees(ix, terms, k, fast, slow) {
        if IsTop(fast, ItemsOf(ix.Bm25().Scores(Dedup(terms))), k) && IsTop(slow, ItemsOf(ix.Bm25().Scores(terms)), k) {
          PruningIsExact(ix, terms, k, true, fast, slow);
        }
      }
    } else {
      var t := RepeatedTerm(terms);
      var ix, fast, slow := RepeatDiffers(ln, terms, t, [2]);
    }
  }

  /** The number of times a term occurs in a query. */
  ghost function Occurs(ts: seq<Term>, t: Term): nat {
    if ts == [] then 0 else Occurs(ts[..|ts| - 1], t) + if ts[|ts| - 1] == t then 1 else 0
  }

  lemma {:induction false} OccursIff(ts: seq<Term>, t: Term)
    ensures Occurs(ts, t) > 0 <==> t in ts
    decreases |ts|
  {
    if ts != [] {
      var k := |ts| - 1;
      OccursIff(ts[..k], t);
      assert ts == ts[..k] + [ts[k]];
    }
  }

  lemma {:induction false} RepeatedTerm(ts: seq<Term>) returns (t: Term)
    requires !Distinct(ts)
    ensures Occurs(ts, t) > 1
    decreases |ts|
  {
    var k := |ts| - 1;
    var i: nat, j: nat :| i < j < |ts| && ts[i] == ts[j];
    assert ts[..k][i] == ts[i] && (j < k ==> ts[..k][j] == ts[j]);
    if Distinct(ts[..k]) {
      t := ts[k];
      OccursIff(ts[..k], t);
    } else {
      t := RepeatedTerm(ts[..k]);
    }
  }

  lemma {:induction false} DedupOccurs(ts: seq<Term>, t: Term)
    ensures Occurs(Dedup(ts), t) == if t in ts then 1 else 0
    decreases |ts|
  {
    if ts != [] {
      var k := |ts| - 1;
      var d := Dedup(ts[..k]);
      DedupOccurs(ts[..k], t);
      assert ts == ts[..k] + [ts[k]];
      assert (d + [ts[k]])[..|d|] == d;
    }
  }

  /** An index of one document with one term. */
  function OneDoc(t: Term, d: Id, ln: real -> real): Index {
    Index(1, 1, map[t := map[d := Posting(1, 1)]], map[t := 1], ln)
  }

  /** `d` is the only document, and `t` its only term. */
  ghost predicate OnlyOn(ix: Index, t: Term, d: Id) {
    forall u :: ix.Post(u).Keys == if u == t then {d} else {}
  }

  lemma OneDocIndex(t: Term, d: Id, ln: real -> real)
    requires ln(0.5 / 1.5 + 1.0) > 0.0
    ensures var ix := OneDoc(t, d, ln); ix.Consistent() && ix.ln == ln && OnlyOn(ix, t, d) && ix.Part(t, d) > 0.0
  {
    hide Bm25Term, Index.Avgdl, Index.Idf;
    var ix := OneDoc(t, d, ln);
    assert |ix.Post(t)| == 1;
    OneDocStats(t, d, ln);
    PositiveTerm(ix.Idf(1));
  }

  lemma OneDocStats(t: Term, d: Id, ln: real -> real)
    ensures var ix := OneDoc(t, d, ln); ix.Avgdl() == 1.0 && ix.Idf(1) == Max(ln(0.5 / 1.5 + 1.0), 0.0)
  {
  }

  lemma PositiveTerm(idf: real)
    requires idf > 0.0
    ensures Bm25Term(idf, Posting(1, 1), 1.0) > 0.0
  {
    assert Denominator(Posting(1, 1), 1.0) == 1.0 + K1;
    assert K1 == 1.2;
  }

  /** With one document under one term, the score counts the occurrences of the term. */
  lemma {:induction false} SoloScore(ix: Index, ts: seq<Term>, t: Term, d: Id)
    requires OnlyOn(ix, t, d)
    ensures ix.Bm25().Score(ts, d) == Occurs(ts, t) as real * ix.Part(t, d)
    decreases |ts|
  {
    hide Index.Part, Index.Post, Index.Bound;
    if ts != [] {
      var k := |ts| - 1;
      SoloScore(ix, ts[..k], t, d);
      assert d in ix.Post(ts[k]).Keys <==> ts[k] == t;
      PartOff(ix, ts[k], d);
      OneMore(Occurs(ts[..k], t), ix.Part(t, d));
    }
  }

  lemma OneMore(n: nat, x: real)
    ensures (n + 1) as real * x == n as real * x + x
  {
  }

  /** Its score is the whole answer. */
  lemma SoloTop(ix: Index, ts: seq<Term>, t: Term, d: Id, score: real)
    requires OnlyOn(ix, t, d) && t in ts && ix.Bm25().Score(ts, d) == score
    ensures IsTop([(d, score)], ItemsOf(ix.Bm25().Scores(ts)), 1)
  {
    hide Index.Part, Index.Post, Index.Bound, Scorer.Score;
    var s := ix.Bm25();
    forall id ensures id in s.Matched(ts) <==> id == d {
      MatchedIff(s, ts, id);
      assert d in s.post(t);
    }
    assert s.Matched(ts) == {d};
    assert forall h :: h in ItemsOf(s.Scores(ts)) ==> h == (d, score);
    assert d in s.Scores(ts) && (d, s.Scores(ts)[d]) in ItemsOf(s.Scores(ts));
    assert [(d, score)][0] == (d, score);
  }

  /** A term that occurs `n` times counts `n` times in the full scan and once in the pruned one. */
  lemma RepeatDiffers(ln: real -> real, terms: seq<Term>, t: Term, d: Id)
    returns (ix: Index, fast: seq<Hit>, slow: seq<Hit>)
    requires ln(0.5 / 1.5 + 1.0) > 0.0 && Occurs(terms, t) > 1
    ensures ix.Consistent() && ix.ln == ln && !Agrees(ix, terms, 1, fast, slow)
  {
    hide Index.Bm25, Index.Consistent, Index.Part, Index.Post, IsTop, ItemsOf, Scorer.Scores, Scorer.Score, Dedup, Occurs,
      OneDoc, OnlyOn;
    OneDocIndex(t, d, ln);
    ix := OneDoc(t, d, ln);
    var part := ix.Part(t, d);
    var once, often := ix.Bm25().Score(Dedup(terms), d), ix.Bm25().Score(terms, d);
    OccursIff(terms, t);
    DedupOccurs(terms, t);
    OccursIff(Dedup(terms), t);
    SoloScore(ix, terms, t, d);
    SoloScore(ix, Dedup(terms), t, d);
    MoreThanOnce(Occurs(terms, t), part);
    fast, slow := [(d, once)], [(d, often)];
    SoloTop(ix, Dedup(terms), t, d, once);
    SoloTop(ix, terms, t, d, often);
    assert fast[0] != slow[0];
  }

  lemma MoreThanOnce(n: nat, x: real)
    requires n > 1 && x > 0.0
    ensures n as real * x > 1 as real * x
  {
    var m := (n - 1) as real;
    assert m * x > 0.0;
    assert n as real == m + 1.0;
    assert (m + 1.0) * x == m * x + x;
  }
}
