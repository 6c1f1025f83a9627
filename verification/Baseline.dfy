/**
 * The shape baseline: recency-weighted distributions.
 */
module Baseline {
  import opened Arith
  import opened Wrappers

  // Weights decay by a growing unit instead of by multiplying every weight. `Observe` keeps every
  // distribution a scaled copy of the naively decayed one, so probabilities and predictions are
  // those of naive decay.

  const LAMBDA: real := 0.999
  const RESCALE_AT: real := 1000000000000.0
  const WINDOW: nat := 128

  type Sliver = nat
  type Context = string

  /** Weight per sliver, and their sum. */
  datatype Distribution = Distribution(weights: map<Sliver, real>, total: real)
  {
    function W(s: Sliver): real { if s in weights then weights[s] else 0.0 }

    function Add(s: Sliver, unit: real): Distribution {
      Distribution(weights[s := W(s) + unit], total + unit)
    }

    function Rescale(factor: real): Distribution
      requires factor > 0.0
    {
      Distribution(map s | s in weights :: weights[s] / factor, total / factor)
    }

    /** Probability of a sliver. */
    function P(s: Sliver): real {
      if total <= 0.0 then 0.0 else W(s) / total
    }
  }

  const EMPTY := Distribution(map[], 0.0)

  // ---- naive decay ---------------------------------------------------------------------

  /** The textbook form: every weight decays on every observation, and the observed sliver gains one. */
  function Decayed(d: Distribution): Distribution {
    Distribution(map s | s in d.weights :: LAMBDA * d.weights[s], LAMBDA * d.total)
  }

  /** One observation anywhere decays a distribution; one of its own context also adds to it. */
  function NaiveStep(d: Distribution, hit: bool, s: Sliver): Distribution {
    if hit then Decayed(d).Add(s, 1.0) else Decayed(d)
  }

  /** A context's naive distribution (`None`: the global one) after a history of observations. */
  function Naive(history: seq<(Context, Sliver)>, scope: Option<Context>): Distribution {
    if history == [] then EMPTY
    else
      var (c, s) := history[|history| - 1];
      NaiveStep(Naive(history[..|history| - 1], scope), scope == None || scope == Some(c), s)
  }

  /** `d` is `n` with every weight multiplied by `k`. */
  ghost predicate Scaled(d: Distribution, n: Distribution, k: real) {
    && d.weights.Keys == n.weights.Keys
    && (forall s :: d.W(s) == k * n.W(s))
    && d.total == k * n.total
  }

  lemma MulDiv(a: real, k: real, factor: real)
    requires factor > 0.0
    ensures (k * a) / factor == (k / factor) * a
  {
  }

  lemma MulMul(x: real, k: real, a: real)
    ensures x * (k * a) == (x * k) * a
  {
  }

  /** Growing the unit is decaying the rest. */
  lemma ScaledStep(d: Distribution, n: Distribution, unit: real, hit: bool, s: Sliver)
    requires Scaled(d, n, LAMBDA * unit)
    ensures Scaled(if hit then d.Add(s, unit) else d, NaiveStep(n, hit, s), unit)
  {
    var n' := Decayed(n);
    assert forall x :: n'.W(x) == LAMBDA * n.W(x);
    forall x ensures d.W(x) == unit * n'.W(x) {
      MulMul(unit, LAMBDA, n.W(x));
    }
    MulMul(unit, LAMBDA, n.total);
    assert n'.weights.Keys == n.weights.Keys;
    assert Scaled(d, n', unit);
    if hit {
      ScaledAdd(d, n', unit, s);
    }
  }

  lemma ScaledAdd(d: Distribution, n: Distribution, unit: real, s: Sliver)
    requires Scaled(d, n, unit)
    ensures Scaled(d.Add(s, unit), n.Add(s, 1.0), unit)
  {
    var d', n' := d.Add(s, unit), n.Add(s, 1.0);
    forall x ensures d'.W(x) == unit * n'.W(x) {
      assert n'.W(x) == n.W(x) + if x == s then 1.0 else 0.0;
      assert d'.W(x) == d.W(x) + if x == s then unit else 0.0;
    }
  }

  lemma ScaledRescale(d: Distribution, n: Distribution, k: real, factor: real)
    requires factor > 0.0 && Scaled(d, n, k)
    ensures Scaled(d.Rescale(factor), n, k / factor)
  {
    var d' := d.Rescale(factor);
    assert d'.weights.Keys == d.weights.Keys;
    forall x ensures d'.W(x) == (k / factor) * n.W(x) {
      MulDiv(n.W(x), k, factor);
      assert d'.W(x) == d.W(x) / factor;
    }
    MulDiv(n.total, k, factor);
  }

  // ---- what callers see ----------------------------------------------------------------

  lemma QuotientScaled(a: real, b: real, k: real)
    requires k > 0.0 && b > 0.0
    ensures k * b > 0.0 && (k * a) / (k * b) == a / b
  {
    var q := a / b;
    MulMul(q, k, b);
    MulMul(k, q, b);
    DivideOut(q, k * b);
  }

  lemma SignScaled(b: real, k: real)
    requires k > 0.0
    ensures k * b > 0.0 <==> b > 0.0
  {
  }

  /** Probabilities are those of naive decay. */
  lemma SameProbability(d: Distribution, n: Distribution, k: real, s: Sliver)
    requires k > 0.0 && Scaled(d, n, k)
    ensures d.P(s) == n.P(s)
  {
    SignScaled(n.total, k);
    if n.total > 0.0 {
      QuotientScaled(n.W(s), n.total, k);
    }
  }

  lemma OrderScaled(a: real, b: real, k: real)
    requires k > 0.0
    ensures k * a <= k * b <==> a <= b
  {
  }

  /** `best` weighs at least as much as every sliver seen. */
  ghost predicate Heaviest(d: Distribution, best: Sliver) {
    best in d.weights && forall s :: s in d.weights ==> d.W(s) <= d.W(best)
  }

  /** So is the most likely sliver. */
  lemma SameHeaviest(d: Distribution, n: Distribution, k: real, best: Sliver)
    requires k > 0.0 && Scaled(d, n, k)
    ensures Heaviest(d, best) <==> Heaviest(n, best)
  {
    forall s ensures d.W(s) <= d.W(best) <==> n.W(s) <= n.W(best) {
      OrderScaled(n.W(s), n.W(best), k);
    }
  }

  // ---- the baseline ----------------------------------------------------------------------

  /** Per-context state: distribution, recent window, speculation ledger. */
  datatype Stats = Stats(observations: nat, dist: Distribution, window: seq<Sliver>, predictions: nat, hits: nat)

  const FRESH := Stats(0, EMPTY, [], 0, 0)

  function SeenIn(history: seq<(Context, Sliver)>, c: Context): seq<Sliver> {
    if history == [] then []
    else
      var (x, s) := history[|history| - 1];
      SeenIn(history[..|history| - 1], c) + if x == c then [s] else []
  }

  function LastFew(s: seq<Sliver>): seq<Sliver> {
    if |s| <= WINDOW then s else s[|s| - WINDOW..]
  }

  class ShapeBaseline {
    var unit: real
    var global: Distribution
    var contexts: map<Context, Stats>
    var observations: nat
    ghost var history: seq<(Context, Sliver)>

    /** Every distribution is the naive one times `LAMBDA * unit`; windows hold the last slivers seen. */
    ghost predicate Valid()
      reads this
    {
      && unit > 0.0 && unit <= RESCALE_AT
      && observations == |history|
      && Scaled(global, Naive(history, None), LAMBDA * unit)
      && (forall c :: c in contexts ==> StatsOk(contexts[c], history, c, unit))
      && (forall c :: c !in contexts ==> SeenIn(history, c) == [])
    }

    constructor ()
      ensures Valid() && history == []
    {
      unit, global, contexts, observations, history := 1.0, EMPTY, map[], 0, [];
    }

    /** Fold one observation in, and settle the prediction made for it. */
    method Observe(c: Context, s: Sliver, predicted: Option<Sliver>) returns (hit: bool)
      requires Valid()
      modifies this
      ensures Valid() && history == old(history) + [(c, s)]
      ensures hit <==> predicted == Some(s)
      ensures forall x :: x in contexts <==> x == c || x in old(contexts)
      ensures contexts[c].predictions == old(StatsAt(contexts, c)).predictions + (if predicted.Some? then 1 else 0)
      ensures contexts[c].hits == old(StatsAt(contexts, c)).hits + (if hit then 1 else 0)
      ensures forall x :: x in old(contexts) && x != c ==>
                contexts[x] == old(contexts)[x].(dist := contexts[x].dist)
    {
      hide Scaled, Naive, SeenIn, LastFew, StatsDue;
      observations := observations + 1;
      global := global.Add(s, unit);
      ObservedGlobal(history, old(global), unit, c, s);
      StatsBefore(history, contexts, unit, c);
      ObservedSame(history, StatsAt(contexts, c), unit, c, s, predicted);
      forall x | x in contexts && x != c ensures StatsDue(contexts[x], history + [(c, s)], x, unit) {
        ObservedOther(history, contexts[x], unit, c, s, x);
      }
      forall x | x !in contexts && x != c ensures SeenIn(history + [(c, s)], x) == [] {
        SeenSnoc(history, c, s, x);
      }
      contexts := contexts[c := Settled(StatsAt(contexts, c), s, unit, predicted)];
      history := history + [(c, s)];
      hit := predicted == Some(s);
      Grow();
    }

    /** Grow the unit; past the threshold, divide everything by it and start again at one. */
    method Grow()
      requires 0.0 < unit <= RESCALE_AT && observations == |history|
      requires Scaled(global, Naive(history, None), unit)
      requires forall c :: c in contexts ==> StatsDue(contexts[c], history, c, unit)
      requires forall c :: c !in contexts ==> SeenIn(history, c) == []
      modifies this`unit, this`global, this`contexts
      ensures Valid()
      ensures contexts.Keys == old(contexts).Keys
      ensures forall x :: x in contexts ==> contexts[x] == old(contexts)[x].(dist := contexts[x].dist)
    {
      hide Scaled, Naive, SeenIn, StatsDue;
      var u := unit;
      UnitGrows(u);
      unit := unit / LAMBDA;
      if unit > RESCALE_AT {
        var factor := unit;
        ScaledRescale(global, Naive(history, None), u, factor);
        forall x | x in contexts ensures StatsOk(contexts[x].(dist := contexts[x].dist.Rescale(factor)), history, x, 1.0) {
          Rescaled(contexts[x], history, x, u, factor);
        }
        global := global.Rescale(factor);
        contexts := map x | x in contexts :: contexts[x].(dist := contexts[x].dist.Rescale(factor));
        unit := 1.0;
      }
    }

    /** A heaviest sliver of the context's distribution, with its probability: those of naive decay. */
    method Predict(c: Context) returns (res: Option<(Sliver, real)>)
      requires Valid()
      ensures res.Some? <==> c in contexts && contexts[c].dist.weights != map[]
      ensures res.Some? ==> Heaviest(Naive(history, Some(c)), res.value.0)
                            && res.value.1 == Naive(history, Some(c)).P(res.value.0)
    {
      hide Scaled, Naive, Counted;
      if c !in contexts || contexts[c].dist.weights == map[] {
        return None;
      }
      var d := contexts[c].dist;
      var best :| best in d.weights;
      var todo := d.weights.Keys - {best};
      while todo != {}
        invariant todo <= d.weights.Keys && best in d.weights
        invariant forall s :: s in d.weights ==> s in todo || d.W(s) <= d.W(best)
        decreases |todo|
      {
        var s :| s in todo;
        if d.W(s) > d.W(best) {
          best := s;
        }
        todo := todo - {s};
      }
      assert StatsOk(contexts[c], history, c, unit);
      assert Heaviest(d, best);
      assert (if d.total > 0.0 then d.weights[best] / d.total else 0.0) == d.P(best);
      SameHeaviest(d, Naive(history, Some(c)), LAMBDA * unit, best);
      SameProbability(d, Naive(history, Some(c)), LAMBDA * unit, best);
      res := Some((best, if d.total > 0.0 then d.weights[best] / d.total else 0.0));
    }
  }

  function StatsAt(contexts: map<Context, Stats>, c: Context): Stats {
    if c in contexts then contexts[c] else FRESH
  }

  /** `push_back`, then `pop_front` past the window. */
  function PushWindow(w: seq<Sliver>, s: Sliver): seq<Sliver> {
    if |w| + 1 > WINDOW then (w + [s])[1..] else w + [s]
  }

  /** A context's statistics after one of its slivers arrives under the given unit. */
  function Settled(st: Stats, s: Sliver, unit: real, predicted: Option<Sliver>): Stats {
    Stats(st.observations + 1, st.dist.Add(s, unit), PushWindow(st.window, s),
          st.predictions + (if predicted.Some? then 1 else 0), st.hits + (if predicted == Some(s) then 1 else 0))
  }

  /** A context's statistics, but for its distribution's scale. */
  ghost predicate Counted(st: Stats, history: seq<(Context, Sliver)>, c: Context) {
    && st.observations == |SeenIn(history, c)|
    && st.window == LastFew(SeenIn(history, c))
    && st.hits <= st.predictions
  }

  ghost predicate StatsDue(st: Stats, history: seq<(Context, Sliver)>, c: Context, k: real) {
    Counted(st, history, c) && Scaled(st.dist, Naive(history, Some(c)), k)
  }

  ghost predicate StatsOk(st: Stats, history: seq<(Context, Sliver)>, c: Context, unit: real) {
    StatsDue(st, history, c, LAMBDA * unit)
  }

  lemma UnitGrows(u: real)
    requires 0.0 < u <= RESCALE_AT
    ensures u / LAMBDA > 0.0 && LAMBDA * (u / LAMBDA) == u
    ensures u / (u / LAMBDA) == LAMBDA * 1.0
  {
    assert u / (u / LAMBDA) == LAMBDA;
  }

  lemma SeenSnoc(h: seq<(Context, Sliver)>, c: Context, s: Sliver, x: Context)
    ensures SeenIn(h + [(c, s)], x) == SeenIn(h, x) + if x == c then [s] else []
    ensures forall scope :: Naive(h + [(c, s)], scope)
                            == NaiveStep(Naive(h, scope), scope == None || scope == Some(c), s)
  {
    assert (h + [(c, s)])[..|h|] == h;
  }

  lemma ObservedGlobal(h: seq<(Context, Sliver)>, d: Distribution, u: real, c: Context, s: Sliver)
    requires Scaled(d, Naive(h, None), LAMBDA * u)
    ensures Scaled(d.Add(s, u), Naive(h + [(c, s)], None), u)
  {
    SeenSnoc(h, c, s, c);
    ScaledStep(d, Naive(h, None), u, true, s);
  }

  lemma WindowSlides(seen: seq<Sliver>, s: Sliver)
    ensures PushWindow(LastFew(seen), s) == LastFew(seen + [s])
  {
  }

  /** A context nothing was observed in has an empty naive distribution. */
  lemma {:induction false} UnseenEmpty(h: seq<(Context, Sliver)>, c: Context)
    requires SeenIn(h, c) == []
    ensures Naive(h, Some(c)) == EMPTY
  {
    if h != [] {
      UnseenEmpty(h[..|h| - 1], c);
    }
  }

  /** A context's statistics before its next observation; none yet for a new one. */
  lemma StatsBefore(h: seq<(Context, Sliver)>, contexts: map<Context, Stats>, u: real, x: Context)
    requires x in contexts ==> StatsOk(contexts[x], h, x, u)
    requires x !in contexts ==> SeenIn(h, x) == []
    ensures StatsOk(StatsAt(contexts, x), h, x, u)
  {
    if x !in contexts {
      UnseenEmpty(h, x);
    }
  }

  /** An observation of another context only decays this one. */
  lemma ObservedOther(h: seq<(Context, Sliver)>, st: Stats, u: real, c: Context, s: Sliver, x: Context)
    requires StatsOk(st, h, x, u) && x != c
    ensures StatsDue(st, h + [(c, s)], x, u)
  {
    hide Scaled, Naive, SeenIn, LastFew;
    SeenSnoc(h, c, s, x);
    assert SeenIn(h, x) + [] == SeenIn(h, x);
    ScaledStep(st.dist, Naive(h, Some(x)), u, false, s);
  }

  lemma ObservedSame(h: seq<(Context, Sliver)>, st: Stats, u: real, c: Context, s: Sliver, predicted: Option<Sliver>)
    requires StatsOk(st, h, c, u)
    ensures StatsDue(Settled(st, s, u, predicted), h + [(c, s)], c, u)
  {
    hide Scaled, Naive, SeenIn, LastFew, PushWindow;
    SeenSnoc(h, c, s, c);
    ScaledStep(st.dist, Naive(h, Some(c)), u, true, s);
    WindowSlides(SeenIn(h, c), s);
  }

  lemma Rescaled(st: Stats, h: seq<(Context, Sliver)>, x: Context, u: real, factor: real)
    requires factor > 0.0 && u / factor == LAMBDA * 1.0 && StatsDue(st, h, x, u)
    ensures StatsOk(st.(dist := st.dist.Rescale(factor)), h, x, 1.0)
  {
    hide Scaled, Naive, SeenIn, LastFew;
    ScaledRescale(st.dist, Naive(h, Some(x)), u, factor);
  }

  // ---- probabilities ---------------------------------------------------------------------

  /** The weight of the slivers below `n`, and their probability. */
  ghost function WeightTo(d: Distribution, n: nat): real {
    if n == 0 then 0.0 else WeightTo(d, n - 1) + d.W(n - 1)
  }

  ghost function ProbabilityTo(d: Distribution, n: nat): real {
    if n == 0 then 0.0 else ProbabilityTo(d, n - 1) + d.P(n - 1)
  }

  lemma {:induction false} DecayedWeight(d: Distribution, n: nat)
    ensures WeightTo(Decayed(d), n) == LAMBDA * WeightTo(d, n)
  {
    if n > 0 {
      DecayedWeight(d, n - 1);
      assert Decayed(d).W(n - 1) == LAMBDA * d.W(n - 1);
    }
  }

  lemma {:induction false} AddedWeight(d: Distribution, s: Sliver, n: nat)
    ensures WeightTo(d.Add(s, 1.0), n) == WeightTo(d, n) + if s < n then 1.0 else 0.0
  {
    if n > 0 {
      AddedWeight(d, s, n - 1);
      assert d.Add(s, 1.0).W(n - 1) == d.W(n - 1) + if s == n - 1 then 1.0 else 0.0;
    }
  }

  ghost predicate InScope(scope: Option<Context>, c: Context) { scope == None || scope == Some(c) }

  /** The total is the sum of the weights, which are never negative, and positive once something was seen. */
  lemma {:induction false} NaiveTotal(history: seq<(Context, Sliver)>, scope: Option<Context>, n: nat)
    requires forall i: nat :: i < |history| ==> history[i].1 < n
    ensures var d := Naive(history, scope);
            && d.total == WeightTo(d, n) >= 0.0 && (forall s :: d.W(s) >= 0.0)
            && ((exists i: nat :: i < |history| && InScope(scope, history[i].0)) ==> d.total > 0.0)
    decreases |history|
  {
    if history == [] {
      NothingWeighs(n);
    } else {
      var k := |history| - 1;
      var d, c, s := Naive(history[..k], scope), history[k].0, history[k].1;
      NaiveTotal(history[..k], scope, n);
      assert history == history[..k] + [(c, s)];
      DecayedWeight(d, n);
      AddedWeight(Decayed(d), s, n);
      assert forall x :: Decayed(d).W(x) == LAMBDA * d.W(x);
      assert forall x :: Decayed(d).Add(s, 1.0).W(x) == Decayed(d).W(x) + if x == s then 1.0 else 0.0;
      assert forall i: nat :: i < k ==> history[..k][i] == history[i];
    }
  }

  lemma {:induction false} NothingWeighs(n: nat)
    ensures WeightTo(EMPTY, n) == 0.0
  {
    if n > 0 {
      NothingWeighs(n - 1);
    }
  }

  lemma {:induction false} ProbabilityIsShare(d: Distribution, n: nat)
    requires d.total > 0.0
    ensures ProbabilityTo(d, n) == WeightTo(d, n) / d.total
  {
    if n > 0 {
      ProbabilityIsShare(d, n - 1);
      AddQuotients(WeightTo(d, n - 1), d.W(n - 1), d.total);
    }
  }

  lemma AddQuotients(x: real, y: real, d: real)
    requires d > 0.0
    ensures x / d + y / d == (x + y) / d
  {
  }

  /** Once something was seen in a scope, its probabilities are a distribution: none negative, and they sum to one. */
  lemma SumsToOne(history: seq<(Context, Sliver)>, scope: Option<Context>, n: nat)
    requires forall i: nat :: i < |history| ==> history[i].1 < n
    requires exists i: nat :: i < |history| && InScope(scope, history[i].0)
    ensures ProbabilityTo(Naive(history, scope), n) == 1.0 && forall s :: Naive(history, scope).P(s) >= 0.0
  {
    hide Naive, InScope;
    var d := Naive(history, scope);
    NaiveTotal(history, scope, n);
    ProbabilityIsShare(d, n);
    DivideOut(1.0, d.total);
    forall s ensures d.P(s) >= 0.0 {
      QuotientSign(d.W(s), d.total);
    }
  }

  lemma QuotientSign(x: real, d: real)
    requires x >= 0.0 && d > 0.0
    ensures x / d >= 0.0
  {
  }

  /** One more observation keeps 999 thousandths of every weight, and adds one to the sliver seen in its scopes. */
  lemma Recency(history: seq<(Context, Sliver)>, scope: Option<Context>, c: Context, s: Sliver, x: Sliver)
    ensures Naive(history + [(c, s)], scope).W(x)
         == 0.999 * Naive(history, scope).W(x) + if InScope(scope, c) && x == s then 1.0 else 0.0
  {
    assert (history + [(c, s)])[..|history|] == history;
    var d := Naive(history, scope);
    assert Decayed(d).W(x) == LAMBDA * d.W(x);
  }
}
