/**
 * Filters: what a condition means, and what its scan takes.
 */
module Filters {
  import opened Wrappers
  import opened ByteStrings
  import opened Sortable
  import opened Json
  import opened PayloadKeys
  import opened FilterScan
  import Geo

  // `Hits` says which documents a condition's index scan returns, `Matches` what the condition
  // means with equality of index keys for equality (`Equality` says when that is JSON equality).
  // The two differ in one case on ranges, and a radius scan may miss points near its rim;
  // `IdsWhere.IdsWhere` is exact outside those.

  datatype Condition =
    | Eq(key: Bytes, value: Value)
    | Any(key: Bytes, values: seq<Value>)
    | Range(key: Bytes, gt: Option<F64>, gte: Option<F64>, lt: Option<F64>, lte: Option<F64>)
    | DateRange(key: Bytes, dgt: Option<Bytes>, dgte: Option<Bytes>, dlt: Option<Bytes>, dlte: Option<Bytes>)
    | GeoRadius(key: Bytes, lat: real, lon: real, radius: real)
    | GeoBox(key: Bytes, latMin: real, lonMin: real, latMax: real, lonMax: real)
    | Exists(key: Bytes)

  datatype Filter = Filter(must: seq<Condition>, should: seq<Condition>, mustNot: seq<Condition>)

  /** The parsers, the great-circle distance, and the bounding box of a radius. */
  datatype Env = Env(lx: Lexer, distance: (real, real, real, real) -> real,
                     bbox: (real, real, real) -> ((real, real), (real, real)))

  // ---- meaning -----------------------------------------------------------------------

  predicate InRange(c: Condition, x: F64)
    requires c.Range?
  {
    && (c.gt.Some? ==> FloatLt(c.gt.value, x))
    && (c.gte.Some? ==> FloatLe(c.gte.value, x))
    && (c.lt.Some? ==> FloatLt(x, c.lt.value))
    && (c.lte.Some? ==> FloatLe(x, c.lte.value))
  }

  /** A date bound that does not parse is ignored. */
  function Instant(env: Env, bound: Option<Bytes>): Option<I64> {
    if bound.Some? then env.lx.epoch(bound.value) else None
  }

  predicate InDates(gt: Option<I64>, gte: Option<I64>, lt: Option<I64>, lte: Option<I64>, x: I64) {
    && (gt.Some? ==> x > gt.value)
    && (gte.Some? ==> x >= gte.value)
    && (lt.Some? ==> x < lt.value)
    && (lte.Some? ==> x <= lte.value)
  }

  predicate Dated(env: Env, c: Condition, x: I64)
    requires c.DateRange?
  {
    InDates(Instant(env, c.dgt), Instant(env, c.dgte), Instant(env, c.dlt), Instant(env, c.dlte), x)
  }

  /** A stored value's instant, if it is a string that denotes one. */
  function EpochOf(env: Env, v: Value): Option<I64> {
    if v.Str? then env.lx.epoch(v.s) else None
  }

  /** Whether a metadata value satisfies a condition on its field. */
  predicate ValueMatches(env: Env, c: Condition, v: Value) {
    match c
    case Eq(_, value) => Encoded(env.lx, v) == Encoded(env.lx, value)
    case Any(_, values) => exists i :: 0 <= i < |values| && Encoded(env.lx, v) == Encoded(env.lx, values[i])
    case Range(_, _, _, _, _) => v.Number? && InRange(c, AsF64(v.n))
    case DateRange(_, _, _, _, _) => EpochOf(env, v).Some? && Dated(env, c, EpochOf(env, v).value)
    case GeoRadius(_, lat, lon, radius) =>
      PointOf(v).Some? && env.distance(lat, lon, PointOf(v).value.0, PointOf(v).value.1) <= radius
    case GeoBox(_, latMin, lonMin, latMax, lonMax) =>
      PointOf(v).Some? && Geo.InBox(PointOf(v).value.0, PointOf(v).value.1, latMin, lonMin, latMax, lonMax)
    case Exists(_) => true
  }

  predicate Matches(env: Env, c: Condition, m: Meta) {
    c.key in m && ValueMatches(env, c, m[c.key])
  }

  predicate FilterMatches(env: Env, f: Filter, m: Meta) {
    && (forall c :: c in f.must ==> Matches(env, c, m))
    && (f.should != [] ==> exists c :: c in f.should && Matches(env, c, m))
    && (forall c :: c in f.mustNot ==> !Matches(env, c, m))
  }

  // ---- what the scans return -------------------------------------------------------------

  /** `gte.or(gt).unwrap_or(NEG_INFINITY)` */
  function LowerF64(c: Condition): F64
    requires c.Range?
  {
    if c.gte.Some? then c.gte.value else if c.gt.Some? then c.gt.value else NEG_INF
  }

  predicate OverF64(c: Condition, x: F64)
    requires c.Range?
  {
    (c.lt.Some? && FloatLe(c.lt.value, x)) || (c.lte.Some? && FloatLt(c.lte.value, x))
  }

  predicate UnderF64(c: Condition, x: F64)
    requires c.Range?
  {
    (c.gt.Some? && FloatLe(x, c.gt.value)) || (c.gte.Some? && FloatLt(x, c.gte.value))
  }

  function LowerI64(gt: Option<I64>, gte: Option<I64>): I64 {
    if gte.Some? then gte.value else if gt.Some? then gt.value else -0x8000_0000_0000_0000
  }

  /** The corners of a geo scan's code range. */
  function Corners(env: Env, c: Condition): ((real, real), (real, real))
    requires c.GeoRadius? || c.GeoBox?
  {
    match c
    case GeoRadius(_, lat, lon, radius) => env.bbox(lat, lon, radius)
    case GeoBox(_, latMin, lonMin, latMax, lonMax) => ((latMin, lonMin), (latMax, lonMax))
  }

  predicate InCodes(env: Env, c: Condition, p: (real, real))
    requires c.GeoRadius? || c.GeoBox?
  {
    var ((latMin, lonMin), (latMax, lonMax)) := Corners(env, c);
    Geo.Morton(latMin, lonMin) <= Geo.Morton(p.0, p.1) <= Geo.Morton(latMax, lonMax)
  }

  /** Whether a document's value is among the rows a condition's scan takes. */
  predicate ValueHit(env: Env, c: Condition, v: Value) {
    match c
    case Range(_, _, _, _, _) =>
      v.Number? && var x := AsF64(v.n); Mapped(LowerF64(c)) <= Mapped(x) && !OverF64(c, x) && !UnderF64(c, x)
    case GeoRadius(_, _, _, _) => ValueMatches(env, c, v) && InCodes(env, c, PointOf(v).value)
    case _ => ValueMatches(env, c, v)
  }

  predicate Hits(env: Env, c: Condition, m: Meta) {
    c.key in m && ValueHit(env, c, m[c.key])
  }

  predicate FilterHits(env: Env, f: Filter, m: Meta) {
    && (forall c :: c in f.must ==> Hits(env, c, m))
    && (f.should != [] ==> exists c :: c in f.should && Hits(env, c, m))
    && (forall c :: c in f.mustNot ==> !Hits(env, c, m))
  }

  predicate NumericBounds(c: Condition)
    requires c.Range?
  {
    && (c.gt.Some? ==> !IsNan(c.gt.value)) && (c.gte.Some? ==> !IsNan(c.gte.value))
    && (c.lt.Some? ==> !IsNan(c.lt.value)) && (c.lte.Some? ==> !IsNan(c.lte.value))
  }

  /** A range scan starting at +0.0 seeks past a stored -0.0. */
  predicate ZeroMissed(c: Condition, v: Value)
    requires c.Range?
  {
    v.Number? && AsF64(v.n) == NEG_ZERO && c.gte == Some(POS_ZERO) && InRange(c, NEG_ZERO)
  }

  /** A range scan takes exactly the matching values, except a stored -0.0 under an inclusive lower bound
      of +0.0. */
  lemma RangeHitIff(env: Env, c: Condition, v: Value)
    requires c.Range? && NumericBounds(c)
    ensures ValueHit(env, c, v) <==> ValueMatches(env, c, v) && !ZeroMissed(c, v)
  {
    hide Scaled;
    if v.Number? {
      MappedOrder(LowerF64(c), AsF64(v.n));
      MappedOrder(AsF64(v.n), LowerF64(c));
      if c.gte.None? && c.gt.None? {
        LeastFloat(AsF64(v.n));
      }
      assert Mapped(POS_ZERO) > Mapped(NEG_ZERO) && Mag(POS_ZERO) == Mag(NEG_ZERO) == 0;
    }
  }

  lemma LeastFloat(x: F64)
    requires !IsNan(x)
    ensures Mapped(NEG_INF) <= Mapped(x)
  {
  }

  /** No point of a box is outside its code range. */
  lemma BoxHit(env: Env, c: Condition, v: Value)
    requires c.GeoBox? && ValueMatches(env, c, v)
    ensures InCodes(env, c, PointOf(v).value)
  {
    var p := PointOf(v).value;
    Geo.BoxCovered(p.0, p.1, c.latMin, c.lonMin, c.latMax, c.lonMax);
  }

  /** Whether index and meaning agree on a condition over a document: no radius, numeric bounds, and no
      stored -0.0 missed. */
  predicate Exact(c: Condition, m: Meta) {
    && !c.GeoRadius?
    && (c.Range? ==> NumericBounds(c) && (c.key in m ==> !ZeroMissed(c, m[c.key])))
  }

  lemma HitsIsMatches(env: Env, c: Condition, m: Meta)
    requires Exact(c, m)
    ensures Hits(env, c, m) == Matches(env, c, m)
  {
    if c.Range? && c.key in m {
      RangeHitIff(env, c, m[c.key]);
    }
  }

  /** A radius scan returns only points within the radius. */
  lemma RadiusSound(env: Env, c: Condition, m: Meta)
    requires c.GeoRadius? && Hits(env, c, m)
    ensures Matches(env, c, m)
  {
  }

  ghost predicate ExactFilter(f: Filter, docs: Docs) {
    forall c, id :: (c in f.must || c in f.should || c in f.mustNot) && id in docs ==> Exact(c, docs[id])
  }

  lemma FilterHitsIsMatches(env: Env, f: Filter, docs: Docs, id: Bytes)
    requires id in docs && ExactFilter(f, docs)
    ensures FilterHits(env, f, docs[id]) == FilterMatches(env, f, docs[id])
  {
    var m := docs[id];
    forall c | c in f.must || c in f.should || c in f.mustNot ensures Hits(env, c, m) == Matches(env, c, m) {
      assert Exact(c, docs[id]);
      HitsIsMatches(env, c, m);
    }
    hide Hits, Matches, Exact;
    assert (exists c :: c in f.should && Hits(env, c, m)) <==> (exists c :: c in f.should && Matches(env, c, m)) by {
      if c :| c in f.should && Hits(env, c, m) {
        assert Matches(env, c, m);
      }
      if c :| c in f.should && Matches(env, c, m) {
        assert Hits(env, c, m);
      }
    }
  }

  // ---- how filters combine ---------------------------------------------------------------

  /** No conditions, no restriction; each one added narrows or widens by exactly what it matches. */
  lemma FilterAlgebra(env: Env, f: Filter, c: Condition, m: Meta)
    ensures FilterMatches(env, Filter([], [], []), m)
    ensures FilterMatches(env, f.(must := f.must + [c]), m) <==> FilterMatches(env, f, m) && Matches(env, c, m)
    ensures FilterMatches(env, f.(mustNot := f.mustNot + [c]), m) <==> FilterMatches(env, f, m) && !Matches(env, c, m)
    ensures FilterMatches(env, f.(should := f.should + [c]), m)
       <==> FilterMatches(env, f.(should := []), m) && (Matches(env, c, m) || (f.should != [] && FilterMatches(env, f, m)))
  {
    hide Matches;
    assert forall x :: x in f.should + [c] <==> x in f.should || x == c;
  }

  /** A strict bound leaves its own end out, an inclusive one takes it in. */
  lemma RangeEnds(env: Env, key: Bytes, x: F64)
    requires !IsNan(x)
    ensures !InRange(Range(key, Some(x), None, None, None), x) && !InRange(Range(key, None, None, Some(x), None), x)
    ensures InRange(Range(key, None, Some(x), None, Some(x)), x) && InRange(Range(key, None, None, None, None), x)
  {
  }
}
