/**
 * Vector codecs of the recall graph: scalar (SQ8), binary (BQ) and product (PQ).
 */
module Quant {
  import opened Arith
  import ByteStrings

  // Floats are modelled as reals; codes are bytes. Each codec is given by specification functions
  // (what a code is, what it decodes to), the loops of the source are methods proved against those
  // functions, and the lemmas say that every fast dot over codes is the plain dot of the decoded
  // vectors.

  type Vec = seq<real>

  type Byte = ByteStrings.Byte

  // ---- plain dots and sums ------------------------------------------------------

  /** The dot product of the first `n` components. */
  function DotTo(a: Vec, b: Vec, n: nat): real
    requires n <= |a| && n <= |b|
  {
    if n == 0 then 0.0 else DotTo(a, b, n - 1) + a[n - 1] * b[n - 1]
  }

  /** The dot product over the common length, as a zip computes it. */
  function Dot(a: Vec, b: Vec): real { DotTo(a, b, Min(|a|, |b|)) }

  function SumTo(a: Vec, n: nat): real
    requires n <= |a|
  {
    if n == 0 then 0.0 else SumTo(a, n - 1) + a[n - 1]
  }

  function Sum(a: Vec): real { SumTo(a, |a|) }

  lemma {:induction false} DotPrefix(a: Vec, b: Vec, x: Vec, y: Vec, n: nat)
    requires n <= |a| && n <= |b|
    ensures DotTo(a + x, b + y, n) == DotTo(a, b, n)
  {
    if n > 0 {
      DotPrefix(a, b, x, y, n - 1);
    }
  }

  /** Dots are additive over concatenation of equally split vectors. */
  lemma {:induction false} DotConcat(a: Vec, b: Vec, x: Vec, y: Vec)
    requires |a| == |b| && |x| == |y|
    ensures Dot(a + x, b + y) == Dot(a, b) + Dot(x, y)
    decreases |x|
  {
    if |x| == 0 {
      assert a + x == a && b + y == b;
    } else {
      var x', y' := x[..|x| - 1], y[..|y| - 1];
      var e, f := x[|x| - 1], y[|y| - 1];
      DotConcat(a, b, x', y');
      assert a + x == (a + x') + [e] && b + y == (b + y') + [f];
      assert x == x' + [e] && y == y' + [f];
      hide *;
      DotSnoc(a + x', b + y', e, f);
      DotSnoc(x', y', e, f);
    }
  }

  lemma DotSnoc(a: Vec, b: Vec, e: real, f: real)
    requires |a| == |b|
    ensures Dot(a + [e], b + [f]) == Dot(a, b) + e * f
  {
    DotPrefix(a, b, [e], [f], |a|);
  }

  // ---- scalar quantization ------------------------------------------------------

  /** Below this spread a vector is stored as a constant (f32 machine epsilon). */
  const EPSILON: real := 1.0 / 8388608.0

  datatype SqParams = SqParams(scale: real, offset: real, codeSum: real)

  function MinOf(v: Vec): real
    requires v != []
  {
    if |v| == 1 then v[0]
    else var r := MinOf(v[..|v| - 1]); if v[|v| - 1] < r then v[|v| - 1] else r
  }

  function MaxOf(v: Vec): real
    requires v != []
  {
    if |v| == 1 then v[0]
    else var r := MaxOf(v[..|v| - 1]); if v[|v| - 1] > r then v[|v| - 1] else r
  }

  lemma {:induction false} Extremes(v: Vec)
    requires v != []
    ensures forall i :: 0 <= i < |v| ==> MinOf(v) <= v[i] <= MaxOf(v)
    ensures MinOf(v) in v && MaxOf(v) in v
  {
    if |v| > 1 {
      Extremes(v[..|v| - 1]);
      forall i | 0 <= i < |v| ensures MinOf(v) <= v[i] <= MaxOf(v) {
        if i < |v| - 1 { assert v[..|v| - 1][i] == v[i]; }
      }
    }
  }

  function ScaleOf(v: Vec): real
    requires v != []
  {
    var range := MaxOf(v) - MinOf(v);
    if range > EPSILON then range / 255.0 else 0.0
  }

  /** The code of a component lying `d` above the vector's minimum. */
  function CodeOf(d: real, scale: real): Byte {
    if scale > 0.0 then
      var r := Round(d / scale);
      if r < 0 then 0 else if r > 255 then 255 else r as Byte
    else 0
  }

  function SqCodes(v: Vec): (codes: seq<Byte>)
    ensures |codes| == |v|
  {
    if v == [] then [] else seq(|v|, i requires 0 <= i < |v| => CodeOf(v[i] - MinOf(v), ScaleOf(v)))
  }

  function CodeSumTo(codes: seq<Byte>, n: nat): real
    requires n <= |codes|
  {
    if n == 0 then 0.0 else CodeSumTo(codes, n - 1) + codes[n - 1] as real
  }

  function CodeSum(codes: seq<Byte>): real { CodeSumTo(codes, |codes|) }

  function SqParamsOf(v: Vec): SqParams {
    if v == [] then SqParams(0.0, 0.0, 0.0)
    else SqParams(ScaleOf(v), MinOf(v), CodeSum(SqCodes(v)))
  }

  function SqDecode(codes: seq<Byte>, p: SqParams): (v: Vec)
    ensures |v| == |codes|
  {
    seq(|codes|, i requires 0 <= i < |codes| => codes[i] as real * p.scale + p.offset)
  }

  lemma {:induction false} CodeSumPrefix(a: seq<Byte>, b: seq<Byte>, n: nat)
    requires n <= |a| && n <= |b| && a[..n] == b[..n]
    ensures CodeSumTo(a, n) == CodeSumTo(b, n)
  {
    if n > 0 {
      assert a[n - 1] == a[..n][n - 1] == b[..n][n - 1] == b[n - 1];
      assert a[..n - 1] == a[..n][..n - 1] == b[..n][..n - 1] == b[..n - 1];
      CodeSumPrefix(a, b, n - 1);
    }
  }

  /** The quantizing loop: codes are appended to `codes`, parameters returned. */
  method QuantizeInto(v: Vec, codes: seq<Byte>) returns (codes': seq<Byte>, p: SqParams)
    ensures codes' == codes + SqCodes(v)
    ensures p == SqParamsOf(v)
  {
    if v == [] {
      return codes, SqParams(0.0, 0.0, 0.0);
    }
    hide CodeOf;
    var min, max := v[0], v[0];
    for i := 1 to |v|
      invariant min == MinOf(v[..i]) && max == MaxOf(v[..i])
    {
      assert v[..i + 1][..i] == v[..i];
      min := if v[i] < min then v[i] else min;
      max := if v[i] > max then v[i] else max;
    }
    assert v[..|v|] == v;
    var range := max - min;
    var scale := if range > EPSILON then range / 255.0 else 0.0;
    assert scale == ScaleOf(v);
    hide MinOf, MaxOf, ScaleOf;
    var codeSum := 0.0;
    codes' := codes;
    for i := 0 to |v|
      invariant codes' == codes + SqCodes(v)[..i]
      invariant codeSum == CodeSumTo(SqCodes(v), i)
    {
      var code := CodeOf(v[i] - min, scale);
      assert code == SqCodes(v)[i];
      codeSum := codeSum + code as real;
      codes' := codes' + [code];
    }
    p := SqParams(scale, min, codeSum);
  }

  /** Decoding loses at most half a quantization step when the vector has spread. */
  lemma SqErrorBound(v: Vec, i: nat)
    requires i < |v|
    ensures var x := SqDecode(SqCodes(v), SqParamsOf(v))[i];
            var range := MaxOf(v) - MinOf(v);
            && (range > EPSILON ==> -range / 510.0 <= x - v[i] <= range / 510.0)
            && (range <= EPSILON ==> -range <= x - v[i] <= 0.0)
  {
    hide *;
    Extremes(v);
    DecodedAt(v, i);
    StepOf(v);
    var range := MaxOf(v) - MinOf(v);
    if range > EPSILON {
      EpsilonPositive();
      CodeError(v[i] - MinOf(v), ScaleOf(v), range);
    } else {
      ZeroScale(v[i] - MinOf(v), ScaleOf(v));
    }
  }

  lemma EpsilonPositive()
    ensures EPSILON > 0.0
  {
  }

  lemma StepOf(v: Vec)
    requires v != []
    ensures MaxOf(v) - MinOf(v) > EPSILON ==> 255.0 * ScaleOf(v) == MaxOf(v) - MinOf(v)
    ensures MaxOf(v) - MinOf(v) <= EPSILON ==> ScaleOf(v) == 0.0
  {
    hide MinOf, MaxOf;
  }

  lemma DecodeOne(codes: seq<Byte>, p: SqParams, i: nat)
    requires i < |codes|
    ensures SqDecode(codes, p)[i] == codes[i] as real * p.scale + p.offset
  {
  }

  lemma DecodedAt(v: Vec, i: nat)
    requires i < |v|
    ensures SqDecode(SqCodes(v), SqParamsOf(v))[i]
         == CodeOf(v[i] - MinOf(v), ScaleOf(v)) as real * ScaleOf(v) + MinOf(v)
  {
    hide MinOf, MaxOf, ScaleOf, CodeOf, CodeSum, SqDecode;
    DecodeOne(SqCodes(v), SqParamsOf(v), i);
    assert SqCodes(v)[i] == CodeOf(v[i] - MinOf(v), ScaleOf(v));
    assert SqParamsOf(v).scale == ScaleOf(v) && SqParamsOf(v).offset == MinOf(v);
  }

  lemma ZeroScale(d: real, s: real)
    requires s == 0.0
    ensures CodeOf(d, s) as real * s == 0.0
  {
  }

  /** The code of a value `d` above the minimum is within half a step of `d / s`. */
  lemma CodeError(d: real, s: real, range: real)
    requires range > 0.0 && 255.0 * s == range && 0.0 <= d <= range
    ensures -range / 510.0 <= CodeOf(d, s) as real * s - d <= range / 510.0
  {
    var t := d / s;
    QuotientRange(d, s);
    assert CodeOf(d, s) as real == Round(t) as real;
    hide *;
    HalfStep(Round(t) as real, t, s);
    assert range / 510.0 == 0.5 * s;
    assert CodeOf(d, s) as real * s - d == Round(t) as real * s - t * s;
  }

  lemma QuotientRange(d: real, s: real)
    requires s > 0.0 && 0.0 <= d <= 255.0 * s
    ensures 0.0 <= d / s <= 255.0 && (d / s) * s == d
  {
    var t := d / s;
    assert t * s == d;
    if t > 255.0 {
      Positive2(t - 255.0, s);
      MinusDistributes(t, 255.0, s);
      assert false;
    }
    if t < 0.0 {
      Positive2(-t, s);
      assert false;
    }
  }

  lemma HalfStep(c: real, t: real, s: real)
    requires s > 0.0 && -0.5 <= c - t <= 0.5
    ensures -0.5 * s <= c * s - t * s <= 0.5 * s
  {
    ScaleBound(c - t, s);
    MinusDistributes(c, t, s);
  }

  lemma MinusDistributes(a: real, b: real, c: real)
    ensures (a - b) * c == a * c - b * c
  {
  }

  lemma Positive2(x: real, y: real)
    requires x > 0.0 && y > 0.0
    ensures x * y > 0.0
  {
  }

  lemma ScaleBound(e: real, s: real)
    requires s > 0.0 && -0.5 <= e <= 0.5
    ensures -0.5 * s <= e * s <= 0.5 * s
  {
    ProductNonNegative(0.5 - e, s);
    ProductNonNegative(e + 0.5, s);
    MinusDistributes(0.5, e, s);
    MinusDistributes(e, -0.5, s);
  }

  // Asymmetric dot: full-precision query against codes.

  function CodeDotTo(codes: seq<Byte>, q: Vec, n: nat): real
    requires n <= |codes| && n <= |q|
  {
    if n == 0 then 0.0 else CodeDotTo(codes, q, n - 1) + codes[n - 1] as real * q[n - 1]
  }

  function SqDotQuery(codes: seq<Byte>, p: SqParams, q: Vec, qsum: real): real {
    p.scale * CodeDotTo(codes, q, Min(|codes|, |q|)) + p.offset * qsum
  }

  method SqDotQueryLoop(codes: seq<Byte>, p: SqParams, q: Vec, qsum: real) returns (r: real)
    ensures r == SqDotQuery(codes, p, q, qsum)
  {
    var acc := 0.0;
    for i := 0 to Min(|codes|, |q|)
      invariant acc == CodeDotTo(codes, q, i)
    {
      acc := acc + codes[i] as real * q[i];
    }
    r := p.scale * acc + p.offset * qsum;
  }

  lemma {:induction false} SqDotQueryTo(codes: seq<Byte>, p: SqParams, q: Vec, n: nat)
    requires n <= |codes| && n <= |q|
    ensures p.scale * CodeDotTo(codes, q, n) + p.offset * SumTo(q, n) == DotTo(SqDecode(codes, p), q, n)
  {
    if n > 0 {
      SqDotQueryTo(codes, p, q, n - 1);
      var c, x := codes[n - 1] as real, q[n - 1];
      assert SqDecode(codes, p)[n - 1] == c * p.scale + p.offset;
      DecodedTerm(p.scale, p.offset, CodeDotTo(codes, q, n - 1), SumTo(q, n - 1), c, x);
    }
  }

  lemma DecodedTerm(scale: real, offset: real, dot: real, sum: real, c: real, x: real)
    ensures scale * (dot + c * x) + offset * (sum + x) == (scale * dot + offset * sum) + (c * scale + offset) * x
  {
  }

  /** The asymmetric SQ8 dot is exactly the dot of the decoded vector with the query. */
  lemma SqDotQueryExact(codes: seq<Byte>, p: SqParams, q: Vec)
    requires |codes| == |q|
    ensures SqDotQuery(codes, p, q, Sum(q)) == Dot(SqDecode(codes, p), q)
  {
    SqDotQueryTo(codes, p, q, |q|);
  }

  // Symmetric dot: codes against codes, accumulated in a 32-bit unsigned counter.

  const U32: nat := 0x1_0000_0000

  function CodeProdTo(a: seq<Byte>, b: seq<Byte>, n: nat): nat
    requires n <= |a| && n <= |b|
  {
    if n == 0 then 0 else CodeProdTo(a, b, n - 1) + a[n - 1] as nat * b[n - 1] as nat
  }

  /** The symmetric dot as the source computes it: the code product sum wraps at 2^32. */
  function SqDotCodes(a: seq<Byte>, pa: SqParams, b: seq<Byte>, pb: SqParams): real {
    var acc := CodeProdTo(a, b, Min(|a|, |b|)) % U32;
    pa.scale * pb.scale * acc as real
    + pa.scale * pb.offset * pa.codeSum
    + pa.offset * pb.scale * pb.codeSum
    + |a| as real * pa.offset * pb.offset
  }

  method SqDotCodesLoop(a: seq<Byte>, pa: SqParams, b: seq<Byte>, pb: SqParams) returns (r: real)
    ensures r == SqDotCodes(a, pa, b, pb)
  {
    var acc: nat := 0;
    for i := 0 to Min(|a|, |b|)
      invariant acc == CodeProdTo(a, b, i) % U32
    {
      ModAdd(CodeProdTo(a, b, i), a[i] as nat * b[i] as nat);
      acc := (acc + a[i] as nat * b[i] as nat) % U32;
    }
    var d := |a| as real;
    r := pa.scale * pb.scale * acc as real
         + pa.scale * pb.offset * pa.codeSum
         + pa.offset * pb.scale * pb.codeSum
         + d * pa.offset * pb.offset;
  }

  lemma ModAdd(x: nat, y: nat)
    ensures (x % U32 + y) % U32 == (x + y) % U32
  {
  }

  /** Dimensions up to which no code product sum can reach 2^32. */
  const MAX_DIMS: nat := 66051

  function AllMax(n: nat): seq<Byte> { seq(n, _ => 255) }

  lemma {:induction false} CodeProdBound(a: seq<Byte>, b: seq<Byte>, n: nat)
    requires n <= |a| && n <= |b|
    ensures CodeProdTo(a, b, n) <= 65025 * n
  {
    if n > 0 {
      CodeProdBound(a, b, n - 1);
      ByteProd(a[n - 1] as nat, b[n - 1] as nat);
    }
  }

  lemma ByteProd(x: nat, y: nat)
    requires x <= 255 && y <= 255
    ensures x * y <= 65025
  {
    MulMono(x, 255, y);
  }

  lemma {:induction false} CodeProdAllMax(k: nat, n: nat)
    requires n <= k
    ensures CodeProdTo(AllMax(k), AllMax(k), n) == 65025 * n
  {
    if n > 0 { CodeProdAllMax(k, n - 1); }
  }

  /** The 32-bit accumulator is exact for every pair of codes iff there are at most 66051 dims. */
  lemma AccumulatorExactIff(n: nat)
    ensures (forall a: seq<Byte>, b: seq<Byte> :: |a| == n && |b| == n ==> CodeProdTo(a, b, n) < U32) <==> n <= MAX_DIMS
  {
    if n <= MAX_DIMS {
      forall a: seq<Byte>, b: seq<Byte> | |a| == n && |b| == n ensures CodeProdTo(a, b, n) < U32 {
        CodeProdBound(a, b, n);
      }
    } else {
      CodeProdAllMax(n, n);
      assert |AllMax(n)| == n && CodeProdTo(AllMax(n), AllMax(n), n) >= U32;
    }
  }

  /** The four-term expansion the symmetric dot evaluates, after `n` components. */
  function Expansion(pa: SqParams, pb: SqParams, prod: real, sa: real, sb: real, n: real): real {
    pa.scale * pb.scale * prod + pa.scale * pb.offset * sa + pa.offset * pb.scale * sb + n * pa.offset * pb.offset
  }

  lemma {:induction false} SqDotCodesTo(a: seq<Byte>, pa: SqParams, b: seq<Byte>, pb: SqParams, n: nat)
    requires n <= |a| && n <= |b|
    ensures Expansion(pa, pb, CodeProdTo(a, b, n) as real, CodeSumTo(a, n), CodeSumTo(b, n), n as real)
         == DotTo(SqDecode(a, pa), SqDecode(b, pb), n)
  {
    hide *;
    if n == 0 {
      EmptyExpansion(a, pa, b, pb);
    } else {
      SqDotCodesTo(a, pa, b, pb, n - 1);
      var x, y := a[n - 1] as real, b[n - 1] as real;
      CodeSumsStep(a, b, n);
      ExpansionStep(pa, pb, CodeProdTo(a, b, n - 1) as real, CodeSumTo(a, n - 1), CodeSumTo(b, n - 1),
                    (n - 1) as real, x, y);
      assert (n - 1) as real + 1.0 == n as real;
      DecodedDotStep(a, pa, b, pb, n);
      assert CodeProdTo(a, b, n) as real == CodeProdTo(a, b, n - 1) as real + x * y;
      assert Expansion(pa, pb, CodeProdTo(a, b, n) as real, CodeSumTo(a, n), CodeSumTo(b, n), n as real)
          == Expansion(pa, pb, CodeProdTo(a, b, n - 1) as real + x * y, CodeSumTo(a, n - 1) + x,
                       CodeSumTo(b, n - 1) + y, (n - 1) as real + 1.0);
      assert Expansion(pa, pb, CodeProdTo(a, b, n) as real, CodeSumTo(a, n), CodeSumTo(b, n), n as real)
          == Expansion(pa, pb, CodeProdTo(a, b, n - 1) as real, CodeSumTo(a, n - 1), CodeSumTo(b, n - 1), (n - 1) as real)
             + (x * pa.scale + pa.offset) * (y * pb.scale + pb.offset);
    }
  }

  lemma EmptyExpansion(a: seq<Byte>, pa: SqParams, b: seq<Byte>, pb: SqParams)
    ensures Expansion(pa, pb, CodeProdTo(a, b, 0) as real, CodeSumTo(a, 0), CodeSumTo(b, 0), 0.0) == 0.0
    ensures DotTo(SqDecode(a, pa), SqDecode(b, pb), 0) == 0.0
  {
  }

  lemma CodeSumsStep(a: seq<Byte>, b: seq<Byte>, n: nat)
    requires 0 < n <= |a| && n <= |b|
    ensures CodeProdTo(a, b, n) as real == CodeProdTo(a, b, n - 1) as real + a[n - 1] as real * b[n - 1] as real
    ensures CodeSumTo(a, n) == CodeSumTo(a, n - 1) + a[n - 1] as real
    ensures CodeSumTo(b, n) == CodeSumTo(b, n - 1) + b[n - 1] as real
  {
    ProductAsReal(a[n - 1] as nat, b[n - 1] as nat);
  }

  lemma DecodedDotStep(a: seq<Byte>, pa: SqParams, b: seq<Byte>, pb: SqParams, n: nat)
    requires 0 < n <= |a| && n <= |b|
    ensures DotTo(SqDecode(a, pa), SqDecode(b, pb), n)
         == DotTo(SqDecode(a, pa), SqDecode(b, pb), n - 1)
            + (a[n - 1] as real * pa.scale + pa.offset) * (b[n - 1] as real * pb.scale + pb.offset)
  {
    hide *;
    DotToStep(SqDecode(a, pa), SqDecode(b, pb), n);
    SqDecodeAt(a, pa, n - 1);
    SqDecodeAt(b, pb, n - 1);
  }

  lemma DotToStep(a: Vec, b: Vec, n: nat)
    requires 0 < n <= |a| && n <= |b|
    ensures DotTo(a, b, n) == DotTo(a, b, n - 1) + a[n - 1] * b[n - 1]
  {
  }

  lemma SqDecodeAt(codes: seq<Byte>, p: SqParams, i: nat)
    requires i < |codes|
    ensures SqDecode(codes, p)[i] == codes[i] as real * p.scale + p.offset
  {
  }

  lemma ProductAsReal(x: nat, y: nat)
    requires x < 256 && y < 256
    ensures (x * y) as real == x as real * y as real
  {
  }

  lemma ExpansionStep(pa: SqParams, pb: SqParams, prod: real, sa: real, sb: real, n: real, x: real, y: real)
    ensures Expansion(pa, pb, prod + x * y, sa + x, sb + y, n + 1.0)
         == Expansion(pa, pb, prod, sa, sb, n) + (x * pa.scale + pa.offset) * (y * pb.scale + pb.offset)
  {
    Expand(pa.scale, pa.offset, pb.scale, pb.offset, x, y);
    DistributeReal(pa.scale * pb.scale, prod, x * y);
    DistributeReal(pa.scale * pb.offset, sa, x);
    DistributeReal(pa.offset * pb.scale, sb, y);
    assert (n + 1.0) * pa.offset * pb.offset == n * pa.offset * pb.offset + pa.offset * pb.offset;
  }

  lemma DistributeReal(a: real, b: real, c: real)
    ensures a * (b + c) == a * b + a * c
  {
  }

  lemma Expand(s: real, o: real, t: real, p: real, x: real, y: real)
    ensures (x * s + o) * (y * t + p) == s * t * (x * y) + s * p * x + o * t * y + o * p
  {
    var u := y * t + p;
    assert (x * s + o) * u == x * s * u + o * u;
    assert x * s * u == x * s * (y * t) + x * s * p;
    assert o * u == o * (y * t) + o * p;
  }

  lemma ParamsSum(v: Vec)
    ensures SqParamsOf(v).codeSum == CodeSum(SqCodes(v))
  {
  }

  lemma SqDotCodesIsExpansion(a: seq<Byte>, pa: SqParams, b: seq<Byte>, pb: SqParams)
    requires |a| == |b| && CodeProdTo(a, b, |a|) < U32
    requires pa.codeSum == CodeSum(a) && pb.codeSum == CodeSum(b)
    ensures SqDotCodes(a, pa, b, pb)
         == Expansion(pa, pb, CodeProdTo(a, b, |a|) as real, CodeSum(a), CodeSum(b), |a| as real)
  {
    hide CodeProdTo, CodeSum;
    assert CodeProdTo(a, b, |a|) % U32 == CodeProdTo(a, b, |a|);
  }

  /** Up to 66051 dims the symmetric SQ8 dot is exactly the dot of the two decoded vectors. */
  lemma SqDotCodesExact(v: Vec, w: Vec)
    requires |v| == |w| <= MAX_DIMS
    ensures SqDotCodes(SqCodes(v), SqParamsOf(v), SqCodes(w), SqParamsOf(w))
         == Dot(SqDecode(SqCodes(v), SqParamsOf(v)), SqDecode(SqCodes(w), SqParamsOf(w)))
  {
    hide SqCodes, SqParamsOf, Expansion;
    var a, b, pa, pb := SqCodes(v), SqCodes(w), SqParamsOf(v), SqParamsOf(w);
    ParamsSum(v);
    ParamsSum(w);
    CodeProdBound(a, b, |a|);
    SqDotCodesTo(a, pa, b, pb, |a|);
    SqDotCodesIsExpansion(a, pa, b, pb);
  }

  // ---- binary quantization ------------------------------------------------------

  function BqBytes(dim: nat): nat { (dim + 7) / 8 }

  /** A packed byte as its eight bits, least significant first: `1 << i` is index `i`. */
  type Packed = b: seq<bool> | |b| == 8 witness [false, false, false, false, false, false, false, false]

  const ZERO: Packed := [false, false, false, false, false, false, false, false]

  /** Whether component `i` of packed sign bits is positive: bit `i % 8` of byte `i / 8`. */
  predicate Positive(bits: seq<Packed>, i: nat)
    requires i / 8 < |bits|
  {
    bits[i / 8][i % 8]
  }

  /** `bits` packs the signs of `v`, one bit per component, with zero padding. */
  ghost predicate PacksSigns(v: Vec, bits: seq<Packed>) {
    && |bits| == BqBytes(|v|)
    && forall i: nat :: i < 8 * |bits| ==> (Positive(bits, i) <==> i < |v| && v[i] > 0.0)
  }

  method BqEncodeInto(v: Vec, bits: seq<Packed>) returns (bits': seq<Packed>)
    ensures |bits'| == |bits| + BqBytes(|v|)
    ensures bits'[..|bits|] == bits && PacksSigns(v, bits'[|bits|..])
  {
    var tail: seq<Packed> := seq(BqBytes(|v|), _ => ZERO);
    for i := 0 to |v|
      invariant |tail| == BqBytes(|v|)
      invariant forall j: nat :: j < 8 * |tail| ==> (Positive(tail, j) <==> j < i && v[j] > 0.0)
    {
      if v[i] > 0.0 {
        ghost var before := tail;
        tail := tail[i / 8 := tail[i / 8][i % 8 := true]];
        forall j: nat | j < 8 * |tail| ensures Positive(tail, j) <==> j < i + 1 && v[j] > 0.0 {
          assert Positive(before, j) <==> j < i && v[j] > 0.0;
        }
      }
    }
    bits' := bits + tail;
    assert bits'[|bits|..] == tail;
  }

  function Sign(positive: bool): real { if positive then 1.0 else -1.0 }

  /** The vector of `±1` signs that packed bits stand for. */
  function Signs(bits: seq<Packed>, dim: nat): (v: Vec)
    requires dim <= 8 * |bits|
    ensures |v| == dim
  {
    seq(dim, i requires 0 <= i < dim => Sign(Positive(bits, i)))
  }

  method BqDotQuery(bits: seq<Packed>, q: Vec) returns (r: real)
    requires |q| <= 8 * |bits|
    ensures r == Dot(Signs(bits, |q|), q)
  {
    var s := Signs(bits, |q|);
    r := 0.0;
    for i := 0 to |q|
      invariant r == DotTo(s, q, i)
    {
      assert s[i] == Sign(Positive(bits, i));
      r := r + (if Positive(bits, i) then q[i] else -q[i]);
    }
  }

  /** `count_ones(x ^ y)`: the positions where the two bytes differ. */
  function XorOnes(x: Packed, y: Packed, n: nat): nat
    requires n <= 8
  {
    if n == 0 then 0 else XorOnes(x, y, n - 1) + if x[n - 1] != y[n - 1] then 1 else 0
  }

  function HammingTo(a: seq<Packed>, b: seq<Packed>, n: nat): nat
    requires n <= |a| && n <= |b|
  {
    if n == 0 then 0 else HammingTo(a, b, n - 1) + XorOnes(a[n - 1], b[n - 1], 8)
  }

  function BqDotCodes(a: seq<Packed>, b: seq<Packed>, dim: nat): real {
    dim as real - 2.0 * HammingTo(a, b, Min(|a|, |b|)) as real
  }

  /** How many of the first `n` packed components differ in sign. */
  function DifferTo(a: seq<Packed>, b: seq<Packed>, n: nat): nat
    requires n <= 8 * |a| && n <= 8 * |b|
  {
    if n == 0 then 0
    else DifferTo(a, b, n - 1) + if Positive(a, n - 1) != Positive(b, n - 1) then 1 else 0
  }

  lemma {:induction false} HammingIsDiffer(a: seq<Packed>, b: seq<Packed>, n: nat)
    requires n <= |a| && n <= |b|
    ensures HammingTo(a, b, n) == DifferTo(a, b, 8 * n)
  {
    if n > 0 {
      HammingIsDiffer(a, b, n - 1);
      ByteDiffers(a, b, n - 1, 8);
    }
  }

  lemma {:induction false} ByteDiffers(a: seq<Packed>, b: seq<Packed>, k: nat, j: nat)
    requires k < |a| && k < |b| && j <= 8
    ensures DifferTo(a, b, 8 * k + j) == DifferTo(a, b, 8 * k) + XorOnes(a[k], b[k], j)
  {
    if j > 0 { ByteDiffers(a, b, k, j - 1); }
  }

  lemma {:induction false} DifferPadding(a: seq<Packed>, b: seq<Packed>, dim: nat, n: nat)
    requires dim <= n <= 8 * |a| && n <= 8 * |b|
    requires forall i: nat :: dim <= i < n ==> Positive(a, i) == Positive(b, i)
    ensures DifferTo(a, b, n) == DifferTo(a, b, dim)
    decreases n
  {
    if dim < n { DifferPadding(a, b, dim, n - 1); }
  }

  lemma {:induction false} SignDot(a: seq<Packed>, b: seq<Packed>, dim: nat, n: nat)
    requires n <= dim <= 8 * |a| && dim <= 8 * |b|
    ensures DotTo(Signs(a, dim), Signs(b, dim), n) == n as real - 2.0 * DifferTo(a, b, n) as real
  {
    if n > 0 { SignDot(a, b, dim, n - 1); }
  }

  /** `D - 2 * popcount(a ^ b)` is the signed sum over the two packed vectors; padding never counts. */
  lemma BqDotCodesExact(v: Vec, a: seq<Packed>, w: Vec, b: seq<Packed>)
    requires |v| == |w| && PacksSigns(v, a) && PacksSigns(w, b)
    ensures BqDotCodes(a, b, |v|) == Dot(Signs(a, |v|), Signs(b, |v|))
  {
    HammingIsDiffer(a, b, |a|);
    DifferPadding(a, b, |v|, 8 * |a|);
    SignDot(a, b, |v|, |v|);
  }

  // ---- product quantization -----------------------------------------------------

  datatype Codebook = Codebook(m: nat, k: nat, subDim: nat, centroids: Vec) {
    ghost predicate Valid() {
      && 0 < k <= 256
      && |centroids| == m * k * subDim
    }

    lemma CentroidInRange(s: nat, code: nat)
      requires Valid() && s < m && code < k
      ensures 0 <= (s * k + code) * subDim <= (s * k + code) * subDim + subDim <= |centroids|
    {
      SlotInRange(s, m, k);
      SlotInRange(s * k + code, m * k, subDim);
    }

    function Centroid(s: nat, code: nat): (c: Vec)
      requires Valid() && s < m && code < k
      ensures |c| == subDim
    {
      CentroidInRange(s, code);
      var base := (s * k + code) * subDim;
      centroids[base..base + subDim]
    }
  }

  function DistTo(a: Vec, b: Vec, n: nat): real
    requires n <= |a| && n <= |b|
  {
    if n == 0 then 0.0 else DistTo(a, b, n - 1) + (a[n - 1] - b[n - 1]) * (a[n - 1] - b[n - 1])
  }

  /** Squared Euclidean distance over the common length. */
  function L2Sq(a: Vec, b: Vec): real { DistTo(a, b, Min(|a|, |b|)) }

  /** Squared distance through dots: `|a|^2 - 2 a.b + |b|^2`. */
  lemma {:induction false} DistIsDots(a: Vec, b: Vec, n: nat)
    requires n <= |a| && n <= |b|
    ensures DistTo(a, b, n) == DotTo(a, a, n) - 2.0 * DotTo(a, b, n) + DotTo(b, b, n)
  {
    if n > 0 {
      DistIsDots(a, b, n - 1);
      Squared(a[n - 1], b[n - 1]);
    }
  }

  lemma Squared(x: real, y: real)
    ensures (x - y) * (x - y) == x * x - 2.0 * (x * y) + y * y
  {
  }

  /** The lowest-indexed centroid of subspace `s` nearest to `sub`. */
  ghost predicate IsNearest(cb: Codebook, s: nat, sub: Vec, code: nat)
    requires cb.Valid() && s < cb.m
  {
    && code < cb.k
    && (forall c: nat :: c < cb.k ==> L2Sq(sub, cb.Centroid(s, code)) <= L2Sq(sub, cb.Centroid(s, c)))
    && (forall c: nat :: c < code ==> L2Sq(sub, cb.Centroid(s, code)) < L2Sq(sub, cb.Centroid(s, c)))
  }

  method Nearest(cb: Codebook, s: nat, sub: Vec) returns (code: Byte)
    requires cb.Valid() && s < cb.m
    ensures IsNearest(cb, s, sub, code as nat)
  {
    var best := 0;
    var bestD := L2Sq(sub, cb.Centroid(s, 0));
    for c := 1 to cb.k
      invariant best < c && bestD == L2Sq(sub, cb.Centroid(s, best))
      invariant forall e: nat :: e < c ==> bestD <= L2Sq(sub, cb.Centroid(s, e))
      invariant forall e: nat :: e < best ==> bestD < L2Sq(sub, cb.Centroid(s, e))
    {
      var d := L2Sq(sub, cb.Centroid(s, c));
      if d < bestD {
        bestD := d;
        best := c;
      }
    }
    code := best as Byte;
  }

  /** Component block `s` of a vector split into blocks of `sub`. */
  function Block(v: Vec, sub: nat, s: nat): Vec
    requires s * sub + sub <= |v|
  {
    v[s * sub..s * sub + sub]
  }

  lemma BlockInRange(m: nat, sub: nat, s: nat)
    requires s < m
    ensures s * sub + sub <= m * sub
  {
    SlotInRange(s, m, sub);
  }

  /** `codes` is the PQ code of `v`: block by block, the nearest centroid. */
  ghost predicate PqCodeOf(v: Vec, cb: Codebook, codes: seq<Byte>)
    requires cb.Valid() && |v| == cb.m * cb.subDim
  {
    && |codes| == cb.m
    && forall s: nat :: s < cb.m ==> (BlockInRange(cb.m, cb.subDim, s); IsNearest(cb, s, Block(v, cb.subDim, s), codes[s] as nat))
  }

  method PqEncodeInto(v: Vec, cb: Codebook, codes: seq<Byte>) returns (codes': seq<Byte>)
    requires cb.Valid() && |v| == cb.m * cb.subDim
    ensures |codes'| == |codes| + cb.m && codes'[..|codes|] == codes
    ensures PqCodeOf(v, cb, codes'[|codes|..])
  {
    var own: seq<Byte> := [];
    for s := 0 to cb.m
      invariant |own| == s
      invariant forall t: nat :: t < s ==>
                  (BlockInRange(cb.m, cb.subDim, t); IsNearest(cb, t, Block(v, cb.subDim, t), own[t] as nat))
    {
      BlockInRange(cb.m, cb.subDim, s);
      var code := Nearest(cb, s, Block(v, cb.subDim, s));
      own := own + [code];
    }
    codes' := codes + own;
    assert codes'[|codes|..] == own;
  }

  /** Codes that a codebook can look up. */
  ghost predicate CodesFit(codes: seq<Byte>, cb: Codebook) {
    |codes| == cb.m && forall s :: 0 <= s < |codes| ==> codes[s] as nat < cb.k
  }

  function PqDecodeTo(codes: seq<Byte>, cb: Codebook, n: nat): (v: Vec)
    requires cb.Valid() && CodesFit(codes, cb) && n <= cb.m
    ensures |v| == n * cb.subDim
  {
    if n == 0 then []
    else
      assert n * cb.subDim == (n - 1) * cb.subDim + cb.subDim;
      PqDecodeTo(codes, cb, n - 1) + cb.Centroid(n - 1, codes[n - 1] as nat)
  }

  function PqDecode(codes: seq<Byte>, cb: Codebook): Vec
    requires cb.Valid() && CodesFit(codes, cb)
  {
    PqDecodeTo(codes, cb, cb.m)
  }

  lemma BlockBefore(a: Vec, c: Vec, sub: nat, s: nat)
    requires s * sub + sub <= |a|
    ensures |a + c| == |a| + |c| && Block(a + c, sub, s) == Block(a, sub, s)
  {
  }

  lemma BlockLast(a: Vec, c: Vec, sub: nat, s: nat)
    requires |a| == s * sub && |c| == sub
    ensures |a + c| == s * sub + sub && Block(a + c, sub, s) == c
  {
  }

  /** Block `s` of the decoded vector is the centroid its code names. */
  lemma {:induction false} PqDecodeAt(codes: seq<Byte>, cb: Codebook, n: nat, s: nat)
    requires cb.Valid() && CodesFit(codes, cb) && s < n <= cb.m
    ensures s * cb.subDim + cb.subDim <= n * cb.subDim
    ensures Block(PqDecodeTo(codes, cb, n), cb.subDim, s) == cb.Centroid(s, codes[s] as nat)
  {
    hide Block;
    BlockInRange(n, cb.subDim, s);
    var c := cb.Centroid(n - 1, codes[n - 1] as nat);
    if s < n - 1 {
      PqDecodeAt(codes, cb, n - 1, s);
      BlockBefore(PqDecodeTo(codes, cb, n - 1), c, cb.subDim, s);
    } else {
      BlockLast(PqDecodeTo(codes, cb, n - 1), c, cb.subDim, s);
    }
  }

  method PqDotQuery(codes: seq<Byte>, cb: Codebook, q: Vec) returns (r: real)
    requires cb.Valid() && CodesFit(codes, cb) && |q| == cb.m * cb.subDim
    ensures r == Dot(PqDecode(codes, cb), q)
  {
    r := 0.0;
    for s := 0 to cb.m
      invariant s * cb.subDim <= |q|
      invariant r == Dot(PqDecodeTo(codes, cb, s), q[..s * cb.subDim])
    {
      BlockInRange(cb.m, cb.subDim, s);
      var qsub := Block(q, cb.subDim, s);
      var cent := cb.Centroid(s, codes[s] as nat);
      DotConcat(PqDecodeTo(codes, cb, s), q[..s * cb.subDim], cent, qsub);
      assert (s + 1) * cb.subDim == s * cb.subDim + cb.subDim;
      assert q[..s * cb.subDim] + qsub == q[..(s + 1) * cb.subDim];
      r := r + Dot(cent, qsub);
    }
    assert q[..cb.m * cb.subDim] == q;
  }

  method PqDotCodes(a: seq<Byte>, b: seq<Byte>, cb: Codebook) returns (r: real)
    requires cb.Valid() && CodesFit(a, cb) && CodesFit(b, cb)
    ensures r == Dot(PqDecode(a, cb), PqDecode(b, cb))
  {
    r := 0.0;
    for s := 0 to cb.m
      invariant r == Dot(PqDecodeTo(a, cb, s), PqDecodeTo(b, cb, s))
    {
      var ca, cbv := cb.Centroid(s, a[s] as nat), cb.Centroid(s, b[s] as nat);
      DotConcat(PqDecodeTo(a, cb, s), PqDecodeTo(b, cb, s), ca, cbv);
      r := r + Dot(ca, cbv);
    }
  }
}
