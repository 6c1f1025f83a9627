/**
 * The Z-order code of a point.
 */
module Geo {
  import opened Arith

  // Two quantized coordinates with their bits interleaved. Monotone in both arguments at once, so
  // one code range covers every point of a box.

  const GEO_BITS: nat := 26
  const GRID: nat := 67_108_863 // 2^26 - 1

  function Pow4(n: nat): (p: nat)
    ensures p > 0
  {
    if n == 0 then 1 else 4 * Pow4(n - 1)
  }

  function Low(a: nat, n: nat): nat { a % Pow2(n) }

  function Bit(a: nat, i: nat): (d: nat)
    ensures d < 2
  {
    (a / Pow2(i)) % 2
  }

  /** The two bits a code holds at position `i`. */
  function Pair(a: nat, b: nat, i: nat): (d: nat)
    ensures d <= 3
  {
    Bit(a, i) + 2 * Bit(b, i)
  }

  /** The interleaving of the low `n` bits of `a` (even positions) and `b` (odd positions), from the
      top pair of bits down. */
  function Interleaved(a: nat, b: nat, n: nat): nat
    decreases n
  {
    if n == 0 then 0
    else Times(Pair(a, b, n - 1), Pow4(n - 1)) + Interleaved(Low(a, n - 1), Low(b, n - 1), n - 1)
  }

  lemma ModOf(q: nat, r: nat, d: nat)
    requires r < d
    ensures (q * d + r) % d == r && (q * d + r) / d == q
  {
    var x := q * d + r;
    DivMod(x, d);
    var q' := x / d;
    if q' < q {
      MulMono(q' + 1, q, d);
      Distribute(q', 1, d);
      assert false;
    }
    if q < q' {
      MulMono(q + 1, q', d);
      Distribute(q, 1, d);
      assert false;
    }
  }

  /** Division by a doubled modulus, in terms of the modulus. */
  lemma ModHalves(a: nat, p: nat)
    requires p > 0
    ensures (a % (2 * p)) % p == a % p
    ensures (a % (2 * p)) / p == (a / p) % 2
    ensures a % (2 * p) == (if (a / p) % 2 == 1 then p else 0) + a % p
  {
    var q, r := a / p, a % p;
    DivMod(a, p);
    Remainder(a, p);
    HalvesOf(a, q / 2, q % 2, r, p);
  }

  lemma Remainder(a: nat, p: nat)
    requires p > 0
    ensures a == a / p * p + a % p && 0 <= a % p < p
  {
  }

  lemma HalvesOf(a: nat, h: nat, b: nat, r: nat, p: nat)
    requires b < 2 && r < p && a == (2 * h + b) * p + r
    ensures (a % (2 * p)) % p == r && (a % (2 * p)) / p == b
    ensures a % (2 * p) == (if b == 1 then p else 0) + r
  {
    var low := (if b == 1 then p else 0) + r;
    Halves(h, b, p);
    ModOf(h, low, 2 * p);
    if b == 1 {
      ModOf(1, r, p);
    } else {
      ModOf(0, r, p);
    }
  }

  lemma Halves(h: nat, b: nat, p: nat)
    requires b < 2
    ensures (2 * h + b) * p == h * (2 * p) + if b == 1 then p else 0
  {
    Distribute(2 * h, b, p);
  }

  lemma LowLow(a: nat, n: nat)
    ensures Low(Low(a, n + 1), n) == Low(a, n) && Bit(Low(a, n + 1), n) == Bit(a, n)
  {
    ModHalves(a, Pow2(n));
  }

  /** Higher bits compare before lower ones. */
  lemma SplitOrder(a: nat, b: nat, n: nat)
    requires a <= b < Pow2(n + 1)
    ensures Bit(a, n) <= Bit(b, n)
    ensures Bit(a, n) == Bit(b, n) ==> Low(a, n) <= Low(b, n)
    ensures Low(a, n) < Pow2(n) && Low(b, n) < Pow2(n)
  {
    var p := Pow2(n);
    ModHalves(a, p);
    ModHalves(b, p);
    Small(a, 2 * p);
    Small(b, 2 * p);
  }

  lemma Small(a: nat, d: nat)
    requires a < d
    ensures a % d == a
  {
    ModOf(0, a, d);
  }

  lemma TimesMono(a: nat, b: nat, c: nat)
    requires a < b
    ensures Times(a, c) + c <= Times(b, c)
  {
    SlotBefore(a, b, c);
  }

  /** One more pair of bits on top. */
  lemma InterleavedUp(a: nat, b: nat, n: nat)
    ensures Interleaved(Low(a, n + 1), Low(b, n + 1), n + 1)
            == Times(Pair(a, b, n), Pow4(n)) + Interleaved(Low(a, n), Low(b, n), n)
  {
    hide Low, Bit, Times, Pow4;
    LowLow(a, n);
    LowLow(b, n);
  }

  /** `interleave`: or each pair of bits into place, from the lowest up. */
  method Interleave(a: nat, b: nat) returns (out: nat)
    requires a <= GRID && b <= GRID
    ensures out == Interleaved(a, b, GEO_BITS)
  {
    hide Times, Pow4, Bit;
    assert Interleaved(Low(a, 0), Low(b, 0), 0) == 0;
    out := 0;
    for i := 0 to GEO_BITS
      invariant out == Interleaved(Low(a, i), Low(b, i), i)
    {
      InterleavedUp(a, b, i);
      out := out + Times(Bit(a, i) + 2 * Bit(b, i), Pow4(i));
    }
    GridBits();
    assert Low(a, GEO_BITS) == a && Low(b, GEO_BITS) == b by {
      Small(a, GRID + 1);
      Small(b, GRID + 1);
    }
  }

  lemma GridBits()
    ensures Pow2(GEO_BITS) == GRID + 1
  {
    assert Pow2(10) == 1024;
    assert Pow2(20) == 1_048_576;
  }

  lemma {:induction false} InterleavedBound(a: nat, b: nat, n: nat)
    ensures Interleaved(a, b, n) < Pow4(n)
    decreases n
  {
    if n != 0 {
      hide Low, Bit, Pair;
      InterleavedBound(Low(a, n - 1), Low(b, n - 1), n - 1);
      TimesMono(Pair(a, b, n - 1), 4, Pow4(n - 1));
      assert Times(4, Pow4(n - 1)) == Pow4(n);
    }
  }

  /** Growing either coordinate, or both, never shrinks the code. */
  lemma {:induction false} InterleavedMono(a: nat, b: nat, a': nat, b': nat, n: nat)
    requires a <= a' < Pow2(n) && b <= b' < Pow2(n)
    ensures Interleaved(a, b, n) <= Interleaved(a', b', n)
    decreases n
  {
    if n != 0 {
      hide Low, Bit, Times, Pow4, Pow2;
      SplitOrder(a, a', n - 1);
      SplitOrder(b, b', n - 1);
      var d, d' := Pair(a, b, n - 1), Pair(a', b', n - 1);
      if d == d' {
        InterleavedMono(Low(a, n - 1), Low(b, n - 1), Low(a', n - 1), Low(b', n - 1), n - 1);
      } else {
        InterleavedBound(Low(a, n - 1), Low(b, n - 1), n - 1);
        TimesMono(d, d', Pow4(n - 1));
      }
    }
  }

  // ---- points ------------------------------------------------------------------------

  function Clamp(t: real): real { if t < 0.0 then 0.0 else if t > 1.0 then 1.0 else t }

  function Quantize(x: real, lo: real, hi: real): (q: nat)
    requires lo < hi
    ensures q <= GRID
  {
    RoundBound(Clamp((x - lo) / (hi - lo)));
    Round(Clamp((x - lo) / (hi - lo)) * GRID as real)
  }

  lemma RoundBound(t: real)
    requires 0.0 <= t <= 1.0
    ensures 0 <= Round(t * GRID as real) <= GRID
  {
  }

  lemma DivMono(x: real, y: real, d: real)
    requires x <= y && d > 0.0
    ensures x / d <= y / d
  {
    assert (y - x) / d >= 0.0;
    assert y / d == x / d + (y - x) / d;
  }

  lemma QuantizeMono(x: real, y: real, lo: real, hi: real)
    requires lo < hi && x <= y
    ensures Quantize(x, lo, hi) <= Quantize(y, lo, hi)
  {
    DivMono(x - lo, y - lo, hi - lo);
  }

  function Morton(lat: real, lon: real): nat {
    Interleaved(Quantize(lat, -90.0, 90.0), Quantize(lon, -180.0, 180.0), GEO_BITS)
  }

  lemma MortonBound(lat: real, lon: real)
    ensures Morton(lat, lon) < 0x1_0000_0000_0000_0000
  {
    hide Interleaved;
    InterleavedBound(Quantize(lat, -90.0, 90.0), Quantize(lon, -180.0, 180.0), GEO_BITS);
    assert Pow4(10) == 1_048_576;
    assert Pow4(20) == 1_048_576 * 1_048_576;
  }

  predicate InBox(lat: real, lon: real, latMin: real, lonMin: real, latMax: real, lonMax: real) {
    latMin <= lat <= latMax && lonMin <= lon <= lonMax
  }

  /** The code range between a box's corners covers every point of the box. */
  lemma BoxCovered(lat: real, lon: real, latMin: real, lonMin: real, latMax: real, lonMax: real)
    requires InBox(lat, lon, latMin, lonMin, latMax, lonMax)
    ensures Morton(latMin, lonMin) <= Morton(lat, lon) <= Morton(latMax, lonMax)
  {
    hide Interleaved, Quantize;
    GridBits();
    QuantizeMono(latMin, lat, -90.0, 90.0);
    QuantizeMono(lat, latMax, -90.0, 90.0);
    QuantizeMono(lonMin, lon, -180.0, 180.0);
    QuantizeMono(lon, lonMax, -180.0, 180.0);
    InterleavedMono(Quantize(latMin, -90.0, 90.0), Quantize(lonMin, -180.0, 180.0),
                    Quantize(lat, -90.0, 90.0), Quantize(lon, -180.0, 180.0), GEO_BITS);
    InterleavedMono(Quantize(lat, -90.0, 90.0), Quantize(lon, -180.0, 180.0),
                    Quantize(latMax, -90.0, 90.0), Quantize(lonMax, -180.0, 180.0), GEO_BITS);
  }

  // ---- what a cell is ------------------------------------------------------------------

  /** A code determines the two numbers it interleaves. */
  lemma {:induction false} InterleavedInjective(a: nat, b: nat, a': nat, b': nat, n: nat)
    requires a < Pow2(n) && b < Pow2(n) && a' < Pow2(n) && b' < Pow2(n)
    requires Interleaved(a, b, n) == Interleaved(a', b', n)
    ensures a == a' && b == b'
    decreases n
  {
    if n != 0 {
      hide Low, Bit, Pair, Times, Pow2, Pow4, Interleaved;
      TopPair(a, b, n);
      TopPair(a', b', n);
      SplitAt(Pair(a, b, n - 1), Interleaved(Low(a, n - 1), Low(b, n - 1), n - 1),
              Pair(a', b', n - 1), Interleaved(Low(a', n - 1), Low(b', n - 1), n - 1), Pow4(n - 1));
      PairBits(a, b, a', b', n - 1);
      Joined(a, n - 1);
      Joined(b, n - 1);
      Joined(a', n - 1);
      Joined(b', n - 1);
      InterleavedInjective(Low(a, n - 1), Low(b, n - 1), Low(a', n - 1), Low(b', n - 1), n - 1);
    }
  }

  lemma PairBits(a: nat, b: nat, a': nat, b': nat, i: nat)
    requires Pair(a, b, i) == Pair(a', b', i)
    ensures Bit(a, i) == Bit(a', i) && Bit(b, i) == Bit(b', i)
  {
    hide Bit;
  }

  lemma TopPair(a: nat, b: nat, n: nat)
    requires n > 0
    ensures Interleaved(a, b, n)
            == Times(Pair(a, b, n - 1), Pow4(n - 1)) + Interleaved(Low(a, n - 1), Low(b, n - 1), n - 1)
    ensures Interleaved(Low(a, n - 1), Low(b, n - 1), n - 1) < Pow4(n - 1)
  {
    InterleavedBound(Low(a, n - 1), Low(b, n - 1), n - 1);
  }

  lemma SplitAt(d: nat, r: nat, d': nat, r': nat, p: nat)
    requires r < p && r' < p && Times(d, p) + r == Times(d', p) + r'
    ensures d == d' && r == r'
  {
    ModOf(d, r, p);
    ModOf(d', r', p);
  }

  lemma Joined(a: nat, n: nat)
    requires a < Pow2(n + 1)
    ensures a == (if Bit(a, n) == 1 then Pow2(n) else 0) + Low(a, n) && Low(a, n) < Pow2(n)
  {
    ModHalves(a, Pow2(n));
    Small(a, 2 * Pow2(n));
  }

  /** `x` on the scale from `lo` to `hi`, in grid steps. */
  function Steps(x: real, lo: real, hi: real): real
    requires lo < hi
  {
    (x - lo) / (hi - lo) * GRID as real
  }

  lemma UnitOver(w: real)
    requires w > 0.0
    ensures w / w == 1.0 && 0.0 / w == 0.0
  {
  }

  /** Where a coordinate is on its scale. */
  lemma Share(x: real, lo: real, hi: real)
    requires lo < hi
    ensures x <= lo ==> (x - lo) / (hi - lo) <= 0.0
    ensures x >= lo ==> (x - lo) / (hi - lo) >= 0.0
    ensures x <= hi ==> (x - lo) / (hi - lo) <= 1.0
    ensures x >= hi ==> (x - lo) / (hi - lo) >= 1.0
  {
    var w := hi - lo;
    UnitOver(w);
    if x <= lo {
      DivMono(x - lo, 0.0, w);
    }
    if x >= lo {
      DivMono(0.0, x - lo, w);
    }
    if x <= hi {
      DivMono(x - lo, w, w);
    }
    if x >= hi {
      DivMono(w, x - lo, w);
    }
  }

  /** A coordinate is within half a grid step of its cell; beyond the scale it takes the end cell. */
  lemma QuantizeClose(x: real, lo: real, hi: real)
    requires lo < hi
    ensures lo <= x <= hi ==> -0.5 <= Quantize(x, lo, hi) as real - Steps(x, lo, hi) <= 0.5
    ensures x <= lo ==> Quantize(x, lo, hi) == 0
    ensures x >= hi ==> Quantize(x, lo, hi) == 67_108_863
  {
    var t := (x - lo) / (hi - lo);
    Share(x, lo, hi);
    RoundClose(Clamp(t) * GRID as real);
    if x <= lo {
      assert Clamp(t) == 0.0;
    }
    if x >= hi {
      assert Clamp(t) == 1.0;
    }
  }

  lemma RoundClose(x: real)
    ensures -0.5 <= Round(x) as real - x <= 0.5
    ensures x == x.Floor as real ==> Round(x) == x.Floor
  {
  }

  /** Two points share a code exactly when they share both cells. */
  lemma SameCode(lat: real, lon: real, lat': real, lon': real)
    ensures Morton(lat, lon) == Morton(lat', lon')
            <==> Quantize(lat, -90.0, 90.0) == Quantize(lat', -90.0, 90.0)
                 && Quantize(lon, -180.0, 180.0) == Quantize(lon', -180.0, 180.0)
  {
    hide Interleaved, Quantize;
    GridBits();
    if Morton(lat, lon) == Morton(lat', lon') {
      InterleavedInjective(Quantize(lat, -90.0, 90.0), Quantize(lon, -180.0, 180.0),
                           Quantize(lat', -90.0, 90.0), Quantize(lon', -180.0, 180.0), GEO_BITS);
    }
  }

  predicate OnGlobe(lat: real, lon: real) { -90.0 <= lat <= 90.0 && -180.0 <= lon <= 180.0 }

  /** Points that share a code are at most one grid step apart each way. */
  lemma SameCodeIsNear(lat: real, lon: real, lat': real, lon': real)
    requires OnGlobe(lat, lon) && OnGlobe(lat', lon') && Morton(lat, lon) == Morton(lat', lon')
    ensures -1.0 <= Steps(lat, -90.0, 90.0) - Steps(lat', -90.0, 90.0) <= 1.0
    ensures -1.0 <= Steps(lon, -180.0, 180.0) - Steps(lon', -180.0, 180.0) <= 1.0
  {
    hide Morton, Quantize, Steps;
    SameCode(lat, lon, lat', lon');
    QuantizeClose(lat, -90.0, 90.0);
    QuantizeClose(lat', -90.0, 90.0);
    QuantizeClose(lon, -180.0, 180.0);
    QuantizeClose(lon', -180.0, 180.0);
  }
}
