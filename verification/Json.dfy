/**
 * JSON values as the estate holds them, and their equality.
 */
module Json {
  import opened Arith
  import opened Wrappers
  import opened ByteStrings
  import opened Sortable

  // A number is an unsigned 64-bit integer, a negative 64-bit one, or a finite float; the three never
  // equal one another, and floats compare by value. Strings are bytes.

  type U64 = n: nat | n < TWO64

  /** The magnitude of a negative 64-bit integer. */
  type NegMag = n: nat | 0 < n <= SIGN witness 1

  type Finite = f: F64 | Mag(f) < INF

  datatype Num = Unsigned(n: U64) | Negative(mag: NegMag) | Float(f: Finite)

  datatype Value =
    | Null
    | Flag(b: bool)
    | Number(n: Num)
    | Str(s: Bytes)
    | Array(items: seq<Value>)
    | Object(fields: map<Bytes, Value>)

  // ---- equality ----------------------------------------------------------------------------

  /** IEEE equality of finite floats. */
  predicate FloatEq(x: Finite, y: Finite) { Val(x) == Val(y) }

  predicate NumEq(a: Num, b: Num) {
    if a.Float? && b.Float? then FloatEq(a.f, b.f) else a == b
  }

  predicate JsonEq(v: Value, w: Value)
    decreases w
  {
    match (v, w)
    case (Number(a), Number(b)) => NumEq(a, b)
    case (Array(xs), Array(ys)) => |xs| == |ys| && forall i :: 0 <= i < |xs| ==> JsonEq(xs[i], ys[i])
    case (Object(xs), Object(ys)) => xs.Keys == ys.Keys && forall k :: k in ys ==> k in xs && JsonEq(xs[k], ys[k])
    case _ => v == w
  }

  /** The two zeros are the only floats that are equal and not the same. */
  lemma FloatEqIff(x: Finite, y: Finite)
    ensures FloatEq(x, y) <==> x == y || (Mag(x) == 0 && Mag(y) == 0)
  {
    hide Val;
    MappedOrder(x, y);
  }

  // ---- integers as floats ----------------------------------------------------------------

  /** The place of the leading bit. */
  function Log2(n: nat): (e: nat)
    requires n > 0
    ensures Pow2(e) <= n < Pow2(e + 1)
  {
    if n == 1 then 0 else
      assert n == n / 2 * 2 + n % 2;
      Log2(n / 2) + 1
  }

  lemma {:induction false} Pow2Mono(a: nat, b: nat)
    requires a <= b
    ensures Pow2(a) <= Pow2(b)
  {
    if a < b { Pow2Mono(a, b - 1); }
  }

  lemma {:induction false} Pow2Add(a: nat, b: nat)
    ensures Pow2(a + b) == Times(Pow2(a), Pow2(b))
    decreases b
  {
    if b > 0 {
      Pow2Add(a, b - 1);
      var x, y := Pow2(a), Pow2(b - 1);
      assert Times(x, 2 * y) == 2 * Times(x, y);
    }
  }

  function Quotient(s: nat, p: nat): nat
    requires p > 0
  {
    s / p
  }

  /** A quotient to nearest, ties to even, from its parts. */
  function ToNearest(q: nat, r: int, p: nat): nat {
    if 2 * r > p || (2 * r == p && q % 2 == 1) then q + 1 else q
  }

  /** `n` in units of `2^shift`, to nearest, ties to even. */
  function Rounded(n: nat, shift: nat): nat {
    ToNearest(Quotient(n, Pow2(shift)), n % Pow2(shift), Pow2(shift))
  }

  lemma NearestStep(n: nat, p: nat)
    requires p > 0
    ensures -(p as int) <= 2 * (Times(ToNearest(Quotient(n, p), n % p, p), p) - n) <= p
  {
    var q := Quotient(n, p);
    DivMod(n, p);
    assert n == q * p + n % p by { Split(n, p); }
    Distribute(q, 1, p);
    assert Times(q, p) == q * p && Times(q + 1, p) == (q + 1) * p;
  }

  lemma Split(n: nat, p: nat)
    requires p > 0
    ensures n == Quotient(n, p) * p + n % p && 0 <= n % p < p
  {
  }

  /** The 53-bit significand of a positive integer. */
  function SignificandOf(n: nat): nat
    requires n > 0
  {
    var e := Log2(n);
    if e <= 52 then Times(n, Pow2(52 - e)) else Rounded(n, e - 52)
  }

  lemma FiftyTwo()
    ensures Pow2(52) == HIDDEN_BIT && Pow2(53) == 2 * HIDDEN_BIT && Pow2(63) == SIGN && Pow2(64) == TWO64
  {
    assert Pow2(10) == 1024 && Pow2(20) == 0x10_0000 && Pow2(30) == 0x4000_0000 && Pow2(40) == 0x100_0000_0000;
    assert Pow2(50) == 0x4_0000_0000_0000;
  }

  lemma SignificandRange(n: nat)
    requires n > 0
    ensures HIDDEN_BIT <= SignificandOf(n) <= 2 * HIDDEN_BIT
    ensures Log2(n) <= 52 ==> SignificandOf(n) < 2 * HIDDEN_BIT
  {
    hide Log2, Rounded, Quotient, Pow2, Times;
    var e := Log2(n);
    FiftyTwo();
    if e <= 52 {
      Pow2Add(e, 52 - e);
      Pow2Add(e + 1, 52 - e);
      Bracket(n, Pow2(e), Pow2(e + 1), Pow2(52 - e));
    } else {
      Pow2Add(e - 52, 52);
      Pow2Add(e - 52, 53);
      Quotients(n, Pow2(e - 52), HIDDEN_BIT);
      RoundedIs(n, e - 52);
    }
  }

  lemma RoundedIs(n: nat, shift: nat)
    ensures var q := Quotient(n, Pow2(shift)); Rounded(n, shift) == q || Rounded(n, shift) == q + 1
  {
    hide Pow2, Quotient;
  }

  lemma Bracket(n: nat, lo: nat, hi: nat, p: nat)
    requires lo <= n < hi && p > 0
    ensures Times(lo, p) <= Times(n, p) < Times(hi, p)
  {
    MulMono(lo, n, p);
    MulMono(n + 1, hi, p);
    Distribute(n, 1, p);
  }

  lemma Quotients(n: nat, p: nat, h: nat)
    requires p > 0 && Times(p, h) <= n < Times(p, 2 * h)
    ensures h <= Quotient(n, p) < 2 * h
  {
    DivMod(n, p);
    var q := Quotient(n, p);
    if q < h {
      MulMono(q + 1, h, p);
      Distribute(q, 1, p);
      assert false;
    }
    if q >= 2 * h {
      MulMono(2 * h, q, p);
      assert false;
    }
  }

  /** `n as f64`. */
  function FloatOf(n: U64): (f: Finite)
    ensures f < SIGN
    ensures n > 0 ==> f == (1022 + Log2(n)) * HIDDEN_BIT + SignificandOf(n)
  {
    if n == 0 then POS_ZERO
    else
      LogBound(n);
      SignificandRange(n);
      (1022 + Log2(n)) * HIDDEN_BIT + SignificandOf(n)
  }

  lemma LogBound(n: U64)
    requires n > 0
    ensures Log2(n) <= 63
  {
    hide Log2;
    FiftyTwo();
    if Log2(n) >= 64 {
      Pow2Mono(64, Log2(n));
    }
  }

  /** `Number::as_f64`. */
  function AsF64(n: Num): Finite {
    match n
    case Unsigned(n) => FloatOf(n)
    case Negative(mag) => Negated(FloatOf(mag))
    case Float(f) => f
  }

  function Negated(f: Finite): (g: Finite)
    requires f < SIGN
    ensures g == SIGN + f && Mag(g) == f
  {
    var g: F64 := SIGN + f;
    assert Mag(f) == f && Mag(g) == f;
    g
  }

  /** The integer a conversion stands for: the nearest with 53 significant bits, ties to even. */
  function Nearby(n: nat): nat
    requires n > 0
  {
    if Log2(n) <= 52 then n else Times(Rounded(n, Log2(n) - 52), Pow2(Log2(n) - 52))
  }

  /** The least subnormal, inverted. */
  function Unit(): (u: nat)
    ensures u > 0
  {
    Pow2(1074)
  }

  /** A converted integer has the value of its nearest 53-bit neighbour, at most half a step away. */
  lemma FloatOfValue(n: U64)
    requires n > 0
    ensures Val(FloatOf(n)) == Times(Nearby(n), Unit())
    ensures n < Pow2(53) ==> Nearby(n) == n
    ensures Log2(n) > 52 ==> var p: int := Pow2(Log2(n) - 52); -p <= 2 * (Nearby(n) - n) <= p
  {
    hide Log2, Rounded, FloatOf, Pow2, Times, Scaled, Unit, SignificandOf;
    SignificandRange(n);
    ScaledFields(1022 + Log2(n), SignificandOf(n));
    assert Val(FloatOf(n)) == Scaled(FloatOf(n));
    NearbyValue(n);
    if Log2(n) > 52 {
      HalfStep(n, Log2(n) - 52);
      Pow2Mono(53, Log2(n));
    }
  }

  lemma NearbyValue(n: nat)
    requires n > 0
    ensures Times(SignificandOf(n), Pow2(1022 + Log2(n))) == Times(Nearby(n), Unit())
  {
    hide Log2, Rounded, Pow2, Times, Unit;
    var e := Log2(n);
    if e <= 52 {
      UnitSplit(52 - e, 1022 + e);
      TimesAssoc(n, Pow2(52 - e), Pow2(1022 + e));
    } else {
      UnitShift(e - 52, 1022 + e);
      TimesAssoc(Rounded(n, e - 52), Pow2(e - 52), Unit());
    }
  }

  lemma UnitSplit(a: nat, b: nat)
    requires a + b == 1074
    ensures Times(Pow2(a), Pow2(b)) == Unit()
  {
    hide Pow2, Times;
    Pow2Add(a, b);
  }

  lemma UnitShift(a: nat, b: nat)
    requires b == a + 1074
    ensures Times(Pow2(a), Unit()) == Pow2(b)
  {
    hide Pow2, Times;
    Pow2Add(a, 1074);
  }

  lemma TimesAssoc(a: nat, b: nat, c: nat)
    ensures Times(Times(a, b), c) == Times(a, Times(b, c))
  {
  }

  lemma HalfStep(n: nat, shift: nat)
    ensures var p: int := Pow2(shift); -p <= 2 * (Times(Rounded(n, shift), p) - n) <= p
  {
    NearestStep(n, Pow2(shift));
  }

  /** A pattern's value is its significand at its exponent, also when the significand carries. */
  lemma ScaledFields(k: nat, s: nat)
    requires HIDDEN_BIT <= s <= 2 * HIDDEN_BIT
    ensures Scaled(k * HIDDEN_BIT + s) == Times(s, Pow2(k))
  {
    hide Pow2, Times, Scaled;
    if s == 2 * HIDDEN_BIT {
      ScaledAt(k + 2, 0);
      NextPow2(k);
      CarriedTimes(HIDDEN_BIT, Pow2(k));
    } else {
      ScaledAt(k + 1, s - HIDDEN_BIT);
    }
  }

  lemma ScaledAt(e: nat, m: nat)
    requires e > 0 && m < HIDDEN_BIT
    ensures Scaled(e * HIDDEN_BIT + m) == Times(Significand(m), Pow2(e - 1))
  {
    hide Pow2, Times;
    assert (e * HIDDEN_BIT + m) / HIDDEN_BIT == e && (e * HIDDEN_BIT + m) % HIDDEN_BIT == m;
  }

  lemma NextPow2(k: nat)
    ensures Pow2(k + 1) == 2 * Pow2(k)
  {
  }

  lemma CarriedTimes(h: nat, p: nat)
    ensures Times(2 * h, p) == Times(h, 2 * p)
  {
  }

  // ---- points ---------------------------------------------------------------------------------

  function RealOf(f: Finite): real { Val(f) as real / Unit() as real }

  const LAT: Bytes := [108, 97, 116]
  const LON: Bytes := [108, 111, 110]

  /** `value.get(key)?.as_f64()?` */
  function Coordinate(v: Value, key: Bytes): Option<real> {
    if v.Object? && key in v.fields && v.fields[key].Number? then Some(RealOf(AsF64(v.fields[key].n))) else None
  }

  /** `point_of`: the `{lat, lon}` point a value denotes, if both are numbers in range. */
  function PointOf(v: Value): Option<(real, real)> {
    var lat :- Coordinate(v, LAT);
    var lon :- Coordinate(v, LON);
    if -90.0 <= lat <= 90.0 && -180.0 <= lon <= 180.0 then Some((lat, lon)) else None
  }

  // ---- which floats integers convert to -------------------------------------------------------

  /** Whether a magnitude between 1 and infinity has no fraction: its bits below the point are zero. */
  predicate NoFraction(mag: nat) {
    var e, m := mag / HIDDEN_BIT, mag % HIDDEN_BIT;
    e >= 1075 || (e >= 1023 && Significand(m) % Pow2(1075 - e) == 0)
  }

  const TWO63_BITS: nat := 1086 * 0x10_0000_0000_0000
  const TWO64_BITS: nat := 1087 * 0x10_0000_0000_0000

  /** Zero, or a whole value from -2^63 up to 2^64: checked on the bits. The negative zero is not counted. */
  predicate Whole(f: Finite) {
    || f == POS_ZERO
    || (NoFraction(Mag(f)) && Mag(f) <= if f < SIGN then TWO64_BITS else TWO63_BITS)
  }

  lemma {:induction false} LogUnique(n: nat, e: nat)
    requires n > 0 && Pow2(e) <= n < Pow2(e + 1)
    ensures Log2(n) == e
  {
    hide Log2;
    if Log2(n) < e { Pow2Mono(Log2(n) + 1, e); }
    if Log2(n) > e { Pow2Mono(e + 1, Log2(n)); }
  }

  /** A positive integer converts to a whole value of at most 2^64, at most 2^63 when it is no larger itself. */
  lemma FloatOfWhole(n: U64)
    requires n > 0
    ensures NoFraction(FloatOf(n)) && FloatOf(n) <= TWO64_BITS
    ensures n <= SIGN ==> FloatOf(n) <= TWO63_BITS
  {
    hide Log2, Rounded, FloatOf;
    var e, s := Log2(n), SignificandOf(n);
    LogBound(n);
    SignificandRange(n);
    if e <= 52 {
      Fields(1022 + e, s);
      ModOfProduct(n, Pow2(52 - e));
    } else {
      Fields(1022 + e, s);
    }
    if n <= SIGN {
      FiftyTwo();
      SmallLog(n);
    }
  }

  lemma SmallLog(n: nat)
    requires 0 < n <= Pow2(63)
    ensures Log2(n) <= 62 || n == Pow2(63)
    ensures n == Pow2(63) ==> Log2(n) == 63 && SignificandOf(n) == HIDDEN_BIT
  {
    hide Log2;
    if Log2(n) >= 63 { Pow2Mono(63, Log2(n)); }
    if n == Pow2(63) {
      Pow2Mono(63, 64);
      assert Pow2(64) == 2 * Pow2(63);
      LogUnique(n, 63);
      FiftyTwo();
      Pow2Add(11, 52);
      assert Pow2(11) == 2048;
    }
  }

  lemma ModOfProduct(n: nat, p: nat)
    requires p > 0
    ensures Times(n, p) % p == 0
  {
    QuotientOfProduct(n, p);
    DivMod(Times(n, p), p);
  }

  /** The exponent and fraction fields of a pattern with a given significand. */
  lemma Fields(k: nat, s: nat)
    requires HIDDEN_BIT <= s <= 2 * HIDDEN_BIT
    ensures var mag := k * HIDDEN_BIT + s;
            && (s < 2 * HIDDEN_BIT ==> mag / HIDDEN_BIT == k + 1 && mag % HIDDEN_BIT == s - HIDDEN_BIT)
            && (s == 2 * HIDDEN_BIT ==> mag / HIDDEN_BIT == k + 2 && mag % HIDDEN_BIT == 0)
  {
  }

  /** The integer with these exponent and significand fields. */
  function FieldsInteger(e: nat, s: nat): nat
    requires 1023 <= e
  {
    if e >= 1075 then Times(s, Pow2(e - 1075)) else Quotient(s, Pow2(1075 - e))
  }

  /** The integer a whole magnitude up to 2^64 is converted from. */
  function IntegerOf(mag: nat): nat
    requires NoFraction(mag)
  {
    var e, s := mag / HIDDEN_BIT, Significand(mag % HIDDEN_BIT);
    if mag >= TWO64_BITS then TWO64 - 1 else FieldsInteger(e, s)
  }

  /** Every whole magnitude up to 2^64 is an integer's, and one up to 2^63 is a no larger integer's. */
  lemma WholeConverts(mag: nat)
    requires NoFraction(mag) && mag <= TWO64_BITS
    ensures var n := IntegerOf(mag); 0 < n < TWO64 && FloatOf(n) == mag && (mag <= TWO63_BITS ==> n <= SIGN)
  {
    if mag == TWO64_BITS {
      LargestConverts();
    } else {
      var e, s := mag / HIDDEN_BIT, Significand(mag % HIDDEN_BIT);
      assert mag == (e - 1) * HIDDEN_BIT + s && HIDDEN_BIT <= s < 2 * HIDDEN_BIT && 1023 <= e <= 1086;
      assert e < 1075 ==> s % Pow2(1075 - e) == 0;
      WholeFields(e, s);
    }
  }

  lemma WholeFields(e: nat, s: nat)
    requires 1023 <= e <= 1086 && HIDDEN_BIT <= s < 2 * HIDDEN_BIT
    requires e < 1075 ==> s % Pow2(1075 - e) == 0
    ensures var n := FieldsInteger(e, s);
            && 0 < n < TWO64 && FloatOf(n) == (e - 1) * HIDDEN_BIT + s
            && ((e - 1) * HIDDEN_BIT + s <= TWO63_BITS ==> n <= SIGN)
  {
    hide Log2, FloatOf, SignificandOf, Rounded, Pow2, Times;
    var n := FieldsInteger(e, s);
    if e >= 1075 {
      WideConverts(e, s);
    } else {
      NarrowConverts(e, s);
    }
    InRange(e - 1023, n);
    LogUnique(n, e - 1023);
    if (e - 1) * HIDDEN_BIT + s <= TWO63_BITS {
      TopOfRange(e, s, n);
    }
  }

  lemma InRange(e: int, n: nat)
    requires 0 <= e <= 63 && Pow2(e) <= n < Pow2(e + 1)
    ensures 0 < n < TWO64
  {
    FiftyTwo();
    Pow2Mono(e + 1, 64);
  }

  /** Exponents up to 52: nothing is rounded. */
  lemma NarrowConverts(e: nat, s: nat)
    requires 1023 <= e <= 1075 && HIDDEN_BIT <= s < 2 * HIDDEN_BIT && s % Pow2(1075 - e) == 0
    ensures var n := s / Pow2(1075 - e); Pow2(e - 1023) <= n < Pow2(e - 1022) && SignificandOf(n) == s
  {
    hide Log2, Rounded;
    var p := Pow2(1075 - e);
    var n := s / p;
    FiftyTwo();
    DivMod(s, p);
    assert s == n * p;
    Pow2Add(e - 1023, 1075 - e);
    Pow2Add(e - 1022, 1075 - e);
    Unbracket(n, Pow2(e - 1023), Pow2(e - 1022), p);
    LogUnique(n, e - 1023);
  }

  lemma Unbracket(n: nat, lo: nat, hi: nat, p: nat)
    requires p > 0 && Times(lo, p) <= n * p < Times(hi, p)
    ensures lo <= n < hi
  {
    if n < lo {
      MulMono(n + 1, lo, p);
      Distribute(n, 1, p);
      assert false;
    }
    if n >= hi {
      MulMono(hi, n, p);
      assert false;
    }
  }

  /** Exponents of 52 and up: the low bits are zero, so rounding is exact. */
  lemma WideConverts(e: nat, s: nat)
    requires 1075 <= e <= 1086 && HIDDEN_BIT <= s < 2 * HIDDEN_BIT
    ensures var n := Times(s, Pow2(e - 1075)); Pow2(e - 1023) <= n < Pow2(e - 1022) && SignificandOf(n) == s
  {
    hide Log2;
    var p := Pow2(e - 1075);
    var n := Times(s, p);
    FiftyTwo();
    Pow2Add(52, e - 1075);
    Pow2Add(53, e - 1075);
    Bracket(s, HIDDEN_BIT, 2 * HIDDEN_BIT, p);
    LogUnique(n, e - 1023);
    if e == 1075 {
      assert p == 1 && n == s;
    } else {
      QuotientOfProduct(s, p);
      ModOfProduct(s, p);
    }
  }

  lemma LargestConverts()
    ensures FloatOf(TWO64 - 1) == TWO64_BITS
  {
    hide Log2;
    FiftyTwo();
    LogUnique(TWO64 - 1, 63);
    assert Pow2(11) == 2048;
    assert SignificandOf(TWO64 - 1) == 2 * HIDDEN_BIT;
  }

  lemma TopOfRange(e: nat, s: nat, n: nat)
    requires 1023 <= e <= 1086 && HIDDEN_BIT <= s < 2 * HIDDEN_BIT && (e - 1) * HIDDEN_BIT + s <= TWO63_BITS
    requires Pow2(e - 1023) <= n < Pow2(e - 1022)
    requires e == 1086 ==> n == Times(s, Pow2(11))
    ensures n <= SIGN
  {
    FiftyTwo();
    if e <= 1085 {
      Pow2Mono(e - 1022, 63);
    } else {
      assert s == HIDDEN_BIT;
      assert Pow2(11) == 2048;
    }
  }

  /** A float is some integer's conversion exactly when it is whole and in range. */
  lemma IntegerConvertsIff(f: Finite)
    ensures (exists n: Num :: !n.Float? && AsF64(n) == f) <==> Whole(f)
  {
    hide FloatOf, NoFraction;
    forall n: Num | !n.Float? && AsF64(n) == f ensures Whole(f) {
      match n {
        case Unsigned(m) => if m > 0 { FloatOfWhole(m); } else { ZeroFloat(); }
        case Negative(m) => FloatOfWhole(m);
      }
    }
    if Whole(f) {
      var n := WholeInteger(f);
    }
  }

  lemma ZeroFloat()
    ensures FloatOf(0) == POS_ZERO
  {
  }

  lemma WholeInteger(f: Finite) returns (n: Num)
    requires Whole(f)
    ensures !n.Float? && AsF64(n) == f
  {
    hide FloatOf, NoFraction;
    if f == POS_ZERO {
      ZeroFloat();
      n := Unsigned(0);
    } else {
      WholeConverts(Mag(f));
      n := if f < SIGN then Unsigned(IntegerOf(f)) else Negative(IntegerOf(Mag(f)));
    }
  }
}
