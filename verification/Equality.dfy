/**
 * Equality conditions: index keys against JSON equality.
 */
module Equality {
  import opened Wrappers
  import opened ByteStrings
  import opened Sortable
  import opened Json
  import opened Uuids
  import opened PayloadKeys
  import opened Filters
  import Calendar
  import Geo

  // ---- what equal keys amount to --------------------------------------------------------------

  /** Two strings that denote one instant, or one UUID, or are the same text. */
  predicate SameText(lx: Lexer, s: Bytes, t: Bytes) {
    if lx.epoch(s).Some? || lx.epoch(t).Some? then lx.epoch(s) == lx.epoch(t)
    else if lx.uuid(s).Some? || lx.uuid(t).Some? then lx.uuid(s) == lx.uuid(t)
    else s == t
  }

  /** Values keyed by point or text. */
  predicate Plain(v: Value) { v.Null? || v.Array? || v.Object? }

  predicate SamePlain(lx: Lexer, v: Value, w: Value) {
    var p, q := PointOf(v), PointOf(w);
    if p.Some? && q.Some? then Geo.Morton(p.value.0, p.value.1) == Geo.Morton(q.value.0, q.value.1)
    else p.None? && q.None? && lx.json(v) == lx.json(w)
  }

  predicate SameKey(lx: Lexer, v: Value, w: Value) {
    || (v.Number? && w.Number? && AsF64(v.n) == AsF64(w.n))
    || (v.Str? && w.Str? && SameText(lx, v.s, w.s))
    || (v.Flag? && v == w)
    || (Plain(v) && Plain(w) && SamePlain(lx, v, w))
  }

  lemma TailsDiffer(tag: Byte, a: Bytes, b: Bytes)
    ensures [tag] + a == [tag] + b <==> a == b
  {
    assert ([tag] + a)[1..] == a && ([tag] + b)[1..] == b;
  }

  lemma SameCell(p: (real, real), q: (real, real))
    ensures Be(Geo.Morton(p.0, p.1), 8) == Be(Geo.Morton(q.0, q.1), 8) <==> Geo.Morton(p.0, p.1) == Geo.Morton(q.0, q.1)
  {
    Geo.MortonBound(p.0, p.1);
    Geo.MortonBound(q.0, q.1);
    EightBytes();
    BeInverse(Geo.Morton(p.0, p.1), 8);
    BeInverse(Geo.Morton(q.0, q.1), 8);
  }

  function TagOf(lx: Lexer, v: Value): Byte {
    match v
    case Number(_) => NUM
    case Flag(_) => BOOL
    case Str(s) => if lx.epoch(s).Some? then DT else if lx.uuid(s).Some? then UUID else STR
    case _ => if PointOf(v).Some? then GEO else OTHER
  }

  lemma Tagged(lx: Lexer, v: Value)
    ensures Encoded(lx, v)[0] == TagOf(lx, v)
    ensures Encoded(lx, v) == [TagOf(lx, v)] + Encoded(lx, v)[1..]
  {
    hide Geo.Morton, Be, EncodeF64, EncodeI64, AsF64, RealOf;
  }

  lemma TextKeys(lx: Lexer, s: Bytes, t: Bytes)
    ensures Encoded(lx, Str(s)) == Encoded(lx, Str(t)) <==> SameText(lx, s, t)
  {
    hide EncodeI64;
    var a, b := Encoded(lx, Str(s)), Encoded(lx, Str(t));
    Tagged(lx, Str(s));
    Tagged(lx, Str(t));
    assert a[1..] == if lx.epoch(s).Some? then EncodeI64(lx.epoch(s).value)
                     else if lx.uuid(s).Some? then lx.uuid(s).value else s;
    assert b[1..] == if lx.epoch(t).Some? then EncodeI64(lx.epoch(t).value)
                     else if lx.uuid(t).Some? then lx.uuid(t).value else t;
    if lx.epoch(s).Some? && lx.epoch(t).Some? {
      IntDecodeInverse(lx.epoch(s).value);
      IntDecodeInverse(lx.epoch(t).value);
    }
  }

  lemma PlainKeys(lx: Lexer, v: Value, w: Value)
    requires Plain(v) && Plain(w)
    ensures Encoded(lx, v) == Encoded(lx, w) <==> SamePlain(lx, v, w)
  {
    hide Geo.Morton, Be, RealOf;
    var p, q := PointOf(v), PointOf(w);
    Tagged(lx, v);
    Tagged(lx, w);
    if p.Some? && q.Some? {
      SameCell(p.value, q.value);
      TailsDiffer(GEO, Be(Geo.Morton(p.value.0, p.value.1), 8), Be(Geo.Morton(q.value.0, q.value.1), 8));
    } else {
      TailsDiffer(OTHER, lx.json(v), lx.json(w));
    }
  }

  /** Two values share an index key exactly when they convert to one float, denote one instant or one UUID, are one
      text or one flag, lie in one grid cell, or print as one JSON text. */
  lemma EncodedEqIff(lx: Lexer, v: Value, w: Value)
    ensures Encoded(lx, v) == Encoded(lx, w) <==> SameKey(lx, v, w)
  {
    hide Encoded, AsF64, SamePlain, SameText, PointOf;
    Tagged(lx, v);
    Tagged(lx, w);
    if v.Number? && w.Number? {
      NumberKeys(lx, v, w);
    } else if v.Str? && w.Str? {
      TextKeys(lx, v.s, w.s);
    } else if Plain(v) && Plain(w) {
      PlainKeys(lx, v, w);
    } else if v.Flag? && w.Flag? {
      FlagKeys(lx, v, w);
    }
  }

  lemma NumberKeys(lx: Lexer, v: Value, w: Value)
    requires v.Number? && w.Number?
    ensures Encoded(lx, v) == Encoded(lx, w) <==> AsF64(v.n) == AsF64(w.n)
  {
    hide EncodeF64, AsF64;
    DecodeInverse(AsF64(v.n));
    DecodeInverse(AsF64(w.n));
    TailsDiffer(NUM, EncodeF64(AsF64(v.n)), EncodeF64(AsF64(w.n)));
  }

  lemma FlagKeys(lx: Lexer, v: Value, w: Value)
    requires v.Flag? && w.Flag?
    ensures Encoded(lx, v) == Encoded(lx, w) <==> v == w
  {
    assert Encoded(lx, v)[1] == (if v.b then 1 else 0) && Encoded(lx, w)[1] == (if w.b then 1 else 0);
  }

  // ---- JSON equality ----------------------------------------------------------------------------

  /** A float zero somewhere inside: the two zeros are equal and print differently. */
  predicate HasZero(w: Value) {
    match w
    case Number(n) => n.Float? && Mag(n.f) == 0
    case Array(items) => exists i :: 0 <= i < |items| && HasZero(items[i])
    case Object(fields) => exists k :: k in fields && HasZero(fields[k])
    case _ => false
  }

  lemma {:induction false} JsonRefl(w: Value)
    ensures JsonEq(w, w)
    decreases w
  {
    hide Val;
    match w {
      case Array(items) => forall i | 0 <= i < |items| { JsonRefl(items[i]); }
      case Object(fields) => forall k | k in fields { JsonRefl(fields[k]); }
      case _ =>
    }
  }

  /** Without a zero inside, equal values are the same value. */
  lemma {:induction false} EqIsSame(v: Value, w: Value)
    requires !HasZero(w)
    ensures JsonEq(v, w) <==> v == w
    decreases w
  {
    hide Val, FloatEq;
    JsonRefl(w);
    if JsonEq(v, w) {
      if v.Number? && w.Number? {
        if v.n.Float? && w.n.Float? { FloatEqIff(v.n.f, w.n.f); }
      } else if v.Array? && w.Array? {
        forall i | 0 <= i < |v.items| ensures v.items[i] == w.items[i] { EqIsSame(v.items[i], w.items[i]); }
      } else if v.Object? && w.Object? {
        forall k | k in w.fields ensures v.fields[k] == w.fields[k] { EqIsSame(v.fields[k], w.fields[k]); }
      }
    }
  }

  function OtherZero(f: Finite): Finite { if f == POS_ZERO then NEG_ZERO else POS_ZERO }

  /** With one, another value is equal: the same with that zero's sign changed. */
  lemma {:induction false} Flipped(w: Value) returns (v: Value)
    requires HasZero(w)
    ensures JsonEq(v, w) && v != w
    decreases w
  {
    match w {
      case Number(n) =>
        v := Number(Float(OtherZero(n.f)));
        FloatEqIff(OtherZero(n.f), n.f);
      case Array(items) =>
        var i :| 0 <= i < |items| && HasZero(items[i]);
        var x := Flipped(items[i]);
        v := Array(items[i := x]);
        assert v.items[i] != items[i];
        forall j | 0 <= j < |items| ensures JsonEq(v.items[j], items[j]) { JsonRefl(items[j]); }
      case Object(fields) =>
        var k :| k in fields && HasZero(fields[k]);
        var x := Flipped(fields[k]);
        v := Object(fields[k := x]);
        assert v.fields[k] != fields[k];
        forall j | j in fields ensures JsonEq(v.fields[j], fields[j]) { JsonRefl(fields[j]); }
    }
  }

  // ---- when equality by key is JSON equality ------------------------------------------------------

  function InstantOf(s: Bytes): Option<I64> {
    Calendar.ParseBound(s);
    match Calendar.Parse(s)
    case Some(ms) => Some(ms)
    case None => None
  }

  /** The source's parsers, and a printer that prints different values differently. */
  ghost predicate Genuine(lx: Lexer) {
    && (forall s :: lx.epoch(s) == InstantOf(s))
    && (forall s :: lx.uuid(s) == ParseUuid(s))
    && (forall v, w :: lx.json(v) == lx.json(w) ==> v == w)
  }

  /**
   * Query values an equality condition is exact for: a float that has a fraction or is out of the integers' range, a
   * string that is no date-time and no UUID with a hex letter, null, a flag, and an array or object that is no point
   * and holds no float zero.
   */
  predicate Sharp(w: Value) {
    match w
    case Number(n) => n.Float? && Mag(n.f) != 0 && !Whole(n.f)
    case Str(s) => Calendar.Parse(s).None? && !(ParseUuid(s).Some? && HasLetter(s))
    case Array(_) => !HasZero(w)
    case Object(_) => PointOf(w).None? && !HasZero(w)
    case _ => true
  }

  lemma SharpNumber(v: Value, w: Value)
    requires w.Number? && v.Number? && Sharp(w)
    ensures AsF64(v.n) == AsF64(w.n) <==> JsonEq(v, w)
  {
    hide Whole, Val, FloatOf;
    IntegerConvertsIff(w.n.f);
    if v.n.Float? {
      FloatEqIff(v.n.f, w.n.f);
    } else {
      assert AsF64(v.n) != w.n.f;
    }
  }

  lemma SharpText(lx: Lexer, s: Bytes, t: Bytes)
    requires Genuine(lx) && Calendar.Parse(s).None? && !(ParseUuid(s).Some? && HasLetter(s))
    ensures SameText(lx, t, s) <==> t == s
  {
    hide Calendar.Parse, ParseUuid, HasLetter;
    if SameText(lx, t, s) && ParseUuid(s).Some? {
      OneSpelling(s, t);
    }
  }

  /** A sharp value shares its key with the values equal to it, and with no others. */
  lemma SharpIsExact(lx: Lexer, v: Value, w: Value)
    requires Genuine(lx) && Sharp(w)
    ensures SameKey(lx, v, w) <==> JsonEq(v, w)
  {
    hide SameText, AsF64, PointOf, Calendar.Parse, ParseUuid, HasLetter, HasZero, Whole;
    if v.Number? && w.Number? {
      SharpNumber(v, w);
    } else if v.Str? && w.Str? {
      SharpText(lx, w.s, v.s);
    } else if Plain(w) {
      PlainSharp(w);
      EqIsSame(v, w);
    }
  }

  lemma PlainSharp(w: Value)
    requires Plain(w) && Sharp(w)
    ensures PointOf(w).None? && !HasZero(w)
  {
  }

  /** A value that is not sharp has another JSON value that shares its key and differs, or is equal and does not. */
  lemma BluntIsNot(lx: Lexer, w: Value) returns (v: Value)
    requires Genuine(lx) && !Sharp(w)
    ensures SameKey(lx, v, w) != JsonEq(v, w)
  {
    match w {
      case Number(n) => v := OtherNumber(n);
      case Str(s) => var t := OtherText(lx, s); v := Str(t);
      case Array(_) => v := Flipped(w);
      case Object(fields) =>
        if PointOf(w).Some? {
          v := SamePointMore(fields);
        } else {
          v := Flipped(w);
        }
    }
  }

  lemma OtherNumber(n: Num) returns (v: Value)
    requires !Sharp(Number(n))
    ensures v.Number? && (AsF64(v.n) == AsF64(n)) != JsonEq(v, Number(n))
  {
    hide Whole, Val, FloatOf;
    if !n.Float? {
      v := Number(Float(AsF64(n)));
    } else if Mag(n.f) == 0 {
      v := Number(Float(OtherZero(n.f)));
      FloatEqIff(OtherZero(n.f), n.f);
    } else {
      var i := WholeInteger(n.f);
      v := Number(i);
    }
  }

  lemma OtherText(lx: Lexer, s: Bytes) returns (t: Bytes)
    requires Genuine(lx) && !Sharp(Str(s))
    ensures t != s && SameText(lx, t, s)
  {
    hide Calendar.Parse, ParseUuid, OtherCase;
    if Calendar.Parse(s).Some? {
      t := Calendar.OtherSeparator(s);
    } else {
      var i :| 0 <= i < |s| && Letter(s[i]);
      TwoSpellings(s, i);
      t := s[i := OtherCase(s[i])];
      NoInstant(s, t);
    }
  }

  /** A UUID is never a date-time: the fifth character of one is a hex digit, of the other a dash. */
  lemma NoInstant(s: Bytes, t: Bytes)
    requires ParseUuid(t).Some?
    ensures Calendar.Parse(t).None?
  {
    assert Nibble(t[Place(4)]).Some?;
  }

  lemma {:induction false} LongName(names: set<Bytes>) returns (x: Bytes)
    ensures forall k :: k in names ==> |k| < |x|
    decreases |names|
  {
    if names == {} {
      x := [97];
    } else {
      var k :| k in names;
      var y := LongName(names - {k});
      x := y + k + [97];
    }
  }

  /** One more field leaves a point where it is. */
  lemma SamePointMore(fields: map<Bytes, Value>) returns (v: Value)
    requires PointOf(Object(fields)).Some?
    ensures v.Object? && PointOf(v) == PointOf(Object(fields)) && !JsonEq(v, Object(fields))
  {
    hide RealOf;
    var x := LongName(fields.Keys);
    assert x !in fields && LAT in fields && LON in fields;
    v := Object(fields[x := Null]);
    assert x in v.fields.Keys && x !in fields.Keys;
  }

  /** An equality condition takes by key exactly the values JSON-equal to its own just when its own is sharp. */
  lemma EqExactIff(env: Env, key: Bytes, w: Value)
    requires Genuine(env.lx)
    ensures (forall v :: ValueMatches(env, Eq(key, w), v) <==> JsonEq(v, w)) <==> Sharp(w)
  {
    hide Encoded, Sharp, JsonEq, SameKey, Genuine;
    forall v ensures ValueMatches(env, Eq(key, w), v) <==> SameKey(env.lx, v, w) {
      EncodedEqIff(env.lx, v, w);
    }
    if Sharp(w) {
      forall v ensures ValueMatches(env, Eq(key, w), v) <==> JsonEq(v, w) {
        SharpIsExact(env.lx, v, w);
      }
    } else {
      var v := BluntIsNot(env.lx, w);
    }
  }

  // ---- filters by JSON equality ---------------------------------------------------------------------

  /** `Condition::matches`. */
  predicate JsonMatches(env: Env, c: Condition, m: Meta) {
    c.key in m &&
    match c
    case Eq(key, value) => JsonEq(m[key], value)
    case Any(key, values) => exists i :: 0 <= i < |values| && JsonEq(m[key], values[i])
    case _ => ValueMatches(env, c, m[c.key])
  }

  /** `Filter::matches`. */
  predicate FilterJson(env: Env, f: Filter, m: Meta) {
    && (forall c :: c in f.must ==> JsonMatches(env, c, m))
    && (f.should != [] ==> exists c :: c in f.should && JsonMatches(env, c, m))
    && (forall c :: c in f.mustNot ==> !JsonMatches(env, c, m))
  }

  predicate SharpCondition(c: Condition) {
    && (c.Eq? ==> Sharp(c.value))
    && (c.Any? ==> forall i :: 0 <= i < |c.values| ==> Sharp(c.values[i]))
  }

  /** Every value the filter compares for equality is sharp. */
  ghost predicate SharpFilter(f: Filter) {
    forall c :: c in f.must || c in f.should || c in f.mustNot ==> SharpCondition(c)
  }

  lemma SharpMatches(env: Env, c: Condition, m: Meta)
    requires Genuine(env.lx) && SharpCondition(c)
    ensures JsonMatches(env, c, m) == Matches(env, c, m)
  {
    hide Encoded, Sharp, JsonEq, SameKey, Genuine, Filters.InRange, Dated;
    if c.key in m {
      var v := m[c.key];
      match c {
        case Eq(_, w) =>
          EncodedEqIff(env.lx, v, w);
          SharpIsExact(env.lx, v, w);
        case Any(_, values) =>
          forall i | 0 <= i < |values| ensures JsonEq(v, values[i]) <==> Encoded(env.lx, v) == Encoded(env.lx, values[i]) {
            EncodedEqIff(env.lx, v, values[i]);
            SharpIsExact(env.lx, v, values[i]);
          }
        case _ =>
      }
    }
  }

  /** Over sharp values, meaning by key is the source's direct evaluation. */
  lemma SharpFilterMatches(env: Env, f: Filter, m: Meta)
    requires Genuine(env.lx) && SharpFilter(f)
    ensures FilterJson(env, f, m) == FilterMatches(env, f, m)
  {
    hide Matches, JsonMatches, Genuine, SharpCondition;
    forall c | c in f.must || c in f.should || c in f.mustNot ensures JsonMatches(env, c, m) == Matches(env, c, m) {
      SharpMatches(env, c, m);
    }
    assert (exists c :: c in f.should && JsonMatches(env, c, m)) <==> (exists c :: c in f.should && Matches(env, c, m)) by {
      if c :| c in f.should && JsonMatches(env, c, m) { assert Matches(env, c, m); }
      if c :| c in f.should && Matches(env, c, m) { assert JsonMatches(env, c, m); }
    }
  }
}
