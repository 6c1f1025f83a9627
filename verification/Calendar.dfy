/**
 * RFC 3339 instants.
 */
module Calendar {
  import opened Wrappers
  import opened ByteStrings

  // The days-from-civil formula agrees with walking the calendar day by day, and reading a
  // formatted date-time gives its milliseconds since the epoch.

  datatype Date = Date(year: int, month: int, day: int)

  predicate Leap(y: int) { y % 4 == 0 && (y % 100 != 0 || y % 400 == 0) }

  function DaysIn(y: int, m: int): int {
    if m == 2 then (if Leap(y) then 29 else 28)
    else if m == 4 || m == 6 || m == 9 || m == 11 then 30
    else 31
  }

  predicate Real(d: Date) { d.year >= 0 && 1 <= d.month <= 12 && 1 <= d.day <= DaysIn(d.year, d.month) }

  /** The next day. */
  function Next(d: Date): Date {
    if d.day < DaysIn(d.year, d.month) then d.(day := d.day + 1)
    else if d.month < 12 then Date(d.year, d.month + 1, 1)
    else Date(d.year + 1, 1, 1)
  }

  // ---- the formula -------------------------------------------------------------------

  /** Division that truncates toward zero. */
  function Quot(a: int, b: int): int
    requires b > 0
  {
    if a >= 0 then a / b else -((-a) / b)
  }

  function YearOf(y: int, m: int): int { if m <= 2 then y - 1 else y }

  /** Days before a March-based month, in its year. */
  function MonthStart(m: int): int { (153 * ((m + 9) % 12) + 2) / 5 }

  /** Days before a March-based year, from March of year zero of its era. */
  function YearStart(yoe: int): int { yoe * 365 + yoe / 4 - yoe / 100 }

  function Era(y: int): int { Quot(if y >= 0 then y else y - 399, 400) }

  /** `y_adj` to days, without the epoch shift. */
  function YearDays(y: int): int { Era(y) * 146_097 + YearStart(y - Era(y) * 400) }

  /** Days since 1970-01-01. */
  function DaysFromCivil(d: Date): int {
    YearDays(YearOf(d.year, d.month)) + MonthStart(d.month) + d.day - 1 - 719_468
  }

  lemma EraOf(y: int)
    requires y >= -1
    ensures 0 <= y - Era(y) * 400 < 400
    ensures y >= 0 ==> Era(y) == y / 400
    ensures y == -1 ==> Era(y) == -1
  {
  }

  lemma Mod4(e: int, x: int)
    ensures (e * 400 + x) % 4 == x % 4
  {
    assert e * 400 + x == 4 * (100 * e + x / 4) + x % 4;
  }

  lemma Mod100(e: int, x: int)
    ensures (e * 400 + x) % 100 == x % 100
  {
    assert e * 400 + x == 100 * (4 * e + x / 100) + x % 100;
  }

  lemma Mod400(e: int, x: int)
    ensures (e * 400 + x) % 400 == x % 400
  {
    assert e * 400 + x == 400 * (1 * e + x / 400) + x % 400;
  }

  lemma SameResidues(y: int)
    requires y >= -1
    ensures var yoe := y - Era(y) * 400;
            Leap(y + 1) <==> if yoe == 399 then true else Leap(yoe + 1)
  {
    EraOf(y);
    var e := Era(y);
    var yoe := y - e * 400;
    assert y + 1 == e * 400 + (yoe + 1);
    Mod4(e, yoe + 1);
    Mod100(e, yoe + 1);
    Mod400(e, yoe + 1);
  }

  /** A March-based year is 365 days, or 366 when the February that ends it is a leap month. */
  lemma YearStep(y: int)
    requires y >= -1
    ensures YearDays(y + 1) == YearDays(y) + 365 + if Leap(y + 1) then 1 else 0
  {
    hide Leap, YearStart;
    EraOf(y);
    EraOf(y + 1);
    SameResidues(y);
    var yoe := y - Era(y) * 400;
    if yoe < 399 {
      assert Era(y + 1) == Era(y);
      YearStartStep(yoe);
    } else {
      assert Era(y + 1) == Era(y) + 1;
      EraEnds();
    }
  }

  lemma EraEnds()
    ensures YearStart(399) == 146_097 - 366 && YearStart(0) == 0
  {
  }

  lemma YearStartStep(n: int)
    requires 0 <= n < 399
    ensures YearStart(n + 1) == YearStart(n) + 365 + if Leap(n + 1) then 1 else 0
  {
  }

  /** Months lengths are the steps of the month formula; February's end is the year's. */
  lemma MonthStep(y: int, m: int)
    requires 1 <= m <= 12 && m != 2
    ensures MonthStart(if m == 12 then 1 else m + 1) == MonthStart(m) + DaysIn(y, m)
  {
  }

  /** The formula steps by one as the calendar does, from the epoch. */
  lemma NextDay(d: Date)
    requires Real(d)
    ensures Real(Next(d)) && DaysFromCivil(Next(d)) == DaysFromCivil(d) + 1
  {
    hide YearDays, MonthStart;
    if d.day < DaysIn(d.year, d.month) {
    } else if d.month == 2 {
      YearStep(d.year - 1);
      FebruaryEnd();
    } else {
      MonthStep(d.year, d.month);
    }
  }

  lemma FebruaryEnd()
    ensures MonthStart(2) == 337 && MonthStart(3) == 0
  {
  }

  lemma Epoch()
    ensures DaysFromCivil(Date(1970, 1, 1)) == 0
  {
  }

  /** `n` days later. */
  function After(d: Date, n: nat): Date {
    if n == 0 then d else Next(After(d, n - 1))
  }

  /** The formula counts days: `n` calendar steps add `n`. */
  lemma {:induction false} CountsDays(d: Date, n: nat)
    requires Real(d)
    ensures Real(After(d, n)) && DaysFromCivil(After(d, n)) == DaysFromCivil(d) + n
  {
    if n != 0 {
      CountsDays(d, n - 1);
      NextDay(After(d, n - 1));
    }
  }

  predicate Earlier(a: Date, b: Date) {
    a.year < b.year || (a.year == b.year && (a.month < b.month || (a.month == b.month && a.day < b.day)))
  }

  /** Days of a month stay short of the next month's. */
  lemma WithinMonth(d: Date)
    requires Real(d)
    ensures DaysFromCivil(d.(day := 1)) <= DaysFromCivil(d) < DaysFromCivil(NextMonth(d))
  {
    NextDay(d.(day := DaysIn(d.year, d.month)));
  }

  function NextMonth(d: Date): Date {
    if d.month < 12 then Date(d.year, d.month + 1, 1) else Date(d.year + 1, 1, 1)
  }

  function Months(d: Date): int { 12 * d.year + d.month }

  lemma {:induction false} MonthsAscend(a: Date, b: Date)
    requires Real(a) && Real(b) && a.day == 1 && b.day == 1 && Months(a) < Months(b)
    ensures DaysFromCivil(NextMonth(a)) <= DaysFromCivil(b)
    decreases Months(b) - Months(a)
  {
    var n := NextMonth(a);
    if n != b {
      WithinMonth(n);
      MonthsAscend(n, b);
    }
  }

  /** Day numbers order as dates do: the encoding of real dates is strictly monotone, hence injective. */
  lemma DaysOrder(a: Date, b: Date)
    requires Real(a) && Real(b)
    ensures Earlier(a, b) <==> DaysFromCivil(a) < DaysFromCivil(b)
    ensures a == b <==> DaysFromCivil(a) == DaysFromCivil(b)
  {
    if Months(a) < Months(b) {
      EarlierMonth(a, b);
    } else if Months(b) < Months(a) {
      EarlierMonth(b, a);
    }
  }

  lemma EarlierMonth(a: Date, b: Date)
    requires Real(a) && Real(b) && Months(a) < Months(b)
    ensures DaysFromCivil(a) < DaysFromCivil(b)
  {
    hide DaysFromCivil;
    WithinMonth(a);
    WithinMonth(b);
    MonthsAscend(a.(day := 1), b.(day := 1));
  }

  /** A day past the month's end is not rejected: it is read as that many days into the next month. */
  lemma OverlongDay(d: Date)
    requires 1 <= d.month <= 12 && d.year >= 0 && DaysIn(d.year, d.month) < d.day <= 31
    ensures DaysFromCivil(d) == DaysFromCivil(NextMonth(d).(day := d.day - DaysIn(d.year, d.month)))
  {
    NextDay(d.(day := DaysIn(d.year, d.month)));
  }

  /** A date the parser accepts shares its day number with no other real date exactly when its month has that day. */
  lemma OverlongIff(d: Date)
    requires 1 <= d.month <= 12 && d.year >= 0 && 1 <= d.day <= 31
    ensures (forall e: Date :: Real(e) && DaysFromCivil(e) == DaysFromCivil(d) ==> e == d) <==> d.day <= DaysIn(d.year, d.month)
  {
    hide DaysFromCivil;
    if d.day <= DaysIn(d.year, d.month) {
      forall e: Date | Real(e) && DaysFromCivil(e) == DaysFromCivil(d) ensures e == d {
        DaysOrder(e, d);
      }
    } else {
      OverlongDay(d);
      var e := NextMonth(d).(day := d.day - DaysIn(d.year, d.month));
      assert Real(e) && e != d;
    }
  }

  // ---- the text ---------------------------------------------------------------------------

  predicate IsDigit(c: Byte) { 48 <= c <= 57 }

  function Value(c: Byte): int { c as int - 48 }

  /** The number in `s[i..i + n]`, if that is all digits. */
  function Num(s: Bytes, i: nat, n: nat): Option<int> {
    if n == 0 then (if i <= |s| then Some(0) else None)
    else
      var v :- Num(s, i, n - 1);
      if i + n <= |s| && IsDigit(s[i + n - 1]) then Some(10 * v + Value(s[i + n - 1])) else None
  }

  /** How many digits start at `i`. */
  function DigitRun(s: Bytes, i: nat): (n: nat)
    requires i <= |s|
    ensures i + n <= |s|
    decreases |s| - i
  {
    if i < |s| && IsDigit(s[i]) then 1 + DigitRun(s, i + 1) else 0
  }

  /** The first three fraction digits, padded with zeros. */
  function Millis(frac: Bytes): int {
    (if |frac| > 0 then 100 * Value(frac[0]) else 0) + (if |frac| > 1 then 10 * Value(frac[1]) else 0)
    + (if |frac| > 2 then Value(frac[2]) else 0)
  }

  const DASH: Byte := 45
  const COLON: Byte := 58
  const DOT: Byte := 46
  const PLUS: Byte := 43

  predicate DateSep(c: Byte) { c == 84 || c == 116 || c == 32 } // `T`, `t`, space

  predicate Zulu(c: Byte) { c == 90 || c == 122 }

  /** The offset in minutes that ends the text. */
  function OffsetAt(s: Bytes, i: nat): Option<int>
    requires i <= |s|
  {
    if i < |s| && Zulu(s[i]) && i + 1 == |s| then Some(0)
    else if i < |s| && (s[i] == PLUS || s[i] == DASH) && |s| == i + 6 && s[i + 3] == COLON then
      var oh :- Num(s, i + 1, 2);
      var om :- Num(s, i + 4, 2);
      if oh > 23 || om > 59 then None
      else Some(if s[i] == DASH then -(oh * 60 + om) else oh * 60 + om)
    else None
  }

  /** Milliseconds since the epoch of a civil time at an offset. */
  function EpochMs(d: Date, hour: int, minute: int, second: int, millis: int, offset: int): int {
    (DaysFromCivil(d) * 86_400 + hour * 3_600 + minute * 60 + second - offset * 60) * 1_000 + millis
  }

  /** Where the offset starts, and the milliseconds before it. */
  function Fraction(s: Bytes): Option<(nat, int)>
    requires |s| >= 20
  {
    if s[19] == DOT then
      var n := DigitRun(s, 20);
      if n == 0 then None else Some((20 + n, Millis(s[20..20 + n])))
    else Some((19, 0))
  }

  predicate Separated(s: Bytes)
    requires |s| >= 20
  {
    s[4] == DASH && s[7] == DASH && DateSep(s[10]) && s[13] == COLON && s[16] == COLON
  }

  predicate InClock(month: int, day: int, hour: int, minute: int, second: int) {
    1 <= month <= 12 && 1 <= day <= 31 && hour <= 23 && minute <= 59 && second <= 60
  }

  /** `rfc3339_to_epoch_ms`. */
  function Parse(s: Bytes): Option<int> {
    if |s| < 20 || !Separated(s) then None
    else
      var year :- Num(s, 0, 4);
      var month :- Num(s, 5, 2);
      var day :- Num(s, 8, 2);
      var hour :- Num(s, 11, 2);
      var minute :- Num(s, 14, 2);
      var second :- Num(s, 17, 2);
      if !InClock(month, day, hour, minute, second) then None
      else
        var (i, millis) :- Fraction(s);
        var offset :- OffsetAt(s, i);
        Some(EpochMs(Date(year, month, day), hour, minute, second, millis, offset))
  }

  function ToDigit(n: int): Byte
    requires 0 <= n < 10
  {
    (48 + n) as Byte
  }

  function Two(n: int): Bytes
    requires 0 <= n < 100
  {
    [ToDigit(n / 10), ToDigit(n % 10)]
  }

  function Four(n: int): Bytes
    requires 0 <= n < 10_000
  {
    Two(n / 100) + Two(n % 100)
  }

  /** A date-time as text: any fraction digits, `Z` or a signed offset. */
  datatype Stamp = Stamp(date: Date, sep: Byte, hour: int, minute: int, second: int, frac: Bytes, zone: Zone)

  datatype Zone = Utc | Ahead(oh: int, om: int) | Behind(oh: int, om: int)

  function ZoneMinutes(z: Zone): int {
    match z case Utc => 0 case Ahead(h, m) => h * 60 + m case Behind(h, m) => -(h * 60 + m)
  }

  predicate ZoneOk(z: Zone) { z.Utc? || (0 <= z.oh <= 23 && 0 <= z.om <= 59) }

  predicate StampOk(t: Stamp) {
    && 0 <= t.date.year < 10_000 && 1 <= t.date.month <= 12 && 1 <= t.date.day <= 31 && DateSep(t.sep)
    && 0 <= t.hour <= 23 && 0 <= t.minute <= 59 && 0 <= t.second <= 60
    && (forall i :: 0 <= i < |t.frac| ==> IsDigit(t.frac[i])) && ZoneOk(t.zone)
  }

  function ZoneText(z: Zone): Bytes
    requires ZoneOk(z)
  {
    match z
    case Utc => [90]
    case Ahead(h, m) => [PLUS] + Two(h) + [COLON] + Two(m)
    case Behind(h, m) => [DASH] + Two(h) + [COLON] + Two(m)
  }

  function ClockText(t: Stamp): Bytes
    requires StampOk(t)
  {
    Four(t.date.year) + [DASH] + Two(t.date.month) + [DASH] + Two(t.date.day) + [t.sep]
    + Two(t.hour) + [COLON] + Two(t.minute) + [COLON] + Two(t.second)
  }

  function FractionText(t: Stamp): Bytes {
    if t.frac == [] then [] else [DOT] + t.frac
  }

  function Format(t: Stamp): Bytes
    requires StampOk(t)
  {
    ClockText(t) + (FractionText(t) + ZoneText(t.zone))
  }

  lemma TwoDigits(s: Bytes, i: nat, n: int)
    requires 0 <= n < 100 && i + 2 <= |s| && s[i..i + 2] == Two(n)
    ensures Num(s, i, 2) == Some(n)
  {
    assert s[i] == s[i..i + 2][0] && s[i + 1] == s[i..i + 2][1];
    assert Num(s, i, 0) == Some(0);
    assert Num(s, i, 1) == Some(n / 10);
  }

  lemma FourDigits(s: Bytes, n: int)
    requires 0 <= n < 10_000 && 4 <= |s| && s[..4] == Four(n)
    ensures Num(s, 0, 4) == Some(n)
  {
    hide Num;
    Within(s, Four(n), 0, 2);
    Within(s, Four(n), 2, 4);
    assert Four(n)[0..2] == Two(n / 100) && Four(n)[2..4] == Two(n % 100);
    TwoDigits(s, 0, n / 100);
    MoreDigits(s, n / 100, n % 100);
  }

  lemma MoreDigits(s: Bytes, hi: int, lo: int)
    requires 0 <= lo < 100 && 4 <= |s| && Num(s, 0, 2) == Some(hi) && s[2..4] == Two(lo)
    ensures Num(s, 0, 4) == Some(100 * hi + lo)
  {
    assert s[2] == s[2..4][0] && s[3] == s[2..4][1];
    assert Num(s, 0, 3) == Some(10 * hi + lo / 10);
  }

  lemma {:induction false} RunOfDigits(s: Bytes, i: nat, j: nat)
    requires i <= j <= |s| && (forall k :: i <= k < j ==> IsDigit(s[k])) && (j == |s| || !IsDigit(s[j]))
    ensures DigitRun(s, i) == j - i
    decreases j - i
  {
    if i < j {
      RunOfDigits(s, i + 1, j);
    }
  }

  /** A signed offset's fields, by position. */
  lemma SignedReads(s: Bytes, i: nat, sign: Byte, oh: int, om: int)
    requires 0 <= oh < 100 && 0 <= om < 100 && i <= |s|
    requires s[i..] == [sign] + (Two(oh) + ([COLON] + Two(om)))
    ensures |s| == i + 6 && s[i] == sign && s[i + 3] == COLON
    ensures Num(s, i + 1, 2) == Some(oh) && Num(s, i + 4, 2) == Some(om)
  {
    hide Num, ToDigit;
    TailParts(s, i, [sign], Two(oh) + ([COLON] + Two(om)));
    TailParts(s, i + 1, Two(oh), [COLON] + Two(om));
    TailParts(s, i + 3, [COLON], Two(om));
    assert Two(om) + [] == Two(om);
    TailParts(s, i + 4, Two(om), []);
    TwoDigits(s, i + 1, oh);
    TwoDigits(s, i + 4, om);
  }

  lemma ZoneReads(s: Bytes, i: nat, z: Zone)
    requires ZoneOk(z) && i <= |s| && s[i..] == ZoneText(z)
    ensures OffsetAt(s, i) == Some(ZoneMinutes(z))
  {
    hide Num, Two;
    if z.Utc? {
      assert s[i] == s[i..][0];
    } else {
      var sign := if z.Ahead? then PLUS else DASH;
      assert ZoneText(z) == [sign] + (Two(z.oh) + ([COLON] + Two(z.om)));
      SignedReads(s, i, sign, z.oh, z.om);
    }
  }

  /** An offset begins with neither a digit nor a dot. */
  lemma ZoneStart(z: Zone)
    requires ZoneOk(z)
    ensures ZoneText(z) != [] && !IsDigit(ZoneText(z)[0]) && ZoneText(z)[0] != DOT
  {
  }

  /** The parts of a tail, by position. */
  lemma TailParts(s: Bytes, p: nat, f: Bytes, z: Bytes)
    requires p <= |s| && s[p..] == f + z
    ensures |s| == p + |f| + |z| && s[p..p + |f|] == f && s[p + |f|..] == z
    ensures forall k :: p <= k < p + |f| ==> s[k] == f[k - p]
    ensures z != [] ==> s[p + |f|] == z[0]
  {
    var tail := s[p..];
    forall k | 0 <= k < |tail| ensures s[p + k] == if k < |f| then f[k] else z[k - |f|] {
      assert tail[k] == s[p + k];
    }
    forall k | p <= k < p + |f| ensures s[k] == f[k - p] {
      assert s[p + (k - p)] == f[k - p];
    }
    forall k | 0 <= k < |f| ensures s[p..p + |f|][k] == f[k] {
      assert s[p + k] == f[k];
    }
    forall k | 0 <= k < |z| ensures s[p + |f|..][k] == z[k] {
      assert s[p + (|f| + k)] == z[k];
    }
  }

  lemma NoFraction(s: Bytes, z: Bytes)
    requires |s| >= 20 && s[19..] == z && z[0] != DOT
    ensures Fraction(s) == Some((19, 0))
  {
    hide DigitRun, Millis;
    assert s[19] == s[19..][0];
  }

  lemma SomeFraction(s: Bytes, frac: Bytes, z: Bytes)
    requires |s| >= 20 && s[19] == DOT && s[20..] == frac + z && frac != [] && z != []
    requires (forall i :: 0 <= i < |frac| ==> IsDigit(frac[i])) && !IsDigit(z[0])
    ensures Fraction(s) == Some((20 + |frac|, Millis(frac)))
  {
    hide DigitRun, Millis;
    TailParts(s, 20, frac, z);
    RunOfDigits(s, 20, 20 + |frac|);
  }

  lemma FractionReads(s: Bytes, t: Stamp)
    requires StampOk(t) && |s| >= 20 && s[19..] == FractionText(t) + ZoneText(t.zone)
    ensures Fraction(s) == Some((19 + |FractionText(t)|, Millis(t.frac)))
    ensures s[19 + |FractionText(t)|..] == ZoneText(t.zone)
  {
    assert Millis([]) == 0;
    hide Millis, ZoneText, Fraction;
    var f, z := FractionText(t), ZoneText(t.zone);
    ZoneStart(t.zone);
    TailParts(s, 19, f, z);
    if t.frac == [] {
      assert f + z == z;
      NoFraction(s, z);
    } else {
      assert f + z == [DOT] + (t.frac + z);
      TailParts(s, 19, [DOT], t.frac + z);
      SomeFraction(s, t.frac, z);
    }
  }

  /** Reading a formatted date-time gives its instant: the days before it, its time of day less its
      offset, and its first three fraction digits. */
  lemma ParsesFormat(t: Stamp)
    requires StampOk(t)
    ensures Parse(Format(t))
            == Some(EpochMs(t.date, t.hour, t.minute, t.second, Millis(t.frac), ZoneMinutes(t.zone)))
  {
    hide Fraction, OffsetAt, EpochMs, FractionText, ZoneText, Num, Two, Four, Millis;
    var s := Format(t);
    TailLength(t);
    assert s[..19] == ClockText(t);
    ClockReads(t, s);
    assert s[19..] == FractionText(t) + ZoneText(t.zone);
    FractionReads(s, t);
    ZoneReads(s, 19 + |FractionText(t)|, t.zone);
  }

  lemma TailLength(t: Stamp)
    requires StampOk(t)
    ensures |ClockText(t)| == 19 && |ZoneText(t.zone)| >= 1
  {
  }

  lemma ClockReads(t: Stamp, s: Bytes)
    requires StampOk(t) && |s| >= 20 && s[..19] == ClockText(t)
    ensures Separated(s)
    ensures Num(s, 0, 4) == Some(t.date.year) && Num(s, 5, 2) == Some(t.date.month) && Num(s, 8, 2) == Some(t.date.day)
    ensures Num(s, 11, 2) == Some(t.hour) && Num(s, 14, 2) == Some(t.minute) && Num(s, 17, 2) == Some(t.second)
  {
    hide Num;
    var c := ClockText(t);
    ClockParts(t);
    hide ClockText, Two, Four;
    assert forall i :: 0 <= i < 19 ==> s[i] == c[i];
    Within(s, c, 0, 4);
    Within(s, c, 5, 7);
    Within(s, c, 8, 10);
    Within(s, c, 11, 13);
    Within(s, c, 14, 16);
    Within(s, c, 17, 19);
    FourDigits(s, t.date.year);
    TwoDigits(s, 5, t.date.month);
    TwoDigits(s, 8, t.date.day);
    TwoDigits(s, 11, t.hour);
    TwoDigits(s, 14, t.minute);
    TwoDigits(s, 17, t.second);
  }

  lemma Within(s: Bytes, c: Bytes, i: nat, j: nat)
    requires i <= j <= |c| <= |s| && s[..|c|] == c
    ensures s[i..j] == c[i..j]
  {
    assert forall k :: 0 <= k < |c| ==> s[..|c|][k] == s[k];
    forall k | 0 <= k < j - i ensures s[i..j][k] == c[i..j][k] {
      assert s[i + k] == c[i + k];
    }
  }

  /** Where each field of a formatted clock stands. */
  lemma ClockParts(t: Stamp)
    requires StampOk(t)
    ensures var c := ClockText(t);
            && |c| == 19
            && c[..4] == Four(t.date.year) && c[4] == DASH && c[5..7] == Two(t.date.month) && c[7] == DASH
            && c[8..10] == Two(t.date.day) && c[10] == t.sep && c[11..13] == Two(t.hour) && c[13] == COLON
            && c[14..16] == Two(t.minute) && c[16] == COLON && c[17..19] == Two(t.second)
  {
    var c := ClockText(t);
    assert c[..4] == Four(t.date.year) && c[4] == DASH && c[5..7] == Two(t.date.month) && c[7] == DASH;
    assert c[8..10] == Two(t.date.day) && c[10] == t.sep && c[11..13] == Two(t.hour) && c[13] == COLON;
    assert c[14..16] == Two(t.minute) && c[16] == COLON && c[17..19] == Two(t.second);
  }

  // ---- spellings --------------------------------------------------------------------------

  /** Two texts that differ at most in the date separator. */
  ghost predicate ButSeparator(s: Bytes, t: Bytes) {
    |s| == |t| && forall i :: 0 <= i < |s| && i != 10 ==> s[i] == t[i]
  }

  lemma {:induction false} SameNum(s: Bytes, t: Bytes, i: nat, n: nat)
    requires ButSeparator(s, t) && (i + n <= 10 || i > 10)
    ensures Num(s, i, n) == Num(t, i, n)
  {
    if n > 0 { SameNum(s, t, i, n - 1); }
  }

  lemma {:induction false} SameRun(s: Bytes, t: Bytes, i: nat)
    requires ButSeparator(s, t) && 10 < i <= |s|
    ensures DigitRun(s, i) == DigitRun(t, i)
    decreases |s| - i
  {
    if i < |s| { SameRun(s, t, i + 1); }
  }

  lemma SameTail(s: Bytes, t: Bytes, i: nat)
    requires ButSeparator(s, t) && 10 < i <= |s|
    ensures OffsetAt(s, i) == OffsetAt(t, i)
  {
    SameNum(s, t, i + 1, 2);
    SameNum(s, t, i + 4, 2);
  }

  lemma SameFraction(s: Bytes, t: Bytes)
    requires ButSeparator(s, t) && |s| >= 20
    ensures Fraction(s) == Fraction(t)
  {
    SameRun(s, t, 20);
    var n := DigitRun(s, 20);
    if s[19] == DOT {
      assert s[20..20 + n] == t[20..20 + n];
    }
  }

  lemma FractionPlace(s: Bytes)
    requires |s| >= 20
    ensures Fraction(s).Some? ==> 19 <= Fraction(s).value.0 <= |s|
  {
  }

  /** Every date-time can also be written with another date separator. */
  lemma OtherSeparator(s: Bytes) returns (t: Bytes)
    requires Parse(s).Some?
    ensures t != s && Parse(t) == Parse(s)
  {
    hide Num, DigitRun, OffsetAt, Fraction, EpochMs;
    t := s[10 := if s[10] == 32 then 84 else 32];
    assert t[10] != s[10];
    SameNum(s, t, 0, 4);
    SameNum(s, t, 5, 2);
    SameNum(s, t, 8, 2);
    SameNum(s, t, 11, 2);
    SameNum(s, t, 14, 2);
    SameNum(s, t, 17, 2);
    SameFraction(s, t);
    FractionPlace(s);
    if Fraction(s).Some? {
      SameTail(s, t, Fraction(s).value.0);
    }
  }

  lemma {:induction false} NumBound(s: Bytes, i: nat, n: nat)
    ensures Num(s, i, n).Some? ==> 0 <= Num(s, i, n).value
    ensures Num(s, i, n).Some? && n <= 4 ==> Num(s, i, n).value <= 9_999
    ensures Num(s, i, n).Some? && n <= 3 ==> Num(s, i, n).value <= 999
    ensures Num(s, i, n).Some? && n <= 2 ==> Num(s, i, n).value <= 99
    ensures Num(s, i, n).Some? && n <= 1 ==> Num(s, i, n).value <= 9
    ensures Num(s, i, n).Some? && n == 0 ==> Num(s, i, n).value == 0
  {
    if n > 0 { NumBound(s, i, n - 1); }
  }

  lemma DaysBound(d: Date)
    requires 0 <= d.year <= 9_999 && 1 <= d.month <= 12 && 1 <= d.day <= 31
    ensures -1_000_000 <= DaysFromCivil(d) <= 4_000_000
  {
  }

  lemma TailBound(s: Bytes)
    requires |s| >= 20
    ensures Fraction(s).Some? ==> 0 <= Fraction(s).value.1 <= 999 && Fraction(s).value.0 <= |s|
  {
    hide Num;
    if s[19] == DOT {
      RunDigits(s, 20);
    }
  }

  lemma {:induction false} RunDigits(s: Bytes, i: nat)
    requires i <= |s|
    ensures forall k :: i <= k < i + DigitRun(s, i) ==> IsDigit(s[k])
    decreases |s| - i
  {
    if i < |s| && IsDigit(s[i]) { RunDigits(s, i + 1); }
  }

  lemma OffsetBound(s: Bytes, i: nat)
    requires i <= |s|
    ensures OffsetAt(s, i).Some? ==> -1_439 <= OffsetAt(s, i).value <= 1_439
  {
    NumBound(s, i + 1, 2);
    NumBound(s, i + 4, 2);
  }

  /** Every instant fits a signed 64-bit count of milliseconds. */
  lemma ParseBound(s: Bytes)
    ensures Parse(s).Some? ==> -0x8000_0000_0000_0000 <= Parse(s).value < 0x8000_0000_0000_0000
  {
    hide Num, OffsetAt, Fraction, DaysFromCivil;
    NumBound(s, 0, 4);
    NumBound(s, 5, 2);
    NumBound(s, 8, 2);
    NumBound(s, 11, 2);
    NumBound(s, 14, 2);
    NumBound(s, 17, 2);
    if Parse(s).Some? {
      var d := Date(Num(s, 0, 4).value, Num(s, 5, 2).value, Num(s, 8, 2).value);
      DaysBound(d);
      TailBound(s);
      OffsetBound(s, Fraction(s).value.0);
    }
  }

  function MsOfDay(hour: int, minute: int, second: int, millis: int): int {
    (hour * 3_600 + minute * 60 + second) * 1_000 + millis
  }

  predicate InDay(hour: int, minute: int, second: int, millis: int) {
    0 <= hour < 24 && 0 <= minute < 60 && 0 <= second < 60 && 0 <= millis < 1_000
  }

  /** At one offset, instants of real dates order as date and then time of day do. */
  lemma InstantOrder(a: Date, h: int, m: int, s: int, ms: int, b: Date, h': int, m': int, s': int, ms': int, offset: int)
    requires Real(a) && Real(b) && InDay(h, m, s, ms) && InDay(h', m', s', ms')
    ensures EpochMs(a, h, m, s, ms, offset) < EpochMs(b, h', m', s', ms', offset)
            <==> Earlier(a, b) || (a == b && MsOfDay(h, m, s, ms) < MsOfDay(h', m', s', ms'))
  {
    hide DaysFromCivil;
    DaysOrder(a, b);
    DaysOrder(b, a);
  }

  /** Scan a fraction's digits: the loop behind `DigitRun`. */
  method ScanDigits(s: Bytes, start: nat) returns (i: nat)
    requires start <= |s|
    ensures i == start + DigitRun(s, start)
  {
    i := start;
    while i < |s| && IsDigit(s[i])
      invariant start <= i <= |s| && forall k :: start <= k < i ==> IsDigit(s[k])
    {
      i := i + 1;
    }
    RunOfDigits(s, start, i);
  }

  /** `rfc3339_to_epoch_ms`, with its scan of the fraction. */
  method Rfc3339ToEpochMs(s: Bytes) returns (res: Option<int>)
    ensures res == Parse(s)
  {
    hide Num, OffsetAt, EpochMs, Millis;
    if |s| < 20 {
      return None;
    }
    if s[4] != DASH || s[7] != DASH || !DateSep(s[10]) || s[13] != COLON || s[16] != COLON {
      return None;
    }
    var year :- Num(s, 0, 4);
    var month :- Num(s, 5, 2);
    var day :- Num(s, 8, 2);
    var hour :- Num(s, 11, 2);
    var minute :- Num(s, 14, 2);
    var second :- Num(s, 17, 2);
    if !InClock(month, day, hour, minute, second) {
      return None;
    }
    var i, millis := 19, 0;
    if s[19] == DOT {
      i := ScanDigits(s, 20);
      if i == 20 {
        return None;
      }
      millis := Millis(s[20..i]);
    }
    var offset :- OffsetAt(s, i);
    res := Some(EpochMs(Date(year, month, day), hour, minute, second, millis, offset));
  }
}
