/**
 * Reading TOON text back: quoted and bare text, scalars, comma lists, lengths. Each
 * reader returns what it read and the rest of the input, and undoes its printer in
 * front of any rest the printer can leave.
 */
module ToonText {
  import opened Wrappers
  import opened Toon

  datatype Parsed<+T> = Parsed(value: T, rest: string)

  /** The input after a literal prefix. */
  function Expect(s: string, lit: string): (r: Option<string>)
    ensures r.Some? ==> |r.value| == |s| - |lit|
  {
    if lit <= s then Some(s[|lit|..]) else None
  }

  lemma ExpectPrinted(lit: string, rest: string)
    ensures Expect(lit + rest, lit) == Some(rest)
  {
  }

  /** `rest` starts with a character that ends bare text (or is over). */
  predicate StopsAt(rest: string) { rest == "" || IsStop(rest[0]) }

  // ---- text -----------------------------------------------------------------------

  function StopEnd(s: string, i: nat): (j: nat)
    requires i <= |s|
    ensures i <= j <= |s|
    decreases |s| - i
  {
    if i < |s| && !IsStop(s[i]) then StopEnd(s, i + 1) else i
  }

  lemma {:induction false} StopEndPrinted(t: string, rest: string, i: nat)
    requires i <= |t| && StopsAt(rest) && forall k: nat :: k < |t| ==> !IsStop(t[k])
    ensures StopEnd(t + rest, i) == |t|
    decreases |t| - i
  {
    if i < |t| {
      assert (t + rest)[i] == t[i];
      StopEndPrinted(t, rest, i + 1);
    } else if rest != "" {
      assert (t + rest)[i] == rest[0];
    }
  }

  function HexValue(c: char): Option<nat> {
    if '0' <= c <= '9' then Some(c as int - '0' as int)
    else if 'a' <= c <= 'f' then Some(c as int - 'a' as int + 10)
    else None
  }

  /** Four hex digits naming a character. */
  function ReadHex4(s: string): Option<char> {
    if |s| < 4 then None
    else
      match (HexValue(s[0]), HexValue(s[1]), HexValue(s[2]), HexValue(s[3]))
      case (Some(a), Some(b), Some(c), Some(d)) =>
        var n := 4096 * a + 256 * b + 16 * c + d;
        if n < 0xd800 then Some(n as char) else None
      case _ => None
  }

  /** One possibly escaped character. */
  function ReadChar(s: string): (r: Option<Parsed<char>>)
    ensures r.Some? ==> |r.value.rest| < |s|
  {
    if s == "" || s[0] == '"' then None
    else if s[0] != '\\' then Some(Parsed(s[0], s[1..]))
    else if |s| < 2 then None
    else if s[1] == '\\' then Some(Parsed('\\', s[2..]))
    else if s[1] == '"' then Some(Parsed('"', s[2..]))
    else if s[1] == 'n' then Some(Parsed('\n', s[2..]))
    else if s[1] == 'r' then Some(Parsed('\r', s[2..]))
    else if s[1] == 't' then Some(Parsed('\t', s[2..]))
    else if s[1] == 'u' then
      match ReadHex4(s[2..])
      case Some(c) => Some(Parsed(c, s[6..]))
      case None => None
    else None
  }

  /** Quoted text up to its closing quote. */
  function ReadQuoted(s: string): (r: Option<Parsed<string>>)
    ensures r.Some? ==> |r.value.rest| < |s|
    decreases |s|
  {
    if s != "" && s[0] == '"' then Some(Parsed("", s[1..]))
    else
      match ReadChar(s)
      case None => None
      case Some(Parsed(c, rest)) =>
        match ReadQuoted(rest)
        case None => None
        case Some(Parsed(t, rest')) => Some(Parsed([c] + t, rest'))
  }

  lemma HexPrinted(n: nat)
    requires n < 16
    ensures HexValue(HexDigit(n)) == Some(n)
  {
  }

  lemma Hex4Printed(n: nat, rest: string)
    requires n < 256
    ensures ReadHex4(Hex4(n) + rest) == Some(n as char)
  {
    HexPrinted(n / 4096);
    HexPrinted(n / 256 % 16);
    HexPrinted(n / 16 % 16);
    HexPrinted(n % 16);
    assert n / 4096 == 0 && n / 256 % 16 == 0 && n / 16 % 16 == n / 16;
    var s := Hex4(n) + rest;
    assert s[0] == HexDigit(n / 4096) && s[1] == HexDigit(n / 256 % 16);
    assert s[2] == HexDigit(n / 16 % 16) && s[3] == HexDigit(n % 16);
  }

  lemma CharPrinted(c: char, rest: string)
    ensures ReadChar(EscapeChar(c) + rest) == Some(Parsed(c, rest))
  {
    var s := EscapeChar(c) + rest;
    if c == '\\' || c == '"' || c == '\n' || c == '\r' || c == '\t' {
      assert s[2..] == rest;
    } else if IsControl(c) {
      Hex4Printed(c as int, rest);
      assert s[2..] == Hex4(c as int) + rest;
      assert s[6..] == rest;
    } else {
      assert s[1..] == rest;
    }
  }

  lemma {:induction false} EscapeHead(s: string)
    requires s != ""
    ensures Escape(s) == EscapeChar(s[0]) + Escape(s[1..])
    decreases |s|
  {
    var k := |s| - 1;
    if k > 0 {
      EscapeHead(s[..k]);
      assert s[..k][1..] == s[1..][..k - 1];
    }
  }

  lemma EscapeStart(c: char)
    ensures EscapeChar(c) != "" && EscapeChar(c)[0] != '"'
  {
  }

  lemma {:induction false} QuotedPrinted(s: string, rest: string)
    ensures ReadQuoted(Escape(s) + ("\"" + rest)) == Some(Parsed(s, rest))
    decreases |s|
  {
    if s == "" {
      assert ("\"" + rest)[1..] == rest;
      assert Escape(s) + ("\"" + rest) == "\"" + rest;
    } else {
      EscapeHead(s);
      EscapeStart(s[0]);
      var tail := Escape(s[1..]) + ("\"" + rest);
      Assoc(EscapeChar(s[0]), Escape(s[1..]), "\"" + rest);
      CharPrinted(s[0], tail);
      QuotedPrinted(s[1..], rest);
      assert s == [s[0]] + s[1..];
    }
  }

  /** A key: quoted, or bare up to the next stop character. */
  function ReadText(s: string): (r: Option<Parsed<string>>)
    ensures r.Some? ==> |r.value.rest| < |s|
  {
    if s != "" && s[0] == '"' then ReadQuoted(s[1..])
    else
      var k := StopEnd(s, 0);
      if k == 0 then None else Some(Parsed(s[..k], s[k..]))
  }

  /** What the absence of quotes says about a string. */
  lemma BareFacts(t: string)
    requires !NeedsQuotes(t)
    ensures Quote(t) == t && t != "" && t[0] != ' '
    ensures t != "null" && t != "true" && t != "false" && !LooksNumeric(t)
    ensures forall k: nat :: k < |t| ==> !IsStop(t[k])
  {
    hide LooksNumeric;
  }

  lemma QuotedFacts(t: string, rest: string)
    requires NeedsQuotes(t)
    ensures var q := Quote(t) + rest;
            q != "" && q[0] == '"' && q[1..] == Escape(t) + ("\"" + rest) && Quote(t) != "" && Quote(t)[0] == '"'
  {
    hide NeedsQuotes, Escape;
    var e := Escape(t);
    assert Quote(t) == "\"" + e + "\"";
    var q := Quote(t) + rest;
    assert q[1..] == e + ("\"" + rest);
  }

  lemma BareSplit(t: string, rest: string)
    requires t != "" && StopsAt(rest) && forall k: nat :: k < |t| ==> !IsStop(t[k])
    ensures var s := t + rest;
            && StopEnd(s, 0) == |t| && s[..|t|] == t && s[|t|..] == rest && s[0] == t[0]
            && s[0] != '"' && s[0] != '[' && s[0] != '{'
  {
    StopEndPrinted(t, rest, 0);
    assert (t + rest)[0] == t[0];
  }

  lemma TextPrinted(t: string, rest: string)
    requires StopsAt(rest)
    ensures ReadText(Quote(t) + rest) == Some(Parsed(t, rest))
    ensures Quote(t) != "" && Quote(t)[0] != ' ' && Quote(t)[0] != '[' && Quote(t)[0] != '{'
  {
    hide NeedsQuotes, Quote, Escape, ReadQuoted, StopEnd;
    if NeedsQuotes(t) {
      QuotedPrinted(t, rest);
      QuotedFacts(t, rest);
    } else {
      BareFacts(t);
      BareSplit(t, rest);
      assert !IsStop(t[0]);
    }
  }

  // ---- scalars --------------------------------------------------------------------

  predicate Printable(v: Value) { IsScalar(v) && (v.Num? ==> LooksNumeric(v.tok)) }

  function Classify(t: string): Value {
    if t == "null" then Null
    else if t == "true" then Bool(true)
    else if t == "false" then Bool(false)
    else if LooksNumeric(t) then Num(t)
    else Str(t)
  }

  function ReadScalar(s: string): (r: Option<Parsed<Value>>)
    ensures r.Some? ==> |r.value.rest| < |s|
  {
    if "[]" <= s then Some(Parsed(Arr([]), s[2..]))
    else if "{}" <= s then Some(Parsed(Obj([]), s[2..]))
    else if s != "" && s[0] == '"' then
      match ReadQuoted(s[1..])
      case None => None
      case Some(Parsed(t, rest)) => Some(Parsed(Str(t), rest))
    else
      var k := StopEnd(s, 0);
      if k == 0 then None else Some(Parsed(Classify(s[..k]), s[k..]))
  }

  predicate NumericChar(c: char) { IsDigit(c) || c == '-' || c == '+' || c == '.' || c == 'e' || c == 'E' }

  /** A numeric token has no stop character. */
  lemma NumericChars(s: string)
    requires LooksNumeric(s)
    ensures s != "" && forall k: nat :: k < |s| ==> NumericChar(s[k])
  {
    hide DigitsEnd;
    var a := if At(s, 0, '-') then 1 else 0;
    var b := DigitsEnd(s, a);
    var c := if At(s, b, '.') then DigitsEnd(s, b + 1) else b;
    DigitsEndSpec(s, a);
    if At(s, b, '.') { DigitsEndSpec(s, b + 1); }
    if At(s, c, 'e') || At(s, c, 'E') {
      var d := if At(s, c + 1, '+') || At(s, c + 1, '-') then c + 2 else c + 1;
      DigitsEndSpec(s, d);
    }
  }

  /** JSON's own number tokens: optional sign, digits, optional fraction and exponent. */
  ghost predicate IsJsonNumber(tok: string) {
    exists neg: string, whole: string, frac: string, exp: string :: JsonParts(tok, neg, whole, frac, exp)
  }

  ghost predicate Digits(s: string) { forall k: nat :: k < |s| ==> IsDigit(s[k]) }

  ghost predicate JsonParts(tok: string, neg: string, whole: string, frac: string, exp: string) {
    && tok == neg + (whole + (frac + exp))
    && (neg == "" || neg == "-")
    && whole != "" && Digits(whole)
    && (frac == "" || (|frac| > 1 && frac[0] == '.' && Digits(frac[1..])))
    && (exp == "" || JsonExp(exp))
  }

  ghost predicate JsonExp(exp: string) {
    && |exp| > 1 && (exp[0] == 'e' || exp[0] == 'E')
    && (Digits(exp[1..]) || (|exp| > 2 && (exp[1] == '+' || exp[1] == '-') && Digits(exp[2..])))
  }

  lemma {:induction false} DigitsEndAt(s: string, i: nat, j: nat)
    requires i <= j <= |s| && (forall k: nat :: i <= k < j ==> IsDigit(s[k])) && (j < |s| ==> !IsDigit(s[j]))
    ensures DigitsEnd(s, i) == j
    decreases |s| - i
  {
    if i < j {
      DigitsEndAt(s, i + 1, j);
    }
  }

  /** Every JSON number token passes the numeric guard, so no string prints like a number. */
  lemma JsonNumberLooksNumeric(tok: string)
    requires IsJsonNumber(tok)
    ensures LooksNumeric(tok)
  {
    var neg: string, whole: string, frac: string, exp: string :|
      JsonParts(tok, neg, whole, frac, exp);
    PartsLookNumeric(tok, neg, whole, frac, exp);
  }

  lemma PartsLookNumeric(tok: string, neg: string, whole: string, frac: string, exp: string)
    requires JsonParts(tok, neg, whole, frac, exp)
    ensures LooksNumeric(tok)
  {
    hide *;
    IntegerEnd(tok, neg, whole, frac, exp);
    FractionEnd(tok, neg, whole, frac, exp);
    ExponentEnd(tok, neg, whole, frac, exp);
    PartsShape(tok, neg, whole, frac, exp);
    NumericFrom(tok, |neg|, |neg| + |whole|, |neg| + |whole| + |frac|);
  }

  lemma PartsShape(tok: string, neg: string, whole: string, frac: string, exp: string)
    requires JsonParts(tok, neg, whole, frac, exp)
    ensures |neg| + |whole| + |frac| <= |tok|
    ensures |neg| == (if neg == "-" then 1 else 0) && |whole| > 0 && (frac == "" || |frac| > 1)
  {
  }

  /** The guard's own scan, position by position. */
  lemma NumericFrom(s: string, a: nat, b: nat, c: nat)
    requires a == (if At(s, 0, '-') then 1 else 0) && a < b <= |s| && DigitsEnd(s, a) == b
    requires c == if At(s, b, '.') then DigitsEnd(s, b + 1) else b
    requires if At(s, c, 'e') || At(s, c, 'E') then
               var d := if At(s, c + 1, '+') || At(s, c + 1, '-') then c + 2 else c + 1;
               d < |s| && DigitsEnd(s, d) == |s|
             else c == |s|
    ensures LooksNumeric(s)
  {
    hide DigitsEnd;
  }

  lemma IntegerEnd(tok: string, neg: string, whole: string, frac: string, exp: string)
    requires JsonParts(tok, neg, whole, frac, exp)
    ensures At(tok, 0, '-') <==> neg == "-"
    ensures DigitsEnd(tok, |neg|) == |neg| + |whole|
  {
    var a, b := |neg|, |neg| + |whole|;
    forall k: nat | a <= k < b ensures IsDigit(tok[k]) {
      assert tok[k] == whole[k - a];
    }
    assert tok[0] == if neg == "" then whole[0] else neg[0];
    if b < |tok| {
      assert tok[b] == (frac + exp)[0];
      assert tok[b] == if frac != "" then frac[0] else exp[0];
    }
    DigitsEndAt(tok, a, b);
  }

  lemma FractionEnd(tok: string, neg: string, whole: string, frac: string, exp: string)
    requires JsonParts(tok, neg, whole, frac, exp)
    ensures var b := |neg| + |whole|;
            && (At(tok, b, '.') <==> frac != "")
            && (frac != "" ==> DigitsEnd(tok, b + 1) == b + |frac|)
  {
    var b := |neg| + |whole|;
    var c := b + |frac|;
    if frac != "" {
      assert tok[b] == frac[0];
      forall k: nat | b + 1 <= k < c ensures IsDigit(tok[k]) {
        assert tok[k] == frac[k - b] == frac[1..][k - b - 1];
      }
      if c < |tok| { assert tok[c] == exp[0]; }
      DigitsEndAt(tok, b + 1, c);
    } else if exp != "" {
      assert tok[b] == exp[0];
    }
  }

  lemma ExponentEnd(tok: string, neg: string, whole: string, frac: string, exp: string)
    requires JsonParts(tok, neg, whole, frac, exp)
    ensures var c := |neg| + |whole| + |frac|;
            && (At(tok, c, 'e') || At(tok, c, 'E') <==> exp != "")
            && (exp != "" ==>
                  var d := if At(tok, c + 1, '+') || At(tok, c + 1, '-') then c + 2 else c + 1;
                  d < |tok| && DigitsEnd(tok, d) == |tok|)
            && (exp == "" ==> c == |tok|)
  {
    var c := |neg| + |whole| + |frac|;
    hide DigitsEnd;
    if exp != "" {
      forall k: nat | c <= k < |tok| ensures tok[k] == exp[k - c] {
      }
      assert tok[c] == exp[0] && tok[c + 1] == exp[1] == exp[1..][0];
      var d := if At(tok, c + 1, '+') || At(tok, c + 1, '-') then c + 2 else c + 1;
      if exp[1] == '+' || exp[1] == '-' {
        assert !IsDigit(exp[1]);
        forall k: nat | d <= k < |tok| ensures IsDigit(tok[k]) {
          assert tok[k] == exp[2..][k - d];
        }
      } else {
        forall k: nat | d <= k < |tok| ensures IsDigit(tok[k]) {
          assert tok[k] == exp[1..][k - d];
        }
      }
      DigitsEndAt(tok, d, |tok|);
    }
  }

  lemma BarePrinted(t: string, rest: string)
    requires t != "" && StopsAt(rest) && forall k: nat :: k < |t| ==> !IsStop(t[k])
    ensures ReadScalar(t + rest) == Some(Parsed(Classify(t), rest))
  {
    hide Classify, StopEnd, ReadQuoted;
    BareSplit(t, rest);
    var s := t + rest;
    assert !("[]" <= s) && !("{}" <= s);
  }

  lemma StrPrinted(t: string, rest: string)
    requires StopsAt(rest)
    ensures ReadScalar(Quote(t) + rest) == Some(Parsed(Str(t), rest))
  {
    hide NeedsQuotes, Quote, Escape, ReadQuoted, StopEnd, LooksNumeric;
    if NeedsQuotes(t) {
      QuotedPrinted(t, rest);
      QuotedFacts(t, rest);
      var s := Quote(t) + rest;
      assert !("[]" <= s) && !("{}" <= s);
    } else {
      BareFacts(t);
      BarePrinted(t, rest);
    }
  }

  lemma NumPrinted(tok: string, rest: string)
    requires LooksNumeric(tok) && StopsAt(rest)
    ensures ReadScalar(tok + rest) == Some(Parsed(Num(tok), rest))
  {
    NumericChars(tok);
    WordsNotNumeric();
    hide LooksNumeric, ReadScalar;
    BarePrinted(tok, rest);
  }

  /** A scalar reads back, in front of anything that may follow one. */
  lemma ScalarPrinted(v: Value, rest: string)
    requires Printable(v) && StopsAt(rest)
    ensures ReadScalar(Scalar(v) + rest) == Some(Parsed(v, rest))
  {
    match v
    case Null => WordPrinted("null", rest);
    case Bool(b) => WordPrinted(if b then "true" else "false", rest);
    case Num(tok) => NumPrinted(tok, rest);
    case Str(s) => StrPrinted(s, rest);
    case Arr(items) => assert ("[]" + rest)[2..] == rest;
    case Obj(fields) =>
      assert ("{}" + rest)[0] == '{' && ("{}" + rest)[2..] == rest;
  }

  lemma WordPrinted(w: string, rest: string)
    requires (w == "null" || w == "true" || w == "false") && StopsAt(rest)
    ensures ReadScalar(w + rest) == Some(Parsed(Classify(w), rest))
  {
    assert forall k: nat :: k < |w| ==> !IsStop(w[k]);
    BarePrinted(w, rest);
  }

  lemma WordsNotNumeric()
    ensures !LooksNumeric("null") && !LooksNumeric("true") && !LooksNumeric("false")
  {
    assert "null"[0] == 'n' && "true"[0] == 't' && "false"[0] == 'f';
  }

  // ---- comma lists ----------------------------------------------------------------

  lemma {:induction false} DelimitedHead(parts: seq<string>)
    requires |parts| >= 2
    ensures Delimited(parts) == parts[0] + ("," + Delimited(parts[1..]))
    decreases |parts|
  {
    var k := |parts| - 1;
    if k > 1 {
      DelimitedHead(parts[..k]);
      assert parts[..k][1..] == parts[1..][..k - 1];
    }
  }

  /** `n` scalars joined by commas. */
  function ReadScalars(s: string, n: nat): (r: Option<Parsed<seq<Value>>>)
    requires n > 0
    ensures r.Some? ==> |r.value.rest| < |s|
    decreases n
  {
    match ReadScalar(s)
    case None => None
    case Some(Parsed(v, rest)) =>
      if n == 1 then Some(Parsed([v], rest))
      else
        match Expect(rest, ",")
        case None => None
        case Some(rest') =>
          match ReadScalars(rest', n - 1)
          case None => None
          case Some(Parsed(vs, rest'')) => Some(Parsed([v] + vs, rest''))
  }

  /** A comma list in front of a rest. */
  function ScalarsLine(vals: seq<Value>, rest: string): string { Delimited(Scalars(vals)) + rest }

  function Comma(tail: string): (s: string)
    ensures StopsAt(s)
  {
    "," + tail
  }

  lemma ScalarsLineHead(vals: seq<Value>, rest: string)
    requires |vals| >= 2
    ensures ScalarsLine(vals, rest) == Scalar(vals[0]) + Comma(ScalarsLine(vals[1..], rest))
  {
    var parts := Scalars(vals);
    DelimitedHead(parts);
    assert parts[1..] == Scalars(vals[1..]) && parts[0] == Scalar(vals[0]);
    hide Delimited, Scalars, Scalar;
    Assoc(parts[0], "," + Delimited(parts[1..]), rest);
    Assoc(",", Delimited(parts[1..]), rest);
  }

  lemma ReadScalarsStep(s: string, v: Value, tail: string, vs: seq<Value>, rest: string)
    requires vs != [] && ReadScalar(s) == Some(Parsed(v, Comma(tail)))
    requires ReadScalars(tail, |vs|) == Some(Parsed(vs, rest))
    ensures ReadScalars(s, |vs| + 1) == Some(Parsed([v] + vs, rest))
  {
    ExpectPrinted(",", tail);
  }

  lemma OneScalarLine(vals: seq<Value>, rest: string)
    requires |vals| == 1 && StopsAt(rest) && Printable(vals[0])
    ensures ReadScalars(ScalarsLine(vals, rest), 1) == Some(Parsed(vals, rest))
  {
    ScalarPrinted(vals[0], rest);
    assert vals == [vals[0]];
  }

  lemma {:induction false} ScalarsPrinted(vals: seq<Value>, rest: string)
    requires vals != [] && StopsAt(rest) && forall i: nat :: i < |vals| ==> Printable(vals[i])
    ensures ReadScalars(ScalarsLine(vals, rest), |vals|) == Some(Parsed(vals, rest))
    decreases |vals|
  {
    hide *;
    if |vals| == 1 {
      OneScalarLine(vals, rest);
    } else {
      var tail := ScalarsLine(vals[1..], rest);
      ScalarsLineHead(vals, rest);
      ScalarPrinted(vals[0], Comma(tail));
      ScalarsPrinted(vals[1..], rest);
      ReadScalarsStep(ScalarsLine(vals, rest), vals[0], tail, vals[1..], rest);
      assert vals == [vals[0]] + vals[1..];
    }
  }

  /** Keys joined by commas, up to a closing brace that is left in place. */
  function ReadKeys(s: string): (r: Option<Parsed<seq<string>>>)
    ensures r.Some? ==> |r.value.rest| < |s|
    decreases |s|
  {
    match ReadText(s)
    case None => None
    case Some(Parsed(k, rest)) =>
      if rest != "" && rest[0] == ',' then
        match ReadKeys(rest[1..])
        case None => None
        case Some(Parsed(ks, rest')) => Some(Parsed([k] + ks, rest'))
      else Some(Parsed([k], rest))
  }

  function KeysLine(ks: seq<string>, rest: string): string { Delimited(Quotes(ks)) + rest }

  lemma KeysLineHead(ks: seq<string>, rest: string)
    requires |ks| >= 2
    ensures KeysLine(ks, rest) == Quote(ks[0]) + Comma(KeysLine(ks[1..], rest))
  {
    var parts := Quotes(ks);
    DelimitedHead(parts);
    assert parts[1..] == Quotes(ks[1..]) && parts[0] == Quote(ks[0]);
    hide Delimited, Quotes, Quote;
    Assoc(parts[0], "," + Delimited(parts[1..]), rest);
    Assoc(",", Delimited(parts[1..]), rest);
  }

  lemma ReadKeysStep(s: string, k: string, tail: string, ks: seq<string>, rest: string)
    requires ReadText(s) == Some(Parsed(k, Comma(tail))) && ReadKeys(tail) == Some(Parsed(ks, rest))
    ensures ReadKeys(s) == Some(Parsed([k] + ks, rest))
  {
    assert ("," + tail)[1..] == tail;
  }

  lemma OneKeyLine(ks: seq<string>, rest: string)
    requires |ks| == 1 && rest != "" && rest[0] == '}'
    ensures ReadKeys(KeysLine(ks, rest)) == Some(Parsed(ks, rest))
  {
    hide Quote;
    TextPrinted(ks[0], rest);
    assert ks == [ks[0]];
  }

  lemma {:induction false} KeysPrinted(ks: seq<string>, rest: string)
    requires ks != [] && rest != "" && rest[0] == '}'
    ensures ReadKeys(KeysLine(ks, rest)) == Some(Parsed(ks, rest))
    decreases |ks|
  {
    hide *;
    if |ks| == 1 {
      OneKeyLine(ks, rest);
    } else {
      var tail := KeysLine(ks[1..], rest);
      KeysLineHead(ks, rest);
      TextPrinted(ks[0], Comma(tail));
      KeysPrinted(ks[1..], rest);
      ReadKeysStep(KeysLine(ks, rest), ks[0], tail, ks[1..], rest);
      assert ks == [ks[0]] + ks[1..];
    }
  }

  // ---- lengths --------------------------------------------------------------------

  function DecimalValue(s: string): nat
    requires forall k: nat :: k < |s| ==> IsDigit(s[k])
  {
    if s == "" then 0
    else assert IsDigit(s[|s| - 1]); 10 * DecimalValue(s[..|s| - 1]) + (s[|s| - 1] as int - '0' as int)
  }

  function ReadDecimal(s: string): (r: Option<Parsed<nat>>)
    ensures r.Some? ==> |r.value.rest| < |s|
  {
    var k := DigitsEnd(s, 0);
    DigitsEndSpec(s, 0);
    if k == 0 then None else Some(Parsed(DecimalValue(s[..k]), s[k..]))
  }

  lemma {:induction false} DecimalDigits(n: nat)
    ensures Decimal(n) != "" && forall k: nat :: k < |Decimal(n)| ==> IsDigit(Decimal(n)[k])
    ensures DecimalValue(Decimal(n)) == n
  {
    if n >= 10 {
      DecimalDigits(n / 10);
      assert Decimal(n)[..|Decimal(n)| - 1] == Decimal(n / 10);
    }
  }

  lemma DecimalPrinted(n: nat, rest: string)
    requires rest == "" || !IsDigit(rest[0])
    ensures ReadDecimal(Decimal(n) + rest) == Some(Parsed(n, rest))
  {
    DecimalDigits(n);
    var s := Decimal(n) + rest;
    forall k: nat | k < |Decimal(n)| ensures IsDigit(s[k]) {
      assert s[k] == Decimal(n)[k];
    }
    assert rest != "" ==> s[|Decimal(n)|] == rest[0];
    DigitsEndAt(s, 0, |Decimal(n)|);
    assert s[..|Decimal(n)|] == Decimal(n) && s[|Decimal(n)|..] == rest;
  }
}
