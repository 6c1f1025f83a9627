/**
 * TOON is lossless: a decoder for whole documents and the proof that it undoes the
 * printer on every JSON value.
 */
module ToonDecode {
  import opened Wrappers
  import opened Toon
  import opened ToonText
  import opened Sets

  // ---- the values the printer is used on --------------------------------------------

  /** Byte order of strings, as the sorted map orders its keys. */
  predicate StrLe(a: string, b: string) {
    a == "" || (b != "" && (a[0] < b[0] || (a[0] == b[0] && StrLe(a[1..], b[1..]))))
  }

  ghost predicate Ascending(ks: seq<string>) {
    forall i: nat, j: nat :: i < j < |ks| ==> StrLe(ks[i], ks[j]) && ks[i] != ks[j]
  }

  /** JSON values: numbers are numeric tokens, objects are sorted maps. */
  ghost predicate WellFormed(v: Value) {
    match v
    case Num(tok) => LooksNumeric(tok)
    case Arr(items) => AllWellFormed(items)
    case Obj(fields) => FieldsWellFormed(fields)
    case _ => true
  }

  ghost predicate AllWellFormed(items: seq<Value>) {
    forall i: nat :: i < |items| ==> WellFormed(items[i])
  }

  ghost predicate FieldsWellFormed(fields: seq<Field>) {
    && Ascending(Keys(fields))
    && forall i: nat :: i < |fields| ==> WellFormed(fields[i].value)
  }

  // ---- indentation ------------------------------------------------------------------

  function LeadSpaces(s: string): nat {
    if s == "" || s[0] != ' ' then 0 else 1 + LeadSpaces(s[1..])
  }

  /** The line begins at exactly this depth. */
  predicate AtDepth(s: string, depth: nat) {
    LeadSpaces(s) == 2 * depth && 2 * depth < |s|
  }

  /** What may follow a block of this depth: nothing, or a shallower line. */
  predicate Ends(rest: string, depth: nat) { rest == "" || LeadSpaces(rest) < 2 * depth }

  lemma {:induction false} LeadSpacesPrinted(n: nat, t: string)
    requires t != "" && t[0] != ' '
    ensures LeadSpaces(Spaces(n) + t) == n && (Spaces(n) + t)[n..] == t
  {
    if n > 0 {
      LeadSpacesPrinted(n - 1, t);
      assert (Spaces(n) + t)[1..] == Spaces(n - 1) + t;
    } else {
      assert Spaces(n) + t == t;
    }
  }

  // ---- the decoder ------------------------------------------------------------------

  /** The fields of an object at a depth, as long as lines begin exactly there. */
  function ReadFields(s: string, depth: nat): (r: Option<Parsed<seq<Field>>>)
    ensures r.Some? ==> |r.value.rest| <= |s|
    ensures r.Some? && r.value.value != [] ==> |r.value.rest| < |s|
    decreases |s|, 1
  {
    if !AtDepth(s, depth) then Some(Parsed([], s))
    else
      match ReadText(s[2 * depth..])
      case None => None
      case Some(Parsed(key, rest)) =>
        match ReadValue(rest, depth)
        case None => None
        case Some(Parsed(v, rest')) =>
          match ReadFields(rest', depth)
          case None => None
          case Some(Parsed(fields, rest'')) => Some(Parsed([Field(key, v)] + fields, rest''))
  }

  function LineEnd<T>(r: Option<Parsed<T>>): (r': Option<Parsed<T>>)
    ensures r'.Some? ==> r.Some? && |r'.value.rest| < |r.value.rest|
  {
    match r
    case None => None
    case Some(Parsed(v, rest)) =>
      match Expect(rest, "\n")
      case None => None
      case Some(rest') => Some(Parsed(v, rest'))
  }

  /** What follows a key. */
  function ReadValue(s: string, depth: nat): (r: Option<Parsed<Value>>)
    ensures r.Some? ==> |r.value.rest| < |s|
    decreases |s|, 3
  {
    if ":\n" <= s then
      match ReadFields(s[2..], depth + 1)
      case None => None
      case Some(Parsed(fields, rest)) => Some(Parsed(Obj(fields), rest))
    else if ": " <= s then LineEnd(ReadScalar(s[2..]))
    else ReadArray(s, depth)
  }

  /** A non-empty array from its opening bracket. */
  function ReadArray(s: string, depth: nat): (r: Option<Parsed<Value>>)
    ensures r.Some? ==> |r.value.rest| < |s|
    decreases |s|, 2
  {
    match Expect(s, "[")
    case None => None
    case Some(s1) =>
      match ReadDecimal(s1)
      case None => None
      case Some(Parsed(n, s2)) =>
        match Expect(s2, "]")
        case None => None
        case Some(s3) => ReadBody(s3, n, depth)
  }

  /** Inline scalars, a table, or a list of `n` elements. */
  function ReadBody(s: string, n: nat, depth: nat): (r: Option<Parsed<Value>>)
    ensures r.Some? ==> |r.value.rest| < |s|
    decreases |s|, 2
  {
    if ": " <= s then
      if n == 0 then None
      else
        match LineEnd(ReadScalars(s[2..], n))
        case None => None
        case Some(Parsed(vs, rest)) => Some(Parsed(Arr(vs), rest))
    else if "{" <= s then
      match ReadKeys(s[1..])
      case None => None
      case Some(Parsed(ks, s1)) =>
        match Expect(s1, "}:\n")
        case None => None
        case Some(s2) =>
          match ReadRows(s2, ks, n, depth + 1)
          case None => None
          case Some(Parsed(rows, rest)) => Some(Parsed(Arr(rows), rest))
    else
      match Expect(s, ":\n")
      case None => None
      case Some(s1) =>
        match ReadItems(s1, n, depth + 1)
        case None => None
        case Some(Parsed(items, rest)) => Some(Parsed(Arr(items), rest))
  }

  function Zip(ks: seq<string>, vs: seq<Value>): seq<Field>
    requires |ks| == |vs|
  {
    seq(|ks|, i requires 0 <= i < |ks| => Field(ks[i], vs[i]))
  }

  /** `n` table rows over the declared keys. */
  function ReadRows(s: string, ks: seq<string>, n: nat, depth: nat): (r: Option<Parsed<seq<Value>>>)
    ensures r.Some? ==> |r.value.rest| <= |s|
    decreases n
  {
    if n == 0 then Some(Parsed([], s))
    else if !AtDepth(s, depth) || ks == [] then None
    else
      match LineEnd(ReadScalars(s[2 * depth..], |ks|))
      case None => None
      case Some(Parsed(vs, rest)) =>
        if |vs| != |ks| then None
        else
          match ReadRows(rest, ks, n - 1, depth)
          case None => None
          case Some(Parsed(rows, rest')) => Some(Parsed([Obj(Zip(ks, vs))] + rows, rest'))
  }

  /** `n` list elements. */
  function ReadItems(s: string, n: nat, depth: nat): (r: Option<Parsed<seq<Value>>>)
    ensures r.Some? ==> |r.value.rest| <= |s|
    decreases |s|, 1, n
  {
    if n == 0 then Some(Parsed([], s))
    else if !AtDepth(s, depth) then None
    else
      match ReadMarked(s[2 * depth..], depth)
      case None => None
      case Some(Parsed(item, rest)) =>
        match ReadItems(rest, n - 1, depth)
        case None => None
        case Some(Parsed(items, rest')) => Some(Parsed([item] + items, rest'))
  }

  /** One list element from its `-` on. */
  function ReadMarked(s: string, depth: nat): (r: Option<Parsed<Value>>)
    ensures r.Some? ==> |r.value.rest| < |s|
    decreases |s|, 0
  {
    if "-\n" <= s then
      match ReadFields(s[2..], depth + 1)
      case None => None
      case Some(Parsed(fields, rest)) => Some(Parsed(Obj(fields), rest))
    else if "- " <= s then LineEnd(ReadScalar(s[2..]))
    else
      match Expect(s, "-")
      case None => None
      case Some(s1) => ReadArray(s1, depth)
  }

  /** The decoder. */
  function Decode(s: string): Option<Value> {
    if "[" <= s && !("[]" <= s) then Whole(ReadArray(s, 0))
    else
      match ReadScalar(s)
      case Some(Parsed(v, rest)) =>
        if rest == "\n" then Some(v) else Whole(ObjectOf(ReadFields(s, 0)))
      case None => None
  }

  /** A result that used up the input. */
  function Whole(r: Option<Parsed<Value>>): Option<Value> {
    if r.Some? && r.value.rest == "" then Some(r.value.value) else None
  }

  function ObjectOf(r: Option<Parsed<seq<Field>>>): Option<Parsed<Value>> {
    match r
    case Some(Parsed(fields, rest)) => Some(Parsed(Obj(fields), rest))
    case None => None
  }

  // ---- printed text in front of a rest ------------------------------------------------

  ghost function FieldsThen(fields: seq<Field>, depth: nat, rest: string): string { ObjectText(fields, depth) + rest }

  ghost function ValueThen(v: Value, depth: nat, rest: string): string { ValueText(v, depth) + rest }

  ghost function ArrayThen(items: seq<Value>, depth: nat, rest: string): string { ArrayText(items, depth) + rest }

  ghost function BodyThen(items: seq<Value>, depth: nat, rest: string): string { BodyText(items, depth) + rest }

  ghost function RowsThen(items: seq<Value>, ks: seq<string>, depth: nat, rest: string): string {
    RowsText(items, ks, depth) + rest
  }

  ghost function ItemsThen(items: seq<Value>, depth: nat, rest: string): string { ItemsText(items, depth) + rest }

  ghost function MarkedThen(item: Value, depth: nat, rest: string): string { MarkedText(item, depth) + rest }

  /** A line break, then the rest. */
  function Newline(rest: string): (s: string)
    ensures StopsAt(s)
  {
    "\n" + rest
  }

  function KeyThen(key: string, after: string): string { Quote(key) + after }

  lemma FieldsThenHead(fields: seq<Field>, depth: nat, rest: string)
    requires fields != []
    ensures FieldsThen(fields, depth, rest)
         == Indent(depth) + KeyThen(fields[0].key, ValueThen(fields[0].value, depth, FieldsThen(fields[1..], depth, rest)))
  {
    var f := fields[0];
    var i, q, v, t := Indent(depth), Quote(f.key), ValueText(f.value, depth), ObjectText(fields[1..], depth);
    assert ObjectText(fields, depth) == (i + q + v) + t;
    hide *;
    Assoc(i + q + v, t, rest);
    Assoc(i + q, v, t + rest);
    Assoc(i, q, v + (t + rest));
    NamesFields(fields, depth, rest);
    NamesValue(f.value, depth, t + rest);
    NamesFields(fields[1..], depth, rest);
    NamesKey(f.key, v + (t + rest));
  }

  lemma NamesFields(fields: seq<Field>, depth: nat, rest: string)
    ensures FieldsThen(fields, depth, rest) == ObjectText(fields, depth) + rest
  {
  }

  lemma NamesValue(v: Value, depth: nat, rest: string)
    ensures ValueThen(v, depth, rest) == ValueText(v, depth) + rest
  {
  }

  lemma NamesKey(key: string, after: string)
    ensures KeyThen(key, after) == Quote(key) + after
  {
  }

  lemma ValueThenObject(fields: seq<Field>, depth: nat, rest: string)
    requires fields != []
    ensures ValueThen(Obj(fields), depth, rest) == ":\n" + FieldsThen(fields, depth + 1, rest)
  {
    hide ObjectText;
    Assoc(":\n", ObjectText(fields, depth + 1), rest);
  }

  lemma ValueThenScalar(v: Value, depth: nat, rest: string)
    requires IsScalar(v)
    ensures ValueThen(v, depth, rest) == ": " + (Scalar(v) + Newline(rest))
  {
    assert ValueText(v, depth) == ": " + Scalar(v) + "\n";
    hide Scalar, ValueText;
    Assoc(": " + Scalar(v), "\n", rest);
    Assoc(": ", Scalar(v), "\n" + rest);
  }

  lemma ArrayThenHead(items: seq<Value>, depth: nat, rest: string)
    ensures ArrayThen(items, depth, rest) == "[" + (Decimal(|items|) + ("]" + BodyThen(items, depth, rest)))
  {
    var d, b := Decimal(|items|), BodyText(items, depth);
    assert ArrayText(items, depth) == "[" + d + "]" + b;
    hide Decimal, BodyText, ArrayText;
    Assoc("[" + d + "]", b, rest);
    Assoc("[" + d, "]", b + rest);
    Assoc("[", d, "]" + (b + rest));
  }

  lemma BodyThenInline(items: seq<Value>, depth: nat, rest: string)
    requires AllScalars(items)
    ensures BodyThen(items, depth, rest) == ": " + ScalarsLine(items, Newline(rest))
  {
    var l := Delimited(Scalars(items));
    assert BodyText(items, depth) == ": " + l + "\n";
    hide Delimited, Scalars, BodyText;
    Assoc(": " + l, "\n", rest);
    Assoc(": ", l, "\n" + rest);
  }

  function Closing(rest: string): (s: string)
    ensures s != "" && s[0] == '}'
  {
    "}:\n" + rest
  }

  lemma BodyThenTable(items: seq<Value>, depth: nat, rest: string)
    requires !AllScalars(items) && Uniform(items)
    ensures var ks := Keys(items[0].fields);
            BodyThen(items, depth, rest) == "{" + KeysLine(ks, Closing(RowsThen(items, ks, depth + 1, rest)))
  {
    var ks := Keys(items[0].fields);
    var l, r := Delimited(Quotes(ks)), RowsText(items, ks, depth + 1);
    assert BodyText(items, depth) == ("{" + l + "}:\n") + r;
    hide Delimited, Quotes, RowsText, BodyText;
    Assoc("{" + l + "}:\n", r, rest);
    Assoc("{" + l, "}:\n", r + rest);
    Assoc("{", l, "}:\n" + (r + rest));
  }

  lemma BodyThenList(items: seq<Value>, depth: nat, rest: string)
    requires !AllScalars(items) && !Uniform(items)
    ensures BodyThen(items, depth, rest) == ":\n" + ItemsThen(items, depth + 1, rest)
  {
    hide ItemsText;
    Assoc(":\n", ItemsText(items, depth + 1), rest);
  }

  lemma RowsThenHead(items: seq<Value>, ks: seq<string>, depth: nat, rest: string)
    requires items != []
    ensures RowsThen(items, ks, depth, rest)
         == Indent(depth) + (Delimited(RowParts(items[0], ks)) + Newline(RowsThen(items[1..], ks, depth, rest)))
  {
    var i, l, r := Indent(depth), Delimited(RowParts(items[0], ks)), RowsText(items[1..], ks, depth);
    assert RowsText(items, ks, depth) == (i + l + "\n") + r;
    hide Indent, Delimited, RowsText;
    Assoc(i + l + "\n", r, rest);
    Assoc(i + l, "\n", r + rest);
    Assoc(i, l, "\n" + (r + rest));
  }

  lemma ItemsThenHead(items: seq<Value>, depth: nat, rest: string)
    requires items != []
    ensures ItemsThen(items, depth, rest)
         == Indent(depth) + MarkedThen(items[0], depth, ItemsThen(items[1..], depth, rest))
  {
    var i, m, t := Indent(depth), MarkedText(items[0], depth), ItemsText(items[1..], depth);
    assert ItemsText(items, depth) == (i + m) + t;
    hide Indent, MarkedText, ItemsText;
    Assoc(i + m, t, rest);
    Assoc(i, m, t + rest);
  }

  lemma MarkedThenObject(fields: seq<Field>, depth: nat, rest: string)
    requires fields != []
    ensures MarkedThen(Obj(fields), depth, rest) == "-\n" + FieldsThen(fields, depth + 1, rest)
  {
    hide ObjectText;
    Assoc("-\n", ObjectText(fields, depth + 1), rest);
  }

  lemma MarkedThenArray(items: seq<Value>, depth: nat, rest: string)
    requires items != []
    ensures MarkedThen(Arr(items), depth, rest) == "-" + ArrayThen(items, depth, rest)
  {
    hide ArrayText;
    Assoc("-", ArrayText(items, depth), rest);
  }

  lemma MarkedThenScalar(v: Value, depth: nat, rest: string)
    requires IsScalar(v)
    ensures MarkedThen(v, depth, rest) == "- " + (Scalar(v) + Newline(rest))
  {
    assert MarkedText(v, depth) == "- " + Scalar(v) + "\n";
    hide Scalar, MarkedText;
    Assoc("- " + Scalar(v), "\n", rest);
    Assoc("- ", Scalar(v), "\n" + rest);
  }

  // ---- reading steps ------------------------------------------------------------------

  lemma IndentRead(depth: nat, t: string)
    requires t != "" && t[0] != ' '
    ensures AtDepth(Indent(depth) + t, depth) && (Indent(depth) + t)[2 * depth..] == t
    ensures LeadSpaces(Indent(depth) + t) == 2 * depth
  {
    LeadSpacesPrinted(2 * depth, t);
  }

  lemma LineEndRead<T>(v: T, rest: string)
    ensures LineEnd(Some(Parsed(v, Newline(rest)))) == Some(Parsed(v, rest))
  {
    ExpectPrinted("\n", rest);
  }

  lemma FieldsStop(rest: string, depth: nat)
    requires Ends(rest, depth)
    ensures ReadFields(rest, depth) == Some(Parsed([], rest))
  {
  }

  lemma FieldsStep(depth: nat, body: string, key: string, after: string, v: Value, next: string,
                   fields: seq<Field>, rest: string)
    requires body != "" && body[0] != ' '
    requires ReadText(body) == Some(Parsed(key, after))
    requires ReadValue(after, depth) == Some(Parsed(v, next))
    requires ReadFields(next, depth) == Some(Parsed(fields, rest))
    ensures ReadFields(Indent(depth) + body, depth) == Some(Parsed([Field(key, v)] + fields, rest))
  {
    IndentRead(depth, body);
    hide ReadText, ReadValue, Indent, AtDepth;
  }

  lemma ValueObjectStep(t: string, depth: nat, fields: seq<Field>, rest: string)
    requires ReadFields(t, depth + 1) == Some(Parsed(fields, rest))
    ensures ReadValue(":\n" + t, depth) == Some(Parsed(Obj(fields), rest))
  {
    assert (":\n" + t)[2..] == t;
    hide ReadFields;
  }

  lemma ValueScalarStep(t: string, depth: nat, v: Value, rest: string)
    requires ReadScalar(t) == Some(Parsed(v, Newline(rest)))
    ensures ReadValue(": " + t, depth) == Some(Parsed(v, rest))
  {
    assert (": " + t)[2..] == t && (": " + t)[1] == ' ';
    LineEndRead(v, rest);
    hide ReadScalar, LineEnd, Newline;
  }

  lemma ValueArrayStep(s: string, depth: nat)
    requires s != "" && s[0] == '['
    ensures ReadValue(s, depth) == ReadArray(s, depth)
  {
    hide ReadArray;
  }

  lemma ArrayStep(n: nat, body: string, depth: nat)
    ensures ReadArray("[" + (Decimal(n) + ("]" + body)), depth) == ReadBody(body, n, depth)
  {
    var t := Decimal(n) + ("]" + body);
    ExpectPrinted("[", t);
    assert ("]" + body)[0] == ']';
    DecimalPrinted(n, "]" + body);
    ExpectPrinted("]", body);
    hide ReadBody, ReadDecimal, Decimal, Expect;
  }

  lemma InlineStep(t: string, n: nat, depth: nat, vs: seq<Value>, rest: string)
    requires n > 0 && ReadScalars(t, n) == Some(Parsed(vs, Newline(rest)))
    ensures ReadBody(": " + t, n, depth) == Some(Parsed(Arr(vs), rest))
  {
    assert (": " + t)[2..] == t;
    LineEndRead(vs, rest);
    hide ReadScalars, LineEnd, Newline;
  }

  lemma TableStep(t: string, n: nat, depth: nat, ks: seq<string>, s: string, rows: seq<Value>, rest: string)
    requires ReadKeys(t) == Some(Parsed(ks, Closing(s)))
    requires ReadRows(s, ks, n, depth + 1) == Some(Parsed(rows, rest))
    ensures ReadBody("{" + t, n, depth) == Some(Parsed(Arr(rows), rest))
  {
    assert ("{" + t)[1..] == t && ("{" + t)[0] == '{';
    ExpectPrinted("}:\n", s);
    hide ReadKeys, ReadRows, Expect;
  }

  lemma ListStep(t: string, n: nat, depth: nat, items: seq<Value>, rest: string)
    requires ReadItems(t, n, depth + 1) == Some(Parsed(items, rest))
    ensures ReadBody(":\n" + t, n, depth) == Some(Parsed(Arr(items), rest))
  {
    assert (":\n" + t)[0] == ':' && (":\n" + t)[1] == '\n';
    ExpectPrinted(":\n", t);
    hide ReadItems, Expect;
  }

  lemma RowStep(t: string, ks: seq<string>, n: nat, depth: nat, vs: seq<Value>, next: string,
                rows: seq<Value>, rest: string)
    requires t != "" && t[0] != ' ' && ks != [] && |vs| == |ks|
    requires ReadScalars(t, |ks|) == Some(Parsed(vs, Newline(next)))
    requires ReadRows(next, ks, n, depth) == Some(Parsed(rows, rest))
    ensures ReadRows(Indent(depth) + t, ks, n + 1, depth) == Some(Parsed([Obj(Zip(ks, vs))] + rows, rest))
  {
    IndentRead(depth, t);
    LineEndRead(vs, next);
    hide ReadScalars, Indent, AtDepth, LineEnd, Newline, Zip;
  }

  lemma ItemStep(t: string, n: nat, depth: nat, item: Value, next: string, items: seq<Value>, rest: string)
    requires t != "" && t[0] != ' '
    requires ReadMarked(t, depth) == Some(Parsed(item, next))
    requires ReadItems(next, n, depth) == Some(Parsed(items, rest))
    ensures ReadItems(Indent(depth) + t, n + 1, depth) == Some(Parsed([item] + items, rest))
  {
    IndentRead(depth, t);
    hide ReadMarked, Indent, AtDepth;
  }

  lemma MarkedObjectStep(t: string, depth: nat, fields: seq<Field>, rest: string)
    requires ReadFields(t, depth + 1) == Some(Parsed(fields, rest))
    ensures ReadMarked("-\n" + t, depth) == Some(Parsed(Obj(fields), rest))
  {
    assert ("-\n" + t)[2..] == t;
    hide ReadFields;
  }

  lemma MarkedScalarStep(t: string, depth: nat, v: Value, rest: string)
    requires ReadScalar(t) == Some(Parsed(v, Newline(rest)))
    ensures ReadMarked("- " + t, depth) == Some(Parsed(v, rest))
  {
    assert ("- " + t)[2..] == t && ("- " + t)[1] == ' ';
    LineEndRead(v, rest);
    hide ReadScalar, LineEnd, Newline;
  }

  lemma MarkedArrayStep(t: string, depth: nat)
    requires t != "" && t[0] == '['
    ensures ReadMarked("-" + t, depth) == ReadArray(t, depth)
  {
    assert ("-" + t)[0] == '-' && ("-" + t)[1] == '[';
    ExpectPrinted("-", t);
    hide ReadArray, Expect;
  }

  // ---- tables -------------------------------------------------------------------------

  lemma {:induction false} StrTotalOrder(a: string, b: string)
    requires StrLe(a, b) && StrLe(b, a)
    ensures a == b
  {
    if a != "" {
      StrTotalOrder(a[1..], b[1..]);
      assert a == [a[0]] + a[1..] && b == [b[0]] + b[1..];
    }
  }

  ghost function KeySet(ks: seq<string>): set<string> { set k | k in ks }

  lemma {:induction false} AscendingCard(ks: seq<string>)
    requires Ascending(ks)
    ensures |KeySet(ks)| == |ks|
    decreases |ks|
  {
    if ks == [] {
      assert KeySet(ks) == {};
    } else {
      var init, last := ks[..|ks| - 1], ks[|ks| - 1];
      AscendingCard(init);
      assert ks == init + [last];
      assert last !in init;
      assert KeySet(ks) == KeySet(init) + {last};
    }
  }

  /** Sorted key lists over the same keys are the same list. */
  lemma {:induction false} AscendingUnique(a: seq<string>, b: seq<string>)
    requires Ascending(a) && Ascending(b) && KeySet(a) == KeySet(b)
    ensures a == b
    decreases |a|
  {
    AscendingCard(a);
    AscendingCard(b);
    if a != [] {
      assert a[0] in KeySet(b) && b[0] in KeySet(a);
      if a[0] != b[0] {
        StrTotalOrder(a[0], b[0]);
      }
      forall k ensures k in KeySet(a[1..]) <==> k in KeySet(b[1..]) {
        assert k in a[1..] <==> k in KeySet(a) && k != a[0];
        assert k in b[1..] <==> k in KeySet(b) && k != b[0];
      }
      AscendingUnique(a[1..], b[1..]);
      assert a == [a[0]] + a[1..] && b == [b[0]] + b[1..];
    }
  }

  function Values(fields: seq<Field>): (vs: seq<Value>)
    ensures |vs| == |fields|
  {
    seq(|fields|, i requires 0 <= i < |fields| => fields[i].value)
  }

  /** A row's keys are the declared keys, in the declared order. */
  lemma RowKeys(item: Value, ks: seq<string>)
    requires RowOf(item, ks) && Ascending(ks) && Ascending(Keys(item.fields))
    ensures Keys(item.fields) == ks
  {
    var own := Keys(item.fields);
    AscendingCard(ks);
    AscendingCard(own);
    forall k | k in KeySet(ks) ensures k in KeySet(own) {
      var i: nat :| i < |ks| && ks[i] == k;
      assert HasKey(item.fields, ks[i]);
      var j: nat :| j < |item.fields| && item.fields[j].key == k;
      assert own[j] == k;
    }
    SubsetCard(KeySet(ks), KeySet(own));
    AscendingUnique(own, ks);
  }

  lemma {:induction false} LookupAt(fields: seq<Field>, i: nat)
    requires i < |fields| && Ascending(Keys(fields))
    ensures HasKey(fields, fields[i].key) && Lookup(fields, fields[i].key) == fields[i].value
    decreases |fields|
  {
    if i > 0 {
      assert Keys(fields)[0] == fields[0].key && Keys(fields)[i] == fields[i].key;
      assert Keys(fields[1..]) == Keys(fields)[1..];
      LookupAt(fields[1..], i - 1);
      assert fields[1..][i - 1] == fields[i];
    }
  }

  lemma RowCells(item: Value, ks: seq<string>)
    requires RowOf(item, ks) && Ascending(ks) && FieldsWellFormed(item.fields)
    ensures var vs := Values(item.fields);
            && |vs| == |ks| && RowParts(item, ks) == Scalars(vs) && item == Obj(Zip(ks, vs))
            && forall i: nat :: i < |vs| ==> Printable(vs[i])
  {
    RowKeys(item, ks);
    var vs := Values(item.fields);
    forall i: nat | i < |ks| ensures RowParts(item, ks)[i] == Scalar(vs[i]) && Printable(vs[i]) {
      assert ks[i] == item.fields[i].key;
      LookupAt(item.fields, i);
    }
    assert Zip(ks, vs) == item.fields;
  }

  lemma ScalarStart(v: Value)
    requires Printable(v)
    ensures Scalar(v) != "" && Scalar(v)[0] != ' '
  {
    match v
    case Num(tok) =>
      NumericChars(tok);
      assert NumericChar(tok[0]);
    case Str(s) => TextPrinted(s, "");
    case _ =>
  }

  lemma LineStart(vs: seq<Value>, rest: string)
    requires vs != [] && Printable(vs[0])
    ensures ScalarsLine(vs, rest) != "" && ScalarsLine(vs, rest)[0] != ' '
  {
    ScalarStart(vs[0]);
    if |vs| > 1 {
      ScalarsLineHead(vs, rest);
    }
    hide Scalar;
  }

  lemma {:induction false} RowsPrinted(items: seq<Value>, ks: seq<string>, depth: nat, rest: string)
    requires ks != [] && Ascending(ks) && forall i: nat :: i < |items| ==> RowOf(items[i], ks)
    requires AllWellFormed(items)
    ensures ReadRows(RowsThen(items, ks, depth, rest), ks, |items|, depth) == Some(Parsed(items, rest))
    decreases |items|
  {
    hide *;
    if items == [] {
      NoRows(ks, depth, rest);
    } else {
      RowFacts(items, ks);
      RowCells(items[0], ks);
      var vs := Values(items[0].fields);
      RowsPrinted(items[1..], ks, depth, rest);
      RowsThenHead(items, ks, depth, rest);
      var next := RowsThen(items[1..], ks, depth, rest);
      NamesLine(vs, Newline(next));
      ScalarsPrinted(vs, Newline(next));
      LineStart(vs, Newline(next));
      RowStep(ScalarsLine(vs, Newline(next)), ks, |items| - 1, depth, vs, next, items[1..], rest);
      assert items == [items[0]] + items[1..];
    }
  }

  lemma NoRows(ks: seq<string>, depth: nat, rest: string)
    ensures ReadRows(RowsThen([], ks, depth, rest), ks, 0, depth) == Some(Parsed([], rest))
  {
    assert RowsThen([], ks, depth, rest) == rest;
  }

  lemma RowFacts(items: seq<Value>, ks: seq<string>)
    requires items != [] && AllWellFormed(items) && RowOf(items[0], ks)
    ensures items[0].Obj? && FieldsWellFormed(items[0].fields) && AllWellFormed(items[1..])
  {
    assert WellFormed(items[0]);
  }

  lemma NamesLine(vs: seq<Value>, rest: string)
    ensures ScalarsLine(vs, rest) == Delimited(Scalars(vs)) + rest
  {
  }

  // ---- the round trip -----------------------------------------------------------------

  lemma {:induction false} FieldsPrinted(fields: seq<Field>, depth: nat, rest: string)
    requires FieldsWellFormed(fields) && Ends(rest, depth)
    ensures ReadFields(FieldsThen(fields, depth, rest), depth) == Some(Parsed(fields, rest))
    decreases fields, 0
  {
    if fields == [] {
      assert FieldsThen(fields, depth, rest) == rest;
      FieldsStop(rest, depth);
    } else {
      var f := fields[0];
      assert Keys(fields[1..]) == Keys(fields)[1..];
      assert fields == [f] + fields[1..] && f == Field(f.key, f.value);
      FieldsPrinted(fields[1..], depth, rest);
      var next := FieldsThen(fields[1..], depth, rest);
      NextEnds(fields[1..], depth, rest);
      ValuePrinted(f.value, depth, next);
      hide *;
      var after := ValueThen(f.value, depth, next);
      FieldsThenHead(fields, depth, rest);
      ValueStart(f.value, depth, next);
      KeyPrinted(f.key, after);
      FieldsStep(depth, KeyThen(f.key, after), f.key, after, f.value, next, fields[1..], rest);
    }
  }

  lemma KeyPrinted(key: string, after: string)
    requires StopsAt(after)
    ensures ReadText(KeyThen(key, after)) == Some(Parsed(key, after))
    ensures KeyThen(key, after) != "" && KeyThen(key, after)[0] != ' '
  {
    TextPrinted(key, after);
    hide Quote, ReadText;
  }

  /** After one field comes the next field's line, or what ends the object. */
  lemma NextEnds(fields: seq<Field>, depth: nat, rest: string)
    requires Ends(rest, depth)
    ensures Ends(FieldsThen(fields, depth, rest), depth + 1)
  {
    if fields == [] {
      assert FieldsThen(fields, depth, rest) == rest;
    } else {
      FieldsThenHead(fields, depth, rest);
      var after := ValueThen(fields[0].value, depth, FieldsThen(fields[1..], depth, rest));
      KeyStart(fields[0].key, after);
      IndentRead(depth, KeyThen(fields[0].key, after));
      hide KeyThen, ValueThen, FieldsThen, Indent;
    }
  }

  lemma KeyStart(key: string, after: string)
    ensures KeyThen(key, after) != "" && KeyThen(key, after)[0] != ' '
  {
    TextPrinted(key, "");
    hide Quote;
  }

  lemma ValueStart(v: Value, depth: nat, rest: string)
    ensures StopsAt(ValueThen(v, depth, rest))
  {
    hide ObjectText, Scalar;
    match v
    case Arr(items) =>
      if items != [] {
        ArrayThenHead(items, depth, rest);
      }
    case _ =>
  }

  lemma {:induction false} ValuePrinted(v: Value, depth: nat, rest: string)
    requires WellFormed(v) && Ends(rest, depth + 1)
    ensures ReadValue(ValueThen(v, depth, rest), depth) == Some(Parsed(v, rest))
    decreases v, 2
  {
    if IsScalar(v) {
      assert Printable(v);
      hide *;
      ValueThenScalar(v, depth, rest);
      ScalarPrinted(v, Newline(rest));
      ValueScalarStep(Scalar(v) + Newline(rest), depth, v, rest);
    } else if v.Obj? {
      FieldsPrinted(v.fields, depth + 1, rest);
      ValueThenObject(v.fields, depth, rest);
      hide *;
      ValueObjectStep(FieldsThen(v.fields, depth + 1, rest), depth, v.fields, rest);
    } else {
      ArrayPrinted(v.items, depth, rest);
      NamesArray(v.items, depth, rest);
      hide *;
      ValueArrayStep(ArrayThen(v.items, depth, rest), depth);
    }
  }

  lemma NamesArray(items: seq<Value>, depth: nat, rest: string)
    requires items != []
    ensures ValueThen(Arr(items), depth, rest) == ArrayThen(items, depth, rest)
    ensures ArrayThen(items, depth, rest) != "" && ArrayThen(items, depth, rest)[0] == '['
  {
    ArrayThenHead(items, depth, rest);
  }

  lemma {:induction false} ArrayPrinted(items: seq<Value>, depth: nat, rest: string)
    requires items != [] && AllWellFormed(items) && Ends(rest, depth + 1)
    ensures ReadArray(ArrayThen(items, depth, rest), depth) == Some(Parsed(Arr(items), rest))
    decreases items, 2
  {
    BodyPrinted(items, depth, rest);
    hide *;
    ArrayThenHead(items, depth, rest);
    ArrayStep(|items|, BodyThen(items, depth, rest), depth);
  }

  /** A uniform array of well-formed values is rows over the first item's ascending keys. */
  lemma TableRows(items: seq<Value>)
    requires Uniform(items) && AllWellFormed(items)
    ensures var ks := Keys(items[0].fields);
            ks != [] && Ascending(ks) && forall i: nat :: i < |items| ==> RowOf(items[i], ks)
  {
    hide RowOf, Ascending;
    assert WellFormed(items[0]);
    assert FieldsWellFormed(items[0].fields);
    assert |Keys(items[0].fields)| == |items[0].fields|;
  }

  lemma {:induction false} BodyPrinted(items: seq<Value>, depth: nat, rest: string)
    requires items != [] && AllWellFormed(items) && Ends(rest, depth + 1)
    ensures ReadBody(BodyThen(items, depth, rest), |items|, depth) == Some(Parsed(Arr(items), rest))
    decreases items, 1
  {
    if AllScalars(items) {
      assert forall i: nat :: i < |items| ==> WellFormed(items[i]) && Printable(items[i]);
      hide *;
      BodyThenInline(items, depth, rest);
      ScalarsPrinted(items, Newline(rest));
      InlineStep(ScalarsLine(items, Newline(rest)), |items|, depth, items, rest);
    } else if Uniform(items) {
      var ks := Keys(items[0].fields);
      TableRows(items);
      RowsPrinted(items, ks, depth + 1, rest);
      BodyThenTable(items, depth, rest);
      hide *;
      var rows := RowsThen(items, ks, depth + 1, rest);
      KeysPrinted(ks, Closing(rows));
      TableStep(KeysLine(ks, Closing(rows)), |items|, depth, ks, rows, items, rest);
    } else {
      ItemsPrinted(items, depth + 1, rest);
      BodyThenList(items, depth, rest);
      hide *;
      ListStep(ItemsThen(items, depth + 1, rest), |items|, depth, items, rest);
    }
  }

  lemma NoItems(depth: nat, rest: string)
    ensures ItemsThen([], depth, rest) == rest
    ensures ReadItems(rest, 0, depth) == Some(Parsed([], rest))
  {
  }

  lemma {:induction false} ItemsPrinted(items: seq<Value>, depth: nat, rest: string)
    requires AllWellFormed(items) && Ends(rest, depth)
    ensures ReadItems(ItemsThen(items, depth, rest), |items|, depth) == Some(Parsed(items, rest))
    decreases items, 0
  {
    hide ItemsThen, ReadItems, ReadMarked, MarkedThen, Ends;
    if items == [] {
      NoItems(depth, rest);
    } else {
      assert WellFormed(items[0]) && AllWellFormed(items[1..]);
      assert items == [items[0]] + items[1..];
      ItemsPrinted(items[1..], depth, rest);
      var next := ItemsThen(items[1..], depth, rest);
      NextItemEnds(items[1..], depth, rest);
      MarkedPrinted(items[0], depth, next);
      hide *;
      ItemsThenHead(items, depth, rest);
      MarkStart(items[0], depth, next);
      ItemStep(MarkedThen(items[0], depth, next), |items| - 1, depth, items[0], next, items[1..], rest);
    }
  }

  lemma MarkStart(item: Value, depth: nat, rest: string)
    ensures MarkedThen(item, depth, rest) != "" && MarkedThen(item, depth, rest)[0] == '-'
  {
    hide ObjectText, ArrayText, Scalar;
  }

  lemma NextItemEnds(items: seq<Value>, depth: nat, rest: string)
    requires Ends(rest, depth)
    ensures Ends(ItemsThen(items, depth, rest), depth + 1)
  {
    if items == [] {
      assert ItemsThen(items, depth, rest) == rest;
    } else {
      ItemsThenHead(items, depth, rest);
      var t := MarkedThen(items[0], depth, ItemsThen(items[1..], depth, rest));
      MarkStart(items[0], depth, ItemsThen(items[1..], depth, rest));
      hide MarkedThen, ItemsThen, Indent;
      IndentRead(depth, t);
    }
  }

  lemma {:induction false} MarkedPrinted(item: Value, depth: nat, rest: string)
    requires WellFormed(item) && Ends(rest, depth + 1)
    ensures ReadMarked(MarkedThen(item, depth, rest), depth) == Some(Parsed(item, rest))
    decreases item, 2
  {
    if IsScalar(item) {
      assert Printable(item);
      hide *;
      MarkedThenScalar(item, depth, rest);
      ScalarPrinted(item, Newline(rest));
      MarkedScalarStep(Scalar(item) + Newline(rest), depth, item, rest);
    } else if item.Obj? {
      FieldsPrinted(item.fields, depth + 1, rest);
      MarkedThenObject(item.fields, depth, rest);
      hide *;
      MarkedObjectStep(FieldsThen(item.fields, depth + 1, rest), depth, item.fields, rest);
    } else {
      ArrayPrinted(item.items, depth, rest);
      MarkedThenArray(item.items, depth, rest);
      NamesArray(item.items, depth, rest);
      hide *;
      MarkedArrayStep(ArrayThen(item.items, depth, rest), depth);
    }
  }

  /** TOON is lossless: the decoder undoes the printer on every JSON value. */
  lemma RoundTrip(v: Value)
    requires WellFormed(v)
    ensures Decode(Text(v)) == Some(v)
  {
    if IsScalar(v) {
      ScalarDocument(v);
    } else if v.Arr? {
      ArrayPrinted(v.items, 0, "");
      NamesArray(v.items, 0, "");
      ArrayThenHead(v.items, 0, "");
      DecimalDigits(|v.items|);
      ArrayDocument(v.items);
    } else {
      FieldsPrinted(v.fields, 0, "");
      ObjectDocument(v.fields);
    }
  }

  lemma ScalarDocument(v: Value)
    requires WellFormed(v) && IsScalar(v)
    ensures Decode(Text(v)) == Some(v)
  {
    assert Printable(v);
    ScalarPrinted(v, "\n");
    assert Text(v) == Scalar(v) + "\n";
    ScalarNotArray(v, "\n");
    hide Scalar, ReadScalar, Text;
  }

  lemma ScalarNotArray(v: Value, rest: string)
    requires Printable(v)
    ensures "[" <= Scalar(v) + rest ==> "[]" <= Scalar(v) + rest
  {
    match v
    case Num(tok) =>
      NumericChars(tok);
      assert NumericChar(tok[0]) && (tok + rest)[0] == tok[0];
    case Str(s) =>
      TextPrinted(s, "");
      hide Quote;
      assert (Quote(s) + rest)[0] == Quote(s)[0];
    case Arr(_) => assert ("[]" + rest)[..2] == "[]";
    case _ => assert (Scalar(v) + rest)[0] == Scalar(v)[0];
  }

  lemma ArrayDocument(items: seq<Value>)
    requires items != [] && ReadArray(ArrayThen(items, 0, ""), 0) == Some(Parsed(Arr(items), ""))
    ensures Decode(Text(Arr(items))) == Some(Arr(items))
  {
    var s := Text(Arr(items));
    assert s + "" == s;
    ArrayThenHead(items, 0, "");
    DecimalDigits(|items|);
    hide ReadArray, Decimal, BodyThen, ArrayText;
    var d := Decimal(|items|);
    assert s == "[" + (d + ("]" + BodyThen(items, 0, "")));
    assert s[0] == '[' && s[1] == d[0];
  }

  lemma ObjectDocument(fields: seq<Field>)
    requires fields != [] && ReadFields(FieldsThen(fields, 0, ""), 0) == Some(Parsed(fields, ""))
    ensures Decode(Text(Obj(fields))) == Some(Obj(fields))
  {
    var s := Text(Obj(fields));
    assert s + "" == s;
    FieldsThenHead(fields, 0, "");
    var key, after := fields[0].key, ValueThen(fields[0].value, 0, FieldsThen(fields[1..], 0, ""));
    assert Indent(0) == "";
    assert s == KeyThen(key, after);
    ValueStart(fields[0].value, 0, FieldsThen(fields[1..], 0, ""));
    ValueNotNewline(fields[0].value, 0, FieldsThen(fields[1..], 0, ""));
    KeyNotScalar(key, after);
    hide ReadFields, ReadScalar, KeyThen, FieldsThen, Text;
  }

  lemma ValueNotNewline(v: Value, depth: nat, rest: string)
    ensures ValueThen(v, depth, rest) != "\n"
  {
    hide ObjectText, Scalar;
    match v
    case Arr(items) =>
      if items != [] {
        ArrayThenHead(items, depth, rest);
      }
    case _ =>
  }

  /** Read as a scalar, an object's first key leaves more than a line break. */
  lemma KeyNotScalar(key: string, after: string)
    requires StopsAt(after) && after != "\n"
    ensures !("[" <= KeyThen(key, after))
    ensures ReadScalar(KeyThen(key, after)) == Some(Parsed(if NeedsQuotes(key) then Str(key) else Classify(key), after))
  {
    TextPrinted(key, after);
    NamesKey(key, after);
    hide Quote, ReadScalar, NeedsQuotes, Classify, KeyThen;
    assert (Quote(key) + after)[0] == Quote(key)[0];
    if NeedsQuotes(key) {
      StrPrinted(key, after);
    } else {
      BareFacts(key);
      BarePrinted(key, after);
    }
  }

  /** Two JSON values with the same TOON text are the same value. */
  lemma TextInjective(v: Value, w: Value)
    requires WellFormed(v) && WellFormed(w) && Text(v) == Text(w)
    ensures v == w
  {
    RoundTrip(v);
    RoundTrip(w);
  }
}
