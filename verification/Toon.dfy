/**
 * TOON, a compact encoding of JSON values: the printer. Objects are field lists with strictly
 * ascending keys (a sorted map); numbers are their printed tokens.
 */
module Toon {
  // Every writing method appends exactly the text its specification function gives.

  datatype Field = Field(key: string, value: Value)

  datatype Value =
    | Null
    | Bool(b: bool)
    | Num(tok: string)
    | Str(s: string)
    | Arr(items: seq<Value>)
    | Obj(fields: seq<Field>)

  // ---- characters -----------------------------------------------------------------

  predicate IsDigit(c: char) { '0' <= c <= '9' }

  /** General category Cc. */
  predicate IsControl(c: char) { c < ' ' || (0x7f <= c as int <= 0x9f) }

  /** Unicode White_Space, as `trim` uses it. */
  predicate IsWhite(c: char) {
    var n := c as int;
    || 0x9 <= n <= 0xd || n == 0x20 || n == 0x85 || n == 0xa0 || n == 0x1680 || 0x2000 <= n <= 0x200a
    || n == 0x2028 || n == 0x2029 || n == 0x202f || n == 0x205f || n == 0x3000
  }

  /** Characters that force quoting, and so never occur in unquoted text. */
  predicate IsStop(c: char) {
    || c == ':' || c == '"' || c == '\\' || c == ',' || c == '[' || c == ']' || c == '{' || c == '}' || IsControl(c)
  }

  // ---- numbers --------------------------------------------------------------------

  /** The first position at or after `i` that holds no digit. */
  function DigitsEnd(s: string, i: nat): (j: nat)
    requires i <= |s|
    ensures i <= j <= |s|
    decreases |s| - i
  {
    if i < |s| && IsDigit(s[i]) then DigitsEnd(s, i + 1) else i
  }

  lemma {:induction false} DigitsEndSpec(s: string, i: nat)
    requires i <= |s|
    ensures var j := DigitsEnd(s, i);
            (forall k: nat :: i <= k < j ==> IsDigit(s[k])) && (j < |s| ==> !IsDigit(s[j]))
    decreases |s| - i
  {
    if i < |s| && IsDigit(s[i]) {
      DigitsEndSpec(s, i + 1);
    }
  }

  predicate At(s: string, i: nat, c: char) { i < |s| && s[i] == c }

  /** `-?digits(.digits)?(e[+-]?digits)?`, with a digit somewhere in the mantissa. */
  predicate LooksNumeric(s: string) {
    var a := if At(s, 0, '-') then 1 else 0;
    var b := DigitsEnd(s, a);
    var c := if At(s, b, '.') then DigitsEnd(s, b + 1) else b;
    var saw := b > a || c > b + 1;
    if At(s, c, 'e') || At(s, c, 'E') then
      var d := if At(s, c + 1, '+') || At(s, c + 1, '-') then c + 2 else c + 1;
      var e := DigitsEnd(s, d);
      e > d && saw && e == |s|
    else saw && c == |s|
  }

  method ConsumeDigits(s: string, i: nat) returns (j: nat, any: bool)
    requires i <= |s|
    ensures j == DigitsEnd(s, i) && (any <==> j > i)
  {
    j, any := i, false;
    while j < |s| && IsDigit(s[j])
      invariant i <= j <= |s| && DigitsEnd(s, j) == DigitsEnd(s, i)
      invariant any <==> j > i
    {
      j, any := j + 1, true;
    }
  }

  method LooksNumericScan(s: string) returns (r: bool)
    ensures r == LooksNumeric(s)
  {
    hide DigitsEnd;
    var i := 0;
    if i < |s| && s[i] == '-' {
      i := i + 1;
    }
    var sawDigit;
    i, sawDigit := ConsumeDigits(s, i);
    if i < |s| && s[i] == '.' {
      var any;
      i, any := ConsumeDigits(s, i + 1);
      sawDigit := sawDigit || any;
    }
    if i < |s| && (s[i] == 'e' || s[i] == 'E') {
      i := i + 1;
      if i < |s| && (s[i] == '+' || s[i] == '-') {
        i := i + 1;
      }
      var any;
      i, any := ConsumeDigits(s, i);
      if !any {
        return false;
      }
    }
    r := sawDigit && i == |s|;
  }

  // ---- strings --------------------------------------------------------------------

  predicate NeedsQuotes(s: string) {
    || s == "" || s[0] == '-' || IsWhite(s[0]) || IsWhite(s[|s| - 1])
    || s == "true" || s == "false" || s == "null" || LooksNumeric(s)
    || exists i: nat :: i < |s| && IsStop(s[i])
  }

  function HexDigit(n: nat): char
    requires n < 16
  {
    if n < 10 then ('0' as int + n) as char else ('a' as int + n - 10) as char
  }

  /** `{:04x}`. */
  function Hex4(n: nat): string
    requires n < 0x10000
  {
    [HexDigit(n / 4096), HexDigit(n / 256 % 16), HexDigit(n / 16 % 16), HexDigit(n % 16)]
  }

  function EscapeChar(c: char): string {
    if c == '\\' then "\\\\"
    else if c == '"' then "\\\""
    else if c == '\n' then "\\n"
    else if c == '\r' then "\\r"
    else if c == '\t' then "\\t"
    else if IsControl(c) then "\\u" + Hex4(c as int)
    else [c]
  }

  function Escape(s: string): string {
    if s == "" then "" else Escape(s[..|s| - 1]) + EscapeChar(s[|s| - 1])
  }

  /** The text of a string or key. */
  function Quote(s: string): string {
    if NeedsQuotes(s) then "\"" + Escape(s) + "\"" else s
  }

  method ScanNeedsQuotes(s: string) returns (needs: bool)
    ensures needs == NeedsQuotes(s)
  {
    var numeric := LooksNumericScan(s);
    hide LooksNumeric, IsWhite, IsStop;
    if s == "" || s[0] == '-' || IsWhite(s[0]) || IsWhite(s[|s| - 1])
       || s == "true" || s == "false" || s == "null" || numeric {
      return true;
    }
    needs := false;
    for i := 0 to |s|
      invariant needs <==> exists j: nat :: j < i && IsStop(s[j])
    {
      needs := needs || IsStop(s[i]);
    }
  }

  method EscapeInto(s: string) returns (q: string)
    ensures q == Escape(s)
  {
    hide EscapeChar;
    q := "";
    for i := 0 to |s|
      invariant q == Escape(s[..i])
    {
      assert s[..i + 1][..i] == s[..i];
      q := q + EscapeChar(s[i]);
    }
    assert s[..|s|] == s;
  }

  method QuoteIfNeeded(s: string) returns (q: string)
    ensures q == Quote(s)
  {
    hide NeedsQuotes, Escape;
    var needs := ScanNeedsQuotes(s);
    if !needs {
      return s;
    }
    var escaped := EscapeInto(s);
    q := "\"" + escaped + "\"";
  }

  // ---- scalars --------------------------------------------------------------------

  predicate IsScalar(v: Value) {
    match v
    case Arr(items) => items == []
    case Obj(fields) => fields == []
    case _ => true
  }

  function Scalar(v: Value): string {
    match v
    case Null => "null"
    case Bool(b) => if b then "true" else "false"
    case Num(tok) => tok
    case Str(s) => Quote(s)
    case Arr(items) => if items == [] then "[]" else ""
    case Obj(fields) => if fields == [] then "{}" else ""
  }

  /** The text parts joined by commas. */
  function Delimited(parts: seq<string>): string {
    if parts == [] then ""
    else if |parts| == 1 then parts[0]
    else Delimited(parts[..|parts| - 1]) + "," + parts[|parts| - 1]
  }

  function Scalars(items: seq<Value>): (parts: seq<string>)
    ensures |parts| == |items|
  {
    seq(|items|, i requires 0 <= i < |items| => Scalar(items[i]))
  }

  // ---- objects and arrays -----------------------------------------------------------

  function Spaces(n: nat): (s: string)
    ensures |s| == n
  {
    seq(n, _ => ' ')
  }

  function Indent(depth: nat): string { Spaces(2 * depth) }

  function Decimal(n: nat): string {
    if n < 10 then [('0' as int + n) as char] else Decimal(n / 10) + [('0' as int + n % 10) as char]
  }

  function Keys(fields: seq<Field>): (ks: seq<string>)
    ensures |ks| == |fields|
  {
    seq(|fields|, i requires 0 <= i < |fields| => fields[i].key)
  }

  function Quotes(ks: seq<string>): (parts: seq<string>)
    ensures |parts| == |ks|
  {
    seq(|ks|, i requires 0 <= i < |ks| => Quote(ks[i]))
  }

  predicate HasKey(fields: seq<Field>, key: string) {
    exists i: nat :: i < |fields| && fields[i].key == key
  }

  function Lookup(fields: seq<Field>, key: string): Value
    requires HasKey(fields, key)
  {
    if fields[0].key == key then fields[0].value else Lookup(fields[1..], key)
  }

  /** An object with as many keys as `fields`, each of them present with a scalar value. */
  predicate RowOf(item: Value, fields: seq<string>) {
    && item.Obj? && |item.fields| == |fields|
    && forall i: nat :: i < |fields| ==> HasKey(item.fields, fields[i]) && IsScalar(Lookup(item.fields, fields[i]))
  }

  /** The table test: every item is a row over the first item's keys. */
  predicate Uniform(items: seq<Value>) {
    && items != [] && items[0].Obj? && items[0].fields != []
    && forall i: nat :: i < |items| ==> RowOf(items[i], Keys(items[0].fields))
  }

  predicate AllScalars(items: seq<Value>) {
    forall i: nat :: i < |items| ==> IsScalar(items[i])
  }

  /** The cell of a row; a row of a table always has it. */
  function Cell(item: Value, key: string): string {
    if item.Obj? && HasKey(item.fields, key) then Scalar(Lookup(item.fields, key)) else ""
  }

  function RowParts(item: Value, fields: seq<string>): (parts: seq<string>)
    ensures |parts| == |fields|
  {
    seq(|fields|, i requires 0 <= i < |fields| => Cell(item, fields[i]))
  }

  /** The table's declared fields. */
  function TableHead(fields: seq<string>): string { "{" + Delimited(Quotes(fields)) + "}:\n" }

  function RowsText(items: seq<Value>, fields: seq<string>, depth: nat): string {
    if items == [] then ""
    else Indent(depth) + Delimited(RowParts(items[0], fields)) + "\n" + RowsText(items[1..], fields, depth)
  }

  function ObjectText(fields: seq<Field>, depth: nat): string
    decreases fields, 0
  {
    if fields == [] then "" else FieldText(fields[0], depth) + ObjectText(fields[1..], depth)
  }

  function FieldText(f: Field, depth: nat): string
    decreases f, 2
  {
    Indent(depth) + Quote(f.key) + ValueText(f.value, depth)
  }

  /** What follows a key. */
  function ValueText(v: Value, depth: nat): string
    decreases v, 2
  {
    match v
    case Obj(fields) => if fields == [] then ": {}\n" else ":\n" + ObjectText(fields, depth + 1)
    case Arr(items) => if items == [] then ": []\n" else ArrayText(items, depth)
    case _ => ": " + Scalar(v) + "\n"
  }

  /** A non-empty array after its key, its list marker, or at the root. */
  function ArrayText(items: seq<Value>, depth: nat): string
    decreases items, 2
  {
    "[" + Decimal(|items|) + "]" + BodyText(items, depth)
  }

  /** What follows the length: inline scalars, a table, or a list. */
  function BodyText(items: seq<Value>, depth: nat): string
    decreases items, 1
  {
    if AllScalars(items) then ": " + Delimited(Scalars(items)) + "\n"
    else if Uniform(items) then
      TableHead(Keys(items[0].fields)) + RowsText(items, Keys(items[0].fields), depth + 1)
    else ":\n" + ItemsText(items, depth + 1)
  }

  function ItemsText(items: seq<Value>, depth: nat): string
    decreases items, 0
  {
    if items == [] then "" else ItemText(items[0], depth) + ItemsText(items[1..], depth)
  }

  function ItemText(item: Value, depth: nat): string
    decreases item, 3
  {
    Indent(depth) + MarkedText(item, depth)
  }

  /** A list element from its `-` on. */
  function MarkedText(item: Value, depth: nat): string
    decreases item, 2
  {
    match item
    case Obj(fields) => if fields == [] then "- {}\n" else "-\n" + ObjectText(fields, depth + 1)
    case Arr(items) => if items == [] then "- []\n" else "-" + ArrayText(items, depth)
    case _ => "- " + Scalar(item) + "\n"
  }

  function Text(v: Value): string {
    match v
    case Obj(fields) => if fields == [] then "{}\n" else ObjectText(fields, 0)
    case Arr(items) => if items == [] then "[]\n" else ArrayText(items, 0)
    case _ => Scalar(v) + "\n"
  }

  // ---- the writer -------------------------------------------------------------------

  /** The growing output string. */
  class Out {
    var text: string

    constructor ()
      ensures text == ""
    {
      text := "";
    }

    method Push(s: string)
      modifies this
      ensures text == old(text) + s
    {
      text := text + s;
    }

    method PushIndent(depth: nat)
      modifies this
      ensures text == old(text) + Indent(depth)
    {
      for i := 0 to depth * 2
        invariant text == old(text) + Spaces(i)
      {
        assert Spaces(i) + " " == Spaces(i + 1);
        text := text + " ";
      }
    }

    method PushDelimited(parts: seq<string>)
      modifies this
      ensures text == old(text) + Delimited(parts)
    {
      if parts == [] {
        return;
      }
      text := text + parts[0];
      for i := 1 to |parts|
        invariant text == old(text) + Delimited(parts[..i])
      {
        assert parts[..i + 1][..i] == parts[..i];
        text := text + ("," + parts[i]);
      }
      assert parts[..|parts|] == parts;
    }
  }

  lemma Assoc(a: string, b: string, c: string)
    ensures (a + b) + c == a + (b + c)
  {
  }

  method WriteObject(out: Out, fields: seq<Field>, depth: nat)
    modifies out
    ensures out.text == old(out.text) + ObjectText(fields, depth)
    decreases fields, 0
  {
    hide *;
    ghost var done := "";
    NothingWritten(out.text);
    for i := 0 to |fields|
      invariant out.text == old(out.text) + done
      invariant done + ObjectText(fields[i..], depth) == ObjectText(fields, depth)
    {
      WriteField(out, fields[i], depth);
      ObjectHead(fields, i, depth);
      Assoc(old(out.text), done, FieldText(fields[i], depth));
      Assoc(done, FieldText(fields[i], depth), ObjectText(fields[i + 1..], depth));
      done := done + FieldText(fields[i], depth);
    }
    ObjectEnd(fields, depth);
  }

  lemma NothingWritten(s: string)
    ensures s + "" == s && "" + s == s
    ensures forall t: string :: "" + t == t
  {
  }

  lemma ObjectHead(fields: seq<Field>, i: nat, depth: nat)
    requires i < |fields|
    ensures ObjectText(fields[i..], depth) == FieldText(fields[i], depth) + ObjectText(fields[i + 1..], depth)
  {
    assert fields[i..][1..] == fields[i + 1..];
  }

  lemma ObjectEnd(fields: seq<Field>, depth: nat)
    ensures ObjectText(fields[|fields|..], depth) == ""
    ensures forall s: string :: s + "" == s
  {
  }

  method WriteField(out: Out, f: Field, depth: nat)
    modifies out
    ensures out.text == old(out.text) + FieldText(f, depth)
    decreases f, 2
  {
    hide ObjectText, ArrayText, ValueText, Indent, Quote;
    out.PushIndent(depth);
    var key := QuoteIfNeeded(f.key);
    out.Push(key);
    Assoc(old(out.text), Indent(depth), key);
    WriteValue(out, f.value, depth);
    Assoc(old(out.text), Indent(depth) + key, ValueText(f.value, depth));
  }

  /** The value part of a field, recursing for containers. */
  method WriteValue(out: Out, v: Value, depth: nat)
    modifies out
    ensures out.text == old(out.text) + ValueText(v, depth)
    decreases v, 2
  {
    hide ObjectText, ArrayText;
    match v
    case Obj(fields) =>
      if fields == [] {
        out.Push(": {}\n");
      } else {
        out.Push(":\n");
        WriteObject(out, fields, depth + 1);
        Assoc(old(out.text), ":\n", ObjectText(fields, depth + 1));
      }
    case Arr(items) =>
      if items == [] {
        out.Push(": []\n");
      } else {
        WriteArray(out, items, depth);
      }
    case _ =>
      out.Push(": " + Scalar(v) + "\n");
  }

  method WriteArray(out: Out, items: seq<Value>, depth: nat)
    modifies out
    ensures out.text == old(out.text) + ArrayText(items, depth)
    decreases items, 2
  {
    hide BodyText, Decimal;
    var head := "[" + Decimal(|items|) + "]";
    out.Push(head);
    if AllScalars(items) {
      WriteInline(out, items, depth);
    } else if Uniform(items) {
      WriteTable(out, items, depth);
    } else {
      WriteList(out, items, depth);
    }
    Assoc(old(out.text), head, BodyText(items, depth));
  }

  method WriteInline(out: Out, items: seq<Value>, depth: nat)
    requires AllScalars(items)
    modifies out
    ensures out.text == old(out.text) + BodyText(items, depth)
  {
    hide Scalars, Delimited;
    out.Push(": ");
    out.PushDelimited(Scalars(items));
    out.Push("\n");
    assert BodyText(items, depth) == ": " + Delimited(Scalars(items)) + "\n";
    Assoc(old(out.text), ": ", Delimited(Scalars(items)));
    Assoc(old(out.text), ": " + Delimited(Scalars(items)), "\n");
  }

  method WriteTable(out: Out, items: seq<Value>, depth: nat)
    requires !AllScalars(items) && Uniform(items)
    modifies out
    ensures out.text == old(out.text) + BodyText(items, depth)
  {
    hide *;
    var fields := TableFields(items);
    TableBody(items, depth);
    WriteTableHead(out, fields);
    WriteRows(out, items, fields, depth + 1);
    Assoc(old(out.text), TableHead(fields), RowsText(items, fields, depth + 1));
  }

  /** The columns of a table: its first row's keys. */
  function TableFields(items: seq<Value>): seq<string>
    requires !AllScalars(items) && Uniform(items)
  {
    Keys(items[0].fields)
  }

  lemma TableBody(items: seq<Value>, depth: nat)
    requires !AllScalars(items) && Uniform(items)
    ensures BodyText(items, depth)
            == TableHead(TableFields(items)) + RowsText(items, TableFields(items), depth + 1)
  {
    hide AllScalars, Uniform, TableHead, RowsText, Keys;
  }

  method WriteTableHead(out: Out, fields: seq<string>)
    modifies out
    ensures out.text == old(out.text) + TableHead(fields)
  {
    hide Delimited, Quotes;
    ghost var names := Delimited(Quotes(fields));
    out.Push("{");
    out.PushDelimited(Quotes(fields));
    out.Push("}:\n");
    Assoc(old(out.text), "{", names);
    Assoc(old(out.text), "{" + names, "}:\n");
  }

  method WriteRows(out: Out, items: seq<Value>, fields: seq<string>, depth: nat)
    modifies out
    ensures out.text == old(out.text) + RowsText(items, fields, depth)
  {
    hide *;
    ghost var done := "";
    NothingWritten(out.text);
    for i := 0 to |items|
      invariant out.text == old(out.text) + done
      invariant done + RowsText(items[i..], fields, depth) == RowsText(items, fields, depth)
    {
      RowsHead(items, fields, i, depth);
      ghost var line := Indent(depth) + Delimited(RowParts(items[i], fields)) + "\n";
      WriteRow(out, items[i], fields, depth);
      Assoc(old(out.text), done, line);
      Assoc(done, line, RowsText(items[i + 1..], fields, depth));
      done := done + line;
    }
    RowsEnd(items, fields, depth);
  }

  method WriteRow(out: Out, item: Value, fields: seq<string>, depth: nat)
    modifies out
    ensures out.text == old(out.text) + (Indent(depth) + Delimited(RowParts(item, fields)) + "\n")
  {
    hide *;
    ghost var row := Delimited(RowParts(item, fields));
    out.PushIndent(depth);
    out.PushDelimited(RowParts(item, fields));
    out.Push("\n");
    Assoc(old(out.text), Indent(depth), row);
    Assoc(old(out.text), Indent(depth) + row, "\n");
  }

  lemma RowsHead(items: seq<Value>, fields: seq<string>, i: nat, depth: nat)
    requires i < |items|
    ensures RowsText(items[i..], fields, depth)
         == (Indent(depth) + Delimited(RowParts(items[i], fields)) + "\n") + RowsText(items[i + 1..], fields, depth)
  {
    assert items[i..][1..] == items[i + 1..];
  }

  lemma RowsEnd(items: seq<Value>, fields: seq<string>, depth: nat)
    ensures RowsText(items[|items|..], fields, depth) == ""
    ensures forall s: string :: s + "" == s
  {
  }

  method WriteList(out: Out, items: seq<Value>, depth: nat)
    requires !AllScalars(items) && !Uniform(items)
    modifies out
    ensures out.text == old(out.text) + BodyText(items, depth)
    decreases items, 1
  {
    ListBody(items, depth);
    hide *;
    out.Push(":\n");
    ghost var done := ":\n";
    for i := 0 to |items|
      invariant out.text == old(out.text) + done
      invariant done + ItemsText(items[i..], depth + 1) == BodyText(items, depth)
    {
      WriteListItem(out, items[i], depth + 1);
      ItemsHead(items, i, depth + 1);
      Assoc(old(out.text), done, ItemText(items[i], depth + 1));
      Assoc(done, ItemText(items[i], depth + 1), ItemsText(items[i + 1..], depth + 1));
      done := done + ItemText(items[i], depth + 1);
    }
    ItemsEnd(items, depth + 1);
  }

  lemma ListBody(items: seq<Value>, depth: nat)
    requires !AllScalars(items) && !Uniform(items)
    ensures BodyText(items, depth) == ":\n" + ItemsText(items[0..], depth + 1)
  {
    assert items[0..] == items;
  }

  lemma ItemsHead(items: seq<Value>, i: nat, depth: nat)
    requires i < |items|
    ensures ItemsText(items[i..], depth) == ItemText(items[i], depth) + ItemsText(items[i + 1..], depth)
  {
    assert items[i..][1..] == items[i + 1..];
  }

  lemma ItemsEnd(items: seq<Value>, depth: nat)
    ensures ItemsText(items[|items|..], depth) == ""
    ensures forall s: string :: s + "" == s
  {
  }

  method WriteListItem(out: Out, item: Value, depth: nat)
    modifies out
    ensures out.text == old(out.text) + ItemText(item, depth)
    decreases item, 3
  {
    hide MarkedText, Indent;
    out.PushIndent(depth);
    WriteMarked(out, item, depth);
    Assoc(old(out.text), Indent(depth), MarkedText(item, depth));
  }

  /** A list element from its marker on. */
  method WriteMarked(out: Out, item: Value, depth: nat)
    modifies out
    ensures out.text == old(out.text) + MarkedText(item, depth)
    decreases item, 2
  {
    hide ObjectText, ArrayText;
    match item
    case Obj(fields) =>
      if fields == [] {
        out.Push("- {}\n");
      } else {
        out.Push("-\n");
        WriteObject(out, fields, depth + 1);
        Assoc(old(out.text), "-\n", ObjectText(fields, depth + 1));
      }
    case Arr(items) =>
      if items == [] {
        out.Push("- []\n");
      } else {
        out.Push("-");
        WriteArray(out, items, depth);
        Assoc(old(out.text), "-", ArrayText(items, depth));
      }
    case _ =>
      out.Push("- " + Scalar(item) + "\n");
  }

  method ToToon(v: Value) returns (text: string)
    ensures text == Text(v)
  {
    var out := new Out();
    match v {
      case Obj(fields) =>
        if fields == [] { out.Push("{}\n"); } else { WriteObject(out, fields, 0); }
      case Arr(items) =>
        if items == [] { out.Push("[]\n"); } else { WriteArray(out, items, 0); }
      case _ =>
        out.Push(Scalar(v) + "\n");
    }
    text := out.text;
  }
}
