/**
 * How many lines a TOON table takes.
 */
module ToonSize {
  import opened Toon
  import opened ToonText

  // Recall results are arrays of objects with the same scalar fields; the printer declares the fields once and
  // gives each object one line.

  function Lines(s: string): nat {
    if s == "" then 0 else Lines(s[..|s| - 1]) + if s[|s| - 1] == '\n' then 1 else 0
  }

  lemma {:induction false} LinesAdd(s: string, t: string)
    ensures Lines(s + t) == Lines(s) + Lines(t)
    decreases |t|
  {
    if t == "" {
      assert s + t == s;
    } else {
      assert (s + t)[..|s + t| - 1] == s + t[..|t| - 1];
      LinesAdd(s, t[..|t| - 1]);
    }
  }

  lemma {:induction false} OneLine(s: string)
    requires '\n' !in s
    ensures Lines(s) == 0
    decreases |s|
  {
    if s != "" {
      OneLine(s[..|s| - 1]);
    }
  }

  // ---- what is written within one line --------------------------------------------------

  lemma {:induction false} EscapeOneLine(s: string)
    ensures '\n' !in Escape(s)
    decreases |s|
  {
    if s != "" {
      EscapeOneLine(s[..|s| - 1]);
      assert '\n' !in EscapeChar(s[|s| - 1]);
    }
  }

  lemma QuoteOneLine(s: string)
    ensures '\n' !in Quote(s)
  {
    if NeedsQuotes(s) {
      EscapeOneLine(s);
    } else {
      forall i: nat | i < |s| ensures s[i] != '\n' {
        assert !IsStop(s[i]);
      }
    }
  }

  lemma ScalarOneLine(v: Value)
    requires Printable(v)
    ensures '\n' !in Scalar(v)
  {
    match v
    case Null =>
    case Bool(_) =>
    case Num(tok) => NumericChars(tok);
    case Str(s) => QuoteOneLine(s);
    case Arr(_) =>
    case Obj(_) =>
  }

  lemma {:induction false} DelimitedOneLine(parts: seq<string>)
    requires forall i: nat :: i < |parts| ==> '\n' !in parts[i]
    ensures '\n' !in Delimited(parts)
    decreases |parts|
  {
    if |parts| > 1 {
      DelimitedOneLine(parts[..|parts| - 1]);
    }
  }

  lemma {:induction false} DecimalOneLine(n: nat)
    ensures '\n' !in Decimal(n)
  {
    if n >= 10 {
      DecimalOneLine(n / 10);
    }
  }

  // ---- tables -----------------------------------------------------------------------------

  /** Objects with the same keys, at least one, and scalar values: what a recall result is. */
  ghost predicate Records(items: seq<Value>, ks: seq<string>) {
    && ks != []
    && forall i: nat :: i < |items| ==> items[i].Obj? && Keys(items[i].fields) == ks && Printables(items[i].fields)
  }

  ghost predicate Printables(fields: seq<Field>) {
    forall j: nat :: j < |fields| ==> Printable(fields[j].value)
  }

  lemma {:induction false} LookupPrintable(fields: seq<Field>, key: string)
    requires Printables(fields) && HasKey(fields, key)
    ensures Printable(Lookup(fields, key))
    decreases |fields|
  {
    if fields[0].key != key {
      var i: nat :| i < |fields| && fields[i].key == key;
      assert fields[1..][i - 1].key == key;
      LookupPrintable(fields[1..], key);
    }
  }

  lemma RecordIsRow(item: Value, ks: seq<string>, i: nat)
    requires item.Obj? && Keys(item.fields) == ks && Printables(item.fields) && i < |ks|
    ensures HasKey(item.fields, ks[i]) && IsScalar(Lookup(item.fields, ks[i])) && '\n' !in Cell(item, ks[i])
  {
    assert item.fields[i].key == ks[i];
    LookupPrintable(item.fields, ks[i]);
    ScalarOneLine(Lookup(item.fields, ks[i]));
  }

  lemma RecordsAreUniform(items: seq<Value>, ks: seq<string>)
    requires items != [] && Records(items, ks)
    ensures Uniform(items) && !AllScalars(items) && Keys(items[0].fields) == ks
  {
    forall i: nat | i < |items| ensures RowOf(items[i], ks) {
      forall j: nat | j < |ks| ensures HasKey(items[i].fields, ks[j]) && IsScalar(Lookup(items[i].fields, ks[j])) {
        RecordIsRow(items[i], ks, j);
      }
    }
    assert !IsScalar(items[0]);
  }

  lemma {:induction false} RowsLines(items: seq<Value>, ks: seq<string>, depth: nat)
    requires Records(items, ks)
    ensures Lines(RowsText(items, ks, depth)) == |items|
    decreases |items|
  {
    if items != [] {
      var parts := RowParts(items[0], ks);
      forall i: nat | i < |parts| ensures '\n' !in parts[i] {
        RecordIsRow(items[0], ks, i);
      }
      DelimitedOneLine(parts);
      RowsLines(items[1..], ks, depth);
      assert '\n' !in Indent(depth) + Delimited(parts);
      LineThen(Indent(depth) + Delimited(parts), RowsText(items[1..], ks, depth));
    }
  }

  lemma LineThen(line: string, rest: string)
    requires '\n' !in line
    ensures Lines(line + "\n" + rest) == 1 + Lines(rest)
  {
    OneLine(line);
    assert Lines("\n") == 1 by {
      assert "\n"[..0] == "";
    }
    LinesAdd(line, "\n");
    LinesAdd(line + "\n", rest);
  }

  function Head(n: nat, ks: seq<string>): string { "[" + Decimal(n) + "]{" + Delimited(Quotes(ks)) + "}:" }

  lemma HeadOneLine(n: nat, ks: seq<string>)
    ensures '\n' !in Head(n, ks)
  {
    forall i: nat | i < |ks| ensures '\n' !in Quotes(ks)[i] {
      QuoteOneLine(ks[i]);
    }
    DelimitedOneLine(Quotes(ks));
    DecimalOneLine(n);
  }

  lemma TableText(items: seq<Value>, ks: seq<string>, depth: nat)
    requires Uniform(items) && !AllScalars(items) && Keys(items[0].fields) == ks
    ensures ArrayText(items, depth) == Head(|items|, ks) + "\n" + RowsText(items, ks, depth + 1)
  {
    hide Uniform, AllScalars, RowsText, Delimited, Decimal;
    var a, b, c := "[" + Decimal(|items|) + "]", "{" + Delimited(Quotes(ks)), RowsText(items, ks, depth + 1);
    assert a + (b + "}:\n" + c) == (a + b + "}:") + "\n" + c;
    assert a + b + "}:" == Head(|items|, ks);
  }

  /** A table declares its fields once and takes one line for each object. */
  lemma TableIsCompact(items: seq<Value>, ks: seq<string>, depth: nat)
    requires items != [] && Records(items, ks)
    ensures Head(|items|, ks) + "\n" <= ArrayText(items, depth) && Lines(Head(|items|, ks)) == 0
    ensures Lines(ArrayText(items, depth)) == |items| + 1
  {
    hide Records, RowsText, Head, Lines, ArrayText, Uniform, AllScalars;
    RecordsAreUniform(items, ks);
    TableText(items, ks, depth);
    HeadOneLine(|items|, ks);
    OneLine(Head(|items|, ks));
    RowsLines(items, ks, depth + 1);
    LineThen(Head(|items|, ks), RowsText(items, ks, depth + 1));
  }

  /** An array of scalars takes one line. */
  lemma ScalarsAreInline(items: seq<Value>, depth: nat)
    requires forall i: nat :: i < |items| ==> Printable(items[i])
    ensures Lines(ArrayText(items, depth)) == 1
  {
    hide Decimal;
    forall i: nat | i < |items| ensures '\n' !in Scalars(items)[i] {
      ScalarOneLine(items[i]);
    }
    DelimitedOneLine(Scalars(items));
    DecimalOneLine(|items|);
    var line := "[" + Decimal(|items|) + "]" + (": " + Delimited(Scalars(items)));
    assert ArrayText(items, depth) == line + "\n" + "";
    hide *;
    LineThen(line, "");
    NoLines();
  }

  lemma NoLines()
    ensures Lines("") == 0
  {
  }

  // ---- plain text ------------------------------------------------------------------------------

  predicate IsLetter(c: char) { 'a' <= c <= 'z' || 'A' <= c <= 'Z' }

  /** Words of letters and digits that start and end in a letter are not quoted, unless they spell a literal. */
  lemma PlainStaysBare(s: string)
    requires s != "" && IsLetter(s[0]) && IsLetter(s[|s| - 1]) && s !in {"true", "false", "null"}
    requires forall i: nat :: i < |s| ==> IsLetter(s[i]) || IsDigit(s[i]) || s[i] == ' '
    ensures Quote(s) == s
  {
    DigitsEndSpec(s, 0);
    assert !LooksNumeric(s);
    forall i: nat | i < |s| ensures !IsStop(s[i]) {
    }
  }
}
