/**
 * Bounds-checked reading of byte strings: primitive fields, counted lists, and the two laws every
 * reader of a format needs — it undoes its writer, and more input never changes what it read.
 */
module Parsers {
  import opened Wrappers
  import opened ByteStrings

  /** A reader: the value and what is left, or nothing on truncated or malformed input. */
  type Parser<!T> = Bytes -> Option<(T, Bytes)>

  /** A 32-bit word: a `u32`, or the bits of an `f32`. */
  type Word = w: nat | w < 0x1_0000_0000

  type Word64 = w: nat | w < 0x1_0000_0000_0000_0000

  function Take(n: nat, s: Bytes): Option<(Bytes, Bytes)> {
    if n <= |s| then Some((s[..n], s[n..])) else None
  }

  function U8(s: Bytes): Option<(Byte, Bytes)> {
    var (b, t) :- Take(1, s);
    Some((b[0], t))
  }

  lemma WidthBounds()
    ensures Pow256(4) == 0x1_0000_0000 && Pow256(8) == 0x1_0000_0000_0000_0000
  {
    assert Pow256(2) == 0x1_0000 && Pow256(4) == 0x1_0000_0000;
    assert Pow256(6) == 0x1_0000_0000_0000;
  }

  function AsWord(b: Bytes): Word
    requires |b| == 4
  {
    FromLeBound(b);
    WidthBounds();
    FromLe(b)
  }

  function AsWord64(b: Bytes): Word64
    requires |b| == 8
  {
    FromLeBound(b);
    WidthBounds();
    FromLe(b)
  }

  function U32(s: Bytes): Option<(Word, Bytes)> {
    var (b, t) :- Take(4, s);
    Some((AsWord(b), t))
  }

  function U64(s: Bytes): Option<(Word64, Bytes)> {
    var (b, t) :- Take(8, s);
    Some((AsWord64(b), t))
  }

  /** `n` values in a row. */
  function Many<T>(p: Parser<T>, n: nat, s: Bytes): Option<(seq<T>, Bytes)> {
    if n == 0 then Some(([], s))
    else
      var (xs, t) :- Many(p, n - 1, s);
      var (x, u) :- p(t);
      Some((xs + [x], u))
  }

  function WriteMany<T>(w: T -> Bytes, xs: seq<T>): Bytes {
    if xs == [] then [] else WriteMany(w, xs[..|xs| - 1]) + w(xs[|xs| - 1])
  }

  // ---- more input changes nothing -------------------------------------------------

  /** A reader that accepts `s` accepts every extension of it, with the same value. */
  ghost predicate Extends<T(!new)>(p: Parser<T>) {
    forall s, t :: p(s).Some? ==> p(s + t) == Some((p(s).value.0, p(s).value.1 + t))
  }

  lemma TakeExtends(n: nat, s: Bytes, t: Bytes)
    requires n <= |s|
    ensures Take(n, s + t) == Some((Take(n, s).value.0, Take(n, s).value.1 + t))
  {
    assert (s + t)[..n] == s[..n] && (s + t)[n..] == s[n..] + t;
  }

  lemma PrimitivesExtend()
    ensures Extends(U8) && Extends(U32) && Extends(U64)
  {
    forall s: Bytes, t: Bytes
      ensures U8(s).Some? ==> U8(s + t) == Some((U8(s).value.0, U8(s).value.1 + t))
      ensures U32(s).Some? ==> U32(s + t) == Some((U32(s).value.0, U32(s).value.1 + t))
      ensures U64(s).Some? ==> U64(s + t) == Some((U64(s).value.0, U64(s).value.1 + t))
    {
      if 1 <= |s| { TakeExtends(1, s, t); }
      if 4 <= |s| { TakeExtends(4, s, t); }
      if 8 <= |s| { TakeExtends(8, s, t); }
    }
  }

  lemma {:induction false} ManyExtends<T(!new)>(p: Parser<T>, n: nat, s: Bytes, t: Bytes)
    requires Extends(p) && Many(p, n, s).Some?
    ensures Many(p, n, s + t) == Some((Many(p, n, s).value.0, Many(p, n, s).value.1 + t))
  {
    if n != 0 {
      ManyExtends(p, n - 1, s, t);
      var mid := Many(p, n - 1, s).value.1;
      assert p(mid).Some?;
    }
  }

  /** Once a list fails to read, it fails at every greater count. */
  lemma {:induction false} ManyFails<T>(p: Parser<T>, i: nat, n: nat, s: Bytes)
    requires i <= n && Many(p, i, s).None?
    ensures Many(p, n, s).None?
    decreases n - i
  {
    if i < n {
      ManyFails(p, i + 1, n, s);
    }
  }

  // ---- reading undoes writing -----------------------------------------------------

  lemma TakeInverse(b: Bytes, t: Bytes)
    ensures Take(|b|, b + t) == Some((b, t))
  {
    assert (b + t)[..|b|] == b && (b + t)[|b|..] == t;
  }

  lemma U8Inverse(x: Byte, t: Bytes)
    ensures U8([x] + t) == Some((x, t))
  {
    TakeInverse([x], t);
  }

  lemma U32Inverse(x: nat, t: Bytes)
    requires x < 0x1_0000_0000
    ensures U32(Le(x, 4) + t) == Some((x, t))
  {
    WidthBounds();
    TakeInverse(Le(x, 4), t);
    LeInverse(x, 4);
  }

  lemma U64Inverse(x: nat, t: Bytes)
    requires x < 0x1_0000_0000_0000_0000
    ensures U64(Le(x, 8) + t) == Some((x, t))
  {
    WidthBounds();
    TakeInverse(Le(x, 8), t);
    LeInverse(x, 8);
  }

  /** `p` reads back what `w` writes for `x`, whatever follows. */
  ghost predicate Inverts<T(!new)>(p: Parser<T>, w: T -> Bytes, x: T) {
    forall t :: p(w(x) + t) == Some((x, t))
  }

  lemma {:induction false} ManyInverse<T(!new)>(p: Parser<T>, w: T -> Bytes, xs: seq<T>, t: Bytes)
    requires forall i :: 0 <= i < |xs| ==> Inverts(p, w, xs[i])
    ensures Many(p, |xs|, WriteMany(w, xs) + t) == Some((xs, t))
    decreases |xs|
  {
    if xs == [] {
      assert WriteMany(w, xs) + t == t;
    } else {
      var n := |xs| - 1;
      var init, last := xs[..n], xs[n];
      assert WriteMany(w, xs) + t == WriteMany(w, init) + (w(last) + t);
      ManyInverse(p, w, init, w(last) + t);
      assert Inverts(p, w, last);
      assert xs == init + [last];
    }
  }

  function WordBytes(w: Word): Bytes { Le(w, 4) }

  lemma WordsInverse(ws: seq<Word>, t: Bytes)
    ensures Many(U32, |ws|, WriteMany(WordBytes, ws) + t) == Some((ws, t))
  {
    forall i | 0 <= i < |ws| ensures Inverts(U32, WordBytes, ws[i]) {
      forall t: Bytes ensures U32(WordBytes(ws[i]) + t) == Some((ws[i], t)) {
        U32Inverse(ws[i], t);
      }
    }
    ManyInverse(U32, WordBytes, ws, t);
  }

  // ---- the cursor -------------------------------------------------------------------

  /** A method's optional result agrees with the parser on what was left to read. */
  ghost predicate Agrees<T>(parsed: Option<(T, Bytes)>, res: Option<T>, rest: Bytes) {
    match parsed
    case None => res == None
    case Some((x, t)) => res == Some(x) && rest == t
  }

  /** The bounds-checked reader: a buffer and a cursor. */
  class ByteReader {
    const b: Bytes
    var i: nat

    ghost predicate Valid()
      reads this
    {
      i <= |b|
    }

    ghost function Rest(): Bytes
      requires Valid()
      reads this
    {
      b[i..]
    }

    constructor (bytes: Bytes)
      ensures Valid() && Rest() == bytes
    {
      b, i := bytes, 0;
    }

    method Pull(n: nat) returns (res: Option<Bytes>)
      requires Valid()
      modifies this
      ensures Valid() && Agrees(Take(n, old(Rest())), res, Rest())
    {
      var end := i + n;
      if end > |b| {
        return None;
      }
      res := Some(b[i..end]);
      assert b[i..][..n] == b[i..end] && b[i..][n..] == b[end..];
      i := end;
    }

    method ReadU8() returns (res: Option<Byte>)
      requires Valid()
      modifies this
      ensures Valid() && Agrees(U8(old(Rest())), res, Rest())
    {
      var s :- Pull(1);
      res := Some(s[0]);
    }

    method ReadU32() returns (res: Option<Word>)
      requires Valid()
      modifies this
      ensures Valid() && Agrees(U32(old(Rest())), res, Rest())
    {
      var s :- Pull(4);
      res := Some(AsWord(s));
    }

    method ReadU64() returns (res: Option<Word64>)
      requires Valid()
      modifies this
      ensures Valid() && Agrees(U64(old(Rest())), res, Rest())
    {
      var s :- Pull(8);
      res := Some(AsWord64(s));
    }
  }
}
