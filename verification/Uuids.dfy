/**
 * UUID text: 8-4-4-4-12 hex digits, in either case.
 */
module Uuids {
  import opened Wrappers
  import opened ByteStrings

  type Uuid = b: Bytes | |b| == 16 witness [0, 0, 0, 0, 0, 0, 0, 0, 0, 0, 0, 0, 0, 0, 0, 0]

  const DASH: Byte := 45

  predicate Lower(c: Byte) { 97 <= c <= 102 }

  predicate Upper(c: Byte) { 65 <= c <= 70 }

  predicate Letter(c: Byte) { Lower(c) || Upper(c) }

  function Nibble(c: Byte): (n: Option<nat>)
    ensures n.Some? ==> n.value < 16
  {
    if 48 <= c <= 57 then Some(c as nat - 48)
    else if Lower(c) then Some(c as nat - 87)
    else if Upper(c) then Some(c as nat - 55)
    else None
  }

  predicate DashAt(i: nat) { i == 8 || i == 13 || i == 18 || i == 23 }

  /** How many hex digits stand before position `i`. */
  function Digits(i: nat): nat
    requires i <= 36
  {
    if i <= 8 then i else if i <= 13 then i - 1 else if i <= 18 then i - 2 else if i <= 23 then i - 3 else i - 4
  }

  /** Where hex digit `j` stands. */
  function Place(j: nat): (i: nat)
    requires j < 32
    ensures i < 36 && !DashAt(i) && Digits(i) == j
  {
    if j < 8 then j else if j < 12 then j + 1 else if j < 16 then j + 2 else if j < 20 then j + 3 else j + 4
  }

  predicate Dashed(s: Bytes) {
    |s| == 36 && s[8] == DASH && s[13] == DASH && s[18] == DASH && s[23] == DASH
  }

  predicate Shaped(s: Bytes) {
    Dashed(s) && forall j: nat :: j < 32 ==> Nibble(s[Place(j)]).Some?
  }

  /** The byte two hex digits spell. */
  function Joined(s: Bytes, k: nat): Byte
    requires |s| == 36 && k < 16 && Nibble(s[Place(2 * k)]).Some? && Nibble(s[Place(2 * k + 1)]).Some?
  {
    (16 * Nibble(s[Place(2 * k)]).value + Nibble(s[Place(2 * k + 1)]).value) as Byte
  }

  function ParseUuid(s: Bytes): Option<Uuid> {
    if Shaped(s) then Some(seq(16, k requires 0 <= k < 16 => Joined(s, k))) else None
  }

  /** `parse_uuid_bytes`. */
  method ParseUuidBytes(s: Bytes) returns (res: Option<Uuid>)
    ensures res == ParseUuid(s)
  {
    if |s| != 36 || s[8] != DASH || s[13] != DASH || s[18] != DASH || s[23] != DASH {
      return None;
    }
    hide Nibble, Joined, Place, Digits, Shaped;
    var out: Bytes := [];
    var hi: Option<nat> := None;
    Started(s);
    for i := 0 to 36
      invariant Scanned(s, i, hi, out)
    {
      if !DashAt(i) {
        var nibble := Nibble(s[i]);
        if nibble.None? {
          BadDigit(s, i);
          return None;
        }
        DigitScanned(s, i, hi, out);
        if hi.None? {
          hi := nibble;
        } else {
          out := out + [(16 * hi.value + nibble.value) as Byte];
          hi := None;
        }
      } else {
        DashScanned(s, i, hi, out);
      }
    }
    Finished(s, out, hi);
    res := Some(out);
  }

  /** The digits before position `i` are read: whole bytes into `out`, a half byte into `hi`. */
  ghost predicate Scanned(s: Bytes, i: nat, hi: Option<nat>, out: Bytes)
    requires i <= 36 == |s|
  {
    && (forall j: nat :: j < Digits(i) && j < 32 ==> Nibble(s[Place(j)]).Some?)
    && |out| == Digits(i) / 2 && |out| <= 16
    && (if Digits(i) % 2 == 1 && Digits(i) <= 32 then hi == Nibble(s[Place(Digits(i) - 1)]) && hi.Some? else hi.None?)
    && forall k: nat :: k < |out| ==> Spelled(s, k, out[k])
  }

  predicate Spelled(s: Bytes, k: nat, c: Byte)
    requires |s| == 36
  {
    k < 16 && Nibble(s[Place(2 * k)]).Some? && Nibble(s[Place(2 * k + 1)]).Some? && c == Joined(s, k)
  }

  lemma Started(s: Bytes)
    requires |s| == 36
    ensures Scanned(s, 0, None, [])
  {
  }

  lemma BadDigit(s: Bytes, i: nat)
    requires i < 36 == |s| && !DashAt(i) && Nibble(s[i]).None?
    ensures !Shaped(s)
  {
    DigitsStep(i);
    assert Nibble(s[Place(Digits(i))]).None?;
  }

  lemma DashScanned(s: Bytes, i: nat, hi: Option<nat>, out: Bytes)
    requires i < 36 == |s| && DashAt(i) && Scanned(s, i, hi, out)
    ensures Scanned(s, i + 1, hi, out)
  {
    DigitsStep(i);
  }

  lemma DigitScanned(s: Bytes, i: nat, hi: Option<nat>, out: Bytes)
    requires i < 36 == |s| && !DashAt(i) && Nibble(s[i]).Some? && Scanned(s, i, hi, out)
    ensures hi.None? ==> Scanned(s, i + 1, Nibble(s[i]), out)
    ensures hi.Some? ==> hi.value < 16 && Scanned(s, i + 1, None, out + [(16 * hi.value + Nibble(s[i]).value) as Byte])
  {
    DigitsStep(i);
    hide Nibble, Digits, Place;
    var d := Digits(i);
    if hi.Some? {
      var k := |out|;
      assert d == 2 * k + 1;
      JoinedIs(s, k);
      assert Spelled(s, k, (16 * hi.value + Nibble(s[i]).value) as Byte);
    }
  }

  lemma Finished(s: Bytes, out: Bytes, hi: Option<nat>)
    requires Dashed(s) && Scanned(s, 36, hi, out)
    ensures |out| == 16 && ParseUuid(s) == Some(out)
  {
    DigitsStep(0);
    hide Nibble, Digits, Place, Joined;
    assert Shaped(s);
    assert forall k: nat :: k < 16 ==> Spelled(s, k, out[k]);
    assert out == seq(16, k requires 0 <= k < 16 => Joined(s, k));
  }

  lemma DigitsStep(i: nat)
    requires i < 36
    ensures Digits(0) == 0 && Digits(36) == 32 && Digits(i) < 32
    ensures if DashAt(i) then Digits(i + 1) == Digits(i) else Digits(i + 1) == Digits(i) + 1 && Place(Digits(i)) == i
  {
  }

  lemma JoinedIs(s: Bytes, k: nat)
    requires |s| == 36 && k < 16 && Nibble(s[Place(2 * k)]).Some? && Nibble(s[Place(2 * k + 1)]).Some?
    ensures Joined(s, k) == (16 * Nibble(s[Place(2 * k)]).value + Nibble(s[Place(2 * k + 1)]).value) as Byte
  {
  }

  predicate HasLetter(s: Bytes) { exists i :: 0 <= i < |s| && Letter(s[i]) }

  lemma SameJoined(s: Bytes, t: Bytes, k: nat)
    requires ParseUuid(s).Some? && ParseUuid(s) == ParseUuid(t) && k < 16
    ensures Nibble(s[Place(2 * k)]) == Nibble(t[Place(2 * k)])
    ensures Nibble(s[Place(2 * k + 1)]) == Nibble(t[Place(2 * k + 1)])
  {
    assert ParseUuid(s).value[k] == Joined(s, k) && ParseUuid(t).value[k] == Joined(t, k);
  }

  /** A UUID without hex letters has one spelling. */
  lemma OneSpelling(s: Bytes, t: Bytes)
    requires ParseUuid(s).Some? && ParseUuid(s) == ParseUuid(t) && !HasLetter(s)
    ensures s == t
  {
    forall i | 0 <= i < 36 ensures s[i] == t[i] {
      if !DashAt(i) {
        var j := Digits(i);
        assert Place(j) == i;
        SameJoined(s, t, j / 2);
        assert j == 2 * (j / 2) || j == 2 * (j / 2) + 1;
        assert !Letter(s[i]);
      }
    }
  }

  function OtherCase(c: Byte): (d: Byte)
    requires Letter(c)
    ensures d != c && Nibble(d) == Nibble(c)
  {
    if Lower(c) then c - 32 else c + 32
  }

  /** A hex letter can be written in the other case. */
  lemma TwoSpellings(s: Bytes, i: nat)
    requires ParseUuid(s).Some? && i < |s| && Letter(s[i])
    ensures var t := s[i := OtherCase(s[i])]; t != s && ParseUuid(t) == ParseUuid(s)
  {
    var t := s[i := OtherCase(s[i])];
    assert t[i] != s[i];
    assert forall j: nat :: j < 36 ==> Nibble(t[j]) == Nibble(s[j]);
    assert Dashed(t) && Shaped(t);
    assert forall k: nat :: k < 16 ==> Joined(t, k) == Joined(s, k);
    assert ParseUuid(t).value == ParseUuid(s).value;
  }
}
