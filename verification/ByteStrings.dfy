/**
 * Byte strings: their lexicographic order, and fixed-width integers in both byte orders. Big-endian
 * bytes sort as the integers do; little-endian bytes are what the estate's values and blobs hold.
 */
module ByteStrings {
  newtype Byte = b: int | 0 <= b < 256

  type Bytes = seq<Byte>

  /** Lexicographic order on byte strings, which is the order of Rust strings and of the store's keys. */
  predicate LexLe(a: Bytes, b: Bytes) {
    a == [] || (b != [] && (a[0] < b[0] || (a[0] == b[0] && LexLe(a[1..], b[1..]))))
  }

  predicate LexLt(a: Bytes, b: Bytes) { LexLe(a, b) && a != b }

  lemma {:induction false} LexRefl(a: Bytes)
    ensures LexLe(a, a)
  {
    if a != [] { LexRefl(a[1..]); }
  }

  lemma {:induction false} LexTotal(a: Bytes, b: Bytes)
    ensures LexLe(a, b) || LexLe(b, a)
  {
    if a != [] && b != [] { LexTotal(a[1..], b[1..]); }
  }

  lemma {:induction false} LexAntisym(a: Bytes, b: Bytes)
    requires LexLe(a, b) && LexLe(b, a)
    ensures a == b
  {
    if a != [] {
      LexAntisym(a[1..], b[1..]);
      assert a == [a[0]] + a[1..] && b == [b[0]] + b[1..];
    }
  }

  lemma {:induction false} LexTrans(a: Bytes, b: Bytes, c: Bytes)
    requires LexLe(a, b) && LexLe(b, c)
    ensures LexLe(a, c)
  {
    if a != [] && a[0] == b[0] == c[0] {
      LexTrans(a[1..], b[1..], c[1..]);
    }
  }

  /** `a` and `b` agree up to `k`, where `a` ends or has the smaller byte. */
  ghost predicate LessAt(a: Bytes, b: Bytes, k: nat) {
    k <= |a| && k < |b| && a[..k] == b[..k] && (k == |a| || a[k] < b[k])
  }

  /** The strict order is decided by the first difference. */
  lemma {:induction false} LexLtIff(a: Bytes, b: Bytes)
    ensures LexLt(a, b) <==> exists k: nat :: LessAt(a, b, k)
    decreases |a|
  {
    if a == [] || b == [] {
      if a == [] && b != [] {
        assert LessAt(a, b, 0);
      }
    } else {
      LexLtIff(a[1..], b[1..]);
      assert a == [a[0]] + a[1..] && b == [b[0]] + b[1..];
      if LexLt(a, b) {
        if a[0] < b[0] {
          assert LessAt(a, b, 0);
        } else {
          var k: nat :| LessAt(a[1..], b[1..], k);
          assert a[..k + 1] == [a[0]] + a[1..][..k] && b[..k + 1] == [b[0]] + b[1..][..k];
          assert LessAt(a, b, k + 1);
        }
      }
      if k: nat :| LessAt(a, b, k) {
        if k > 0 {
          assert a[..k][0] == b[..k][0] && a[..k][1..] == b[..k][1..];
          assert a[1..][..k - 1] == a[..k][1..] && b[1..][..k - 1] == b[..k][1..];
          assert LessAt(a[1..], b[1..], k - 1);
        }
      }
    }
  }

  // ---- fixed-width integers -------------------------------------------------------

  function Pow256(n: nat): nat {
    if n == 0 then 1 else 256 * Pow256(n - 1)
  }

  /** `x.to_le_bytes()` at a width of `n` bytes; wider values are truncated, as a cast does. */
  function Le(x: nat, n: nat): (b: Bytes)
    ensures |b| == n
  {
    if n == 0 then [] else [(x % 256) as Byte] + Le(x / 256, n - 1)
  }

  function FromLe(b: Bytes): nat {
    if b == [] then 0 else b[0] as nat + 256 * FromLe(b[1..])
  }

  /** A number below 256 is its own first byte, and zeros follow. */
  lemma LeSmall(x: nat, n: nat)
    requires n > 0 && x < 256
    ensures Le(x, n)[0] == x as Byte && forall i: nat :: 0 < i < n ==> Le(x, n)[i] == 0
  {
    LeZero(n - 1);
    assert Le(x, n)[1..] == Le(0, n - 1);
    assert forall i: nat :: 0 < i < n ==> Le(x, n)[i] == Le(x, n)[1..][i - 1];
  }

  lemma {:induction false} LeZero(n: nat)
    ensures forall i: nat :: i < n ==> Le(0, n)[i] == 0
  {
    if n > 0 {
      LeZero(n - 1);
      assert Le(0, n) == [0] + Le(0, n - 1);
    }
  }

  lemma {:induction false} FromLeBound(b: Bytes)
    ensures FromLe(b) < Pow256(|b|)
  {
    if b != [] {
      FromLeBound(b[1..]);
    }
  }

  /** Reading back a written integer gives it modulo the width. */
  lemma {:induction false} LeInverse(x: nat, n: nat)
    requires x < Pow256(n)
    ensures FromLe(Le(x, n)) == x
  {
    if n != 0 {
      LeInverse(x / 256, n - 1);
      assert Le(x, n)[1..] == Le(x / 256, n - 1);
    }
  }

  /** `x.to_be_bytes()` at a width of `n` bytes. */
  function Be(x: nat, n: nat): (b: Bytes)
    ensures |b| == n
  {
    if n == 0 then [] else Be(x / 256, n - 1) + [(x % 256) as Byte]
  }

  function FromBe(b: Bytes): nat {
    if b == [] then 0 else 256 * FromBe(b[..|b| - 1]) + b[|b| - 1] as nat
  }

  lemma {:induction false} BeInverse(x: nat, n: nat)
    requires x < Pow256(n)
    ensures FromBe(Be(x, n)) == x
  {
    if n != 0 {
      BeInverse(x / 256, n - 1);
      assert Be(x, n)[..n - 1] == Be(x / 256, n - 1);
    }
  }

  lemma {:induction false} FromBeBound(b: Bytes)
    ensures FromBe(b) < Pow256(|b|)
  {
    if b != [] {
      FromBeBound(b[..|b| - 1]);
    }
  }

  lemma {:induction false} BeOfFromBe(b: Bytes)
    ensures Be(FromBe(b), |b|) == b
  {
    if b != [] {
      var init, last := b[..|b| - 1], b[|b| - 1];
      BeOfFromBe(init);
      assert FromBe(b) / 256 == FromBe(init) && FromBe(b) % 256 == last as nat;
      assert b == init + [last];
    }
  }

  /** Extending two equally long byte strings: the earlier bytes decide unless they agree. */
  lemma {:induction false} LexAppend(a: Bytes, b: Bytes, p: Bytes, q: Bytes)
    requires |a| == |b|
    ensures LexLe(a + p, b + q) <==> (a != b && LexLe(a, b)) || (a == b && LexLe(p, q))
    decreases |a|
  {
    if a == [] {
      assert a + p == p && b + q == q;
    } else {
      assert (a + p)[1..] == a[1..] + p && (b + q)[1..] == b[1..] + q;
      LexAppend(a[1..], b[1..], p, q);
      assert a == [a[0]] + a[1..] && b == [b[0]] + b[1..];
    }
  }

  /** Big-endian bytes sort as the integers do. */
  lemma {:induction false} BeOrder(x: nat, y: nat, n: nat)
    requires x < Pow256(n) && y < Pow256(n)
    ensures LexLe(Be(x, n), Be(y, n)) <==> x <= y
  {
    if n != 0 {
      BeOrder(x / 256, y / 256, n - 1);
      BeInverse(x / 256, n - 1);
      BeInverse(y / 256, n - 1);
      LexAppend(Be(x / 256, n - 1), Be(y / 256, n - 1), [(x % 256) as Byte], [(y % 256) as Byte]);
    }
  }
}
