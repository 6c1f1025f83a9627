/**
 * Cardinalities of finite sets.
 */
module Sets {

  lemma {:induction false} SubsetCard<T>(s: set<T>, t: set<T>)
    requires s <= t
    ensures |s| <= |t|
    ensures |s| == |t| ==> s == t
  {
    if s != {} {
      var x :| x in s;
      SubsetCard(s - {x}, t - {x});
      assert s == (s - {x}) + {x} && t == (t - {x}) + {x};
    }
  }

  /** A subset of any size up to the whole. */
  lemma {:induction false} SubsetOfSize<T>(s: set<T>, n: nat) returns (t: set<T>)
    requires n <= |s|
    ensures t <= s && |t| == n
  {
    if n == 0 {
      t := {};
    } else {
      var x :| x in s;
      t := SubsetOfSize(s - {x}, n - 1);
      t := t + {x};
    }
  }

  /** An image under an injective function has as many elements. */
  lemma {:induction false} InjectiveCard<T(!new), U>(s: set<T>, f: T -> U, image: set<U>)
    requires forall x, y :: f(x) == f(y) ==> x == y
    requires image == set x | x in s :: f(x)
    ensures |image| == |s|
    decreases s
  {
    if s == {} {
      assert image == {};
    } else {
      var x :| x in s;
      InjectiveCard(s - {x}, f, set y | y in s - {x} :: f(y));
      assert image == (set y | y in s - {x} :: f(y)) + {f(x)};
    }
  }
}
