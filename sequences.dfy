/** Order-preserving selections of sequences, filter-maps, and duplicate-free sequences. */
module Sequences {
  import opened Wrappers

  /** `a` is obtained from `b` by deleting elements, keeping the order of the rest. */
  predicate IsSubsequence<T(==)>(a: seq<T>, b: seq<T>)
    decreases |b|
  {
    if a == [] then true
    else if b == [] then false
    else if a[0] == b[0] then IsSubsequence(a[1..], b[1..])
    else IsSubsequence(a, b[1..])
  }

  /** No element occurs twice. */
  predicate Distinct<T(==)>(s: seq<T>)
  {
    forall i, j | 0 <= i < j < |s| :: s[i] != s[j]
  }

  lemma {:induction false} SubsequenceMembers<T>(a: seq<T>, b: seq<T>)
    requires IsSubsequence(a, b)
    ensures forall x :: x in a ==> x in b
    decreases |b|
  {
    if a != [] {
      if a[0] == b[0] {
        SubsequenceMembers(a[1..], b[1..]);
        forall x | x in a ensures x in b {
          if x != a[0] {
            assert x in a[1..];
            assert x in b[1..];
          }
        }
      } else {
        SubsequenceMembers(a, b[1..]);
        forall x | x in a ensures x in b {
          assert x in b[1..];
        }
      }
    }
  }

  lemma {:induction false} SubsequenceOfDistinct<T>(a: seq<T>, b: seq<T>)
    requires IsSubsequence(a, b) && Distinct(b)
    ensures Distinct(a)
    decreases |b|
  {
    if a != [] {
      assert Distinct(b[1..]) by {
        forall i, j | 0 <= i < j < |b[1..]| ensures b[1..][i] != b[1..][j] {
          assert b[1..][i] == b[i + 1] && b[1..][j] == b[j + 1];
        }
      }
      if a[0] == b[0] {
        SubsequenceOfDistinct(a[1..], b[1..]);
        SubsequenceMembers(a[1..], b[1..]);
        forall j | 0 < j < |a| ensures a[0] != a[j] {
          assert a[j] == a[1..][j - 1];
          assert a[j] in b[1..];
          var k :| 0 <= k < |b[1..]| && b[1..][k] == a[j];
          assert b[k + 1] == a[j];
        }
        forall i, j | 0 <= i < j < |a| ensures a[i] != a[j] {
          if i > 0 {
            assert a[i] == a[1..][i - 1] && a[j] == a[1..][j - 1];
          }
        }
      } else {
        SubsequenceOfDistinct(a, b[1..]);
      }
    }
  }

  /** Appending one element on both sides keeps a subsequence a subsequence. */
  lemma {:induction false} SubsequenceSnoc<T>(a: seq<T>, b: seq<T>, x: T, keep: bool)
    requires IsSubsequence(a, b)
    ensures IsSubsequence(if keep then a + [x] else a, b + [x])
    decreases |b|
  {
    var a' := if keep then a + [x] else a;
    if a == [] {
      if keep {
        assert a' == [x];
        SubsequenceOfSingletonEnd(x, b);
      } else {
        assert IsSubsequence(a', b + [x]);
      }
    } else {
      assert (b + [x])[0] == b[0] && (b + [x])[1..] == b[1..] + [x];
      assert a'[0] == a[0];
      if a[0] == b[0] {
        SubsequenceSnoc(a[1..], b[1..], x, keep);
        assert a'[1..] == if keep then a[1..] + [x] else a[1..];
      } else {
        SubsequenceSnoc(a, b[1..], x, keep);
      }
    }
  }

  lemma {:induction false} SubsequenceOfSingletonEnd<T>(x: T, b: seq<T>)
    ensures IsSubsequence([x], b + [x])
    decreases |b|
  {
    if b != [] {
      assert (b + [x])[1..] == b[1..] + [x];
      SubsequenceOfSingletonEnd(x, b[1..]);
    }
  }

  // ------------------------------------------------------------- filter-map

  /** The value an option holds, as a sequence of length 0 or 1. */
  function OptionSeq<U>(o: Option<U>): seq<U>
  {
    if o.Some? then [o.value] else []
  }

  /**
   * A forEach over `s` that pushes `f(x).value` for each element `x` with
   * `f(x).Some?`: the values, in order of the elements that yield them.
   */
  function FilterMap<T, U>(f: T -> Option<U>, s: seq<T>): seq<U>
  {
    if s == [] then [] else FilterMap(f, s[..|s| - 1]) + OptionSeq(f(s[|s| - 1]))
  }

  /** The elements of `s` for which `f` yields a value, in order. */
  function Kept<T, U>(f: T -> Option<U>, s: seq<T>): seq<T>
  {
    if s == [] then []
    else Kept(f, s[..|s| - 1]) + (if f(s[|s| - 1]).Some? then [s[|s| - 1]] else [])
  }

  /** `f` applied to every element. */
  function MapSeq<T, K>(key: T -> K, s: seq<T>): (r: seq<K>)
    ensures |r| == |s| && forall i | 0 <= i < |s| :: r[i] == key(s[i])
  {
    seq(|s|, i requires 0 <= i < |s| => key(s[i]))
  }

  /** One more turn of the loop adds the value of element i, if it has one. */
  lemma FilterMapStep<T, U>(f: T -> Option<U>, s: seq<T>, i: nat)
    requires i < |s|
    ensures FilterMap(f, s[..i + 1]) == FilterMap(f, s[..i]) + OptionSeq(f(s[i]))
  {
    assert s[..i + 1][..i] == s[..i];
  }

  lemma {:induction false} FilterMapLength<T, U>(f: T -> Option<U>, s: seq<T>)
    ensures |FilterMap(f, s)| <= |s|
  {
    if s != [] {
      FilterMapLength(f, s[..|s| - 1]);
    }
  }

  /** Running the loop over a + b yields a's values, then b's. */
  lemma {:induction false} FilterMapAppend<T, U>(f: T -> Option<U>, a: seq<T>, b: seq<T>)
    ensures FilterMap(f, a + b) == FilterMap(f, a) + FilterMap(f, b)
  {
    if b == [] {
      assert a + b == a;
    } else {
      var b' := b[..|b| - 1];
      assert (a + b)[..|a + b| - 1] == a + b';
      FilterMapAppend(f, a, b');
    }
  }

  /**
   * The values are those of the kept elements, one each and in order, and the
   * kept elements are a subsequence of the input.
   */
  lemma FilterMapKept<T, U>(f: T -> Option<U>, s: seq<T>)
    ensures |FilterMap(f, s)| == |Kept(f, s)|
    ensures forall k | 0 <= k < |Kept(f, s)| :: f(Kept(f, s)[k]) == Some(FilterMap(f, s)[k])
    ensures IsSubsequence(Kept(f, s), s)
  {
    KeptYields(f, s);
    KeptIsSubsequence(f, s);
  }

  lemma {:induction false} KeptYields<T, U>(f: T -> Option<U>, s: seq<T>)
    ensures |FilterMap(f, s)| == |Kept(f, s)|
    ensures forall k | 0 <= k < |Kept(f, s)| :: f(Kept(f, s)[k]) == Some(FilterMap(f, s)[k])
  {
    if s != [] {
      var init, last := s[..|s| - 1], s[|s| - 1];
      KeptYields(f, init);
      var k, v := Kept(f, s), FilterMap(f, s);
      var k0, v0 := Kept(f, init), FilterMap(f, init);
      assert k == k0 + (if f(last).Some? then [last] else []);
      assert v == v0 + OptionSeq(f(last));
      forall j | 0 <= j < |k| ensures f(k[j]) == Some(v[j]) {
        if j < |k0| {
          assert k[j] == k0[j] && v[j] == v0[j];
        }
      }
    }
  }

  lemma {:induction false} KeptIsSubsequence<T, U>(f: T -> Option<U>, s: seq<T>)
    ensures IsSubsequence(Kept(f, s), s)
  {
    if s != [] {
      var init, last := s[..|s| - 1], s[|s| - 1];
      KeptIsSubsequence(f, init);
      assert s == init + [last];
      SubsequenceSnoc(Kept(f, init), init, last, f(last).Some?);
      assert Kept(f, s) == if f(last).Some? then Kept(f, init) + [last] else Kept(f, init);
    }
  }

  /** A value is produced exactly when some element of the input yields it. */
  lemma {:induction false} FilterMapOrigin<T, U>(f: T -> Option<U>, s: seq<T>, y: U)
    ensures y in FilterMap(f, s) <==> exists i | 0 <= i < |s| :: f(s[i]) == Some(y)
  {
    if s != [] {
      var init, last := s[..|s| - 1], s[|s| - 1];
      FilterMapOrigin(f, init, y);
      if y in FilterMap(f, s) {
        if y in FilterMap(f, init) {
          var i :| 0 <= i < |init| && f(init[i]) == Some(y);
          assert s[i] == init[i];
        } else {
          assert f(s[|s| - 1]) == Some(y);
        }
      }
      if exists i | 0 <= i < |s| :: f(s[i]) == Some(y) {
        var i :| 0 <= i < |s| && f(s[i]) == Some(y);
        if i < |init| {
          assert init[i] == s[i];
        }
      }
    }
  }

  /**
   * When every produced value carries the key of the element it came from,
   * the keys of the values are a subsequence of the keys of the input.
   */
  lemma {:induction false} FilterMapKeys<T, U, K>(f: T -> Option<U>, s: seq<T>, keyT: T -> K, keyU: U -> K)
    requires forall x :: f(x).Some? ==> keyU(f(x).value) == keyT(x)
    ensures IsSubsequence(MapSeq(keyU, FilterMap(f, s)), MapSeq(keyT, s))
  {
    if s == [] {
      assert MapSeq(keyU, FilterMap(f, s)) == [];
    } else {
      var init, last := s[..|s| - 1], s[|s| - 1];
      FilterMapKeys(f, init, keyT, keyU);
      var keep := f(last).Some?;
      SubsequenceSnoc(MapSeq(keyU, FilterMap(f, init)), MapSeq(keyT, init), keyT(last), keep);
      assert MapSeq(keyT, s) == MapSeq(keyT, init) + [keyT(last)];
      assert MapSeq(keyU, FilterMap(f, s))
          == if keep then MapSeq(keyU, FilterMap(f, init)) + [keyT(last)]
             else MapSeq(keyU, FilterMap(f, init));
    }
  }
}
