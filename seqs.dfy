/** Sequence folds shared by the models of the macro's generators. */
module Seqs {
  /** The concatenation of `f(x)` for every `x` of `s`, in order. */
  function FlatMap<T, U>(s: seq<T>, f: T -> seq<U>): seq<U>
    decreases |s|
  {
    if |s| == 0 then [] else FlatMap(s[..|s| - 1], f) + f(s[|s| - 1])
  }

  /** One more element at the end adds its image at the end. */
  lemma FlatMapSnoc<T, U>(s: seq<T>, x: T, f: T -> seq<U>)
    ensures FlatMap(s + [x], f) == FlatMap(s, f) + f(x)
  {
    assert (s + [x])[..|s|] == s;
  }

  /** The fold of two sequences in a row is the fold of the first followed
      by the fold of the second. */
  lemma {:induction false} FlatMapAppend<T, U>(a: seq<T>, b: seq<T>, f: T -> seq<U>)
    ensures FlatMap(a + b, f) == FlatMap(a, f) + FlatMap(b, f)
    decreases |b|
  {
    if |b| == 0 {
      assert a + b == a;
    } else {
      var b' := b[..|b| - 1];
      FlatMapAppend(a, b', f);
      var ab := a + b;
      assert ab[..|ab| - 1] == a + b';
    }
  }

  /** A value is in the fold exactly when it is in the image of some element. */
  lemma {:induction false} FlatMapMembership<T, U>(s: seq<T>, f: T -> seq<U>, u: U)
    ensures u in FlatMap(s, f) <==> exists k :: 0 <= k < |s| && u in f(s[k])
    decreases |s|
  {
    if |s| > 0 {
      var init := s[..|s| - 1];
      FlatMapMembership(init, f, u);
      if u in FlatMap(init, f) {
        var k :| 0 <= k < |init| && u in f(init[k]);
        assert s[k] == init[k];
      }
    }
  }

  /** The concatenation of `f(i, s[i])` for every position `i` of `s`, in order. */
  function IndexedFlatMap<T, U>(s: seq<T>, f: (nat, T) -> seq<U>): seq<U>
    decreases |s|
  {
    if |s| == 0 then [] else IndexedFlatMap(s[..|s| - 1], f) + f(|s| - 1, s[|s| - 1])
  }

  /** The fold of the first `i + 1` elements extends that of the first `i`
      by the image of element `i`. */
  lemma IndexedFlatMapStep<T, U>(s: seq<T>, f: (nat, T) -> seq<U>, i: nat)
    requires i < |s|
    ensures IndexedFlatMap(s[..i + 1], f) == IndexedFlatMap(s[..i], f) + f(i, s[i])
  {
    assert s[..i + 1][..i] == s[..i];
  }

  /** Where element `i`'s image sits: right after the images of the elements
      before it. */
  lemma {:induction false} IndexedFlatMapAt<T, U>(s: seq<T>, f: (nat, T) -> seq<U>, i: nat, k: nat)
    requires i < |s| && k < |f(i, s[i])|
    ensures |IndexedFlatMap(s[..i], f)| + k < |IndexedFlatMap(s, f)|
    ensures IndexedFlatMap(s, f)[|IndexedFlatMap(s[..i], f)| + k] == f(i, s[i])[k]
    decreases |s|
  {
    var n := |s| - 1;
    var init := s[..n];
    var before := IndexedFlatMap(init, f);
    var own := f(n, s[n]);
    if i == n {
      assert (before + own)[|before| + k] == own[k];
    } else {
      assert init[..i] == s[..i] && init[i] == s[i];
      IndexedFlatMapAt(init, f, i, k);
      var idx := |IndexedFlatMap(s[..i], f)| + k;
      assert (before + own)[idx] == before[idx];
    }
  }
}
