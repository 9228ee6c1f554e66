/** Failure-carrying wrappers shared by every module of the model. */
module Base {

  /** Python's `Optional[T]`: a value or `None`. */
  datatype Option<+T> = None | Some(value: T)

  /** What a Python call either returns or raises. The model only names the
      exceptions that change the caller's behaviour. */
  datatype Result<+T> = Ok(value: T) | Raised(error: Error)

  datatype Error =
    | InvalidPeriod(period: string)   // `int(period[:-1])` raised ValueError
    | PeriodOverflow(period: string)  // `timedelta(...)` or `now - timedelta(...)` raised OverflowError

  /** The concatenation of `f` applied to each element of `s`, in order. */
  function FlatMap<A, B>(s: seq<A>, f: A -> seq<B>): seq<B> {
    if |s| == 0 then [] else FlatMap(s[..|s| - 1], f) + f(s[|s| - 1])
  }

  /** `FlatMap` works element by element: a concatenation maps to the
      concatenation of the parts' images. */
  lemma {:induction false} FlatMapConcat<A, B>(a: seq<A>, b: seq<A>, f: A -> seq<B>)
    ensures FlatMap(a + b, f) == FlatMap(a, f) + FlatMap(b, f)
  {
    if |b| > 0 {
      var b' := b[..|b| - 1];
      assert (a + b)[..|a + b| - 1] == a + b';
      assert (a + b)[|a + b| - 1] == b[|b| - 1];
      FlatMapConcat(a, b', f);
    } else {
      assert a + b == a;
    }
  }

  /** Every element of the result comes from the image of some element of
      `s`; when each image has at most one element, the result is no longer
      than `s`. */
  lemma {:induction false} FlatMapOrigin<A, B>(s: seq<A>, f: A -> seq<B>)
    ensures forall k :: 0 <= k < |FlatMap(s, f)| ==> exists i :: 0 <= i < |s| && FlatMap(s, f)[k] in f(s[i])
    ensures (forall i :: 0 <= i < |s| ==> |f(s[i])| <= 1) ==> |FlatMap(s, f)| <= |s|
  {
    if |s| > 0 {
      var init := s[..|s| - 1];
      FlatMapOrigin(init, f);
      var r := FlatMap(s, f);
      forall k | 0 <= k < |r| ensures exists i :: 0 <= i < |s| && r[k] in f(s[i]) {
        if k < |FlatMap(init, f)| {
          var i :| 0 <= i < |init| && FlatMap(init, f)[k] in f(init[i]);
          assert r[k] == FlatMap(init, f)[k] && s[i] == init[i];
        } else {
          var last := f(s[|s| - 1]);
          assert r[k] == last[k - |FlatMap(init, f)|];
          assert r[k] in f(s[|s| - 1]);
        }
      }
      if forall i :: 0 <= i < |s| ==> |f(s[i])| <= 1 {
        assert forall i :: 0 <= i < |init| ==> f(init[i]) == f(s[i]);
      }
    } else {
      assert FlatMap(s, f) == [];
    }
  }

  /** `[f(x) for x in s]` */
  function Map<A, B>(s: seq<A>, f: A -> B): (r: seq<B>)
    ensures |r| == |s| && forall k :: 0 <= k < |s| ==> r[k] == f(s[k])
  {
    seq(|s|, k requires 0 <= k < |s| => f(s[k]))
  }

  lemma MapConcat<A, B>(a: seq<A>, b: seq<A>, f: A -> B)
    ensures Map(a + b, f) == Map(a, f) + Map(b, f)
  {
  }

  /** Taking the same element out of two permutations of each other leaves
      permutations of each other. */
  lemma RemoveMatching<T>(a: seq<T>, b: seq<T>, j: nat)
    requires multiset(a) == multiset(b) && |a| > 0 && j < |b| && b[j] == a[0]
    ensures multiset(a[1..]) == multiset(b[..j] + b[j + 1..])
  {
    assert a == [a[0]] + a[1..];
    assert multiset(a) == multiset{a[0]} + multiset(a[1..]);
    assert b == b[..j] + [b[j]] + b[j + 1..];
    assert multiset(b) == multiset(b[..j]) + multiset{b[j]} + multiset(b[j + 1..]);
    assert multiset(b[..j] + b[j + 1..]) == multiset(b[..j]) + multiset(b[j + 1..]);
    forall x ensures multiset(a[1..])[x] == multiset(b[..j] + b[j + 1..])[x] {
      assert multiset(a)[x] == multiset(b)[x];
    }
  }

  lemma MapCut<A, B>(b: seq<A>, j: nat, f: A -> B)
    requires j < |b|
    ensures multiset(Map(b, f)) == multiset(Map(b[..j] + b[j + 1..], f)) + multiset{f(b[j])}
  {
    assert b == b[..j] + [b[j]] + b[j + 1..];
    MapConcat(b[..j] + [b[j]], b[j + 1..], f);
    MapConcat(b[..j], [b[j]], f);
    MapConcat(b[..j], b[j + 1..], f);
  }

  /** Mapping two permutations of each other gives permutations of each other. */
  lemma {:induction false} MapPermutation<A, B>(a: seq<A>, b: seq<A>, f: A -> B)
    requires multiset(a) == multiset(b)
    ensures multiset(Map(a, f)) == multiset(Map(b, f))
    decreases |a|
  {
    if |a| == 0 {
      assert |b| == |multiset(b)| == 0;
    } else {
      assert a[0] in multiset(b) by { assert a[0] in multiset(a); }
      var j :| 0 <= j < |b| && b[j] == a[0];
      RemoveMatching(a, b, j);
      MapPermutation(a[1..], b[..j] + b[j + 1..], f);
      MapPermutationStep(a, b, j, f);
    }
  }

  lemma MapHead<A, B>(a: seq<A>, f: A -> B)
    requires |a| > 0
    ensures multiset(Map(a, f)) == multiset(Map(a[1..], f)) + multiset{f(a[0])}
  {
    assert Map(a, f) == [f(a[0])] + Map(a[1..], f);
  }

  lemma MapPermutationStep<A, B>(a: seq<A>, b: seq<A>, j: nat, f: A -> B)
    requires |a| > 0 && j < |b| && b[j] == a[0]
    requires multiset(Map(a[1..], f)) == multiset(Map(b[..j] + b[j + 1..], f))
    ensures multiset(Map(a, f)) == multiset(Map(b, f))
  {
    MapCut(b, j, f);
    MapHead(a, f);
  }
}
