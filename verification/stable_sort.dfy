/** Python's `sorted(xs, key=k, reverse=True)` and `list.sort(key=k,
    reverse=True)`: a stable sort into non-increasing key order, and the
    slice `xs[:limit]` that follows it. */
module StableSort {

  /** Keys never increase from left to right. */
  predicate NonIncreasing<T>(s: seq<T>, key: T -> real) {
    forall i, j :: 0 <= i < j < |s| ==> key(s[i]) >= key(s[j])
  }

  /** Elements with equal keys appear in increasing `rank`: the order a
      stable sort keeps when `rank` is the position in its input. */
  predicate TiesInRankOrder<T>(s: seq<T>, key: T -> real, rank: T -> int) {
    forall i, j :: 0 <= i < j < |s| && key(s[i]) == key(s[j]) ==> rank(s[i]) < rank(s[j])
  }

  /** `rank` strictly increases along `s`. */
  predicate RankIncreasing<T>(s: seq<T>, rank: T -> int) {
    forall i, j :: 0 <= i < j < |s| ==> rank(s[i]) < rank(s[j])
  }

  /** Where `x` goes: in front of the first element whose key is not
      greater than its own, so ahead of every element with an equal key. */
  function InsertPos<T>(x: T, s: seq<T>, key: T -> real): (p: nat)
    ensures p <= |s|
    ensures forall k :: 0 <= k < p ==> key(s[k]) > key(x)
    ensures p < |s| ==> key(s[p]) <= key(x)
  {
    if |s| == 0 || key(s[0]) <= key(x) then 0 else 1 + InsertPos(x, s[1..], key)
  }

  function Insert<T>(x: T, s: seq<T>, key: T -> real): (r: seq<T>)
    ensures |r| == |s| + 1
    ensures multiset(r) == multiset(s) + multiset{x}
    ensures NonIncreasing(s, key) ==> NonIncreasing(r, key)
  {
    var p := InsertPos(x, s, key);
    assert s == s[..p] + s[p..];
    InsertKeepsOrder(x, s, key);
    s[..p] + [x] + s[p..]
  }

  /** Where each element of `s[..p] + [x] + s[p..]` comes from. */
  lemma InsertedAt<T>(x: T, s: seq<T>, p: nat)
    requires p <= |s|
    ensures var r := s[..p] + [x] + s[p..];
      && |r| == |s| + 1
      && (forall k :: 0 <= k < p ==> r[k] == s[k])
      && r[p] == x
      && (forall k :: p < k < |r| ==> r[k] == s[k - 1])
  {
  }

  lemma InsertKeepsOrder<T>(x: T, s: seq<T>, key: T -> real)
    ensures var p := InsertPos(x, s, key);
      NonIncreasing(s, key) ==> NonIncreasing(s[..p] + [x] + s[p..], key)
  {
    var p := InsertPos(x, s, key);
    var r := s[..p] + [x] + s[p..];
    if NonIncreasing(s, key) {
      InsertedAt(x, s, p);
      forall i, j | 0 <= i < j < |r| ensures key(r[i]) >= key(r[j]) {
        if j < p {
        } else if j == p {
        } else if i < p {
          assert key(s[i]) > key(x) >= key(s[p]);
        } else if i == p {
          assert key(x) >= key(s[p]);
        }
      }
    }
  }

  /** The stable descending sort. */
  function SortDesc<T>(s: seq<T>, key: T -> real): (r: seq<T>)
    ensures |r| == |s|
    ensures multiset(r) == multiset(s)
    ensures NonIncreasing(r, key)
  {
    if |s| == 0 then []
    else
      assert s == [s[0]] + s[1..];
      Insert(s[0], SortDesc(s[1..], key), key)
  }

  /** Inserting an element ranked before all others keeps ties in rank order. */
  lemma InsertKeepsTies<T>(x: T, s: seq<T>, key: T -> real, rank: T -> int)
    requires TiesInRankOrder(s, key, rank)
    requires forall k :: 0 <= k < |s| ==> rank(x) < rank(s[k])
    ensures TiesInRankOrder(Insert(x, s, key), key, rank)
  {
    var p := InsertPos(x, s, key);
    InsertedAt(x, s, p);
  }

  /** The sort is stable: elements with equal keys keep their input order. */
  lemma {:induction false} SortDescIsStable<T>(s: seq<T>, key: T -> real, rank: T -> int)
    requires RankIncreasing(s, rank)
    ensures TiesInRankOrder(SortDesc(s, key), key, rank)
  {
    if |s| > 0 {
      var tail := s[1..];
      SortDescIsStable(tail, key, rank);
      var sorted := SortDesc(tail, key);
      forall k | 0 <= k < |sorted| ensures rank(s[0]) < rank(sorted[k]) {
        assert sorted[k] in multiset(tail);
        var m :| 0 <= m < |tail| && tail[m] == sorted[k];
        assert s[m + 1] == tail[m];
      }
      InsertKeepsTies(s[0], sorted, key, rank);
    }
  }

  /** No element occurs twice. */
  predicate Distinct<T(==)>(s: seq<T>) {
    forall i, j :: 0 <= i < j < |s| ==> s[i] != s[j]
  }

  lemma InsertKeepsDistinct<T>(x: T, s: seq<T>, key: T -> real)
    requires Distinct(s) && x !in s
    ensures Distinct(Insert(x, s, key))
  {
    var p := InsertPos(x, s, key);
    InsertedAt(x, s, p);
  }

  /** Sorting a sequence without repetitions gives one without repetitions. */
  lemma {:induction false} SortDescKeepsDistinct<T>(s: seq<T>, key: T -> real)
    requires Distinct(s)
    ensures Distinct(SortDesc(s, key))
  {
    if |s| > 0 {
      var tail := s[1..];
      SortDescKeepsDistinct(tail, key);
      var sorted := SortDesc(tail, key);
      assert s[0] !in tail;
      assert s[0] !in multiset(sorted);
      InsertKeepsDistinct(s[0], sorted, key);
    }
  }

  /** `s[:limit]`: a negative limit counts from the end. */
  function Take<T>(s: seq<T>, limit: int): (r: seq<T>)
    ensures r <= s
    ensures limit >= 0 ==> |r| == if limit < |s| then limit else |s|
    ensures limit < 0 ==> |r| == if |s| + limit > 0 then |s| + limit else 0
  {
    if limit >= 0 then s[..if limit < |s| then limit else |s|]
    else s[..if |s| + limit > 0 then |s| + limit else 0]
  }

  /** A prefix keeps the order of what it is cut from. */
  lemma TakeKeepsOrder<T>(s: seq<T>, limit: int, key: T -> real, rank: T -> int)
    ensures NonIncreasing(s, key) ==> NonIncreasing(Take(s, limit), key)
    ensures TiesInRankOrder(s, key, rank) ==> TiesInRankOrder(Take(s, limit), key, rank)
  {
    var r := Take(s, limit);
    assert forall i :: 0 <= i < |r| ==> r[i] == s[i];
  }
}
