/**
 * The Python building blocks the collections are made of: the order-preserving filter of a
 * list comprehension, the last-writer-wins dict of a dict comprehension, and the builtin
 * `max(..., key=...)`, which keeps the first of several maximal elements.
 */
module Sequences {

  /** `a` is `b` with some elements left out and the rest kept in their order. */
  predicate IsSubsequence<T(==)>(a: seq<T>, b: seq<T>)
    decreases |b|
  {
    if |a| == 0 then true
    else if |b| == 0 then false
    else if a[0] == b[0] then IsSubsequence(a[1..], b[1..])
    else IsSubsequence(a, b[1..])
  }

  /** Every element of a subsequence is an element of the whole. */
  lemma {:induction false} SubsequenceMembers<T>(a: seq<T>, b: seq<T>)
    requires IsSubsequence(a, b)
    ensures forall i :: 0 <= i < |a| ==> a[i] in b
    decreases |b|
  {
    if |a| > 0 {
      if a[0] == b[0] {
        SubsequenceMembers(a[1..], b[1..]);
        assert forall i :: 1 <= i < |a| ==> a[i] == a[1..][i - 1];
      } else {
        SubsequenceMembers(a, b[1..]);
      }
      assert forall x :: x in b[1..] ==> x in b;
    }
  }

  /** A non-empty subsequence starts with an element of the whole. */
  lemma SubsequenceHeadIsMember<T>(a: seq<T>, b: seq<T>)
    requires IsSubsequence(a, b)
    ensures |a| > 0 ==> a[0] in b
  {
    SubsequenceMembers(a, b);
  }

  /** `[x for x in xs if p(x)]`: the elements satisfying `p`, every one of them, in order. */
  function Filter<T(==)>(xs: seq<T>, p: T -> bool): (r: seq<T>)
    ensures IsSubsequence(r, xs)
    ensures forall i :: 0 <= i < |r| ==> p(r[i])
    ensures forall i :: 0 <= i < |xs| && p(xs[i]) ==> xs[i] in r
  {
    if |xs| == 0 then []
    else
      assert xs == [xs[0]] + xs[1..];
      if p(xs[0]) then [xs[0]] + Filter(xs[1..], p) else Filter(xs[1..], p)
  }

  /** Every element satisfying the test is kept as often as it occurs; no other is kept. */
  lemma {:induction false} FilterCounts<T>(xs: seq<T>, p: T -> bool, x: T)
    ensures multiset(Filter(xs, p))[x] == if p(x) then multiset(xs)[x] else 0
  {
    if |xs| > 0 {
      assert xs == [xs[0]] + xs[1..];
      FilterCounts(xs[1..], p, x);
    }
  }

  /** `FilterCounts` for every element at once. */
  lemma FilterCountsAll<T>(xs: seq<T>, p: T -> bool)
    ensures forall x :: multiset(Filter(xs, p))[x] == if p(x) then multiset(xs)[x] else 0
  {
    forall x
      ensures multiset(Filter(xs, p))[x] == if p(x) then multiset(xs)[x] else 0
    {
      FilterCounts(xs, p, x);
    }
  }

  /** Filtering a list one element longer: the old result, plus that element if it passes. */
  lemma {:induction false} FilterSnoc<T>(xs: seq<T>, x: T, p: T -> bool)
    ensures Filter(xs + [x], p) == Filter(xs, p) + (if p(x) then [x] else [])
  {
    if |xs| > 0 {
      assert (xs + [x])[1..] == xs[1..] + [x];
      FilterSnoc(xs[1..], x, p);
    } else {
      assert xs + [x] == [x];
    }
  }

  /** A test every element passes keeps the whole list. */
  lemma {:induction false} FilterKeepsAll<T>(xs: seq<T>, p: T -> bool)
    requires forall i :: 0 <= i < |xs| ==> p(xs[i])
    ensures Filter(xs, p) == xs
  {
    if |xs| > 0 {
      FilterKeepsAll(xs[1..], p);
    }
  }

  /**
   * The last element of `Filter(xs, p)` that has key `key` is the last element of `xs` that
   * both passes `p` and has that key.
   */
  lemma {:induction false} FilterLastWithKey<T, K>(xs: seq<T>, p: T -> bool, k: T -> K, key: K, t: int)
    requires 0 <= t < |Filter(xs, p)| && k(Filter(xs, p)[t]) == key
    requires forall u :: t < u < |Filter(xs, p)| ==> k(Filter(xs, p)[u]) != key
    ensures exists i :: && 0 <= i < |xs| && xs[i] == Filter(xs, p)[t] && p(xs[i]) && k(xs[i]) == key
                        && forall j :: i < j < |xs| ==> !(p(xs[j]) && k(xs[j]) == key)
    decreases |xs|
  {
    assert |xs| > 0;
    var n := |xs| - 1;
    var ys, x := xs[..n], xs[n];
    assert xs == ys + [x];
    FilterSnoc(ys, x, p);
    var f, g := Filter(xs, p), Filter(ys, p);
    if p(x) && k(x) == key {
      assert f[|f| - 1] == x;
      assert t == |f| - 1;
      assert xs[n] == f[t];
    } else {
      if p(x) {
        assert f[|f| - 1] == x;
      }
      assert t < |g|;
      assert forall u :: 0 <= u < |g| ==> g[u] == f[u];
      FilterLastWithKey(ys, p, k, key, t);
      var i :| && 0 <= i < |ys| && ys[i] == g[t] && p(ys[i]) && k(ys[i]) == key
               && forall j :: i < j < |ys| ==> !(p(ys[j]) && k(ys[j]) == key);
      assert xs[i] == ys[i];
      assert forall j :: i < j < |xs| ==> !(p(xs[j]) && k(xs[j]) == key) by {
        forall j | i < j < |xs|
          ensures !(p(xs[j]) && k(xs[j]) == key)
        {
          if j < n {
            assert xs[j] == ys[j];
          }
        }
      }
    }
  }

  /** `i` is the last position of `entries` whose key is `k`. */
  predicate IsLastWithKey<K(==), V>(entries: seq<(K, V)>, i: int, k: K)
  {
    && 0 <= i < |entries| && entries[i].0 == k
    && forall j :: i < j < |entries| ==> entries[j].0 != k
  }

  /** `{k: v for k, v in entries}`: later entries overwrite earlier ones with the same key. */
  function LastWins<K, V>(entries: seq<(K, V)>): (m: map<K, V>)
    ensures m.Keys == set i | 0 <= i < |entries| :: entries[i].0
  {
    if |entries| == 0 then map[]
    else
      var e := entries[|entries| - 1];
      var m := LastWins(entries[..|entries| - 1]);
      assert forall i :: 0 <= i < |entries| - 1 ==> entries[..|entries| - 1][i] == entries[i];
      m[e.0 := e.1]
  }

  /** Each key of the dict holds the value of the last entry with that key. */
  lemma {:induction false} LastWinsKeepsLast<K, V>(entries: seq<(K, V)>, k: K)
    requires k in LastWins(entries)
    ensures exists i :: IsLastWithKey(entries, i, k) && entries[i].1 == LastWins(entries)[k]
  {
    var n := |entries|;
    var e := entries[n - 1];
    if e.0 == k {
      assert IsLastWithKey(entries, n - 1, k);
    } else {
      var prefix := entries[..n - 1];
      LastWinsKeepsLast(prefix, k);
      var i :| IsLastWithKey(prefix, i, k) && prefix[i].1 == LastWins(prefix)[k];
      assert IsLastWithKey(entries, i, k);
    }
  }

  /** `less` is a strict total order: irreflexive, transitive and total. */
  ghost predicate StrictTotalOrder<K(!new)>(less: (K, K) -> bool)
  {
    && (forall a :: !less(a, a))
    && (forall a, b, c :: less(a, b) && less(b, c) ==> less(a, c))
    && (forall a, b :: a != b ==> less(a, b) || less(b, a))
  }

  /**
   * The rest of `max`'s scan from position `i`, holding `best` so far: an element replaces
   * `best` only when its key is strictly greater.
   */
  function MaxByFrom<T, K>(xs: seq<T>, key: T -> K, less: (K, K) -> bool, best: T, i: nat): T
    requires i <= |xs|
    decreases |xs| - i
  {
    if i == |xs| then best
    else MaxByFrom(xs, key, less, if less(key(best), key(xs[i])) then xs[i] else best, i + 1)
  }

  /** `max(xs, key=key)` of a non-empty list. */
  function MaxBy<T, K>(xs: seq<T>, key: T -> K, less: (K, K) -> bool): T
    requires |xs| > 0
  {
    MaxByFrom(xs, key, less, xs[0], 1)
  }

  /** `xs[i]` has a key no other key exceeds, and every element before it has a smaller key. */
  ghost predicate IsFirstMaximal<T, K>(xs: seq<T>, key: T -> K, less: (K, K) -> bool, i: int)
  {
    && 0 <= i < |xs|
    && (forall j :: 0 <= j < |xs| ==> !less(key(xs[i]), key(xs[j])))
    && (forall j :: 0 <= j < i ==> less(key(xs[j]), key(xs[i])))
  }

  /** The scan keeps the first element whose key is maximal among those seen so far. */
  lemma {:induction false} MaxByFromIsFirstMaximal<T, K(!new)>(xs: seq<T>, key: T -> K,
                                                         less: (K, K) -> bool, b: nat, i: nat)
    requires StrictTotalOrder(less)
    requires b < i <= |xs|
    requires IsFirstMaximal(xs[..i], key, less, b)
    ensures exists k :: IsFirstMaximal(xs, key, less, k)
                        && xs[k] == MaxByFrom(xs, key, less, xs[b], i)
    decreases |xs| - i
  {
    if i == |xs| {
      assert xs[..i] == xs;
    } else {
      var next := if less(key(xs[b]), key(xs[i])) then i else b;
      forall j | 0 <= j < i + 1
        ensures !less(key(xs[next]), key(xs[j]))
      {
        assert j < i ==> xs[..i][j] == xs[j];
      }
      forall j | 0 <= j < next
        ensures less(key(xs[j]), key(xs[next]))
      {
        if j < i {
          assert xs[..i][j] == xs[j];
        }
        if next == i && j != b {
          assert j < b ==> less(key(xs[j]), key(xs[b]));
          assert j > b ==> key(xs[j]) == key(xs[b]) || less(key(xs[j]), key(xs[b]));
        }
      }
      assert IsFirstMaximal(xs[..i + 1], key, less, next);
      MaxByFromIsFirstMaximal(xs, key, less, next, i + 1);
    }
  }

  /**
   * `max(xs, key=key)` returns the first element whose key is at least every key: every key
   * before it is strictly smaller.
   */
  lemma MaxByIsFirstMaximal<T, K(!new)>(xs: seq<T>, key: T -> K, less: (K, K) -> bool)
    requires StrictTotalOrder(less) && |xs| > 0
    ensures exists k :: IsFirstMaximal(xs, key, less, k) && xs[k] == MaxBy(xs, key, less)
  {
    assert IsFirstMaximal(xs[..1], key, less, 0);
    MaxByFromIsFirstMaximal(xs, key, less, 0, 1);
  }

  /** The identity, the key `max` uses when none is given. */
  function Id<T>(x: T): T
  {
    x
  }

  /** `[key(x) for x in xs]`. */
  function KeysOf<T, S>(xs: seq<T>, key: T -> S): (r: seq<S>)
    ensures |r| == |xs| && forall i :: 0 <= i < |xs| ==> r[i] == key(xs[i])
  {
    seq(|xs|, i requires 0 <= i < |xs| => key(xs[i]))
  }

  /** The test `key(x) == k`, as a value. */
  function KeyIs<T, S(==)>(key: T -> S, k: S): T -> bool
  {
    (x: T) => key(x) == k
  }

  /** No key in `xs` exceeds the key of `x`. */
  ghost predicate IsMaximal<T, K>(xs: seq<T>, key: T -> K, less: (K, K) -> bool, x: T)
  {
    forall j :: 0 <= j < |xs| ==> !less(key(x), key(xs[j]))
  }

  /** `[x for x in xs if key(x) == max(key(y) for y in xs)]`. */
  function TiedAtMax<T(==), S(==)>(xs: seq<T>, key: T -> S, less: (S, S) -> bool): seq<T>
    requires |xs| > 0
  {
    Filter(xs, KeyIs(key, MaxBy(KeysOf(xs, key), Id, less)))
  }

  /** The tied elements are those passing the test `key(x) == max`, as a value. */
  lemma TiedAtMaxUnfold<T, S>(xs: seq<T>, key: T -> S, less: (S, S) -> bool)
    requires |xs| > 0
    ensures TiedAtMax(xs, key, less) == Filter(xs, KeyIs(key, MaxBy(KeysOf(xs, key), Id, less)))
  {
  }

  /**
   * The elements tied at the greatest key are exactly the elements no key exceeds, and there
   * is at least one.
   */
  lemma TiedAtMaxIsMaximal<T, S(!new)>(xs: seq<T>, key: T -> S, less: (S, S) -> bool)
    requires StrictTotalOrder(less) && |xs| > 0
    ensures |TiedAtMax(xs, key, less)| > 0
    ensures forall i :: 0 <= i < |TiedAtMax(xs, key, less)| ==>
              TiedAtMax(xs, key, less)[i] in xs && IsMaximal(xs, key, less, TiedAtMax(xs, key, less)[i])
    ensures forall i :: 0 <= i < |xs| && IsMaximal(xs, key, less, xs[i]) ==>
              xs[i] in TiedAtMax(xs, key, less)
  {
    var ks := KeysOf(xs, key);
    var best := MaxBy(ks, Id, less);
    var tied := TiedAtMax(xs, key, less);
    SubsequenceMembers(tied, xs);
    MaxByIsFirstMaximal(ks, Id, less);
    var k :| IsFirstMaximal(ks, Id, less, k) && ks[k] == best;
    assert key(xs[k]) == best;
    assert forall j :: 0 <= j < |xs| ==> !less(best, key(xs[j])) by {
      forall j | 0 <= j < |xs|
        ensures !less(best, key(xs[j]))
      {
        assert Id(ks[j]) == key(xs[j]);
      }
    }
    assert xs[k] in tied;
  }

  /**
   * The last tied element with key `kk` under `k` is the last element of `xs` that no key
   * exceeds and that has key `kk`.
   */
  lemma TiedAtMaxLastWithKey<T, S(!new), K>(xs: seq<T>, key: T -> S, less: (S, S) -> bool,
                                            k: T -> K, kk: K, t: int) returns (i: int)
    requires StrictTotalOrder(less) && |xs| > 0
    requires 0 <= t < |TiedAtMax(xs, key, less)| && k(TiedAtMax(xs, key, less)[t]) == kk
    requires forall u :: t < u < |TiedAtMax(xs, key, less)| ==> k(TiedAtMax(xs, key, less)[u]) != kk
    ensures 0 <= i < |xs| && xs[i] == TiedAtMax(xs, key, less)[t]
    ensures IsMaximal(xs, key, less, xs[i]) && k(xs[i]) == kk
    ensures forall j :: i < j < |xs| ==> !(IsMaximal(xs, key, less, xs[j]) && k(xs[j]) == kk)
  {
    var tied := TiedAtMax(xs, key, less);
    var tiedTest := KeyIs(key, MaxBy(KeysOf(xs, key), Id, less));
    TiedAtMaxUnfold(xs, key, less);
    FilterLastWithKey(xs, tiedTest, k, kk, t);
    i :| && 0 <= i < |xs| && xs[i] == tied[t] && tiedTest(xs[i]) && k(xs[i]) == kk
         && forall j :: i < j < |xs| ==> !(tiedTest(xs[j]) && k(xs[j]) == kk);
    TiedAtMaxIsMaximal(xs, key, less);
    forall j | i < j < |xs| && IsMaximal(xs, key, less, xs[j])
      ensures k(xs[j]) != kk
    {
      var u :| 0 <= u < |tied| && tied[u] == xs[j];
      assert tiedTest(tied[u]);
    }
  }

  /** `d[k][g] = v` for each `(k, g, v)` in order, creating the inner dict `d[k]` on first use. */
  function Nest<K, G, V>(entries: seq<(K, G, V)>): map<K, map<G, V>>
  {
    if |entries| == 0 then map[]
    else
      var m := Nest(entries[..|entries| - 1]);
      var e := entries[|entries| - 1];
      m[e.0 := (if e.0 in m then m[e.0] else map[])[e.1 := e.2]]
  }

  /** The nested dict has a key for every entry's outer key and no other. */
  lemma {:induction false} NestKeys<K, G, V>(entries: seq<(K, G, V)>, k: K)
    ensures k in Nest(entries) <==> exists i :: 0 <= i < |entries| && entries[i].0 == k
  {
    if |entries| > 0 {
      var n := |entries| - 1;
      var prefix := entries[..n];
      NestKeys(prefix, k);
      if k in Nest(prefix) {
        var i :| 0 <= i < n && prefix[i].0 == k;
        assert entries[i].0 == k;
      }
      if exists i :: 0 <= i < |entries| && entries[i].0 == k {
        var i :| 0 <= i < |entries| && entries[i].0 == k;
        if i < n {
          assert prefix[i].0 == k;
        }
      }
    }
  }

  /** An inner dict has a key exactly where an entry with both keys exists. */
  lemma {:induction false} NestInnerKeys<K, G, V>(entries: seq<(K, G, V)>, k: K, g: G)
    ensures (k in Nest(entries) && g in Nest(entries)[k]) <==>
              exists i :: 0 <= i < |entries| && entries[i].0 == k && entries[i].1 == g
  {
    if |entries| > 0 {
      var n := |entries| - 1;
      var prefix := entries[..n];
      NestInnerKeys(prefix, k, g);
      if k in Nest(prefix) && g in Nest(prefix)[k] {
        var i :| 0 <= i < n && prefix[i].0 == k && prefix[i].1 == g;
        assert entries[i].0 == k && entries[i].1 == g;
      }
      if exists i :: 0 <= i < |entries| && entries[i].0 == k && entries[i].1 == g {
        var i :| 0 <= i < |entries| && entries[i].0 == k && entries[i].1 == g;
        if i < n {
          assert prefix[i].0 == k && prefix[i].1 == g;
        }
      }
    }
  }

  /** `i` is the last position of `entries` with outer key `k` and inner key `g`. */
  predicate IsLastAt<K(==), G(==), V>(entries: seq<(K, G, V)>, i: int, k: K, g: G)
  {
    && 0 <= i < |entries| && entries[i].0 == k && entries[i].1 == g
    && forall j :: i < j < |entries| ==> !(entries[j].0 == k && entries[j].1 == g)
  }

  /** Each inner value is the value of the last entry with both its keys. */
  lemma {:induction false} NestKeepsLast<K, G, V>(entries: seq<(K, G, V)>, k: K, g: G)
    requires k in Nest(entries) && g in Nest(entries)[k]
    ensures exists i :: IsLastAt(entries, i, k, g) && entries[i].2 == Nest(entries)[k][g]
  {
    var n := |entries| - 1;
    var e := entries[n];
    if e.0 == k && e.1 == g {
      assert IsLastAt(entries, n, k, g);
    } else {
      var prefix := entries[..n];
      assert k in Nest(prefix) && g in Nest(prefix)[k];
      NestKeepsLast(prefix, k, g);
      var i :| IsLastAt(prefix, i, k, g) && prefix[i].2 == Nest(prefix)[k][g];
      assert IsLastAt(entries, i, k, g);
    }
  }

  /** No inner dict is empty. */
  lemma NestHasNoEmptyInner<K, G, V>(entries: seq<(K, G, V)>, k: K)
    requires k in Nest(entries)
    ensures exists g :: g in Nest(entries)[k]
  {
    NestKeys(entries, k);
    var i :| 0 <= i < |entries| && entries[i].0 == k;
    NestInnerKeys(entries, k, entries[i].1);
  }
}
