/**
 * Lists laid end to end: block `i` covers positions `start(i)` up to `start(i) + size(i)`,
 * the first block starts at 0 and each block starts where the one before it ends. The
 * game lists of the game groups are such blocks over the games.
 */
module Blocks {
  /** The first `n` blocks are non-empty, start at 0 and follow one another without gaps. */
  ghost predicate Tiles(start: nat -> nat, size: nat -> nat, n: nat)
  {
    && start(0) == 0
    && (forall i :: 0 <= i < n ==> size(i) > 0)
    && (forall i :: 0 < i < n ==> start(i) == start(i - 1) + size(i - 1))
  }

  /** In a tiling, earlier blocks end before later blocks start. */
  lemma {:induction false} TilesAscend(start: nat -> nat, size: nat -> nat, n: nat, i: nat, j: nat)
    requires Tiles(start, size, n)
    requires i < j < n
    ensures start(i) + size(i) <= start(j)
    decreases j - i
  {
    if i + 1 < j {
      TilesAscend(start, size, n, i + 1, j);
    }
  }

  /** In a tiling, every position before the end of block `k` lies in some block up to `k`. */
  lemma {:induction false} TilesCover(start: nat -> nat, size: nat -> nat, n: nat, o: nat, k: nat)
    returns (i: nat)
    requires Tiles(start, size, n)
    requires k < n && o < start(k) + size(k)
    ensures i <= k && start(i) <= o < start(i) + size(i)
  {
    if start(k) <= o {
      i := k;
    } else {
      i := TilesCover(start, size, n, o, k - 1);
    }
  }

  /** `part(0) + part(1) + ... + part(k - 1)`. */
  ghost function Flatten<T>(part: nat -> seq<T>, k: nat): seq<T>
  {
    if k == 0 then [] else Flatten(part, k - 1) + part(k - 1)
  }

  /** Block `i` holds the slice of `all` it covers. */
  ghost predicate HoldsSlice<T>(all: seq<T>, part: nat -> seq<T>, start: nat -> nat, size: nat -> nat, i: nat)
  {
    start(i) + size(i) <= |all| && part(i) == all[start(i)..start(i) + size(i)]
  }

  /**
   * When each block of a tiling holds its own slice of `all`, the first `k` blocks put
   * together hold the prefix of `all` up to the end of block `k - 1`.
   */
  lemma {:induction false} FlattenTiles<T>(all: seq<T>, part: nat -> seq<T>,
                                           start: nat -> nat, size: nat -> nat, n: nat, k: nat)
    requires Tiles(start, size, n) && 0 < k <= n
    requires forall i :: 0 <= i < n ==> HoldsSlice(all, part, start, size, i)
    ensures start(k - 1) + size(k - 1) <= |all|
    ensures Flatten(part, k) == all[..start(k - 1) + size(k - 1)]
  {
    assert HoldsSlice(all, part, start, size, k - 1);
    var e := start(k - 1);
    if k == 1 {
      assert Flatten(part, 0) == [];
    } else {
      FlattenTiles(all, part, start, size, n, k - 1);
    }
    assert all[..e + size(k - 1)] == all[..e] + all[e..e + size(k - 1)];
  }

  /** When the last block ends where `all` ends, all the blocks put together are `all`. */
  lemma FlattenTilesAll<T>(all: seq<T>, part: nat -> seq<T>,
                           start: nat -> nat, size: nat -> nat, n: nat)
    requires Tiles(start, size, n) && 0 < n
    requires forall i :: 0 <= i < n ==> HoldsSlice(all, part, start, size, i)
    requires start(n - 1) + size(n - 1) == |all|
    ensures Flatten(part, n) == all
  {
    FlattenTiles(all, part, start, size, n, n);
    assert all[..|all|] == all;
  }

  /** An element found at one position only lies in a slice exactly when that position does. */
  lemma InSlice<T>(all: seq<T>, x: T, p: nat, lo: nat, hi: nat)
    requires p < |all| && all[p] == x
    requires forall k :: 0 <= k < |all| && all[k] == x ==> k == p
    requires lo <= hi <= |all|
    ensures x in all[lo..hi] <==> lo <= p < hi
  {
    if lo <= p < hi {
      assert all[lo..hi][p - lo] == x;
    }
  }
}
