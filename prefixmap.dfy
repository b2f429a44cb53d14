/**
 * The abstract view of a trie: a finite map from bit prefixes (paths from the root, `true` for a
 * right step) to the values stored at exactly those prefixes, and longest-prefix match over it.
 */
module PrefixMap {
  import opened Wrappers

  /** The depth of the deepest prefix `path[..k]`, `k <= n`, that holds a value. */
  function MatchLength<V>(c: map<seq<bool>, V>, path: seq<bool>, n: nat): (k: Option<nat>)
    requires n <= |path|
    ensures k.Some? ==> k.value <= n && path[..k.value] in c
    ensures k.Some? ==> forall j | k.value < j <= n :: path[..j] !in c
    ensures k.None? ==> forall j | 0 <= j <= n :: path[..j] !in c
    decreases n
  {
    if path[..n] in c then Some(n)
    else if n == 0 then None
    else MatchLength(c, path, n - 1)
  }

  /** The value of the most specific stored prefix of `path[..n]`, if any. */
  function LongestMatch<V>(c: map<seq<bool>, V>, path: seq<bool>, n: nat): Option<V>
    requires n <= |path|
  {
    match MatchLength(c, path, n)
    case None => None
    case Some(k) => Some(c[path[..k]])
  }

  /** Longest-prefix match is determined by its meaning: a stored prefix with nothing deeper wins. */
  lemma MatchIsDeepest<V>(c: map<seq<bool>, V>, path: seq<bool>, n: nat, k: nat)
    requires k <= n <= |path|
    requires path[..k] in c
    requires forall j | k < j <= n :: path[..j] !in c
    ensures LongestMatch(c, path, n) == Some(c[path[..k]])
  {
    assert MatchLength(c, path, n).Some?;
  }

  /** With no stored prefix along the path the lookup finds nothing. */
  lemma NoMatch<V>(c: map<seq<bool>, V>, path: seq<bool>, n: nat)
    requires n <= |path|
    ensures LongestMatch(c, path, n).None? <==> forall j | 0 <= j <= n :: path[..j] !in c
  {
    if LongestMatch(c, path, n).Some? {
      var k := MatchLength(c, path, n).value;
      assert path[..k] in c;
    }
  }

  /** Two maps that agree on every prefix of `path[..n]` answer the lookup alike. */
  lemma {:induction false} SameAlongPath<V>(c1: map<seq<bool>, V>, c2: map<seq<bool>, V>, path: seq<bool>, n: nat)
    requires n <= |path|
    requires forall j | 0 <= j <= n :: (path[..j] in c1 <==> path[..j] in c2)
    requires forall j | 0 <= j <= n && path[..j] in c1 :: c1[path[..j]] == c2[path[..j]]
    ensures MatchLength(c1, path, n) == MatchLength(c2, path, n)
    ensures LongestMatch(c1, path, n) == LongestMatch(c2, path, n)
    decreases n
  {
    if path[..n] !in c1 && n > 0 {
      SameAlongPath(c1, c2, path, n - 1);
    }
  }

  /** A prefix of `path[..k]` is a prefix of `path[..n]` for every `n >= k`. */
  lemma PrefixOfLonger(q: seq<bool>, path: seq<bool>, k: nat, n: nat)
    requires k <= n <= |path|
    requires q <= path[..k]
    ensures q <= path[..n]
  {
    assert path[..k] == path[..n][..k];
  }

  /** Storing at `p` leaves every lookup that `p` does not cover unchanged. */
  lemma StoreElsewhere<V>(c: map<seq<bool>, V>, p: seq<bool>, v: V, path: seq<bool>, n: nat)
    requires n <= |path|
    requires !(p <= path[..n])
    ensures LongestMatch(c[p := v], path, n) == LongestMatch(c, path, n)
  {
    forall j | 0 <= j <= n
      ensures path[..j] != p
    {
      if path[..j] == p {
        PrefixOfLonger(p, path, j, n);
      }
    }
    SameAlongPath(c[p := v], c, path, n);
  }

  /**
   * Storing at a prefix `p` of the lookup: the lookup answers `v` unless the map already held a
   * more specific prefix of it. In particular the exact lookup of `p` answers `v`.
   */
  lemma StoreCovers<V>(c: map<seq<bool>, V>, p: seq<bool>, v: V, path: seq<bool>, n: nat)
    requires |p| <= n <= |path| && p == path[..|p|]
    ensures LongestMatch(c[p := v], path, n) ==
            match MatchLength(c, path, n)
            case Some(k) => if k > |p| then LongestMatch(c, path, n) else Some(v)
            case None => Some(v)
  {
    var c' := c[p := v];
    var m := MatchLength(c, path, n);
    if m.Some? && m.value > |p| {
      var k := m.value;
      assert path[..k] != p;
      MatchIsDeepest(c', path, n, k);
    } else {
      forall j | |p| < j <= n
        ensures path[..j] !in c'
      {
        assert |path[..j]| != |p|;
      }
      MatchIsDeepest(c', path, n, |p|);
    }
  }

  /** The map without `q` and every prefix that extends it: what removing a subtree leaves. */
  function DropBelow<V>(c: map<seq<bool>, V>, q: seq<bool>): (d: map<seq<bool>, V>)
    ensures forall p :: p in d <==> p in c && !(q <= p)
    ensures forall p | p in d :: d[p] == c[p]
  {
    map p | p in c && !(q <= p) :: c[p]
  }

  /**
   * After the subtree at `q` is removed, a lookup under `q` falls back to the most specific
   * stored prefix strictly above `q`.
   */
  lemma {:induction false} DropFallsBack<V>(c: map<seq<bool>, V>, q: seq<bool>, path: seq<bool>, n: nat)
    requires 0 < |q| <= n <= |path| && q == path[..|q|]
    ensures LongestMatch(DropBelow(c, q), path, n) == LongestMatch(c, path, |q| - 1)
    decreases n
  {
    var d := DropBelow(c, q);
    assert q <= path[..n];
    if n == |q| {
      SameAlongPath(d, c, path, n - 1);
    } else {
      DropFallsBack(c, q, path, n - 1);
    }
  }

  /** Removing the subtree at `q` leaves every lookup that `q` does not cover unchanged. */
  lemma DropElsewhere<V>(c: map<seq<bool>, V>, q: seq<bool>, path: seq<bool>, n: nat)
    requires n <= |path|
    requires !(q <= path[..n])
    ensures LongestMatch(DropBelow(c, q), path, n) == LongestMatch(c, path, n)
  {
    forall j | 0 <= j <= n
      ensures !(q <= path[..j])
    {
      if q <= path[..j] {
        PrefixOfLonger(q, path, j, n);
      }
    }
    SameAlongPath(DropBelow(c, q), c, path, n);
  }

  /** Clearing only the value at `p`: its exact lookup falls back to the covering prefix. */
  lemma RemoveFallsBack<V>(c: map<seq<bool>, V>, p: seq<bool>, path: seq<bool>)
    requires 0 < |p| <= |path| && p == path[..|p|]
    ensures LongestMatch(c - {p}, path, |p|) == LongestMatch(c, path, |p| - 1)
  {
    SameAlongPath(c - {p}, c, path, |p| - 1);
  }

  /** Clearing only the value at `p` leaves every lookup that `p` does not cover unchanged. */
  lemma RemoveElsewhere<V>(c: map<seq<bool>, V>, p: seq<bool>, path: seq<bool>, n: nat)
    requires n <= |path|
    requires !(p <= path[..n])
    ensures LongestMatch(c - {p}, path, n) == LongestMatch(c, path, n)
  {
    forall j | 0 <= j <= n
      ensures path[..j] != p
    {
      if path[..j] == p {
        PrefixOfLonger(p, path, j, n);
      }
    }
    SameAlongPath(c - {p}, c, path, n);
  }

  /** Extending the lookup by one level: the new level wins when it holds a value. */
  lemma MatchDeeper<V>(c: map<seq<bool>, V>, path: seq<bool>, n: nat)
    requires n < |path|
    ensures LongestMatch(c, path, n + 1) ==
            if path[..n + 1] in c then Some(c[path[..n + 1]]) else LongestMatch(c, path, n)
  {
  }

  /** Levels `k + 1 .. n` that hold nothing do not change the lookup. */
  lemma {:induction false} NothingDeeper<V>(c: map<seq<bool>, V>, path: seq<bool>, k: nat, n: nat)
    requires k <= n <= |path|
    requires forall j | k < j <= n :: path[..j] !in c
    ensures LongestMatch(c, path, n) == LongestMatch(c, path, k)
    decreases n
  {
    if k < n {
      NothingDeeper(c, path, k, n - 1);
    }
  }

  /** The first `k + 1` bits of a path are its first `k` bits and then bit `k`. */
  lemma TakeOneMore(path: seq<bool>, k: nat)
    requires k < |path|
    ensures path[..k + 1] == path[..k] + [path[k]]
  {
  }
}
