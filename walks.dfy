/** What one level of each walk of the tree does to the arena and its ghost views. */
module Walks {
  import opened Wrappers
  import opened PrefixMap
  import opened Arena

  /**
   * One level of `find32`: the value seen at depth `d` (if any) is the deepest match so far, and
   * the child the path selects is the node one level down, if that is attached.
   */
  lemma FindLevel<V>(nodes: seq<Node<V>>, root: nat, at: map<seq<bool>, nat>, path: seq<bool>, d: nat, value: Option<V>)
    requires IsTrie(nodes, root, at) && |path| == 32 && d <= 32 && path[..d] in at
    requires value == if d == 0 then None else LongestMatch(Contents(nodes, at), path, d - 1)
    ensures var here := nodes[at[path[..d]]];
      (if here.value.Some? then here.value else value) == LongestMatch(Contents(nodes, at), path, d)
    ensures d < 32 ==> var child := Child(nodes[at[path[..d]]], path[d]);
      (child.Some? <==> path[..d + 1] in at) && (child.Some? ==> child.value == at[path[..d + 1]])
  {
    var c := Contents(nodes, at);
    if d == 0 {
      assert path[..0] == [];
    } else {
      MatchDeeper(c, path, d - 1);
    }
    if d < 32 {
      Step(nodes, root, at, path[..d], path[d]);
      assert path[..d + 1] == path[..d] + [path[d]];
    }
  }

  /** A walk that falls off the trie at depth `d` has seen every stored prefix it can reach. */
  lemma FallsOff<V>(nodes: seq<Node<V>>, root: nat, at: map<seq<bool>, nat>, path: seq<bool>, d: nat, n: nat)
    requires IsTrie(nodes, root, at) && 0 < d <= n <= |path| && path[..d] !in at
    ensures LongestMatch(Contents(nodes, at), path, n) == LongestMatch(Contents(nodes, at), path, d - 1)
  {
    forall j | d - 1 < j <= n
      ensures path[..j] !in Contents(nodes, at)
    {
      PrefixAttached(nodes, root, at, path, d, j);
    }
    NothingDeeper(Contents(nodes, at), path, d - 1, n);
  }

  /**
   * What a successful insert at `p` does to the attached positions: they become the old ones plus
   * every prefix of `p`, the old ones keep their nodes, and each new position got a node that was
   * on the free list or lies past the end of the old arena.
   */
  ghost predicate Grew(A0: map<seq<bool>, nat>, size0: nat, F0: seq<nat>, at: map<seq<bool>, nat>, p: seq<bool>) {
    && (forall q :: q in at <==> q in A0 || q <= p)
    && (forall q | q in A0 :: q in at && at[q] == A0[q])
    && (forall q | q in at && q !in A0 :: at[q] in F0 || at[q] >= size0)
  }

  /**
   * The state of `insert32`'s second loop at depth `d`: the trie is sound and still stores `C0`,
   * `node` sits at the first `d` bits of `path` and the next level is missing, every level hung
   * below depth `d0` is still empty, and what was attached and popped since the loop began is
   * accounted for by `Grew` and `FreeSuffix`.
   */
  ghost predicate Building<V>(nodes: seq<Node<V>>, root: nat, at: map<seq<bool>, nat>, free: Option<nat>, fl: seq<nat>,
                              A0: map<seq<bool>, nat>, size0: nat, F0: seq<nat>, C0: map<seq<bool>, V>,
                              path: seq<bool>, n: nat, d0: nat, d: nat, node: nat)
  {
    && IsTrie(nodes, root, at) && FreeChain(nodes, at, free, fl)
    && Contents(nodes, at) == C0
    && d0 <= d <= n <= |path| == 32
    && path[..d] in at && node == at[path[..d]]
    && (d < n ==> path[..d + 1] !in at)
    && (d0 < d ==> nodes[node].value == None)
    && Grew(A0, size0, F0, at, path[..d])
    && size0 <= |nodes| && FreeSuffix(F0, fl)
    && (|F0| - |fl|) + (|nodes| - size0) == d - d0 && (|nodes| == size0 || fl == [])
  }

  /**
   * One iteration of `insert32`'s second loop: pop a node (`newnode`, corrected), point it at its
   * parent and hang it in the child slot the path selects.
   */
  lemma BuildStep<V>(nodes: seq<Node<V>>, root: nat, at: map<seq<bool>, nat>, free: Option<nat>, fl: seq<nat>,
                     A0: map<seq<bool>, nat>, size0: nat, F0: seq<nat>, C0: map<seq<bool>, V>,
                     path: seq<bool>, n: nat, d0: nat, d: nat, node: nat,
                     nodes1: seq<Node<V>>, c: nat,
                     nodes2: seq<Node<V>>, at2: map<seq<bool>, nat>, free2: Option<nat>, fl2: seq<nat>)
    requires Building(nodes, root, at, free, fl, A0, size0, F0, C0, path, n, d0, d, node) && d < n
    requires free.Some? ==> c == free.value && nodes1 == nodes[c := Blank()] && free2 == nodes[c].right && fl2 == fl[1..]
    requires free.None? ==> c == |nodes| && nodes1 == nodes + [Blank()] && free2 == None && fl2 == fl
    requires c < |nodes1| && node < |nodes1|
    requires nodes2 == nodes1[c := nodes1[c].(parent := Some(node))][node := WithChild(nodes1[node], path[d], Some(c))]
    requires at2 == at[path[..d + 1] := c]
    ensures Building(nodes2, root, at2, free2, fl2, A0, size0, F0, C0, path, n, d0, d + 1, c)
  {
    var q, b := path[..d], path[d];
    TakeOneMore(path, d);
    NoChildren(nodes, root, at, q + [b]);
    if free.Some? {
      PopRecycled(nodes, root, at, free, fl);
    } else {
      PopFresh(nodes, root, at, fl);
    }
    PopSuffix(F0, fl, fl2, c, size0, |nodes|);
    Attach(nodes1, root, at, free2, fl2, q, b, c);
    GrowStep(A0, size0, F0, at, q, b, c);
    if d + 1 < n {
      StillMissing(nodes, root, at, path, d, c);
    }
  }

  /** Hanging a node at a missing level of the path leaves the level below it missing. */
  lemma StillMissing<V>(nodes: seq<Node<V>>, root: nat, at: map<seq<bool>, nat>, path: seq<bool>, d: nat, c: nat)
    requires IsTrie(nodes, root, at) && d + 2 <= |path| && path[..d + 1] !in at
    ensures path[..d + 2] !in at[path[..d + 1] := c]
  {
    PrefixAttached(nodes, root, at, path, d + 1, d + 2);
    assert |path[..d + 2]| != |path[..d + 1]|;
  }

  /**
   * Where `insert32`'s second loop begins: the walk stopped at depth `d` because the next level is
   * missing, so nothing is built yet and the node of the full prefix is not attached.
   */
  lemma BuildStart<V>(nodes: seq<Node<V>>, root: nat, at: map<seq<bool>, nat>, free: Option<nat>, fl: seq<nat>,
                      path: seq<bool>, n: nat, d: nat)
    requires IsTrie(nodes, root, at) && FreeChain(nodes, at, free, fl)
    requires d < n <= |path| == 32 && path[..d] in at && path[..d + 1] !in at
    ensures Building(nodes, root, at, free, fl, at, |nodes|, fl, Contents(nodes, at), path, n, d, d, at[path[..d]])
  {
    GrewNothing(nodes, root, at, |nodes|, fl, path[..d]);
    assert fl[|fl| - |fl|..] == fl;
  }

  /**
   * Where `insert32`'s second loop ends: the node at the full prefix `p`, which was not attached
   * before, is attached now and still empty, and the trie stores what it stored before.
   */
  ghost predicate Grown<V>(nodes: seq<Node<V>>, root: nat, at: map<seq<bool>, nat>, free: Option<nat>, fl: seq<nat>,
                           A0: map<seq<bool>, nat>, size0: nat, F0: seq<nat>, C0: map<seq<bool>, V>,
                           p: seq<bool>, leaf: nat)
  {
    && IsTrie(nodes, root, at) && FreeChain(nodes, at, free, fl)
    && Contents(nodes, at) == C0
    && p !in A0 && p in at && leaf == at[p] && nodes[leaf].value.None?
    && Grew(A0, size0, F0, at, p)
  }

  /** The building loop has hung a node at every level of the prefix. */
  lemma BuildDone<V>(nodes: seq<Node<V>>, root: nat, at: map<seq<bool>, nat>, free: Option<nat>, fl: seq<nat>,
                     A0: map<seq<bool>, nat>, size0: nat, F0: seq<nat>, C0: map<seq<bool>, V>,
                     path: seq<bool>, n: nat, d0: nat, leaf: nat, N0: seq<Node<V>>, p: seq<bool>)
    requires Building(nodes, root, at, free, fl, A0, size0, F0, C0, path, n, d0, n, leaf) && d0 < n
    requires IsTrie(N0, root, A0) && path[..d0] in A0 && path[..d0 + 1] !in A0 && p == path[..n]
    ensures Grown(nodes, root, at, free, fl, A0, size0, F0, C0, p, leaf)
    ensures Took(A0, F0, size0, fl, |nodes|, p)
  {
    MissingLevels(N0, root, A0, path, d0, n);
    assert path[..n][..n] == path[..n];
  }

  /**
   * A walk that stops at depth `d` because the next level is missing: of the first `n` levels of
   * the path, exactly those down to depth `d` are attached.
   */
  lemma MissingLevels<V>(nodes: seq<Node<V>>, root: nat, at: map<seq<bool>, nat>, path: seq<bool>, d: nat, n: nat)
    requires IsTrie(nodes, root, at) && d < n <= |path| && path[..d] in at && path[..d + 1] !in at
    ensures forall k | 0 <= k <= n :: path[..n][..k] in at <==> k <= d
  {
    forall k | 0 <= k <= n
      ensures path[..n][..k] in at <==> k <= d
    {
      assert path[..n][..k] == path[..k];
      if k <= d {
        AncestorsAttached(nodes, root, at, path[..d], k);
        assert path[..d][..k] == path[..k];
      } else {
        PrefixAttached(nodes, root, at, path, d + 1, k);
      }
    }
  }

  /**
   * What a successful insert at `p` took for its new nodes, given the free list `F0` and the arena
   * size `size0` before it: the free list was popped from its head, the arena grew only once the
   * free list was empty, and one node was taken per level of `p` that was not attached before.
   */
  ghost predicate Took(A0: map<seq<bool>, nat>, F0: seq<nat>, size0: nat, fl: seq<nat>, size: nat, p: seq<bool>) {
    && FreeSuffix(F0, fl) && size0 <= size && (size == size0 || fl == [])
    && forall k | 0 <= k <= |p| :: p[..k] in A0 <==> k + (|F0| - |fl|) + (size - size0) <= |p|
  }

  /** The free list `fl` is what is left of `F0` after popping from its head. */
  ghost predicate FreeSuffix(F0: seq<nat>, fl: seq<nat>) {
    |fl| <= |F0| && fl == F0[|F0| - |fl|..]
  }

  /** Every prefix of an attached position is attached. */
  lemma AllPrefixesAttached<V>(nodes: seq<Node<V>>, root: nat, at: map<seq<bool>, nat>, p: seq<bool>)
    requires IsTrie(nodes, root, at) && p in at
    ensures forall q | q <= p :: q in at
  {
    forall q | q <= p
      ensures q in at
    {
      AncestorsAttached(nodes, root, at, p, |q|);
      assert p[..|q|] == q;
    }
  }

  /** An insert that finds its node already attached adds no position and takes no node. */
  lemma GrewNothing<V>(nodes: seq<Node<V>>, root: nat, at: map<seq<bool>, nat>, size: nat, fl: seq<nat>, p: seq<bool>)
    requires IsTrie(nodes, root, at) && p in at
    ensures Grew(at, size, fl, at, p) && Took(at, fl, size, fl, size, p)
  {
    AllPrefixesAttached(nodes, root, at, p);
    forall k | 0 <= k <= |p|
      ensures p[..k] in at
    {
      assert p[..k] <= p;
    }
    assert fl[|fl| - |fl|..] == fl;
  }

  /** Hanging node `c` at `q + [b]` extends what the insert has built by one level. */
  lemma GrowStep(A0: map<seq<bool>, nat>, size0: nat, F0: seq<nat>, at: map<seq<bool>, nat>, q: seq<bool>, b: bool, c: nat)
    requires Grew(A0, size0, F0, at, q) && q + [b] !in at && (c in F0 || c >= size0)
    ensures Grew(A0, size0, F0, at[q + [b] := c], q + [b])
  {
    forall r
      ensures r in at[q + [b] := c] <==> r in A0 || r <= q + [b]
    {
      PrefixOfAppend(r, q, b);
    }
  }

  /** `newnode` takes the head of the free list, or a node past the end of the arena when it is empty. */
  lemma PopSuffix(F0: seq<nat>, fl: seq<nat>, fl': seq<nat>, c: nat, size0: nat, size: nat)
    requires FreeSuffix(F0, fl) && size0 <= size
    requires fl != [] ==> c == fl[0] && fl' == fl[1..]
    requires fl == [] ==> c == size && fl' == fl
    ensures FreeSuffix(F0, fl') && (c in F0 || c >= size0)
  {
    if fl != [] {
      assert c == F0[|F0| - |fl|];
    }
  }

  /**
   * The state of `delete32`'s pruning loop about to unlink the node at `r`, on the way up from the
   * deleted position `p`: the trie is sound, what it stores below `r` aside, it stores what `C0`
   * stores outside `p`'s subtree; nothing is detached yet (`r == p`), or exactly the subtree below
   * `r`'s child on the path; and one node per detached level was pushed on the free list `F0`.
   */
  ghost predicate Pruning<V>(nodes: seq<Node<V>>, root: nat, at: map<seq<bool>, nat>, free: Option<nat>, fl: seq<nat>,
                             A0: map<seq<bool>, nat>, F0: seq<nat>, C0: map<seq<bool>, V>,
                             p: seq<bool>, r: seq<bool>, node: nat)
  {
    && IsTrie(nodes, root, at) && FreeChain(nodes, at, free, fl)
    && r in at && r != [] && node == at[r] && r <= p
    && DropBelow(Contents(nodes, at), r) == DropBelow(C0, p)
    && at == (if |r| == |p| then A0 else DropBelow(A0, p[..|r| + 1]))
    && FreeSuffix(fl, F0) && |fl| == |F0| + |p| - |r|
    && Emptied(A0, C0, p, |r|) && Pushed(fl, A0, p, |r| + 1)
  }

  /**
   * The state of the pruning loop just after unlinking the node at `r`: the subtree at `r` is all
   * that is detached, the trie stores `C0` without `p`'s subtree, and the parent position is still
   * attached.
   */
  ghost predicate Unlinked<V>(nodes: seq<Node<V>>, root: nat, at: map<seq<bool>, nat>, free: Option<nat>, fl: seq<nat>,
                              A0: map<seq<bool>, nat>, F0: seq<nat>, C0: map<seq<bool>, V>,
                              p: seq<bool>, r: seq<bool>, parent: nat)
  {
    && IsTrie(nodes, root, at) && FreeChain(nodes, at, free, fl)
    && r != [] && r <= p && Up(r) in at && parent == at[Up(r)]
    && Contents(nodes, at) == DropBelow(C0, p)
    && at == DropBelow(A0, r)
    && FreeSuffix(fl, F0) && |fl| == |F0| + |p| - |r| + 1
    && Emptied(A0, C0, p, |r|) && Pushed(fl, A0, p, |r|)
  }

  /**
   * Every strict ancestor of `p` at depth `k` or deeper was, before the delete, a node without a
   * value and without a child off the path to `p`: what the pruning loop may unlink above `p`.
   */
  ghost predicate Emptied<V>(A0: map<seq<bool>, nat>, C0: map<seq<bool>, V>, p: seq<bool>, k: nat) {
    forall j | k <= j < |p| :: p[..j] !in C0 && p[..j] + [!p[j]] !in A0
  }

  /** The free list begins with the nodes `A0` had at `p[..k]`, `p[..k + 1]`, ..., `p`, in that order. */
  ghost predicate Pushed(fl: seq<nat>, A0: map<seq<bool>, nat>, p: seq<bool>, k: nat) {
    && k <= |p| + 1 && |p| + 1 - k <= |fl|
    && forall j | k <= j <= |p| :: p[..j] in A0 && fl[j - k] == A0[p[..j]]
  }

  /**
   * Where the pruning loop of `delete32` stops when it deletes `p`: `top` is the last position it
   * unlinks. Every ancestor it unlinks above `p` was empty off the path, and the parent of `top`
   * is the root or kept a value or a child off the path.
   */
  ghost predicate PruneTop<V>(A0: map<seq<bool>, nat>, C0: map<seq<bool>, V>, p: seq<bool>, top: seq<bool>) {
    && top != [] && top <= p
    && Emptied(A0, C0, p, |top|)
    && (Up(top) == [] || Up(top) in C0 || Up(top) + [!p[|top| - 1]] in A0)
  }

  /**
   * The stopping rule names one position: no two positions meet `PruneTop`, since the parent of
   * the deeper one would be an emptied ancestor of the shallower one.
   */
  lemma PruneTopUnique<V>(A0: map<seq<bool>, nat>, C0: map<seq<bool>, V>, p: seq<bool>, t1: seq<bool>, t2: seq<bool>)
    requires PruneTop(A0, C0, p, t1) && PruneTop(A0, C0, p, t2)
    ensures t1 == t2
  {
    if |t1| < |t2| {
      NotDeeper(A0, C0, p, t1, t2);
    } else if |t2| < |t1| {
      NotDeeper(A0, C0, p, t2, t1);
    } else {
      assert t1 == p[..|t1|] == t2;
    }
  }

  /** Below a position that meets `PruneTop`, no deeper position on the path to `p` meets the stopping rule. */
  lemma NotDeeper<V>(A0: map<seq<bool>, nat>, C0: map<seq<bool>, V>, p: seq<bool>, t1: seq<bool>, t2: seq<bool>)
    requires PruneTop(A0, C0, p, t1) && t2 <= p && |t1| < |t2|
    ensures !(Up(t2) == [] || Up(t2) in C0 || Up(t2) + [!p[|t2| - 1]] in A0)
  {
    assert Up(t2) == p[..|t2| - 1];
  }

  /** Pushing the node at `p[..k - 1]` on the free list extends what `Pushed` accounts for by one level. */
  lemma PushOne(fl: seq<nat>, A0: map<seq<bool>, nat>, p: seq<bool>, k: nat, c: nat)
    requires Pushed(fl, A0, p, k) && 0 < k && p[..k - 1] in A0 && c == A0[p[..k - 1]]
    ensures Pushed([c] + fl, A0, p, k - 1)
  {
    var fl2 := [c] + fl;
    forall j | k - 1 <= j <= |p|
      ensures p[..j] in A0 && fl2[j - (k - 1)] == A0[p[..j]]
    {
      if j >= k {
        assert fl2[j - (k - 1)] == fl[j - k];
      }
    }
  }

  /**
   * Just after the node at `r` is unlinked, its parent keeps a child or a value exactly when the
   * parent position held a value before the delete or had a child off the path to `p`.
   */
  lemma ParentKeeps<V>(nodes: seq<Node<V>>, root: nat, at: map<seq<bool>, nat>, free: Option<nat>, fl: seq<nat>,
                       A0: map<seq<bool>, nat>, F0: seq<nat>, C0: map<seq<bool>, V>, p: seq<bool>, r: seq<bool>, parent: nat)
    requires Unlinked(nodes, root, at, free, fl, A0, F0, C0, p, r, parent)
    ensures var up := nodes[parent];
      (up.left.Some? || up.right.Some? || up.value.Some?) <==> (Up(r) in C0 || Up(r) + [!p[|r| - 1]] in A0)
  {
    var q, b := Up(r), r[|r| - 1];
    assert q + [b] == r && p[|r| - 1] == b;
    Step(nodes, root, at, q, b);
    Step(nodes, root, at, q, !b);
    assert (q + [!b])[|r| - 1] != r[|r| - 1];
    assert q in Contents(nodes, at) <==> nodes[parent].value.Some?;
    assert |q| < |p|;
  }

  /** Pushing the node at `r` on the free list accounts for one more detached level. */
  lemma PushStep(fl: seq<nat>, F0: seq<nat>, A0: map<seq<bool>, nat>, p: seq<bool>, r: seq<bool>, node: nat)
    requires FreeSuffix(fl, F0) && |fl| == |F0| + |p| - |r| && Pushed(fl, A0, p, |r| + 1)
    requires r != [] && r <= p && r in A0 && node == A0[r]
    ensures FreeSuffix([node] + fl, F0) && |[node] + fl| == |F0| + |p| - |r| + 1 && Pushed([node] + fl, A0, p, |r|)
  {
    var fl2 := [node] + fl;
    assert fl2[|fl2| - |F0|..] == fl[|fl| - |F0|..];
    assert p[..|r|] == r;
    PushOne(fl, A0, p, |r| + 1, node);
  }

  /** Where the pruning loop begins: the node at `p` itself is next. */
  lemma PruneStart<V>(nodes: seq<Node<V>>, root: nat, at: map<seq<bool>, nat>, free: Option<nat>, fl: seq<nat>, p: seq<bool>)
    requires IsTrie(nodes, root, at) && FreeChain(nodes, at, free, fl) && p in at && p != []
    ensures Pruning(nodes, root, at, free, fl, at, fl, Contents(nodes, at), p, p, at[p])
  {
    assert fl[|fl| - |fl|..] == fl;
  }

  /**
   * One iteration of the pruning loop: unlinking the node at `r` from its parent's slot and pushing
   * it on the free list detaches the subtree at `r` and keeps what is stored outside `p`'s subtree.
   */
  lemma PruneStep<V>(nodes: seq<Node<V>>, root: nat, at: map<seq<bool>, nat>, free: Option<nat>, fl: seq<nat>,
                     A0: map<seq<bool>, nat>, F0: seq<nat>, C0: map<seq<bool>, V>, p: seq<bool>, r: seq<bool>, node: nat)
    requires Pruning(nodes, root, at, free, fl, A0, F0, C0, p, r, node)
    ensures Up(r) in at && at[Up(r)] < |nodes| && at[Up(r)] != node
    ensures nodes[node].parent == Some(at[Up(r)])
    ensures var up := nodes[at[Up(r)]];
      var nodes1 := nodes[at[Up(r)] := if up.right == Some(node) then up.(right := None) else up.(left := None)];
      Unlinked(nodes1[node := nodes1[node].(right := free)], root, DropBelow(at, r), Some(node), [node] + fl, A0, F0, C0, p, r, at[Up(r)])
  {
    assert ParentLinked(nodes, at, r);
    assert Apart(at, Up(r), r);
    ParentSlot(nodes, root, at, r);
    Detach(nodes, root, at, free, fl, r);
    if |r| < |p| {
      var c := p[..|r| + 1];
      assert Up(c) == r;
      PrunedTwice(A0, c);
    }
    PushStep(fl, F0, A0, p, r, node);
    var up := nodes[at[Up(r)]];
    assert (if up.right == Some(node) then up.(right := None) else up.(left := None)) == WithChild(up, r[|r| - 1], None);
  }

  /**
   * Going on up: after unlinking the node at `r`, a parent that is not the root and has no child
   * and no value is unlinked next, and dropping it loses nothing more.
   */
  lemma PruneNext<V>(nodes: seq<Node<V>>, root: nat, at: map<seq<bool>, nat>, free: Option<nat>, fl: seq<nat>,
                     A0: map<seq<bool>, nat>, F0: seq<nat>, C0: map<seq<bool>, V>, p: seq<bool>, r: seq<bool>, parent: nat)
    requires Unlinked(nodes, root, at, free, fl, A0, F0, C0, p, r, parent)
    requires var here := nodes[parent]; here.left.None? && here.right.None? && here.value.None? && here.parent.Some?
    ensures Pruning(nodes, root, at, free, fl, A0, F0, C0, p, Up(r), parent)
  {
    OnlyRootOrphan(nodes, root, at, Up(r));
    LeafDropsNothing(nodes, root, at, Up(r));
    assert p[..|Up(r)| + 1] == r;
    ParentKeeps(nodes, root, at, free, fl, A0, F0, C0, p, r, parent);
    assert p[..|r| - 1] == Up(r);
  }
}
