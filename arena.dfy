/**
 * The trie's nodes as an arena: records addressed by index, with optional indices for the
 * `left`, `right` and `parent` pointers and an optional payload. The ghost map `at` names every
 * node attached to the root by its bit path; the ghost sequence `fl` lists the free list.
 */
module Arena {
  import opened Wrappers
  import opened PrefixMap

  /** `node`: two child links (`false` is left, `true` is right), a parent link and a value. */
  datatype Node<V> = Node(left: Option<nat>, right: Option<nat>, parent: Option<nat>, value: Option<V>)

  /** A node with every field nil, as `new(node)` yields it. */
  function Blank<V>(): Node<V> {
    Node(None, None, None, None)
  }

  function Child<V>(n: Node<V>, b: bool): Option<nat> {
    if b then n.right else n.left
  }

  function WithChild<V>(n: Node<V>, b: bool, c: Option<nat>): (m: Node<V>)
    ensures Child(m, b) == c && Child(m, !b) == Child(n, !b)
    ensures m.parent == n.parent && m.value == n.value
  {
    if b then n.(right := c) else n.(left := c)
  }

  /** Both child slots are taken: `delete32` then only clears the value. */
  predicate Forks<V>(n: Node<V>) {
    n.left.Some? && n.right.Some?
  }

  /** The path of the parent position. */
  function Up(p: seq<bool>): seq<bool>
    requires |p| > 0
  {
    p[..|p| - 1]
  }

  /** The child slot `b` of the node at `p` points exactly at the node at `p + [b]`, if there is one. */
  ghost predicate Linked<V>(nodes: seq<Node<V>>, at: map<seq<bool>, nat>, p: seq<bool>, b: bool) {
    p in at && at[p] < |nodes| &&
    (Child(nodes[at[p]], b).Some? <==> p + [b] in at) &&
    (p + [b] in at ==> Child(nodes[at[p]], b) == Some(at[p + [b]]))
  }

  /** The node at `p`, unless it is the root, has the node one level up as its parent. */
  ghost predicate ParentLinked<V>(nodes: seq<Node<V>>, at: map<seq<bool>, nat>, p: seq<bool>) {
    p in at && at[p] < |nodes| &&
    (p != [] ==> Up(p) in at && nodes[at[p]].parent == Some(at[Up(p)]))
  }

  /**
   * The attached nodes form a binary trie rooted at `root`: every attached node sits at one path
   * of at most 32 bits, child links and attached positions agree, every non-root node's parent link
   * points at the node one level up, and the root has no parent.
   * (The link conditions are only instantiated where a proof names them.)
   */
  ghost predicate IsTrie<V>(nodes: seq<Node<V>>, root: nat, at: map<seq<bool>, nat>) {
    && [] in at && at[[]] == root && root < |nodes|
    && nodes[root].parent == None
    && (forall p | p in at :: at[p] < |nodes| && |p| <= 32)
    && (forall p, b {:trigger Linked(nodes, at, p, b)} | p in at :: Linked(nodes, at, p, b))
    && (forall p {:trigger ParentLinked(nodes, at, p)} | p in at :: ParentLinked(nodes, at, p))
    && (forall p, q {:trigger Apart(at, p, q)} :: Apart(at, p, q))
  }

  /** Two attached positions never share a node. */
  ghost predicate Apart(at: map<seq<bool>, nat>, p: seq<bool>, q: seq<bool>) {
    p in at && q in at && at[p] == at[q] ==> p == q
  }

  /**
   * `free` heads the chain `fl`, threaded through `right`; the chain has no repeats and no node of
   * it is attached.
   */
  ghost predicate FreeChain<V>(nodes: seq<Node<V>>, at: map<seq<bool>, nat>, free: Option<nat>, fl: seq<nat>) {
    && free == (if fl == [] then None else Some(fl[0]))
    && (forall i | 0 <= i < |fl| :: fl[i] < |nodes|)
    && (forall i {:trigger ChainLink(nodes, fl, i)} | 0 <= i < |fl| :: ChainLink(nodes, fl, i))
    && (forall i, j | 0 <= i < j < |fl| :: fl[i] != fl[j])
    && (forall p {:trigger Unlisted(at, fl, p)} :: Unlisted(at, fl, p))
  }

  /** An attached position's node is not on the free list. */
  ghost predicate Unlisted(at: map<seq<bool>, nat>, fl: seq<nat>, p: seq<bool>) {
    p in at ==> at[p] !in fl
  }

  /** The `i`th node of the chain `fl` links to the next one through `right`, the last one to nil. */
  ghost predicate ChainLink<V>(nodes: seq<Node<V>>, fl: seq<nat>, i: nat)
    requires i < |fl|
  {
    fl[i] < |nodes| && nodes[fl[i]].right == (if i + 1 < |fl| then Some(fl[i + 1]) else None)
  }

  /** What the trie stores: each attached path whose node holds a value, with that value. */
  ghost function Contents<V>(nodes: seq<Node<V>>, at: map<seq<bool>, nat>): map<seq<bool>, V>
    requires forall p | p in at :: at[p] < |nodes|
  {
    map p | p in at && nodes[at[p]].value.Some? :: nodes[at[p]].value.value
  }

  /** A lone blank root at index 0 is a sound trie with an empty free list and nothing stored. */
  lemma LoneRoot<V>()
    ensures IsTrie([Blank<V>()], 0, map[[] := 0]) && FreeChain([Blank<V>()], map[[] := 0], None, [])
    ensures Contents([Blank<V>()], map[[] := 0]) == map[]
  {
    var nodes, at := [Blank<V>()], map[[] := 0];
    forall p, b | p in at
      ensures Linked(nodes, at, p, b)
    {
      assert p + [b] !in at;
    }
    assert forall p :: p in at ==> p == [];
  }

  /** An attached node's ancestors are attached. */
  lemma {:induction false} AncestorsAttached<V>(nodes: seq<Node<V>>, root: nat, at: map<seq<bool>, nat>, p: seq<bool>, k: nat)
    requires IsTrie(nodes, root, at) && p in at && k <= |p|
    ensures p[..k] in at
    decreases |p| - k
  {
    if k < |p| {
      assert ParentLinked(nodes, at, p);
      AncestorsAttached(nodes, root, at, Up(p), k);
      assert Up(p)[..k] == p[..k];
    } else {
      assert p[..k] == p;
    }
  }

  /** A walk along `path` that reaches depth `j` passed through depth `d <= j`. */
  lemma PrefixAttached<V>(nodes: seq<Node<V>>, root: nat, at: map<seq<bool>, nat>, path: seq<bool>, d: nat, j: nat)
    requires IsTrie(nodes, root, at) && d <= j <= |path|
    ensures path[..j] in at ==> path[..d] in at
  {
    if path[..j] in at {
      AncestorsAttached(nodes, root, at, path[..j], d);
      assert path[..j][..d] == path[..d];
    }
  }

  /** One step of a walk: following child slot `b` of the node at `p` reaches the node at `p + [b]`. */
  lemma Step<V>(nodes: seq<Node<V>>, root: nat, at: map<seq<bool>, nat>, p: seq<bool>, b: bool)
    requires IsTrie(nodes, root, at) && p in at
    ensures Child(nodes[at[p]], b).Some? <==> p + [b] in at
    ensures p + [b] in at ==> Child(nodes[at[p]], b).value == at[p + [b]]
  {
    assert Linked(nodes, at, p, b);
  }

  /** A node is its parent's child in the slot its last path bit names, and in no other slot. */
  lemma ParentSlot<V>(nodes: seq<Node<V>>, root: nat, at: map<seq<bool>, nat>, q: seq<bool>)
    requires IsTrie(nodes, root, at) && q in at && q != []
    ensures Up(q) in at
    ensures Child(nodes[at[Up(q)]], q[|q| - 1]) == Some(at[q])
    ensures Child(nodes[at[Up(q)]], !q[|q| - 1]) != Some(at[q])
  {
    var b := q[|q| - 1];
    assert ParentLinked(nodes, at, q);
    assert Up(q) + [b] == q;
    assert Linked(nodes, at, Up(q), b);
    assert Linked(nodes, at, Up(q), !b);
    if Up(q) + [!b] in at {
      assert (Up(q) + [!b])[|q| - 1] != q[|q| - 1];
      assert Apart(at, q, Up(q) + [!b]);
    }
  }

  /** Only the root has no parent link. */
  lemma OnlyRootOrphan<V>(nodes: seq<Node<V>>, root: nat, at: map<seq<bool>, nat>, q: seq<bool>)
    requires IsTrie(nodes, root, at) && q in at
    ensures nodes[at[q]].parent.None? <==> q == []
  {
    assert ParentLinked(nodes, at, q);
  }

  /** The links of attached nodes alone decide whether the arena is a trie. */
  lemma SameLinks<V>(nodes: seq<Node<V>>, nodes': seq<Node<V>>, root: nat, at: map<seq<bool>, nat>)
    requires IsTrie(nodes, root, at) && |nodes| <= |nodes'|
    requires forall q | q in at :: nodes'[at[q]].left == nodes[at[q]].left && nodes'[at[q]].right == nodes[at[q]].right
    requires forall q | q in at :: nodes'[at[q]].parent == nodes[at[q]].parent
    ensures IsTrie(nodes', root, at)
  {
    forall q, b | q in at
      ensures Linked(nodes', at, q, b)
    {
      assert Linked(nodes, at, q, b);
    }
    forall q | q in at
      ensures ParentLinked(nodes', at, q)
    {
      assert ParentLinked(nodes, at, q);
    }
  }

  /** Changing only nodes that are not attached keeps the trie and what it stores. */
  lemma Untouched<V>(nodes: seq<Node<V>>, nodes': seq<Node<V>>, root: nat, at: map<seq<bool>, nat>)
    requires IsTrie(nodes, root, at) && |nodes| <= |nodes'|
    requires forall q | q in at :: nodes'[at[q]] == nodes[at[q]]
    ensures IsTrie(nodes', root, at)
    ensures Contents(nodes', at) == Contents(nodes, at)
  {
    SameLinks(nodes, nodes', root, at);
  }

  /** Removing the head of the free chain leaves a chain headed by the old head's `right`. */
  lemma ChainTail<V>(nodes: seq<Node<V>>, at: map<seq<bool>, nat>, free: Option<nat>, fl: seq<nat>, x: Node<V>)
    requires FreeChain(nodes, at, free, fl) && fl != []
    ensures FreeChain(nodes[fl[0] := x], at, nodes[fl[0]].right, fl[1..])
    ensures fl[0] !in fl[1..]
  {
    var nodes' := nodes[fl[0] := x];
    var rest := fl[1..];
    forall i | 0 <= i < |rest|
      ensures rest[i] != fl[0]
        ensures ChainLink(nodes', rest, i)
    {
      assert ChainLink(nodes, fl, i + 1);
      assert fl[0] != fl[i + 1];
      if i + 1 < |rest| {
        assert rest[i + 1] == fl[i + 2];
      }
    }
    assert ChainLink(nodes, fl, 0);
    forall p
      ensures Unlisted(at, rest, p)
    {
      assert Unlisted(at, fl, p);
    }
  }

  /** Popping the head of the free list and blanking it: the corrected `newnode` on a non-empty list. */
  lemma PopRecycled<V>(nodes: seq<Node<V>>, root: nat, at: map<seq<bool>, nat>, free: Option<nat>, fl: seq<nat>)
    requires IsTrie(nodes, root, at) && FreeChain(nodes, at, free, fl) && free.Some?
    ensures fl != [] && free.value == fl[0] && free.value < |nodes|
    ensures var p := free.value; var nodes' := nodes[p := Blank()];
      && IsTrie(nodes', root, at)
      && FreeChain(nodes', at, nodes[p].right, fl[1..])
      && Contents(nodes', at) == Contents(nodes, at)
      && (forall q | q in at :: at[q] != p)
      && p !in fl[1..]
  {
    forall q | q in at
      ensures at[q] != fl[0]
    {
      assert Unlisted(at, fl, q);
    }
    Untouched(nodes, nodes[fl[0] := Blank()], root, at);
    ChainTail(nodes, at, free, fl, Blank());
  }

  /** Allocating a blank node past the end: the corrected `newnode` on an empty list. */
  lemma PopFresh<V>(nodes: seq<Node<V>>, root: nat, at: map<seq<bool>, nat>, fl: seq<nat>)
    requires IsTrie(nodes, root, at) && FreeChain(nodes, at, None, fl)
    ensures var nodes' := nodes + [Blank()];
      && IsTrie(nodes', root, at)
      && FreeChain(nodes', at, None, fl)
      && Contents(nodes', at) == Contents(nodes, at)
      && (forall q | q in at :: at[q] != |nodes|)
      && |nodes| !in fl
  {
    Untouched(nodes, nodes + [Blank()], root, at);
  }

  /** Writing `v` into the payload slot of the node at `q`. */
  lemma SetValue<V>(nodes: seq<Node<V>>, root: nat, at: map<seq<bool>, nat>, free: Option<nat>, fl: seq<nat>,
                    q: seq<bool>, v: Option<V>)
    requires IsTrie(nodes, root, at) && FreeChain(nodes, at, free, fl) && q in at
    ensures var nodes' := nodes[at[q] := nodes[at[q]].(value := v)];
      && IsTrie(nodes', root, at)
      && FreeChain(nodes', at, free, fl)
      && Contents(nodes', at) == (if v.Some? then Contents(nodes, at)[q := v.value] else Contents(nodes, at) - {q})
      && (v.None? && nodes[at[q]].value.None? ==> Contents(nodes', at) == Contents(nodes, at))
  {
    var n := at[q];
    var nodes' := nodes[n := nodes[n].(value := v)];
    SameLinks(nodes, nodes', root, at);
    NewValue(nodes, nodes', at, q, v);
    forall i | 0 <= i < |fl|
      ensures ChainLink(nodes', fl, i)
    {
      assert ChainLink(nodes, fl, i);
    }
  }

  lemma NewValue<V>(nodes: seq<Node<V>>, nodes': seq<Node<V>>, at: map<seq<bool>, nat>, q: seq<bool>, v: Option<V>)
    requires forall p | p in at :: at[p] < |nodes|
    requires forall p, r {:trigger Apart(at, p, r)} :: Apart(at, p, r)
    requires q in at && nodes' == nodes[at[q] := nodes[at[q]].(value := v)]
    ensures Contents(nodes', at) == if v.Some? then Contents(nodes, at)[q := v.value] else Contents(nodes, at) - {q}
    ensures v.None? && nodes[at[q]].value.None? ==> Contents(nodes', at) == Contents(nodes, at)
  {
    var c, c' := Contents(nodes, at), Contents(nodes', at);
    forall p | p in at && p != q
      ensures nodes'[at[p]] == nodes[at[p]]
    {
      assert Apart(at, p, q);
    }
    if v.Some? {
      assert c' == c[q := v.value];
    } else {
      assert c' == c - {q};
      if nodes[at[q]].value.None? {
        assert c - {q} == c;
      }
    }
  }

  /**
   * Hanging the blank, unattached, non-free node `c` under the node at `q` in slot `b`, as the
   * building loop of `insert32` does: `c.parent` is set first, then the parent's child slot.
   */
  lemma Attach<V>(nodes: seq<Node<V>>, root: nat, at: map<seq<bool>, nat>, free: Option<nat>, fl: seq<nat>,
                  q: seq<bool>, b: bool, c: nat)
    requires IsTrie(nodes, root, at) && FreeChain(nodes, at, free, fl)
    requires q in at && |q| < 32 && q + [b] !in at
    requires c < |nodes| && nodes[c] == Blank() && c !in fl
    requires forall p | p in at :: at[p] != c
    ensures var nodes2 := nodes[c := nodes[c].(parent := Some(at[q]))][at[q] := WithChild(nodes[at[q]], b, Some(c))];
      var at' := at[q + [b] := c];
      && IsTrie(nodes2, root, at')
      && FreeChain(nodes2, at', free, fl)
      && Contents(nodes2, at') == Contents(nodes, at)
  {
    var P := at[q];
    var nodes2 := nodes[c := nodes[c].(parent := Some(P))][P := WithChild(nodes[P], b, Some(c))];
    var at' := at[q + [b] := c];
    assert Unlisted(at, fl, q);
    AttachLinks(nodes, root, at, q, b, c, nodes2, at');
    AttachParents(nodes, root, at, q, b, c, nodes2, at');
    AttachChain(nodes, at, free, fl, nodes2, at', q + [b], c);
    AttachContents(nodes, at, q + [b], c, nodes2, at');
    assert IsTrie(nodes2, root, at');
  }

  lemma AttachParents<V>(nodes: seq<Node<V>>, root: nat, at: map<seq<bool>, nat>, q: seq<bool>, b: bool, c: nat,
                         nodes2: seq<Node<V>>, at': map<seq<bool>, nat>)
    requires IsTrie(nodes, root, at)
    requires q in at && |q| < 32 && q + [b] !in at && c < |nodes| && nodes[c] == Blank()
    requires forall p | p in at :: at[p] != c
    requires nodes2 == nodes[c := nodes[c].(parent := Some(at[q]))][at[q] := WithChild(nodes[at[q]], b, Some(c))]
    requires at' == at[q + [b] := c]
    ensures forall p | p in at' :: ParentLinked(nodes2, at', p)
    ensures forall p | p in at' :: at'[p] < |nodes2| && |p| <= 32
    ensures forall p, r {:trigger Apart(at', p, r)} :: Apart(at', p, r)
    ensures [] in at' && at'[[]] == root && root < |nodes2| && nodes2[root].parent == None
  {
    forall p, r
      ensures Apart(at', p, r)
    {
      assert Apart(at, p, r);
    }
    forall p | p in at'
      ensures ParentLinked(nodes2, at', p)
    {
      if p == q + [b] {
        assert Up(p) == q;
      } else {
        assert ParentLinked(nodes, at, p);
      }
    }
  }

  lemma AttachContents<V>(nodes: seq<Node<V>>, at: map<seq<bool>, nat>, r: seq<bool>, c: nat,
                          nodes2: seq<Node<V>>, at': map<seq<bool>, nat>)
    requires forall p | p in at :: at[p] < |nodes| && at[p] != c
    requires r !in at && c < |nodes| && at' == at[r := c] && |nodes2| == |nodes|
    requires nodes2[c].value == None
    requires forall p | p in at :: nodes2[at[p]].value == nodes[at[p]].value
    ensures Contents(nodes2, at') == Contents(nodes, at)
  {
    var c0, c2 := Contents(nodes, at), Contents(nodes2, at');
    assert c2 == c0;
  }

  lemma AttachLinks<V>(nodes: seq<Node<V>>, root: nat, at: map<seq<bool>, nat>, q: seq<bool>, b: bool, c: nat,
                       nodes2: seq<Node<V>>, at': map<seq<bool>, nat>)
    requires IsTrie(nodes, root, at)
    requires q in at && |q| < 32 && q + [b] !in at && c < |nodes| && nodes[c] == Blank()
    requires forall p | p in at :: at[p] != c
    requires nodes2 == nodes[c := nodes[c].(parent := Some(at[q]))][at[q] := WithChild(nodes[at[q]], b, Some(c))]
    requires at' == at[q + [b] := c]
    ensures forall p, x | p in at' :: Linked(nodes2, at', p, x)
  {
    forall p | p in at'
      ensures Linked(nodes2, at', p, false) && Linked(nodes2, at', p, true)
    {
      if p == q + [b] {
        NoChildren(nodes, root, at, p);
      } else if p == q {
        assert Linked(nodes, at, p, !b);
        assert (q + [!b])[|q|] != (q + [b])[|q|];
        assert Linked(nodes2, at', p, b) && Linked(nodes2, at', p, !b);
      } else {
        assert Linked(nodes, at, p, false) && Linked(nodes, at, p, true);
        assert Apart(at, p, q);
        assert (p + [false])[..|p|] == p && (p + [true])[..|p|] == p && (q + [b])[..|q|] == q;
      }
    }
  }

  /** Nothing is attached below a position that is not attached. */
  lemma NoChildren<V>(nodes: seq<Node<V>>, root: nat, at: map<seq<bool>, nat>, p: seq<bool>)
    requires IsTrie(nodes, root, at) && p !in at
    ensures p + [false] !in at && p + [true] !in at
  {
    if p + [false] in at {
      AncestorsAttached(nodes, root, at, p + [false], |p|);
    }
    if p + [true] in at {
      AncestorsAttached(nodes, root, at, p + [true], |p|);
    }
  }

  lemma AttachChain<V>(nodes: seq<Node<V>>, at: map<seq<bool>, nat>, free: Option<nat>, fl: seq<nat>,
                       nodes2: seq<Node<V>>, at': map<seq<bool>, nat>, r: seq<bool>, c: nat)
    requires FreeChain(nodes, at, free, fl) && c !in fl && at' == at[r := c] && |nodes2| == |nodes|
    requires forall i | 0 <= i < |fl| :: nodes2[fl[i]].right == nodes[fl[i]].right
    ensures FreeChain(nodes2, at', free, fl)
  {
    forall i | 0 <= i < |fl|
      ensures ChainLink(nodes2, fl, i)
    {
      assert ChainLink(nodes, fl, i);
    }
    forall p
      ensures Unlisted(at', fl, p)
    {
      assert Unlisted(at, fl, p);
    }
  }

  /** A prefix of `p + [x]` is a prefix of `p` or all of `p + [x]`. */
  lemma PrefixOfAppend(r: seq<bool>, p: seq<bool>, x: bool)
    ensures r <= p + [x] <==> (r <= p || r == p + [x])
  {
    if |r| <= |p| {
      assert (p + [x])[..|r|] == p[..|r|];
    }
  }

  /** A prefix of the parent position is a prefix of the position. */
  lemma PrefixOfUp(r: seq<bool>, p: seq<bool>)
    requires p != []
    ensures r <= Up(p) ==> r <= p
  {
    if r <= Up(p) {
      assert r == p[..|r|];
    }
  }

  /**
   * One pruning step of `delete32`: the node at `r` is unlinked from its parent's slot and pushed on
   * the free list (its `right` becomes the old head). Everything at or below `r` stops being
   * attached; the values stored there are dropped.
   */
  lemma Detach<V>(nodes: seq<Node<V>>, root: nat, at: map<seq<bool>, nat>, free: Option<nat>, fl: seq<nat>,
                  r: seq<bool>)
    requires IsTrie(nodes, root, at) && FreeChain(nodes, at, free, fl)
    requires r in at && r != []
    ensures Up(r) in at
    ensures var nodes2 := nodes[at[Up(r)] := WithChild(nodes[at[Up(r)]], r[|r| - 1], None)][at[r] := nodes[at[r]].(right := free)];
      var at' := DropBelow(at, r);
      && IsTrie(nodes2, root, at')
      && FreeChain(nodes2, at', Some(at[r]), [at[r]] + fl)
      && Contents(nodes2, at') == DropBelow(Contents(nodes, at), r)
  {
    assert ParentLinked(nodes, at, r);
    var c, P, b := at[r], at[Up(r)], r[|r| - 1];
    assert Up(r) + [b] == r;
    var nodes2 := nodes[P := WithChild(nodes[P], b, None)][c := nodes[c].(right := free)];
    var at' := DropBelow(at, r);
    DetachFrame(nodes, root, at, free, fl, r, nodes2);
    DetachLinks(nodes, root, at, r, nodes2, at');
    DetachParents(nodes, root, at, r, nodes2, at');
    DetachChain(nodes, root, at, free, fl, r, nodes2, at');
    DetachContents(nodes, at, r, nodes2, at');
    assert IsTrie(nodes2, root, at');
  }

  lemma DetachFrame<V>(nodes: seq<Node<V>>, root: nat, at: map<seq<bool>, nat>, free: Option<nat>, fl: seq<nat>,
                       r: seq<bool>, nodes2: seq<Node<V>>)
    requires IsTrie(nodes, root, at) && FreeChain(nodes, at, free, fl) && r in at && r != [] && Up(r) in at
    requires nodes2 == nodes[at[Up(r)] := WithChild(nodes[at[Up(r)]], r[|r| - 1], None)][at[r] := nodes[at[r]].(right := free)]
    ensures |nodes2| == |nodes| && at[Up(r)] != at[r]
    ensures nodes2[at[Up(r)]] == WithChild(nodes[at[Up(r)]], r[|r| - 1], None)
    ensures nodes2[at[r]].right == free
    ensures forall p | p in at && p != r && p != Up(r) :: nodes2[at[p]] == nodes[at[p]]
    ensures forall p | p in at && p != r :: nodes2[at[p]].parent == nodes[at[p]].parent
    ensures forall p | p in at && p != r :: nodes2[at[p]].value == nodes[at[p]].value
    ensures forall i | 0 <= i < |fl| :: nodes2[fl[i]] == nodes[fl[i]]
  {
    assert Up(r) != r;
    assert Apart(at, Up(r), r);
    assert Unlisted(at, fl, r) && Unlisted(at, fl, Up(r));
    forall p | p in at && p != r
      ensures at[p] != at[r]
    {
      assert Apart(at, p, r);
    }
    forall p | p in at && p != Up(r)
      ensures at[p] != at[Up(r)]
    {
      assert Apart(at, p, Up(r));
    }
  }

  lemma DetachLinks<V>(nodes: seq<Node<V>>, root: nat, at: map<seq<bool>, nat>, r: seq<bool>,
                       nodes2: seq<Node<V>>, at': map<seq<bool>, nat>)
    requires IsTrie(nodes, root, at) && r in at && r != [] && Up(r) in at && Up(r) + [r[|r| - 1]] == r
    requires |nodes2| == |nodes| && at' == DropBelow(at, r)
    requires nodes2[at[Up(r)]] == WithChild(nodes[at[Up(r)]], r[|r| - 1], None)
    requires forall p | p in at && p != r && p != Up(r) :: nodes2[at[p]] == nodes[at[p]]
    ensures forall p, x | p in at' :: Linked(nodes2, at', p, x)
  {
    var b := r[|r| - 1];
    forall p | p in at'
      ensures Linked(nodes2, at', p, false) && Linked(nodes2, at', p, true)
    {
      assert Linked(nodes, at, p, false) && Linked(nodes, at, p, true);
      PrefixOfAppend(r, p, false);
      PrefixOfAppend(r, p, true);
      if p == Up(r) {
        assert (p + [!b])[|p|] != r[|p|];
        assert Linked(nodes2, at', p, b) && Linked(nodes2, at', p, !b);
      }
    }
  }

  lemma DetachParents<V>(nodes: seq<Node<V>>, root: nat, at: map<seq<bool>, nat>, r: seq<bool>,
                         nodes2: seq<Node<V>>, at': map<seq<bool>, nat>)
    requires IsTrie(nodes, root, at) && r in at && r != []
    requires |nodes2| == |nodes| && at' == DropBelow(at, r)
    requires forall p | p in at && p != r :: nodes2[at[p]].parent == nodes[at[p]].parent
    ensures forall p | p in at' :: ParentLinked(nodes2, at', p)
    ensures [] in at' && at'[[]] == root && root < |nodes2| && nodes2[root].parent == None
    ensures forall p | p in at' :: at'[p] < |nodes2| && |p| <= 32
    ensures forall p, q {:trigger Apart(at', p, q)} :: Apart(at', p, q)
  {
    forall p, q
      ensures Apart(at', p, q)
    {
      assert Apart(at, p, q);
    }
    forall p | p in at'
      ensures ParentLinked(nodes2, at', p)
    {
      assert ParentLinked(nodes, at, p);
      if p != [] {
        PrefixOfUp(r, p);
      }
    }
  }

  lemma DetachChain<V>(nodes: seq<Node<V>>, root: nat, at: map<seq<bool>, nat>, free: Option<nat>, fl: seq<nat>,
                       r: seq<bool>, nodes2: seq<Node<V>>, at': map<seq<bool>, nat>)
    requires IsTrie(nodes, root, at) && FreeChain(nodes, at, free, fl) && r in at && r != []
    requires |nodes2| == |nodes| && at' == DropBelow(at, r)
    requires nodes2[at[r]].right == free
    requires forall i | 0 <= i < |fl| :: nodes2[fl[i]] == nodes[fl[i]]
    ensures FreeChain(nodes2, at', Some(at[r]), [at[r]] + fl)
  {
    var c := at[r];
    var fl' := [c] + fl;
    forall p
      ensures Unlisted(at', fl', p)
    {
      assert Apart(at, p, r);
      assert Unlisted(at, fl, p);
    }
    forall i | 0 <= i < |fl'|
      ensures fl'[i] < |nodes2| && ChainLink(nodes2, fl', i)
    {
      if i > 0 {
        assert fl'[i] == fl[i - 1];
        assert ChainLink(nodes, fl, i - 1);
        if i < |fl| {
          assert fl'[i + 1] == fl[i];
        }
      }
    }
  }

  lemma DetachContents<V>(nodes: seq<Node<V>>, at: map<seq<bool>, nat>, r: seq<bool>,
                          nodes2: seq<Node<V>>, at': map<seq<bool>, nat>)
    requires (forall p | p in at :: at[p] < |nodes|) && r in at
    requires |nodes2| == |nodes| && at' == DropBelow(at, r)
    requires forall p | p in at && p != r :: nodes2[at[p]].value == nodes[at[p]].value
    ensures Contents(nodes2, at') == DropBelow(Contents(nodes, at), r)
  {
    var c, d := Contents(nodes2, at'), DropBelow(Contents(nodes, at), r);
    assert c == d;
  }

  /** The first step below `r` on the way to `p` is `r + [p[|r|]]`. */
  lemma ChildPath(r: seq<bool>, p: seq<bool>)
    requires r <= p && |r| < |p|
    ensures p[..|r| + 1] == r + [false] || p[..|r| + 1] == r + [true]
  {
    if p[|r|] {
      assert p[..|r| + 1] == r + [true];
    } else {
      assert p[..|r| + 1] == r + [false];
    }
  }

  /** A childless node without a value has nothing stored at or below it. */
  lemma LeafDropsNothing<V>(nodes: seq<Node<V>>, root: nat, at: map<seq<bool>, nat>, r: seq<bool>)
    requires IsTrie(nodes, root, at) && r in at
    requires nodes[at[r]].left == None && nodes[at[r]].right == None && nodes[at[r]].value == None
    ensures forall p | p in at && r <= p :: p == r
    ensures DropBelow(Contents(nodes, at), r) == Contents(nodes, at)
  {
    Step(nodes, root, at, r, false);
    Step(nodes, root, at, r, true);
    forall p | p in at && r <= p
      ensures p == r
    {
      if |p| > |r| {
        AncestorsAttached(nodes, root, at, p, |r| + 1);
        ChildPath(r, p);
      }
    }
    var c := Contents(nodes, at);
    assert DropBelow(c, r) == c;
  }

  /** Pruning below `r` and then below its parent is pruning below the parent. */
  lemma PrunedTwice(at: map<seq<bool>, nat>, r: seq<bool>)
    requires r != []
    ensures DropBelow(DropBelow(at, r), Up(r)) == DropBelow(at, Up(r))
  {
    forall p | p in at
      ensures r <= p ==> Up(r) <= p
    {
      if r <= p {
        assert Up(r) == p[..|r| - 1];
      }
    }
    assert DropBelow(DropBelow(at, r), Up(r)) == DropBelow(at, Up(r));
  }

  /**
   * `newnode` as written: the head of the free list is handed out exactly as it was pushed, with
   * its old `left`, `right` (the next free node) and `value`; with no free node a blank one is
   * appended. The result is the arena, the node handed out and the new free-list head.
   */
  function PopAsWritten<V>(nodes: seq<Node<V>>, free: Option<nat>): (r: (seq<Node<V>>, nat, Option<nat>))
    requires free.Some? ==> free.value < |nodes|
    ensures |nodes| <= |r.0| && r.1 < |r.0| && r.0[..|nodes|] == nodes
    ensures free.Some? ==> r.0[r.1] == nodes[free.value] && r.2 == nodes[free.value].right
    ensures free.None? ==> r.0[r.1] == Blank() && r.2 == None
    ensures free.Some? ==> r.0 == nodes && r.1 == free.value
    ensures free.None? ==> r.0 == nodes + [Blank()] && r.1 == |nodes|
  {
    match free
    case Some(p) => (nodes, p, nodes[p].right)
    case None => (nodes + [Blank()], |nodes|, None)
  }

  /**
   * The arena left by adding `0.0.0.0/1` with value 7 to an empty tree and deleting it again: the
   * root alone is attached, and the deleted node heads the free list with its value 7 still in it.
   */
  function FreedArena(): seq<Node<int>> {
    [Node(None, None, None, None), Node(None, None, Some(0), Some(7))]
  }

  /** That arena is a well-formed trie with a well-formed free list, storing nothing. */
  lemma FreedArenaValid()
    ensures IsTrie(FreedArena(), 0, map[[] := 0])
    ensures FreeChain(FreedArena(), map[[] := 0], Some(1), [1])
    ensures Contents(FreedArena(), map[[] := 0]) == map[]
  {
    var nodes, at := FreedArena(), map[[] := 0];
    assert Linked(nodes, at, [], false) && Linked(nodes, at, [], true);
    assert ParentLinked(nodes, at, []);
    assert ChainLink(nodes, [1], 0);
    assert Contents(nodes, at) == map[];
  }

  /**
   * The arena after the freed node is reused as written and hung under the root's left slot. It is
   * also the arena of a tree that holds 7 at `0.0.0.0/1` alone, before that entry is deleted.
   */
  function ReusedArena(): seq<Node<int>> {
    [Node(Some(1), None, None, None), Node(None, None, Some(0), Some(7))]
  }

  /** That arena is a well-formed trie, and it stores 7 at the left child of the root. */
  lemma ReusedArenaStores()
    ensures IsTrie(ReusedArena(), 0, map[[] := 0, [false] := 1])
    ensures Contents(ReusedArena(), map[[] := 0, [false] := 1]) == map[[false] := 7]
  {
    var nodes, at := ReusedArena(), map[[] := 0, [false] := 1];
    ReusedArenaLinked();
    assert Up([false]) == [];
    assert ParentLinked(nodes, at, []) && ParentLinked(nodes, at, [false]);
    assert IsTrie(nodes, 0, at);
    ReusedArenaContents();
  }

  lemma ReusedArenaLinked()
    ensures forall p, b | p in map[[] := 0, [false] := 1] :: Linked(ReusedArena(), map[[] := 0, [false] := 1], p, b)
  {
    var nodes, at := ReusedArena(), map[[] := 0, [false] := 1];
    assert [] + [false] == [false] && [] + [true] == [true];
    assert [false] + [false] != [false] && [false] + [true] != [false] && [true] != [false];
    assert Linked(nodes, at, [], false) && Linked(nodes, at, [], true);
    assert Linked(nodes, at, [false], false) && Linked(nodes, at, [false], true);
  }

  lemma ReusedArenaContents()
    ensures Contents(ReusedArena(), map[[] := 0, [false] := 1]) == map[[false] := 7]
  {
    var nodes, at := ReusedArena(), map[[] := 0, [false] := 1];
    assert Contents(nodes, at) == map[[false] := 7];
  }

  /**
   * Deleting `0.0.0.0/1` from the tree that holds 7 there alone: one round of the pruning loop
   * detaches `[false]` from the root, clearing the root's left slot and linking the node to the
   * empty free list through `right` (the arena `Detach` computes for `r == [false]` and
   * `free == None`). That leaves `FreedArena()`, with the root alone attached; the root then has
   * no child and no parent, so the loop stops there.
   */
  lemma FreedByDelete()
    ensures var nodes, at := ReusedArena(), map[[] := 0, [false] := 1];
      && IsTrie(nodes, 0, at) && FreeChain(nodes, at, None, [])
      && Contents(nodes, at) == map[[false] := 7]
      && Up([false]) == [] && DropBelow(at, [false]) == map[[] := 0]
      && nodes[at[[]] := WithChild(nodes[at[[]]], false, None)][at[[false]] := nodes[at[[false]]].(right := None)] == FreedArena()
  {
    var nodes, at := ReusedArena(), map[[] := 0, [false] := 1];
    ReusedArenaStores();
    assert Up([false]) == [];
    assert DropBelow(at, [false]) == map[[] := 0] by {
      assert [false] <= [false] && !([false] <= []);
    }
  }

  /**
   * Reusing the freed node as written to hang a node under the root (the first step of adding,
   * say, `0.0.0.0/2`) makes the trie store 7 at the left child, although the trie stored nothing
   * and nothing was added there; the corrected `newnode` (PopRecycled, then Attach) keeps what
   * the trie stores unchanged.
   */
  lemma StaleValueReused()
    ensures Contents(FreedArena(), map[[] := 0]) == map[]
    ensures var (nodes1, c, free1) := PopAsWritten(FreedArena(), Some(1));
      && c == 1 && free1 == None
      && nodes1[c := nodes1[c].(parent := Some(0))][0 := WithChild(nodes1[0], false, Some(c))] == ReusedArena()
      && Contents(ReusedArena(), map[[] := 0, [false] := c]) == map[[false] := 7]
  {
    FreedArenaValid();
    ReusedArenaStores();
  }
}
