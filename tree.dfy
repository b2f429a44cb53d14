/**
 * The radix tree itself: a root node, the free list of nodes left over by deletions, and the walks
 * of `insert32`, `delete32` and `find32` over 32-bit keys and masks, plus the CIDR-string entry
 * points. Nodes live in the arena `nodes`; `at` and `freeList` are the ghost views that say which
 * node sits at which bit path and which nodes are free.
 */
module Radix {
  import opened Wrappers
  import opened Bits
  import opened PrefixMap
  import opened Arena
  import opened Walks
  import opened Codec

  /** How many levels `NewTree(preallocate)` fills: none for 0, at most 6. */
  function Levels(preallocate: int): (n: nat)
    ensures n <= 6 && (n == 0 <==> preallocate == 0)
  {
    if preallocate == 0 then 0 else if preallocate > 6 || preallocate < 0 then 6 else preallocate
  }

  /** `Tree`: the root node and the head of the free list. */
  class Tree<V> {
    var nodes: seq<Node<V>>
    var root: nat
    var free: Option<nat>
    ghost var at: map<seq<bool>, nat>
    ghost var freeList: seq<nat>

    /** The attached nodes form a trie under `root` and the free list is a proper chain. */
    ghost predicate Valid()
      reads this
    {
      IsTrie(nodes, root, at) && FreeChain(nodes, at, free, freeList)
    }

    /** The prefixes the tree holds values for, with those values. */
    ghost function Stored(): map<seq<bool>, V>
      reads this
      requires Valid()
    {
      Contents(nodes, at)
    }

    /**
     * `NewTree`: a tree whose root is a blank node and whose free list is empty. A nonzero
     * `preallocate` (a value outside 1..6 counts as 6) then inserts nil at `key/mask` for every
     * mask of 1 up to that many leading ones and every key stepping by the mask's last bit, so the
     * nodes hang ready but nothing is stored and nothing lies deeper than the preallocated levels.
     */
    constructor(preallocate: int)
      ensures Valid() && Stored() == map[] && root == 0
      ensures preallocate == 0 ==> nodes == [Blank()] && free == None && at == map[[] := 0]
      ensures forall q | q in at :: |q| <= Levels(preallocate)
      ensures forall k: bv32 :: KeyPath(k)[..Levels(preallocate)] in at
    {
      nodes, root, free := [Blank()], 0, None;
      at, freeList := map[[] := 0], [];
      new;
      LoneRoot<V>();
      if preallocate == 0 {
        forall k: bv32
          ensures KeyPath(k)[..0] in at
        {
          assert KeyPath(k)[..0] == [];
        }
        return;
      }
      var count := preallocate;
      if count > 6 || count < 0 {
        count := 6;
      }
      Preallocate(count);
    }

    /**
     * The outer loop of `NewTree`: for `levels` levels, widen `mask` by one leading one bit
     * (`mask >>= 1; mask |= startbit`), fill that level, and halve the key step `inc`.
     */
    method Preallocate(levels: int)
      requires Valid() && Stored() == map[] && 0 < levels <= 6 && forall q | q in at :: |q| == 0
      modifies this
      ensures Valid() && Stored() == map[] && root == old(root)
      ensures forall q | q in at :: |q| <= levels
      ensures forall k: bv32 :: KeyPath(k)[..levels] in at
    {
      var count := levels;
      var mask: bv32 := 0;
      var inc := StartBit;
      ghost var done: nat := 0;
      while count > 0
        invariant Valid() && Stored() == map[] && root == old(root)
        invariant 0 <= count && done + count == levels
        invariant mask == TopMask(done) && inc == Bit(done)
        invariant forall q | q in at :: |q| <= done
        invariant done > 0 ==> forall k: bv32 :: KeyPath(k)[..done] in at
        decreases count
      {
        TopGrow(done);
        mask := mask >> 1;
        mask := mask | StartBit;
        FillLevel(mask, inc, done);
        BitNext(done);
        inc, count := inc >> 1, count - 1;
        done := done + 1;
      }
    }

    /**
     * The inner loop of `NewTree`: nil is inserted at `key/mask` for `key` = 0, `inc`, 2`inc`, ...
     * until the key wraps around to 0, where `mask` has `d + 1` leading ones and `inc` is its last
     * one bit. Every position of depth `d + 1` ends up attached, nothing gets stored and no node
     * is hung below depth `d + 1`. The levels stop at 6, so the keys differ only in their top
     * byte `t`, which tracks how far the loop has got.
     */
    method FillLevel(mask: bv32, inc: bv32, ghost d: nat)
      requires Valid() && Stored() == map[] && d < 6 && mask == TopMask(d + 1) && inc == Bit(d)
      requires forall q | q in at :: |q| <= d + 1
      modifies this
      ensures Valid() && Stored() == map[] && root == old(root)
      ensures forall q | q in at :: |q| <= d + 1
      ensures forall k: bv32 :: KeyPath(k)[..d + 1] in at
    {
      TopLen(d + 1);
      ByteLevel(d);
      ghost var step := TopByte(inc);
      var key: bv32 := 0;
      ghost var t: bv8 := 0;
      while true
        invariant Valid() && Stored() == map[] && root == old(root)
        invariant forall q | q in at :: |q| <= d + 1
        invariant key == Widen(t) && t & (step - 1) == 0
        invariant forall k: bv32 | TopByte(k) < t :: KeyPath(k)[..d + 1] in at
        decreases 0x100 - t as int
      {
        var _ := Insert32(key, mask, None);
        assert KeyPath(key)[..d + 1] in at by {
          assert Prefix(key, mask) <= Prefix(key, mask);
        }
        ghost var t0, key0 := t, key;
        WidenAdd(t, step);
        key, t := key + inc, t + step;
        TopOfWiden(t);
        forall k: bv32 | t0 <= TopByte(k) && (TopByte(k) < t || t == 0)
          ensures KeyPath(k)[..d + 1] in at
        {
          SameLevel(key0, t0, d, k);
        }
        if key == 0 {
          break;
        }
      }
    }

    /**
     * `newnode`, corrected: the head of the free list is reused, or a new node is allocated past the
     * end of the arena, and either way the node handed out is blank and attached nowhere. It hands
     * out the node `newnode` as written does and only blanks it; with an empty free list the two
     * coincide.
     */
    method NewNode() returns (p: nat)
      requires Valid()
      modifies this
      ensures Valid() && root == old(root) && at == old(at) && Stored() == old(Stored())
      ensures p < |nodes| && nodes[p] == Blank() && p !in freeList && forall q | q in at :: at[q] != p
      ensures old(free).Some? ==> p == old(free).value && nodes == old(nodes)[p := Blank()]
                                  && free == old(nodes)[p].right && freeList == old(freeList)[1..]
      ensures old(free).None? ==> p == |old(nodes)| && nodes == old(nodes) + [Blank()]
                                  && free == None && freeList == old(freeList)
      ensures var (nodes1, q, free1) := PopAsWritten(old(nodes), old(free));
        p == q && free == free1 && nodes == nodes1[p := Blank()]
    {
      if free.Some? {
        PopRecycled(nodes, root, at, free, freeList);
        p := free.value;
        free := nodes[p].right;
        nodes := nodes[p := Blank()];
        freeList := freeList[1..];
      } else {
        PopFresh(nodes, root, at, freeList);
        p := |nodes|;
        nodes := nodes + [Blank()];
      }
    }

    /**
     * `find32`: walks from the root along the key's bits, one level per leading one of the mask
     * (and one more), remembering the last value seen. The answer is the value of the most
     * specific stored prefix of the key's first `PrefixLen(mask)` bits.
     */
    method Find32(key: bv32, mask: bv32) returns (value: Option<V>)
      requires Valid()
      ensures value == LongestMatch(Stored(), KeyPath(key), PrefixLen(mask))
    {
      ghost var path, n := KeyPath(key), PrefixLen(mask);
      ghost var d: nat := 0;
      var bit := StartBit;
      var node: Option<nat> := Some(root);
      value := None;
      while node.Some?
        invariant d <= n && bit == Bit(d)
        invariant node.Some? <==> path[..d] in at
        invariant node.Some? ==> node.value == at[path[..d]]
        invariant value == if d == 0 then None else LongestMatch(Contents(nodes, at), path, d - 1)
        invariant d == 0 ==> node.Some?
        decreases n - d
      {
        FindLevel(nodes, root, at, path, d, value);
        Walk(key, mask, d, bit);
        var here := nodes[node.value];
        if here.value.Some? {
          value := here.value;
        }
        if key & bit != 0 {
          node := here.right;
        } else {
          node := here.left;
        }
        if mask & bit == 0 {
          return;
        }
        bit := bit >> 1;
        d := d + 1;
      }
      FallsOff(nodes, root, at, path, d, n);
    }

    /**
     * The first loop of `insert32`: follow the key's bits from the root while the mask has leading
     * ones and the child the key selects exists. It stops at depth `d` on the node at the first `d`
     * bits; `next` is nil exactly when the walk stopped early because the next level is missing.
     */
    method Descend(key: bv32, mask: bv32) returns (node: nat, bit: bv32, next: Option<nat>, ghost d: nat)
      requires Valid()
      ensures d <= PrefixLen(mask) && bit == Bit(d)
      ensures KeyPath(key)[..d] in at && node == at[KeyPath(key)[..d]]
      ensures next.Some? <==> d == PrefixLen(mask)
      ensures next.None? ==> KeyPath(key)[..d + 1] !in at
    {
      ghost var path, n := KeyPath(key), PrefixLen(mask);
      d := 0;
      bit := StartBit;
      node := root;
      next := Some(root);
      while mask & bit != 0
        invariant d <= n && bit == Bit(d)
        invariant path[..d] in at && node == at[path[..d]] && next == Some(node)
        decreases n - d
      {
        Walk(key, mask, d, bit);
        Step(nodes, root, at, path[..d], path[d]);
        TakeOneMore(path, d);
        if key & bit != 0 {
          next := nodes[node].right;
        } else {
          next := nodes[node].left;
        }
        if next.None? {
          return;
        }
        bit := bit >> 1;
        node := next.value;
        d := d + 1;
      }
      Walk(key, mask, d, bit);
    }

    /**
     * The state of the second loop of `insert32` at depth `d`: the trie is sound and still stores
     * `C0`, `node` sits at the first `d` bits of `path` and the next level is missing, every level
     * hung below depth `d0` is still empty, and what was attached and popped since the loop began
     * is accounted for by `Grew` and `FreeSuffix`.
     */
    ghost predicate Building(A0: map<seq<bool>, nat>, size0: nat, F0: seq<nat>, C0: map<seq<bool>, V>,
                             path: seq<bool>, n: nat, d0: nat, d: nat, node: nat)
      reads this
    {
      Walks.Building(nodes, root, at, free, freeList, A0, size0, F0, C0, path, n, d0, d, node)
    }

    /**
     * Where the second loop of `insert32` ends: the node `leaf` at `p` is newly attached and still
     * empty, the trie still stores `C0`, and the positions added are accounted for by `Grew`.
     */
    ghost predicate Grown(A0: map<seq<bool>, nat>, size0: nat, F0: seq<nat>, C0: map<seq<bool>, V>, p: seq<bool>, leaf: nat)
      reads this
    {
      Walks.Grown(nodes, root, at, free, freeList, A0, size0, F0, C0, p, leaf)
    }

    /**
     * One iteration of the second loop of `insert32`: a node from `newnode` gets `node` as its
     * parent and is hung in the child slot that bit `d` of the path selects.
     */
    method Hang(node: nat, b: bool, ghost A0: map<seq<bool>, nat>, ghost size0: nat, ghost F0: seq<nat>,
                ghost C0: map<seq<bool>, V>, ghost path: seq<bool>, ghost n: nat, ghost d0: nat, ghost d: nat)
      returns (c: nat)
      requires Building(A0, size0, F0, C0, path, n, d0, d, node) && d < n && b == path[d]
      modifies this
      ensures Building(A0, size0, F0, C0, path, n, d0, d + 1, c) && root == old(root)
    {
      ghost var N, A, F, FL := nodes, at, free, freeList;
      c := NewNode();
      ghost var N1 := nodes;
      nodes := nodes[c := nodes[c].(parent := Some(node))][node := WithChild(nodes[node], b, Some(c))];
      at := at[path[..d + 1] := c];
      BuildStep(N, root, A, F, FL, A0, size0, F0, C0, path, n, d0, d, node, N1, c, nodes, at, free, freeList);
    }

    /** `node.value = value` on the node at `p`: only what is stored at `p` changes. */
    method Store(node: nat, ghost p: seq<bool>, value: Option<V>)
      requires Valid() && p in at && node == at[p]
      modifies this
      ensures Valid() && root == old(root) && at == old(at) && free == old(free) && freeList == old(freeList)
      ensures nodes == old(nodes)[node := old(nodes)[node].(value := value)]
      ensures Stored() == if value.Some? then old(Stored())[p := value.value] else old(Stored()) - {p}
      ensures value.None? && old(nodes)[node].value.None? ==> Stored() == old(Stored())
    {
      SetValue(nodes, root, at, free, freeList, p, value);
      nodes := nodes[node := nodes[node].(value := value)];
    }

    /**
     * The second loop of `insert32`: the walk stopped at depth `d` above the node of `key/mask`, so
     * one new node is hung per missing level; the last one, at `key/mask`, is returned, still empty.
     */
    method Grow(key: bv32, mask: bv32, node: nat, bit: bv32, ghost d: nat) returns (leaf: nat)
      requires Valid() && d < PrefixLen(mask) && bit == Bit(d)
      requires KeyPath(key)[..d] in at && node == at[KeyPath(key)[..d]] && KeyPath(key)[..d + 1] !in at
      modifies this
      ensures Grown(old(at), |old(nodes)|, old(freeList), old(Stored()), Prefix(key, mask), leaf) && root == old(root)
      ensures Took(old(at), old(freeList), |old(nodes)|, freeList, |nodes|, Prefix(key, mask))
    {
      ghost var path, n := KeyPath(key), PrefixLen(mask);
      BuildStart(nodes, root, at, free, freeList, path, n, d);
      ghost var d0, A0, size0, F0, C0, N0 := d, at, |nodes|, freeList, Stored(), nodes;
      var bit := bit;
      ghost var d := d;
      leaf := node;
      while mask & bit != 0
        invariant Building(A0, size0, F0, C0, path, n, d0, d, leaf)
        invariant bit == Bit(d) && root == old(root)
        decreases n - d
      {
        Walk(key, mask, d, bit);
        leaf := Hang(leaf, key & bit != 0, A0, size0, F0, C0, path, n, d0, d);
        bit := bit >> 1;
        d := d + 1;
      }
      Walk(key, mask, d, bit);
      BuildDone(nodes, root, at, free, freeList, A0, size0, F0, C0, path, n, d0, leaf, N0, Prefix(key, mask));
    }

    /**
     * `insert32`: an exclusive add. It walks the key's bits as far as the trie goes; if it reaches
     * the node of `key/mask` and that node already holds a value it fails with `ErrNodeBusy` and
     * changes nothing; otherwise it stores `value` there, first hanging one new node per missing
     * level under the deepest node reached (see `Grew`).
     */
    method Insert32(key: bv32, mask: bv32, value: Option<V>) returns (err: Outcome)
      requires Valid()
      modifies this
      ensures Valid() && root == old(root)
      ensures var p := Prefix(key, mask);
        err == if p in old(at) && old(nodes)[old(at)[p]].value.Some? then Fail(NodeBusy) else Pass
      ensures err.Fail? ==> unchanged(this)
      ensures err.Pass? ==>
        Stored() == (if value.Some? then old(Stored())[Prefix(key, mask) := value.value] else old(Stored()))
        && Grew(old(at), |old(nodes)|, old(freeList), at, Prefix(key, mask))
        && Took(old(at), old(freeList), |old(nodes)|, freeList, |nodes|, Prefix(key, mask))
    {
      var node, bit, next, d := Descend(key, mask);
      if next.Some? {
        if nodes[node].value.Some? {
          return Fail(NodeBusy);
        }
        GrewNothing(nodes, root, at, |nodes|, freeList, Prefix(key, mask));
        Store(node, Prefix(key, mask), value);
        return Pass;
      }
      node := Grow(key, mask, node, bit, d);
      Store(node, Prefix(key, mask), value);
      return Pass;
    }

    /**
     * The first loop of `delete32`: follow the key's bits from the root, one level per leading one
     * of the mask, until they are used up or the path breaks. The node found is the node of
     * `key/mask`, and there is none exactly when that position is not attached.
     */
    method Locate(key: bv32, mask: bv32) returns (node: Option<nat>)
      requires Valid()
      ensures node.Some? <==> Prefix(key, mask) in at
      ensures node.Some? ==> node.value == at[Prefix(key, mask)]
    {
      ghost var path, n := KeyPath(key), PrefixLen(mask);
      ghost var d: nat := 0;
      var bit := StartBit;
      node := Some(root);
      while node.Some? && bit & mask != 0
        invariant d <= n && bit == Bit(d)
        invariant node.Some? <==> path[..d] in at
        invariant node.Some? ==> node.value == at[path[..d]]
        decreases n - d
      {
        Walk(key, mask, d, bit);
        Step(nodes, root, at, path[..d], path[d]);
        TakeOneMore(path, d);
        if key & bit != 0 {
          node := nodes[node.value].right;
        } else {
          node := nodes[node.value].left;
        }
        bit := bit >> 1;
        d := d + 1;
      }
      if node.Some? {
        Walk(key, mask, d, bit);
      } else {
        PrefixAttached(nodes, root, at, path, d, n);
      }
    }

    ghost predicate Pruning(A0: map<seq<bool>, nat>, F0: seq<nat>, C0: map<seq<bool>, V>, p: seq<bool>, r: seq<bool>, node: nat)
      reads this
    {
      Walks.Pruning(nodes, root, at, free, freeList, A0, F0, C0, p, r, node)
    }

    ghost predicate Unlinked(A0: map<seq<bool>, nat>, F0: seq<nat>, C0: map<seq<bool>, V>, p: seq<bool>, r: seq<bool>, parent: nat)
      reads this
    {
      Walks.Unlinked(nodes, root, at, free, freeList, A0, F0, C0, p, r, parent)
    }

    /**
     * One iteration of `delete32`'s pruning loop: the node at `r` is cleared from the slot of its
     * parent that points at it and pushed on the free list through its `right` link; the parent is
     * returned.
     */
    method Unlink(node: nat, ghost A0: map<seq<bool>, nat>, ghost F0: seq<nat>, ghost C0: map<seq<bool>, V>,
                  ghost p: seq<bool>, ghost r: seq<bool>)
      returns (parent: nat)
      requires Pruning(A0, F0, C0, p, r, node)
      modifies this
      ensures Unlinked(A0, F0, C0, p, r, parent) && root == old(root)
      ensures free == Some(node) && freeList == [node] + old(freeList) && nodes[node].right == old(free)
    {
      ghost var N, A, F, FL := nodes, at, free, freeList;
      PruneStep(N, root, A, F, FL, A0, F0, C0, p, r, node);
      parent := nodes[node].parent.value;
      var up := nodes[parent];
      var cut := nodes[parent := if up.right == Some(node) then up.(right := None) else up.(left := None)];
      nodes, free := cut[node := cut[node].(right := free)], Some(node);
      at, freeList := DropBelow(at, r), [node] + freeList;
    }

    /**
     * The pruning loop of `delete32`: unlink the node at `p`, then each ancestor that is left with
     * no child and no value, stopping at the first ancestor that keeps a child or a value or is the
     * root. `top` is the last position unlinked; the root is never unlinked.
     */
    method Prune(node: nat, ghost p: seq<bool>) returns (ghost top: seq<bool>)
      requires Valid() && p in at && p != [] && node == at[p]
      modifies this
      ensures Valid() && root == old(root)
      ensures top != [] && top <= p && Up(top) in at
      ensures at == DropBelow(old(at), top) && Stored() == DropBelow(old(Stored()), p)
      ensures FreeSuffix(freeList, old(freeList)) && |freeList| == |old(freeList)| + |p| - |top| + 1
      ensures var up := nodes[at[Up(top)]];
        up.left.Some? || up.right.Some? || up.value.Some? || Up(top) == []
      ensures PruneTop(old(at), old(Stored()), p, top) && Pushed(freeList, old(at), p, |top|)
    {
      PruneStart(nodes, root, at, free, freeList, p);
      ghost var A0, F0, C0 := at, freeList, Stored();
      var node := node;
      top := p;
      while true
        invariant Pruning(A0, F0, C0, p, top, node) && root == old(root)
        decreases |top|
      {
        node := Unlink(node, A0, F0, C0, p, top);
        ParentKeeps(nodes, root, at, free, freeList, A0, F0, C0, p, top, node);
        if nodes[node].right.Some? || nodes[node].left.Some? || nodes[node].value.Some? {
          return;
        }
        if nodes[node].parent.None? {
          OnlyRootOrphan(nodes, root, at, Up(top));
          return;
        }
        PruneNext(nodes, root, at, free, freeList, A0, F0, C0, p, top, node);
        top := Up(top);
      }
    }

    /**
     * `delete32`. It walks to the node of `key/mask` and fails with `ErrNotFound` if the path
     * breaks. At a node with both children it only clears the value, failing with `ErrNotFound` if
     * there is none. Any other node is pruned with everything below it, together with the ancestors
     * the pruning leaves empty; this also drops the values under a node with one child, and succeeds
     * on a node without a value.
     */
    method Delete32(key: bv32, mask: bv32) returns (err: Outcome)
      requires Valid()
      requires PrefixLen(mask) > 0 || Forks(nodes[root])
      modifies this
      ensures Valid() && root == old(root)
      ensures var p := Prefix(key, mask);
        err == if p !in old(at) || (Forks(old(nodes)[old(at)[p]]) && old(nodes)[old(at)[p]].value.None?)
               then Fail(NotFound) else Pass
      ensures err.Fail? ==> unchanged(this)
      ensures var p := Prefix(key, mask);
        err.Pass? && Forks(old(nodes)[old(at)[p]]) ==>
          Stored() == old(Stored()) - {p} && at == old(at) && free == old(free) && freeList == old(freeList)
          && nodes == old(nodes)[old(at)[p] := old(nodes)[old(at)[p]].(value := None)]
      ensures var p := Prefix(key, mask);
        err.Pass? && !Forks(old(nodes)[old(at)[p]]) ==>
          Stored() == DropBelow(old(Stored()), p)
          && exists top | PruneTop(old(at), old(Stored()), p, top) ::
               && at == DropBelow(old(at), top) && Pushed(freeList, old(at), p, |top|)
               && FreeSuffix(freeList, old(freeList)) && |freeList| == |old(freeList)| + |p| - |top| + 1
    {
      var found := Locate(key, mask);
      if found.None? {
        return Fail(NotFound);
      }
      var node := found.value;
      if nodes[node].right.Some? && nodes[node].left.Some? {
        if nodes[node].value.Some? {
          Store(node, Prefix(key, mask), None);
          return Pass;
        }
        return Fail(NotFound);
      }
      ghost var top := Prune(node, Prefix(key, mask));
      return Pass;
    }

    /**
     * `AddCIDR`: parse the text, then `insert32` the value at the block it names. A text that does
     * not parse is ErrBadIP and the tree is not touched.
     */
    method AddCidr(cidr: string, value: Option<V>) returns (err: Outcome)
      requires Valid()
      modifies this
      ensures Valid() && root == old(root)
      ensures Cidr4(cidr).Err? ==> err == Fail(BadIP) && unchanged(this)
      ensures Cidr4(cidr).Ok? ==> var p := Prefix(Cidr4(cidr).value.ip, Cidr4(cidr).value.mask);
        && err == (if p in old(at) && old(nodes)[old(at)[p]].value.Some? then Fail(NodeBusy) else Pass)
        && (err.Fail? ==> unchanged(this))
        && (err.Pass? ==> Stored() == if value.Some? then old(Stored())[p := value.value] else old(Stored()))
        && (err.Pass? ==> Grew(old(at), |old(nodes)|, old(freeList), at, p))
        && (err.Pass? ==> Took(old(at), old(freeList), |old(nodes)|, freeList, |nodes|, p))
    {
      var parsed := ParseCidr4(cidr);
      if parsed.Err? {
        return Fail(parsed.error);
      }
      err := Insert32(parsed.value.ip, parsed.value.mask, value);
    }

    /**
     * `DeleteCIDR`: parse the text, then `delete32` the block it names. A text that does not
     * parse is ErrBadIP and the tree is not touched.
     */
    method DeleteCidr(cidr: string) returns (err: Outcome)
      requires Valid()
      requires Cidr4(cidr).Ok? ==> PrefixLen(Cidr4(cidr).value.mask) > 0 || Forks(nodes[root])
      modifies this
      ensures Valid() && root == old(root)
      ensures Cidr4(cidr).Err? ==> err == Fail(BadIP) && unchanged(this)
      ensures Cidr4(cidr).Ok? ==> var p := Prefix(Cidr4(cidr).value.ip, Cidr4(cidr).value.mask);
        && err == (if p !in old(at) || (Forks(old(nodes)[old(at)[p]]) && old(nodes)[old(at)[p]].value.None?)
                   then Fail(NotFound) else Pass)
        && (err.Fail? ==> unchanged(this))
        && (err.Pass? ==> Stored() == if Forks(old(nodes)[old(at)[p]]) then old(Stored()) - {p}
                                      else DropBelow(old(Stored()), p))
        && (err.Pass? && Forks(old(nodes)[old(at)[p]]) ==>
              && at == old(at) && free == old(free) && freeList == old(freeList)
              && nodes == old(nodes)[old(at)[p] := old(nodes)[old(at)[p]].(value := None)])
        && (err.Pass? && !Forks(old(nodes)[old(at)[p]]) ==>
              exists top | PruneTop(old(at), old(Stored()), p, top) ::
                && at == DropBelow(old(at), top) && Pushed(freeList, old(at), p, |top|)
                && FreeSuffix(freeList, old(freeList)) && |freeList| == |old(freeList)| + |p| - |top| + 1)
    {
      var parsed := ParseCidr4(cidr);
      if parsed.Err? {
        return Fail(parsed.error);
      }
      err := Delete32(parsed.value.ip, parsed.value.mask);
    }

    /**
     * `FindCIDR`: parse the text, then `find32` the block it names: the value of the most specific
     * stored prefix that covers it. A text that does not parse is ErrBadIP.
     */
    method FindCidr(cidr: string) returns (r: Result<Option<V>>)
      requires Valid()
      ensures r == match Cidr4(cidr)
        case Err(e) => Err(e)
        case Ok(c) => Ok(LongestMatch(Stored(), KeyPath(c.ip), PrefixLen(c.mask)))
    {
      var parsed := ParseCidr4(cidr);
      if parsed.Err? {
        return Err(parsed.error);
      }
      var value := Find32(parsed.value.ip, parsed.value.mask);
      return Ok(value);
    }
  }

  /** What `insert32` stores at `key/mask`, `find32` with the same key and mask finds. */
  lemma RoundTrip<V>(c: map<seq<bool>, V>, key: bv32, mask: bv32, v: V)
    ensures LongestMatch(c[Prefix(key, mask) := v], KeyPath(key), PrefixLen(mask)) == Some(v)
  {
    StoreCovers(c, Prefix(key, mask), v, KeyPath(key), PrefixLen(mask));
  }

  /**
   * After `delete32` of `key/mask` (either case), `find32` with the same key and mask falls back
   * to the most specific stored prefix strictly above it.
   */
  lemma DeleteFallsBack<V>(c: map<seq<bool>, V>, key: bv32, mask: bv32)
    requires PrefixLen(mask) > 0
    ensures var p, path, n := Prefix(key, mask), KeyPath(key), PrefixLen(mask);
      LongestMatch(DropBelow(c, p), path, n) == LongestMatch(c, path, n - 1)
      && LongestMatch(c - {p}, path, n) == LongestMatch(c, path, n - 1)
  {
    DropFallsBack(c, Prefix(key, mask), KeyPath(key), PrefixLen(mask));
    RemoveFallsBack(c, Prefix(key, mask), KeyPath(key));
  }
}
