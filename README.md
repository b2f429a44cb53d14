# nradix IPv4 radix tree in Dafny

This project models the IPv4 core of the `nradix` package (`tree.go`). The package is a binary
radix tree keyed by the bits of a 32-bit address. A node at depth `d` stands for the address
block whose first `d` bits spell the path from the root. The tree offers three operations, each
on a `key/mask` pair:

- `insert32` is an exclusive add.
- `delete32` removes a value and prunes the nodes that are left empty.
- `find32` is a longest-prefix match.

Deleted nodes go on a free list, threaded through their `right` pointer, and `newnode` reuses
them. `AddCIDR`, `DeleteCIDR` and `FindCIDR` are the textual front end. They parse a dotted quad
with an optional `/n` suffix (`loadip4`, `parsecidr4`) and then call the 32-bit operations.

How the model is built:

- **Arena.** The pointer graph is an arena: a `seq` of node records with optional indices for
  `left`, `right` and `parent`. `Radix.Tree` is a class whose methods update the arena, the root
  index and the free-list head in place, as the Go methods do.
- **Ghost views.** `at` maps each attached bit path to its node. `freeList` lists the free chain.
- **Invariant.** `Valid()` says the attached nodes form a sound trie and the free list is a proper
  chain of unattached nodes. Every method keeps it.
- **Abstract view.** `Stored()` maps each prefix to the value stored there. The contracts are
  stated on this map:
  - `LongestMatch` is the most specific stored prefix of a path.
  - `DropBelow` removes a whole subtree.
- **Integers.** Go's `uint32` arithmetic in the parsers is written out on `nat`, with explicit
  reductions modulo 2^32 and Go's rule that a shift by 32 or more gives 0.
- **Values.** The stored values are a type parameter `V`. A Go `nil` value is `None`.

Files:

- `wrappers.dfy`: `Option`, `Result`, `Outcome` and the three error values.
- `bits.dfy`: the walk cursor `bit`, a key's path, the prefix length of a mask, and top-`n`-bit masks.
- `prefixmap.dfy`: longest-prefix match over a map of prefixes, and how storing and removing change it.
- `arena.dfy`: node records, the trie and free-list invariants, and the single-step arena lemmas.
- `walks.dfy`: the loop states of `insert32`'s building loop and `delete32`'s pruning loop, and their step lemmas.
- `tree.dfy`: the `Tree` class (`NewTree`, `newnode`, `insert32`, `delete32`, `find32` and the CIDR entry points).
- `codec.dfy`: `loadip4` and `parsecidr4`, with their reference definitions `Ip4` and `Cidr4`.

## Model

| member | source | states |
|---|---|---|
| Radix.Tree.constructor | tree.go:33-62 | `NewTree`: the tree is valid, stores nothing, and its root is node 0. With `preallocate == 0` the root is a lone blank node and the free list is empty. Let `L` be the number of preallocated levels: 0, or the argument clamped to 6. Then every key's first `L` bits name an attached position, so all 2^`L` nodes of depth `L` and their ancestors are present, and no node hangs deeper. |
| Radix.Levels | tree.go:36-43 | The number of levels `NewTree` preallocates: 0 exactly when the argument is 0, and never more than 6. |
| Radix.Tree.Preallocate | tree.go:47-59 | The outer preallocation loop keeps the tree valid and storing nothing. After `levels` rounds every key's first `levels` bits name an attached position and no node lies deeper (loop invariant `mask == TopMask(done)`, `inc == Bit(done)`). |
| Radix.Tree.FillLevel | tree.go:48-58 | The inner loop inserts nil at `key/mask` for `key` stepping by `inc` until it wraps to 0. Afterwards every key's first `d + 1` bits name an attached position, so the whole level is present. It terminates, keeps the tree valid, stores nothing, and hangs no node below depth `d + 1`. It requires `d < 6`, as `NewTree` clamps the levels to 6, so the keys differ only in their top byte. |
| Radix.Tree.NewNode | tree.go:200-209 | Corrected `newnode`. It pops the free-list head (the new head is the popped node's old `right`) or appends a fresh node. Either way the node is blank, attached nowhere, and off the free list. The stored map and the attached positions are unchanged. It returns the node that `Arena.PopAsWritten` returns, with the same new free-list head, and only blanks that node. With an empty free list the two coincide. |
| Radix.Tree.Find32 | tree.go:179-198 | `find32` returns the value of the most specific stored prefix of the key's first `PrefixLen(mask)` bits, or nil if there is none. It has no `modifies` clause, so the tree never changes. |
| Radix.Tree.Descend | tree.go:93-107 | The first loop of `insert32` stops at the deepest attached node on the key's path, at most `PrefixLen(mask)` deep. `next` is nil exactly when the walk stopped early, and then the next level is not attached. |
| Radix.Tree.Hang | tree.go:116-124 | One round of `insert32`'s second loop: a node from `newnode` is hung one level deeper along the path. The building invariant holds at the next depth. |
| Radix.Tree.Store | tree.go:108-126 | `node.value = value` changes only the stored entry at that node's path: it is set for a value and removed for nil. Setting nil on an empty node leaves the stored map unchanged. |
| Radix.Tree.Grow | tree.go:115-125 | The second loop of `insert32` attaches one new node per missing level of the prefix. The new nodes come from the free list or from past the end of the arena. Nothing already stored changes, and the last node, at `key/mask`, is empty. It takes exactly one node per missing level (`Took`): free-list nodes from the head first, and fresh ones only once the list is empty. |
| Radix.Tree.Insert32 | tree.go:92-129 | `insert32` fails with ErrNodeBusy exactly when the node of `key/mask` exists and holds a value, and then nothing changes. Otherwise the value is stored at `key/mask` and nothing else stored changes (over the corrected `newnode`, see Findings). Only the prefixes of `key/mask` become newly attached (`Grew`). One node is taken per newly attached level, from the head of the free list while it lasts and from past the arena's end after that (`Took`). |
| Radix.Tree.Locate | tree.go:132-141 | The first loop of `delete32` finds a node exactly when the position of `key/mask` is attached, and that node is the one at that position. |
| Radix.Tree.Unlink | tree.go:157-166 | One round of the pruning loop clears the parent's slot that points at the node. The node becomes the free-list head, its `right` links the old head, and the old free list follows it. The subtree at the node is then detached and the parent stays attached. |
| Radix.Tree.Prune | tree.go:155-174 | The pruning loop detaches the deleted position's subtree and then each ancestor left without children or value. The topmost detached position `top` satisfies `PruneTop`: every detached ancestor had no value and no child off the path, and the parent of `top` keeps a child or a value or is the root. The root is never detached. The free list gains one node per detached level, deepest first (`Pushed`), and the tree stores the old map without the deleted subtree. |
| Radix.Tree.Delete32 | tree.go:131-177 | `delete32` fails with ErrNotFound exactly when `key/mask` is not attached, or its node has both children and no value; a failure changes nothing. At a node with both children only the value is cleared. Otherwise the node's whole subtree is dropped from the stored map. The positions detached are those below the unique `top` of `PruneTop`, and their nodes are pushed on the free list, deepest first. |
| Radix.Tree.AddCidr | tree.go:66-72 | `AddCIDR`, over the corrected `parsecidr4` (`Cidr4`): text it rejects gives ErrBadIP and leaves the tree untouched. Otherwise the result is `insert32`'s on the parsed key and mask: ErrNodeBusy exactly when that node holds a value, with nothing changed; else the stored map gains the value. Only the prefixes of the block become attached (`Grew`), taking one node per new level (`Took`). |
| Radix.Tree.DeleteCidr | tree.go:75-81 | `DeleteCIDR`, over the corrected `parsecidr4` (`Cidr4`): text it rejects gives ErrBadIP and leaves the tree untouched. Otherwise the result is `delete32`'s on the parsed key and mask. At a fork only the value is cleared, and the attached positions and free list stay as they were. Anywhere else the subtree at the unique pruning top is detached (`DropBelow` of the attached positions) and its nodes are pushed on the free list (`Pushed`). |
| Radix.Tree.FindCidr | tree.go:84-90 | `FindCIDR`, over the corrected `parsecidr4` (`Cidr4`): text it rejects gives ErrBadIP. Otherwise it returns the longest-prefix match for the parsed key and mask. |
| Radix.RoundTrip | tree.go:92-198 | After a value is stored at `key/mask`, `find32` with the same key and mask returns that value. |
| Radix.DeleteFallsBack | tree.go:131-198 | After either kind of `delete32` of `key/mask`, `find32` with the same key and mask returns the match of the next shorter prefix. |
| PrefixMap.MatchLength | tree.go:182-195 | The depth found is a stored prefix of the path, and no deeper prefix up to `n` is stored. When nothing is found, no prefix is stored. |
| PrefixMap.MatchIsDeepest | tree.go:182-195 | A stored prefix with nothing stored deeper up to `n` is what the longest-prefix match returns. |
| PrefixMap.NoMatch | tree.go:182-195 | The lookup finds nothing exactly when no prefix of the path up to `n` is stored. |
| PrefixMap.StoreCovers | tree.go:108-126 | Storing `v` at a prefix of the path makes the lookup return `v`, unless a more specific prefix already holds a value. |
| PrefixMap.StoreElsewhere | tree.go:108-126 | Storing at a prefix that does not cover the lookup does not change the lookup. |
| PrefixMap.DropBelow | tree.go:155-174 | Removing a subtree keeps exactly the stored prefixes outside the subtree, with their values. |
| PrefixMap.DropFallsBack | tree.go:155-174 | After a subtree is removed, a lookup under its root returns the match strictly above it. |
| PrefixMap.DropElsewhere | tree.go:155-174 | Removing a subtree that does not cover the lookup does not change the lookup. |
| PrefixMap.RemoveFallsBack | tree.go:146-151 | Clearing only the value at `p` makes the exact lookup of `p` return the match strictly above `p`. |
| PrefixMap.RemoveElsewhere | tree.go:146-151 | Clearing only the value at `p` does not change a lookup that `p` does not cover. |
| Arena.LoneRoot | tree.go:34-37 | A lone blank root is a sound trie with an empty free list, and it stores nothing. |
| Arena.PopAsWritten | tree.go:200-209 | `newnode` as written hands out the free-list head itself, with the arena unchanged, so its stale fields are kept. The head's old `right` becomes the new head. With no free node it hands out a blank node appended at the arena's end, and the list stays empty. |
| Arena.FreedByDelete | tree.go:156-173 | Deleting `0.0.0.0/1` from the tree that holds 7 there alone detaches `[false]` up to the root. This clears the root's left link and pushes the node on the empty free list, and gives the arena `StaleValueReused` starts from. |
| Arena.StaleValueReused | tree.go:156-205 | Counterexample to `newnode` as written. A pruned node keeps its value. Reused as written and hung under the root, it makes a tree that stored nothing store 7. |
| Walks.FindLevel | tree.go:182-190 | One level of `find32`: keeping the value seen here, or the value from above, gives the longest match up to this depth. The child the key selects is exactly the node one level down. |
| Walks.FallsOff | tree.go:182-197 | A walk that falls off the trie has already seen every stored prefix of the path. |
| Walks.BuildStep | tree.go:116-124 | Hanging a popped node one level down keeps the trie sound, keeps what it stores, and extends `Grew` by one level. |
| Walks.GrowStep | tree.go:116-124 | Attaching a node that came from the free list or past the arena's end extends the attached positions by exactly one prefix. |
| Walks.PopSuffix | tree.go:200-209 | `newnode` takes the head of the free list, or a node past the arena's end when the list is empty. |
| Walks.PruneStep | tree.go:157-166 | Unlinking the node at `r` and pushing it on the free list detaches exactly the subtree at `r`. What is stored outside the deleted subtree is kept. |
| Walks.GrewNothing | tree.go:108-113 | An insert that finds its node already attached attaches nothing new and takes no node. |
| Walks.MissingLevels | tree.go:93-107 | When `insert32`'s first loop stops early at depth `d`, the prefixes of `key/mask` attached are exactly those of length at most `d`. |
| Walks.BuildDone | tree.go:115-125 | When the second loop ends, the node at `key/mask` is new and empty, and one node was taken per level that was missing (`Took`). |
| Walks.PushOne | tree.go:163-165 | Pushing the node of the next level up on the free list extends `Pushed` by one level. |
| Walks.ParentKeeps | tree.go:167-169 | After an unlink, the parent has a child or a value exactly when, before the delete, it held a value or had a child off the deleted path. |
| Walks.NotDeeper | tree.go:167-173 | Below a position where the pruning loop stops, the stop condition does not hold. |
| Walks.PruneTopUnique | tree.go:155-174 | At most one position meets `PruneTop`, so the pruning loop's stopping point is determined by the tree before the delete. |
| Bits.Walk | tree.go:96-106 | At depth `d` with cursor `bit`, `mask&bit == 0` exactly when the mask's leading ones are used up. Before that, `key&bit != 0` says the key goes right, and `bit >>= 1` is the next level's cursor. |
| Bits.TopLen | tree.go:256 | A mask of the top `n` bits makes every walk go exactly `n` levels down. |
| Bits.TopGrow | tree.go:49-50 | `mask >>= 1; mask \|= startbit` turns the top-`n` mask into the top-`n + 1` mask. |
| Bits.SameLevel | tree.go:52-57 | Stepping by `inc` from a multiple of it, every key up to the next step, or past it once the step wraps to 0, shares the first `d + 1` bits with the multiple. |
| Bits.SameBlock | tree.go:52-57 | A byte between a multiple of a single bit `i` and the next multiple agrees with the lower multiple at `i` and above. |
| Bits.BitSingle | tree.go:54-56 | The preallocation step `inc` is a single one bit, so adding it to multiples of itself wraps only to 0. |
| Codec.Ip4 | tree.go:211-244 | The reference definition of `loadip4`. It accepts exactly four dot-separated fields, each made of digits and worth at most 255. The result is those fields read big-endian, below 2^32. Anything else is ErrBadIP. |
| Codec.LoadIp4 | tree.go:211-244 | The `loadip4` loop, with the dot counter widened, returns exactly `Ip4(s)`. |
| Codec.Ip4Join | tree.go:211-244 | Any four octets joined with dots parse back to their big-endian value (round trip). |
| Codec.JoinFields | tree.go:219-236 | Cutting text at its dots and joining the fields with dots gives the text back. |
| Codec.FieldsJoin | tree.go:219-236 | Joining dot-free fields with dots and cutting again gives the fields back. |
| Codec.Doomed | tree.go:221-235 | Once a prefix of the text has more than four fields or a field that is not an octet, `loadip4` fails. |
| Codec.ScanDot | tree.go:221-227 | A dot either trips the overflow check on a text that must fail, or moves the scan state to the next field, with the completed fields read big-endian. |
| Codec.ScanDigit | tree.go:228-232 | A digit that takes the field above 255 happens only on a text that must fail. Otherwise the scan state reads the longer field. |
| Codec.ScanEnd | tree.go:237-243 | After the last character, the dot-count and overflow checks accept exactly the four-octet texts, with `Ip4`'s value. |
| Codec.ScanAsWritten | tree.go:211-244 | The as-written `loadip4` loop keeps the address below 2^32 and the field at most 255, and it counts dots in a byte. A `None` is an early ErrBadIP. |
| Codec.Ip4AsWritten | tree.go:211-244 | `loadip4` as written returns an address below 2^32, and every failure is ErrBadIP. |
| Codec.AsWrittenOnQuads | tree.go:211-244 | On every text that is a dotted quad, `loadip4` as written agrees with `Ip4`. Only texts that `Ip4` rejects can expose the wrapping dot counter. |
| Codec.DotsAsWritten | tree.go:216-222 | With its byte-wide counter, the as-written loop counts a run of `k` dots as `k mod 256`. |
| Codec.DotCountWraps | tree.go:216-237 | Counterexample. `loadip4` as written reads 259 dots as the address 0, but that text has 260 empty fields and is no dotted quad. |
| Codec.IndexByte | tree.go:248 | `strings.IndexByte` returns the first index of `c`, or -1 exactly when `c` does not occur. |
| Codec.SuffixMask | tree.go:250-256 | A `/digits` suffix gives a mask with `n mod 2^32` leading ones when that number is at most 32, and no leading ones otherwise. |
| Codec.ReadMask | tree.go:250-256 | The suffix loop rejects any non-digit. Otherwise the digits, read into a wrapping `uint32` and shifted as `0xffffffff << (32 - mask)`, give `SuffixMask`. |
| Codec.ShiftMask | tree.go:256 | `0xffffffff << (32 - m)`, with a wrapping subtraction and Go's wide-shift rule, is the top-`m` mask for `m` in 1..32 and 0 otherwise. |
| Codec.DecimalWrap | tree.go:254 | `mask = mask*10 + digit` in `uint32` is the decimal value of the digits read so far, modulo 2^32. |
| Codec.ParseCidr4 | tree.go:246-266 | The `parsecidr4` code, over the corrected `loadip4`, returns exactly `Cidr4(cidr)`. |
| Codec.Cidr4 | tree.go:246-266 | The reference definition of the corrected `parsecidr4`, built on `Ip4`, the corrected `loadip4`. Every failure is ErrBadIP. |
| Codec.CidrBlock | tree.go:246-266 | For a dotted quad `a` and `n` in 1..32, `a/n` parses to `a` with the top-`n` mask, whose prefix length is `n`. If `a` is no dotted quad, the result is ErrBadIP. |
| Codec.CidrHost | tree.go:258-265 | Text without a '/' parses to the address with the all-ones mask, a 32-level walk. If the text is no dotted quad, the result is ErrBadIP. |

## Left out

- Stored values are an opaque type `V`, and a Go `nil` value is `None`. Values are never compared, so `interface{}` equality does not arise.
- `Tree.has128` and any IPv6 handling are not part of this model. Neither are operations of the package outside `tree.go`'s IPv4 core (`FindIP`, `SetCIDR`, `DeleteWholeRangeCIDR`).
- Garbage collection and memory: the arena only grows and keeps every node. This includes nodes that Go would reclaim: `delete32` overwrites a pruned node's `right` (tree.go:163), so a right-hand subtree hanging off it becomes unreachable in Go, while the model leaves it in the arena.
- Radix.Tree.Delete32: requires `PrefixLen(mask) > 0` or a root with both children. With mask 0 on a root that lacks a child, the pruning loop reads the root's nil `parent` and panics in Go. The model does not cover that call.
- Radix.Tree.Delete32: the two-child test at tree.go:146 is `&&`, and it is modelled as written. A node with one child is pruned together with its whole subtree, so the values below it are dropped too. A node without a value and with at most one child is pruned, and the call succeeds rather than giving ErrNotFound. The test at tree_test.go:133-146 expects otherwise, but the model follows the code.
- Radix.Tree.NewNode: the class uses a corrected `newnode` that blanks the reused node (see Findings). `Arena.PopAsWritten` is the code as written.
- Codec.LoadIp4: its dot counter does not wrap at 256 (see Findings). `Codec.Ip4AsWritten` is the code as written.
- Codec.Cidr4: built on the corrected `loadip4`. For a text such as 259 dots followed by `/8`, `parsecidr4` as written returns 0.0.0.0 with mask 0xff000000, while `Cidr4` is ErrBadIP.
- Codec.ParseCidr4: returns `Cidr4`, so it takes the corrected `loadip4` too and rejects the wrapping-dot texts above.
- Radix.Tree.AddCidr: parses with the corrected `parsecidr4`. On the wrapping-dot texts above, Go stores at the block of address 0, while the model returns ErrBadIP.
- Radix.Tree.DeleteCidr: parses with the corrected `parsecidr4`. On the wrapping-dot texts above, Go deletes at the block of address 0, while the model returns ErrBadIP.
- Radix.Tree.FindCidr: parses with the corrected `parsecidr4`. On the wrapping-dot texts above, Go looks up the block of address 0, while the model returns ErrBadIP.
- The loops of `insert32`, `delete32` and `NewTree` are split into helper methods (`Descend`, `Grow`/`Hang`, `Locate`, `Prune`/`Unlink`, `Preallocate`/`FillLevel`). Each helper runs the same loop with the same exits.
- Text is `seq<char>`. `loadip4` scans bytes and the mask loop scans runes. For ASCII text the two agree, and any other character is rejected either way. `strings.IndexByte` is modelled as the function `Codec.IndexByte`.

## Findings

| source | as written | input that shows it | evidently intended | confidence | as-written member | corrected member |
|---|---|---|---|---|---|---|
| tree.go:200-205 (with tree.go:156-166) | `newnode` hands out a node from the free list with the `left`, `right` and `value` it had when pruned. `delete32` never clears those fields: the pruned node keeps its value, and its `right` links the next free node. | Add `0.0.0.0/1` with value 7, delete it, then add `0.0.0.0/2`. The reused node is hung at `0.0.0.0/1` still holding 7, so the tree stores 7 where nothing was added. The same happens in the scenario of tree_test.go:277-299. | A reused node is blank, like `new(node)`. | not executed | Arena.StaleValueReused (with Arena.PopAsWritten) | Radix.Tree.NewNode |
| tree.go:216, tree.go:222, tree.go:237 | `loadip4` counts dots in a `byte`, which wraps at 256, so 259 dots pass the `num != 3` check. | A string of 259 '.' characters is read as address 0 (0.0.0.0) with no error. | Exactly three dots are accepted. | not executed | Codec.DotCountWraps (with Codec.Ip4AsWritten) | Codec.LoadIp4 |
