# AVL tree with an explicit path stack

This project models the balancing core of a small C library of AVL trees. Keys are
`int`s and values are opaque. The model covers two engines:

- **The intrusive engine** (`inline_avl.h`). A node is embedded in the caller's record.
  The tree carries a size and a generation counter. Insertion, lookup and removal
  push every visited node on a bounded stack. `rebalance` then pops the whole stack,
  refreshes each popped node's cached height, classifies it (`find_case`) and rotates
  it when its balance reaches ±2.
- **The keyed engine** (`avl.c`). The same algorithm, with the key stored in the node,
  a fixed 36-slot stack, and an `avl_rem` whose replacement search differs in small
  ways from the intrusive one.

Around the two engines:

- the iterator (`avl_it.c`) walks a tree in either direction using the bounded stack
  of `astack.h`;
- the self-checks (`avl_it.c`, `basic_test.c`) recompute every height and check
  the balance.

## How the model is built

- `Tree<V>` is an immutable binary tree. Each node keeps its *cached* height field,
  which the C code stores and trusts.
- The stack of visited nodes is a zipper. A `Frame` is one stacked node plus the child
  the walk did not take. `Plug` rebuilds the tree as it stood. `Rebalance` pops every
  frame and applies `update_height`, `find_case` and the rotation at each level.
- Contents are given by the in-order sequence of entries. Insertion and removal are
  related to `InsertSorted` and `RemoveKey` on sorted sequences.
- `Valid` is the invariant both engines keep:
  - the cached heights are exact;
  - every balance is in −1..1;
  - the in-order sequence is strictly increasing.

Modules:

| module | models |
|---|---|
| `BoundedStack` | the bounded stack of `astack.h` |
| `AvlTree` | nodes, heights, balance, ordering and the reference sequence operations |
| `Rotation` | the rotations, `find_case` (as an enumeration and as the C bit mask) and the repair of one node |
| `Path` | the walk down (`dive`), the walks to a removal's replacement, and `rebalance` |
| `InlineAvl` | the intrusive engine |
| `KeyedAvl` | the keyed engine |
| `Iterator` | `avl_it_start` and `avl_it_next` |
| `Verifier` | the recursive height and balance checks |
| `Scenarios` | concrete runs taken from the library's tests |

Three kinds of thing are parameters or left out: allocation, the caller's comparison
callbacks and the `offsetof` glue that maps a record to its node. The comparison is
fixed to integer order (`Compare`). The iterator's caller-supplied buffer is
represented by its byte size and the pointer width. The two engines' path stacks are
not represented: the engines are total functions, and the stack's capacity and
overflow are left out (see below).

Where the iterator's source and header disagree, the model follows the header:

- `avl_it.c` reads a fixed stack field and a generation counter that the keyed tree of
  `avl.h` does not have;
- `avl_it.h` gives the iterator a caller-provided `astack` buffer and a generation.

So the iterator is modelled over the bounded stack, and reads the generation of the
intrusive tree.

## Model

| member | source | states |
|---|---|---|
| BoundedStack.Init | astack.h:21-29 | an empty stack whose capacity is the buffer size divided by the slot width, rounded down |
| BoundedStack.Push | astack.h:31-35 | one more entry, the pushed one on top, the entries below unchanged |
| BoundedStack.Pop | astack.h:38-45 | absent exactly on an empty stack, which is left alone; otherwise the top entry and the stack without it |
| BoundedStack.Peek | astack.h:47-54 | the entry a pop would return, absent exactly on an empty stack |
| BoundedStack.PushPop | astack.h:31-45 | popping right after a push returns the pushed entry and the original stack |
| BoundedStack.PopPush | astack.h:31-45 | pushing back a popped entry restores the stack |
| AvlTree.Compare | basic_test.c:30-58 | the three-way comparison: negative exactly when below, positive exactly when above |
| AvlTree.Ht | inline_avl.h:104-112 | the cached height reads 0 for an absent child, and equals the real height whenever the caches are exact |
| AvlTree.Mk | inline_avl.h:220-227 | `update_height` keeps the node's children, key and value; over children with exact caches the node's cache becomes exact, one more than the taller child |
| AvlTree.Balance | avl.c:72-80 | 0 for the empty tree; on exact caches the right subtree's real height minus the left's; on an AVL tree within −1..1 |
| AvlTree.BstIffOrdered | basic_test.c:92-119 | the recursive key-bound definition of a search tree agrees with a strictly increasing in-order walk |
| AvlTree.Descend | inline_avl.h:431-452 | on an ordered tree a key below the node lies only in the left subtree, a key above only in the right |
| AvlTree.KeysOfCount | inline_avl.h:122-127 | in a strictly increasing sequence the number of entries equals the number of distinct keys |
| AvlTree.InsertSortedKeys | inline_avl.h:388-429 | inserting into the reference sequence adds exactly the new key |
| AvlTree.RemoveKeyKeys | inline_avl.h:454-602 | removing from the reference sequence drops exactly that key |
| AvlTree.InsertBetween | inline_avl.h:388-429 | inserting between everything below and everything above the key puts it in that gap |
| AvlTree.RemoveBetween | inline_avl.h:454-602 | removing a key that sits between smaller and larger entries leaves both sides intact |
| Rotation.RotateRight | inline_avl.h:235-260 | the left child becomes the root keeping its left subtree; the old root becomes its right child, taking over the left child's right subtree and keeping its own right subtree; the in-order sequence is unchanged and both moved nodes get exact heights |
| Rotation.RotateLeft | inline_avl.h:262-287 | the mirror image: the right child becomes the root keeping its right subtree, the old root becomes its left child over its own left subtree and the right child's left subtree, the order is kept and both moved heights are refreshed |
| Rotation.FindCase | avl.c:123-151 | no rotation exactly when the balance is within −1..1; when the left side is two taller, left-left exactly when the left child's left side is at least as high as its right side (a tie takes the single rotation), left-right otherwise; when the right side is two taller, right-left exactly when the right child's left side is strictly higher, right-right otherwise |
| Rotation.FindCaseMask | inline_avl.h:298-329 | the bit mask built from `ROT_FIRST_*`/`ROT_SECND_*` encodes exactly the case avl.c's `find_case` returns |
| Rotation.FixMask | inline_avl.h:364-380 | the mask-driven rotations of the intrusive `rebalance` build the same tree as avl.c's switch over the case |
| Rotation.Fix | inline_avl.h:331-386 | repairing a node never changes its in-order sequence |
| Rotation.FixLeftLeft | avl.c:123-151 | a single right rotation of a node whose left side is two taller and leans left gives an AVL tree of the expected height |
| Rotation.FixRightRight | avl.c:123-151 | the mirror single rotation gives an AVL tree |
| Rotation.FixLeftRight | avl.c:123-151 | the double rotation for the left-right shape gives an AVL tree exactly as high as the old left subtree |
| Rotation.FixRightLeft | avl.c:123-151 | the mirror double rotation gives an AVL tree |
| Rotation.FixAvl | inline_avl.h:331-386 | for AVL children whose heights differ by at most two, one repair step yields an AVL node, grows it by at most one, and leaves a balanced node untouched |
| Path.Step | inline_avl.h:337-383 | relinking a popped node over the repaired subtree keeps the in-order sequence of the rebuilt node |
| Path.PlugAppend | inline_avl.h:145-180 | rebuilding through a concatenated stack is rebuilding through each part in turn |
| Path.Rebalance | inline_avl.h:331-386 | popping a non-empty stack always leaves a node at the top; `Path.InOrderRebalance` and `Path.RebalanceAvl` state what the pops preserve |
| Path.RebalanceAppend | inline_avl.h:331-386 | popping a concatenated stack is popping each part in turn |
| Path.BeforeAfterAppend | inline_avl.h:145-180 | the entries a stack puts left and right of its hole compose over concatenation |
| Path.InOrderPlug | inline_avl.h:145-180 | the rebuilt tree lists the stack's left entries, the hole's entries, then its right entries |
| Path.InOrderRebalance | inline_avl.h:331-386 | rebalancing a stack lists the same entries in the same order as rebuilding it |
| Path.RebalanceFrameHeight | inline_avl.h:337-340 | rebalancing never reads the height a node had when it was pushed |
| Path.OrderedFocus | inline_avl.h:145-180 | every subtree of an ordered tree is ordered |
| Path.FillInOrder | inline_avl.h:145-180 | a tree rebuilt from one stacked node lists that node's left entries, the hole's entries, then its right entries |
| Path.PlugHeight | inline_avl.h:145-180 | a tree is at least as high as a path into it is long |
| Path.Dive | avl.c:351-388 | the walk stacks exactly the nodes above the found node or the empty slot; empty tree, found, missing-left and missing-right are told apart; the stack is never deeper than the tree |
| Path.DiveBelow | inline_avl.h:145-180 | on an ordered tree every entry left of the walk's hole is below the key |
| Path.DiveAbove | inline_avl.h:145-180 | on an ordered tree every entry right of the walk's hole is above the key |
| Path.DiveFinds | inline_avl.h:145-180 | on an ordered tree the walk reports found exactly when the key is stored |
| Path.RightmostPath | inline_avl.h:497-506 | the walk to the largest node of a subtree turns right at every step and ends at a node without right child |
| Path.LeftmostPath | avl.c:266-275 | the walk to the smallest node turns left at every step and ends at a node without left child |
| Path.AvlPlug | inline_avl.h:331-386 | an AVL tree seen through a path has an AVL focus and a path whose siblings fit the focus height |
| Path.PathOkAppend | inline_avl.h:331-386 | the path invariant splits over concatenation |
| Path.StepAvl | inline_avl.h:337-383 | one pop-and-repair over an AVL subtree within one of its old height yields an AVL node within one of the old node height |
| Path.RebalanceAvl | inline_avl.h:331-386 | popping the whole stack over a subtree whose height changed by at most one yields an AVL tree within one of the old height |
| InlineAvl.TreeInit | inline_avl.h:93-101 | the initial tree is valid and empty, with size and generation 0 |
| InlineAvl.AvlSize | inline_avl.h:122-127 | on a well-formed tree the reported size is the number of stored entries |
| InlineAvl.AvlHeight | inline_avl.h:114-120 | 0 for the empty tree; on a well-formed tree the real height |
| InlineAvl.SizeCountsKeys | inline_avl.h:122-127 | the stored size counts the tree's entries and its distinct keys |
| InlineAvl.HeightIsReal | inline_avl.h:104-120 | the reported height is the real height of a valid tree |
| InlineAvl.Add | inline_avl.h:388-429 | returns an entry with the requested key; the tree either stays as it was or grows by one with a new generation and the new entry returned |
| InlineAvl.AddDuplicate | inline_avl.h:408-416 | adding a present key leaves the tree unchanged and returns the stored entry |
| InlineAvl.InsertAtHole | inline_avl.h:406-419 | a leaf placed in the walk's empty slot and rebalanced gives a valid tree whose contents are the sorted insertion |
| InlineAvl.AddFresh | inline_avl.h:388-429 | adding an absent key keeps validity, bumps size and generation, inserts the entry in sorted position and adds exactly that key |
| InlineAvl.Get | inline_avl.h:431-452 | a returned entry is stored under the key; on an ordered tree nothing is returned only when the key is absent |
| InlineAvl.Rem | inline_avl.h:454-602 | absent: nothing changes; present: size drops by one, generation rises, and the detached node has its key, no children and height 0 |
| InlineAvl.NoLeftChildLeaf | inline_avl.h:507-525 | in an AVL node without left child the right child is a leaf |
| InlineAvl.ReplacementLast | inline_avl.h:535-550 | the replacement found down the left subtree has no right child and is its last entry |
| InlineAvl.ReplacementIsPredecessor | inline_avl.h:497-506 | on an ordered subtree the replacement holds its largest key |
| InlineAvl.Detach | inline_avl.h:476-592 | unlinking a node leaves the empty tree exactly when it was a childless root; `InlineAvl.DetachSpec` states the contents and balance |
| InlineAvl.RemoveLeafAt | inline_avl.h:476-489 | unlinking a childless node and rebalancing gives an AVL tree listing the path's entries on both sides of it |
| InlineAvl.SpliceInOrder | inline_avl.h:497-550 | splicing out the rightmost node of the left subtree and putting it in the removed node's place lists the left subtree, then the right subtree, between the path's entries |
| InlineAvl.DetachSpec | inline_avl.h:454-602 | unlinking a node from an AVL tree and rebalancing gives an AVL tree listing everything except that node, in order |
| InlineAvl.RemoveAtNode | inline_avl.h:454-602 | unlinking a node of a valid tree gives a valid tree with one entry fewer, equal to removing its key from the sorted contents |
| InlineAvl.RemAbsent | inline_avl.h:461-473 | removing an absent key changes nothing and returns nothing |
| InlineAvl.RemPresent | inline_avl.h:454-602 | removing a present key keeps validity, returns the stored value, updates size and generation, and removes exactly that key |
| KeyedAvl.TreeInit | avl.h:5 | the initial keyed tree is valid and empty |
| KeyedAvl.DiveCode | avl.c:351-388 | the status codes: 0 for an empty tree, 3 for found, and 1 or 2 for the missing side |
| KeyedAvl.Add | avl.c:153-190 | returns 0 and grows the tree by one, or returns −1 and leaves it unchanged |
| KeyedAvl.AddFresh | avl.c:153-190 | an absent key is added: result 0, validity kept, contents are the sorted insertion |
| KeyedAvl.AddDuplicate | avl.c:177-179 | a present key is refused with −1 and the tree is unchanged |
| KeyedAvl.Get | avl.c:192-208 | a returned value is stored under the key |
| KeyedAvl.GetSpec | avl.c:192-208 | on an ordered tree the lookup returns a value exactly when that entry is stored, and nothing exactly when the key is absent |
| KeyedAvl.Rem | avl.c:210-317 | absent: nothing changes; present: the size drops by one and the stored value is returned |
| KeyedAvl.Replace | avl.c:249-310 | the keyed unlinking leaves the empty tree exactly when the found node was a childless root; `KeyedAvl.ReplaceAgrees` relates it to the intrusive engine |
| KeyedAvl.ReplaceLeftAgrees | avl.c:256-265 | with a left subtree, the keyed engine's copy of the predecessor into the found node gives the intrusive engine's tree |
| KeyedAvl.ReplaceRightAgrees | avl.c:266-275 | with only a right child, which is a leaf, the keyed engine's copy of the successor gives the intrusive engine's tree |
| KeyedAvl.ReplaceAgrees | avl.c:249-310 | on a valid tree the keyed engine's unlinking, with its key comparison, builds the same tree as the intrusive engine's |
| KeyedAvl.RemPresent | avl.c:210-317 | removing a present key keeps validity and removes exactly that key from the sorted contents |
| KeyedAvl.RemAbsent | avl.c:215-219 | removing an absent key from an ordered tree changes nothing and returns nothing |
| KeyedAvl.AvlHeight | avl.c:319-323 | never negative, 0 for the empty tree, and the real height of a well-formed tree |
| KeyedAvl.HeightIsReal | avl.c:319-323 | the reported height is the real height of a valid tree |
| KeyedAvl.BalanceBounded | avl.c:72-80 | every node of an AVL tree has balance in −1..1, computed as right height minus left height |
| KeyedAvl.StackFits | avl.c:9-22 | in a tree of height at most 36 the walk, and the removal's extra walk, fit in the 36-slot stack |
| Iterator.Code | avl_it.c:43-45 | the return codes: −1 invalidated, 1 end, 0 yielded |
| Iterator.Reverse | avl_it.c:59-71 | the reversed sequence lists the same entries from the other end |
| Iterator.PushSpine | avl_it.c:59-71 | pushing the spine of a subtree owes exactly that subtree's walk before what was already owed, and stays within capacity |
| Iterator.Start | avl_it.c:81-96 | a fresh iterator remembers the tree's generation and owes exactly the tree's walk in the chosen direction |
| Iterator.Next | avl_it.c:46-78 | invalidated exactly when the generation changed; end exactly when nothing is owed; otherwise yields the first owed entry and owes the rest |
| Iterator.Drain | avl_it.c:46-96 | calling next until the end yields the whole walk: ascending forward and descending backward on an ordered tree |
| Iterator.WalkOrder | avl_it.c:59-71 | on an ordered tree the forward walk is increasing and lists every key once |
| Iterator.MutationInvalidates | avltest.c:504-525 | after a successful add or remove, the next step of an iterator started before it reports invalidation |
| Verifier.CheckHeight | avl_it.c:7-23 | the recursion succeeds exactly on trees whose balances are within −1..1 and whose child caches are exact, and returns the real height |
| Verifier.VerifyTree | avl_it.c:28-41 | the check passes exactly on AVL trees with exact caches, returning 0 |
| Verifier.CheckLocal | basic_test.c:92-119 | the check with its parent-child key comparisons passes only on balanced trees with exact caches, and passes on every such ordered tree |
| Verifier.VerifyLocal | basic_test.c:124-137 | a passing tree is AVL; every valid tree passes |
| Verifier.LocalCheckMisses | basic_test.c:105-113 | a tree with a key in the wrong subtree passes the check |
| Verifier.CheckBounded | basic_test.c:92-119 | with key bounds passed down, the check succeeds exactly on balanced, cached, ordered trees within the bounds |
| Verifier.VerifyOrdered | basic_test.c:124-137 | the bounded check passes exactly on valid trees |
| Verifier.BoundedCheckCatches | basic_test.c:105-113 | the bounded check rejects the misordered tree |
| Scenarios.AscendingTen | avltest.c:166-214 | adding 0..9 to the keyed tree gives root 3, children 1 and 7, 5 and 8 under 7, 9 under 8, size 10 and height 4 |
| Scenarios.AddAscendingKeys | avltest.c:169-171 | adding keys in ascending order above all present keys keeps the tree well formed and adds exactly those keys |
| Scenarios.RemoveAscendingEmpties | avltest.c:203-210 | removing, in ascending order, exactly the keys a tree holds finds each one and ends with the empty tree of size 0 |
| Scenarios.AscendingTenEmpties | avltest.c:203-213 | removing 0..9 from the tree of ten keys finds every key and leaves size 0 and height 0 |
| Scenarios.AscendingThree | avltest.c:145-155 | adding 1, 2, 3 rotates to a tree of height 2 rooted at 2 |
| Scenarios.RemoveTwo | avltest.c:157 | removing the root 2 leaves 1 with right child 3 |
| Scenarios.EmptyAgain | avltest.c:158-162 | removing the last keys leaves height 0 and size 0 |
| Scenarios.AscendingSeven | avltest_08.c:24-27 | adding 1..7 to the intrusive tree gives the perfect tree rooted at 4 |
| Scenarios.RemoveRootOfSeven | avltest_08.c:64-75 | removing 4 puts 3 at the root, with 2 leaning left (balance −1) over 1 |
| Scenarios.CursorInvalidated | avltest.c:504-525 | an iterator over 1, 2, 3 yields 1, then reports invalidation after 5 is added |

## Left out

- Allocation, `free`, the element pointers and the `offsetof` glue: the value type `V` stands in for the user record.
- The comparison callbacks of the intrusive engine: keys are integers compared with `Compare`.
- The generation counter is unbounded. The C `unsigned` wraps after 2^32 mutations, and a stale iterator could then be accepted again. This is not modelled.
- InlineAvl.Add: total, with no stack parameter; the caller's path buffer and what happens when it is too small are not modelled (the intrusive `astack` at inline_avl.h:23-26 has no capacity field).
- InlineAvl.Add: the node passed in is a fresh value, so it can never already be in the tree. `avl_base_add` overwrites the node's links and height before it looks for a duplicate (inline_avl.h:395-397), so re-adding a node that is already linked would corrupt the tree. The model cannot express that misuse.
- InlineAvl.Rem: total in the same way; the path buffer and its overflow are not modelled.
- KeyedAvl.Add: total; the 36-slot stack and the `assert` on a push into a full stack (avl.c:19) are not modelled. `KeyedAvl.StackFits` shows the walk fits whenever the tree is at most 36 high.
- KeyedAvl.Rem: total in the same way; `KeyedAvl.StackFits` also covers the extra walk to the replacement.
- BoundedStack.Push: requires room, because `stack_push` writes past a full buffer.
- Iterator.Start: requires a buffer covering the tree height, for the same reason.
- The avl.c stack helpers (avl.c:16-44): they are the fixed-size form of `astack.h` and are modelled by `BoundedStack` and `KeyedAvl.StackFits`.
- `create_new_node`, `delete_node` and the avl.c iterator fields: these are allocation and glue.
- The min/max-key and helper functions used by tests: they are not part of the balancing core.
- Concurrency: the library is single-threaded.
- Int overflow of `size` in avl.h: it is an `int` counter, and the model treats it as unbounded.
- The `assert` calls of the C code become proved facts. inline_avl.h:10-12 defines an empty `assert` only when none is defined yet. That definition never reaches avl.c: the only library header avl.c includes is avl.h, which does not include inline_avl.h, and avl.c includes `<assert.h>` itself (avl.c:5). So the asserts of avl.c are live unless `NDEBUG` is set. Test programs such as basic_test.c and avltest_08.c include `<assert.h>` before the library's headers, so the empty definition does not apply there either. A failing assert would abort the program, but the model has no abort. The asserts about the tree's shape are proved to hold. The keyed stack's assert holds for trees at most 36 high, by `KeyedAvl.StackFits`.

## Findings

| source | as written | input that shows it | evidently intended | confidence | as-written member | corrected member |
|---|---|---|---|---|---|---|
| basic_test.c:105-113 | the checker compares each node's key only with its immediate children | the tree 3(1(-, 4), 5): 4 is below 3 on the left side, yet every parent-child pair is in order | every key of the left subtree below the node and every key of the right subtree above it | not executed | Verifier.LocalCheckMisses | Verifier.VerifyOrdered |
