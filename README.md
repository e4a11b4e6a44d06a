# pathcomp: prefix-compressed path chain

This project models the path store of `pathcomp.c`. It is a singly linked chain of nodes. Each node holds a 64-bit membership mask (`letters_table`), a `next` link and a `weight`. `insert_path` walks a path of small identifiers. At each identifier it sets the identifier's bit in the current node. It then counts the bits set above that identifier. When the count is positive, it follows `next` that many times. When the count is zero, it splices a zeroed node in right after the current node and moves onto it. At the end it marks the node it stands on as the end of a path and stores the weight there. `count_uper_bits` does the counting. `free_path` walks the chain and releases every node.

Layout:

- `mask.dfy` (module `Mask`) holds the membership mask and `count_uper_bits`. `CountUpperBits` is the counting loop. It is proved against `UpperBits`, and lemmas state what that count means.
- `chain.dfy` (module `Chain`) describes the chain as a value. The root is `chain[0]`, `chain[i + 1]` is the `next` of `chain[i]`, and NULL is position `|chain|`. `Step`, `Run` and `Insert` describe one loop iteration, the whole loop and the whole call. The `Extends` predicate says that an old chain still sits inside a new one, in order, and lemmas prove that every step and every insertion keeps this relation.
- `pathcomp.dfy` (module `PathComp`) holds the class `PathChain`. Its `nodes` field is updated in place by `InsertPath`, which keeps the source's nested loops, and released by `FreePath`.
- `traces.dfy` (module `Traces`) works out concrete insertions on a fresh root.

A walk can follow `next` past the last node. Inserting `[2]`, `[1]` and `[0]` on a fresh root does this. The C code then dereferences NULL, at line 73, 69 or 87. The model reports this as the outcome `NullDereference`, with the chain as it stood when the cursor left the chain.

Three behaviours of the code are worth stating; the model follows the code in each:

- Inserting `[0, 1]` on a fresh root marks the third node as the end, not `root->next`. The assertions in `main` at pathcomp.c:118-119 expect the opposite. `Traces.FreshRootZeroOne` proves what the code does.
- An empty path is accepted. The loop at pathcomp.c:67 then runs zero times, and lines 87-88 mark the root as the end of a path.
- An identifier outside 0 .. 63 makes the shift `1ULL << pos` at pathcomp.c:69 undefined in C. The code does not check for it or report it, so `InsertPath` requires every identifier to be in range.

## Model

| member | source | states |
|---|---|---|
| `Mask.UpperBits` | pathcomp.c:48-56 | The number of bits of the mask set strictly above `pos`, the value `count_uper_bits` returns. It is at most 63 - pos, and it is 0 exactly when no recorded identifier lies above `pos`. |
| `Mask.CountUpperBits` | pathcomp.c:48-56 | The loop returns the number of recorded identifiers strictly above `pos`. This is at most 63 - pos, and 0 when pos >= 63. |
| `Mask.UpperBitsCounts` | pathcomp.c:45-56 | The count equals the size of the set of mask members greater than `pos`. It is at most 63 - pos. It is zero exactly when no member lies above `pos`. |
| `Mask.UpperBitsIgnoresLowBits` | pathcomp.c:50-51 | Two masks that agree on every bit above `pos` give the same count. Bits at or below `pos` do not matter. |
| `Mask.UpperBitsIgnoresOwnBit` | pathcomp.c:69-70 | Counting after OR-ing in bit `pos` gives the same `n` as counting on the mask before the OR. |
| `Chain.Step` | pathcomp.c:67-85 | One iteration of the loop: record `id` at the cursor, count the identifiers above it, then follow `next` that many times or splice in a zeroed node after the cursor and move onto it. Following `next` past the last node gives a NULL dereference. `id` ends up recorded at the cursor, nodes before the cursor are untouched, the chain grows by at most one node, and the cursor only moves forward. |
| `Chain.Run` | pathcomp.c:67-86 | The loop over the path from iteration `k` on, stopping at the first NULL dereference. Nodes before the cursor are never touched, the cursor never moves back, and each remaining identifier adds at most one node. |
| `Chain.Insert` | pathcomp.c:65-89 | `insert_path` on a chain: the loop from the root, then the node the cursor ends on is marked as an end and given `weight`. When the walk ends on a node, that node is in the chain, marked, and carries `weight`. The chain grows by at most one node per identifier. |
| `Chain.StepAdvances` | pathcomp.c:68-74 | When the count is positive, no node is added. Only the cursor's node changes, and only by gaining `id`. The cursor moves exactly `n` places. If fewer than `n` nodes follow the cursor, the outcome is a NULL dereference. |
| `Chain.StepSplices` | pathcomp.c:69-84 | When the count is zero, the cursor's node gains `id`. Exactly one zeroed node (empty mask, not an end, weight 0) is inserted right after the cursor. The cursor's old successor comes right after the new node. Every other node keeps its order, and the cursor moves onto the new node. |
| `Chain.StepExtends` | pathcomp.c:67-85 | One loop iteration keeps the old chain embedded in order with the root first. Masks only gain members, end marks and weights do not change, and at most one node is added. |
| `Chain.RunExtends` | pathcomp.c:67-86 | The whole loop keeps the old chain as an ordered subsequence of the new one, root first. Masks only grow and no end mark or weight changes. Every node that was not there before is unmarked with weight 0. The chain grows by at most one node per remaining identifier. |
| `Chain.InsertExtends` | pathcomp.c:65-89 | When `insert_path` ends on a node, that node is marked as an end and carries `weight`. No other node's end mark or weight changes. The old chain stays embedded in order, masks only grow, and the length grows by at most `path_len`. |
| `PathComp.PathChain.InsertPath` | pathcomp.c:65-89 | The in-place insertion loop, with its inner `next`-following loop and its splice, leaves the chain and outcome that `Insert` gives for the old chain. |
| `PathComp.PathChain.FreePath` | pathcomp.c:95-102 | The walk releases every node of the chain exactly once, in chain order from the root. Afterwards no chain is left. |
| `PathComp.PathChain.constructor` | pathcomp.c:109-110 | A new chain is a single zeroed root node, as `calloc` returns it. |
| `Traces.FreshRootZeroOne` | pathcomp.c:113-119 | Inserting `[0, 1]` with weight 10 on a fresh root gives three nodes: `{0}`, then `{1}`, then an end node with weight 10. So `root->next` is not the end node. |
| `Traces.SamePathTwiceGrows` | pathcomp.c:67-84 | Inserting `[0]` twice on a fresh root splices a node each time, so the chain grows from 2 to 3 nodes. Re-insertion is not a no-op. |
| `Traces.DescendingSingletonsRunOff` | pathcomp.c:71-87 | Inserting `[2]`, then `[1]`, then `[0]` on a fresh root follows `next` past the last node. At the root the count is 2, but only one node follows it. The inner loop at lines 72-74 leaves the cursor at NULL, and line 87 dereferences it. |

## Left out

- `main` (pathcomp.c:108-139) is left out. It is the test harness and its output. Its expectations are not postconditions of `insert_path`, and `Traces.FreshRootZeroOne` shows where they differ from the code.
- Allocation failure is left out: `calloc` returning NULL, the message and `exit(1)` at pathcomp.c:76-80. Adding a node never fails in the model.
- The release of memory by `free` is left out. `FreePath` models the walk and the order of release, not the allocator.
- The conversion of the `int weight` argument to `uint32_t` (pathcomp.c:65, 88) is not modelled. The weight is taken as a value already in `[0, 2^32)`.
- The end mark `letters_table |= 1ULL << LLA` (pathcomp.c:87) is a shift by the full width of a 64-bit type. That is undefined behaviour under ISO C11 section 6.5.7. The model uses a separate `terminal` field instead.
- The `uint64_t` mask is modelled as the set of its set bit positions, drawn from 0 .. 63. Bit-level operations on a 64-bit word are not modelled; for these positions the set operations are equivalent.
- Node identity and pointer aliasing are not modelled. The chain is the sequence of nodes reachable from the root, and a splice inserts into that sequence. Pointers held outside the chain cannot be expressed.
- `NullDereference` does not say which statement dereferences NULL (line 73, 69 or 87). In all three cases the chain is the same.
- `Chain.InsertExtends` bounds growth at one node per identifier of the path. It does not state the total as a count of splicing steps. That exact change is stated per step, by `Chain.StepAdvances` (no growth) and `Chain.StepSplices` (one node).
- `Mask.CountUpperBits` requires `pos` to be in `-1 .. INT_MAX - 1`. Below -1 the loop shifts by a negative amount. At `INT_MAX`, `pos + 1` overflows. Both are undefined in C.
