# Verified model of the key-value store, its coroutine scheduler and the thread pool

This project models four parts of the repository in Dafny and proves what they promise:

- the **balanced search trees**: the red-black tree of the key-value store, with parent links and one shared
  sentinel; the red-black tree of the coroutine library, with null leaves and a deletion that moves nodes; and
  the top-down splay tree of the same header;
- the **key-value store**: three engines (array, red-black tree, chained hash table) behind one command
  interpreter;
- the **coroutine scheduler**: the ready queue, the wait tree keyed by descriptor and the sleep tree keyed by
  deadline;
- the **task queue of the thread pool** under any interleaving of its threads.

## How the proofs are built

Code that changes things in place is a class with the fields of the program, and its loops are loops. A tree in
the heap has a ghost shape, an algebraic tree whose items are the node objects. A loop that climbs or descends
works at a hole: `Trees.Context` is the tree around the hole, and moving the hole is a function. The proof of a
tree operation then has three layers:

1. `RedBlack` proves the colour arithmetic of one pass of each repair loop on such values, once for both trees
   and both mirror images;
2. `Links` proves which fields of which nodes differ when the shape changes by a rotation, a splice, an attachment
   or an exchange of two nodes, so that a method that overwrites exactly those fields is right without following
   pointers;
3. the classes (`KvRbtree.RbTree`, `NtyRbTree.Head`) do the assignments of the program and join the two layers.
   The mirrored branches of the program are kept as mirrored methods.

The splay tree uses the same trees with two contexts, the left and the right part that the loop builds.

The engines are proved against finite maps from keys to values, `Contents`. The interpreter is proved against the
step functions `EngineReply` and `EngineNext`, and those against `Reply` and `Next` of a plain finite map. What a
client is told by each verb is spelled out in `KvStore.ReplyTexts` and on `KvStore.Store.Handle`.

A resume of a coroutine is an abstract step: what its body does up to the next point where it gives up the
processor is a list of acts chosen by an arbitrary function, and so are the events that the poller reports. A body
that would wait for a descriptor somebody already waits for is taken to return instead; all other lists of acts are
covered. The ready queue and the wait tree are the linked structures of the program: `NtyPlaces` keeps both, over
`NtyQueue.TailQueue` and `NtyRbTree.Head`, and the scheduler runs on it. `NtySleep` runs on `NtyRbTree.Head` too.
A run of the scheduler is tied, turn by turn, to what the bodies and the events decide (`NtySchedule.PlayedAll`), and a
run of the sleep tree to an abstract run of a clock and of deadlines (`NtySleep.SimRun`).

The thread pool is modelled twice: `ThreadPool` has the two critical sections on the heap, and `ThreadPoolRun` lets
any number of threads take single accesses in any order. `ThreadPoolHeap` shows that a critical section on the heap
does what its steps do to the state.

| file | what it has |
|---|---|
| `Trees.dfy`, `RedBlack.dfy`, `Links.dfy` | trees with a hole, red-black invariants and repair passes, linked nodes |
| `KvRbtree.dfy`, `KvArray.dfy`, `KvHash.dfy` | the three engines |
| `KvTokens.dfy`, `KvStore.dfy` | splitting a request, the command interpreter and whole runs |
| `NtyRbTree.dfy`, `NtySplay.dfy`, `NtyQueue.dfy` | the trees and the tail queue of the coroutine library |
| `NtySchedule.dfy`, `NtySleep.dfy` | the scheduler's places and passes, its deadlines |
| `NtyPlaces.dfy` | the ready queue and the wait tree of the scheduler as linked structures |
| `ThreadPool.dfy`, `ThreadPoolRun.dfy`, `ThreadPoolHeap.dfy` | the task queue, its interleaved use, and how they agree |
| `CStrings.dfy`, `Options.dfy`, `Pairs.dfy`, `Sequences.dfy` | shared notions |

`dafny verify dfyconfig.toml` checks everything.

## Where the code and its own expectations differ

- The test client expects `MOD`, `RMOD` and `HMOD` to succeed. There are no such commands, and the reply is
  `NO MATCH` (`KvStore.NoModify`, `KvStore.Store.Handle`).
- The test client expects `ERROR` from `RGET` after `RDEL`, and from `HGET` after `HDEL`. The reply is `NO EXIST`, as
  for the array (`KvStore.GoneAfterDel`).
- A full array refuses to set even a key that it holds, where the other engines update it. The three engines
  therefore agree exactly as long as the array has fewer than 1024 keys at every set (`KvStore.EngineIsMap`);
  `KvStore.FullArrayDiffers` has a run from the empty store where they do not.
- The slot of a key is the remainder of a sum of signed bytes, so keys with bytes above 127 may have a negative slot:
  the key of the one byte 128 has the slot -128 (`KvHash.NoSlot`). `KvHash.HashInTable` says exactly for which keys
  the slot is in the table, and the operations of the hash engine ask for such a key.
- `nty_schedule_sched_wait` adds the number of a status bit instead of the bit. For reading that adds nothing, for
  writing it adds bit 0. The model does the same; since every waiter's status is cleared before it runs again, the
  assertion at the top of that function still holds for coroutines that wait for one descriptor at a time.
- `SPLAY_REMOVE` returns its argument, which is the element that it takes out exactly if the argument was in the tree
  (`NtySplay.Head.Remove`); `NtySplay.Head.RemoveTwin` has an input where it was not.

## Model

| member | source | states |
|---|---|---|
| RedBlack.ValidMeans | Chapter9/9.1.1-kv存储架构/kvstore_rbtree.c:116-165 | a red-black tree has a black root, the parent of a red node is black, and every way from a leaf to the root passes the same number of black nodes |
| RedBlack.MeansValid | Chapter9/9.1.1-kv存储架构/kvstore_rbtree.c:116-165 | and every tree with these properties is a red-black tree |
| RedBlack.InsertStepKeeps | Chapter9/9.1.1-kv存储架构/kvstore_rbtree.c:116-163 | one pass of the insertion repair keeps the tree sound but for at most one violation, a red node in the hole below a red parent, and moves the hole strictly closer to the root; with a black uncle the pass also ends the loop |
| RedBlack.InsertStepRotates | Chapter9/9.1.1-kv存储架构/kvstore_rbtree.c:131-138 | a pass with a black uncle is exactly the one or two rotations and two repaints of the program |
| RedBlack.InsertEnd | Chapter9/9.1.1-kv存储架构/kvstore_rbtree.c:164 | when the loop ends, painting the root black gives a red-black tree |
| RedBlack.DeleteStepKeeps | Chapter9/9.1.1-kv存储架构/kvstore_rbtree.c:232-296 | one pass of the deletion repair keeps the deficit of one black node in one place, and either moves the hole strictly up or leaves it at its depth on a red node, which ends the loop: this is the termination measure that survives the red-sibling rotation |
| RedBlack.RedSiblingKeeps | Chapter9/9.1.1-kv存储架构/kvstore_rbtree.c:237-243 | rotating a red sibling above the parent keeps the deficit in place, one level deeper, below a black sibling |
| RedBlack.BlackSiblingStepKeeps | Chapter9/9.1.1-kv存储架构/kvstore_rbtree.c:244-263 | with a black sibling a pass moves the deficit up or repairs it; a red parent ends the loop |
| RedBlack.DeleteEnd | Chapter9/9.1.1-kv存储架构/kvstore_rbtree.c:297 | when the loop ends, painting the node in the hole black gives a red-black tree |
| RedBlack.SpliceKeeps | Chapter9/9.1.1-kv存储架构/kvstore_rbtree.c:312-332 | taking out a node with at most one child leaves a red-black tree if the node was red, and a deficit of one at its place if it was black |
| RedBlack.RenamedKeeps | Chapter9/9.1.1-kv存储架构/Ntyco/core/nty_tree.h:540-552 | exchanging one node for another above a deficit changes neither the deficit nor validity |
| RedBlack.PathBound | Chapter9/9.1.1-kv存储架构/kvstore_rbtree.c:356-390 | 2^steps <= (n+1)^2 for every path of a red-black tree of n nodes |
| Links.RotatedShape | Chapter9/9.1.1-kv存储架构/kvstore_rbtree.c:68-112 | a rotation of the shape changes exactly the links of the two nodes, of the subtree that moves and of the node above, and keeps the in-order sequence |
| Links.SplicedShape | Chapter9/9.1.1-kv存储架构/kvstore_rbtree.c:312-332 | taking out a node with one child changes one link of its parent and the parent link of its child, and no other node |
| Links.ExchangedShape | Chapter9/9.1.1-kv存储架构/Ntyco/core/nty_tree.h:540-552 | putting a new node in the place of another changes its four fields, one link above and the parent links of the two children, and no other node |
| Links.AttachedShape | Chapter9/9.1.1-kv存储架构/kvstore_rbtree.c:184-194 | hanging a node into an empty place changes one link of one node and adds it at that place of the sequence |
| KvRbtree.RbTree.LeftRotate | Chapter9/9.1.1-kv存储架构/kvstore_rbtree.c:68-85 | the heap holds the rotated shape, whose sequence is unchanged |
| KvRbtree.RbTree.RightRotate | Chapter9/9.1.1-kv存储架构/kvstore_rbtree.c:89-112 | the mirror image of the left rotation |
| KvRbtree.RbTree.InsertFixup | Chapter9/9.1.1-kv存储架构/kvstore_rbtree.c:114-165 | from a heap with at most the one violation to a red-black tree with consistent parent links and the same in-order nodes |
| KvRbtree.RbTree.Insert | Chapter9/9.1.1-kv存储架构/kvstore_rbtree.c:167-228 | a fresh key enters at its sorted place in a red-black search tree; for a present key the nodes and pairs stay as they were |
| KvRbtree.RbTree.DeleteFixup | Chapter9/9.1.1-kv存储架构/kvstore_rbtree.c:230-298 | from a deficit at `x`, whose parent link is right even when `x` is the sentinel, to a red-black tree with a black sentinel and the same in-order nodes |
| KvRbtree.RbTree.Successor | Chapter9/9.1.1-kv存储架构/kvstore_rbtree.c:52-65 | the next node in the in-order sequence, or the sentinel after the last |
| KvRbtree.RbTree.Splice | Chapter9/9.1.1-kv存储架构/kvstore_rbtree.c:312-332 | `y` leaves the links, and the node or sentinel `x` that takes its place has the parent of `y` as its parent |
| KvRbtree.RbTree.Delete | Chapter9/9.1.1-kv存储架构/kvstore_rbtree.c:300-354 | the pair of `z` leaves the sorted sequence, one node leaves the tree and carries exactly that pair, and the rest is a red-black search tree |
| KvRbtree.RbTree.Search | Chapter9/9.1.1-kv存储架构/kvstore_rbtree.c:356-390 | returns a node with the key iff the key is in the tree, after steps with 2^steps <= (n+1)^2 for n keys |
| KvRbtree.RbTree.Exist | Chapter9/9.1.1-kv存储架构/kvstore_rbtree.c:459-468 | 0 iff the key is in the map of the engine, else -1 |
| KvRbtree.RbTree.Get | Chapter9/9.1.1-kv存储架构/kvstore_rbtree.c:533-540 | the value of the key in the map, or null |
| KvRbtree.RbTree.Mod | Chapter9/9.1.1-kv存储架构/kvstore_rbtree.c:471-485 | updates a present key in the map, else -1 and no change |
| KvRbtree.RbTree.Set | Chapter9/9.1.1-kv存储架构/kvstore_rbtree.c:488-530 | the map after a set, whether the key was present or not |
| KvRbtree.RbTree.Del | Chapter9/9.1.1-kv存储架构/kvstore_rbtree.c:543-561 | the map without the key, or -1 and no change |
| KvRbtree.RbTree.Count | Chapter9/9.1.1-kv存储架构/kvstore_rbtree.c:564-567 | the size of the map |
| NtyRbTree.Head.RotateLeft | Chapter9/9.1.1-kv存储架构/Ntyco/core/nty_tree.h:325-343 | the heap holds the rotated shape, whose sequence is unchanged |
| NtyRbTree.Head.RotateRight | Chapter9/9.1.1-kv存储架构/Ntyco/core/nty_tree.h:346-363 | the mirror image of the left rotation |
| NtyRbTree.Head.InsertColor | Chapter9/9.1.1-kv存储架构/Ntyco/core/nty_tree.h:391-431 | from at most one violation to a red-black tree of the same elements in the same order |
| NtyRbTree.Head.RemoveColor | Chapter9/9.1.1-kv存储架构/Ntyco/core/nty_tree.h:434-509 | from a deficit whose parent is the given one, with an empty or a black place, to a red-black tree of the same elements in the same order |
| NtyRbTree.Head.Transplant | Chapter9/9.1.1-kv存储架构/Ntyco/core/nty_tree.h:540-552 | the successor takes over colour, children and parent of the removed element and every link to it |
| NtyRbTree.Head.MoveUp | Chapter9/9.1.1-kv存储架构/Ntyco/core/nty_tree.h:520-558 | after the successor was moved, the parent handed on is the real parent of the deficient place, also when the successor was the direct child of the removed element |
| NtyRbTree.Head.Remove | Chapter9/9.1.1-kv存储架构/Ntyco/core/nty_tree.h:511-576 | exactly the given element leaves; every other element object stays, with its key, in the same order, and the result is a red-black search tree with consistent links |
| NtyRbTree.Head.Insert | Chapter9/9.1.1-kv存储架构/Ntyco/core/nty_tree.h:579-606 | a fresh key joins at its sorted place; for a present key its element is returned and the elements and their order stay |
| NtyRbTree.Head.Find | Chapter9/9.1.1-kv存储架构/Ntyco/core/nty_tree.h:609-623 | the element with the key, or null iff there is none |
| NtyRbTree.Head.NFind | Chapter9/9.1.1-kv存储架构/Ntyco/core/nty_tree.h:626-644 | the element with the least key not below the given one, or null if all keys are below |
| NtyRbTree.Head.Next | Chapter9/9.1.1-kv存储架构/Ntyco/core/nty_tree.h:647-666 | the element after the given one in key order, or null |
| NtyRbTree.Head.Prev | Chapter9/9.1.1-kv存储架构/Ntyco/core/nty_tree.h:669-688 | the element before the given one in key order, or null |
| NtyRbTree.Head.StepsInverse | Chapter9/9.1.1-kv存储架构/Ntyco/core/nty_tree.h:647-688 | stepping forward and stepping back undo each other |
| NtyRbTree.Head.MinMax | Chapter9/9.1.1-kv存储架构/Ntyco/core/nty_tree.h:690-703 | the first element for a negative argument, else the last; null in an empty tree |
| NtyRbTree.Head.ForEach | Chapter9/9.1.1-kv存储架构/Ntyco/core/nty_tree.h:717-720 | iterating from the minimum visits the whole sequence in order, each element once |
| Sequences.NeighboursInverse | Chapter9/9.1.1-kv存储架构/Ntyco/core/nty_tree.h:647-688 | in a sequence without repetition the element after the one before is the element itself, and conversely |
| NtySplay.RotatedParts | Chapter9/9.1.1-kv存储架构/Ntyco/core/nty_tree.h:73-83 | a rotation of the middle tree changes the links of two nodes and keeps the three parts apart |
| NtySplay.LinkLeftParts | Chapter9/9.1.1-kv存储架构/Ntyco/core/nty_tree.h:85-89 | moving the middle tree without its left subtree to the right part changes one open link |
| NtySplay.LinkRightParts | Chapter9/9.1.1-kv存储架构/Ntyco/core/nty_tree.h:91-95 | moving the middle tree without its right subtree to the left part changes one open link |
| NtySplay.AssembledKids | Chapter9/9.1.1-kv存储架构/Ntyco/core/nty_tree.h:97-102 | assembling the parts changes the links of the root and the two open links only, and makes one tree of the same nodes |
| NtySplay.AssembledOrder | Chapter9/9.1.1-kv存储架构/Ntyco/core/nty_tree.h:97-102 | assembling restores the sequence: left part, middle tree, right part |
| NtySplay.Head.PassLeft | Chapter9/9.1.1-kv存储架构/Ntyco/core/nty_tree.h:198-207 | a pass to the left keeps left part ++ middle ++ right part equal to the original sequence with the key bracketed, and shrinks the middle tree or stops where the key is absent |
| NtySplay.Head.PassRight | Chapter9/9.1.1-kv存储架构/Ntyco/core/nty_tree.h:208-218 | the mirror image of the pass to the left |
| NtySplay.Head.Splay | Chapter9/9.1.1-kv存储架构/Ntyco/core/nty_tree.h:189-221 | a search tree of the same elements whose root is the element with the key if there is one, and otherwise next to where it would be |
| NtySplay.Head.Find | Chapter9/9.1.1-kv存储架构/Ntyco/core/nty_tree.h:114-122 | the element with the key iff there is one, and it is then the root |
| NtySplay.Head.Insert | Chapter9/9.1.1-kv存储架构/Ntyco/core/nty_tree.h:146-167 | a fresh key joins at its sorted place; for a present key its element is returned and the sequence is unchanged |
| NtySplay.Head.NoRightChild | Chapter9/9.1.1-kv存储架构/Ntyco/core/nty_tree.h:179-182 | after the left subtree was splayed for a key above all of its keys, its root has no right child |
| NtySplay.Head.Remove | Chapter9/9.1.1-kv存储架构/Ntyco/core/nty_tree.h:169-187 | exactly the element with the key leaves and no other; the argument is returned, or null if the key is absent; the argument is the element that left iff it was in the tree |
| NtySplay.Head.RemoveTwin | Chapter9/9.1.1-kv存储架构/Ntyco/core/nty_tree.h:169-187 | a tree with one element and another element with its key: removing the other one takes the first out and returns the other |
| NtyQueue.TailQueue.InsertTail | Chapter9/9.1.1-kv存储架构/Ntyco/core/nty_queue.h:530-538 | the entry joins at the end |
| NtyQueue.TailQueue.Remove | Chapter9/9.1.1-kv存储架构/Ntyco/core/nty_queue.h:548-562 | the entry leaves from any place and the others keep their order |
| NtyQueue.TailQueue.First | Chapter9/9.1.1-kv存储架构/Ntyco/core/nty_queue.h:464 | the first entry, or null |
| NtyQueue.TailQueue.Last | Chapter9/9.1.1-kv存储架构/Ntyco/core/nty_queue.h:540-541 | the last entry, or null: reading a link as a queue head finds the link before it |
| NtyQueue.TailQueue.Prev | Chapter9/9.1.1-kv存储架构/Ntyco/core/nty_queue.h:545-546 | the entry before, or null |
| NtyQueue.TailQueue.Concat | Chapter9/9.1.1-kv存储架构/Ntyco/core/nty_queue.h:451-460 | the entries of the second queue follow those of the first, and the second queue is empty |
| CStrings.StrCmpTransitive | Chapter9/9.1.1-kv存储架构/kvstore_rbtree.c:176-181 | the order of `strcmp` is transitive, which the search tree needs |
| CStrings.StrCmpDecides | Chapter9/9.1.1-kv存储架构/kvstore_rbtree.c:185-190 | the first differing byte decides, as an unsigned number, and a proper prefix is less |
| Pairs.ToMapRemoved | Chapter9/9.1.1-kv存储架构/kvstore_array.c:142-165 | removing one of the pairs with distinct keys removes its key from the map they stand for |
| Pairs.ToMapInserted | Chapter9/9.1.1-kv存储架构/kvstore_array.c:104-122 | adding a pair with a fresh key anywhere adds it to the map |
| KvArray.ArrayEngine.Exist | Chapter9/9.1.1-kv存储架构/kvstore_array.c:47-58 | the index of the key, or -1 iff the map does not have it |
| KvArray.ArrayEngine.Mod | Chapter9/9.1.1-kv存储架构/kvstore_array.c:61-88 | updates a present key, else returns 1 and changes nothing |
| KvArray.ArrayEngine.Set | Chapter9/9.1.1-kv存储架构/kvstore_array.c:91-125 | the map after a set; a full table answers -1 and changes nothing, even for a key it holds |
| KvArray.ArrayEngine.Get | Chapter9/9.1.1-kv存储架构/kvstore_array.c:128-139 | the value of the key in the map, or null |
| KvArray.ArrayEngine.Del | Chapter9/9.1.1-kv存储架构/kvstore_array.c:142-165 | the slots behind the key move forward by one and the map loses exactly that key; -1 and no change if it is absent |
| KvArray.ArrayEngine.Count | Chapter9/9.1.1-kv存储架构/kvstore_array.c:167-170 | the size of the map |
| KvHash.HashInTable | Chapter9/9.1.1-kv存储架构/kvstore_hash.c:34-50 | the computed slot lies in the table iff the sum of the bytes as signed numbers is not negative or a multiple of the table size |
| KvHash.HashMeans | Chapter9/9.1.1-kv存储架构/kvstore_hash.c:34-50 | the sum adds each byte as a signed number, and the slot is its remainder by 1024 with the sign of the sum |
| KvHash.NoSlot | Chapter9/9.1.1-kv存储架构/kvstore_hash.c:34-50 | the key of the one byte 128 has the slot -128, outside the table |
| KvHash.HashSumRange | Chapter9/9.1.1-kv存储架构/kvstore_hash.c:40-49 | keys of the characters 1 to 127 always have a slot, and for keys that fit the receive buffer the sum fits an `int` |
| KvHash.Hash | Chapter9/9.1.1-kv存储架构/kvstore_hash.c:34-50 | the loop computes the specified slot |
| KvHash.HoldUpdated | Chapter9/9.1.1-kv存储架构/kvstore_hash.c:143-170 | updating a pair in its chain updates the map |
| KvHash.HoldInserted | Chapter9/9.1.1-kv存储架构/kvstore_hash.c:214-221 | a new pair at the head of its chain adds a key to the map |
| KvHash.HoldRemoved | Chapter9/9.1.1-kv存储架构/kvstore_hash.c:255-322 | removing a pair at any place of its chain removes its key from the map, and every other key is still found in the slot of its hash |
| KvHash.HashEngine.KeysApart | Chapter9/9.1.1-kv存储架构/kvstore_hash.c:14-30 | chains are acyclic and disjoint: no node and no key stands in two places of the table |
| KvHash.HashEngine.Get | Chapter9/9.1.1-kv存储架构/kvstore_hash.c:225-247 | the value of the key in the map, or null |
| KvHash.HashEngine.Exist | Chapter9/9.1.1-kv存储架构/kvstore_hash.c:134-141 | 0 iff the key is in the map, else -1 |
| KvHash.HashEngine.Mod | Chapter9/9.1.1-kv存储架构/kvstore_hash.c:143-170 | updates a present key, else -1 and no change |
| KvHash.HashEngine.Put | Chapter9/9.1.1-kv存储架构/kvstore_hash.c:172-222 | the map after a put, whether the key was present or not, with `count` its size |
| KvHash.HashEngine.Delete | Chapter9/9.1.1-kv存储架构/kvstore_hash.c:255-322 | the map without the key, for a head and for a node inside a chain, with `count` its size; -1 and no change if it is absent |
| KvHash.HashEngine.Count | Chapter9/9.1.1-kv存储架构/kvstore_hash.c:250-253 | the size of the map |
| KvTokens.WordsJoined | Chapter9/9.1.1-kv存储架构/kvstore.c:148-164 | tokens joined by single spaces are found again by the splitting |
| KvTokens.WordsSpread | Chapter9/9.1.1-kv存储架构/kvstore.c:148-164 | whatever spaces stand before, between and behind them, the tokens of a line are found, in order and no others |
| KvTokens.LineSpread | Chapter9/9.1.1-kv存储架构/kvstore.c:148-164 | every line is made of spaces and of the tokens that are found in it |
| KvTokens.WordsAreWords | Chapter9/9.1.1-kv存储架构/kvstore.c:148-164 | every token found is not empty and has no space |
| KvTokens.SplitToken | Chapter9/9.1.1-kv存储架构/kvstore.c:148-164 | the loop finds the maximal runs of characters other than the space |
| KvStore.CommandIndex | Chapter9/9.1.1-kv存储架构/kvstore.c:13-38 | each command text stands at the position of its engine and verb, and at no other |
| KvStore.CommandsKnown | Chapter9/9.1.1-kv存储架构/kvstore.c:13-38 | the table has the commands of the three engines and no others |
| KvStore.DecimalReads | Chapter9/9.1.1-kv存储架构/kvstore.c:261-274 | the count is written as the decimal number that reads back as the count, without a leading zero |
| KvStore.CountText | Chapter9/9.1.1-kv存储架构/kvstore.c:261-274 | a count is answered with the row of digits, without a leading zero, that stands for the size of the map, cut to 1023 characters; a size that fits an int is never cut |
| KvStore.ReplyTexts | Chapter9/9.1.1-kv存储架构/kvstore.c:184-275 | verb by verb, the reply text and the new map of every engine: GET answers the value cut to 1023 characters or NO EXIST, EXIST answers EXISTED or NO EXIST, DEL answers SUCCESS or NO EXIST, SET answers ERROR iff the array holds 1024 keys |
| KvStore.Appended | Chapter9/9.1.1-kv存储架构/kvstore.c:474-490 | replies and state of a run extended by one request |
| KvStore.RunAt | Chapter9/9.1.1-kv存储架构/kvstore.c:166-471 | each reply of a run is that of the state to which the requests before it lead, in every engine |
| KvStore.MapRunAt | Chapter9/9.1.1-kv存储架构/kvstore.c:166-471 | the same for the finite map |
| KvStore.RoomMeans | Chapter9/9.1.1-kv存储架构/kvstore_array.c:91-125 | there is room iff the map has fewer than 1024 keys before every request to set one |
| KvStore.EngineIsMap | Chapter9/9.1.1-kv存储架构/kvstore.c:166-471 | an engine answers a run of requests like a finite map iff it is not the array or the array has fewer than 1024 keys at every set; then its state is also that of the map |
| KvStore.FullArrayDiffers | Chapter9/9.1.1-kv存储架构/kvstore_array.c:91-125 | after 1024 sets of different keys from the empty store, one more set of any of those keys is answered ERROR by the array and SUCCESS by the tree and the hash table |
| KvStore.Store.HandlePlain | Chapter9/9.1.1-kv存储架构/kvstore.c:184-275 | reply and new map of the array commands |
| KvStore.Store.HandleTree | Chapter9/9.1.1-kv存储架构/kvstore.c:278-369 | reply and new map of the red-black tree commands |
| KvStore.Store.HandleTable | Chapter9/9.1.1-kv存储架构/kvstore.c:372-463 | reply and new map of the hash commands |
| KvStore.Store.FindCommand | Chapter9/9.1.1-kv存储架构/kvstore.c:171-176 | the loop over the command table finds the command, or its end for any other token |
| KvStore.Store.Handle | Chapter9/9.1.1-kv存储架构/kvstore.c:166-471 | every command gets the reply text that its verb asks for, spelled out, changes the map of its engine by its verb, and changes no other engine; any other first token gets NO MATCH and changes nothing |
| KvStore.Store.SetThenGet | Chapter9/9.1.1-kv存储架构/kvstore.c:184-463 | on each engine, after a set that is answered SUCCESS the next get of the key answers the value, cut to 1023 characters; the only other answer is ERROR of the array, and then no engine changes |
| KvStore.Store.Serve | Chapter9/9.1.1-kv存储架构/kvstore.c:474-490 | the same from a received line; a line without tokens leaves the last reply |
| KvStore.Store.LineAsks | Chapter9/9.1.1-kv存储架构/kvstore.c:148-164 | a line built from a request is taken apart into that request |
| KvStore.Store.RequestLine | Chapter9/9.1.1-kv存储架构/kvstore.c:13-16 | the lines of the protocol: the prefix of the engine, the verb, and the arguments with one space before each |
| KvStore.Store.RunAll | Chapter9/9.1.1-kv存储架构/kvstore.c:166-471 | over any run of received lines that ask the three engines for the same requests, replies and states are those of the step functions |
| KvStore.Store.Lockstep | Chapter9/9.1.1-kv存储架构/kvstore.c:166-471 | received lines that ask for the plain, R and H form of the same requests in turn: R and H replies and states are those of a finite map, and the plain replies equal them iff the array has fewer than 1024 keys at every set |
| KvStore.Store.LockstepClient | Chapter9/9.1.1-kv存储架构/kvstore.c:148-490 | the same for the lines that a client builds from requests made of words |
| NtyPlaces.Places.Add | Chapter9/9.1.1-kv存储架构/Ntyco/core/nty_coroutine.c:299-349 | a new coroutine brings its own link and its own tree node, and queue and tree stay as they are |
| NtyPlaces.Places.Push | Chapter9/9.1.1-kv存储架构/Ntyco/core/nty_coroutine.c:258-277 | the coroutine joins the end of the linked ready queue |
| NtyPlaces.Places.Pop | Chapter9/9.1.1-kv存储架构/Ntyco/core/nty_schedule.c:331-332 | the first coroutine leaves the linked ready queue |
| NtyPlaces.Places.Last | Chapter9/9.1.1-kv存储架构/Ntyco/core/nty_schedule.c:329 | the last coroutine of the linked ready queue |
| NtyPlaces.Places.Find | Chapter9/9.1.1-kv存储架构/Ntyco/core/nty_schedule.c:121-131 | the search of the linked wait tree for a descriptor finds the coroutine that waits for it |
| NtyPlaces.Places.File | Chapter9/9.1.1-kv存储架构/Ntyco/core/nty_schedule.c:166-176 | the coroutine enters the linked wait tree under a descriptor nobody waits for |
| NtyPlaces.Places.Unfile | Chapter9/9.1.1-kv存储架构/Ntyco/core/nty_schedule.c:133-148 | the coroutine that waits for the descriptor leaves the linked wait tree, and nobody else |
| NtyPlaces.Places.Empties | Chapter9/9.1.1-kv存储架构/Ntyco/core/nty_schedule.c:261-266 | the head of the queue and the root of the tree are null iff nobody is ready and nobody waits |
| NtySchedule.Scheduler.OnePlace | Chapter9/9.1.1-kv存储架构/Ntyco/core/nty_schedule.c:316-363 | between resumes a live coroutine stands once in the linked ready queue or waits for one descriptor in the linked wait tree, but not both |
| NtySchedule.Scheduler.DoneWhenNoneAlive | Chapter9/9.1.1-kv存储架构/Ntyco/core/nty_schedule.c:261-266 | the loop's end test holds iff no coroutine is alive, and iff `spawned_coroutines` is 0 |
| NtySchedule.Scheduler.Spawn | Chapter9/9.1.1-kv存储架构/Ntyco/core/nty_coroutine.c:299-349 | the new coroutine joins the ready queue and is counted |
| NtySchedule.Scheduler.SearchWait | Chapter9/9.1.1-kv存储架构/Ntyco/core/nty_schedule.c:121-131 | finds the waiter of a registered descriptor and clears its status |
| NtySchedule.Scheduler.DeschedWait | Chapter9/9.1.1-kv存储架构/Ntyco/core/nty_schedule.c:133-148 | the waiter leaves the wait tree with an empty status, so nothing marked at end of file reaches the ready queue |
| NtySchedule.Scheduler.SchedWait | Chapter9/9.1.1-kv存储架构/Ntyco/core/nty_schedule.c:150-179 | if nobody waits for the descriptor and the coroutine's status is clean, which `Permitted` and the cleared status establish before every call, the assertion at the top holds and the coroutine is filed under the descriptor; for writing the status gets bit 0, for reading nothing; registered descriptors stay the wait keys |
| NtySchedule.OutcomeFirst | Chapter9/9.1.1-kv存储架构/Ntyco/core/nty_coroutine.c:258-277 | a body runs up to its first pause, poll, or fifth renice since the last yield, and has created the coroutines before it |
| NtySchedule.OutcomeNone | Chapter9/9.1.1-kv存储架构/Ntyco/core/nty_coroutine.c:258-277 | a body without such an act runs to its end |
| NtySchedule.Scheduler.Perform | Chapter9/9.1.1-kv存储架构/Ntyco/core/nty_coroutine.c:258-277 | one act: a creation queues one new coroutine, a pause queues the caller and stops, a renice does so when it is the fifth, a poll files the caller and stops; a stop sets the count of renices back to 0 |
| NtySchedule.Scheduler.Wake | Chapter9/9.1.1-kv存储架构/Ntyco/core/nty_socket.c:93-116 | before a waiter runs again it has left the wait tree and the poller with a clean status, and nobody else has moved |
| NtySchedule.Scheduler.Body | Chapter9/9.1.1-kv存储架构/Ntyco/core/nty_socket.c:93-116 | up to the first act that gives up the processor its acts create as many coroutines as they say, and it ends queued last behind its children, waiting for the descriptor it polled, or finished; after creations a pause ends it and nothing later is done; everybody else stays where he is |
| NtySchedule.Scheduler.Free | Chapter9/9.1.1-kv存储架构/Ntyco/core/nty_coroutine.c:175-188 | the finished coroutine is no longer counted |
| NtySchedule.Scheduler.Resume | Chapter9/9.1.1-kv存储架构/Ntyco/core/nty_coroutine.c:226-255 | from a coroutine taken from the queue, or still in the wait tree, to a state where everybody alive is in one place: the resumed one last in the queue behind its children, waiting, or gone, as its first act that gives up the processor says |
| NtySchedule.Scheduler.YieldReady | Chapter9/9.1.1-kv存储架构/Ntyco/core/nty_coroutine.c:258-277 | the running coroutine joins the end of the ready queue |
| NtySchedule.Scheduler.Dequeue | Chapter9/9.1.1-kv存储架构/Ntyco/core/nty_schedule.c:331-332 | the first of the queue, which never carries the end-of-file mark |
| NtySchedule.Scheduler.RunReady | Chapter9/9.1.1-kv存储架构/Ntyco/core/nty_schedule.c:329-341 | one pass resumes exactly the coroutines queued at its start, once each and in order, and each does its own acts from where the one before left off; what is queued meanwhile stays queued in order |
| NtySchedule.Scheduler.RunEvents | Chapter9/9.1.1-kv存储架构/Ntyco/core/nty_schedule.c:345-362 | every event of a batch of distinct registered descriptors, the last first, finds the coroutine that waited for it when the batch arrived, and resumes it with its own acts |
| NtySchedule.Scheduler.Deliver | Chapter9/9.1.1-kv存储架构/Ntyco/core/nty_schedule.c:343-362 | the poller is asked iff nobody is queued, and each reported event resumes the coroutine that waited for its descriptor when the batch arrived |
| NtySchedule.Scheduler.Pass | Chapter9/9.1.1-kv存储架构/Ntyco/core/nty_schedule.c:321-363 | one round runs everybody who was ready, in order; at the moment when the last of them has run, the poller's events are delivered iff nobody is queued, each to the coroutine that waited for its descriptor at that moment; nobody else runs |
| NtySchedule.Scheduler.Run | Chapter9/9.1.1-kv存储架构/Ntyco/core/nty_schedule.c:316-363 | the rounds of a run are, one after the other, those that the bodies and events decide; registered descriptors are the wait keys and everybody alive is in one place; who was queued at the start has run after one round; the loop ends only when nobody is alive |
| NtySleep.Sleepers.Forget | Chapter9/9.1.1-kv存储架构/Ntyco/core/nty_schedule.c:90-93 | the lookup by the last deadline finds the caller itself or nothing, so no other sleeper is evicted |
| NtySleep.Sleepers.Probe | Chapter9/9.1.1-kv存储架构/Ntyco/core/nty_schedule.c:97-106 | the loop ends at the smallest deadline from its start that is not in the tree |
| NtySleep.Sleepers.SleepDown | Chapter9/9.1.1-kv存储架构/Ntyco/core/nty_schedule.c:87-109 | the caller is filed at the smallest unused deadline not below the requested one, all other sleepers stay, and stale deadlines still lie in the past and are not in the tree |
| NtySleep.Sleepers.Filed | Chapter9/9.1.1-kv存储架构/Ntyco/core/nty_schedule.c:97-106 | after filing, the taken deadlines are those of the other sleepers |
| NtySleep.Sleepers.Expired | Chapter9/9.1.1-kv存储架构/Ntyco/core/nty_schedule.c:248-259 | the sleeper with the least deadline leaves iff that deadline has come |
| NtySleep.Sleepers.MinTimeout | Chapter9/9.1.1-kv存储架构/Ntyco/core/nty_schedule.c:268-281 | the time to the least deadline, 0 if it has come, 3000000 microseconds without sleepers |
| NtySleep.Sleepers.BlockTime | Chapter9/9.1.1-kv存储架构/Ntyco/core/nty_schedule.c:283-298 | the poller blocks iff nothing is ready and no deadline is due; the wait it asks for is not negative, ends before any deadline passes, and falls short of the earliest deadline by less than a second, or less than a millisecond if that is less than a second away; without sleepers it is 3000 milliseconds |
| NtySleep.MillisBound | Chapter9/9.1.1-kv存储架构/Ntyco/core/nty_epoll.c:54-57 | a wait below a second becomes its whole milliseconds, and a longer one its whole seconds |
| NtySleep.Sleepers.Step | Chapter9/9.1.1-kv存储架构/Ntyco/core/nty_schedule.c:87-109 | every move keeps the invariant, does what the abstract move says, and who wakes has a later deadline than everybody who woke before |
| NtySleep.Sleepers.Replay | Chapter9/9.1.1-kv存储架构/Ntyco/core/nty_schedule.c:248-259 | over any run, who wakes up and when is what the abstract run of clock and deadlines says; sleepers wake in the strict order of their deadlines and none before its deadline |
| ThreadPool.TaskQueue.AddTask | Chapter3/3.1.1-线程池/thread_pool.c:82-94 | the task joins at the end, and the tail is its link |
| ThreadPool.TaskQueue.PopTask | Chapter3/3.1.1-线程池/thread_pool.c:98-122 | the first task leaves, or null; the tail is the head slot again iff the queue is empty |
| ThreadPoolRun.InvSafe | Chapter3/3.1.1-线程池/thread_pool.c:82-176 | no step of any thread touches a task that was freed |
| ThreadPoolRun.LockKept | Chapter3/3.1.1-线程池/thread_pool.c:89-119 | only the thread with the lock is between lock and unlock |
| ThreadPoolRun.ListKept | Chapter3/3.1.1-线程池/thread_pool.c:89-119 | each single access keeps the list linked, with the tail off by one task only in the middle of an update |
| ThreadPoolRun.MakingKept | Chapter3/3.1.1-线程池/thread_pool.c:86-87 | every allocated task is linked or in the hands of exactly one poster, and not both; in a poster's hands its link is null |
| ThreadPoolRun.OrderKept | Chapter3/3.1.1-线程池/thread_pool.c:82-122 | the tasks linked are the tasks popped followed by the queue, in that order and each once |
| ThreadPoolRun.FateKept | Chapter3/3.1.1-线程池/thread_pool.c:142-176 | a popped task is in flight in exactly one thread, executed once or discarded once |
| ThreadPoolRun.Run | Chapter3/3.1.1-线程池/thread_pool.c:82-178 | every interleaving of any number of threads keeps the invariant |
| ThreadPoolRun.TailWhenFree | Chapter3/3.1.1-线程池/thread_pool.c:82-122 | whenever the lock is free the tail is the head slot iff the queue is empty, else the link of the last task |
| ThreadPoolRun.Fifo | Chapter3/3.1.1-线程池/thread_pool.c:82-122 | over every interleaving tasks leave the queue in the order in which they were linked, each at most once |
| ThreadPoolRun.Conserved | Chapter3/3.1.1-线程池/thread_pool.c:142-178 | over every interleaving exactly the posted tasks are in one of five places, and in one only: in the hands of its poster, queued, in flight, executed, discarded |
| ThreadPoolRun.ConservedOnce | Chapter3/3.1.1-线程池/thread_pool.c:142-178 | no two posters have the same task in hand and no two workers carry the same one; no task is queued, executed or discarded twice |
| ThreadPoolRun.RolesDecide | Chapter3/3.1.1-线程池/thread_pool.c:142-178 | over every interleaving without a call of the final clean-up no task is discarded, and without a worker none is executed |
| ThreadPoolHeap.AddAlone | Chapter3/3.1.1-线程池/thread_pool.c:82-94 | from a heap that shows a reachable memory state, __add_task leads to the heap that shows the state after its three steps inside the lock |
| ThreadPoolHeap.PopAlone | Chapter3/3.1.1-线程池/thread_pool.c:98-122 | from a heap that shows a reachable memory state, __pop_task leads to the heap that shows the state after its steps inside the lock, and returns the task that the thread holds then, or null |
| ThreadPoolHeap.PostWhole | Chapter3/3.1.1-线程池/thread_pool.c:243-254 | from any reachable state with the lock free, a post that nobody disturbs queues one new task last |
| ThreadPoolHeap.PopWhole | Chapter3/3.1.1-线程池/thread_pool.c:98-176 | from any reachable state with the lock free, a turn of a worker that nobody disturbs executes the first task, and a turn of the clean-up discards it |

## Left out

- Sockets, epoll, select and poll calls, reactors, clients, the HTTP, MySQL and Redis samples, benchmarks, hooks and logging: input and output.
- Stack switching and assembly of the coroutines: machine state; a resume is an abstract step.
- Failing allocations, and memory reclamation: the frees after a deletion are guarded by `!cur` and never run; `rbtree_destroy` reads a field of the sentinel that was never set.
- The sentinel of the red-black tree is modelled as a complete node, although one byte is requested for it.
- The slots of the hash table start as null, although the program does not set them.
- Widths of `int` and `uint64_t`: counters, deadlines and the hash sum are unbounded; `KvHash.HashSumRange` shows that the sum fits for every key that fits the receive buffer.
- `rbtree_maxi`, `rbtree_traversal`, `array_destroy` and `destroy_hashtable`: not part of this model.
- KvHash.HashEngine.Put: like the other operations of the table it asks for a key whose slot lies in the table, because for any other key the program reads outside of it.
- KvStore.Store.Handle: asks for the arguments that the command needs; missing arguments, more than 128 tokens and the log line that reads past the command table are not modelled.
- RB_FOREACH variants other than the forward one, `SPLAY_NEXT` and `SPLAY_MINMAX`: they would only repeat the walks and the loop that are here.
- The SLIST, STAILQ and LIST macros, and the TAILQ insertions other than at the tail: not used by the scheduler.
- NtySchedule.Scheduler.Run: sleeping for a positive time is not an act of a body, because that call does not yield, so that a coroutine may be in the sleep tree and run; deadlines are in `NtySleep`.
- NtySchedule.Scheduler.SchedWait: waits with timeout 1 only, as every caller does, and for one descriptor at a time, since one coroutine has one node for the wait tree.
- Waits with a timeout: `nty_schedule_search_wait` and `nty_schedule_desched_wait` clear the status before the sleep removal tests it.
- NtySleep.Sleepers.SleepDown: positive lengths and a clock that does not go back; a coroutine is not freed while it sleeps.
- ThreadPoolHeap.AddAlone: the thread in the critical section steps alone; steps of the others between its own are in `ThreadPoolRun`.
- ThreadPoolRun.Run: safety only; the condition variable, the quit flag and the shutdown, where `__get_task` returns with the mutex held, are not modelled, and a freed address is not used again.
- Shared-memory counters, accept locks, WebSocket framing and the context-switch demos.
