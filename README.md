# Sequential model of `go_parallel_list`

`parallel_list.go` implements a sorted set of integers. It is a singly linked list behind a sentinel
head node. Each node has an immutable `value`, a `marked` flag meaning "logically deleted", and a
`next` link that is changed in place. The list keeps a `length` counter. Insertion and deletion use
optimistic fine-grained locking: a lock-free walk (`find`) locates the adjacent pair
`(pred, succ)`, the writer locks, re-validates, and retries from scratch if a concurrent change
invalidated the walk.

This project models the single-threaded behaviour of that core in Dafny. It has three files:

- `sorted_keys.dfy` (module `SortedKeys`) is the abstract view. The keys reachable after the
  head form a strictly ascending `seq<int>`. `Rank` is where the walk stops. `InsertKey` and
  `RemoveKey` are the set operations that Insert and Delete perform. `Visited` is the prefix a
  `Range` visitor is handed. Lemmas relate these functions: membership at the rank, round trips,
  idempotence, uniqueness of an ascending chain with given keys, and the count of distinct keys.
- `parallel_list.dfy` (module `ParallelList`) is the imperative model.
  - `Node` is a class with `value`, `marked` and `next`. Its four accessors are methods, as in the source.
  - `IntList` is a class with `head` and `length`. Ghost fields `Keys`, `Chain` (the reachable
    nodes, head first) and `Repr` describe its state.
  - `Valid()` states these invariants:
    - following `next` from `head` visits exactly `Chain` and then null;
    - the keys after the head are `Keys`, strictly ascending;
    - no reachable node is marked;
    - `length == |Keys|`.
  - Every operation is a method whose contract ties its result and its new state to the `SortedKeys` functions.
  - Insert's splice (new node, two link stores, counter increment) is the helper method `LinkIn`.
  - Delete's splice (mark, link store, counter decrement) is the helper method `Unlink`.
- `list_scenarios.dfy` (module `ListScenarios`) holds client methods that chain several calls:
  - insert then delete;
  - delete twice;
  - insert twice;
  - three out-of-order inserts followed by a full `Range`.

The sentinel's dummy key 0 is never part of `Keys`. Like `find`, `Contains` and `Range` in the
source, the model never reads `head.value`. So 0 can be inserted as an ordinary key.

The source's retry loops (`for { ... continue }`) run their body once here. Each re-validation
is kept as a branch that is proved dead with `assert false` (parallel_list.go:54-58, 100-103,
109-113 and 116-120):

- after the walk, `pred.GetNext()` still equals `succ`;
- the target of a delete is unmarked;
- `pred` is unmarked.

## Model

| member | source | states |
|---|---|---|
| ParallelList.Node.constructor | parallel_list.go:25-27 | a new node carries the given value, is unmarked and links to nothing |
| ParallelList.Node.SetNext | parallel_list.go:29-31 | the link becomes the given node and the mark is untouched |
| ParallelList.Node.GetNext | parallel_list.go:33-35 | returns the current link |
| ParallelList.Node.Mark | parallel_list.go:37-39 | the node is marked and its own link is left as it was |
| ParallelList.Node.IfMarked | parallel_list.go:41-43 | returns the current mark |
| ParallelList.IntList.constructor | parallel_list.go:14-16 | a new list is a lone unmarked sentinel head: no keys, counter 0, invariant established |
| ParallelList.IntList.Find | parallel_list.go:78-86 | returns the adjacent pair with `pred.next == succ`, where `pred` is the node at the rank of `v` (the head or a node with a key below `v`) and `succ` is null or the first node with a key at least `v` |
| SortedKeys.Rank | parallel_list.go:78-86 | the walk's stopping index: every key before it is below `v`, and the key at it (if any) is at least `v` |
| SortedKeys.MemberAtRank | parallel_list.go:60-64 | in an ascending chain, `v` is present exactly when the key where the walk stops equals `v`, which is the duplicate test of Insert and the absence test of Delete |
| ParallelList.IntList.Insert | parallel_list.go:45-76 | returns true exactly when `v` was absent; keys become `InsertKey(old keys, v)`; counter +1 on success; a duplicate changes no node, no link, no mark and no counter; on success the chain is the old chain with one fresh node spliced in after the rank position; the invariant is kept |
| ParallelList.IntList.LinkIn | parallel_list.go:66-74 | pointing a new node at `succ` and then `pred` at the new node splices it into the chain and its key into the keys at the rank position, with the counter +1 and the invariant kept |
| SortedKeys.InsertKey | parallel_list.go:45-76 | the keys after an insertion are strictly ascending, are the old keys plus `v`, and grow by one exactly when `v` was absent |
| SortedKeys.SpliceIn | parallel_list.go:66-69 | splicing a key in between the keys below it and the keys above it keeps the chain ascending and adds exactly that key |
| SortedKeys.InsertAbove | parallel_list.go:66-69 | a key above every present key is appended at the end |
| SortedKeys.InsertBelow | parallel_list.go:66-69 | a key below every present key goes to the front |
| ParallelList.SpliceNodeIn | parallel_list.go:67-69 | splicing a node in after position `k` keeps the nodes distinct, adds just that node, and shifts the later nodes and their keys by one |
| ParallelList.IntList.ValidAfterSpliceIn | parallel_list.go:66-69 | once the new node is linked behind `pred`, the list invariant holds again for the spliced chain and keys |
| ParallelList.IntList.Delete | parallel_list.go:88-132 | returns true exactly when `v` was present; keys become `RemoveKey(old keys, v)`; counter -1 on success; an absent key changes nothing; on success the node after the rank position is marked and cut out of the chain, and its own link is left intact; the invariant is kept |
| ParallelList.IntList.Unlink | parallel_list.go:122-130 | marking the target and pointing `pred` at the target's successor drops the target from the chain and its key from the keys, with the counter -1, the target's link kept, and the invariant kept |
| SortedKeys.RemoveKey | parallel_list.go:88-132 | the keys after a deletion are strictly ascending, are the old keys minus `v`, and shrink by one exactly when `v` was present |
| SortedKeys.SpliceOut | parallel_list.go:122-124 | cutting one key out of an ascending chain keeps it ascending and removes exactly that key |
| ParallelList.SpliceNodeOut | parallel_list.go:123-124 | cutting out the node after position `k` keeps the nodes distinct, drops just that node, and shifts the later nodes and their keys back by one |
| ParallelList.IntList.ValidAfterSpliceOut | parallel_list.go:122-124 | once `pred` links past the marked target, the list invariant holds again for the shortened chain and keys |
| SortedKeys.SameElementsSameChain | parallel_list.go:45-132 | two ascending chains with the same keys are equal, so the key sets in the contracts of InsertKey and RemoveKey determine the chains completely |
| SortedKeys.RemoveAfterInsert | parallel_list.go:45-132 | deleting a key just inserted restores the previous keys |
| SortedKeys.InsertAfterRemove | parallel_list.go:45-132 | inserting a key just deleted restores the previous keys |
| SortedKeys.InsertTwice | parallel_list.go:60-64 | after an insertion the key is present, so a second insertion leaves the keys as they are |
| SortedKeys.RemoveTwice | parallel_list.go:91-94 | after a deletion the key is absent, so a second deletion leaves the keys as they are |
| ParallelList.IntList.Contains | parallel_list.go:135-143 | returns true exactly when `v` is among the keys (reachable nodes are never marked); changes nothing |
| ParallelList.IntList.Range | parallel_list.go:145-152 | the keys handed to the visitor are `Visited(keys, f)`, a strictly ascending prefix of the keys; changes nothing |
| SortedKeys.Visited | parallel_list.go:145-152 | the visited keys are a prefix of the keys, non-empty when there are keys, every one but the last was accepted, and the last was refused unless the walk reached the end |
| SortedKeys.VisitedAll | parallel_list.go:147-151 | a visitor that accepts every key is handed all of them |
| SortedKeys.VisitedStopsAt | parallel_list.go:148-150 | the walk hands over everything up to and including the first refused key |
| ParallelList.IntList.Len | parallel_list.go:154-156 | returns the number of nodes after the head, which is the number of distinct keys |
| SortedKeys.DistinctKeysCount | parallel_list.go:154-156 | an ascending chain has as many distinct keys as nodes |
| ListScenarios.InsertThenDelete | parallel_list.go:45-143 | inserting an absent key and deleting it both succeed, restore the keys and the counter, and the key is then not found |
| ListScenarios.DeleteTwice | parallel_list.go:88-132 | the first deletion reports whether the key was present, the second reports false, and the key is gone |
| ListScenarios.InsertTwiceRejected | parallel_list.go:45-76 | the first insertion reports whether the key was absent, the second reports false, and the key is present |
| ListScenarios.FirstKey | parallel_list.go:66-69 | inserting into no keys yields that key alone |
| ListScenarios.SmallerKey | parallel_list.go:66-69 | a smaller key inserted next goes in front |
| ListScenarios.LargerKey | parallel_list.go:66-69 | a larger key inserted last goes behind both |
| ListScenarios.ThreeInserts | parallel_list.go:45-152 | inserting a middle, a smaller and a larger key into an empty list and ranging with an always-accepting visitor hands the three keys in ascending order |

## Left out

- `sync.Mutex` in `Node` and every `Lock`/`Unlock` call: pure concurrency control with no sequential meaning.
- The `atomic.*` loads and stores and the `unsafe.Pointer` casts in `SetNext`/`GetNext`/`Mark`/`IfMarked` are plain field reads and writes. `marked` is a `bool` rather than a `uint32` holding 0 or 1.
- Concurrent interleavings, liveness of the retry loops, the weak consistency of `Range`, and the eventually consistent `length` under concurrent writers. The retry loops run once and their re-validations are proved never to fail.
- Memory reclamation of unlinked nodes. An unlinked node simply stays allocated, with its link intact.
- An `IntList` zero value that did not come from `NewInt` (nil `head`). Only the constructor that models `NewInt` is covered.
- ParallelList.IntList.Len: `length` is an unbounded integer; the 64-bit wrap-around of the source's `int64` counter and of its `int` conversion is not modelled.
- ParallelList.IntList.Range: the visitor is a pure function `int -> bool` with no effects of its own. The method returns the keys it handed over, which the source does not.
- Keys are unbounded integers. The source's `int` is 64-bit, but the code only compares keys and never does arithmetic on them, so nothing depends on the width.
