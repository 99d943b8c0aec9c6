# High-contention queue layer, modelled in Dafny

This project models the core of a FoundationDB queue layer (package `queue`)
and its small key-prefix helper (package `subspace`). The store is a finite
map from byte keys to byte values, ordered lexicographically. A transaction
is an object whose map field its operations reassign. A database is the
committed map.

The queue keeps three child subspaces:

- `item`: holds the items, keyed by (index, random id);
- `pop`: holds the registered waiters, with the same key shape;
- `conflict`: holds the waiters' result slots, keyed by (random id).

The project has these modules:

- `ByteOrder` (byte_order.dfy): byte strings and their unsigned
  lexicographic order, with proofs that it is a total order. Also key
  ranges, and the least and greatest key of a finite set.
- `TupleCodec` (tuple_codec.dfy): the tuple layer for byte strings (code
  0x01), text strings (code 0x02) and 64-bit integers (codes 0x0c to 0x1c).
  Decoding undoes encoding (`UnpackPack`), and encoding keeps the tuple
  order (`PackOrder`). Both are proved, not assumed.
- `FdbSubspace` (fdb_subspace.dfy): the client library's subspace, which
  queue.go imports. Its `Unpack` refuses foreign keys. Its range runs from
  prefix + 0x00 to prefix + 0xFF.
- `Store` (store.dfy): range reads, `LastLessThan` and range clears, plus
  the `Transaction` and `Database` classes.
- `Queue` (queue.dfy): the queue operations.
- `Subspace` (subspace.dfy): the repository's own prefix helper. The queue
  does not use it.

How the model is built:

- Read-only operations are functions of the map.
- `Push`, `pushAt`, `popSimple`, `addConflictedPop` and `Clear` are methods
  on a `Transaction`.
- `fulfilConflictedPops` is a method on a `Database`. It opens a
  transaction, runs the indexed matching loop and then the loop over the
  surplus waiters, and commits. Its specification function is `Sweep`.
- The loop, `Matched`, is written over any list of result slots, one per
  waiter; `SlotsOf` gives the queue's. What it does to the store is
  therefore proved once.
- A Go panic becomes an `Err` result. The bad input leads to that error
  instead of being excluded by a precondition.

## Model

| member | source | states |
|---|---|---|
| Queue.New | queue/queue.go:39-46 | the queue keeps the given subspace and mode; its pop, conflict and item children lie inside it and are pairwise disjoint |
| Queue.LayoutSeparates | queue/queue.go:41-45 | no key belongs to two of the three child subspaces |
| Queue.Increment | queue/queue.go:92 | int64 `+ 1` agrees with the mathematical successor modulo 2^64, and is larger below the maximum |
| Queue.SlotInConflictSubspace | queue/queue.go:280-282 | every conflictedItemKey is a key of the conflict subspace |
| Queue.ConflictedItemKey | queue/queue.go:280-282 | the key (id) in the conflict subspace; Queue.SlotInConflictSubspace and Queue.ConflictedItemKeyInjective state that it lies in that subspace and that different ids give different keys |
| Queue.ConflictedItemKeyInjective | queue/queue.go:280-282 | different random ids give different result slots |
| Queue.EncodeValue | queue/queue.go:62-72 | decodeValue(encodeValue(v)) is v |
| Queue.DecodeValue | queue/queue.go:62-69 | element 0 of the unpacked value when it is a byte string; an unpacking failure or another kind is an error (a Go panic); Queue.EncodeValue states that it undoes encodeValue |
| Queue.LastKeyBeforeStart | queue/queue.go:81-87 | the last key below the subspace end sorts before its start exactly when the subspace holds no key; otherwise it is a key of the subspace |
| Queue.NextIndexOfEmpty | queue/queue.go:81-87 | GetNextIndex of an empty subspace is 0 |
| Queue.GetNextIndex | queue/queue.go:79-94 | reads the last key below the subspace end: 0 when it precedes the start, otherwise its index plus one with int64 wrap-around; Queue.NextIndexOfEmpty, Queue.NextIndexAboveAll, Queue.NextIndexZeroIff, Queue.NextIndexWraps and Queue.NextIndexBounds state what that index is |
| Queue.NextIndexBounds | queue/queue.go:79-94 | with indices in [0, int64 max), the next index lies in [0, int64 max] and exceeds every stored index |
| Queue.NextIndexAboveAll | queue/queue.go:83-93 | with index keys below the int64 maximum, the next index exceeds every stored index and is one above some stored index |
| Queue.NextIndexOfLast | queue/queue.go:83-93 | when the subspace holds keys, the last key before its end is one of them and the next index is its index plus one, wrapping at the int64 maximum |
| Queue.LastIndexIsGreatest | queue/queue.go:83-93 | the last key before the subspace's end carries the greatest index in the subspace |
| Queue.NextIndexZeroIff | queue/queue.go:79-94 | with non-negative indices, the next index is 0 if and only if the subspace is empty |
| Queue.NextIndexWraps | queue/queue.go:92 | once an index equals the int64 maximum, the next index wraps to the minimum |
| Queue.NextKeyIsLast | queue/queue.go:79-94 | the key (next index, rand) is new, lies in the subspace and sorts after every key already there |
| Queue.FirstItemIsLeast | queue/queue.go:341-349 | getFirstItem returns the pair under the least item key, or nothing when there are no items |
| Queue.FirstItem | queue/queue.go:341-349 | a range read of the item subspace limited to one pair; Queue.FirstItemIsLeast states that the pair is the least item key's |
| Queue.PeekIsHead | queue/queue.go:54-60 | Peek gives the decoded value of the least item key, the key popSimple removes, and fails exactly when decoding fails; an empty queue gives none |
| Queue.Peek | queue/queue.go:54-60 | decodes the value getFirstItem finds, or gives none; Queue.PeekIsHead states that this is the value under the key popSimple removes |
| Queue.Empty | queue/queue.go:336-339 | Empty holds if and only if the item range holds no key |
| Queue.PoppedRemovesHead | queue/queue.go:147-154 | popSimple returns the value stored under the least item key and removes exactly that key; an empty queue is left unchanged |
| Queue.PoppedKeys | queue/queue.go:147-154 | after a pop the item keys are the old ones less the head, and all of them sort after it |
| Queue.PushAppends | queue/queue.go:101-105 | a push adds exactly one new key, after every queued item, holding the encoded value; no other key changes; item keys stay index keys |
| Queue.PushOntoEmpty | queue/queue.go:101-105 | a push onto an empty queue writes at index 0, leaving that key as the only item |
| Queue.PushKeepsHead | queue/queue.go:101-105 | pushing onto a non-empty queue leaves what the next pop returns and removes unchanged |
| Queue.AppendKeepsHead | queue/queue.go:147-154 | storing a new item key that sorts after every queued one leaves what a pop returns and removes unchanged |
| Queue.FirstInFirstOut | queue/queue.go:132-154 | two pushes onto an empty queue pop back in push order and leave it empty |
| Queue.PopSingle | queue/queue.go:147-154 | popping a queue of one item returns that item's value and leaves the queue empty |
| Queue.ClearEmptiesQueue | queue/queue.go:48-51 | after Clear there are no items, waiters or result slots, and no key outside the queue's subspace changes |
| Queue.Clear | queue/queue.go:49-51 | the transaction's map loses exactly the queue subspace's range |
| Queue.PushAt | queue/queue.go:137-142 | the encoded value is set under (index, rand) in the item subspace |
| Queue.Push | queue/queue.go:101-105 | the map becomes Pushed of the old map; a failed index lookup writes nothing and returns the error |
| Queue.PopSimple | queue/queue.go:147-154 | returns and removes what Popped describes |
| Queue.AddConflictedPop | queue/queue.go:156-167 | an unforced call with next index 0 writes nothing and returns none; otherwise the call writes an empty value at (next index, rand) and returns that key; a failed lookup writes nothing |
| Queue.RegistrationOrder | queue/queue.go:156-162 | with waiter indices in [0, int64 max), the next index is 0 exactly when no one waits, and the new waiter key sorts after every registered waiter |
| Queue.RegistrationKeepsIndexKeys | queue/queue.go:156-166 | a registration keeps every waiter key an index key, with indices from 0 up to the new waiter's, which is at most the int64 maximum |
| Queue.NextKeyKeepsIndices | queue/queue.go:79-94 | storing the next key of a subspace keeps every key there an index key, with indices from 0 up to the new one |
| Queue.MinLength | queue/queue.go:271-278 | the result is one of the two lengths and at most both |
| Queue.FulfilConflictedPops | queue/queue.go:284-323 | commits Sweep's map and returns its drained flag; when Sweep fails, the database is unchanged and an error is returned |
| Queue.Sweep | queue/queue.go:287-316 | the sweep as one transaction: the matching loop over the first min pairs with the waiters' slots, then the surplus waiters cleared, and the drained flag; Queue.FulfilConflictedPops commits it, and the Queue.Sweep lemmas below state its effect |
| Queue.WaitingPops | queue/queue.go:263-265 | a range read of the waiter subspace limited to 100 pairs; Queue.SweepInputsHold and Queue.SweepReadsOldest state what it returns |
| Queue.Items | queue/queue.go:267-269 | a range read of the item subspace limited to 100 pairs; Queue.SweepInputsHold and Queue.SweepReadsOldest state what it returns |
| Queue.PopRandId | queue/queue.go:296-301 | element 1 of the waiter key's tuple when it is a byte string; a key that does not unpack, a short tuple or another kind is an error (a Go panic); Queue.SweepFails states when the sweep fails through it |
| Queue.SlotFor | queue/queue.go:296-301 | conflictedItemKey of the waiter's random id, or PopRandId's error; Queue.QueueSlotsApart, Queue.QueueSlotsDistinct and Queue.QueueSlotsInConflictSubspace state its properties |
| Queue.MatchLoop | queue/queue.go:293-307 | given each waiter's slot (SlotFor of its key), the transaction's map becomes Matched of the old map over the first n pairs, failing exactly when Matched does |
| Queue.MatchWaiter | queue/queue.go:294-306 | one loop body: the item's value into the waiter's slot (SlotFor of its key), then the waiter and the item cleared; a key without an id panics and writes nothing |
| Queue.ClearSurplus | queue/queue.go:309-312 | every waiter from `min` on is cleared |
| Queue.MatchedOk | queue/queue.go:293-300 | the loop succeeds if and only if every waiter it reaches has a slot |
| Queue.MatchedErrPersists | queue/queue.go:296-299 | a panicking round fails every longer run |
| Queue.MatchedNext | queue/queue.go:293-307 | one more round from the map the loop has reached is the round's update, and a panicking round fails the whole run |
| Queue.MatchedFills | queue/queue.go:293-307 | when slots are apart from the round keys and distinct, waiter i's slot ends up holding item i's value |
| Queue.MatchedClears | queue/queue.go:305-306 | after the loop, every matched waiter and item is gone |
| Queue.MatchedFrame | queue/queue.go:293-307 | a key that is no slot, waiter or item of the rounds keeps its presence and its value |
| Queue.MatchedOnlyRemoves | queue/queue.go:293-307 | apart from the slots written, the loop only removes keys |
| Queue.MatchedKeepsUnlisted | queue/queue.go:293-312 | a key that is no listed waiter and no slot or item of the rounds survives both loops with its value |
| Queue.SlotOutsideRound | queue/queue.go:280-282 | a result slot is never a waiter key or an item key |
| Queue.QueueSlotsApart | queue/queue.go:301 | the queue's slots are apart from every waiter and item of the sweep |
| Queue.QueueSlotsDistinct | queue/queue.go:301 | waiters with distinct ids have distinct slots |
| Queue.QueueSlotsInConflictSubspace | queue/queue.go:301 | every slot the sweep writes lies in the conflict subspace |
| Queue.SweepInputsHold | queue/queue.go:263-269 | waiters and items are read from their subspaces with their stored values, and no item comes twice |
| Queue.SweepReadsOldest | queue/queue.go:263-269 | both reads are ascending, at most 100 long, and precede every key they leave out |
| Queue.SweepFails | queue/queue.go:296-299 | the sweep panics if and only if a matched waiter's key carries no byte-string id |
| Queue.SweepDrained | queue/queue.go:314 | the result is true if and only if fewer than 100 waiters were registered |
| Queue.SweepFillsSlots | queue/queue.go:293-302 | for every i < min, waiter i's result slot holds item i's value (waiters with distinct ids) |
| Queue.QueueMatchFills | queue/queue.go:293-312 | for waiters and items read from their subspaces with distinct ids, the loop puts item i's value in waiter i's slot, and no slot is a surplus waiter the second loop clears |
| Queue.SweepClearsMatched | queue/queue.go:305-312 | every waiter read, matched or surplus, is cleared, and so is every matched item |
| Queue.SweepKeepsLaterItems | queue/queue.go:288-307 | items beyond `min` stay with their values |
| Queue.SweepStaysInQueue | queue/queue.go:287-316 | no key outside the waiter, item and conflict subspaces changes |
| Queue.SweepKeepsOthers | queue/queue.go:293-312 | every key that is no waiter read, no matched item and no matched waiter's slot keeps its presence and its value: items and waiters beyond the 100 read and other waiters' result slots survive |
| Queue.SweepIsMatched | queue/queue.go:293-312 | a sweep that succeeds leaves the matching loop's map less the surplus waiters, and every matched waiter carried an id |
| Queue.QueueMatchKeepsOthers | queue/queue.go:293-312 | the two loops leave every key alone that is no waiter read, no matched item and no matched waiter's slot |
| Queue.SweepWritesOnlySlots | queue/queue.go:301-302 | every key the sweep adds or changes is the slot of a matched waiter, so no item reaches two slots |
| Queue.SweepKeepsIndexKeys | queue/queue.go:287-316 | item and waiter keys stay index keys, with their indices inside the bounds they had |
| Store.LastLessThan | queue/queue.go:83 | the greatest key below the bound, or the empty key when there is none |
| Store.FirstPairsLength | queue/queue.go:263-269 | a limited range read returns min(limit, keys in range) pairs |
| Store.FirstPairsMembers | queue/queue.go:263-269 | every pair read is a pair of the map inside the range |
| Store.FirstPairsAscending | queue/queue.go:263-269 | a range read lists keys in strictly ascending order |
| Store.FirstPairsBeforeOmitted | queue/queue.go:263-269 | every key of the range a read leaves out sorts after each key it returns |
| Store.FirstPairsAll | queue/queue.go:263-269 | a read whose limit covers the range returns all of its keys |
| Store.ClearedRange | queue/queue.go:50 | ClearRange keeps exactly the keys outside the range, with their values |
| TupleCodec.UnpackPack | queue/queue.go:62-72 | unpacking a packed tuple gives the tuple back |
| TupleCodec.PackOrder | queue/queue.go:132-136 | packed tuples sort as the tuples do (first by index, then by random id) |
| FdbSubspace.UnpackPack | queue/queue.go:89-93 | a subspace unpacks the keys it packs |
| FdbSubspace.ApartDisjoint | queue/queue.go:41-43 | subspaces whose prefixes differ at a shared position have disjoint ranges |
| Subspace.Concat | subspace/subspace.go:29-34 | the result is as long as both inputs together, starts with the first and ends with the second |
| Subspace.New | subspace/subspace.go:12-14 | the prefix is the packed tuple, which unpacks back to it |
| Subspace.NewPack | subspace/subspace.go:12-14 | packing u in New(t) is packing t + u |
| Subspace.WithPrefix | subspace/subspace.go:16-19 | the new prefix comes first, followed by the old prefix |
| Subspace.WithPrefixPack | subspace/subspace.go:16-19 | WithPrefix puts the prefix in front of every packed key |
| Subspace.Pack | subspace/subspace.go:52-55 | the key starts with the raw prefix, followed by the packed tuple |
| Subspace.Item | subspace/subspace.go:25-27 | the nested subspace's prefix starts with the old prefix and unpacks to the tuple |
| Subspace.ItemPack | subspace/subspace.go:25-27 | packing u in Item(t) is packing t + u in the parent |
| Subspace.UnpackPack | subspace/subspace.go:46-55 | Unpack(Pack(t)) is t |
| Subspace.Unpack | subspace/subspace.go:46-51 | slices off as many bytes as the prefix has, without checking them, and unpacks the rest; a key shorter than the prefix is an error (a Go panic); Subspace.UnpackPack and Subspace.UnpackIgnoresPrefix state its properties |
| Subspace.UnpackIgnoresPrefix | subspace/subspace.go:46-51 | Unpack drops len(RawPrefix) bytes without checking them; any same-length prefix unpacks the same |
| Subspace.Range | subspace/subspace.go:36-44 | both ends start with the raw prefix, followed by the tuple range's begin and end |
| Subspace.RangeContainsExtensions | subspace/subspace.go:36-44 | Range(t) contains the key of every tuple extending t |

## Left out

- popHighContention and its polling loop (queue/queue.go:184-261) are not modelled. They consist of sleeps, a floating-point backoff, commit and reset retries, readiness tests of futures, and the commit-failure test errIsCommitFailure.
- Pop (queue/queue.go:109-130) is not modelled. In high-contention mode it calls popHighContention (queue/queue.go:111-114), which is left out as above. Otherwise it runs popSimple in db.Transact and decodes the result, which Queue.PopSimple and Queue.DecodeValue cover. It also throws away Transact's error (`val, _ :=`, queue/queue.go:117), so a failed transaction comes back as `(nil, false)`, the same as an empty queue; the model does not capture that conflation.
- GetNextQueueIndex and AsFoundationDbKey are not modelled. Each is a one-line delegation.
- nextRandom is not modelled. The 20-byte random id is a parameter (`RandomId`).
- eventstore/eventstore.go is not part of this model.
- Snapshot reads, the conflict-adding `Get` calls and transaction conflicts are left out. Every transaction runs alone, so a snapshot read sees the same map as a plain read.
- Errors are reduced to a message. A Go panic and an error passed up both become `Err`.
- TupleCodec: only byte strings, text strings and 64-bit integers are modelled. Nil (code 0x00), nested tuples, floats, booleans, UUIDs and the other kinds are not, and `TupleCodec.Unpack` fails on any element of those kinds. The Go code looks only at element 0 (queue/queue.go:66, 92) and element 1 (queue/queue.go:301) and ignores later elements. So for a stored key or value that holds such an element anywhere, Queue.GetNextIndex, Queue.DecodeValue, Queue.PopRandId and Queue.SweepFails give `Err` where the Go code succeeds. The keys and values the queue writes itself hold only the modelled kinds.
- Subspace.Pack, Subspace.Item, Subspace.WithPrefix and Subspace.Range are written with sequence concatenation, because a function cannot call a method. Subspace.Concat's contract shows that concat computes the same sequence.
- Subspace.WithPrefix: the Go parameter is a string. It is modelled as the string's bytes.
- The sweep clears the surplus waiters (queue/queue.go:309-312), and the model does the same.
- Queue.SweepFillsSlots: the property assumes distinct waiter ids. Two waiters with the same random id share a slot, and the later round overwrites it.
