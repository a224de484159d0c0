# A verified model of a distributed hash table

The repository is a small Chord-like key-value service. Each peer keeps its share of the keys in
a uthash table, answers client requests for them, and is linked to its neighbours on a ring of
16-bit ids. This project models that system in Dafny and proves what it keeps, computes and
promises.

- **The hash table** (`Bits`, `Seqs`, `Handles`, `Buckets`, `Expansion`, `Growth`, `Bloom`,
  `Ordering`, `StableSort`, `MergeSort`, `HashTable`, `Runs`). Handles are heap objects with the
  four links of the C struct. Adding, expanding, deleting, rolling back, sorting and searching
  update these links in place, step by step as the macros do. Ghost sequences say what the links
  represent: `order`, the application-order list, and `chains`, the bucket chains. `Valid` ties
  them to the links, counters, head, tail and filter.
- **The hash function** (`Words`, `Jenkins`): HASH_JEN on 32-bit words with wrap-around.
- **The messages** (`Codec`), **the store** (`Store`) and **the service** (`Service`): from bytes
  in to bytes out, proved against a server for a plain map.
- **The ring** (`Peer`, `PeerInfo`, `Ring`, `Join`, `Grow`, `Overlap`, `Decide`, `Complete`,
  `Cluster`): `Peers.React` and `Peers.RouteOf` are the receive handler as a step on values,
  `PeerInfos.PeerInfo` is the handler that updates its records in place, and the others follow
  messages through whole nets of peers: lookups, joins, rings built join by join, joins that
  overlap, and the ring with its stores as one map.
- **Actual inputs** (`Witness`) at which the code does not do what its documentation says.

`dafny verify dfyconfig.toml` checks everything. Some quantifiers are triggered by marks (`Slot`,
`Handled`, `Pair`, `Filed`, `Hashed`, `Stage`): predicates that are always true and only say when the
quantifier is to be used.

## Where the code and its documentation differ

The model follows the code.

- `src/generic/hash_helper.h:38` says that deleting a missing element is safe. The code passes
  NULL to HASH_DEL. `Stores.Store.DeleteElement` is a fault exactly then, and
  `Services.PartsCompose` says for which requests that happens;
  `Witnesses.DeletingNothingIsFatal` is one.
- A lookup reply is meant for the peer that asked. `send_found_lookup` overwrites the address
  first, so the reply goes to the peer it names, and that peer dereferences NULL
  (`Rings.LookupIsAnswered`, `Rings.ReplyIsFatal`, `Witnesses.LookupOfSevenKills`).
- `in_range` has no wrap-around, so ids below the smallest, above the largest or equal to a peer's
  id belong to nobody (`Rings.ResponsibleExists`, `Rings.LookupEnds`, `Joins.JoinOutside`,
  `Witnesses.LookupOfThreeNeverEnds`, `Witnesses.JoinOfThreeNeverEnds`).
- Stabilizing need not repair a ring after two joins that overlap. It can, for good, exactly until
  the stabilize of the lower neighbour reaches the joiner with the higher id before that of the
  other joiner does (`Completions.OverlapDecided`, `Completions.FirstAskDecides`,
  `Witnesses.SixIsLeftOut`, `Witnesses.SixCanGetIn`).
- The request queue consists of `while (0)` bodies. A client request for an id in none of the two
  neighbouring gaps gets no answer.

## Assumptions

- Flags and ids that the C code leaves uninitialised in an outgoing message (`notify`,
  `stabilize`, `join`) are 0, except that a join carries its own id as hash id.
- A joiner has a record for its next peer. Without one it does not survive the answer
  (`Joins.NotifyNeedsNext`).
- The port field of a peer message is the intended two bytes at the end of the 11-byte message.
- Messages are as long as their headers announce; peers of a net have different addresses.
- The nets of `Rings` follow control messages. A system that gets a client message is `Strayed`: what
  a peer does with one is the subject of `PeerInfos.PeerInfo.ReceiveClient` and `Services.Serve`.
- The operations of a run are legal whichever of those before them have failed that had not enough
  memory (`Runs.LegalAlways`). With enough memory this is plain legality (`Runs.LegalWithEnough`).
- A comparison function is a function of the two elements. Only the theorems about sortedness
  need it to be a total preorder.

## Model

| member | source | states |
|---|---|---|
| `Bits.MaskIsModShiftIsDiv` | src/libraries/uthash.h:441-444 | for every word and every power of two, masking with `num_bkts - 1` is the remainder and the shift is the quotient |
| `Bits.NextBitDecides` | src/libraries/uthash.h:947 | after doubling, a hash selects the same bucket or the one `num_buckets` further on, as its next bit says |
| `Buckets.LinkFront` | src/libraries/uthash.h:860-869 | a counted handle put at the front of its chain gives valid buckets for the chains with the handle in front; no other bucket changes |
| `Buckets.DelInBkt` | src/libraries/uthash.h:882-895 | unlinking the handle at any position leaves the chain without it, doubly linked, counted one less, and every other bucket as it was |
| `Buckets.TakeOut` | src/libraries/uthash.h:483-484 | seen from the whole array: a linked handle leaves exactly its own chain; a handle that is only counted (a rollback) leaves all chains as they are |
| `Buckets.TakeOutFront` | src/libraries/uthash.h:873-877 | undoing a push after a failed expansion restores the bucket array bit for bit |
| `Buckets.SameBuckets` | src/libraries/uthash.h:1162-1180 | heads and counts of a valid bucket array are determined by its chains |
| `Expansion.IdealChainIsCeiling` | src/libraries/uthash.h:937-941 | the shift-and-mask value is ceil(num_items / new bucket count), with its two defining inequalities, for all arguments |
| `Expansion.CountIn` | src/libraries/uthash.h:949-954 | counting one handle raises nonideal_items by one exactly when its chain has the ideal length already, and keeps expand_mult what the count calls for |
| `Expansion.MoveHandle` | src/libraries/uthash.h:946-961 | moving one handle keeps the new buckets valid and nonideal_items equal to the sum of the excesses |
| `Expansion.MoveChain` | src/libraries/uthash.h:944-962 | the inner loop ends and deals every handle of one old chain to the front of its new chain, while its links are being overwritten |
| `Expansion.MoveBucket` | src/libraries/uthash.h:943-963 | one iteration of the outer loop keeps the chains still ahead traversable |
| `Expansion.Redistribute` | src/libraries/uthash.h:943-963 | all handles, and only they, are in the new array, whose links, counts, expand_mult fields and nonideal_items are right |
| `Growth.DoubledChain` | src/libraries/uthash.h:943-963 | new chain j is the subsequence of its one old chain that selects j, in reverse order |
| `Growth.DoubledSplits` | src/libraries/uthash.h:926-976 | old chain i is split into new chains i and i + num_buckets as multisets: nothing lost, nothing duplicated |
| `Growth.SplitByNextBit` | src/libraries/uthash.h:947-948 | a handle is in the upper half exactly when the next bit of its hash is set |
| `Growth.ExcessIsBeyond` | src/libraries/uthash.h:949-950 | nonideal_items is the number of handles whose position in their chain is the ideal length or more |
| `Growth.CountsAddUp` | src/libraries/uthash.h:552-555 | the bucket counts add up to the number of handles |
| `Growth.MultMeaning` | src/libraries/uthash.h:949-954 | closed form of the expand_mult a bucket reaches by growing one handle at a time: the smaller of the excess and the number of further ideal chains begun |
| `Growth.MultBounds` | src/libraries/uthash.h:951-953 | count <= (expand_mult + 1) * ideal, and expand_mult is 0 exactly when count <= ideal |
| `Growth.ExpandedBuckets` | src/libraries/uthash.h:951-953 | both bounds for every bucket of an array that has been expanded for one or more items |
| `HashTables.HashTable.GrownBuckets` | src/libraries/uthash.h:951-953 | so both bounds hold in every table right after an expansion, for its own ideal_chain_maxlen |
| `HashTables.HashTable.GrownJudgement` | src/libraries/uthash.h:937-973 | right after an expansion: ideal_chain_maxlen is the least length at which all handles fit, nonideal_items the number of handles beyond it, ineff_expands one more than before if these are more than half of all and 0 otherwise, and growth is off exactly at two |
| `HashTables.HashTable.BucketHolds` | src/libraries/uthash.h:441-444 | a bucket has the handles whose hash leaves its number modulo the number of buckets, and counts them |
| `HashTables.HashTable.ExpandsWhen` | src/libraries/uthash.h:870-871 | there are 32 * 2^(number of expansions) buckets; with growth on, the next handle of a bucket makes the table expand exactly if it is the tenth, or the 10 * (expand_mult + 1)th, or a later one |
| `Growth.BucketCount` | src/libraries/uthash.h:231-232 | 2^log2_num_buckets is 32 * 2^(number of expansions) |
| `Bloom.BitIndex` | src/libraries/uthash.h:209-213 | the bit index of any hash is inside the byte array, whatever the filter size (also below eight bits) |
| `Bloom.BitIndexIsMod` | src/libraries/uthash.h:209-213 | the bit index is the hash modulo the number of bits, and the filter has just enough bytes |
| `Bloom.BitTestIsDigit` | src/libraries/uthash.h:207 | a bit is the binary digit of its byte |
| `Bloom.BitSet` | src/libraries/uthash.h:206 | sets one bit and leaves every other bit of the array alone |
| `HashTables.HashTable.Commit` | src/libraries/uthash.h:209-210 | after the Bloom add, all stored hashes are covered and no bit has been cleared |
| `HashTables.HashTable.constructor` | src/libraries/uthash.h:1186-1217 | an empty hash, with or without a Bloom filter |
| `HashTables.HashTable.LinksDetermined` | src/libraries/uthash.h:1219-1228 | in every valid table the list and the chains determine all four links of every handle, so equal lists and chains mean equal structures |
| `HashTables.HashTable.AppendList` | src/libraries/uthash.h:289-295 | the list is the old one with the handle at the end; links and tail agree |
| `HashTables.HashTable.InsertBefore` | src/libraries/uthash.h:379-385 | the list is the old one with the handle before the given one, also at the head |
| `HashTables.HashTable.UnlinkList` | src/libraries/uthash.h:472-482 | the list is the old one without the handle; head and tail are corrected |
| `HashTables.HashTable.ExpandBuckets` | src/libraries/uthash.h:926-976 | on success the chains are the doubled ones, all counters mean what they are meant to, and the list is untouched; on failure nothing changes |
| `HashTables.HashTable.Install` | src/libraries/uthash.h:964-973 | bucket count and log stay in step; ineff_expands counts consecutive ineffective expansions, and noexpand latches exactly at two |
| `HashTables.HashTable.Push` | src/libraries/uthash.h:862-869 | a new handle is in front of the chain its hash selects |
| `HashTables.HashTable.AddToBkt` | src/libraries/uthash.h:860-879 | the table expands exactly when the threshold is reached and growth is on; a failed expansion leaves buckets and chains as found |
| `HashTables.HashTable.DeleteHH` | src/libraries/uthash.h:461-488 | list and buckets lose exactly the handle; the last handle takes the table with it; the same macro also completes a rollback |
| `HashTables.HashTable.RollbackBkt` | src/libraries/uthash.h:149-157 | makes a handle that left its chain look like one whose bucket still counts it, which is what the delete needs |
| `HashTables.HashTable.RecoverAdd` | src/libraries/uthash.h:331-335 | rollback and delete together restore list, counts and buckets of the time before the add |
| `HashTables.HashTable.AddToTable` | src/libraries/uthash.h:322-344 | from a listed handle to a valid table, or back to the table before the add when the expansion cannot allocate |
| `HashTables.HashTable.MakeTable` | src/libraries/uthash.h:223-253 | 32 empty buckets, an all-zero filter, growth on and all counters of the heuristic 0; fails exactly when one of its allocations fails |
| `HashTables.HashTable.AddFirst` | src/libraries/uthash.h:413-424 | the first handle makes a valid one-element table with fresh buckets, growth on and ineff_expands 0, or leaves the hash empty |
| `HashTables.HashTable.EnlistNext` | src/libraries/uthash.h:379-385 | the list part of an add touches neither the heuristic, nor the filter, nor the buckets, and the handle's bucket would expand after it exactly if before |
| `HashTables.HashTable.AddNextAt` | src/libraries/uthash.h:420-424 | adding at any list position keeps the whole invariant; it fails exactly if the table has to expand and cannot; a failed add leaves every link, bucket, chain, filter byte and counter of the heuristic as before; an add that does not expand leaves the heuristic as before, so noexpand and ineff_expands change only by an expansion |
| `HashTables.HashTable.Add` | src/libraries/uthash.h:407-426 | the list grows at the end; when exactly the add fails; a failed one leaves links, buckets, filter and heuristic as found; a first one starts with growth on; the heuristic changes only by the one expansion; no Bloom bit is cleared |
| `HashTables.HashTable.FindPosition` | src/libraries/uthash.h:297-304 | the loop stops at the first handle that compares greater, or behind the list |
| `HashTables.HashTable.AddInOrder` | src/libraries/uthash.h:361-392 | the list is the old one with the handle inserted before the first greater one; failure, heuristic and filter as for Add |
| `HashTables.HashTable.Delete` | src/libraries/uthash.h:458-488 | the list is the old one without the handle and the invariant holds, including the deletion of the last handle; no Bloom bit changes |
| `HashTables.HashTable.Evict` | src/libraries/uthash.h:269-271 | the deletion leaves heuristic and filter alone, and says whether the add that follows will expand the table |
| `HashTables.HashTable.Replace` | src/libraries/uthash.h:265-273 | deletes the handle with the key, if there is one, returns it, and appends the new one, which fails exactly if the bucket, one handle shorter after a deletion, has to expand and cannot; then the old handle is gone; heuristic and filter bits as for Add, a table rebuilt for the new handle included |
| `HashTables.HashTable.Sort` | src/libraries/uthash.h:983-1065 | the list is the mergesort of the old one, head, tail and links included; buckets and chains, hence every search, stay as they are |
| `HashTables.HashTable.FsckChain` | src/libraries/uthash.h:534-546 | the checker accepts a chain exactly if its back links are right, and counts it |
| `HashTables.HashTable.FsckList` | src/libraries/uthash.h:556-567 | the same for the list |
| `HashTables.HashTable.FsckBuckets` | src/libraries/uthash.h:531-551 | the checker accepts the buckets exactly if all back links and bucket counts are right, and adds up the chains |
| `HashTables.HashTable.Fsck` | src/libraries/uthash.h:526-573 | the checker finds nothing wrong exactly if all back links, bucket counts and both item counts are right, in every table with walkable forward links, valid or not |
| `HashTables.HashTable.ValidIsChecked` | src/libraries/uthash.h:526-573 | it finds nothing wrong with any valid table |
| `HashTables.HashTable.FindInBkt` | src/libraries/uthash.h:838-857 | the loop ends and returns the first handle of the chain with key and hash |
| `HashTables.HashTable.FindByHashValue` | src/libraries/uthash.h:164-174 | returns a handle with key and hash if the table has one and NULL otherwise; the result does not depend on the Bloom filter |
| `HashTables.FirstMatchIsMatch` | src/libraries/uthash.h:845-856 | the first match is a match, and NULL means there is none |
| `StableSort.StableSortUnique` | src/libraries/uthash.h:983-1065 | for any total preorder, a sequence has at most one stable sort |
| `StableSort.InsertAllStable` | src/libraries/uthash.h:297-304 | inserting one by one before the first greater element is a stable sort |
| `StableSort.PassSortsRuns` | src/libraries/uthash.h:997-1052 | a pass over sorted runs leaves sorted runs of twice the size |
| `StableSort.PassKeepsClasses` | src/libraries/uthash.h:1023-1038 | a pass keeps the order of elements that compare equal |
| `StableSort.MergeSortedStable` | src/libraries/uthash.h:979-1065 | the bottom-up mergesort is a sorted, stable permutation, for every list and every total preorder |
| `StableSort.SortOrders` | src/libraries/uthash.h:1017-1034 | no pair of the sorted list compares greater, for every comparison that is total and transitive, stated by the sign of its results |
| `StableSort.SortIsStable` | src/libraries/uthash.h:979-982 | of two elements that compare equal, the one that was first stays first |
| `StableSort.InsertAllIsMergeSorted` | src/libraries/uthash.h:361-392 | in-order insertion of all elements gives the same list as appending them all and sorting |
| `MergeSort.CountRun` | src/libraries/uthash.h:999-1008 | the run length and the start of the next run, also at the end of the list |
| `MergeSort.Pick` | src/libraries/uthash.h:1011-1038 | the left run wins ties and wins when the right one is used up |
| `MergeSort.Emit` | src/libraries/uthash.h:1039-1049 | the output grows by one handle at the end, doubly linked |
| `MergeSort.TakeOne` | src/libraries/uthash.h:1039-1049 | emitting overwrites links only of handles that will not be traversed again |
| `MergeSort.MergeStep` | src/libraries/uthash.h:1010-1050 | each iteration shortens the two runs and keeps output plus remaining merge constant |
| `MergeSort.MergeTwo` | src/libraries/uthash.h:1009-1050 | the loop ends with the merge of the two runs appended to the output |
| `MergeSort.MergeAllRuns` | src/libraries/uthash.h:997-1052 | all neighbouring runs are merged; at most one merge happens exactly when the list has at most two runs |
| `MergeSort.OnePass` | src/libraries/uthash.h:993-1055 | one pass in place, with the end of the list terminated |
| `MergeSort.SortStep` | src/libraries/uthash.h:992-1062 | a pass that made more than one merge has a longer list than its run size, so doubling the run size ends the loop |
| `MergeSort.Sort` | src/libraries/uthash.h:983-1065 | terminates with the list equal to the mergesort function, doubly linked, with the right head and tail |
| `Words.XorTwice` | src/libraries/uthash.h:651-659 | exclusive or with the same word undoes itself |
| `Words.XorBits` | src/libraries/uthash.h:651-659 | a bit of the exclusive or is set exactly if the two bits differ |
| `Words.ShrIsDiv` | src/libraries/uthash.h:651-659 | a right shift divides by a power of two |
| `Words.ShlIsTimes` | src/libraries/uthash.h:652-658 | a left shift multiplies by a power of two modulo 2^32 |
| `Jenkins.MixLines` | src/libraries/uthash.h:649-660 | the nine lines of the mixing step in plain arithmetic, with their nine shifts |
| `Jenkins.BlockWords` | src/libraries/uthash.h:670-678 | a block adds three little-endian words |
| `Jenkins.TailWords` | src/libraries/uthash.h:685-698 | the tail adds the missing words, with the key length in the lowest byte of the last one |
| `Jenkins.HashRounds` | src/libraries/uthash.h:662-700 | from the three constants, each block is added and mixed in, in order, and then the tail |
| `Jenkins.LengthSeparates` | src/libraries/uthash.h:685 | the length counts: zero bytes behind a key that do not begin another block change the final state |
| `Jenkins.MixBijective` | src/libraries/uthash.h:649-660 | the mixing step has an inverse on triples of 32-bit words |
| `Jenkins.JenMix` | src/libraries/uthash.h:649-660 | the nine statements, with wrap-around, compute the mixing function |
| `Jenkins.JenBlock` | src/libraries/uthash.h:670-678 | the twelve reads of one block, inside the key, in order and each position once |
| `Jenkins.JenTail` | src/libraries/uthash.h:685-698 | the fall-through switch adds the key length and exactly the bytes behind the last block, for each of the twelve cases, and reads each of them once, downwards |
| `Jenkins.BothOnce` | src/libraries/uthash.h:669-698 | reading up to a position and then the rest downwards reads every position of the key exactly once |
| `Jenkins.JenFinish` | src/libraries/uthash.h:684-699 | from a state of the block loop to the final state, all bytes read once |
| `Jenkins.HashJen` | src/libraries/uthash.h:662-700 | terminates for every key length; all three words end as in the final state of the specification, the hash value being the last; every byte of the key is read exactly once, and nothing else |
| `Jenkins.OneBlockSeparates` | src/libraries/uthash.h:662-700 | two keys of equal length that differ in one block only, or only in the tail, end in different states |
| `Jenkins.EveryByteCounts` | src/libraries/uthash.h:669-698 | changing any one byte of any key changes the final state |
| `Runs.StepRefines` | src/libraries/uthash.h:407-488 | each operation (add, in-order add, delete, replace, sort, find) keeps the list and a plain map in step |
| `Runs.KeptInMap` | src/libraries/uthash.h:407-488 | a handle that stays in the list stays the map's handle for its key |
| `Runs.RunRefines` | src/libraries/uthash.h:407-488 | so does every legal run |
| `Runs.ListIsSurvivors` | src/libraries/uthash.h:289-295 | after any run on an empty table without in-order adds and sorts, the list holds the surviving handles in insertion order |
| `Runs.InOrderIsAddAndSort` | src/libraries/uthash.h:361-392 | a run of in-order adds leaves the same list as a run of adds with a sort at the end, for every total preorder |
| `Runs.ExecuteAdd` | src/libraries/uthash.h:361-426 | on a table, a plain or in-order add changes the list as specified, or not at all when it fails; growth stays off if it was |
| `Runs.ExecuteDelete` | src/libraries/uthash.h:458-488 | on a table, a deletion changes the list as specified and never allocates |
| `Runs.ExecuteDrop` | src/libraries/uthash.h:164-174 | finding and deleting by key answers like the map and removes the map's handle, if any |
| `Runs.ExecuteReplace` | src/libraries/uthash.h:265-273 | on a table, a replacement returns what the map held and leaves the list as specified; a failed one is a deletion; growth stays off if the table lives on |
| `Runs.Execute` | src/libraries/uthash.h:164-488 | on a table, each operation, with the allocations it is given, changes the list as its effect says and answers like the map |
| `Runs.NothingFails` | src/libraries/uthash.h:164-488 | where nothing fails, the effects are the operations |
| `Runs.EnoughMemory` | src/libraries/uthash.h:164-488 | so with enough memory a run has the effects of its operations |
| `Runs.LegalWithEnough` | src/libraries/uthash.h:407-488 | with enough memory a run is legal under every failure that can happen exactly if it is legal |
| `Runs.TurnNext` | src/libraries/uthash.h:164-488 | one more operation, failed or not, keeps list, map and answers of a run in step |
| `Runs.PerformOne` | src/libraries/uthash.h:164-488 | the same for one operation on the heap table in the middle of a run |
| `Runs.Perform` | src/libraries/uthash.h:164-488 | a whole run under any allocation failures: every answer is the plain map's after the effects so far (a failed add does nothing, a failed replace deletes), through expansions and rebuilt tables; only operations without enough memory fail; the table is valid at the end; once growth is off, the bucket array never changes again while the table lives |
| `Runs.PerformWithEnough` | src/libraries/uthash.h:164-488 | with enough memory, every legal run, deletions of added handles included, is performed in full and answered like the plain map |
| `Codec.EncodeClient` | src/generic/data_helper.c:91-113 | the encoded length is the calculated size |
| `Codec.EncodeClientProtocol` | src/generic/data_helper.c:95-113 | the buffer that is filled step by step is the encoding |
| `Codec.ClientRoundTrip` | src/generic/data_helper.c:66-113 | decoding an encoded client message gives it back, for all key and value lengths |
| `Codec.ClientReencode` | src/generic/data_helper.c:66-113 | encoding a decoded exact-length message with defined flags only gives the bytes back |
| `Codec.EncodePeer` | src/generic/data_helper.c:39-41 | peer messages are 11 bytes long |
| `Codec.EncodePeerProtocol` | src/generic/data_helper.c:43-60 | the buffer that is filled step by step is the encoding |
| `Codec.PeerRoundTrip` | src/generic/data_helper.c:23-60 | decoding an encoded peer message gives it back, when each flag is 0 or its own bit |
| `Codec.PeerReencode` | src/generic/data_helper.c:23-60 | encoding a decoded 11-byte message gives the bytes back |
| `Codec.ClientDigits` | src/generic/data_helper.h:13-16 | each flag of a client message is its binary digit of the first byte: 16 ACK, 32 GET, 64 SET, 128 DELETE |
| `Codec.ClientLayout` | src/generic/data_helper.c:74-85 | key length, value length, key and value at their offsets, most significant byte first |
| `Codec.CompleteFormat` | src/generic/data_helper.c:74-85 | which byte strings are complete client messages, in numbers |
| `Codec.EncodedDigits` | src/generic/data_helper.c:100 | the flags the encoder writes, as binary digits |
| `Codec.EncodedLayout` | src/generic/data_helper.c:102-109 | the lengths, key and value the encoder writes, at their offsets |
| `Codec.PeerFormat` | src/generic/data_helper.c:23-37 | each of the eight flags and four fields of a peer message in binary digits and offsets |
| `Codec.KindsSeparated` | src/generic/data_helper.c:62-64 | the first byte separates every control message from every client message |
| `Codec.CopyAt` | src/generic/data_helper.c:106-109 | appends to what the buffer already holds |
| `HashFunctions.GetHashValue` | src/generic/hash_helper.c:58-62 | the hash the table and the routing use is HASH_JEN |
| `Stores.Store.constructor` | src/generic/hash_helper.c:5 | the store starts empty |
| `Stores.Store.Get` | src/generic/hash_helper.c:31-48 | NULL exactly for a missing key, otherwise the element of the key |
| `Stores.Store.AddElement` | src/generic/hash_helper.c:11-15 | a new element under a new key, at the end of the list |
| `Stores.Store.Locate` | src/generic/hash_helper.c:8-18 | the element of the key, old or new; nothing else of the map changes |
| `Stores.Store.Assign` | src/generic/hash_helper.c:20-22 | writing the value changes the map at that key only |
| `Stores.Store.Set` | src/generic/hash_helper.c:7-23 | as a map: the update at the key |
| `Stores.Store.Remove` | src/generic/hash_helper.c:53-55 | removing a present element removes its key |
| `Stores.Store.DeleteElement` | src/generic/hash_helper.c:51-56 | as a map: the removal of the key; a fault exactly when the key is missing |
| `Services.KeyIdIsLow` | src/peer.c:224 | ids differ from hashes by multiples of 65536 only |
| `Services.EffectOfFlags` | src/peer.c:18-67 | what each combination of flags leaves in the map, and which one is fatal |
| `Services.ReplyBytes` | src/peer.c:27-65 | the bytes of a miss and of both acknowledgements, and the order of the replies |
| `Services.AnswerGet` | src/peer.c:21-44 | a miss, or the reply and the request with the stored value filled in |
| `Services.AnswerSet` | src/peer.c:45-56 | the SET part |
| `Services.AnswerDelete` | src/peer.c:57-66 | the DELETE part, with its fault |
| `Services.PartsCompose` | src/peer.c:18-67 | GET, SET and DELETE in sequence have the net effect of the map server: a SET beside a GET writes nothing, DELETE has the last word, and only a pure DELETE of a missing key faults |
| `Services.Respond` | src/peer.c:18-67 | state, replies and fault of every request are the map server's |
| `Services.ServeOne` | src/peer.c:18-67 | the same from bytes to bytes within a run; a request the server dies of changes nothing |
| `Services.Serve` | src/peer.c:18-67 | whole runs of raw requests: replies and store are the map server's up to the first fault |
| `Services.GetSetKeeps` | src/peer.c:36-49 | a run of requests that all GET and do not DELETE leaves the map as it was and is survived, whatever SET flags and values they carry |
| `Services.LastWriteWins` | src/peer.c:18-67 | at every moment of a run a key holds what the last request that writes it put there, or nothing if that was a DELETE |
| `Services.GetReplyDecodes` | src/peer.c:27-43 | the client decodes a hit to the stored value under its own key and flags, and a miss to an empty acknowledged GET |
| `Services.GetReturnsLastWrite` | src/peer.c:18-67 | end to end: the decoded reply to a GET in a run carries the value of the last write of its key, or the value from before the run, or is the empty acknowledged GET, whichever applies |
| `Services.SetInRun` | src/peer.c:45-48 | a request whose first byte has SET without GET and DELETE updates the map at its key |
| `Services.DeleteInRun` | src/peer.c:57-58 | one with DELETE and without GET removes its key |
| `Services.KeyStays` | src/peer.c:18-67 | requests with other keys leave a key alone |
| `Services.GetAfterSet` | src/peer.c:18-67 | on the wire: a GET after a SET of its key, with other keys only in between, is acknowledged with the value that was set |
| `Services.GetAfterDelete` | src/peer.c:18-67 | a GET after a DELETE of its key gets the seven bytes of a miss |
| `Services.ServedGet` | src/peer.c:18-67 | the same for the replies the server returns: entry n answers request n in this way |
| `PeerInfos.Record.Fill` | src/peer.c:151-153 | address and id are overwritten, is_base stays |
| `PeerInfos.PeerInfo.constructor` | src/peer.c:270-274 | a peer starts alone, not a base peer, with an empty store |
| `PeerInfos.PeerInfo.Notify` | src/generic/network.c:248-262 | the message names one peer and goes to another |
| `PeerInfos.PeerInfo.Stabilize` | src/generic/network.c:264-276 | the message names the sender and goes to the next peer |
| `PeerInfos.PeerInfo.SendFoundLookup` | src/generic/data_helper.c:143-157 | the reply names the next peer, and goes to the next peer because the address is overwritten first |
| `PeerInfos.PeerInfo.FirstJoin` | src/peer.c:135-147 | a lone peer takes the joiner for both neighbours, in two records |
| `PeerInfos.PeerInfo.HandleJoin` | src/peer.c:133-162 | in place: the reaction of the pure step, with its NULL dereference |
| `PeerInfos.PeerInfo.HandleNotify` | src/peer.c:163-170 | in place: next is overwritten, or NULL is dereferenced |
| `PeerInfos.PeerInfo.HandleStabilize` | src/peer.c:171-183 | in place: the four cases of the pure step |
| `PeerInfos.PeerInfo.HandleLookup` | src/peer.c:201-214 | in place: answers or forwards |
| `PeerInfos.PeerInfo.ReceiveControl` | src/peer.c:93-218 | the dispatch over the flags, in the order of the code |
| `PeerInfos.PeerInfo.KeyIdIsCut` | src/peer.c:224 | the id of a key is HASH_JEN of it, cut off to 16 bits |
| `Peers.FirstFlagDecides` | src/peer.c:93-217 | the first set digit of the flags, from finger to lookup, decides what is done |
| `Peers.BranchDies` | src/peer.c:91-217 | for every peer and message, exactly when a branch of the handler reads a missing neighbour |
| `Peers.LinkedPeerDies` | src/peer.c:184-199 | a peer with both neighbours dies of replies and of no other control message |
| `Peers.LonePeerDies` | src/peer.c:163-214 | exactly which control messages kill a peer without neighbours |
| `Peers.RouteDies` | src/peer.c:228-233 | exactly for which ids routing a client request kills a peer that lacks neighbours |
| `PeerInfos.PeerInfo.ReceiveClient` | src/peer.c:219-255 | serve, redirect, drop or crash, by the id of the key; a served request gets the map server's answer |
| `PeerInfos.PeerInfo.ReceiveHandler` | src/peer.c:90-256 | control messages never touch the store and client messages never touch the neighbours |
| `Rings.RouteInRing` | src/peer.c:228-240 | in a ring a peer serves exactly the ids in the gap below it, redirects exactly those in the gap above it, and drops the rest |
| `Rings.OneResponsible` | src/generic/data_helper.c:131-133 | at most one peer of a ring is responsible for an id |
| `Rings.ResponsibleExists` | src/helper/max/extended_math.h:14 | some peer is responsible if and only if the id is strictly inside a gap that does not wrap around |
| `Rings.RedirectIsServed` | src/peer.c:231-240 | the peer a request is redirected to serves it |
| `Rings.ReactLookup` | src/peer.c:201-214 | a peer of a ring answers a lookup exactly for the gap above it and forwards the bytes otherwise |
| `Rings.LookupTravels` | src/peer.c:208-214 | outside its gap a lookup moves on one peer per delivery, unchanged, for any number of deliveries |
| `Rings.LookupIsAnswered` | src/peer.c:201-214 | from any peer, at most n - 1 forwards and then a reply naming the one upper neighbour, who is the peer that would serve the id; no peer changes before the next delivery, in which this peer dies of the reply |
| `Rings.LookupAtGap` | src/peer.c:205-207 | the delivery that answers and the one that kills |
| `Rings.DeliverReply` | src/peer.c:184-199 | a reply kills whoever it is delivered to |
| `Rings.LookupEnds` | src/peer.c:201-214 | a control message that is a lookup is answered if and only if its id is inside a gap; otherwise it is forwarded for ever |
| `Rings.ReplyIsFatal` | src/peer.c:184-199 | any peer that receives a reply with the control bit dereferences NULL, because the queue macros never run |
| `Joins.NotifyNeedsNext` | src/peer.c:163-170 | a notify is fatal exactly for a peer without a next record |
| `Joins.WaveStep` | src/peer.c:179-180 | a stabilize passes a correct link and changes nothing |
| `Joins.WaveTravels` | src/peer.c:171-183 | so does a wave over any number of correct links |
| `Joins.WaveAtBase` | src/peer.c:179-183 | at a base peer the wave turns round and makes its sender its own next peer |
| `Joins.StabilizeFixesRing` | src/peer.c:171-183 | a consistent ring is a fixed point of stabilize, for ever and from any peer, if and only if it has no base peer |
| `Joins.ReactJoin` | src/peer.c:149-162 | a peer of a ring takes a joiner exactly in the gap below it and forwards the bytes otherwise |
| `Joins.JoinOutside` | src/peer.c:157-162 | a joiner in no gap is forwarded for ever |
| `Joins.JoinIsWelcomed` | src/peer.c:149-170 | from any entry peer the join reaches the upper neighbour, who takes it, and the joiner learns of that neighbour |
| `Joins.FirstWave` | src/peer.c:171-183 | a wave from any peer, the joiner included, makes the lower neighbour know the joiner |
| `Joins.SecondWave` | src/peer.c:173-178 | a second wave, from any peer again, makes the joiner know the lower neighbour |
| `Joins.LinkedIsRing` | src/peer.c:133-183 | the result is a consistent ring of one more peer, in id order |
| `Joins.JoinGrowsRing` | src/peer.c:133-183 | one join and two waves, each started by any peer, old or new, complete the ring; no other link changes |
| `Joins.FirstJoinMakesRing` | src/peer.c:135-147 | a lone peer and its first joiner are a ring after one wave, whichever id is smaller |
| `Building.DeliverSame` | src/peer.c:90-218 | what a delivery does depends on addresses only, not on the order in which the peers are listed |
| `Building.AfterSame` | src/peer.c:90-218 | nor does what any number of deliveries do |
| `Building.RoundMakesRing` | src/peer.c:133-183 | from any ring, a join through any peer and two waves, each started by any peer, old or new, make a ring of one more peer |
| `Building.RoundHappens` | src/peer.c:133-183 | such a round can always be completed, whoever lets the joiner in and whoever starts the waves |
| `Building.FirstRoundMakesRing` | src/peer.c:135-147 | a lone peer, its first joiner and one wave of either make a ring of two |
| `Building.JoinsMakeRing` | src/peer.c:133-183 | n joins from a lone peer, one after the other, make a ring of n + 1, for every n |
| `Overlaps.StabilizeKeepsOut` | src/peer.c:171-183 | a peer that is asked keeps the previous record it has, does not take the peer left out, and does not name it in its answer |
| `Overlaps.StaysLeftOut` | src/peer.c:163-183 | a peer that nobody names and nobody has a place for is never named again, whoever sends stabilize and in whatever order messages arrive |
| `Overlaps.NeverRing` | src/peer.c:163-183 | so the peers never form a ring again, in whatever order messages arrive |
| `Overlaps.OverlapNeverRing` | src/peer.c:149-183 | the shortest way there from two joins into one gap of any ring: the lower neighbour stabilizes twice before the joiners do |
| `Decisions.AskedPeer` | src/peer.c:171-183 | after two joins into one gap, every answer to a stabilize names only a peer that may be named, and only the second joiner can be undecided |
| `Decisions.OpenStep` | src/peer.c:163-183 | the second joiner takes a previous peer only when a stabilize of the first joiner or of the lower neighbour is delivered to it |
| `Decisions.RunDecided` | src/peer.c:163-183 | over all runs: the ring stays open, or becomes possible for ever, or the first joiner is left out for ever |
| `Completions.Completes` | src/peer.c:163-183 | while it is not left out, waves complete the ring of all peers, whatever else is under way |
| `Completions.BecomesSteady` | src/peer.c:163-183 | and what is under way can be worked off without losing the ring |
| `Completions.StaysSteady` | src/peer.c:163-183 | a ring with nothing under way but waves along its links stays, whatever happens |
| `Completions.OverlapDecided` | src/peer.c:149-183 | after two joins into one gap, at any moment of any run: there can be a ring, and then one for good, if and only if the second joiner has not taken the lower neighbour for its previous peer; no peer dies |
| `Completions.OpenBeforeAsked` | src/peer.c:171-183 | until a stabilize reaches the second joiner there is no ring, but there can be one |
| `Completions.FirstAskDecides` | src/peer.c:171-183 | the first stabilize to reach the second joiner decides: that of the first joiner, and there can be a ring ever after; that of the lower neighbour, and there never is one |
| `Clusters.EnterInRing` | src/peer.c:219-243 | in a ring, a client request is served by the peer it is sent to or by the next one, whose replies are handed back, or dropped |
| `Clusters.EnterIsService` | src/peer.c:219-243 | a request that reaches the responsible peer is answered like by a server for the union of all stores, and keeps every key at home |
| `Clusters.ClusterIsOneMap` | src/peer.c:219-243 | at every moment of a run of requests to any peers, the stores are the map of a single server that gets the requests that reach a responsible peer |
| `Clusters.ClusterReplies` | src/peer.c:219-243 | every request gets the single server's replies, or none if it reaches no responsible peer; it is fatal exactly when it is for the single server |
| `Clusters.ClusterGet` | src/peer.c:219-243 | a GET that reaches the responsible peer returns the last write of its key, wherever in the ring the write was sent |
| `Witnesses.DeletingNothingIsFatal` | src/generic/hash_helper.h:38 | an actual DELETE that the server dies of |
| `Witnesses.SettingFirstIsSafe` | src/peer.c:45-66 | the same DELETE with a SET in the message is harmless |
| `Witnesses.LookupOfSevenKills` | src/generic/data_helper.c:143-157 | an actual lookup in a ring of two that kills a peer |
| `Witnesses.LookupOfThreeNeverEnds` | src/helper/max/extended_math.h:14 | an actual lookup that is never answered, and that no peer would serve |
| `Witnesses.JoinOfThreeNeverEnds` | src/peer.c:157-162 | an actual join that is never taken |
| `Witnesses.SixIsLeftOut` | src/peer.c:149-183 | an actual pair of overlapping joins of which one fails for ever |
| `Witnesses.SixCanGetIn` | src/peer.c:149-183 | the same pair can both get in for good |
| `Witnesses.DeleteIsNoLookup` | src/peer.c:93 | a client DELETE that has the flag bits of a lookup is a client message, because it lacks the control bit |

## Left out

- `set` hands the table the caller's key pointer and not its copy. Key bytes are immutable values here.
- Keys and hashes of handles are fixed when the handle is made. Adding the same handle again under another key is not modelled; nor is the `tbl` pointer of a handle, which names the one table it is in.
- Counters of the table are unbounded; wrap-around of `num_items`, `num_buckets` or `count` at 2^32 is not modelled.
- The build with HASH_NONFATAL_OOM is modelled. The other build, which exits when an allocation fails, is the same with all allocations succeeding.
- Freed memory: `uthash_free` and `free` have no counterpart. After the last delete the old bucket array is merely unreachable.
- HashTables.HashTable.Replace: replacing with a handle that is already in the table is modelled only if no other handle has its key; it then replaces itself.
- HASH_SELECT, the secondary handles it makes, the other hash functions, HASH_ITER and the convenience macros.
- Bits of the C `bool` flags other than the defined ones: a flag field holds 0 or its own bit.
- The over-long copy the client branch makes for the queue (`src/peer.c:246-248`), which is never used.
- Sockets, connection set-up, address and port strings, logging, process start and the disabled stabilizer thread. Sending is a list of envelopes, and a wave starts when some peer sends stabilize.
- Fingers: no peer ever has one, so only the address read in `buildfinger` remains.
- Several joins at the same time, except for two into one gap, which are followed from the moment the upper neighbour has taken both, the lower id first, and both joiners know it. Waves before that moment and the other order of the two joins are not followed.
- Client messages do not change neighbours (`PeerInfos.PeerInfo.ReceiveHandler`), and control messages do not change stores. `Clusters` follows the former in a ring whose links stay, up to the first fault, and the other modules follow the latter.
- `redirect` hands back what one receive call returns. `Clusters` hands back all replies of the responsible peer.
- src/server.c, src/client.c and the test scripts.
