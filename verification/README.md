# A Dafny model of the BTP2 relay core

This project models the parts of the relay that other chains have to be able to trust, and proves what
they promise. It is checked with `dafny verify dfyconfig.toml` (Dafny 4.11).

- **Merkle binary tree** (`common/mbt`). A tree is built lazily from contents, range proofs and paths are
  cut out of it, and a proof is checked by re-running the same lazy insertion on collapsed subtrees of
  different sizes. `MerkleTree.dfy` has insertion, hashing and the shape check as functions on trees,
  next to the reference they are measured against: the root hash of a list of leaves, split at the
  largest power of two. `MerkleProof.dfy` has the proofs: they are complete for every range, and binding.
  `MerkleCut.dfy` says which subtrees a proof is made of: the largest ones, so that there is only one proof.
  `MerkleCounts.dfy` says exactly which counts a caller has to refuse for binding to hold.
  `MerkleNode.dfy` has the node objects whose fields are overwritten in place.
- **Merkle tree accumulator** (`common/mta`). Its abstract value is the sequence of all leaf hashes added
  so far. `AccumulatorBits.dfy` is the arithmetic of binary digits, `AccumulatorWitness.dfy` says what an
  accumulator of a leaf sequence answers and how witnesses of different lengths relate,
  `AccumulatorNode.dfy` has the nodes with cached hashes, loading and flushing, `Accumulator.dfy` the
  accumulator objects with the invariant that every operation keeps, and `AccumulatorRun.dfy` whole runs of
  adding, asking, checking, flushing and recovering.
- **RLP and integers** (`common/codec`, `common/intconv`). `IntConv.dfy` has the integer encodings, `Rlp.dfy`
  the encoding of item trees and the reading cursor with the limits of nested lists, `RlpShortest.dfy` the
  proof that no shorter bytes are read as the same item, and `RlpStream.dfy` the reader and writer objects.
- **Relay link** (`common/link/link.go`). `Link.dfy` has the link object; every channel event is one call,
  and what the receiver and the sender answer is arbitrary, or follows a contract for an honest receiver.
  What the receiver hands out is on record, and the books of the link balance with it after every event.
- **Transaction serialiser** (`chain/icon/client/serialize.go`). `Serialize.dfy` has the text of a value and a
  parser for it, `SerializeMethods.dfy` the loops that write the text.
- **Layered database** (`common/db/layer_db.go`). `LayerDb.dfy` has the buckets that keep changes in memory.

A hash function is a parameter everywhere and is never assumed to be injective. A binding result says:
what was checked is right, or two of the byte strings that were hashed on either side, a finite set that
the statement names, collide. A store result assumes that the byte strings involved do not collide.
Buckets and databases accept a number of writes and fail after that; every flush says exactly when it
succeeds, and what is left when it does not.

Where the code does less than its neighbours suggest, the model follows the code:

- The search of an older accumulator for the slot of a leaf does not skip empty slots
  (`common/mta/accumulator.go:430-437`). `NewerWitnessAccepted` states exactly when it still works, and
  `NewerWitnessGap` names a length and a leaf for which it does not.
- The check of a range proof does not look at the counts of the collapsed subtrees
  (`common/mbt/proof.go:137-162`), and it adds them up in 64 bits. A caller has to refuse counts below 1 and counts that,
  together with the contents, add up to more than 2^64: `CountCheckIsExact` shows that binding holds for all
  proofs within bounds on the counts and on their true sum exactly if the bounds are at least that strict. With
  a count of zero another content can pass (`ZeroCount`); with a negative count the contents of a tree of 16,
  32, 64 ... contents can pass for contents after its end, without any collision (`NegativeCount`); with four
  counts of 2^62 the number of leaves wraps to zero, the shift of the shape check wraps to the same zero, and
  another content can pass again (`WideCount`).
- A raw item with a size close to the largest integer is not refused: the size wraps to a negative one and the
  buffer cannot be made (`common/codec/rlp.go:328-332`). `RawSizePanics` gives nine bytes that do it.
- A witness that stands for no leaf, because its length is too small for it, is not refused by a newer
  accumulator (`common/mta/accumulator.go:413-426`): `NegativeHeightAccepted` gives the smallest one.
  `VerifyWithLengthBinding` says what an accepted hash then is.
- A message proof is lost when closing the message before it, or building the block proof in front of it, fails
  (`common/link/link.go:402-420`): the status after it has been taken over already. `AppendProof` says that
  nothing else is lost, and `Run` that a call that does not end in an error loses nothing.
- `removeRelayMessage` always returns 0, because the loop variable hides the result
  (`common/link/link.go:495-502`), so an already-verified result always empties the queue.
- A list drops empty strings at its start, and a number looks like its digits
  (`chain/icon/client/serialize.go:60-74`, `chain/icon/client/serialize.go:108-111`). `SameTextIff` says for
  all values when two of them have the same text.

## Model

| member | source | states |
|---|---|---|
| `MerkleTree.NumberToLevel` | common/mbt/proof.go:8-23 | the shifting loop gives the level of every number, also of zero and of negative ones |
| `MerkleTree.LevelBounds` | common/mbt/proof.go:8-23 | the level of a positive number of leaves is 1 + ceil(log2 n) |
| `MerkleTree.LazyAddCounts` | common/mbt/tree.go:109-135 | insertion of a non-empty block keeps counts and levels consistent, and says when the level rises |
| `MerkleTree.LazyAddNewBlock` | common/mbt/tree.go:109-135 | the inserted block comes after all leaves |
| `MerkleTree.LazyAddOldBlocks` | common/mbt/tree.go:109-135 | insertion moves no block |
| `MerkleTree.LeftCompleteLevel` | common/mbt/tree.go:109-135 | in a left-complete tree every level is the level of the number of leaves |
| `MerkleTree.ShlOfLevel` | common/mbt/proof.go:56-58 | for a positive count the shift of the shape check, in 64 bits, gives that count exactly when it is that power of two |
| `MerkleTree.VerifyIffLeftComplete` | common/mbt/proof.go:42-65 | the shape check accepts exactly the trees whose left children hold a power of two of leaves and whose right children hold no more than their siblings |
| `MerkleTree.LazyAddLeftComplete` | common/mbt/tree.go:109-135 | inserting a block of s leaves after m leaves keeps a tree left-complete if m is a multiple of a power of two that is at least s |
| `MerkleTree.LazyAddDenotes` | common/mbt/tree.go:109-135 | inserting the root hash of the next leaves extends the range of leaves the tree stands for |
| `MerkleTree.EnsureHashCommits` | common/mbt/tree.go:137-150 | filling in hashes gives every node of a left-complete tree the reference root hash of its leaves |
| `MerkleTree.BuildHasBlocks` | common/mbt/proof.go:137-150 | after any run of insertions every block is in the tree, after exactly the leaves of the blocks before it |
| `MerkleTree.BuildStanding` | common/mbt/proof.go:137-150 | a run of blocks that cover the leaves and fit gives the left-complete tree of those leaves |
| `MerkleProof.LeftCovers` | common/mbt/proof.go:25-40 | the left part of a proof covers what precedes a leaf, with perfect subtrees that fit |
| `MerkleProof.RightCovers` | common/mbt/proof.go:25-40 | the right part covers what follows a leaf, and only its last subtree may be partial |
| `MerkleProof.TreeOfCommits` | common/mbt/tree.go:207-225 | a tree built leaf by leaf carries the reference root hash at every node |
| `MerkleProof.RangeProofComplete` | common/mbt/proof.go:94-162 | for every list of contents and every range, the proof cut out of the tree is accepted and gives the root hash of the tree, the contents before the range and the size of the tree |
| `MerkleProof.RangeProofHashed` | common/mbt/proof.go:94-135 | checking a proof that was cut out of a tree never meets a collapsed subtree without a hash |
| `MerkleProof.PathComplete` | common/mbt/path.go:8-55 | following the path of any content from its hash gives the root hash |
| `MerkleProof.BindTree` | common/mbt/proof.go:137-162 | a leaf of an accepted tree with the right root hash is the leaf at that position, if the hashed inputs do not collide |
| `MerkleProof.RangeProofBinding` | common/mbt/proof.go:137-162 | an accepted proof with positive counts that do not add up to more than 2^64, and with the root hash and size of a tree, carries exactly the contents of that tree at its positions, or two of the inputs hashed on both sides collide |
| `MerkleCut.LeftLargest` | common/mbt/proof.go:25-40 | every subtree to the left of a leaf has as many leaves as the last binary digit of the number of leaves up to its end; there are fewer of them than levels |
| `MerkleCut.RightLargest` | common/mbt/proof.go:25-40 | every subtree to the right of a leaf has as many leaves as the last binary digit of the number of leaves before it, or all that are left; there are fewer of them than levels |
| `MerkleCut.LeftDigits` | common/mbt/proof.go:25-40 | the counts of the left part are strictly decreasing powers of two |
| `MerkleCut.RightGrows` | common/mbt/proof.go:25-40 | the counts of the right part are strictly increasing powers of two up to the last |
| `MerkleCut.RangeProofShape` | common/mbt/proof.go:94-135 | for every range the proof is made of the largest subtrees in front of it and behind it, each with its root hash, and of fewer than two for every level |
| `MerkleCut.RangeProofUnique` | common/mbt/proof.go:94-135 | there is no other proof of the range like that |
| `MerkleCounts.CountCheckIsExact` | common/mbt/proof.go:137-162 | proofs with counts from a given number on and with a true total up to another one are bound to the contents of the tree exactly if the first number is at least 1 and the second at most 2^64 |
| `MerkleCounts.ZeroCount` | common/mbt/proof.go:137-162 | a count of zero: a tree of the one content H(x) + v accepts the content x instead |
| `MerkleCounts.NegativeCount` | common/mbt/proof.go:137-162 | a negative count: for every tree of 16, 32, 64 ... contents a proof is accepted that puts its third quarter after its end |
| `MerkleCounts.WideCount` | common/mbt/proof.go:42-65 | positive counts that wrap: with four subtrees of 2^62 leaves a tree of one content accepts another content |
| `MerkleNode.Node.LazyAdd` | common/mbt/tree.go:109-135 | insertion in place does to the object tree what insertion does to the value |
| `MerkleNode.Node.EnsureHash` | common/mbt/tree.go:137-150 | hashing in place, without touching anything outside the tree; it panics exactly if a collapsed subtree of several leaves has no hash |
| `MerkleNode.Node.Verify` | common/mbt/proof.go:42-65 | the first shape error in visiting order, or none |
| `MerkleNode.Node.Proof` | common/mbt/proof.go:25-40 | the siblings on the way to a leaf, one for every step, from the leaf upwards; `LeftLargest` and `RightLargest` say which subtrees they are |
| `MerkleNode.Node.Path` | common/mbt/path.go:8-22 | the path of a leaf, from the leaf upwards |
| `MerkleNode.MerkleBinaryTree.constructor` | common/mbt/tree.go:207-225 | the object tree of the contents |
| `MerkleNode.MerkleBinaryTree.New` | common/mbt/tree.go:207-225 | a missing hash function and a missing content are refused, anything else gives the tree of the contents |
| `MerkleNode.MerkleBinaryTree.Root` | common/mbt/tree.go:186-191 | the reference root hash of the contents, nothing for an empty tree |
| `MerkleNode.MerkleBinaryTree.Get` | common/mbt/tree.go:193-198 | contents by number from 1, out of range otherwise |
| `MerkleNode.MerkleBinaryTree.Proof` | common/mbt/proof.go:94-135 | which ranges are refused and how; every other proof carries the contents of the range and, on either side, the largest subtrees that fit with their root hashes, fewer than two for every level, and is accepted with root hash, position and size |
| `MerkleNode.MerkleBinaryTree.Path` | common/mbt/path.go:35-43 | the path of every content leads to the root hash |
| `MerkleNode.Reversed` | common/mbt/proof.go:128-133 | filling the list from its end reverses it |
| `MerkleNode.Root` | common/mbt/proof.go:137-162 | checking rebuilds the tree of the pieces, hashes it, compares the totals and checks the shape, with all sums in 64 bits; it panics exactly if a hash is missing |
| `MerkleNode.RootByPath` | common/mbt/path.go:45-55 | the hash after following a path |
| `AccumulatorWitness.PerfectRootPrefix` | common/mta/accumulator.go:128-141 | the root hash of a perfect tree depends on no leaf outside its block |
| `AccumulatorWitness.FoldWitnesses` | common/mta/accumulator.go:381-394 | folding the witness of a leaf from its hash gives the root hash of its block |
| `AccumulatorWitness.HistoricalWitness` | common/mta/accumulator.go:373-379 | a witness asked for an earlier length is the witness the accumulator gave at that length |
| `AccumulatorWitness.DirectionsFromIndex` | common/mta/accumulator.go:469-481 | directions can be rebuilt from the hashes and the index alone |
| `AccumulatorWitness.HeightFromWitness` | common/mta/accumulator.go:483-504 | the index of a leaf can be read off its witness and the length |
| `AccumulatorWitness.HeightDigits` | common/mta/accumulator.go:483-504 | the low digits of the index computed in 64 bits are the directions, whatever length is given |
| `AccumulatorWitness.OwnWitness` | common/mta/accumulator.go:381-406 | an accumulator accepts its own witness of every leaf |
| `AccumulatorWitness.OlderWitnessAccepted` | common/mta/accumulator.go:408-426 | a newer accumulator accepts every witness given at any earlier length |
| `AccumulatorWitness.FullSlotIs` | common/mta/accumulator.go:428-437 | the search that skips no slot stops at the slot of the leaf or at the highest empty slot above it |
| `AccumulatorWitness.NewerWitnessAccepted` | common/mta/accumulator.go:408-440 | an older accumulator rejects a leaf it does not hold as newer, and accepts a newer witness of a leaf it holds exactly when no slot above the one of the leaf is empty |
| `AccumulatorWitness.NewerWitnessGap` | common/mta/accumulator.go:430-437 | an accumulator of nine leaves does not accept any newer witness of leaf 8 |
| `AccumulatorWitness.FoldBufferDigests` | common/mta/accumulator.go:381-394 | folding through the reused buffer is folding by concatenation when all hashes are digests |
| `AccumulatorWitness.VerifyBinding` | common/mta/accumulator.go:381-406 | an accepted hash is the hash of the leaf that the directions select in the slot of the length of the witness, or two of the inputs hashed on both sides collide |
| `AccumulatorWitness.VerifyWithLengthBinding` | common/mta/accumulator.go:408-440 | a hash accepted with a witness of any length, older, newer or the same, is the hash of the leaf that the witness stands for, or two of the inputs hashed on both sides collide |
| `AccumulatorWitness.NegativeHeightAccepted` | common/mta/accumulator.go:413-426 | an empty witness of length 0 stands for no leaf and is still accepted for the first leaf |
| `AccumulatorNode.RepresentsHash` | common/mta/accumulator.go:64-69 | the hash of a node, cached or not, is the root hash of its block |
| `AccumulatorNode.TouchRepresents` | common/mta/accumulator.go:128-141 | caching hashes changes nothing of what a node stands for |
| `AccumulatorNode.ResolveRepresents` | common/mta/accumulator.go:79-102 | loading a stored block gives a node that stands for the same block |
| `AccumulatorNode.WitnessForRepresents` | common/mta/accumulator.go:104-182 | the witness below a node is the witness of the leaf, in memory or not, and the node still stands for its block |
| `AccumulatorNode.GetNodeRepresents` | common/mta/accumulator.go:526-555 | the node found for a leaf has the hash of the leaf |
| `AccumulatorNode.SetExtends` | common/mta/accumulator.go:157-159 | writing bytes under their hash keeps every entry if the known bytes do not collide |
| `AccumulatorNode.FlushRepresents` | common/mta/accumulator.go:143-221 | flushing keeps what a node stands for and every entry, even if it fails on the way; if it succeeds the whole block is in the bucket and nothing of the node is left to be written |
| `AccumulatorNode.CleanWritten` | common/mta/accumulator.go:143-221 | when nothing of a node is left to be written, all data of leaves below it is in the bucket under its hash |
| `AccumulatorNode.FlushCost` | common/mta/accumulator.go:143-162 | flushing a node succeeds exactly when one write for every node that is not flushed yet does |
| `AccumulatorNode.RepresentsWrites` | common/mta/accumulator.go:143-162 | flushing writes nothing but the data held and what the tree of the block hashes |
| `Accumulators.CarryPlaced` | common/mta/accumulator.go:240-255 | putting the carried tree into an empty slot gives the slots of one more leaf |
| `Accumulators.CarryMerged` | common/mta/accumulator.go:255-267 | merging with a filled slot carries a tree of twice the size, and the witness grows by the left sibling |
| `Accumulators.InsertData` | common/mta/accumulator.go:240-268 | an insertion adds the data of the new leaf to the data held and loses none |
| `Accumulators.InsertHolds` | common/mta/accumulator.go:240-268 | after an insertion slot i is filled exactly when bit i of the length is set, with the perfect tree of its aligned block; the witness returned is the one of the new leaf and is accepted |
| `Accumulators.Accumulator.AddNodeAt` | common/mta/accumulator.go:240-268 | the recursive insertion changes slots and length as the carry of a binary counter |
| `Accumulators.Accumulator.AddHash` | common/mta/accumulator.go:331-337 | one more leaf, the invariant kept, a witness that verifies |
| `Accumulators.Accumulator.AddData` | common/mta/accumulator.go:339-347 | the same with the hash of the data as the leaf; the data is held from then on |
| `Accumulators.Accumulator.WitnessFor` | common/mta/accumulator.go:349-371 | the witness of every leaf held, not found beyond, the first leaf for a negative index |
| `Accumulators.Accumulator.WitnessForWithAccLength` | common/mta/accumulator.go:373-379 | for an earlier length, the witness of the accumulator of that length |
| `Accumulators.Accumulator.Verify` | common/mta/accumulator.go:381-406 | the outcome for any witness and hash of any sizes, as a function of the leaves |
| `Accumulators.Accumulator.VerifyWithAccLength` | common/mta/accumulator.go:408-440 | the outcome for a witness of any other length, as a function of the leaves |
| `Accumulators.Accumulator.SlotAsIfFull` | common/mta/accumulator.go:429-437 | the search that treats every slot as filled |
| `Accumulators.Accumulator.GetNode` | common/mta/accumulator.go:442-459 | the node of a leaf has the hash of the leaf |
| `Accumulators.Accumulator.FlushRoots` | common/mta/accumulator.go:275-284 | flushes every slot; succeeds exactly when all the writes it takes do, keeps every entry, and then every branch of every slot and all data held is stored |
| `Accumulators.Accumulator.Flush` | common/mta/accumulator.go:275-295 | when it succeeds, and that twice as many writes as leaves and one more are always enough; then the bucket holds the whole accumulator and all data held, each under its hash; a failed write loses nothing, not even the state saved before |
| `Accumulators.Accumulator.LoadRoots` | common/mta/accumulator.go:311-321 | one slot for every saved root hash |
| `Accumulators.Accumulator.Recover` | common/mta/accumulator.go:297-324 | recovering a flushed accumulator gives the accumulator of the same leaves, and an empty one if there is no state; no data is held then |
| `Accumulators.FlushThenRecover` | common/mta/accumulator.go:275-324 | an accumulator recovered after a flush has the same leaves, and so the same answers; after a flush that failed it has the leaves saved before |
| `AccumulatorRun.Step` | common/mta/accumulator.go:240-440 | every operation gives the answer that the plain leaves give, and keeps accumulator and bucket in step with them |
| `AccumulatorRun.Run` | common/mta/accumulator.go:240-440 | in every run of adding, asking, checking, flushing and recovering the slot invariant holds, all answers are those of the plain leaves, recovering gives the leaves of the last flush that did not fail, and all data that was held at such a flush is in the bucket under its hash, if nothing that the run may hash collides; no flush fails in a run of n operations on a bucket that takes n * (2 * n + 1) writes |
| `Accumulators.GetDepthByHeightAndAccLength` | common/mta/accumulator.go:506-524 | the slot of a leaf, and what comes out for indices outside the accumulator |
| `Accumulators.GetHeightFromWitness` | common/mta/accumulator.go:483-504 | the index computed from directions and length, in 64 bits, for witnesses of any length |
| `Accumulators.HashesToWitness` | common/mta/accumulator.go:469-481 | the directions are the digits of the index, or of its absolute value if it is negative |
| `Accumulators.WitnessAtAccepted` | common/mta/extaccumulator.go:139-172 | the witness given for a height up to `at` is accepted at the height returned with it |
| `Accumulators.ExtAccumulator.constructor` | common/mta/extaccumulator.go:178-186 | an empty accumulator with an offset |
| `Accumulators.ExtAccumulator.WitnessForAt` | common/mta/extaccumulator.go:139-157 | other offsets are refused; `at` is cut to the present height; when there is a witness, and that it is the one of the accumulator of that height |
| `Accumulators.ExtAccumulator.VerifyAt` | common/mta/extaccumulator.go:159-172 | other offsets are refused; else the outcome for the length that `at` stands for |
| `Accumulators.ExtAccumulator.WitnessThenVerify` | common/mta/extaccumulator.go:139-172 | asking and verifying at a height succeeds for every height within `at` |
| `Accumulators.ExtAccumulator.Flush` | common/mta/extaccumulator.go:43-71 | when it succeeds; then the bucket holds the accumulator with its offset and all data held, each under its hash; a failed write loses nothing |
| `Accumulators.ExtAccumulator.Recover` | common/mta/extaccumulator.go:73-108 | the flushed leaves come back; it succeeds exactly for the same offset |
| `Accumulators.ExtFlushThenRecover` | common/mta/extaccumulator.go:43-108 | recovering gives what was flushed, or what was saved before if a write failed |
| `IntConv.ShortestValue` | common/intconv/bytes.go:14-33 | the shortest two's-complement form stands for its number |
| `IntConv.ShortestIsShortest` | common/intconv/bytes.go:14-33 | no byte string for the number is shorter, and none of that length is different |
| `IntConv.BigIntShortest` | common/intconv/bytes.go:14-33 | the bytes of a big integer are that form |
| `IntConv.BigIntSetBytesValue` | common/intconv/bytes.go:35-43 | reading bytes gives their two's-complement value, for all bytes |
| `IntConv.BigIntRoundTrip` | common/intconv/bytes.go:14-43 | every integer survives the way to bytes and back |
| `IntConv.Int64ToBytes` | common/intconv/bytes.go:153-172 | the buffer loop gives the shortest form on the whole range, and always returns inside the loop |
| `IntConv.Uint64ToBytes` | common/intconv/bytes.go:45-59 | the same for unsigned numbers |
| `IntConv.SizeToBytes` | common/intconv/bytes.go:61-74 | the shortest unsigned form |
| `IntConv.SafeBytesToUint64` | common/intconv/bytes.go:76-93 | which byte strings are accepted, and their value |
| `IntConv.SafeBytesToSize` | common/intconv/bytes.go:103-122 | which byte strings are accepted, and their value |
| `IntConv.SafeBytesToInt64` | common/intconv/bytes.go:124-143 | which byte strings are accepted, and their two's-complement value |
| `IntConv.Int64RoundTrip` | common/intconv/bytes.go:124-172 | signed 64-bit numbers survive the way to bytes and back |
| `IntConv.Uint64RoundTrip` | common/intconv/bytes.go:45-93 | unsigned 64-bit numbers survive the way to bytes and back |
| `Rlp.ReadFull` | common/codec/rlp.go:54-68 | a read stays within every enclosing list and gives exactly the bytes asked for |
| `Rlp.ReadBytesAt` | common/codec/rlp.go:184-227 | reading the encoding of a byte string gives it and stops right after it |
| `Rlp.NullAt` | common/codec/rlp.go:430-434 | a null is seen as a null by both readers |
| `Rlp.ReadListAt` | common/codec/rlp.go:145-174 | entering an encoded list gives a window of exactly its encoded elements |
| `Rlp.DecodeAt` | common/codec/codec.go:649-685 | wherever the encoding of an item is ahead and the size limit is not below its length, the item is read and the cursor stops right after it |
| `Rlp.RoundTrip` | common/codec/bytes.go:30-38 | decoding encode(x) followed by anything gives x and leaves exactly the rest, with the size limit set to the length of the input |
| `Rlp.PrefixFree` | common/codec/rlp.go:436-492 | no encoding is a prefix of the encoding of another item |
| `RlpShortest.ItemNotLonger` | common/codec/rlp.go:436-492 | whatever bytes the reader takes for an item at any place, the encoding of the item is not longer, and is those bytes if it is as long |
| `RlpShortest.ShortestEncoding` | common/codec/rlp.go:436-492 | the encoding is the shortest form that the reader accepts, and the only one of its length |
| `Rlp.SkipAt` | common/codec/rlp.go:104-143 | Skip(n) consumes exactly n encoded items |
| `Rlp.ReadRawAt` | common/codec/rlp.go:340-370 | ReadRaw returns exactly the encoding of one item |
| `Rlp.RawSizePanics` | common/codec/rlp.go:328-332 | the header of a string of the largest size makes ReadRaw panic |
| `Rlp.SizeLimits` | common/codec/rlp.go:145-227 | nothing longer than the size limit is read, apart from strings with a short header; the limit inside a list is neither above the one around it nor above the size of the list |
| `Rlp.Apply` | common/codec/codec.go:405-443 | no operation inside a list, successful or not, leaves the list or changes the limits around it |
| `Rlp.NextSibling` | common/codec/codec.go:423-429 | after any operations inside a list, going on outside finds the next sibling |
| `RlpStream.Reader.constructor` | common/codec/bytes.go:30-33 | the size limit is the length of the input |
| `RlpStream.Reader.ReadFull` | common/codec/rlp.go:54-68 | reading in place through all nested limits |
| `RlpStream.Reader.ReadBytes` | common/codec/rlp.go:184-227 | the byte string reader |
| `RlpStream.Reader.ReadList` | common/codec/rlp.go:145-174 | the list reader |
| `RlpStream.Reader.SkipOne` | common/codec/rlp.go:104-134 | skipping one item |
| `RlpStream.Reader.Skip` | common/codec/rlp.go:136-143 | the loop over items to skip |
| `RlpStream.Reader.ReadMore` | common/codec/rlp.go:328-338 | the size limit of raw reads, and the panic where the size wraps |
| `RlpStream.Reader.ReadRaw` | common/codec/rlp.go:340-370 | the raw reader |
| `RlpStream.Reader.Flush` | common/codec/codec.go:423-429 | closing a list drains it |
| `RlpStream.Reader.Next` | common/codec/codec.go:606-745 | reading one item with everything in it; the encoding of x is read as x |
| `RlpStream.Reader.Items` | common/codec/codec.go:659-685 | reading elements until the end of the list |
| `RlpStream.Writer.WriteBytes` | common/codec/rlp.go:436-467 | the encoding of a byte string is appended, which by `ShortestEncoding` is its shortest form |
| `RlpStream.Writer.WriteNull` | common/codec/rlp.go:430-434 | the encoding of null is appended |
| `RlpStream.Writer.WriteWithHeader` | common/codec/rlp.go:448-492 | header and payload are appended |
| `RlpStream.Writer.WriteList` | common/codec/rlp.go:394-417 | a new buffer is opened and one element counted |
| `RlpStream.Writer.Close` | common/codec/rlp.go:535-548 | the list is written to the buffer around it; a map with an odd number of elements is refused |
| `RlpStream.Writer.WriteItem` | common/codec/codec.go:280-308 | writing an item appends exactly its encoding, the shortest form that is read as the item, and counts one element, whatever is open around it |
| `LinkModel.InOrderAppend` | common/link/link.go:251-281 | a new message keeps the order of queue and hand-overs |
| `LinkModel.InOrderDrop` | common/link/link.go:494-507 | removing from the front keeps it |
| `LinkModel.InOrderSend` | common/link/link.go:229-249 | handing over the first unsent message keeps it |
| `LinkModel.RemovesOldest` | common/link/link.go:494-503 | in a sorted queue the status of any queued message removes exactly the oldest message |
| `LinkModel.World.Relay` | common/types/type.go:67-73 | whatever the sender takes is on its record, in order, and nothing else |
| `LinkModel.World.NextUpdate` | common/link/link.go:194-195 | every block update that is gone through is on record, in order |
| `LinkModel.World.BuildMessageProof` | common/link/link.go:425-431 | every message proof handed out is on record, in order |
| `LinkModel.CollectedLost` | common/link/link.go:362-423 | what an error loses takes nothing else with it |
| `LinkModel.TalliedLose` | common/link/link.go:402-420 | the books balance again after a message proof is lost to an error |
| `LinkModel.TalliedBlockProof` | common/link/link.go:402-420 | a block proof belongs in front of the message proof it was asked for |
| `LinkModel.Link.SendRelayMessage` | common/link/link.go:229-249 | messages are handed over in order until one is not taken; afterwards all are sent unless the link waits; the sender gets each with its items |
| `LinkModel.Link.AppendRelayMessage` | common/link/link.go:251-281 | one new unsent message for every list of items, with the present status; no item is lost, doubled or moved |
| `LinkModel.Link.AppendItem` | common/link/link.go:453-456 | the item is added to the last list and to the size, and the books balance without it |
| `LinkModel.Link.BuildMessageProof` | common/link/link.go:425-436 | the status after the proof is taken over; the proof is what the books lack, unless it is empty |
| `LinkModel.Link.BuildBlockProof` | common/link/link.go:438-451 | the status after the proof is taken over; the books lack it in front of the message proof |
| `LinkModel.Link.GetReceiveStatusForHeight` | common/link/link.go:458-465 | the first status of a height |
| `LinkModel.Link.AppendProof` | common/link/link.go:402-420 | exactly which items are open afterwards: the proof ends the list, behind a block proof where one is needed, in a list of its own after a message that was too large; only an error loses the proof, and nothing else |
| `LinkModel.Link.AddProof` | common/link/link.go:385-420 | one message proof is asked for and collected, or the open message is closed if there is none; its length is reported |
| `LinkModel.Link.BuildProof` | common/link/link.go:362-423 | a successful end means that the sequence known for the height, or the latest one, is reached; every message proof handed out is in a message or open, and their length is reported |
| `LinkModel.Link.BuildBlockUpdates` | common/link/link.go:327-338 | only a non-empty answer ends the loop |
| `LinkModel.Link.AppendUpdate` | common/link/link.go:195-221 | the update is collected, the status after it is taken over, and the proofs collected never fall behind it; the message is closed if it has message proofs, if it is full, or if messages are not to be filled up |
| `LinkModel.Link.BuildRelayMessages` | common/link/link.go:181-227 | all updates of the answer are gone through; the items of all messages made so far, followed by the open ones, are exactly what the receiver has handed out, in order; with an honest receiver a successful round raises the height and never lowers the sequence |
| `LinkModel.Link.AddUpdate` | common/link/link.go:193-223 | one update is taken from the answer and is in a message or open afterwards |
| `LinkModel.Link.BuildRound` | common/link/link.go:297-309 | without block updates to build, a successful round reaches the latest sequence and leaves nothing open |
| `LinkModel.Link.HandleRelayMessage` | common/link/link.go:283-325 | nothing happens while waiting; a successful end that does not wait has caught up with the receiver and handed over every message; a successful end loses no item, and leaves none open unless messages are to be filled up |
| `LinkModel.Link.HandleUndelivered` | common/link/link.go:340-360 | a successful end has reached the sequence known for the height of the link and left nothing of any size open; without such a sequence nothing happens |
| `LinkModel.Link.Receive` | common/link/link.go:123-147 | a status is recorded; a successful end that does not wait has caught up with it |
| `LinkModel.Link.GetRelayMessageForId` | common/link/link.go:485-492 | the first message with the identifier |
| `LinkModel.Link.RemoveRelayMessage` | common/link/link.go:494-503 | what is removed, and that the index is always 0 |
| `LinkModel.Link.RemoveReceiveStatus` | common/link/link.go:467-474 | everything up to the first status that the link status covers goes |
| `LinkModel.Link.RemoveUpTo` | common/link/link.go:538-542 | exactly what goes from the queue and from the statuses; with an honest receiver it is the oldest message |
| `LinkModel.Link.SuccessRelayMessage` | common/link/link.go:537-549 | with an honest receiver the oldest message is gone, the others keep their order and only new messages follow; which statuses go |
| `LinkModel.Link.UpdateBlockProof` | common/link/link.go:509-523 | the proofs are built and dropped: no message changes |
| `LinkModel.Link.ResetTo` | common/link/link.go:551-558 | after re-reading the status of the chain no message is ahead of it |
| `LinkModel.Link.StartAgain` | common/link/link.go:582-589 | the queue has only new messages, and a successful end that does not wait has caught up |
| `LinkModel.Link.Result` | common/link/link.go:560-622 | what every result code does to queue, status and state, and which ones panic |
| `LinkModel.Run` | common/link/link.go:117-179 | in every run all events are handled in order, up to a panic, each with the effect of its kind; at every point the sender has taken no message object twice and has taken them in creation order; the items of all messages made so far, followed by the open ones, are exactly what the receiver has handed out, in order, except message proofs lost in an event that ended in an error; queue and sender have the messages with those items; with an honest receiver the queue is always sorted and never ahead of the link status |
| `Serialize.SortedKeysSpec` | chain/icon/client/serialize.go:117-121 | the keys of a dictionary in order, each exactly once |
| `Serialize.LessFirstDifference` | chain/icon/client/serialize.go:121 | keys are ordered at the first place where they differ, or a key comes before those it is a proper prefix of |
| `Serialize.ParseTextEscape` | chain/icon/client/serialize.go:35-58 | escaping can be undone whatever follows |
| `Serialize.EscapeUnchanged` | chain/icon/client/serialize.go:35-58 | exactly the strings without one of the six special bytes are their own text |
| `Serialize.DigitsValue` | chain/icon/client/serialize.go:108-111 | the digits of a number have its decimal value and no zero in front |
| `Serialize.DecimalInjective` | chain/icon/client/serialize.go:108-111 | different numbers have different texts |
| `Serialize.ParseSerialized` | chain/icon/client/serialize.go:76-113 | parsing the text of any value gives the value, up to what the text does not show, and leaves the rest |
| `Serialize.NormText` | chain/icon/client/serialize.go:60-113 | numbers as digits and lists without leading empty strings have the same text |
| `Serialize.SameTextIff` | chain/icon/client/serialize.go:76-139 | two values have the same text exactly when they differ only in that |
| `Serialize.Unambiguous` | chain/icon/client/serialize.go:76-139 | without numbers and without lists that start with an empty string, different values have different texts |
| `Serialize.SeparatorRule` | chain/icon/client/serialize.go:68-70 | two pairs of different values with the same text |
| `SerializeMethods.SortKeys` | chain/icon/client/serialize.go:117-121 | collecting and sorting the keys |
| `SerializeMethods.SerializeString` | chain/icon/client/serialize.go:35-58 | the escaping loop |
| `SerializeMethods.SerializeList` | chain/icon/client/serialize.go:60-74 | the separator rule of the list loop; fails exactly if an element is not supported |
| `SerializeMethods.SerializeValue` | chain/icon/client/serialize.go:76-113 | the text of a value; fails exactly if some part is not supported |
| `SerializeMethods.SerializeDict` | chain/icon/client/serialize.go:115-139 | the entries that are in the first list, if there is one, and not in the second, in the order of the keys; fails exactly if one of them is not supported |
| `SerializeMethods.FilteredRead` | chain/icon/client/serialize.go:115-139 | the text of a filtered dictionary is read back as exactly the entries in the first list, if there is one, and not in the second |
| `SerializeMethods.SerializeMap` | chain/icon/client/serialize.go:141-147 | the text without braces; in braces it is read back as a dictionary of exactly the entries that are in the first list, if there is one, and not in the second, each up to what a text does not show; fails exactly if one of them is not supported |
| `SerializeMethods.MapTextIff` | chain/icon/client/serialize.go:115-147 | two dictionaries have the same text without braces exactly when they differ only in what a text does not show |
| `LayerDb.OverlayWith` | common/db/layer_db.go:37-61 | a change in memory is seen as a change of a plain map |
| `LayerDb.OverlayThrough` | common/db/layer_db.go:67-79 | writing a change through does not change what is seen |
| `LayerDb.LayerBucket.Get` | common/db/layer_db.go:13-23 | the value that is seen |
| `LayerDb.LayerBucket.Has` | common/db/layer_db.go:25-35 | whether a value is seen |
| `LayerDb.LayerBucket.Change` | common/db/layer_db.go:37-61 | setting and deleting, in memory before the flush and in the base after it, and when it succeeds |
| `LayerDb.LayerBucket.Flush` | common/db/layer_db.go:63-82 | succeeds exactly when one write for every change does; then the base becomes what was seen, or stays as it was; a failure changes nothing that is seen |
| `LayerDb.LayeredDatabase.GetBucket` | common/db/layer_db.go:92-113 | asking for a bucket changes nothing that is seen |
| `LayerDb.LayeredDatabase.Change` | common/db/layer_db.go:37-61 | one key of one bucket changes, nothing else, and when it succeeds |
| `LayerDb.LayeredDatabase.Get` | common/db/layer_db.go:13-23 | the value that is seen in a bucket |
| `LayerDb.LayeredDatabase.Flush` | common/db/layer_db.go:115-126 | succeeds exactly when the writes for all changes of all buckets do; then the base becomes what was seen, or stays as it was; a flush that fails on the way leaves every view unchanged |
| `LayerDb.LayeredDatabase.Run` | common/db/layer_db.go:13-126 | any sequence of reads, writes and flushes, also after a flush that failed on the way, is answered as plain maps for what is seen and for the base would; before the first flush the base is untouched; an operation fails only when the base takes no more writes |

## Left out

- `node.add` and `MerkleBinaryTree.Add`: insertion one content at a time, whose trees differ from the batch trees from the eighth leaf on.
- Widths of integers: counts and shifts of `common/mbt`, the index computed from a witness and the size of a raw item are cut to 64 bits; lengths and offsets of an accumulator and positions in an input are not. The length of a list of contents, as of any slice, and the length of an accumulator fit into 63 bits where it matters.
- RangeProofBinding: asks for positive counts with a sum of at most 2^64, which the check does not make sure of; `CountCheckIsExact` shows that this is what a caller has to check.
- Accumulators.Accumulator.AddHash: leaf hashes and saved root hashes are digests, so that joining two of them in a node never cuts or pads; hashes of any size are only modelled where witnesses are checked.
- Accumulator nodes as shared objects: a node belongs to one accumulator and is a value; caching a hash, loading children and flushing return the changed node.
- The text of the saved accumulator state (JSON or RLP): the entry under the state key is a structured value. Read errors of the bucket are left out; a write may fail at any point.
- Slice capacities: taking more of a witness than it holds ends in a panic here, also where the underlying array of the code has room.
- Two accumulators that write to one bucket under different state keys.
- Reflection in `codec.go`, the msgpack backend, structs and maps by field: items are nulls, byte strings and lists; the generic reader decides by the first byte what a schema decides in the code.
- RlpStream.Reader: the chain of readers with one offset each is one object with a stack of end positions; an old inner reader that is used after its list has been left is not modelled.
- Text, booleans and narrow integers as RLP values (`WriteValue`, `ReadValue`): they are byte strings of `IntConv`.
- LinkModel.Link: block updates of an answer count as handed out when the link comes to them, so those behind an error are not on record. Events are atomic; data races between the two channel loops are not modelled. Loops that wait for progress of the receiver end when the budget of answers is used up, so a link that runs forever is seen up to any point. Sizes given to the receiver, message bytes, logging, the finalised-status channel and the extra data of a status are left out, and an identifier is the pair of height and sequence it is printed from.
- The receivers' own bookkeeping and proof building (`chain/icon/btp2`, `chain/icon/bridge`, `chain/ethbr`): a contract for an honest receiver stands for them.
- The position text in serialiser errors, and the cut of floating-point numbers to integers.
- Locks of the layered database, and base databases that fail to open a bucket.
- Signatures, key stores, wallets, JSON-RPC and websocket clients, configuration, command line, contract bindings and demo scripts.
