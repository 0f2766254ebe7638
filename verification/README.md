# Verified models of six components

The repository is a collection of C and C++ programs about sockets, shared memory, drivers and small
databases. Most of it is plumbing; six of its components hold real algorithms or protocols. This
project models those six in Dafny and proves, for all inputs and all runs, what they are for.

`dafny verify dfyconfig.toml` verifies the whole project.

## The components

**Huffman compressor** (`Common`, `HuffmanTree`, `HuffmanOptimality`, `HuffmanQueue`, `HuffmanBuild`, `HuffmanCodec`,
`HuffmanLength`, `HuffmanPrefix`, `HuffmanCompress`, `HuffmanExample`). The priority queue over a sorted array, the
merge loop, code generation, the growing output buffer and the bit packer are methods on arrays and objects, each
proved against a specification function. The main results are that the tree is optimal among all binary trees and its
codes among all prefix-free codes, whatever the sort does with equal frequencies (`BuildHuffmanTree` with
`HuffmanIsOptimal` and `ShortestCode`, and `CompressedIsShortest` for the file as a whole), and that the compressed
file can be read back (`CompressedReadsBack`). The repository has no decoder, so one is given here as the
specification: it parses the tree, unpacks the bits, and walks the tree once for each character. The file does not
store the number of characters; the decoder takes it as an argument. `qsort` is modelled as any sorted permutation.

**ARC4** (`Arc4`, `Arc4Laws`, `Arc4Textbook`, `Arc4Period`, `Arc4Rekey`). One object holds the table and the wrapping
indices that `stte_0`, `key` and `arc4` share. It is proved equal to the textbook cipher, and the laws are about whole
runs: decryption by running again, the table staying a permutation, the key schedule for keys of any length, the
states that are never reached, pure periodicity, and what a later key call reads.

**Thread pool** (`ThreadPool`, `PoolSafety`, `PoolLiveness`, `PoolTheorems`, `PoolTermination`, `PoolShutdown`,
`PoolCalls`). A state machine in which worker threads and any number of calls to `enqueue`, `shutdown`,
`waitForCompletion` and the destructor interleave in atomic steps. A step makes at most one access to `stop`, together
with work under the lock that no other thread can observe in between; the predicate of the condition wait is two
steps, and waits may wake spuriously. The class `Pool` performs the same steps in place, one at a time and as whole
interleavings. The main results are exactly-once draining, no lost wakeup, and termination of every fair infinite run
after the destructor.

**Employee store** (`Doubles`, `EmployeeCsv`, `EmployeeStore`, `EmployeeExample`). The map in memory and the text of
its file, for every session of create, update, delete, read and restart. Printing and parsing are inverse exactly when
no field holds a comma or a newline, which the validators ensure, and the salary is the `double` nearest to some whole
number of cents (`RecordSurvives`). A `double` is its sign and an exact number of 53 significant bits.

**Mailbox** (`Mailbox`, `MailboxLaws`). Variable-length messages in a region of 4096 zero bytes, found again by
scanning.

**Client list** (`ClientList`). A doubly linked list, proved to act as a sequence.

## Where the code does less than it seems to

Each of these is a theorem with its exact condition, and a lemma with an input or a run in which it happens:

- A file is compressed only up to its first NUL byte, and for empty content the bytes packed are those of a buffer
  that was never written: a file comes back if and only if it is not empty and holds no NUL (`CompressFile`; the
  file of the bytes 1 and 0 in `SecondByteIsLost`).
- `shutdown` stores `stop` without the lock, so a worker that has just tested the flag can fall asleep after the
  notification and stay asleep (`ShutdownWakesAll`; the run `ShutdownCanMissAWorker`).
- `waitForCompletion` waits for an empty queue, not for the tasks taken from it (`WaitSeesCompletion`; the run
  `WaitCanReturnEarly`).
- A `key` call after `arc4` starts in the middle of the table, and the bytes that its first pass skips have no
  effect (`ByteIsLost`, `EveryByteCounts`; the run in `FirstByteIsLost`).
- A mailbox slot is marked as taken by the low byte of the source only, so a message sent while no client, or a
  multiple of 256 clients, has registered is overwritten by the next one (`MessageIsSafe`; two messages in
  `UnregisteredMessageIsLost`), which leaves bytes of it behind unless it covers it (`RemainsAreLeft`).
- `listen` without mail stays inside the region only when the number of unused bytes is a multiple of nine, and
  client 0 hears a message that nobody sent (`ListenHearsOldest`, `ListenAsNobody`). On a fresh region every other
  client reads past the mapping (`ListenOnFreshRegion`).
- A salary that is not the `double` nearest to a whole number of cents is kept in memory and rounded in the file, so
  `readData` changes it (`WriteThrough`; a salary of 0.125 in `EighthChangesOnReading`). From 2 to the power 46 on
  every `double` is such a one (`LargeKept`).

The prompt of `updateData` asks for a date as YYYY-MM-DD while the code accepts DD-MM-YYYY only; the model
follows the code.

In the table the main results are marked; the other rows lead up to them.

## Model

| member | source | states |
|---|---|---|
| `HuffmanQueue.QSort` | Assignment_Server_Clients_using_C/client.c:57 | The sort in the queue: the first `n` nodes come out as some sorted permutation, the rest are untouched; nothing is promised about ties |
| `HuffmanQueue.PriorityQueue.constructor` | Assignment_Server_Clients_using_C/client.c:42-48 | A new queue is empty and has the requested capacity |
| `HuffmanQueue.PriorityQueue.Enqueue` | Assignment_Server_Clients_using_C/client.c:51-58 | The capacity doubles exactly when the queue is full; afterwards the queue is sorted and holds its old nodes and the new one |
| `HuffmanQueue.PriorityQueue.Dequeue` | Assignment_Server_Clients_using_C/client.c:61-66 | The first node is removed and returned, the others keep their order; an empty queue gives none |
| `HuffmanQueue.TotalPermutes` | Assignment_Server_Clients_using_C/client.c:37-39 | Whatever is tallied over a forest does not depend on the order the sort gives to equal frequencies |
| `HuffmanQueue.HeadIsLeast` | Assignment_Server_Clients_using_C/client.c:51-66 | The node at the head of a sorted queue has the least frequency |
| `HuffmanQueue.MergeConserves` | Assignment_Server_Clients_using_C/client.c:101-108 | One round of the merge loop keeps the multiset of characters, the multiset of leaf frequencies, and the merge cost paid so far plus the greedy cost still to come |
| `HuffmanBuild.Clear` | Assignment_Server_Clients_using_C/client.c:87 | The first loop leaves the frequency table of the empty text |
| `HuffmanBuild.CountCharacter` | Assignment_Server_Clients_using_C/client.c:89-90 | One pass turns the table of a text into the table of that text and one more character, and reports whether the character is new |
| `HuffmanBuild.CalculateFrequencies` | Assignment_Server_Clients_using_C/client.c:86-92 | The table holds, for each of the 256 characters, its multiplicity in the C string; the counter grows by the number of different characters |
| `HuffmanBuild.EnqueueLeaves` | Assignment_Server_Clients_using_C/client.c:97-99 | The queue holds one leaf for every character of positive frequency, sorted |
| `HuffmanBuild.MergeInvariantStarts` | Assignment_Server_Clients_using_C/client.c:97-101 | When the merge loop begins, the forest is sorted, labelled by the table, has each character of positive frequency once, and owes the greedy cost of its leaves |
| `HuffmanBuild.MergeInvariantKept` | Assignment_Server_Clients_using_C/client.c:101-108 | Each merge of the two first nodes keeps that invariant and shortens the queue by one |
| `HuffmanBuild.MergeTwoLeast` | Assignment_Server_Clients_using_C/client.c:102-107 | One round of the loop on the queue object keeps the invariant, the node taken first becoming the left child |
| `HuffmanBuild.BuildHuffmanTree` | Assignment_Server_Clients_using_C/client.c:95-114 | **Main result.** For every table: no tree if all frequencies are 0, and otherwise a tree whose leaves are exactly the characters of positive frequency, once each, whose merged nodes sum to the greedy cost of those frequencies, and in which no left child is more frequent than the right one, whatever the sort does with ties |
| `HuffmanTree.FrequencyIsSum` | Assignment_Server_Clients_using_C/client.c:104 | The root frequency is the sum of the leaf frequencies |
| `HuffmanTree.MergedSumIsPathLength` | Assignment_Server_Clients_using_C/client.c:101-108 | The sum of all merged frequencies equals the weighted path length |
| `HuffmanTree.CodesDomain` | Assignment_Server_Clients_using_C/client.c:117-128 | A character gets a code exactly if it is at a leaf |
| `HuffmanTree.CodesArePaths` | Assignment_Server_Clients_using_C/client.c:117-128 | With distinct leaves each code is the sequence of turns from the root to its leaf, as long as the leaf is deep |
| `HuffmanTree.PrefixFree` | Assignment_Server_Clients_using_C/client.c:117-128 | **Main result.** The paths of two different leaves are not prefixes of each other |
| `HuffmanTree.PathsInOrder` | Assignment_Server_Clients_using_C/client.c:124-127 | Of two leaves the code of the left one has the 0 where the two codes first differ |
| `HuffmanTree.Complete` | Assignment_Server_Clients_using_C/client.c:117-128 | Every bit string at least as long as the tree is high begins with a code |
| `HuffmanTree.KraftEquality` | Assignment_Server_Clients_using_C/client.c:117-128 | **Main result.** The Kraft sum over all leaves is exactly 1 |
| `HuffmanTree.HeightBelowLeaves` | Assignment_Server_Clients_using_C/client.c:220-221 | A tree with k leaves is at most k-1 high |
| `HuffmanOptimality.HuffmanCostStep` | Assignment_Server_Clients_using_C/client.c:101-108 | The greedy cost of a multiset of weights does not depend on which of several least weights is merged |
| `HuffmanOptimality.SwapLowersCost` | Assignment_Server_Clients_using_C/client.c:95-114 | Moving the smaller of two weights to the deeper leaf never raises the weighted path length |
| `HuffmanOptimality.DeepestPair` | Assignment_Server_Clients_using_C/client.c:95-114 | Every tree of two or more leaves has two siblings at the greatest depth, and fusing them gives a tree again |
| `HuffmanOptimality.GreedyStep` | Assignment_Server_Clients_using_C/client.c:101-108 | For any placement of weights on a tree there is a smaller placement that saves at least as much path length as one greedy merge adds to the greedy cost |
| `HuffmanOptimality.OptimalLowerBound` | Assignment_Server_Clients_using_C/client.c:95-114 | Any weights on any binary tree, in any arrangement, have a weighted path length of at least the greedy cost |
| `HuffmanOptimality.HuffmanIsOptimal` | Assignment_Server_Clients_using_C/client.c:95-114 | **Main result.** The tree of the merge loop has the least weighted path length among all trees carrying the same frequencies |
| `HuffmanLength.EncodedLength` | Assignment_Server_Clients_using_C/client.c:131-147 | The encoded length is the sum of frequency times code length over all leaves, and those frequencies sum to the length of the text |
| `HuffmanLength.CostConservation` | Assignment_Server_Clients_using_C/client.c:86-147 | **Main result.** The root frequency is the length of the text, and the merged frequencies sum to the encoded length |
| `HuffmanLength.ShortestEncoding` | Assignment_Server_Clients_using_C/client.c:95-147 | No code tree for the same characters encodes the text in fewer bits |
| `HuffmanPrefix.TreeOfCode` | Assignment_Server_Clients_using_C/client.c:117-147 | Every prefix-free code has a tree with the same characters in which no character is deeper than its code is long |
| `HuffmanPrefix.ShortestCode` | Assignment_Server_Clients_using_C/client.c:95-147 | **Main result.** No bit strings for the characters of the text, none of them a prefix of another, encode the text in fewer bits |
| `HuffmanLength.CodesFitBuffer` | Assignment_Server_Clients_using_C/client.c:219-221 | **Main result.** Text without NUL gives at most 255 leaves and a height of at most 254, which the 256 characters of `currentCode` rely on |
| `HuffmanLength.CodesAreForText` | Assignment_Server_Clients_using_C/client.c:117-128 | `codes[c]` is set exactly for the characters of the text |
| `HuffmanLength.CodesArePrefixFree` | Assignment_Server_Clients_using_C/client.c:117-128 | The codes of two different characters are not prefixes of each other |
| `HuffmanLength.CodesAreShortBits` | Assignment_Server_Clients_using_C/client.c:117-128 | Every code is a string of 0 and 1 no longer than the tree is high |
| `HuffmanCodec.ReadAfterWrite` | Assignment_Server_Clients_using_C/client.c:158-168 | **Main result.** Parsing a written tree followed by any bytes gives the tree and exactly those bytes |
| `HuffmanCodec.WriteAfterRead` | Assignment_Server_Clients_using_C/client.c:158-168 | Whatever the parser accepts is what `writeTree` writes for its result, followed by the rest |
| `HuffmanCodec.TreeBytesLength` | Assignment_Server_Clients_using_C/client.c:158-168 | A tree with k leaves takes 6k-2 bytes |
| `HuffmanCodec.UnpackPack` | Assignment_Server_Clients_using_C/client.c:170-184 | Unpacking the packed bits gives them back followed by fewer than 8 zeros, and the number of bytes is the length divided by 8, rounded up |
| `HuffmanCodec.PackedBit` | Assignment_Server_Clients_using_C/client.c:173-180 | Bit 8i+j of the text is the j-th highest bit of byte i |
| `HuffmanCodec.WalkPath` | Assignment_Server_Clients_using_C/client.c:117-128 | Following a code from the root ends at its leaf and leaves the rest of the bits |
| `HuffmanCodec.DecodeEncode` | Assignment_Server_Clients_using_C/client.c:131-147 | Decoding as many characters as were encoded gives the text back, whatever bits follow, also when every code is empty |
| `HuffmanCodec.RoundTrip` | Assignment_Server_Clients_using_C/client.c:150-186 | Parsing the tree, unpacking and decoding give the text back |
| `HuffmanCompress.StoreCode` | Assignment_Server_Clients_using_C/client.c:119-123 | At a leaf the character gets the code collected so far, which stays in place below `depth` |
| `HuffmanCompress.GenerateCodes` | Assignment_Server_Clients_using_C/client.c:117-128 | The recursion stores exactly the code map of the tree, below the prefix in `currentCode`, with every index in range |
| `HuffmanCompress.EncodeAppend` | Assignment_Server_Clients_using_C/client.c:136-145 | Encoding one more character appends its code |
| `HuffmanCompress.EncodeString` | Assignment_Server_Clients_using_C/client.c:131-147 | For content of any length but 0 the C string built is the concatenation of the codes; a single doubling always leaves room for the next code and its terminator. For empty content the buffer is returned unwritten |
| `HuffmanCompress.WriteTree` | Assignment_Server_Clients_using_C/client.c:158-168 | The bytes appended are the pre-order serialisation, 0 for an absent node |
| `HuffmanCompress.ShiftLosesNothing` | Assignment_Server_Clients_using_C/client.c:170-180 | `buffer` holds the pending bits and stays below 2 to the power of their number, so shifting and or-ing in one more bit in 8 bits loses nothing |
| `HuffmanCompress.OrBitAt` | Assignment_Server_Clients_using_C/client.c:174 | The or of two numbers has a bit exactly where one of them has it |
| `HuffmanCompress.PackFromIsPack` | Assignment_Server_Clients_using_C/client.c:170-184 | From any point of the loop over a bit string, its 8-bit arithmetic emits exactly the packed form of the bits not yet written |
| `HuffmanCompress.PackLoop` | Assignment_Server_Clients_using_C/client.c:170-184 | Over a whole bit string the loop emits its packed form |
| `HuffmanCompress.PackBits` | Assignment_Server_Clients_using_C/client.c:170-184 | The loop runs over any buffer to its terminator, and reports a buffer that has none; the bytes are those of its 8-bit arithmetic on the characters met |
| `HuffmanCompress.WriteCompressedFile` | Assignment_Server_Clients_using_C/client.c:150-186 | The file gets the tree, or the mark of an absent one, and then what the packing loop emits |
| `HuffmanCompress.CompressedReadsBack` | Assignment_Server_Clients_using_C/client.c:189-227 | **Main result.** The compressed bytes decode to the content, and their number is 6k-2 plus the merged frequencies divided by 8, rounded up |
| `HuffmanCompress.CompressedIsShortest` | Assignment_Server_Clients_using_C/client.c:189-227 | **Main result.** No other code tree for the same characters would have made the file shorter |
| `HuffmanCompress.WholeFileComesBack` | Assignment_Server_Clients_using_C/client.c:206-227 | A file whose first byte is not NUL is recovered if and only if it holds no NUL byte, because the content is handled as a C string |
| `HuffmanCompress.TreeFor` | Assignment_Server_Clients_using_C/client.c:211-216 | Counting and building give an optimal tree for the content, and none exactly for empty content |
| `HuffmanCompress.CodesFor` | Assignment_Server_Clients_using_C/client.c:219-221 | The code table is the code map of the tree, and empty without one |
| `HuffmanCompress.CompressContent` | Assignment_Server_Clients_using_C/client.c:210-227 | The pipeline writes the serialised optimal tree of the content and its packed codes; for empty content a mark that no reader takes for a tree |
| `HuffmanCompress.CompressFile` | Assignment_Server_Clients_using_C/client.c:205-227 | **Main result.** For every file, what is written decodes to the file if and only if the file is not empty and holds no NUL byte |
| `HuffmanCompress.SecondByteIsLost` | Assignment_Server_Clients_using_C/client.c:206-227 | The file of the bytes 1 and 0: a concrete compressed form exists, and every one decodes to the byte 1 alone |
| `HuffmanExample.TreeOfAab` | Assignment_Server_Clients_using_C/client.c:95-114 | Every tree that can be built for "aab" has b, which occurs once, on the left and a on the right |
| `HuffmanExample.CompressAab` | Assignment_Server_Clients_using_C/client.c:189-227 | The file written for "aab", byte by byte |
| `Arc4.Cipher.Reset` | Shell_Scripts/file_finder.sh.x.c:209-215 | Every entry of the table is its own index, and all three indices are 0 |
| `Arc4.KeyByteIsModulo` | Shell_Scripts/file_finder.sh.x.c:227 | Reading the key at the index modulo the remaining length reads the key repeated for ever |
| `Arc4.Cipher.Mix` | Shell_Scripts/file_finder.sh.x.c:225-229 | One round of the inner loop is one textbook round of the key schedule |
| `Arc4.Cipher.Pass` | Shell_Scripts/file_finder.sh.x.c:224-230 | The inner loop runs the schedule from the current index to 255 and ends with index 0 |
| `Arc4.Cipher.Key` | Shell_Scripts/file_finder.sh.x.c:220-234 | A call is one schedule pass for each 256 bytes or part of them |
| `Arc4.Cipher.Advance` | Shell_Scripts/file_finder.sh.x.c:243-249 | The loop body steps the generator and yields the textbook output byte |
| `Arc4.Cipher.CryptByte` | Shell_Scripts/file_finder.sh.x.c:243-249 | One pass of the loop steps the generator and changes one byte of the buffer |
| `Arc4.CryptFromIsText` | Shell_Scripts/file_finder.sh.x.c:239-253 | Combining the buffer byte by byte in place is combining the rest of it with the key stream |
| `Arc4.Cipher.Crypt` | Shell_Scripts/file_finder.sh.x.c:239-253 | The buffer becomes its combination with the key stream, and the state advances by the length of the buffer |
| `Arc4Laws.DecryptByRerun` | Shell_Scripts/file_finder.sh.x.c:239-253 | **Main result.** Running again from the same saved state restores any buffer |
| `Arc4Laws.XorByteAt` | Shell_Scripts/file_finder.sh.x.c:249 | The combined byte has a bit exactly where buffer byte and key stream byte differ |
| `Arc4Laws.CryptByteAt` | Shell_Scripts/file_finder.sh.x.c:239-253 | Byte k is combined with the output of the generator k+1 rounds after the start |
| `Arc4Laws.CryptZeros` | Shell_Scripts/file_finder.sh.x.c:239-253 | Processing zeros yields the key stream itself |
| `Arc4Laws.AfterSum` | Shell_Scripts/file_finder.sh.x.c:239-253 | Two runs in sequence leave the state of one run over the total length |
| `Arc4Laws.CryptPieces` | Shell_Scripts/file_finder.sh.x.c:239-253 | Processing a buffer in two consecutive pieces equals processing it whole |
| `Arc4Laws.PermutationMeaning` | Shell_Scripts/file_finder.sh.x.c:204 | A permuted table holds each of the 256 values exactly once |
| `Arc4Laws.KeyPermutes` | Shell_Scripts/file_finder.sh.x.c:220-234 | A key call only permutes the table |
| `Arc4Laws.TableStaysPermutation` | Shell_Scripts/file_finder.sh.x.c:209-253 | **Main result.** After every sequence of `stte_0`, `key` and `arc4` calls the initialised table is a permutation of 0 to 255 |
| `Arc4Laws.BlocksCoverKey` | Shell_Scripts/file_finder.sh.x.c:223-233 | The blocks of 256 bytes hold every byte of the key, and there are len/256 of them, rounded up |
| `Arc4Laws.KeyIsScheduleOfBlocks` | Shell_Scripts/file_finder.sh.x.c:220-234 | **Main result.** From index 0 a key of any length is one textbook schedule for each block, and the index ends at 0 |
| `Arc4Laws.KeyIsTextbook` | Shell_Scripts/file_finder.sh.x.c:209-234 | After `stte_0`, a key of 1 to 256 bytes gives exactly the textbook key schedule |
| `Arc4Textbook.KeyIsKsa` | Shell_Scripts/file_finder.sh.x.c:209-234 | **Main result.** After `stte_0`, a key of 1 to 256 bytes leaves the table of 256 textbook rounds, defined forwards from the first round with the key byte at the round modulo the key length |
| `Arc4Textbook.AfterIsPrga` | Shell_Scripts/file_finder.sh.x.c:242-252 | After n bytes the state is that of n textbook generator rounds |
| `Arc4Textbook.CryptIsPrga` | Shell_Scripts/file_finder.sh.x.c:239-253 | **Main result.** Byte k of a buffer is combined with byte k+1 of the textbook output |
| `Arc4Textbook.IdentityStream` | Shell_Scripts/file_finder.sh.x.c:239-253 | From the identity table the key stream begins with 2, 5 and 7 |
| `Arc4Textbook.TwoRounds` | Shell_Scripts/file_finder.sh.x.c:224-230 | The last two rounds of a schedule with the key byte 7, by their numbers |
| `Arc4Rekey.AfterIndex` | Shell_Scripts/file_finder.sh.x.c:242-252 | After n bytes the index has moved on by n modulo 256 |
| `Arc4Rekey.FirstPassReadsBlock` | Shell_Scripts/file_finder.sh.x.c:224-230 | The rounds from an index to the wrap read every position of the first block if and only if enough of them remain |
| `Arc4Rekey.KeyPassesInjective` | Shell_Scripts/file_finder.sh.x.c:220-234 | With the same key and the same indices, two states end alike if and only if they were equal |
| `Arc4Rekey.KeyIgnoresUnread` | Shell_Scripts/file_finder.sh.x.c:220-234 | Keys of one block that agree on the positions read leave the same state |
| `Arc4Rekey.ByteIsLost` | Shell_Scripts/file_finder.sh.x.c:220-234 | **Main result.** For a key of any length not below the rounds left before the wrap, changing one byte of its first block leaves the outcome of `key` as it was if and only if the first pass does not read it |
| `Arc4Rekey.EveryByteCounts` | Shell_Scripts/file_finder.sh.x.c:220-234 | For such a key every single change in the first block changes the outcome if and only if enough rounds are left to read the block |
| `Arc4Rekey.FirstByteIsLost` | Shell_Scripts/file_finder.sh.x.c:606-617 | After `stte_0`, a key and one processed byte, a key of 256 bytes or more has the same effect whatever its first byte is |
| `Arc4Rekey.ShortAfterKey` | Shell_Scripts/file_finder.sh.x.c:606-617 | A run after a later key call is on a short cycle if and only if jndx was left at 1 and the new table holds 1 at index 1 |
| `Arc4Laws.ShortIsClosed` | Shell_Scripts/file_finder.sh.x.c:243-249 | A step leads into a short-cycle state only from one, and out of none |
| `Arc4Laws.NeverShort` | Shell_Scripts/file_finder.sh.x.c:464-469 | **Main result.** After `stte_0` and any number of keys no run of `arc4` ever reaches jndx = indx+1 with 1 at jndx |
| `Arc4Laws.ShortForever` | Shell_Scripts/file_finder.sh.x.c:239-253 | A state is on a short cycle exactly if the states after any number of rounds are |
| `Arc4Period.UnstepStep` | Shell_Scripts/file_finder.sh.x.c:243-249 | The explicit inverse undoes a step |
| `Arc4Period.StepUnstep` | Shell_Scripts/file_finder.sh.x.c:243-249 | A step undoes the explicit inverse, so a step is a bijection |
| `Arc4Period.AfterInjective` | Shell_Scripts/file_finder.sh.x.c:239-253 | Equal states after equally many rounds were equal before them |
| `Arc4Period.Recurrence` | Shell_Scripts/file_finder.sh.x.c:239-253 | Every run repeats a state |
| `Arc4Period.PurelyPeriodic` | Shell_Scripts/file_finder.sh.x.c:239-253 | **Main result.** Every run returns to its own starting state, and repeats from there for ever |
| `ThreadPool.Pool.constructor` | Notes_and_Codes/data.cpp:516-538 | A new pool has its workers at the head of their loop, no tasks and `stop` unset |
| `ThreadPool.Pool.Acquire` | Notes_and_Codes/data.cpp:526 | A worker gets the lock exactly if it is free |
| `ThreadPool.Pool.StepOfWorker` | Notes_and_Codes/data.cpp:522-536 | One atomic step of the worker loop: lock, the two tests of the wait predicate, sleep, return, pop, or run |
| `ThreadPool.Pool.StepOfEnqueue` | Notes_and_Codes/data.cpp:553-562 | One atomic step of `enqueue`: lock, test `stop`, push and unlock, notify |
| `ThreadPool.Pool.StepOfShutdown` | Notes_and_Codes/data.cpp:564-568 | One atomic step of `shutdown`: store without the lock, notify all |
| `ThreadPool.Pool.StepOfWait` | Notes_and_Codes/data.cpp:570-578 | One atomic step of `waitForCompletion`: lock, test the queue and unlock |
| `ThreadPool.Pool.StepOfDestructor` | Notes_and_Codes/data.cpp:539-551 | One atomic step of the destructor: lock, store and unlock, notify all, join |
| `ThreadPool.Pool.StepOfCall` | Notes_and_Codes/data.cpp:539-578 | One atomic step of whatever call it is |
| `ThreadPool.Pool.Perform` | Notes_and_Codes/data.cpp:516-578 | One atomic step of any thread, or the beginning of a call |
| `ThreadPool.Pool.Run` | Notes_and_Codes/data.cpp:516-578 | A whole interleaving, performed on the object in place, ends in the state that the schedule leads to |
| `ThreadPool.ExecAppend` | Notes_and_Codes/data.cpp:516-578 | Running two schedules one after the other is running their concatenation |
| `PoolSafety.LockKept` | Notes_and_Codes/data.cpp:516-578 | Every step of every thread keeps mutual exclusion: exactly the holder of the lock is inside a locked region |
| `PoolSafety.StopKept` | Notes_and_Codes/data.cpp:527-533 | Every step keeps: a worker past its wait has a task or sees `stop`; once a worker has returned no task waits and none can still arrive |
| `PoolSafety.HistoryKept` | Notes_and_Codes/data.cpp:532-562 | Every step keeps: the pushed tasks are those popped followed by those waiting, in order, and each popped task is running once or finished once |
| `PoolSafety.AcceptedKept` | Notes_and_Codes/data.cpp:553-562 | Every step keeps: the pushed tasks are those of the `enqueue` calls that got past their push, each once |
| `PoolLiveness.WakeKept` | Notes_and_Codes/data.cpp:527-561 | Every step keeps: while a worker sleeps, there are no more waiting tasks than awake workers and outstanding notifications |
| `PoolLiveness.SealedKept` | Notes_and_Codes/data.cpp:539-562 | Once `stop` is set and nobody is past a test that saw it unset, this stays so |
| `PoolLiveness.DrainingKept` | Notes_and_Codes/data.cpp:539-551 | A sealed pool in which nobody sleeps stays one |
| `PoolLiveness.DestructorKept` | Notes_and_Codes/data.cpp:539-545 | Every step keeps: the destructor's locked store has sealed the pool, and its notification missed nobody |
| `PoolTheorems.InvKept` | Notes_and_Codes/data.cpp:516-578 | Every step keeps the conjunction of all of these |
| `PoolTheorems.InvAlways` | Notes_and_Codes/data.cpp:516-578 | So does every schedule |
| `PoolTheorems.DrainedExactlyOnce` | Notes_and_Codes/data.cpp:520-568 | **Main result.** In every interleaving with at least one worker, once all workers have returned the queue is empty, every accepted task was popped in push order and finished exactly once, also when `shutdown` set the flag between an `enqueue`'s test and its push |
| `PoolTheorems.RunPool` | Notes_and_Codes/data.cpp:516-568 | Any interleaving run on a new pool object: if all its workers have returned, it is drained |
| `PoolTheorems.PopIsSafe` | Notes_and_Codes/data.cpp:532-533 | No worker ever pops from an empty queue |
| `PoolTheorems.NoLostWakeup` | Notes_and_Codes/data.cpp:527-561 | **Main result.** In every reachable state with a waiting task some worker is awake or an `enqueue` still owes its notification |
| `PoolTheorems.DestructorDrains` | Notes_and_Codes/data.cpp:539-551 | After the destructor's `notify_all` nobody sleeps and nothing more is pushed |
| `PoolCalls.JoinKept` | Notes_and_Codes/data.cpp:546-550 | Every step keeps: once a destructor has returned, all workers have |
| `PoolCalls.DestructorJoins` | Notes_and_Codes/data.cpp:539-551 | **Main result.** In every reachable state in which a destructor has returned, all workers have returned and every accepted task has been executed exactly once |
| `PoolCalls.ThrownMeansStopped` | Notes_and_Codes/data.cpp:557-558 | A call to `enqueue` that has thrown found the pool stopped, and its task is not accepted |
| `PoolCalls.StoppedPoolRefuses` | Notes_and_Codes/data.cpp:553-559 | **Main result.** Once the pool is stopped, a call to `enqueue` that has not passed the test never pushes, in any continuation |
| `PoolTheorems.WorkerStepCounts` | Notes_and_Codes/data.cpp:522-551 | From then on every worker step lowers the measure by exactly one |
| `PoolTheorems.MeasureCountsDown` | Notes_and_Codes/data.cpp:539-551 | In every interleaving from then on the worker steps taken and the measure left add up to the measure at the start |
| `PoolTheorems.MeasureZero` | Notes_and_Codes/data.cpp:539-551 | The measure is 0 if and only if all workers have returned |
| `PoolTheorems.Progress` | Notes_and_Codes/data.cpp:539-551 | Until then some thread can always move: the call that holds the lock, which releases it, or else a worker |
| `PoolTheorems.CanDrain` | Notes_and_Codes/data.cpp:539-551 | From every such state a run leads to all workers having returned and the lock being free |
| `PoolTermination.SomeWorkerMoves` | Notes_and_Codes/data.cpp:522-551 | In a fair infinite run after the notification, some worker moves as long as not all have returned |
| `PoolTermination.Terminates` | Notes_and_Codes/data.cpp:539-551 | So the run comes to a moment at which all workers have returned |
| `PoolTermination.DestructorTerminates` | Notes_and_Codes/data.cpp:539-551 | **Main result.** Once a destructor has called `notify_all`, every fair infinite run comes to a moment at which all workers have returned and every accepted task has been executed exactly once |
| `PoolTermination.ScheduleIsFair` | Notes_and_Codes/data.cpp:516-551 | Every finite schedule that ends with all workers returned and the lock free begins a fair run |
| `PoolTermination.FairRunExists` | Notes_and_Codes/data.cpp:516-551 | A fair run with a destructor exists |
| `PoolShutdown.NotifiedStayAwake` | Notes_and_Codes/data.cpp:526-529 | With `stop` set and everybody notified, nobody sleeps later if and only if no worker has seen `stop` unset and no task |
| `PoolShutdown.ShutdownWakesAll` | Notes_and_Codes/data.cpp:564-568 | **Main result.** When a call to `shutdown` stores `stop`: in every continuation nobody sleeps once that call has returned, if and only if at the store no worker had seen `stop` unset and no task |
| `PoolShutdown.ShutdownCanMissAWorker` | Notes_and_Codes/data.cpp:564-568 | A concrete run in which `shutdown` completes and a worker sleeps on |
| `PoolTheorems.WaitSeesCompletion` | Notes_and_Codes/data.cpp:570-578 | When `waitForCompletion` sees the empty queue, all accepted tasks are finished if and only if no worker is running one |
| `PoolTheorems.WaitCanReturnEarly` | Notes_and_Codes/data.cpp:570-578 | A concrete run in which `waitForCompletion` returns while the only task is running |
| `EmployeeCsv.StoiPrint` | Notes_and_Codes/EmpDBFinal.cpp:215 | Parsing undoes printing for every int |
| `EmployeeCsv.StoiTooLarge` | Notes_and_Codes/EmpDBFinal.cpp:243 | A number that is no int is an error |
| `Doubles.RoundIsNearest` | Notes_and_Codes/EmpDBFinal.cpp:217 | The printed whole number is the nearest one, and of two equally near the even one |
| `Doubles.NearestIsDouble` | Notes_and_Codes/EmpDBFinal.cpp:246 | The number that parsing gives is a `double` |
| `Doubles.NoneNearer` | Notes_and_Codes/EmpDBFinal.cpp:246 | No `double` is nearer to the text's number than the one that parsing gives |
| `Doubles.DoublesHaveForm` | Notes_and_Codes/EmpDBFinal.cpp:217-246 | The numbers taken for `double`s are exactly the whole numbers of up to 53 bits, times or by a power of two |
| `Doubles.PrintedAgain` | Notes_and_Codes/EmpDBFinal.cpp:217-246 | For every `double`, printing what has been printed and read back gives the same text |
| `Doubles.LargeKept` | Notes_and_Codes/EmpDBFinal.cpp:217-246 | From 2 to the power 46 on every `double` is read back unchanged |
| `Doubles.WholeCentsKept` | Notes_and_Codes/EmpDBFinal.cpp:217-246 | The `double` nearest to a whole number of cents is read back unchanged, however large it is |
| `Doubles.KeptIfWholeCents` | Notes_and_Codes/EmpDBFinal.cpp:217-246 | **Main result.** A `double` is read back unchanged if and only if it is the one nearest to some whole number of cents |
| `Doubles.EighthIsLost` | Notes_and_Codes/EmpDBFinal.cpp:217-246 | 0.125 is a `double`, is printed as 12 cents, and another `double` is read back |
| `EmployeeCsv.RoundingKeeps` | Notes_and_Codes/EmpDBFinal.cpp:217-246 | Printing and reading keep a salary if and only if it is the `double` nearest to some whole number of cents, and keep what they have once given |
| `EmployeeCsv.StodPrint` | Notes_and_Codes/EmpDBFinal.cpp:217-246 | Parsing a salary printed with two decimals gives the `double` nearest to the printed cents, with the sign, which zero has too |
| `EmployeeCsv.ValidDates` | Notes_and_Codes/EmpDBFinal.cpp:105-133 | The date validator accepts a text if and only if it is the DD-MM-YYYY form of a calendar date of the years 0 to 9999 |
| `EmployeeCsv.LeapYearsCount` | Notes_and_Codes/EmpDBFinal.cpp:97-102 | A year is a leap year exactly if the Gregorian count of leap years grows by one |
| `EmployeeCsv.MonthLengths` | Notes_and_Codes/EmpDBFinal.cpp:121-126 | Four months have 30 days, February 28 or 29, the others 31 |
| `EmployeeCsv.ParseRecord` | Notes_and_Codes/EmpDBFinal.cpp:238-248 | A printed record is parsed back, its salary to the nearest cent, given fields without commas and newlines |
| `EmployeeCsv.LoadRecord` | Notes_and_Codes/EmpDBFinal.cpp:238-251 | Loading a printed valid record followed by any text puts in exactly that record, to the nearest cent, and goes on with the text |
| `EmployeeCsv.LoadedIsPrefix` | Notes_and_Codes/EmpDBFinal.cpp:236-253 | What the reading leaves in the map is what the lines before the first malformed one give, and all lines if there is none |
| `EmployeeCsv.LoadedIsPlain` | Notes_and_Codes/EmpDBFinal.cpp:236-253 | Whatever the file holds, malformed lines included, every record put into the map has fields without commas and newlines |
| `EmployeeCsv.RecordSurvives` | Notes_and_Codes/EmpDBFinal.cpp:136-139 | **Main result.** A record survives saving and loading if and only if its name, designation and date hold no comma and no newline, which the validators ensure, and its salary is the `double` nearest to some whole number of cents |
| `EmployeeCsv.LoadSerialise` | Notes_and_Codes/EmpDBFinal.cpp:203-253 | Loading what was saved, into any map, puts every saved record back to the nearest cent and changes nothing else |
| `EmployeeCsv.FileInKeyOrder` | Notes_and_Codes/EmpDBFinal.cpp:213-220 | The file has one line for every record, in increasing order of the keys |
| `EmployeeCsv.LoadRestores` | Notes_and_Codes/EmpDBFinal.cpp:203-253 | Loading restores the saved map to the nearest cent, from nothing and from the map itself |
| `EmployeeCsv.SerialiseRounded` | Notes_and_Codes/EmpDBFinal.cpp:203-225 | Saving the loaded map writes the same file again |
| `EmployeeStore.Operation.constructor` | Notes_and_Codes/EmpDBFinal.cpp:64 | A new object has an empty map |
| `EmployeeStore.Operation.SaveData` | Notes_and_Codes/EmpDBFinal.cpp:203-225 | The file becomes the records in key order, a line each |
| `EmployeeStore.Operation.ReadLines` | Notes_and_Codes/EmpDBFinal.cpp:236-253 | Each line's record replaces the one with its id; a malformed number stops the reading, and the map then holds the records of the lines before |
| `EmployeeStore.Operation.CreateData` | Notes_and_Codes/EmpDBFinal.cpp:142-200 | A record is added and saved if every input is valid and the id is new; otherwise nothing changes |
| `EmployeeStore.Operation.UpdateData` | Notes_and_Codes/EmpDBFinal.cpp:337-402 | The chosen field is changed if its value is valid; the file is rewritten in each case except an unknown id or choice |
| `EmployeeStore.Operation.DeleteData` | Notes_and_Codes/EmpDBFinal.cpp:405-445 | The record goes from the map and the file; an unknown id changes nothing |
| `EmployeeStore.UpdatesName` | Notes_and_Codes/EmpDBFinal.cpp:361-369 | A valid name replaces the old one in memory and in the file; every other field and record stays |
| `EmployeeStore.UpdatesSalary` | Notes_and_Codes/EmpDBFinal.cpp:370-378 | The same for a salary |
| `EmployeeStore.UpdatesDesignation` | Notes_and_Codes/EmpDBFinal.cpp:379-387 | The same for a valid designation |
| `EmployeeStore.UpdatesDate` | Notes_and_Codes/EmpDBFinal.cpp:388-396 | The same for a valid date |
| `EmployeeStore.RejectsUpdate` | Notes_and_Codes/EmpDBFinal.cpp:343-400 | An unknown id, an unknown choice or an invalid value leaves the map as it was |
| `EmployeeStore.Creates` | Notes_and_Codes/EmpDBFinal.cpp:149-198 | A new id with valid values gets exactly the record typed, in memory and in the file; every other record stays |
| `EmployeeStore.RejectsCreate` | Notes_and_Codes/EmpDBFinal.cpp:151-192 | A taken id or an invalid value leaves the map and the file as they were |
| `EmployeeStore.Deletes` | Notes_and_Codes/EmpDBFinal.cpp:418-440 | The record goes from memory and from the file, and nothing else does |
| `EmployeeStore.ReadingRounds` | Notes_and_Codes/EmpDBFinal.cpp:228-296 | When the file agrees with the map, reading it again and starting afresh from it both give the map to the nearest cent, and the agreement stays |
| `EmployeeStore.ReadingChangesNothing` | Notes_and_Codes/EmpDBFinal.cpp:228-296 | They change nothing if and only if every salary is the `double` nearest to some whole number of cents |
| `EmployeeStore.StepAgrees` | Notes_and_Codes/EmpDBFinal.cpp:142-445 | Every command keeps the agreement of file and map, and the validity of all records under their own ids |
| `EmployeeStore.SessionAgrees` | Notes_and_Codes/EmpDBFinal.cpp:142-445 | So does every session |
| `EmployeeStore.WriteThrough` | Notes_and_Codes/EmpDBFinal.cpp:142-445 | **Main result.** After every session from an empty store the file is the printed map, and `readData` and a restart leave the map as it is if and only if every salary in it is the `double` nearest to some whole number of cents |
| `EmployeeStore.WholeSessions` | Notes_and_Codes/EmpDBFinal.cpp:142-445 | If every salary typed is such a `double`, so is every salary in the map |
| `EmployeeStore.EighthChangesOnReading` | Notes_and_Codes/EmpDBFinal.cpp:177-217 | A concrete session: a salary of 0.125 is kept in memory and printed as 0.12, and reading the file changes it |
| `EmployeeExample.PrintedNumber` | Notes_and_Codes/EmpDBFinal.cpp:215 | -120 is printed with its highest digit first |
| `EmployeeExample.ReadNumber` | Notes_and_Codes/EmpDBFinal.cpp:243 | White space and a sign are read before the digits, what follows them is ignored, and text without a digit is an error |
| `EmployeeExample.ReadSalary` | Notes_and_Codes/EmpDBFinal.cpp:246 | -0.125x is read as 0.125 with a sign |
| `EmployeeExample.ReadExponent` | Notes_and_Codes/EmpDBFinal.cpp:246 | 1e2 is read as 100 |
| `EmployeeExample.RejectSalary` | Notes_and_Codes/EmpDBFinal.cpp:246 | Text without a digit is an error |
| `EmployeeExample.Letters` | Notes_and_Codes/EmpDBFinal.cpp:136-139 | Names hold letters and spaces and none of the characters next to them, and are not empty |
| `EmployeeExample.LeapDay` | Notes_and_Codes/EmpDBFinal.cpp:105-133 | The 29th of February is valid in 2000 and not in 1900 |
| `EmployeeExample.DayFirst` | Notes_and_Codes/EmpDBFinal.cpp:105-133 | The day comes before the month, and both have two digits |
| `EmployeeExample.PrintedRecord` | Notes_and_Codes/EmpDBFinal.cpp:215-219 | One record, character by character |
| `EmployeeExample.OneRecordFile` | Notes_and_Codes/EmpDBFinal.cpp:142-225 | One record created in an empty store, and the file it leaves, character by character |
| `EmployeeStore.UpdateUndone` | Notes_and_Codes/EmpDBFinal.cpp:360-401 | Updating a field and then updating it back restores the map and the file, for a known id as for an unknown one |
| `EmployeeStore.CreateUndone` | Notes_and_Codes/EmpDBFinal.cpp:156-198 | Creating and then deleting the same id restores the map and the file if and only if the id was new |
| `Mailbox.WordRoundTrip` | UDP_implementation/client_nmap.cpp:59-60 | A word read back is the word stored; its bytes are its digits to the base 256, the lowest first |
| `Mailbox.SharedMemory.Register` | UDP_implementation/client_nmap.cpp:38-41 | The count grows by one, wrapping around, the new count is the id, one more than the old one, and no other byte changes |
| `Mailbox.SharedMemory.FindFree` | UDP_implementation/client_nmap.cpp:52-55 | The scan stops at the first slot whose first byte is 0, and finds none if it would leave the mapping |
| `Mailbox.SharedMemory.StoreWord` | UDP_implementation/client_nmap.cpp:59-60 | Four bytes are overwritten by the word |
| `Mailbox.SharedMemory.StoreBytes` | UDP_implementation/client_nmap.cpp:59-61 | The bytes that lie inside the region are overwritten, and no others |
| `Mailbox.SharedMemory.Send` | UDP_implementation/client_nmap.cpp:51-61 | The message is written at the free slot, with the current count as source, as far as it lies inside the mapping |
| `Mailbox.SharedMemory.Listen` | UDP_implementation/client_nmap.cpp:73-86 | One pass: the first message to the client, the end of the region, or a read beyond it |
| `MailboxLaws.FindsFreeSlot` | UDP_implementation/client_nmap.cpp:52-55 | When the region holds messages that mark their slots, and perhaps one more that does not, the scan finds the first byte behind those that do, if there is one |
| `MailboxLaws.SendAppends` | UDP_implementation/client_nmap.cpp:51-61 | A message goes behind all those that mark their slots, over the one that does not, if it covers that one |
| `MailboxLaws.RemainsAreLeft` | UDP_implementation/client_nmap.cpp:51-61 | Zeros follow the message just sent if and only if it covers the one it was written over: if that was longer by at most one character |
| `MailboxLaws.RegisterCounts` | UDP_implementation/client_nmap.cpp:38-41 | A registration changes the count, wrapping around, and leaves the messages |
| `MailboxLaws.CountsRegistrations` | UDP_implementation/client_nmap.cpp:38-41 | After every run the count is the number of registrations, as long as that is an `int` |
| `MailboxLaws.MessageIsSafe` | UDP_implementation/client_nmap.cpp:53-59 | **Main result.** The next scan passes over the message just sent if and only if the count is not a multiple of 256 |
| `MailboxLaws.ListenHearsOldest` | UDP_implementation/client_nmap.cpp:73-86 | Every client hears the oldest message addressed to it; without one the pass meets the end of the region if the unused bytes are a multiple of nine, and otherwise reads past it, except that client 0 hears a message nobody sent |
| `MailboxLaws.OldestIsFirst` | UDP_implementation/client_nmap.cpp:74-86 | The oldest message stands before all others to that client, and there is none only if nobody wrote to it |
| `MailboxLaws.ListenAsNobody` | UDP_implementation/client_nmap.cpp:76-80 | Listening as client 0, to whom nobody wrote, hears a message nobody sent if and only if a slot's worth of unused bytes is left |
| `MailboxLaws.RunHolds` | UDP_implementation/client_nmap.cpp:38-63 | Every run of registrations and sends in which each message covers the one it is written over keeps the layout: the count, the messages that mark their slots back to back, perhaps one more, zeros |
| `MailboxLaws.MailboxRuns` | UDP_implementation/client_nmap.cpp:38-87 | **Main result.** From a zeroed region, after every such run every client hears the oldest message addressed to it of those not overwritten |
| `MailboxLaws.MarkedRuns` | UDP_implementation/client_nmap.cpp:38-63 | A run without a send while the count is a multiple of 256 is such a run, and none of its messages is overwritten |
| `MailboxLaws.ListenOnFreshRegion` | UDP_implementation/client_nmap.cpp:73-86 | On a fresh region `listen` reads past the mapping for every client but 0, and client 0 hears a message |
| `MailboxLaws.OpenMessageIsLost` | UDP_implementation/client_nmap.cpp:51-61 | Of two messages sent while the count is a multiple of 256 only the second is left; bytes of the first lie behind it unless the second covers it |
| `MailboxLaws.UnregisteredMessageIsLost` | UDP_implementation/client_nmap.cpp:51-61 | So any two messages sent before anybody has registered leave only the second |
| `ClientList.IndexOf` | LinkedList/new_server1.c:86-104 | The position found holds the name, and no earlier one does |
| `ClientList.IndexIs` | LinkedList/new_server1.c:120-131 | A position holding the name, with none before it, is the one that is found |
| `ClientList.DNode.constructor` | LinkedList/new_server1.c:30-39 | A new node holds the record and is linked to nothing |
| `ClientList.List.constructor` | LinkedList/new_server1.c:27 | The list starts empty |
| `ClientList.List.Add` | LinkedList/new_server1.c:42-75 | **Main result.** The record is appended unless its id is taken; links mirror each other and there is no cycle |
| `ClientList.List.Unlink` | LinkedList/new_server1.c:88-98 | The three cases of unlinking remove exactly one node and keep all other links |
| `ClientList.List.Delete` | LinkedList/new_server1.c:78-106 | **Main result.** The first record with the name is removed, if there is one |
| `ClientList.List.Search` | LinkedList/new_server1.c:109-138 | The first record with the name is returned, if there is one |
| `ClientList.List.Perform` | LinkedList/new_server1.c:42-138 | Each of the three operations acts on the sequence as stated, and only a search answers |
| `ClientList.RunList` | LinkedList/new_server1.c:42-138 | **Main result.** Every run on a new list acts as the same run on the empty sequence, answers its searches alike, and never holds two clients with one id |
| `ClientList.AddPuts` | LinkedList/new_server1.c:42-75 | After an add the id is in the list; with a free id the record is behind all others, which stay; with a taken one nothing changes |
| `ClientList.FoundIsFirst` | LinkedList/new_server1.c:109-138 | A search finds the first record with the name, and nothing only if there is none |
| `ClientList.DeleteTakesFirst` | LinkedList/new_server1.c:78-106 | A delete takes out exactly the first record with the name, all others staying in order |
| `ClientList.SearchFindsAdded` | LinkedList/new_server1.c:42-138 | A search right after an add finds the record, if its id and its name were new |
| `ClientList.DeleteUndoesAdd` | LinkedList/new_server1.c:42-106 | Adding and then deleting by the name just added restores the list if and only if nobody else has that name |
| `ClientList.ApplyKeepsIds` | LinkedList/new_server1.c:42-106 | Every operation keeps the ids pairwise distinct |
| `ClientList.RunKeepsIds` | LinkedList/new_server1.c:42-138 | So does every run of them |

## Left out

- HuffmanCompress.CompressFile: for empty content, says only that what is written begins with the mark of an absent tree, because the rest comes from a buffer that the source has not written; when that buffer holds no terminator the source reads beyond it, and the model stops at its end. Opening, reading and closing files, the file names and the backup copy are not modelled; a file is the sequence of its bytes.
- HuffmanCompress.EncodeString: requires a code shorter than 1024 characters for every character of the content, which is what the tree and `CodesFitBuffer` provide.
- HuffmanQueue.QSort: has an insertion sort for a body in place of the library's; its callers use only that the result is a sorted permutation.
- HuffmanBuild.CalculateFrequencies: counts with unbounded numbers; the overflow of an `int` at 2 to the power 31 equal characters is not modelled, nor that of the subtraction in `compareNodes`.
- HuffmanBuild.BuildHuffmanTree: trees are values, so the freeing of nodes and a failing `malloc` are not modelled.
- HuffmanCompress.Double: the characters behind the copied ones are arbitrary, and `realloc` does not fail.
- Arc4.Cipher.Crypt: the buffer is not the table itself.
- Arc4Laws.NeverShort: speaks of the runs between `stte_0` with its keys and the next `key`; `ShortAfterKey` says exactly when a later `key` call leads to a short cycle.
- Arc4Rekey.ByteIsLost: is about keys at least as long as the rounds left before the wrap, the only ones of which a byte can be skipped; a shorter key is read more than once, and two readings of a changed byte could cancel out.
- The environment check, the encrypted payload, hardening and process replacement around the cipher: foreign calls.
- ThreadPool.Pool.StepOfWorker: tasks return; a task that throws would end the program. What a task does is not modelled, so a task that calls the pool from inside is not covered.
- ThreadPool.Pool.Begin: any call may begin at any time, also after the destructor has; that is more than C++ allows, and the theorems hold all the same.
- PoolTermination.DestructorTerminates: asks of the scheduler that a worker able to move again and again does move, and that a call inside the lock goes on; `FairRunExists` shows that this can be had. Destructor calls that never get the lock are not considered.
- The other copies of the thread pool, whose workers loop while `stop` is unset or whose `enqueue` tests it outside the lock: they do not drain the queue.
- EmployeeCsv.Stod: reports hexadecimal numbers, infinities and NaN as unsupported. The exponent of a `double` has no bounds, so overflow, and the coarser numbers below 2 to the power -1022, are not modelled.
- EmployeeCsv.Stoi: white space, one sign and digits, as for base 10.
- EmployeeStore.Operation.ReadLines: is the loop that `loadData` and `readData` share; the table that `readData` displays is not modelled, a missing file is the empty text, and a file that cannot be opened for writing is not modelled.
- EmployeeStore.Operation.CreateData: what the user types arrives as arguments, a failed read of a number as `None`; the order of the prompts shows only in which check comes first. `retrieveData` only displays.
- The file mutex and the threads of the employee database: commands run one after the other.
- Mailbox.SharedMemory.Register: one client at a time.
- Mailbox.SharedMemory.Send: requires a text without NUL, as it comes from the command line. What it writes behind the mapping, and whether the program survives that, is not modelled; nor is a scan that has left the mapping.
- Mailbox.SharedMemory.Listen: is one pass; the wrap-around with its pause and the reads beyond the mapping are reported as results. A second pass over an unchanged region has the same result.
- MailboxLaws.MailboxRuns: every message covers the one it is written over; otherwise bytes are left behind that the next scans take for messages (`RemainsAreLeft`), and what follows from these is not stated. No message is sent that does not fit.
- ClientList.List.Add: runs sequentially; the source takes no lock around its list. Names are strings of any length, and the messages to the client, the display and the freeing of nodes are left out.
- `SHM_Driver/shm_reader.c`, which repeats the Huffman code; sockets, servers, drivers and menus throughout the repository.
