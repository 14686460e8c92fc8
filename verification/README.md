# A Dafny model of the FISCO-BCOS node core

The modules model the parts of the node where ordering, encoding and concurrency matter most, and
prove what those parts are for. Each module holds its definitions, the in-place code as classes and
methods, and the lemmas about them.

- **Parallel execution** (`TxGraph`, `SerialOrder`, `Scheduler`). The dependency graph built from the
  critical keys of a block, and a step system in which every counter decrement, queue push, queue pop
  and transaction is one step of one worker. Transactions are an abstract `exec`; the assumption is
  that transactions whose critical lists do not clash commute. Every interleaving then ends in the
  store and the receipts of the block order.
- **RLP** (`BigEndian`, `Rlp`, `RlpStream`, `RlpDecoder`, `RlpView`). The recursive encoding of
  Appendix B of the Ethereum Yellow Paper, the stream that inserts list headers afterwards, the
  decoder and the indexing cache.
- **Patricia trie** (`HexPrefix`, `Trie`, `TrieForm`, `TrieCommitment`, `TrieBuild`, `TrieRoot`).
  Hex-prefix encoding, the trie as an RLP tree, the form of its nodes, lookup in it, exactly what its
  root commits to, the builder over a stream, and the roots of maps and lists.
- **Contract ABI** (`Abi`, `AbiForm`, `AbiCodec`). Head and tail layout over arbitrarily nested array
  types, and that layout byte by byte.
- **Merkle tree** (`Merkle`). The 16-ary tree, its parent and child maps, and proof extraction.
- **Chain** (`BlockCache`, `Chain`, `CommitProgress`). Concurrent `commitBlock` and `getBlock` calls over
  one storage and one cache, when a commit succeeds, and what each refusal means.
- **Broadcast tree** (`Topology`, `TreeTopology`). Child and parent selection, and message relay as a
  step system.
- **Channel framing** (`Framing`) and **worker lifecycle** (`Worker`).

`Common` holds the value types that the modules share. Hashing is a function value with 32-byte
digests; where collisions matter, freedom from them is a hypothesis on a finite set of encodings.
Calls into code outside these parts (transaction execution, the clock, the network, the database)
are parameters or nondeterministic choices.

Where the code and its own documentation differ, the model follows the code:

- `requireGood` (libdevcore/RLP.cpp:147-149) rejects every item that starts with 0x81, although
  libdevcore/RLP.h:470-471 speaks of non-canonical data only. The decoder is stated for both
  readings; `RlpDecoder.DecodeInvertsEncode` says exactly which trees each reading loses.
- The sign test of `int256` (libethcore/ABI.cpp:145) compares with 0x8fff...f. `Abi.RoundTrip` says
  exactly which values survive, and `Abi.MostNegativeIsLost` names one that does not.
- The worker thread stores `Started` unconditionally (libdevcore/Worker.cpp:80). `Worker` says exactly
  when a `terminate` is lost and that calls made one at a time never lose it.

## Model

| member | source | states |
|---|---|---|
| `TxGraph.CriticalField.Get` | libblockverifier/TxDAG.h:104-114 | the latest transaction of a key, or the last transaction that conflicts with everything, or the invalid id |
| `TxGraph.CriticalField.ForeachField` | libblockverifier/TxDAG.h:118-128 | the visited ids are exactly those recorded for some key and the conflict-with-all id, with one visit per key in any order |
| `TxGraph.CriticalField.SetCriticalAll` | libblockverifier/TxDAG.h:130-134 | forgets all keys and records the transaction that conflicts with everything |
| `TxGraph.Dag.Init` | libblockverifier/DAG.cpp:34-41 | an edgeless graph with exact counters; the ready queue is left as it was |
| `TxGraph.Dag.AddEdge` | libblockverifier/DAG.cpp:43-51 | one edge more, and every counter again equals the number of edges entering its vertex |
| `TxGraph.Dag.Generate` | libblockverifier/DAG.cpp:53-65 | queues exactly the vertices that no edge enters, in order |
| `TxGraph.RootsIncrease` | libblockverifier/DAG.cpp:55-59 | the queued vertices are in strictly increasing order of id |
| `TxGraph.JoinNext` | libblockverifier/TxDAG.cpp:68-101 | after transaction id is linked, every clashing pair up to id is joined by a path, given that the latest writers were tracked |
| `TxGraph.TxDag.LinkKeys` | libblockverifier/TxDAG.cpp:75-82 | the transaction follows the latest transaction of each of its keys, and only clashing ones |
| `TxGraph.TxDag.LinkAll` | libblockverifier/TxDAG.cpp:92-97 | a transaction without critical list follows every recorded transaction |
| `TxGraph.TxDag.Place` | libblockverifier/TxDAG.cpp:68-101 | one round of the loop keeps the graph forward, counted and path-complete and the latest writers tracked |
| `TxGraph.TxDag.Init` | libblockverifier/TxDAG.cpp:37-110 | for every list of critical keys: edges go from smaller to larger ids and join clashing transactions only, every clashing pair is joined by a path, counters are exact, and exactly the vertices without predecessors are queued, behind whatever an earlier use left in the queue |
| `SerialOrder.MoveToEnd` | libblockverifier/BlockVerifier.cpp:375-381 | a transaction that commutes with everything after it may run last, with the same store and the same receipts by index |
| `SerialOrder.SerialEquivalence` | libblockverifier/BlockVerifier.cpp:375-381 | every order that keeps clashing transactions in block order has the outcome of the block order |
| `SerialOrder.PlayBlockOrder` | libblockverifier/BlockVerifier.cpp:375-381 | the outcome of the block order: the store after all transactions, a receipt for exactly the indices of the block, and receipt i from transaction i on the store its predecessors left |
| `Scheduler.StartBlock` | libblockverifier/BlockVerifier.cpp:371-397 | builds the graph of a block and the starting state of any number of workers |
| `Scheduler.StartKeepsInv` | libblockverifier/DAG.cpp:34-65 | the starting state satisfies the scheduler invariant |
| `Scheduler.StepCounters` | libblockverifier/DAG.cpp:105-110 | every step keeps each counter equal to the number of unprocessed edges into its vertex |
| `Scheduler.StepPlaces` | libblockverifier/DAG.cpp:111-123 | every step keeps each ready vertex in exactly one place: the queue, one worker's hands, or the list of executed transactions |
| `Scheduler.StepOrder` | libblockverifier/TxDAG.cpp:126-131 | every step keeps all predecessors of an executed transaction executed before it |
| `Scheduler.StepKeepsInv` | libblockverifier/DAG.cpp:67-135 | every step of every worker keeps the whole invariant |
| `Scheduler.RunKeepsInv` | libblockverifier/TxDAG.cpp:118-140 | along every interleaving the invariant holds and the block state is the one obtained by playing the executed transactions in their order |
| `Scheduler.RunsOnce` | libblockverifier/DAG.cpp:100-135 | no transaction runs twice |
| `Scheduler.PathRunsFirst` | libblockverifier/DAG.cpp:100-135 | whatever reaches an executed transaction by a path ran before it |
| `Scheduler.ClashesInBlockOrder` | libblockverifier/TxDAG.cpp:118-140 | clashing transactions run in block order |
| `Scheduler.FinishedMeansAllRan` | libblockverifier/TxDAG.h:74-77 | without the exit flag, hasFinished implies that every transaction ran, once |
| `Scheduler.LeavesIff` | libblockverifier/TxDAG.h:74-77 | in every reachable state without the exit flag a worker that tests for the end leaves exactly when the executed count is the number of transactions |
| `Scheduler.ExitIsFinal` | libblockverifier/TxDAG.h:70-77 | after an exit request every later test for the end, in every interleaving, makes its worker leave |
| `Scheduler.ParallelEqualsSerial` | libblockverifier/BlockVerifier.cpp:371-411 | when a worker has left its loop without the exit flag, for every interleaving and number of workers: the store is the one after running the transactions one after another in block order, and receipt i is what transaction i returns on the store left by those before it, filed under i and nothing else |
| `Scheduler.NoStall` | libblockverifier/DAG.cpp:67-135 | while a vertex is unconsumed, some vertex is queued or some worker has work |
| `Scheduler.QuiescentMeansComplete` | libblockverifier/TxDAG.cpp:118-140 | with an empty queue and no worker at work everything was consumed and ran, and the executed count is the total once every worker has added its own |
| `Scheduler.NeverStuck` | libblockverifier/BlockVerifier.cpp:397-409 | a worker that has not left its loop always has a step, and a productive one when it holds work |
| `Scheduler.StepSpendsWork` | libblockverifier/DAG.cpp:100-135 | each productive step uses up one unit of a finite amount of work, and no step adds any |
| `Scheduler.RunDoesBoundedWork` | libblockverifier/TxDAG.cpp:118-140 | no run makes more productive steps than there is work |
| `Scheduler.CanAlwaysComplete` | libblockverifier/TxDAG.cpp:118-140 | from every reachable state without the exit flag some continuation executes every transaction, publishes every count and brings every worker out of its loop |
| `Scheduler.BlockCompletes` | libblockverifier/BlockVerifier.cpp:371-411 | every block, with at least one worker, has an interleaving after which every worker has left, and it ends in that store and those receipts |
| `BigEndian.CompactValue` | libdevcore/CommonData.h:190-201 | the compact form has no leading zero and reads back as the number |
| `BigEndian.ValueCompact` | libdevcore/CommonData.h:153-159 | a byte string without leading zero is the compact form of its value |
| `BigEndian.BytesRequiredBound` | libdevcore/CommonData.h:254-263 | k bytes suffice exactly for the numbers below 256 to the k |
| `BigEndian.FixedValue` | libdevcore/CommonData.h:137-146 | a number that fits its width is read back from the fixed-width form |
| `BigEndian.ValueFirst` | libdevcore/CommonData.h:153-159 | the first byte weighs 256 to the number of bytes after it |
| `Rlp.DataForm` | libdevcore/RLP.cpp:323-344 | the bytes of an encoded string with the literal limits: itself below 0x80, 0x80 plus the length up to 55, else 0xb7 plus the number of length bytes, the length without leading zero, and the string |
| `Rlp.ListForm` | libdevcore/RLP.cpp:274-297 | the bytes of an encoded list: 0xc0 plus the payload length up to 55, else 0xf7 plus the number of length bytes and the length, then the encoded items in order |
| `RlpStream.FeedIsAppend` | libdevcore/RLP.cpp:257-311 | feeding a whole tree into any open stream is appending its recursive encoding as one item |
| `RlpStream.FeedAllCloses` | libdevcore/RLP.cpp:257-301 | the last promised item closes its list, whose header lands in front of the items, and the list counts as one item outside |
| `RlpStream.StreamEqualsRecursive` | libdevcore/RLP.cpp:250-344 | for every item tree the stream ends with the recursive encoding and no open list |
| `RlpStream.NoteFailsIff` | libdevcore/RLP.cpp:257-270 | appending fails exactly when more items arrive than the innermost open list still needs |
| `RlpStream.StrippedForm` | libdevcore/RLP.cpp:323-330 | compacting drops exactly the leading zeros |
| `RlpStream.Stream.StoreDown` | libdevcore/RLP.cpp:290-292 | the compact bytes of a number, filled in from the back, and nothing else changed |
| `RlpStream.Stream.PushInt` | libdevcore/RLP.h:747-754 | appends exactly the big-endian bytes of a number |
| `RlpStream.Stream.InsertHeader` | libdevcore/RLP.cpp:274-297 | shifting the bytes and writing the header puts the list header exactly before the payload |
| `RlpStream.Stream.NoteAppended` | libdevcore/RLP.cpp:257-301 | counts items off the open lists, closing every list that becomes complete; fails exactly when more items arrive than were promised |
| `RlpStream.Stream.Append` | libdevcore/RLP.cpp:323-344 | one data item is fed, without its leading zeros when compact |
| `RlpStream.Stream.AppendInt` | libdevcore/RLP.cpp:346-370 | an integer is fed as the data item of its compact big-endian bytes |
| `RlpStream.Stream.PushCount` | libdevcore/RLP.cpp:372-379 | length-of-length byte and compact length |
| `RlpStream.Stream.AppendList` | libdevcore/RLP.cpp:303-321 | opens a list that waits for its items, or feeds the empty list |
| `RlpStream.Stream.Write` | libdevcore/RLP.cpp:303-344 | driving the stream with a whole tree feeds that tree |
| `RlpDecoder.EncodingSize` | libdevcore/RLP.cpp:123-132 | the size announced at the front of an encoding is the size of the encoding, whatever follows it |
| `RlpDecoder.EncodingPayload` | libdevcore/RLP.h:453-459 | the payload of an encoding is the data or the concatenated items |
| `RlpDecoder.DecodeInvertsEncode` | libdevcore/RLP.cpp:134-150 | a full decode of an encoding gives the tree back exactly when no item is lost by the check on 0x81, and fails otherwise; for the documented check it always gives it back |
| `RlpDecoder.EncodeInvertsDecode` | libdevcore/RLP.cpp:179-235 | every accepted input is the encoding of what it decodes to |
| `RlpDecoder.EncodeInjective` | libdevcore/RLP.cpp:179-235 | different trees have different encodings |
| `RlpDecoder.HighByteIsLost` | libdevcore/RLP.cpp:147-149 | the single byte 0x80 is lost by the check as written and kept by the documented one |
| `RlpDecoder.ShortLength` | libdevcore/RLP.cpp:134-150 | the length for every first byte that says it all, with the literal ranges, and the refusal of 0x81 under each check |
| `RlpDecoder.LongLengthRule` | libdevcore/RLP.cpp:190-235 | a length of one to eight bytes is read exactly when it is complete, has no leading zero, is at least 56 and below 2^64 - 257 |
| `RlpDecoder.EightByteLength` | libdevcore/RLP.cpp:231-234 | of the eight-byte lengths exactly those from 2^56 to 2^64 - 258 are read |
| `RlpView.ItemAt` | libdevcore/RLP.h:498-501 | the k-th item starts where the first k items end and is cut out by its own announced size |
| `RlpView.WholeIsDecode` | libdevcore/RLP.cpp:116-119 | the plain scan of a payload that decodes finds the encodings of exactly the decoded items, in order, and nothing is left over |
| `RlpView.View.At` | libdevcore/RLP.cpp:89-104 | for any bytes and any sequence of requests the answer: the item of the plain scan, the null item past the end, or a failure; a payload of whole items always gives the plain scan's answer, and otherwise a lookup behind the last whole item fails and spoils that item until an earlier one has been read |
| `RlpView.View.ItemCount` | libdevcore/RLP.cpp:237-248 | for any bytes: 0 when they are no list, a failure when the payload is missing or does not consist of whole items, and else the number of items |
| `RlpView.View.Next` | libdevcore/RLP.cpp:61-72 | the iterator moves from covering item k to covering item k + 1, or to the end, and fails only when the rest of the payload is not an item |
| `RlpView.View.First` | libdevcore/RLP.cpp:74-87 | for any payload the iterator starts by covering the first item, or at the end, and fails only when the payload does not begin with an item |
| `RlpView.View.ToList` | libdevcore/RLP.cpp:106-121 | iterating from begin to end lists exactly the items of the plain scan, and fails exactly when the bytes are no list or the payload does not consist of whole items |
| `HexPrefix.UnpackPack` | libdevcore/CommonData.cpp:116-126 | splitting packed nibbles gives them back |
| `HexPrefix.PackUnpack` | libdevcore/CommonData.cpp:116-126 | packing the nibbles of a byte string gives it back |
| `HexPrefix.KeyOfEncoded` | libdevcore/TrieCommon.h:108-123 | keyOf inverts the hex-prefix encoding and the leaf flag survives |
| `HexPrefix.EncodedKeyOf` | libdevcore/TrieCommon.h:115-123 | re-encoding gives the bytes back exactly when the two high flag bits are clear and the padding nibble is zero |
| `HexPrefix.EncodedForm` | libdevcore/TrieCommon.cpp:42-57 | the nibbles of an encoding: the flag nibble 0, 1, 2 or 3, a zero nibble before an even key, and the key |
| `HexPrefix.EncodeVector` | libdevcore/TrieCommon.cpp:42-57 | the vector form encodes the selected nibbles |
| `HexPrefix.EncodeSlice` | libdevcore/TrieCommon.cpp:59-81 | the packed form with offsets encodes the selected nibbles |
| `HexPrefix.EncodeJoined` | libdevcore/TrieCommon.cpp:83-114 | the two-part form encodes the rest of one key followed by the rest of another |
| `Trie.BucketIsGroup` | libdevcore/TrieHash.cpp:67-78 | the keys that go on with one nibble are a contiguous sorted group that shares one nibble more |
| `Trie.ExtensionStep` | libdevcore/TrieHash.cpp:54-59 | lookup in an extension node passes exactly the keys with its path on to the node below |
| `Trie.LookupBranch` | libdevcore/TrieHash.cpp:60-83 | lookup in a branch node finds the map's answer through the slot of the next nibble |
| `TrieForm.RefBySize` | libdevcore/TrieHash.cpp:87-99 | a child stands in place exactly when its encoding is shorter than 32 bytes, and else is replaced by the hash of that encoding |
| `TrieForm.NodeByRule` | libdevcore/TrieHash.cpp:27-85 | every node of every trie: 0x80 for no entries, the leaf pair, the extension pair, or sixteen references and the value, each reference by the 32-byte rule |
| `TrieForm.NodeInlineSmall` | libdevcore/TrieHash.cpp:87-99 | no node of a trie, at any depth, holds a node of 32 bytes or more in place |
| `Trie.LookupFinds` | libdevcore/TrieHash.cpp:27-99 | lookup in the trie of any sorted map gives exactly the map's answer for every key, present or absent |
| `Trie.EqualRootsEqualAnswers` | libdevcore/TrieHash.cpp:87-99 | with no collision among the stored nodes, equal roots mean equal answers to every key |
| `Trie.EqualRootsEqualMaps` | libdevcore/TrieHash.cpp:87-99 | with no collision among the stored nodes and no empty value, equal roots mean equal maps |
| `TrieCommitment.SilentHere` | libdevcore/TrieHash.cpp:79-82 | the key that ends at a branch is not shown by it exactly when its value is empty and at least two nibbles follow |
| `TrieCommitment.SameVisibleSameNode` | libdevcore/TrieHash.cpp:27-85 | maps that show the same entries have the same node, for every prefix |
| `TrieCommitment.SameNodeSameVisible` | libdevcore/TrieHash.cpp:27-99 | with no collision among the stored nodes, equal nodes show the same entries |
| `TrieCommitment.RootsEqualIff` | libdevcore/TrieHash.cpp:87-99 | with no collision among the stored nodes, two roots are equal if and only if the maps agree after dropping the empty values under keys after which others part |
| `TrieBuild.SharedPrefix` | libdevcore/TrieHash.cpp:42-53 | the loop with its sentinel and early exit finds the number of nibbles that all keys share |
| `TrieBuild.SharedPair` | libdevcore/TrieHash.cpp:46-52 | the inner loop, cut off at the running minimum, does not change that minimum |
| `TrieBuild.Extension` | libdevcore/TrieHash.cpp:54-59 | the pair written for a shared prefix is the extension node |
| `TrieBuild.Child` | libdevcore/TrieHash.cpp:69-77 | the slot written for a nibble is the reference to exactly the keys that go on with it |
| `TrieBuild.Branch` | libdevcore/TrieHash.cpp:60-83 | the seventeen items written are the branch node, although its list header comes later |
| `TrieBuild.Hash256Rlp` | libdevcore/TrieHash.cpp:27-85 | terminates for every sorted range and feeds the stream the node of the trie |
| `TrieBuild.Hash256Aux` | libdevcore/TrieHash.cpp:87-99 | feeds the stream the node itself when its encoding is below 32 bytes, its hash otherwise |
| `TrieRoot.UnpackLess` | libdevcore/CommonData.cpp:116-126 | nibble strings are ordered as their byte strings are |
| `TrieRoot.Rlp256` | libdevcore/TrieHash.cpp:101-112 | the encoding of the trie of the map, for every map and the empty one |
| `TrieRoot.Hash256` | libdevcore/TrieHash.cpp:114-117 | the hash of that encoding |
| `TrieRoot.EqualMapRoots` | libdevcore/TrieHash.cpp:114-117 | equal roots mean equal maps from byte strings to non-empty values |
| `TrieRoot.OrderedTrieRoot` | libdevcore/TrieHash.cpp:119-126 | the root of the map from encoded indices to list elements |
| `TrieRoot.ListMapGet` | libdevcore/TrieHash.cpp:119-126 | that map holds each element under its own index and nothing beyond the end, although index keys do not sort by index |
| `TrieRoot.ListMapKeys` | libdevcore/TrieHash.cpp:119-126 | that map has exactly the keys of the indices below the length |
| `TrieRoot.IndexKeyForm` | libdevcore/TrieHash.cpp:122-124 | the bytes of an index key: 0x80 for 0, the index itself for 1 to 127, and from 128 on 0x80 plus the number of bytes and the number without leading zero |
| `TrieRoot.EmptyRoots` | libdevcore/TrieHash.cpp:101-105 | the root of the empty map and of the empty list is the hash of the byte 0x80 |
| `TrieRoot.EqualListRoots` | libdevcore/TrieHash.cpp:119-126 | equal roots mean equal lists of non-empty elements, length and order included |
| `Abi.StaticSize` | libethcore/ABI.h:147-165 | a static value takes exactly the words its type announces |
| `Abi.PlaceOfPart` | libethcore/ABI.h:447-494 | the decoder finds each array element where the encoder put it, by offset word or by position |
| `Abi.TargetOfArgument` | libethcore/ABI.h:333-350 | the decoder finds each argument where the encoder put it |
| `Abi.SeenExact` | libethcore/ABI.cpp:140-156 | a value comes back unchanged exactly when every int256 in it is at least -2^255 + 2^252 and below 2^255 + 2^252 |
| `Abi.ReadInvertsLayout` | libethcore/ABI.cpp:140-204 | a value of any nested type is read back from wherever its layout lies in the data |
| `Abi.RoundTrip` | libethcore/ABI.h:312-390 | for every typed argument list and whatever follows it, decoding returns the arguments up to the sign test, and exactly the arguments when and only when every int256 is in range |
| `Abi.MostNegativeIsLost` | libethcore/ABI.cpp:145 | -2^255 comes back as 2^255 |
| `AbiForm.TextForm` | libethcore/ABI.cpp:121-138 | a text is its length as a word, its bytes, and zeros up to the next multiple of 32 |
| `AbiForm.SimpleForm` | libethcore/ABI.cpp:81-119 | the one-word values: unsigned, two's complement, 0 or 1, twelve zeros and the address, the raw bytes |
| `AbiForm.ArrayForm` | libethcore/ABI.h:400-444 | a dynamic array has its length in front, a static one has not |
| `AbiForm.ElementForm` | libethcore/ABI.h:400-444 | element u of an array of dynamic elements lies where its offset word says, counted from the first offset word; static elements lie one after another |
| `AbiForm.WholeWords` | libethcore/ABI.cpp:81-138 | the layout of every value of every nested type consists of whole words |
| `AbiForm.EncodedWholeWords` | libethcore/ABI.h:379-390 | so does every encoded argument list |
| `AbiForm.ArgumentForm` | libethcore/ABI.h:312-329 | a static argument lies at its head; the head of a dynamic one is the offset of its place from the start of the arguments, behind all heads |
| `AbiForm.TooShortFails` | libethcore/ABI.h:333-350 | data shorter than the heads of the arguments is refused, for every list of types |
| `AbiForm.TextNeeds` | libethcore/ABI.cpp:186-204 | a text is read exactly when it lies inside the data |
| `AbiForm.ReadForm` | libethcore/ABI.cpp:140-184 | what the decoder makes of any word: the number, false only for zero, the last twenty bytes, all bytes, and the sign test with its literal limit |
| `AbiForm.SignedSurvives` | libethcore/ABI.cpp:140-156 | the int256 that survive, with literal limits |
| `AbiCodec.ContractAbi.SerialiseText` | libethcore/ABI.cpp:121-138 | length word, the bytes, and zeros up to a whole word |
| `AbiCodec.ContractAbi.SerialiseArray` | libethcore/ABI.h:400-444 | offset words and contents built side by side give the layout of the elements |
| `AbiCodec.ContractAbi.Serialise` | libethcore/ABI.cpp:81-138 | the layout of a value of any nested type |
| `AbiCodec.ContractAbi.AbiInAux` | libethcore/ABI.h:312-329 | appends the heads and tails of the remaining arguments |
| `AbiCodec.ContractAbi.AbiIn` | libethcore/ABI.h:379-390 | the selector followed by all heads and all tails |
| `AbiCodec.ContractAbi.DeserialiseArray` | libethcore/ABI.h:446-494 | reads all elements, or fails as soon as one fails |
| `AbiCodec.ContractAbi.Deserialise` | libethcore/ABI.cpp:140-204 | reads one value of any nested type from any data at any offset, with 64-bit offset arithmetic, or fails |
| `AbiCodec.ContractAbi.AbiOutAux` | libethcore/ABI.h:333-350 | reads the remaining arguments from the current head on |
| `AbiCodec.ContractAbi.AbiOut` | libethcore/ABI.h:353-367 | reads all arguments of any data, or fails |
| `AbiCodec.ContractAbi.EncodeThenDecode` | libethcore/ABI.h:312-390 | one codec object encodes and decodes every argument list to itself exactly when every int256 is in range |
| `Merkle.GetHash256` | libdevcore/TrieHash2.cpp:40-76 | the level-by-level loop computes the root of the recursive tree |
| `Merkle.SmallRoots` | libdevcore/TrieHash2.cpp:40-76 | the root of no leaf, of one leaf, of two to sixteen leaves and of seventeen leaves, written out |
| `Merkle.Gather` | libdevcore/TrieHash2.cpp:101-112 | the children of one parent in order, and their concatenation |
| `Merkle.LevelsAreTower` | libdevcore/TrieHash2.cpp:51-75 | the levels shrink to one node and end in the root |
| `Merkle.FillLevel` | libdevcore/TrieHash2.cpp:92-121 | whatever order the parents are taken in, one level adds exactly its parents with their children in order |
| `Merkle.FillMap` | libdevcore/TrieHash2.cpp:78-125 | with distinct nodes the map holds exactly the parents of the tree, each with its children in order |
| `Merkle.ParseMerkleMap` | libblockchain/BlockChainImp.cpp:1071-1092 | whatever order the links are taken in, also across parents, every non-empty child gets a parent that lists it, and nothing else is recorded |
| `Merkle.ParentOf` | libblockchain/BlockChainImp.cpp:1071-1092 | with distinct nodes the recorded parent is the parent in the tree; the root and empty leaves have none |
| `Merkle.StepGivesParent` | libblockchain/BlockChainImp.cpp:1109-1121 | hashing left siblings, node and right siblings gives the parent |
| `Merkle.GetMerkleProof` | libblockchain/BlockChainImp.cpp:1094-1124 | terminates; from every non-empty node of the tree the proof has one step per level above it and folds to the root, and a node without parent has an empty proof |
| `Merkle.ProveLeaf` | libblockchain/BlockChainImp.cpp:1036-1044 | the proof of a leaf folds to getHash256 of the leaves exactly when the leaf is not empty |
| `BlockCache.EvictedSound` | libblockchain/BlockChainImp.cpp:60-81 | eviction leaves at most ten blocks, all of them cached before and still queued |
| `BlockCache.AddedSound` | libblockchain/BlockChainImp.cpp:56-89 | adding, also twice, keeps every cached hash in the queue and at most eleven blocks, caches the block and invents nothing |
| `BlockCache.AddedForm` | libblockchain/BlockChainImp.cpp:56-89 | up to ten cached blocks nothing is evicted; beyond that exactly the block queued longest goes, or everything when the queue and the map disagree |
| `BlockCache.BlockCache.Add` | libblockchain/BlockChainImp.cpp:56-89 | evicts, inserts without overwriting and queues, keeping the cache sound |
| `BlockCache.BlockCache.Get` | libblockchain/BlockChainImp.cpp:91-106 | the cached block of a hash, which has that hash |
| `Chain.NumberInChain` | libblockchain/BlockChainImp.cpp:335-362 | the number every call sees belongs to a stored block with a stored hash |
| `Chain.FreshHash` | libblockchain/BlockChainImp.cpp:1498-1516 | a block on top of the chain has a hash that no stored block has |
| `Chain.StepKeepsInv` | libblockchain/BlockChainImp.cpp:1549-1632 | every step of every commit and lookup keeps the chain invariant |
| `Chain.RunKeepsInv` | libblockchain/BlockChainImp.cpp:1549-1644 | the invariant holds along every run of any number of concurrent calls from any stored chain |
| `Chain.ChainStaysLinked` | libblockchain/BlockChainImp.cpp:1549-1632 | in every interleaving numbers have no gaps, each parent hash is the stored hash of the predecessor, and the stored transaction count is the sum over committed blocks |
| `Chain.CommittedOnce` | libblockchain/BlockChainImp.cpp:1573-1632 | a call that returned OK stored its block, and no other successful call stored the same number |
| `Chain.LookupAgreesWithStorage` | libblockchain/BlockChainImp.cpp:198-256 | a lookup returns only what is stored under the hash, finds everything stored before it began, and the cache never exceeds eleven blocks |
| `Chain.NoDeadlock` | libblockchain/BlockChainImp.cpp:1574-1625 | while a call is unfinished, it or the holder of the commit lock can take a step |
| `CommitProgress.CommitSucceeds` | libblockchain/BlockChainImp.cpp:1549-1632 | a commit of the block that follows the stored number and hash, with no other commit under way and no storage failure, in every continuation with any lookups: it can return only OK, then the block is last in the chain and in every table, and until then it can take a step that brings its return nearer |
| `CommitProgress.NextBlockCommits` | libblockchain/BlockChainImp.cpp:1549-1632 | from every reachable state without a commit under way the next block can be committed |
| `CommitProgress.ResultsMean` | libblockchain/BlockChainImp.cpp:1554-1618 | in every run ERROR_NUMBER means that the block did not follow the number read, ERROR_PARENT_HASH that the stored parent is another block or a block of that number was already stored, ERROR_COMMITTING that the storage commit failed |
| `CommitProgress.CallEnds` | libblockchain/BlockChainImp.cpp:1549-1644 | every call takes at most ten steps of its own, whatever the others do |
| `CommitProgress.EndsCached` | libblockchain/BlockChainImp.cpp:1628-1632 | a committed block and a block loaded by a lookup are in the cache when the call ends |
| `CommitProgress.LookupForm` | libblockchain/BlockChainImp.cpp:198-256 | a lookup answers from the cache at once, else from storage, and finds nothing only when neither has the block |
| `Topology.UpIff` | libdevcore/TreeTopology.cpp:151 | the parent of a position by division is the position among whose children it is |
| `Topology.ClimbsVia` | libdevcore/TreeTopology.cpp:98-136 | climbing over offline positions to an ancestor passes through exactly one of its children |
| `Topology.SelectCount` | libdevcore/TreeTopology.cpp:98-136 | child selection contains a position once when it is online and climbs here over offline positions, and not otherwise |
| `Topology.SelectIsDual` | libdevcore/TreeTopology.cpp:98-176 | an online position selects exactly the online positions whose nearest online ancestor it is |
| `Topology.AboveExact` | libdevcore/TreeTopology.cpp:147-176 | the positions above a position are exactly its online ancestors, from the nearest to the top |
| `Topology.SelectInOrder` | libdevcore/TreeTopology.cpp:98-136 | what is selected through an earlier child comes before what is selected through a later one |
| `Topology.AlwaysAccounted` | libdevcore/TreeTopology.cpp:195-226 | in every run, receipts and messages under way of a node add up to the receipts of its nearest online ancestor |
| `Topology.BroadcastOnce` | libdevcore/TreeTopology.cpp:195-226 | no node receives twice, no offline node receives, and when nothing is under way every online node has received exactly once, for every width, size and online set |
| `Topology.BroadcastEnds` | libdevcore/TreeTopology.cpp:195-226 | a broadcast run has no more states than there are nodes |
| `TreeTopology.RotatedPosition` | libdevcore/TreeTopology.cpp:178-193 | position and list index are inverse for every start index, also one beyond the number of nodes |
| `TreeTopology.RingIsRotation` | libdevcore/TreeTopology.cpp:178-193 | the order of positions is the node list from the start index on, then the part before it |
| `TreeTopology.RingRepeats` | libdevcore/TreeTopology.cpp:178-193 | a start index beyond the list counts from the beginning again |
| `TreeTopology.AllParents` | libdevcore/TreeTopology.cpp:228-243 | asked for all parents, a node names exactly its online ancestors |
| `TreeTopology.ChildParentDual` | libdevcore/TreeTopology.cpp:195-243 | for distinct identities and any start index, an online node selects another as child exactly when it is the one parent the other selects |
| `TreeTopology.RelayIsSelection` | libdevcore/TreeTopology.cpp:220-225 | the relays of the broadcast runs are what selectNodes returns at the receiver |
| `TreeTopology.EveryNodeOnce` | libdevcore/TreeTopology.cpp:195-226 | started at an online node, every online node of the list receives exactly once |
| `TreeTopology.Router.GetNodeIndexByNodeId` | libdevcore/TreeTopology.cpp:54-67 | the first occurrence of an identity, or -1 when there is none |
| `TreeTopology.Router.UpdateConsensusNodeInfo` | libdevcore/TreeTopology.cpp:27-46 | the derived fields fit the new list, also when the list is unchanged |
| `TreeTopology.Router.GetNodeIndex` | libdevcore/TreeTopology.cpp:178-193 | the position that rotates back to this node |
| `TreeTopology.Router.RecursiveSelectChildNodes` | libdevcore/TreeTopology.cpp:98-136 | terminates and appends exactly the identities of child selection |
| `TreeTopology.Router.SelectParentNodes` | libdevcore/TreeTopology.cpp:147-176 | terminates and appends the nearest online ancestor, or all of them |
| `TreeTopology.Router.SelectNodes` | libdevcore/TreeTopology.cpp:195-226 | child selection at a consensus node, for every width and list; an observer sends to the start node or below it, and only when it starts |
| `TreeTopology.Router.SelectParent` | libdevcore/TreeTopology.cpp:228-243 | parent selection at a consensus node, nothing at an observer |
| `Framing.RoundTrip` | libchannelserver/ChannelMessage.h:72-111 | a message comes back from its bytes exactly when its sequence id has 32 bytes and its length is within 100 MB |
| `Framing.Fields` | libchannelserver/ChannelMessage.h:72-85 | the bytes of a message: length in bytes 0 to 3, type in 4 and 5, sequence id in 6 to 37, result in 38 to 41, then the data |
| `Framing.DecodeOutcome` | libchannelserver/ChannelMessage.h:89-111 | the outcome of a decode of any bytes, with the literal limits 42 and 104857600 |
| `Framing.BadLengthEnds` | libchannelserver/ChannelSession.cpp:245-276 | after any messages, a length over 104857600 disconnects and one below 42 leaves the session without a further read; exactly the messages before it are delivered |
| `Framing.DecodeMore` | libchannelserver/ChannelMessage.h:89-111 | further bytes never change a decode that had an outcome |
| `Framing.PrefixIncomplete` | libchannelserver/ChannelMessage.h:89-111 | a proper prefix of a message is never taken for a message or an error |
| `Framing.ChunkingIrrelevant` | libchannelserver/ChannelSession.cpp:245-276 | for any bytes, the delivered messages, the way the session ends and the leftover while reading do not depend on how the bytes were split into reads |
| `Framing.StreamDelivered` | libchannelserver/ChannelSession.cpp:245-276 | for every message list and split of any prefix of its bytes, exactly the messages wholly received are delivered in order, and the leftover is a proper prefix of the next |
| `Framing.ChannelMessage.Encode` | libchannelserver/ChannelMessage.h:72-85 | appends the message to the buffer |
| `Framing.ChannelMessage.DecodeAmop` | libchannelserver/ChannelMessage.h:89-111 | the bytes used, 0 for too few, -1 for a length over the limit, an exception for a length below the header |
| `Framing.Session.OnRead` | libchannelserver/ChannelSession.cpp:230-295 | one read delivers every complete message and then waits, disconnects or stays without a read |
| `Framing.Session.OnReads` | libchannelserver/ChannelSession.cpp:230-295 | a sequence of reads agrees with one read of all the bytes |
| `Worker.RunKeepsInv` | libdevcore/Worker.cpp:40-172 | in every run where no terminate falls between the loop test and the store of Started, state and thread position stay consistent, with any number of concurrent callers |
| `Worker.KillingSticks` | libdevcore/Worker.cpp:146-161 | in such runs no step overwrites Killing while the thread exists |
| `Worker.TerminateLostIff` | libdevcore/Worker.cpp:74-81 | in every run the thread's next step after a terminate, however late, stores Started when the terminate fell between the loop test and the store of Started, and leaves Killing otherwise |
| `Worker.TerminateLasts` | libdevcore/Worker.cpp:146-161 | a terminate issued while the state is not Starting is never lost: the state is Killing for as long as the thread exists |
| `Worker.TwoCallersLoseTerminate` | libdevcore/Worker.cpp:74-81 | a run of two concurrent callers in which that happens |
| `Worker.SoloKeepsInv` | libdevcore/Worker.cpp:40-161 | calls one at a time never issue such a terminate, and each wait fits what the thread is about to do |
| `Worker.SoloKillingSticks` | libdevcore/Worker.cpp:40-172 | with calls one at a time Killing is never overwritten, in every interleaving with the thread |
| `Worker.StartReturnsStarted` | libdevcore/Worker.cpp:119-121 | between calls the state is never Starting while the thread exists |
| `Worker.StartWorks` | libdevcore/Worker.cpp:48-121 | with calls one at a time, a start of a stopped or missing worker does not return before the state was Started with the thread at work |
| `Worker.StopWorks` | libdevcore/Worker.cpp:124-144 | a stop of a started worker returns with the state Stopped and the thread waiting |
| `Worker.TerminateWorks` | libdevcore/Worker.cpp:146-161 | a terminate returns when the thread has finished, and leaves no thread behind |
| `Worker.WaitEnds` | libdevcore/Worker.cpp:119-161 | with calls one at a time a waiting caller can return, or every thread step brings it nearer |
| `Worker.ThreadLeaves` | libdevcore/Worker.cpp:74-115 | after Killing the thread can always step and each step brings the end of its loop nearer |

## Left out

- Transaction execution is one abstract atomic step; precompiled contracts, `Executive` and the computation of critical keys are not modelled.
- The 30-second warning, the 10-millisecond wait of `waitPop` and condition variables: a pop or an empty result is a nondeterministic step.
- TxGraph.Dag.AddEdge: requires both ends in range or both out of range, because the source tests them with `&&` and indexes out of bounds otherwise.
- `serialExecuteBlock`: its execution loop is commented out, so the serial reference is the fold over the transactions in block order.
- The hash functions, signatures and key handling: one abstract digest function.
- Memory exhaustion, and `size_t` overflow of encoder offsets in outputs of 2^64 bytes or more.
- Abi.RoundTrip: assumes that the encoded arguments are shorter than 2^64 bytes.
- `abiOutByFuncSelector` and `serialise(int)`: they add no type beyond those modelled.
- The overload of `appendList` for given bytes, except for the empty list; integer conversions of `RLP`.
- RlpView.View.ToList: requires a list to fill the data, because the source compares the iterator with the end of the data and does not meet it otherwise.
- RlpView.View.First: the iterator over something that is not a list, which is at its end from the start, is left out.
- RlpView.View.Next: not advanced beyond the end.
- Merkle.ProveLeaf: assumes pairwise distinct tree nodes; hex strings are replaced by the bytes they stand for. Its two calls stand for separately encoded vectors, because both functions move the elements out of their argument.
- The 32-bit loop counters of the Merkle tree.
- Chain: the other system tables (nonces, transaction index, failed transaction count), exceptions when a table cannot be opened, and notification of listeners.
- Chain.RunKeepsInv: assumes that blocks with one header hash have one number.
- TreeTopology.Router.SelectNodes: requires a non-negative start index, and start index zero while no list has been set, where the source divides by zero; the broadcast results are about consensus nodes only.
- TreeTopology.Router.SelectParent: requires in addition a width of at least one, because the source divides by it.
- Negative start indices, which `selectNodesByNodeID` passes on when the identity is unknown.
- CommitProgress.CommitSucceeds: says nothing of a commit beside other unfinished commits; for those, `CommitProgress.ResultsMean` says what each result means.
- RlpStream.NoteFailsIff: assumes that the output with nine more bytes for each open list is shorter than 2^64 bytes.
- AbiForm.TextNeeds: assumes that the announced length does not wrap the 64-bit offset around.
- Framing.Session.OnRead: read errors, idle timers and the write side; message handlers are the list of delivered messages.
- Worker: destruction, thread names and the duration of `doWork`.
- PBFT, sealing, synchronisation, RPC, storage engines, start-up and configuration.
