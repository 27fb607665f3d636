# GenVM, modelled and verified in Dafny

GenVM runs smart contracts that several nodes must execute identically. This project models the state machines,
codecs and data structures on which that rests, in the form the sources have (classes and loops where the sources
update things step by step, functions and values where they compute), and proves what they promise.
`dafny verify dfyconfig.toml` checks everything.

| file | what it models |
|---|---|
| `Storage.dfy`, `StorageReference.dfy` | the copy-on-write overlay of 32-byte pages over the host's storage, and the flat store it must be indistinguishable from |
| `StorageDelta.dfy` | the run-length summary of an overlay that is sent to the host |
| `StorageBudget.dfy` | the page budget shared by a contract's storage, its snapshots and its events |
| `Calldata.dfy`, `CalldataParser.dfy`, `CalldataFormat.dfy` | the calldata format (LEB128 as in section 7.6 of DWARF version 5, with no zero top octet), its reader and writer as they run, and the format octet by octet, apart from them |
| `Utf8.dfy` | UTF-8 (RFC 3629, sections 3 and 4) and the lossless decoder |
| `VecTree.dfy`, `VecDb.dfy` | the node tree of the vector database as a value, and the database that updates it in place |
| `AvlTree.dfy`, `TreeItems.dfy`, `TreeSlots.dfy`, `TreeMap.dfy` | the storage `TreeMap`, which the vector database keeps its free lists in: AVL trees and the ways back to their roots as values, their items as a map, the slots that hold them, and the map that updates the slots in place |
| `Replay.dfy`, `ReplaySession.dfy`, `VmEffects.dfy` | leader, validator and sync execution of a transaction, a deployment included: contracts that call each other, open sandboxes and run blocks, as values and as objects on a stack; and what a contract finds when it asks for something |
| `NondetQueue.dfy` | the queue of validator runs with its workers, countdown and verdict, as interleaved steps |
| `MemoryLimiter.dfy` | the memory budget with its derived limiters, as interleaved atomic steps |
| `SharedPointer.dfy` | the reference count of `DArc` and `DArcStruct`, as interleaved atomic steps |
| `RunnerActions.dfy`, `ActionEffects.dfy` | the interpreter of runner.json actions, and what its events have to do with the actions of the JSON |
| `FileMapping.dfy`, `Descriptors.dfy` | the file tree, the mapping of archive directories into it, and the descriptor table |
| `WordPiece.dfy` | the vocabulary trie and the WordPiece loop |
| `DigestId.dfy` | the base-32 printer of runner hashes |
| `Prelude.dfy`, `Order.dfy` | machine integers and results; the lexicographic order on byte strings |

The concurrent parts (`NondetQueue`, `MemoryLimiter`, `SharedPointer`) are state machines: a state, the steps each
thread can take, an invariant that every step keeps, and theorems about every sequence of enabled steps. The host is a
fixed function from positions to bytes that may fail; a block's result, an answer from the web or a language model, a
host's failure, the code a VM runs, a distance, a logarithm, an expansion of variables and a digest are parameters.

## Where the code does less than it seems to

Each of these is stated in the project, with the exact condition where there is one.

- The highest level of the vector database starts at 0 and bounds the level of every new node, so every tree it builds
  is a star: each node is a child of the root (`VecDb.VecDb.Insert` and `Remove` keep `Flat`). The documentation at
  runners/genlayer-py-std/src-emb/genlayer_embeddings/vecdb.py:100-102 promises cover trees and logarithmic search. The
  search visits every node, and is exact for any tree of the right structure.
- `TreeMap.compute_if_absent` stores the supplied value under a key that was absent and then fails, as the list it
  returns from is only filled for a key that is present: it returns if and only if the key was there
  (`TreeMap.TreeMap.ComputeIfAbsent`).
- `TreeMap.get_or_insert_default` gives a new key the value that its cell still holds, since removing an entry and
  clearing the map write no value: it is the default if and only if that cell holds the default
  (`TreeMap.TreeMap.GetOrInsertDefault`). In `TreeMap.ForgottenValueReturns` a removed value comes back under its key.
- Removing an id that was never handed out is not refused, and the database is no longer well formed afterwards:
  `VecDb.VecDb.Remove` leaves it valid if and only if the id is below the number of keys.
- A worker takes a run off the queue and looks at the verdict in two steps. With two workers the reported number may then
  not be the least that disagrees (`NondetQueue.TornCheckCanMissTheLeast` is such a run). It is the least if and only if
  no check skips a run that disagrees with a number below the one recorded at that step
  (`NondetQueue.VerdictIsLeastIff`), so with a single worker, or with taking and checking as one step, it always is
  (`NondetQueue.SimpleSchedulesReportLeast`).
- Call number 2^32 - 1 doubles as "nobody disagreed". In the run of `NondetQueue.LastNumberCannotDisagree` the calls are
  numbered from 0, all others agree, the last one disagrees, and agreement is reported. It is the only number of the kind
  (`NondetQueue.VerdictIsSound`).
- A limiter counts what it consumed in 32 bits, and gives memory back before it lowers the count. The count is exact if
  and only if what it stands for, the claim and what is being given back, fits 32 bits
  (`MemoryLimiter.CounterIsExactIffItFits`); two threads on one limiter can make it wrap, up and then below zero
  (`MemoryLimiter.CounterCanWrap`; `MemoryLimiter.CounterWrapsIffPassing` has the exact condition). It is exact again when
  the limiter is dropped (`MemoryLimiter.AdditionsNeverOverflow`).
- A contract that names itself in `Depends` fails, because the id `<contract>` stands for is checked again and is not a
  published runner (`RunnerActions.ContractCannotDependOnItself`; `RunnerActions.DependsEnters` has the exact condition).
- Standard input is released when it is closed but was never charged (`Descriptors.Vfs.PopFd`, which can overflow for that
  reason only). Dropping the limiter while standard input is closed and less than its length is charged for anything else
  finds a count that has wrapped, and runs into the overflow assertion; any other drop restores the budget
  (`Descriptors.Vfs.DropLimiter`). `Descriptors.CloseStdinAndDrop` closes standard input and then drops the limiter, for
  every input and every memory.
- Contents that are charged and then get no descriptor stay charged until the limiter is dropped
  (`Descriptors.Vfs.PlaceContent`); every failure of `path_open` after it has a descriptor loses that descriptor, although
  the code means to free it (`Descriptors.Vfs.PathOpen`).
- A directory opened from another directory is recorded under a path that leads to it, in every tree that has it, if and
  only if the way to that other directory is empty, that is from the root (`Descriptors.RecordedRightlyIffFromRoot`;
  `Descriptors.RecordedBelowRoot` is one tree in which it is not).
- The length of a result is cut to 32 bits when it is framed: the frame is read back if and only if the length is below
  2^32 (`Replay.FrameRoundTrip`).

## Model

| member | source | states |
|---|---|---|
| PagedStorage.Limiter.Consume | executor/src/rt/vm/storage.rs:62-78 | takes the amount exactly if the budget covers it, else takes nothing |
| PagedStorage.Storage.constructor | executor/src/rt/vm/storage.rs:118-124 | a new storage overrides no page |
| PagedStorage.Storage.Clone | executor/src/rt/vm/storage.rs:110-115 | a snapshot has the same pages and host and shares the budget |
| PagedStorage.Storage.CutKnownPrefix | executor/src/rt/vm/storage.rs:171-179 | everything cut off at the front of a host read is overridden |
| PagedStorage.Storage.CutKnownSuffix | executor/src/rt/vm/storage.rs:181-189 | everything cut off at the back of a host read is overridden |
| PagedStorage.Storage.ApplyOverrides | executor/src/rt/vm/storage.rs:202-222 | the overridden bytes of a buffer become those of their pages, the others stay |
| PagedStorage.Storage.Read | executor/src/rt/vm/storage.rs:155-225 | the buffer holds, byte for byte, what the overlay over the host shows; it fails exactly if the host fails the one request from the first byte that is not overridden to the last |
| PagedStorage.Storage.WritePage | executor/src/rt/vm/storage.rs:100-107 | overriding a page is charged exactly when the page was not overridden before |
| PagedStorage.Storage.ExistingPage | executor/src/rt/vm/storage.rs:240-250 | the page as the overlay over the host shows it |
| PagedStorage.Storage.WritePartialPage | executor/src/rt/vm/storage.rs:290-322 | the chunk is patched into the old page, at the price of a newly overridden one; a failure changes nothing |
| PagedStorage.Storage.WriteSinglePage | executor/src/rt/vm/storage.rs:227-258 | a write inside one page has the effect defined for that page, whole or partial |
| PagedStorage.Storage.WriteEdgePage | executor/src/rt/vm/storage.rs:287-323 | the chunk for a partial first or last page has the effect on it that the whole write has |
| PagedStorage.Storage.WriteWholePages | executor/src/rt/vm/storage.rs:325-342 | the loop writes exactly the pages covered whole, in order, up to the first failure |
| PagedStorage.Storage.WriteManyPages | executor/src/rt/vm/storage.rs:279-344 | a write over several pages goes through the partial first page, the partial last page and the whole ones, up to the first failure |
| PagedStorage.Storage.WriteExactly | executor/src/rt/vm/storage.rs:260-345 | the overlay, the budget and the outcome after any write, also one that fails half-way, are those of the pages put in order |
| PagedStorage.Storage.Write | executor/src/rt/vm/storage.rs:260-345 | a write is the flat write of its bytes and touches nothing else; succeeding or failing it pays for exactly the pages newly overridden; with a host that does not fail it succeeds exactly if the budget covers the pages it needs |
| PagedStorage.OrderIsComplete | executor/src/rt/vm/storage.rs:264-342 | that order has every page the write touches, once |
| PagedStorage.EdgesComeFirst | executor/src/rt/vm/storage.rs:287-342 | the pages covered in part come before those covered whole, and otherwise in ascending order, so the order is this one |
| PagedStorage.PutPagesTearsNone | executor/src/rt/vm/storage.rs:100-107 | wherever a write stops, every page is wholly old or wholly new and the budget has paid for exactly the pages added |
| PagedStorage.GapIsUnique | executor/src/rt/vm/storage.rs:168-199 | what a read has to ask the host for is determined by the overlay |
| PagedStorage.WrittenIsFlat | executor/src/rt/vm/storage.rs:260-345 | the exact effect of a write is a flat write, or what is left of one and the reason |
| PagedStorage.PutChunk | executor/src/rt/vm/storage.rs:300-319 | the part of a write that falls into a page has the effect of the write on it |
| PagedStorage.NewPagesAreFlatWrite | executor/src/rt/vm/storage.rs:260-345 | pages that are all new show the bytes written where they were written and the old bytes elsewhere |
| PagedStorage.BudgetDecides | executor/src/rt/vm/storage.rs:100-107 | what a write that tears no page succeeds or fails for, in terms of the pages needed and the budget |
| PagedStorage.Storage.WriteCode | executor/src/rt/vm/storage.rs:347-361 | the exact effect of storing code: on success byte k of the code slot is the length divided by 256^k, modulo 256, for k below 4, and the code follows; code over 2^32 - 5 bytes is refused untouched, and a failure leaves what the budget paid for |
| PagedStorage.Storage.ReadCode | executor/src/rt/vm/storage.rs:363-380 | a stored code is read back as it was, exactly if the memory left covers it |
| StorageReference.FlatStore.WriteChunk | executor/fuzz/genvm-storage.rs:40-53 | a chunk inside one page is one flat write |
| StorageReference.FlatStore.WriteStorageSlice | executor/fuzz/genvm-storage.rs:22-60 | the chunked write of the reference is one flat write |
| StorageReference.FlatStore.StorageRead | executor/fuzz/genvm-storage.rs:75-105 | the chunked read of the reference returns its bytes |
| StorageReference.FlatWritesCompose | executor/fuzz/genvm-storage.rs:35-57 | two flat writes next to each other are the flat write of both |
| StorageReference.CompareWrite | executor/fuzz/genvm-storage.rs:157-174 | a write keeps overlay and reference in agreement, and succeeds exactly if the budget covers it |
| StorageReference.CompareRead | executor/fuzz/genvm-storage.rs:175-200 | overlay and reference give the same bytes |
| StorageReference.Compare | executor/fuzz/genvm-storage.rs:128-200 | for all initial contents and all operations no read ever differs; only a write over the budget stops the run |
| StorageDelta.FromBytesInverts | executor/src/rt/vm/storage.rs:12-27 | `from_bytes` undoes `to_bytes` |
| StorageDelta.ToBytesKeepsOrder | executor/src/rt/vm/storage.rs:12-17 | the bytes of two page ids compare as the page ids do |
| StorageDelta.SortedKeys | executor/src/rt/vm/storage.rs:139 | the page map is enumerated completely and in ascending order |
| StorageDelta.PrevIsAdjacent | executor/src/rt/vm/storage.rs:140-146 | if the page before is overridden it was enumerated just before, so appending to the last delta is right |
| StorageDelta.RunExtended | executor/src/rt/vm/storage.rs:142-145 | appending such a page keeps the summary a summary |
| StorageDelta.RunStarted | executor/src/rt/vm/storage.rs:147 | any other page starts a maximal run |
| StorageDelta.MakeDelta | executor/src/rt/vm/storage.rs:136-151 | the deltas spell out the maximal runs of overridden pages, each page once and in order |
| StorageDelta.DeltasReproduceOverlay | executor/src/rt/vm/storage.rs:136-151 | written over the host in order the deltas give exactly what the overlay shows |
| StorageDelta.DeltasCoverThePages | executor/src/rt/vm/storage.rs:136-151 | a page is in some delta exactly if it is overridden |
| StorageDelta.DeltasAreWholePages | executor/src/rt/vm/storage.rs:136-151 | every delta, the last and an only one included, is one or more whole pages |
| StorageDelta.DeltasAreSorted | executor/src/rt/vm/storage.rs:136-151 | the deltas are in ascending order of their starts |
| StorageDelta.DeltasAreApart | executor/src/rt/vm/storage.rs:136-151 | two deltas of one slot are disjoint and never adjacent |
| StorageDelta.SummaryIsUnique | executor/src/rt/vm/storage.rs:136-151 | an overlay has one such summary: the same pages give the same bytes |
| StorageBudget.Transaction.Snapshot | executor/src/wasi/genlayer_sdk.rs:1161 | a snapshot costs nothing and starts with the pages of its origin |
| StorageBudget.Transaction.Write | executor/src/wasi/genlayer_sdk.rs:959-962 | a write through one storage is seen by no other; the initial budget stays what remains plus the pages made in all storages plus event slots |
| StorageBudget.Transaction.EmitEvent | executor/src/wasi/genlayer_sdk.rs:533-573 | the encoded values are recorded behind the topics and charged by topics and started 32-byte pieces exactly if the event is well formed and covered; more than 4 topics, or else one that is not 32 bytes long, have their own errors |
| StorageBudget.EventSizeIs | executor/src/wasi/genlayer_sdk.rs:562-567 | the charge above the number of topics is the least number of 32-byte pieces that holds the blob |
| StorageBudget.BlobIsReadBack | executor/src/wasi/genlayer_sdk.rs:560 | the bytes recorded decode to the event's values, and no other bytes do |
| Calldata.UlebReadsBack | executor/common/src/calldata/bin.rs:185-207 | a LEB128 spelling followed by anything is read as its number |
| Calldata.UlebIsCanonical | executor/common/src/calldata/bin.rs:24-51 | an accepted LEB128 prefix is the one spelling of its number |
| Calldata.ReadsBack | executor/common/src/calldata/bin.rs:76-170 | the spelling of a value followed by anything is read as that value and nothing more is read |
| Calldata.ItemsReadBack | executor/common/src/calldata/bin.rs:113-122 | the same for the items of an array |
| Calldata.EntriesReadBack | executor/common/src/calldata/bin.rs:131-155 | the same for the entries of a map in key order |
| Calldata.IsCanonical | executor/common/src/calldata/bin.rs:76-170 | what is accepted as a value is the one spelling of that value |
| Calldata.ItemsAreCanonical | executor/common/src/calldata/bin.rs:113-122 | the same for the items of an array |
| Calldata.EntriesAreCanonical | executor/common/src/calldata/bin.rs:131-155 | the same for the entries of a map |
| Calldata.EntriesAreGood | executor/common/src/calldata/bin.rs:143-147 | accepted keys are valid strings in strictly ascending order, and accepted values are spellable |
| Calldata.DecodeIffEncode | executor/common/src/calldata/bin.rs:173-286 | a byte string is decoded to a value exactly if it is the encoding of that value and the value is spellable |
| Calldata.EncodeIsPrefixFree | executor/common/src/calldata/bin.rs:280-286 | no encoding begins another, so encodings can be followed by anything |
| CalldataFormat.SpellsIffEncode | executor/common/src/calldata/bin.rs:209-278 | the encoding of a value is its spelling by rules in literal numbers: octets 0, 8 and 16 for null, false and true, 24 before an address, and else a head that reads, as little-endian digits to base 128, as eight times the number, `-1 - number` or the size, plus 1 to 6 |
| CalldataFormat.DecodeIffSpells | executor/common/src/calldata/bin.rs:76-183 | the reader accepts a byte string as a value exactly if it spells it by those rules and keeps the size limits |
| CalldataFormat.FirstOctet | executor/common/src/calldata/bin.rs:10-22 | the first octet of an encoding, modulo 8, tells the kind: 0 for null, booleans and addresses, 1 and 2 for numbers not below and below 0, then 3 bytes, 4 string, 5 array, 6 map |
| CalldataFormat.UlebIsLeb | executor/common/src/calldata/bin.rs:185-207 | what the writer appends for a number has that number as the sum of its seven-bit digits, with the top bit set on all octets but the last |
| CalldataFormat.LebIsUleb | executor/common/src/calldata/bin.rs:185-207 | no other octets with a last digit that is needed have that sum |
| CalldataFormat.RefusalsAre | executor/common/src/calldata/bin.rs:53-168 | given the number of a head: kind 7, specials above 3, sizes of 2^32 and more, missing bytes, and bytes that are no UTF-8 are refused, each for its reason |
| CalldataFormat.UlebRefusalsAre | executor/common/src/calldata/bin.rs:24-51 | a number is refused as unterminated exactly if all octets have the top bit, and for its top octet exactly if it ends in a zero that is not its first |
| CalldataFormat.TrailingIsRefused | executor/common/src/calldata/bin.rs:173-183 | anything after a value is refused |
| CalldataParser.Parser.FetchUleb | executor/common/src/calldata/bin.rs:24-51 | the loop reads what the format prescribes, errors included |
| CalldataParser.Parser.FetchSlice | executor/common/src/calldata/bin.rs:53-63 | takes the bytes if they are there, else fails and takes none |
| CalldataParser.Parser.FetchText | executor/common/src/calldata/bin.rs:123-130 | a sized string that must be UTF-8 |
| CalldataParser.Parser.FetchKey | executor/common/src/calldata/bin.rs:137-141 | a map key as the format prescribes |
| CalldataParser.Parser.FetchVal | executor/common/src/calldata/bin.rs:76-170 | the cursor program reads the value the format prescribes, or fails with its error |
| CalldataParser.Parser.FetchSpecial | executor/common/src/calldata/bin.rs:85-106 | null, booleans and addresses, and the errors for other specials |
| CalldataParser.Parser.FetchArray | executor/common/src/calldata/bin.rs:113-122 | the loop over the items, which ends however many items are declared |
| CalldataParser.Parser.FetchMap | executor/common/src/calldata/bin.rs:131-155 | the loop over the entries with its order check |
| CalldataParser.DecodeBytes | executor/common/src/calldata/bin.rs:173-183 | accepts exactly the encodings of spellable values |
| CalldataParser.Buffer.AppendUleb | executor/common/src/calldata/bin.rs:185-207 | appends the LEB128 spelling |
| CalldataParser.Buffer.EncodeTo | executor/common/src/calldata/bin.rs:209-278 | appends the encoding |
| CalldataParser.Buffer.EncodeMap | executor/common/src/calldata/bin.rs:253-265 | appends the entries in order |
| CalldataParser.Buffer.EncodeArray | executor/common/src/calldata/bin.rs:266-276 | appends the items in order |
| Utf8.StepIsExact | executor/common/src/util/str.rs:14-42 | the decoder reports a character exactly where the grammar of RFC 3629 has one, and passes over its bytes |
| Utf8.InvalidIsPassed | executor/common/src/util/str.rs:22-39 | anything else it reports is the bytes it passed |
| Utf8.StepOfEncode | executor/common/src/util/str.rs:14-42 | an encoded character is read back |
| Utf8.DecodeIsLossless | executor/common/src/util/str.rs:14-42 | encoding the characters and keeping the raw bytes of the items gives back the input |
| Utf8.NoErrorsIffValid | executor/common/src/util/str.rs:14-42 | there is no error item exactly for valid UTF-8 |
| Utf8.EncodedTextDecodes | executor/common/src/util/str.rs:14-42 | the encoding of a text is decoded to its characters |
| Utf8.Decoder.Next | executor/common/src/util/str.rs:14-42 | the iterator takes the step the rules above are about |
| Utf8.DecodeToEnd | executor/common/src/util/str.rs:4-42 | run to its end the iterator is lossless and exact |
| VecTree.AttachedIsValid | runners/genlayer-py-std/src-emb/genlayer_embeddings/vecdb.py:262-264 | a new leaf under any live node keeps the tree a tree with each element once |
| VecTree.RerootedIsValid | runners/genlayer-py-std/src-emb/genlayer_embeddings/vecdb.py:234-244 | a new root over the old one does too |
| VecTree.SplicedIsValid | runners/genlayer-py-std/src-emb/genlayer_embeddings/vecdb.py:296-307 | taking out a node and giving its children to its parent keeps the tree and loses that element only |
| VecTree.PromotedIsValid | runners/genlayer-py-std/src-emb/genlayer_embeddings/vecdb.py:308-327 | taking out the root and making a child the root does too |
| VecTree.EmptiedIsValid | runners/genlayer-py-std/src-emb/genlayer_embeddings/vecdb.py:328-330 | taking out the only node leaves the empty tree |
| VecTree.ClosedSetHasAll | runners/genlayer-py-std/src-emb/genlayer_embeddings/vecdb.py:366-377 | a set with the root and the children of its members has every live node |
| VecTree.TraversalStep | runners/genlayer-py-std/src-emb/genlayer_embeddings/vecdb.py:341-349 | visiting a node never brings a node back, so traversals end |
| VecTree.TraversalVisitsAll | runners/genlayer-py-std/src-emb/genlayer_embeddings/vecdb.py:366-377 | a traversal that skips no child visits exactly the live nodes |
| VecTree.SearchFindsAll | runners/genlayer-py-std/src-emb/genlayer_embeddings/vecdb.py:266-283 | a search that follows the children of higher nodes only finds exactly the nodes of the level that higher levels lead to |
| VecDb.SortedByDistance | runners/genlayer-py-std/src-emb/genlayer_embeddings/vecdb.py:380 | the sort gives a permutation in order of distance |
| VecDb.SortIsStable | runners/genlayer-py-std/src-emb/genlayer_embeddings/vecdb.py:380 | candidates at the same distance keep their order |
| VecDb.ListedOnce | runners/genlayer-py-std/src-emb/genlayer_embeddings/vecdb.py:366-377 | a list with each live element once is as long as there are live elements |
| VecDb.FirstOfSortedAreNearest | runners/genlayer-py-std/src-emb/genlayer_embeddings/vecdb.py:379-387 | the first k of all candidates sorted are min(k, n) elements than which no other is nearer |
| VecDb.VecDb.constructor | runners/genlayer-py-std/src-emb/genlayer_embeddings/vecdb.py:135-144 | an empty, well-formed database |
| VecDb.VecDb.AllocateNode | runners/genlayer-py-std/src-emb/genlayer_embeddings/vecdb.py:168-177 | a freed slot or a new one, with a childless node in it |
| VecDb.VecDb.FindNodesAtLevel | runners/genlayer-py-std/src-emb/genlayer_embeddings/vecdb.py:266-283 | ends, and finds exactly the nodes of the level that are reached through higher levels |
| VecDb.VecDb.PlantOverRoot | runners/genlayer-py-std/src-emb/genlayer_embeddings/vecdb.py:234-244 | the new node becomes a valid root above the old one |
| VecDb.VecDb.NearestCandidate | runners/genlayer-py-std/src-emb/genlayer_embeddings/vecdb.py:251-260 | the nearest of the candidate parents, and of several the first |
| VecDb.VecDb.AttachToNearest | runners/genlayer-py-std/src-emb/genlayer_embeddings/vecdb.py:246-264 | the parent is the nearest of the nodes found one level up, or the root if there is none |
| VecDb.VecDb.InsertNodeAtLevel | runners/genlayer-py-std/src-emb/genlayer_embeddings/vecdb.py:232-264 | a level above all makes a new root; any other puts the node under the nearest node one level up or the root; either way the element joins and nothing is lost, and a flat tree stays flat |
| VecDb.VecDb.NearestDistance | runners/genlayer-py-std/src-emb/genlayer_embeddings/vecdb.py:209-216 | the least distance to another live element |
| VecDb.VecDb.LevelFor | runners/genlayer-py-std/src-emb/genlayer_embeddings/vecdb.py:208-224 | the level is the logarithm of the least distance to another element, forced between 0 and the highest level; 0 beside an equal key |
| VecDb.VecDb.InsertIntoTree | runners/genlayer-py-std/src-emb/genlayer_embeddings/vecdb.py:200-230 | the tree gains the element; a flat tree stays flat |
| VecDb.VecDb.Insert | runners/genlayer-py-std/src-emb/genlayer_embeddings/vecdb.py:183-198 | the id is new, holds the pair, and no other pair changes; the tree stays valid and flat |
| VecDb.VecDb.FindNodeById | runners/genlayer-py-std/src-emb/genlayer_embeddings/vecdb.py:335-351 | finds the node of an element exactly if the element is live |
| VecDb.VecDb.Reattach | runners/genlayer-py-std/src-emb/genlayer_embeddings/vecdb.py:304-307 | the children move to their new parent and nothing else changes |
| VecDb.VecDb.SpliceOut | runners/genlayer-py-std/src-emb/genlayer_embeddings/vecdb.py:296-307 | the tree loses the element of a node below the root |
| VecDb.VecDb.HighestChild | runners/genlayer-py-std/src-emb/genlayer_embeddings/vecdb.py:311-318 | a child of the highest level, and of several the first |
| VecDb.VecDb.PromoteChild | runners/genlayer-py-std/src-emb/genlayer_embeddings/vecdb.py:308-327 | the tree loses the element of a root with children |
| VecDb.VecDb.RemoveFromTree | runners/genlayer-py-std/src-emb/genlayer_embeddings/vecdb.py:285-333 | the tree loses exactly the element, or nothing if it has none such |
| VecDb.VecDb.Remove | runners/genlayer-py-std/src-emb/genlayer_embeddings/vecdb.py:89-94 | the id is dead and its slot free; the database stays valid exactly if the id was ever handed out |
| VecDb.VecDb.ListCandidates | runners/genlayer-py-std/src-emb/genlayer_embeddings/vecdb.py:362-377 | the traversal lists each live element once with its distance |
| VecDb.VecDb.Knn | runners/genlayer-py-std/src-emb/genlayer_embeddings/vecdb.py:353-387 | the answer is exact: min(k, n) live elements in order of distance, and no other is nearer |
| AvlTree.LeanRightIsExact | runners/genlayer-py-std/src/genlayer/py/storage/tree_map.py:240-263 | rotating a tree that leans two to the left, twice if its left child leans to the right, makes every balance the difference of heights again and keeps the items in order; it ends one lower than it was unless the child was even |
| AvlTree.LeanLeftIsExact | runners/genlayer-py-std/src/genlayer/py/storage/tree_map.py:264-287 | the same to the right |
| AvlTree.GrowIsExact | runners/genlayer-py-std/src/genlayer/py/storage/tree_map.py:356-408 | the way up from a subtree that has grown by one, with its new balances, its rotation and its early end, leaves exact balances in the whole tree and every item in its place |
| AvlTree.ShrinkIsExact | runners/genlayer-py-std/src/genlayer/py/storage/tree_map.py:228-294 | the same for a subtree that has shrunk by one, where rotations may repeat up to the root |
| AvlTree.LeastFits | runners/genlayer-py-std/src/genlayer/py/storage/tree_map.py:198-225 | when the leftmost node of the right subtree takes the place and balance of a node, all balances around the hole it leaves are those for a tree one higher than what is there |
| AvlTree.LeastItems | runners/genlayer-py-std/src/genlayer/py/storage/tree_map.py:189-209 | and of the items only that node's own is gone |
| TreeItems.SearchDecides | runners/genlayer-py-std/src/genlayer/py/storage/tree_map.py:148-165 | where the search from the root stops, with a node or with none, decides whether the map has the key, and the node has its value |
| TreeItems.Removed | runners/genlayer-py-std/src/genlayer/py/storage/tree_map.py:167-294 | without a node's item the items are still in order, and stand for the map without its key |
| TreeSlots.RotatedLeftRightHolds | runners/genlayer-py-std/src/genlayer/py/storage/tree_map.py:124-146 | the assignments of a double rotation turn the tree in the slots into the rotated tree and change no slot outside it |
| TreeSlots.RotatedRightLeftHolds | runners/genlayer-py-std/src/genlayer/py/storage/tree_map.py:100-122 | the same to the other side |
| TreeSlots.RelinkedLays | runners/genlayer-py-std/src/genlayer/py/storage/tree_map.py:255-261 | after a rotation the grandparent's link, found by comparing numbers, puts the new root where the old one was |
| TreeSlots.LiftedLays | runners/genlayer-py-std/src/genlayer/py/storage/tree_map.py:198-218 | moving the leftmost node of the right subtree by its links alone, its old parent in its own subtree or not, leaves the tree with that node in the place of the removed one, although the freed slot may be gone |
| TreeMap.TreeMap.AllocSlot | runners/genlayer-py-std/src/genlayer/py/storage/tree_map.py:58-66 | the last freed slot or one more, never one in use; every slot stays used or free and not both |
| TreeMap.TreeMap.FreeSlot | runners/genlayer-py-std/src/genlayer/py/storage/tree_map.py:68-72 | the slot is free or, if it is the last, gone, and its content stays in memory |
| TreeMap.TreeMap.FindSeq | runners/genlayer-py-std/src/genlayer/py/storage/tree_map.py:148-165 | the path to the key or to where it would be, and the side of the last step |
| TreeMap.TreeMap.GrowRound | runners/genlayer-py-std/src/genlayer/py/storage/tree_map.py:357-406 | one round after an insertion does to the slots what the step of the theorem does to the tree |
| TreeMap.TreeMap.RebalanceGrown | runners/genlayer-py-std/src/genlayer/py/storage/tree_map.py:356-408 | the loop after an insertion ends with the tree of the theorem in the slots |
| TreeMap.TreeMap.PutLeast | runners/genlayer-py-std/src/genlayer/py/storage/tree_map.py:189-225 | the leftmost node on the right, found by the inner loop, takes the place of a node with two children, and the path leads to the hole it leaves |
| TreeMap.TreeMap.ShrinkRound | runners/genlayer-py-std/src/genlayer/py/storage/tree_map.py:229-292 | one round after a removal does to the slots what the step of the theorem does to the tree |
| TreeMap.TreeMap.RebalanceShrunk | runners/genlayer-py-std/src/genlayer/py/storage/tree_map.py:228-294 | the loop after a removal ends with the tree of the theorem in the slots; the side of an empty hole is found although the numbers cannot tell it in the first round |
| TreeMap.TreeMap.GetSet | runners/genlayer-py-std/src/genlayer/py/storage/tree_map.py:329-409 | the map changes at the key only: a present key keeps or gets its value, an absent one gets the value or what its cell holds; the tree stays ordered and exactly balanced, no slot is lost, and one is added exactly if none is free |
| TreeMap.TreeMap.SetItem | runners/genlayer-py-std/src/genlayer/py/storage/tree_map.py:296-304 | assigning is the update of a finite map |
| TreeMap.TreeMap.Del | runners/genlayer-py-std/src/genlayer/py/storage/tree_map.py:167-294 | deleting takes exactly the key out of the map and fails exactly if it is absent; the tree stays ordered and exactly balanced and the slot is free or gone |
| TreeMap.TreeMap.ComputeIfAbsent | runners/genlayer-py-std/src/genlayer/py/storage/tree_map.py:306-320 | fails exactly if the key was absent, with the value stored |
| TreeMap.TreeMap.GetOrInsertDefault | runners/genlayer-py-std/src/genlayer/py/storage/tree_map.py:322-327 | an absent key gets the value its cell holds, whatever that is |
| TreeMap.TreeMap.Get | runners/genlayer-py-std/src/genlayer/py/storage/tree_map.py:411-438 | finds the value of the map or none |
| TreeMap.TreeMap.Len | runners/genlayer-py-std/src/genlayer/py/storage/tree_map.py:55-56 | slots less free slots is the number of entries |
| TreeMap.TreeMap.Clear | runners/genlayer-py-std/src/genlayer/py/storage/tree_map.py:50-53 | the map is empty and all its memory is as it was |
| TreeMap.TreeMap.Items | runners/genlayer-py-std/src/genlayer/py/storage/tree_map.py:449-460 | the traversal gives every entry once in ascending order of keys |
| TreeMap.AgreesWithDict | runners/genlayer-py-std/fuzz/src/tree_map.py:51-75 | any sequence of insertions and removals leaves the entries of a dictionary and takes out the values a dictionary takes out |
| TreeMap.ForgottenValueReturns | runners/genlayer-py-std/src/genlayer/py/storage/tree_map.py:322-327 | an instance: a value that was removed is what the key gets as its default |
| Replay.ResultRoundTrip | executor/src/rt/vm/mod.rs:35-48 | bytes are read as a result exactly if they are its byte form, up to the cause of a failure |
| Replay.FrameRoundTrip | executor/src/host/mod.rs:59-78 | a frame is the length, byte k of it divided by 256^k, modulo 256, and then the data, for data below 2^32 bytes; followed by anything it is read back exactly if its length is below 2^32 |
| Replay.PostedIsLeaderResult | executor/src/host/mod.rs:278-324 | what a replaying node reads for a call is what the leader got, less the cause |
| Replay.LeaderPostsAll | executor/src/wasi/genlayer_sdk.rs:1210-1227 | the leader posts the result of every call under its number, whichever contract made it |
| Replay.EndMoves | executor/src/wasi/genlayer_sdk.rs:297-306 | the end of a VM hands the stack to one that waited for it, its pages and events as they were, and moves none of the shared counters |
| Replay.StepMoves | executor/src/wasi/genlayer_sdk.rs:453-531 | what one step does to the stack: who may change pages and events, what a called contract and a sandbox start with and may do; the page budget never grows, and a call is counted exactly if one is made |
| Replay.WaitingIsUntouched | executor/src/wasi/genlayer_sdk.rs:1052-1072 | over any run a waiting VM keeps its state, pages and events until the stack has come down to it, and then only its own state has moved: nothing is left of what ended |
| Replay.BudgetOnlyShrinks | executor/src/wasi/genlayer_sdk.rs:562-567 | over any run the page budget never grows: what a called contract or a sandbox spent stays spent |
| Replay.ViewsNeverWrite | executor/src/wasi/genlayer_sdk.rs:485-495 | over any run every VM of a transaction is deterministic, and a called contract, or a sandbox in one, has no pages and may not write: it sees the state from before the transaction, even when a contract calls itself |
| Replay.BlocksAreIsolated | executor/src/wasi/genlayer_sdk.rs:1185-1202 | whatever a block runs, sandboxes included, and whatever it is answered from outside, it leaves the page budget and the call counter alone and makes no call, so nothing is posted or submitted; it has its contract's pages and no events |
| Replay.EndIgnoresCause | executor/src/wasi/genlayer_sdk.rs:297-306 | the logged cause reaches no VM: a result ends the stack as it does without its cause, through all callers that fail with it |
| Replay.StepAgrees | executor/src/wasi/genlayer_sdk.rs:877-962 | given the same result for a block both nodes take the same step on the same stack, whatever is asked for |
| Replay.ReplayIsFaithful | executor/src/wasi/genlayer_sdk.rs:1124-1238 | for every program, for a call as for a deployment, whose code is stored and paid for first, and for all block results, in the contract and in the contracts it calls, a validator or sync node goes through the leader's states: same stack with each VM's state, pages and events, same page budget, call count and ending |
| Replay.ValidatorSubmitsEveryCall | executor/src/wasi/genlayer_sdk.rs:1228-1233 | a validator submits one run per call in call order, whichever contract made it; a sync node none |
| VmEffects.ReadGives | executor/src/wasi/genlayer_sdk.rs:877-928 | a storage read is resumed with the bytes of the slot, of the VM's own storage or of the host, or it is refused or ends the VM; without the permission it is never resumed with data |
| VmEffects.WriteIsGated | executor/src/wasi/genlayer_sdk.rs:930-954 | a write to a locked slot, without permission, outside determinism or past the end is refused and changes nothing |
| VmEffects.WriteGives | executor/src/wasi/genlayer_sdk.rs:953-963 | any other goes on with exactly these bytes written, or fails for the budget or the host without a torn page |
| VmEffects.StorageShowsLastWritten | executor/src/wasi/genlayer_sdk.rs:877-963 | over any run, as long as a VM lives, its storage shows the bytes of its last writes that went through and those of its beginning elsewhere, whatever is called or opened in between |
| VmEffects.ReadsSeeWrites | executor/src/wasi/genlayer_sdk.rs:902-925 | over any run a read that is not refused is given those bytes, and in a VM called for another state the host's |
| VmEffects.LockedNeverChanges | executor/src/wasi/genlayer_sdk.rs:949-954 | over any run no page of a locked slot enters or changes in the pages of any VM |
| VmEffects.LockedIsCode | executor/src/wasi/genlayer_sdk.rs:949-954 | so in a transaction the only locked pages are those of the code it deploys, and there are none if it deploys none |
| VmEffects.OutermostKeepsLocked | executor/src/wasi/genlayer_sdk.rs:949-954 | and the outermost contract keeps them |
| VmEffects.RightsNeverGrow | executor/src/wasi/genlayer_sdk.rs:485-495 | over any run no VM gets a permission that the first one does not have |
| VmEffects.SandboxGives | executor/src/wasi/genlayer_sdk.rs:1240-1275 | a sandbox is the same contract on the pages of its parent, and may write only if allowed to and its parent may |
| VmEffects.CallGives | executor/src/wasi/genlayer_sdk.rs:454-531 | a called contract gets arguments that decode to those given, the state asked for, no pages and no right to write, with its caller on its call stack |
| VmEffects.EventGives | executor/src/wasi/genlayer_sdk.rs:533-573 | an event goes behind those before it and is charged, or is refused, with the numbers 4, 32 and 31/32 written out |
| VmEffects.OutsideGives | executor/src/wasi/genlayer_sdk.rs:668-671 | only a VM that is not deterministic is answered from outside |
| VmEffects.BlockGives | executor/src/wasi/genlayer_sdk.rs:1124-1238 | the contract is given, as bytes that begin with 0 or 1, what its block returned or raised for the leader under the number of this call; the block's failure is its own |
| VmEffects.BlockIsConfined | executor/src/wasi/genlayer_sdk.rs:1185-1194 | over any run neither a block nor what it opens may write, call, run blocks, or read what its contract may not |
| VmEffects.EndIsCaught | executor/src/wasi/genlayer_sdk.rs:1276-1290 | the innermost caller that catches a result goes on with it, and all VMs above are gone |
| VmEffects.EndIsFinal | executor/src/wasi/genlayer_sdk.rs:297-306 | if none does the run ends with it |
| ReplaySession.Deploy | executor/src/lib.rs:106-122 | the outermost storage on the shared limiter is the one the theorems start from: a deployment's code is in it, and if it could not be stored the run ends |
| ReplaySession.Session.End | executor/src/wasi/genlayer_sdk.rs:1276-1282 | a VM that ends hands its result to a sandbox's parent as bytes whatever it is, and fails a contract's caller if it failed, and so on down the stack |
| ReplaySession.Session.Fetch | executor/src/wasi/genlayer_sdk.rs:897-922 | a transaction's own contract reads through its storage, a called one from the host |
| ReplaySession.Session.ServeRead | executor/src/wasi/genlayer_sdk.rs:877-928 | the gates of a storage read in their order; a request the host fails, fails the VM or the node |
| ReplaySession.Session.ServeWrite | executor/src/wasi/genlayer_sdk.rs:930-963 | the gates of a storage write in their order; a write over the budget fails the VM with the pages it did write |
| ReplaySession.Session.ServeEvent | executor/src/wasi/genlayer_sdk.rs:533-573 | the gates of an event in their order, and its charge |
| ReplaySession.Session.ServeNondet | executor/src/wasi/genlayer_sdk.rs:1124-1238 | the branches of `run_nondet` and `set_vm_run_result`, on fields |
| ReplaySession.Session.ServeCall | executor/src/wasi/genlayer_sdk.rs:454-531 | the gates of a contract call in their order; a VM with an empty storage on the shared limiter starts on top |
| ReplaySession.Session.ServeSandbox | executor/src/wasi/genlayer_sdk.rs:1240-1275 | a VM on a clone of the storage starts on top, with fewer permissions |
| ReplaySession.Session.ServeOutside | executor/src/wasi/genlayer_sdk.rs:668-671 | a deterministic VM is refused the web and the language models |
| ReplaySession.Session.Serve | executor/src/wasi/genlayer_sdk.rs:391-876 | serving a request on the objects changes them as the step function of the theorems says |
| ReplaySession.HandOver | executor/src/lib.rs:197-226 | sessions that ended alike hand over the same storage changes, byte for byte, and the same events |
| ReplaySession.LeadAndReplay | executor/src/lib.rs:197-226 | a transaction, a deployment included, run as leader and then on a node given the posted results ends alike, and both hand over the same storage changes byte for byte and the same events |
| NondetQueue.InvKept | executor/src/rt/supervisor/mod.rs:126-171 | every step of every thread keeps the invariant: each run in one place, one countdown token per unsettled run, the register the least reported disagreement |
| NondetQueue.VerdictIsComplete | executor/src/rt/supervisor/mod.rs:126-154 | in every interleaving the verdict is read only after every submitted run is settled and its token returned |
| NondetQueue.VerdictIsSound | executor/src/rt/supervisor/mod.rs:399-470 | agreement is reported exactly if every run ran and agreed; a number reported disagreed and is the least among the runs that ran |
| NondetQueue.SendWaitsForRoom | executor/src/rt/supervisor/mod.rs:156-171 | a run is sent exactly when fewer than 100 wait in the channel |
| NondetQueue.ChannelIsBounded | executor/src/rt/supervisor/mod.rs:212 | in every interleaving the channel never holds more than 100 |
| NondetQueue.SecondWorkerOnlyForWork | executor/src/rt/supervisor/mod.rs:131-135 | the second worker is started by the waiting main thread, exactly if a run is then in the channel |
| NondetQueue.LastNumberCannotDisagree | executor/src/rt/supervisor/mod.rs:147-153 | a run whose calls are numbered from 0 in order up to 2^32 - 1; the last one disagrees, and agreement is reported |
| NondetQueue.VerdictIsLeastIff | executor/src/rt/supervisor/mod.rs:424-461 | in every interleaving that ends with a disagreement, the number reported is the least that disagrees at all if and only if no check skipped a run that disagrees with a lower number than was recorded |
| NondetQueue.OrderlyVerdictIsLeast | executor/src/rt/supervisor/mod.rs:424-461 | so it is the least if no run is taken while another is unchecked |
| NondetQueue.CheckedAtOnceIsOrderly | executor/src/rt/supervisor/mod.rs:417-434 | taking and checking as one step is such an order |
| NondetQueue.OneWorkerIsOrderly | executor/src/rt/supervisor/mod.rs:399-470 | so is a single worker |
| NondetQueue.SimpleSchedulesReportLeast | executor/src/rt/supervisor/mod.rs:399-470 | with either of the two the number reported is the least that disagrees at all |
| NondetQueue.TornCheckCanMissTheLeast | executor/src/rt/supervisor/mod.rs:417-434 | two workers and a torn check: call 0 disagrees and is skipped, and 1 is reported |
| NondetQueue.WaitingTerminates | executor/src/rt/supervisor/mod.rs:126-171 | once the channel is closed every step decreases what is left to do |
| NondetQueue.NeverStuck | executor/src/rt/supervisor/mod.rs:126-171 | until the verdict some thread can take a step |
| MemoryLimiter.InvKept | executor/src/rt/memlimiter.rs:20-132 | every atomic step keeps the balance, retries of the exchange included |
| MemoryLimiter.BudgetIsConserved | executor/src/rt/memlimiter.rs:62-132 | at any moment what remains, what is claimed through limiters and what is in flight add up to 2^32 - 1 |
| MemoryLimiter.GivenUpOnlyIfShort | executor/src/rt/memlimiter.rs:96-128 | in every interleaving a consume is given up only if the budget did not cover it at some moment since it began |
| MemoryLimiter.SecondTryDecides | executor/src/rt/memlimiter.rs:106-128 | an exchange that another thread outran is decided by the next one if nobody comes in between |
| MemoryLimiter.ConsumeIsExact | executor/src/rt/memlimiter.rs:96-131 | from every reachable state an undisturbed consume takes exactly its amount if the budget covers it, and else changes nothing |
| MemoryLimiter.ReleasedIsGivenBack | executor/src/rt/memlimiter.rs:89-94 | an undisturbed release gives exactly its amount back |
| MemoryLimiter.AdditionsNeverOverflow | executor/src/rt/memlimiter.rs:20-41 | the overflow assertion of a release or a drop never fires, and a dropped limiter's 32-bit counter is exactly its claim |
| MemoryLimiter.CounterIsExactIffItFits | executor/src/rt/memlimiter.rs:89-131 | a limiter's 32-bit counter is, modulo 2^32, the claim and what is being given back, and exact if and only if that fits |
| MemoryLimiter.CounterWrapsIffPassing | executor/src/rt/memlimiter.rs:89-131 | its addition or subtraction wraps exactly when that sum passes a multiple of 2^32 |
| MemoryLimiter.CounterCanWrap | executor/src/rt/memlimiter.rs:89-94 | two threads on one limiter: the counter stands for twice the budget, and the next subtraction goes below zero |
| MemoryLimiter.AtRestLeastIsLowest | executor/src/rt/memlimiter.rs:44-49 | at rest the recorded minimum is the least value the budget had in the whole run, and every counter is exact |
| SharedPointer.InvKept | executor/common/src/sync.rs:42-148 | every atomic step keeps: a block's counter is the number of its owners, and its deleter has run, or is about to, exactly when there are none |
| SharedPointer.OwnersChange | executor/common/src/sync.rs:126-350 | which operations add an owner to a block, which take one away, and that every conversion hands its count over |
| SharedPointer.CountsAreOwners | executor/common/src/sync.rs:202-350 | in every interleaving the counter is the number of owning handles and the deleter ran at most once |
| SharedPointer.OwnedIsNotDeleted | executor/common/src/sync.rs:202-350 | no live handle points to a deleted block |
| SharedPointer.DeletedExactlyOnce | executor/common/src/sync.rs:126-148 | once the last handle is gone the deleter has run exactly once |
| RunnerActions.VerifyJoined | executor/src/runners/mod.rs:96-115 | an id and a hash joined by a colon are taken apart again exactly if both are well formed |
| RunnerActions.CheckedIsStable | executor/src/rt/supervisor/actions.rs:58-97 | checking a checked id again fails or gives the same id |
| RunnerActions.CheckedAgain | executor/src/rt/supervisor/actions.rs:18-29 | it succeeds exactly for well-formed published ids |
| RunnerActions.Apply | executor/src/rt/supervisor/actions.rs:179-402 | the interpreter ends on every registry and graph, and never forgets a visited id |
| RunnerActions.ApplyIsSound | executor/src/rt/supervisor/actions.rs:179-402 | from a sound history it makes a longer sound history |
| RunnerActions.ContractRunIsSound | executor/src/rt/supervisor/actions.rs:324-401 | each runner is entered at most once and is a known one; a module is started last, with the environment built, or not at all |
| RunnerActions.NestedSequenceIsFlat | executor/src/rt/supervisor/actions.rs:354-370 | a sequence inside a sequence runs as if written out in place |
| RunnerActions.DependsEnters | executor/src/rt/supervisor/actions.rs:381-400 | the exact condition under which a dependency is entered, and otherwise the run fails |
| RunnerActions.DependsAgainIsNothing | executor/src/rt/supervisor/actions.rs:384-386 | depending on a runner again, however much later, does nothing |
| RunnerActions.ContractCannotDependOnItself | executor/src/rt/supervisor/actions.rs:381-390 | `Depends` on the contract fails unless the contract's id is a published runner |
| RunnerActions.ContractCanUseItself | executor/src/rt/supervisor/actions.rs:371-380 | `With` on the contract works whenever its archive loads |
| ActionEffects.EveryEventIsExplained | executor/src/rt/supervisor/actions.rs:179-402 | every event of a contract's run is caused by an action of its JSON that stands under no `When` of the other mode, with the archive of the contract or of the `With` around it, or by such an action of a runner entered before, with that runner's archive |
| ActionEffects.ActionsAreCarriedOut | executor/src/rt/supervisor/actions.rs:179-402 | a run that goes on has done all active actions of the contract in their order; one that ends has done those before the one it ended at, which was refused, or started the module, or is a dependency; and so for every runner entered |
| ActionEffects.ApplyIsFaithful | executor/src/rt/supervisor/actions.rs:179-402 | the same from any sound history, for any action |
| ActionEffects.CheckedMeans | executor/src/rt/supervisor/actions.rs:58-97 | which published runner an id stands for, with "test" and "latest" standing for the latest hash |
| ActionEffects.VariableIsLastSet | executor/src/rt/supervisor/actions.rs:270-278 | a variable has the value it was last set to |
| RunnerActions.Ctx.GetArchive | executor/src/rt/supervisor/actions.rs:18-56 | the checks in their order; loading is recorded exactly on success |
| RunnerActions.Ctx.Perform | executor/src/rt/supervisor/actions.rs:179-402 | the interpreter on fields does what the function of the same state says |
| RunnerActions.Ctx.PerformAll | executor/src/rt/supervisor/actions.rs:354-370 | a sequence stops at the first action that does not continue |
| RunnerActions.Ctx.Depend | executor/src/rt/supervisor/actions.rs:381-400 | a dependency is marked before it is loaded, and skipped if marked |
| RunnerActions.Ctx.SetVariable | executor/src/rt/supervisor/actions.rs:270-278 | the environment is what the history of assignments makes it |
| FileMapping.ComponentsAreThePieces | executor/src/wasi/preview1.rs:186-203 | collapsing slashes and splitting leaves the non-empty pieces, and the last piece always |
| FileMapping.SplitAtSlashes | executor/src/wasi/preview1.rs:202-203 | the pieces have no byte 0x2F in them and give the text back with one between any two |
| FileMapping.MappedPathsArePrefixFree | executor/src/wasi/preview1.rs:135-142 | no mapped path continues another |
| FileMapping.FailureChangesNothing | executor/src/wasi/preview1.rs:202-241 | a failing mapping leaves the tree as it was, although it creates directories on its way |
| FileMapping.SuccessAddsOne | executor/src/wasi/preview1.rs:202-241 | a successful one adds one file and keeps all others |
| FileMapping.SuccessIffUnrelated | executor/src/wasi/preview1.rs:202-241 | it succeeds exactly if its path neither continues nor begins a mapped path |
| FileMapping.FollowFinds | executor/src/wasi/preview1.rs:1242-1285 | a lookup finds the node at the path without "." and empty components, or fails exactly if there is none; its error says whether the longest prefix that exists leads to a directory or to a file |
| FileMapping.PlainDropsDots | executor/src/wasi/preview1.rs:1248-1250 | the components passed over are the empty ones and the single byte 0x2E |
| FileMapping.MapAllAddsItems | executor/src/rt/supervisor/actions.rs:211-251 | mapping a directory adds exactly its items and is charged for each |
| FileMapping.MapAllStops | executor/src/rt/supervisor/actions.rs:235-251 | a mapping that fails leaves the files before the first one for which the memory left is below 256 and the length of its name, or whose path is related to a mapped one; that one is charged |
| FileMapping.CostIs | executor/src/rt/supervisor/actions.rs:238-241 | the charge is 256 and the length of the name, in 32 bits |
| FileMapping.ItemsAre | executor/src/rt/supervisor/actions.rs:218-234 | which entries of an archive are mapped, and the name of each, byte by byte |
| FileMapping.TargetKeepsRelativePath | executor/src/rt/supervisor/actions.rs:230-234 | a file is mapped below the target at the path it has below the directory |
| FileMapping.FileSystem.MapFile | executor/src/wasi/preview1.rs:185-244 | the tree is a finite map from unrelated paths to contents, and mapping is a guarded insertion into it |
| FileMapping.FileSystem.MapDirectory | executor/src/rt/supervisor/actions.rs:194-251 | the range scan with its early exit maps every file below the directory and no other |
| FileMapping.RangeStart | executor/src/rt/supervisor/actions.rs:200-207 | starting at the directory's name skips no wanted file |
| FileMapping.NothingAfter | executor/src/rt/supervisor/actions.rs:224-228 | after the first name outside the directory no name is inside |
| FileMapping.Patched | executor/src/wasi/preview1.rs:186-200 | the loop that collapses slashes |
| Order.PrefixedComeFirst | executor/src/rt/supervisor/actions.rs:206-228 | among the names not below a prefix those with the prefix come first |
| Order.LessIffFirstDifference | executor/src/rt/vm/storage.rs:139 | of two names the lesser has the lesser byte where they first differ, or ends there |
| Descriptors.Vfs.constructor | executor/src/wasi/vfs.rs:33-56 | descriptors 0 to 3, standard input not charged |
| Descriptors.Vfs.DescriptorsFit | executor/src/wasi/vfs.rs:59-73 | the number of descriptors cannot overflow, as each costs memory |
| Descriptors.Vfs.AllocFd | executor/src/wasi/vfs.rs:59-73 | the last freed descriptor or a new one for 96 bytes, never one that is open |
| Descriptors.Vfs.FreeFd | executor/src/wasi/vfs.rs:76-78 | the free list stays free of duplicates and of open descriptors |
| Descriptors.Vfs.PopFd | executor/src/wasi/vfs.rs:80-95 | closes and frees one descriptor and gives its memory back; overflows only through standard input |
| Descriptors.Vfs.DropLimiter | executor/src/rt/memlimiter.rs:20-41 | dropping the limiter restores the budget, or runs into its assertion exactly if standard input is closed and less than its length is charged for anything else |
| Descriptors.Vfs.PlaceContent | executor/src/wasi/vfs.rs:97-105 | opens the contents under a descriptor that was not open exactly if memory covers both; the exact leak when it covers only the contents |
| Descriptors.Vfs.PathOpen | executor/src/wasi/preview1.rs:1027-1074 | opens what the path leads to under a descriptor that was not open; otherwise the descriptor is lost, and the error is "no entry" if the longest prefix of the path that exists is a directory and "bad descriptor" if it is a file |
| Descriptors.CloseStdinAndDrop | executor/src/wasi/vfs.rs:80-95 | closing standard input at once overflows exactly if it does not fit beside the memory there is, and otherwise dropping the limiter does unless it is empty |
| Descriptors.Vfs.FdClose | executor/src/wasi/preview1.rs:413-423 | as `pop_fd`, with its exact overflow condition, and an error for a descriptor that is not open |
| Descriptors.Vfs.FdRead | executor/src/wasi/preview1.rs:589-617 | the bytes from the position on, as many as fit and as there are, and the position moved by as many |
| Descriptors.Vfs.FdSeek | executor/src/wasi/preview1.rs:766-816 | the position is the target forced into the file, for every 64-bit offset |
| Descriptors.RecordedRightlyIffFromRoot | executor/src/wasi/preview1.rs:1046-1068 | in every tree a directory opened from another is recorded under a path that leads to it, if and only if the way to that other one is empty: from the root |
| Descriptors.RecordedBelowRoot | executor/src/wasi/preview1.rs:1046-1068 | an instance: a tree and a directory below the root from which the recorded path leads nowhere |
| WordPiece.AddedIsFound | runners/py-libs/pure-py/word_piece_tokenizer/Trie.py:10-17 | adding a token changes what is found for that token and for no other string |
| WordPiece.NoLongerMatch | runners/py-libs/pure-py/word_piece_tokenizer/Trie.py:25-30 | where the walk stops no longer match is possible |
| WordPiece.Longest | runners/py-libs/pure-py/word_piece_tokenizer/Trie.py:19-34 | the longest prefix in the vocabulary that does not end in '#', or the whole text if it is one character |
| WordPiece.Trie.Add | runners/py-libs/pure-py/word_piece_tokenizer/Trie.py:10-17 | the trie agrees with the tokens added; the empty token is ignored |
| WordPiece.Trie.GetLongestMatchToken | runners/py-libs/pure-py/word_piece_tokenizer/Trie.py:19-34 | the search through the trie is the longest match in the vocabulary |
| WordPiece.MarkIsNoMatch | runners/py-libs/pure-py/word_piece_tokenizer/WordPieceTokenizer.py:44-53 | every round consumes something, the mark it puts back notwithstanding |
| WordPiece.WordPieceTokenizer.constructor | runners/py-libs/pure-py/word_piece_tokenizer/WordPieceTokenizer.py:24-27 | the trie holds the vocabulary, in whatever order it is filled |
| WordPiece.WordPieceTokenizer.WordpieceTokenize | runners/py-libs/pure-py/word_piece_tokenizer/WordPieceTokenizer.py:41-55 | the loop ends on every text and finds the ids of the recursive form |
| WordPiece.TokensAreGreedy | runners/py-libs/pure-py/word_piece_tokenizer/WordPieceTokenizer.py:41-55 | on words without '#' they are the ids of greedy longest-match-first tokenization |
| WordPiece.HashIsOneToken | runners/py-libs/pure-py/word_piece_tokenizer/WordPieceTokenizer.py:41-55 | the word "#", the only one with '#' that the code that splits text makes, is one token: its own id or the unknown one |
| WordPiece.KnownWordsAreRestored | runners/py-libs/pure-py/word_piece_tokenizer/WordPieceTokenizer.py:63-65 | joining the tokens of a word all of whose pieces are known gives the word back |
| WordPiece.LoadVocab | runners/py-libs/pure-py/word_piece_tokenizer/utils.py:11-17 | every line is a token, numbered by its last line |
| WordPiece.NumberedByLines | runners/py-libs/pure-py/word_piece_tokenizer/utils.py:14-16 | then no other token shares the unknown token's id |
| WordPiece.TokenizeWord | runners/py-libs/pure-py/word_piece_tokenizer/WordPieceTokenizer.py:12-55 | the tokenizer of any vocabulary file splits words without '#' greedily, and takes the word "#" as one token |
| DigestId.OrIsSum | support/runner-script.py:37 | joining the two shifted bytes adds them, as they share no bits |
| DigestId.WindowIsDigit | support/runner-script.py:33-38 | the masked window is the base-32 digit of the digest read as a little-endian integer |
| DigestId.LengthIsExact | support/runner-script.py:29-30 | the printed digits are enough and none is to spare |
| DigestId.AlphabetIs | support/runner-script.py:26-27 | the ASCII code of each of the 32 digits |
| DigestId.DigestToHashId | support/runner-script.py:26-40 | the characters are the digits, most significant first |
| DigestId.CheckDigest | support/runner-script.py:43-46 | accepts exactly the spelling of the digest |
| DigestId.HashKeepsValue | support/runner-script.py:26-40 | the printed hash stands for the same integer as the digest |
| DigestId.HashIsInjective | support/runner-script.py:26-46 | digests of one length that print the same are the same |

## Left out

- PagedStorage.Storage.ReadCode: a stored size above 2^32 - 4 counts as unreadable; the code would ask the storage for bytes past its end.
- PagedStorage.Storage.WritePartialPage: stands for the three places where the code splices a chunk into a page; the host lock held across two of them is not modelled.
- Calldata.ReadsBack: numbers whose spelling is longer than a 64-bit bit offset (about 2^64/7 bytes) are not spellable, as the reader refuses them.
- VecDb.VecDb.Insert: asks for fewer than 2^32 - 1 nodes; distances are finite reals (so the filter on finite distances keeps all), and the logarithm is a parameter.
- VecDb.VecDb.Knn: returns its answer at once, where the code yields it element by element; among elements at the same distance any order is allowed, where the code has that of its traversal.
- TreeMap.TreeMap.GetSet: asks for a free slot or fewer than 2^32 - 1 slots; keys are integers, standing for any keys that `<` orders totally, and `setter` and `supplier` are the values they give; a path ends one entry earlier where its loop ends, as only its first entry is read then.
- TreeMap.TreeMap.GetOrInsertDefault: a value is one piece, where nested containers are views of the same memory.
- Replay.ReplayIsFaithful: the call counter does not wrap, and an infinite run is covered step by step; the code a VM starts with is any function of its message, permissions, storage and all that was started before, so loading it is not modelled; a code that cannot be loaded is a VM that fails at once.
- ReplaySession.Session.ServeGlCall: messages to other contracts, deployments, balances and calls to the other chain are left out, as is the memory limit; the host reports each failed request of a contract's state in one way.
- Replay.ResultRoundTrip: an empty result is an error, where the code would index out of bounds.
- NondetQueue.VerdictIsSound: no cancellation; a worker that meets an internal error goes on, as in the code.
- MemoryLimiter.AdditionsNeverOverflow: releases are matched, each giving back what was consumed through the same limiter; `Descriptors.Vfs.PopFd` and `Descriptors.Vfs.DropLimiter` show the one place that does not do so.
- SharedPointer.CountsAreOwners: the counter does not wrap; memory orderings are not modelled, every step is atomic.
- RunnerActions.Apply: whether mapping, linking, starting and loading work is any function of the history so far; cancellation, which ends a run at any point, is left out.
- FileMapping.FileSystem.MapFile: the tree is a value that is replaced, where the code descends through mutable references; `MapInto` keeps the directories it creates on its way so that a failure is seen to leave none.
- FileMapping.FollowFinds: no ".." components.
- Descriptors.Vfs.PathOpen: no ".." components; the guest's memory is not modelled, so bad pointers do not occur.
- Descriptors.Vfs.FdSeek: with overflow checks the code stops on the least 64-bit offset; without them it does what is stated here.
- Descriptors.Vfs.PopFd: the limiter is used by this table alone.
- Descriptors.Vfs.DropLimiter: the memory that modules and archives take from the same limiter is not modelled.
- WordPiece.Trie.Add: the nested dictionaries are a value that is replaced.
- WordPiece.KnownWordsAreRestored: the final `strip` is left out; it does nothing to a word without spaces.
- WordPiece.TokensAreGreedy: words that contain '#' beside other characters are covered by `WordPiece.Longest` and termination only; the code that splits text into words makes no such word, and the word "#" is covered by `WordPiece.HashIsOneToken`.
- wasmtime engines, compilation and precompiled caches, and fingerprints: foreign library behaviour.
- Host sockets beyond result framing, web and LLM modules, HTTP routes, process and signal handling: input and output.
- Serialization glue, templating, logging, code generation: no deep property.
- SHA-3 slot indirection and SHA-256: uninterpreted; the code slot and the digest are parameters.
- `fd_pread` reads at a given position and moves none, `fd_write` writes standard output and error only, `fd_readdir` and the stat calls report what the tree holds: none of them changes the table or the tree.
