# Verified models of the chain store and its secp256k1 arithmetic

This project models the hardest parts of a chain store written in Go, and of the field and
scalar code of libsecp256k1 that it ships, and proves what they promise. `dafny verify
dfyconfig.toml` checks all of it.

- **The freezer.** One table stores blobs in rotating data files behind an index of 6-byte
  entries (`FreezerIndex`, `FreezerTables`). For every run of appends and truncations it refines
  a sequence of blobs, and from every crash image it recovers the longest surviving run of
  items, exactly (`FreezerCrash`). Five tables are kept in lockstep (`Ancients`, `Freezers`): a
  block is added to all or to none.
- **Migration.** Blocks move from the key-value store to the freezer while readers look through
  both tiers, one lookup at a time (`Migration`, `FreezePass`). In every run, with failing
  appends, crashes and other writers in between, the canonical blocks stay complete across the
  tiers if and only if no append is shifted by bytes that a half-written one left behind; and
  then every read returns them unchanged, even one whose lookups are spread over many steps.
- **The chain indexer** (`ChainIndexer`): a protocol of steps in which a section is
  processed outside the lock while heads and reorganisations arrive.
- **Canonical chain maintenance.** `Reorg` keeps the number index and the transaction index in
  step with the head, and fork choice keeps the head a heaviest block. `CommonAncestor` is the
  search over headers. `TxIndex` maintains the tail of the transaction index from deliveries in
  any order.
- **secp256k1.** Multiplication, squaring and normalization of 5x52-limb field elements in real
  64- and 128-bit words (`FieldMul`, `FieldNormalize`), the addition chains for inverses and
  square roots and the inversion of many elements at once (`FieldInverse`), both wNAF recodings
  (`Wnaf`, `WnafConst`), and the DER signature codec (`Der`). That the chains compute inverses
  and roots rests on number theory proved here: Fermat's little theorem (`Primes`), Euler's
  criterion (`Residues`), Pocklington's criterion (`Pocklington`), and a certificate that the field
  prime is prime (`FieldPrime`).
- **Codecs and compilers.** The recursive bitset compressor (`Bitset`), the two-pass EVM
  assembler (`Assembler`) with the instruction iterator (`Instructions`), and fork identifiers
  (`ForkId`).

`Bytes`, `Bits`, `Options`, `Scalars` and `Field` hold what several of these share.

## Where the code does not do what it seems to promise

The model follows the code. These are proved, each with the exact condition or a formula for
what happens instead.

- A freezer index file of 1 to 5 bytes is cut to nothing and the item count wraps around to
  2^64 - 1 (`FreezerTable.Repair`).
- Repair keeps an item whose predecessor lost its data exactly when a data file can begin with
  an empty item (`FreezerCrash.RepairExactIff`); an oversized blob and an empty one behind it
  make such a table (`FreezerCrash.EmptyStartRun`). Runs of non-empty blobs never do
  (`FreezerCrash.RunThenCrash`).
- An append that fails half-way leaves bytes behind the last item. Truncating the table to the
  count it already has does not remove them, so the next blob is stored shifted; a retry of the
  same blob is stored right if and only if the blob repeats itself with that period
  (`Ancients.RetryStoresBlobIff`). The pass then deletes the good copy from the key-value store,
  and the canonical block can no longer be read
  (`FreezePass.FreezeLoop.RetryAfterHalfWrite`).
- A reorganisation to a lower block that sits on the old chain, or directly on it, leaves stale
  number entries above the head (`Reorg.BlockChain.WriteKnownBlock`,
  `Reorg.StaleNumberExample`); they stay when blocks are added on top, and go with the next
  reorganisation. When the head is lowered on its own chain, the head header and the head fast block
  stay above it (`Reorg.BlockChain.WriteKnownBlock`).
- A string given to a jump is counted by the first pass of the assembler and never printed, so
  later labels are off by its length (`Assembler.AddressIsOffsetIff`).
- A push opcode written without operand, and raw bytes that together with their jump end in a push, are
  accepted and swallow what follows. Every statement of an accepted program begins at an
  instruction if and only if it has neither (`Assembler.Assemble`); a label behind a bare
  `PUSH1` is no jump destination (`Assembler.BarePush`).
- The fork filter departs from EIP-2124, and refuses peers of its own configuration, exactly
  when the local head is a fork block (`ForkId.FilterFollowsRulesIff`,
  `ForkId.AcceptsOwnConfigurationIff`).
- A window of 31 bits, which the wNAF routine admits, shifts a carry out of a signed 32-bit word for
  some scalars, 0x40000001 for one; windows of up to 30 bits never do (`Wnaf.ShiftFitsIff`,
  `Wnaf.EcmultWnaf`).
- After a reorganisation down to the last block of a section, the chain indexer tells its children
  a head one above the common ancestor (`ChainIndexer.Indexer.NewHead`).
- Normalization is safe up to magnitude 2047; at 2048, which the consistency check admits, the
  first carry overflows (`FieldNormalize.FirstPassFitsIff`).

## Model

| member | source | states |
|---|---|---|
| FreezerIndex.MarshalRoundTrip | freezer_table.go:26-36 | marshalling an entry and reading it back gives the entry if and only if the file number fits 16 bits |
| FreezerIndex.MarshalLayout | freezer_table.go:26-36 | the file number is in the first two bytes and the offset in the other four, most significant first |
| FreezerIndex.UnmarshalRoundTrip | freezer_table.go:26-36 | every six bytes are the marshalled form of the entry read from them |
| FreezerIndex.ReadEntry | freezer_table.go:359-374 | six bytes at offset 6i of an index file are the i-th entry |
| FreezerIndex.BlobsOfPrefix | freezer_table.go:217-258 | a disk that keeps the bytes before entry k keeps exactly the first k items |
| FreezerIndex.ItemAppended | freezer_table.go:343-358 | writing behind the last item and adding its entry appends exactly those bytes, whether or not a file was rotated in |
| FreezerTables.Overfull | freezer_table.go:326-327 | the test written against 32-bit wrap-around holds exactly when the blob does not fit the head file |
| FreezerTables.SettleSteps | freezer_table.go:158-189 | one round of the repair loop (cut the file, or drop the entry and reopen) leaves the outcome of repair unchanged |
| FreezerTables.MatchHead | freezer_table.go:158-189 | the repair loop ends, at the last entry its file can hold, with that file cut at the entry |
| FreezerTables.Recover | freezer_table.go:122-203 | repair of any index and data files yields the entries and files of the specification, and the item count of the index that is left |
| FreezerTables.RotatedKeepsItems | freezer_table.go:326-342 | rotation changes no item and leaves nothing dangling |
| FreezerTables.ItemWrittenIsLast | freezer_table.go:343-358 | a write appends one item made of what dangled and the blob, and says what dangles then |
| FreezerTables.CutAtKeepsPrefix | freezer_table.go:217-258 | truncation keeps exactly the first items and every file it needs open |
| FreezerTables.FreezerTable.Repair | freezer_table.go:122-206 | what opening makes of any data files and any index that begins with the zero sentinel, when preopening fails, and the wrapped item count when the sentinel itself was cut |
| FreezerTables.FreezerTable.Preopen | freezer_table.go:207-216 | succeeds exactly when no data file from tail to head is missing, and then holds all of them open |
| FreezerTables.FreezerTable.Append | freezer_table.go:312-358 | the new contents under every outcome of opening and writing: exactly when it succeeds, what is added, what dangles, and that a new file is begun exactly when the blob does not fit the head file |
| FreezerTables.FreezerTable.Truncate | freezer_table.go:217-258 | exactly the first n items stay and nothing dangles behind them; a larger n changes nothing |
| FreezerTables.FreezerTable.ReleaseFilesAfter | freezer_table.go:301-311 | exactly the later open files are closed and removed |
| FreezerTables.FreezerTable.Close | freezer_table.go:259-277 | from then on the table is closed, for which appends and reads report an error; nothing stored changes |
| FreezerTables.FreezerTable.GetBounds | freezer_table.go:359-374 | the bounds name, in an open file, exactly the bytes of the item; they exist for stored items only |
| FreezerTables.FreezerTable.Retrieve | freezer_table.go:375-410 | the i-th live blob byte for byte, or the error for a closed table or an item past the end |
| FreezerCrash.SettleKeepsLastFit | freezer_table.go:158-189 | repair keeps entries up to the last one that fits its file, and no later entry fits |
| FreezerCrash.SettleCutsOneFile | freezer_table.go:158-189 | repair changes no data file but the new head, which it cuts |
| FreezerCrash.FitsIsDownwardClosed | freezer_table.go:122-206 | in a crash image, when an entry fits so do all before it, unless a file begins with an empty item |
| FreezerCrash.RepairFindsLongestRun | freezer_table.go:122-206 | from every crash image repair finds exactly the longest run of items whose entries and data survived |
| FreezerCrash.RepairMissesLostData | freezer_table.go:122-206 | for every table of the other kind, an image on which repair keeps an item whose predecessor is lost |
| FreezerCrash.RepairExactIff | freezer_table.go:122-206 | repair is exact on all crash images if and only if no file begins with an empty item after data |
| FreezerCrash.RepairedTable | freezer_table.go:122-206 | the repaired table is in order, nothing dangles, and it holds the surviving items byte for byte |
| FreezerCrash.RunOps | freezer_table.go:217-410 | after every run of appends and truncations the table holds what the same run makes of a sequence of blobs; on a fresh table the tables gone through are a run of RunThenCrash |
| FreezerCrash.OpenEmpty | freezer_table.go:84-206 | opening in an empty directory gives the fresh table that runs start from |
| FreezerCrash.TableRunEffect | freezer_table.go:217-410 | every table of a run holds what its operations make of an empty sequence, and nothing dangles |
| FreezerCrash.RunThenCrash | freezer_table.go:122-206 | any run of appends of non-empty blobs and truncations, then any crash image: repair recovers exactly the longest surviving run of the blobs replayed |
| FreezerCrash.EmptyStartRun | freezer_table.go:122-206 | a run of two appends and a crash image after which repair keeps the second item although the first is lost |
| FreezerCrash.OpenAfterCrash | freezer_table.go:84-206 | opening a crash image makes of it what repair specifies; if no later data file begins with an empty item, a valid table of exactly the surviving items |
| Freezers.Freezer.constructor | freezer.go:32-73 | opening five tables of any item counts brings all to their common minimum, keeping their first items |
| Freezers.Freezer.Repair | freezer.go:293-308 | every table is truncated to the smallest item count among them |
| Freezers.Freezer.TruncateAncients | freezer.go:147-158 | all five tables keep exactly the first n items and stay even |
| Freezers.Freezer.AppendAncient | freezer.go:111-146 | the tables after every pattern of failures: each has its blob, or all keep their items and their common count and the failed one keeps what it had written |
| Ancients.BrokenIsRepaired | freezer.go:115-123 | after a failure at kind k the minimum is the old count, and truncating to it takes back exactly what the earlier kinds appended |
| Ancients.StoredBlobIff | freezer_table.go:343-358 | an append stores its blob unchanged if and only if it opens a new file or the blob begins with the dangling bytes and repeats them |
| Ancients.RetryStoresBlobIff | freezer.go:293-308 | after a half-written blob, a retry stores it unchanged if and only if it is periodic |
| Freezers.Freezer.Step | freezer.go:111-158 | one append or truncation, with any failures, has the effect specified on what the tables hold, dangling bytes included |
| Freezers.Freezer.RunSteps | freezer.go:111-158 | after every run, with any failures, the tables hold what the run makes of them, and stay even |
| Ancients.CleanReplay | freezer.go:111-158 | when failed writes store nothing, that is one sequence of blocks with the failed appends left out |
| Migration.NextBase | freezer.go:225-280 | every step keeps the key-value store complete from the flushed height on and the tables even up to one item |
| Migration.NextInvIff | freezer.go:225-280 | a step keeps the canonical chain complete across the two tiers if and only if it is not an append that dangling bytes shift |
| Migration.RunInv | freezer.go:225-280 | so does every run without a shifted append, crashes and other writers included, and nothing given up comes back as missing |
| Migration.RunInvIff | freezer.go:225-280 | a run keeps the canonical chain complete in all its states if and only if none of its appends is shifted |
| Migration.CleanRun | freezer.go:225-280 | failures that store nothing never shift an append |
| Migration.DropSideBase | freezer.go:269-280 | deleting side blocks drops no canonical data and no canonical hash-to-number entry |
| Migration.PartAcross | accessors_chain.go:205-225 | a body, receipts or difficulty read whose lookups see five successive states returns the canonical data; other blocks are read from the key-value store |
| Migration.HeaderAcross | accessors_chain.go:143-157 | the same for headers, which are checked against their hash |
| Migration.CanonicalHashAcross | accessors_chain.go:14-26 | the canonical hash of a height is the same through both tiers at all times |
| Migration.MigrationInvisible | freezer.go:225-280 | in every run without a shifted append, whenever the lookups of a read happen, canonical data is returned unchanged |
| FreezePass.CanonicalBatch | freezer.go:258-268 | the first batch deletes exactly the canonical blocks just frozen, never the genesis |
| FreezePass.SideBatch | freezer.go:269-280 | the second batch deletes exactly the blocks whose headers are still stored at those heights |
| FreezePass.PassEffect | freezer.go:258-280 | with the canonical blocks gone first, the second batch meets none of them, and the two together lose exactly the blocks of the frozen heights |
| FreezePass.RowIff | freezer.go:225-250 | a block is read to be frozen exactly when its canonical hash and all four parts are there and not empty |
| FreezePass.FreezeLoop.AppendAncient | freezer.go:111-146 | the appends and truncations of one block, step by step, make of the tables what the functions on their contents say |
| FreezePass.FreezeLoop.FreezePass | freezer.go:220-280 | a pass, with any failures, is a run of those steps; it loses exactly the frozen heights, and without failures it reaches the limit or the first gap |
| FreezePass.FreezeLoop.RetryAfterHalfWrite | freezer.go:225-268 | a half-written append, its retry and the deletion are a run after which the canonical data of that kind is read back if and only if the blob is periodic |
| CommonAncestor.StepDown | accessors_chain.go:455-479 | stepping down from the higher header keeps the common ancestors; a missing parent means there is none |
| CommonAncestor.FindCommonAncestor | accessors_chain.go:455-479 | ends with the highest common ancestor, or with nil exactly when no common ancestor can be reached |
| Reorg.FindCommon | blockchain.go:1443-1475 | succeeds exactly when the new block leads back to the old chain; gives the branch, none of it on the old chain, and the transactions dropped |
| Reorg.BranchAncestry | blockchain.go:1443-1475 | the shared part of the old chain followed by the branch is the ancestry of the new head |
| Reorg.DropStale | blockchain.go:1497-1500 | deleting dropped transactions that were not added again leaves exactly the transactions of the new chain |
| Reorg.NumbersCleared | blockchain.go:1501-1508 | deleting numbers up to the first gap leaves exactly the chain, also with entries left behind earlier |
| Reorg.NumbersExactIff | blockchain.go:1492-1508 | after the head is written the number index is right up to it, and nothing stale is above it if and only if the block is not a lower one on, or directly on, the old chain |
| Reorg.StaleNumberExample | blockchain.go:1492-1508 | a heavier, lower block for which a number entry stays that is no ancestor of the head |
| Reorg.BlockChain.Reorg | blockchain.go:1395-1511 | a failing reorganisation writes nothing; otherwise both indexes describe the new branch up to its last block, or the old chain without what was stale above it |
| Reorg.BlockChain.WriteHeadBlock | blockchain.go:438-458 | the block becomes the head, with its number and its transactions indexed |
| Reorg.BlockChain.WriteKnownBlock | blockchain.go:967-978 | fails, without a write, exactly on blocks that do not connect; else the transaction index is exact and the number index right up to the head, with nothing stale above if and only if the stated condition holds; the block becomes head header and head fast block, unless the index named it already at or directly above the head, and then both stay |
| Reorg.Adopts | blockchain.go:1046-1058 | the heavier block is adopted, and only it; at equal weight the lower one; at equal height a preserved head stays, else a preserved block wins, else the coin decides |
| Reorg.RootedConnects | blockchain.go:1443-1475 | when every stored block has its parent stored, every block connects, so no reorganisation fails |
| Reorg.BlockChain.WriteBlockWithState | blockchain.go:984-1071 | the head stays a heaviest stored block whatever the policy and the coin say; total difficulties add up along parents; the indexes follow the head, also from states with stale entries |
| Reorg.BlockChain.WriteBlocks | blockchain.go:984-1071 | after any sequence of blocks the head is heaviest, the transaction index exact and the number index right up to the head; the head header and the head fast block are one, and the head lies on their chain |
| TxIndex.Lookup | chain_iterator.go:71-90 | the numbers of the range in order, also downwards to 0 with the end at 2^64 - 1 |
| TxIndex.TxDb.IndexTransactions | chain_iterator.go:141-188 | for any order of delivery, and when some are lost, every state written is safe, and the tail is the lowest block from which all were delivered |
| TxIndex.CoversNext | chain_iterator.go:158-166 | adding the block below the covered range covers it too, since no transaction occurs twice |
| TxIndex.DeletionKeeps | chain_iterator.go:189-223 | deleting blocks below the tail keeps every entry at or above it |
| TxIndex.TxDb.UnindexTransactions | chain_iterator.go:189-223 | the tail is raised first, and exactly the entries of the delivered blocks go |
| TxIndex.TxDb.IndexBlocks | blockchain.go:1545-1566 | when all asked for is delivered, the tail leaves exactly the latest `limit` blocks, or all if there are fewer or no limit; an exact index stays exact from the new tail |
| ChainIndexer.VerifyLastInv | chain_indexer.go:283-290 | dropping sections until the last head is canonical keeps the invariant and stops on a match or the checkpoint |
| ChainIndexer.VerifyLastDrops | chain_indexer.go:283-290 | only sections are dropped whose head is not the canonical hash of their last block |
| ChainIndexer.FinishInv | chain_indexer.go:198-252 | storing the section processed keeps sections linked, because its predecessor is compared again under the lock |
| ChainIndexer.FinishStores | chain_indexer.go:226-238 | a section that still fits becomes the last one, and nothing else changes |
| ChainIndexer.FinishDrops | chain_indexer.go:239-243 | otherwise no more is known than stored, and the last section stored is canonical |
| ChainIndexer.BegunOnCanonical | chain_indexer.go:198-214 | a section is begun on the last one stored, whose head is the canonical hash of the block before it |
| ChainIndexer.KnownIsLargestConfirmed | chain_indexer.go:166-179 | a head event makes known the largest number of sections whose last block has the required confirmations, if the checkpoint conditions hold, and changes nothing else |
| ChainIndexer.BegunConfirmed | chain_indexer.go:139-252 | in every run, a section is begun only after a head event for a block that confirms all of it |
| ChainIndexer.ReorgInv | chain_indexer.go:139-159 | a reorganisation during processing keeps the invariant |
| ChainIndexer.ReorgDropsSections | chain_indexer.go:139-159 | exactly the sections above the checkpoint that reach past the common ancestor are dropped, and the same of those known; none are known when the ancestor is below the checkpoint |
| ChainIndexer.ClearStepInv | chain_indexer.go:259-260 | each write of the clearing that runs without the lock keeps the invariant, whatever locked steps fall between the writes |
| ChainIndexer.ClearAlone | chain_indexer.go:318-327 | undisturbed, those writes drop all sections as one call would |
| ChainIndexer.NextInv | chain_indexer.go:139-282 | every step of the protocol keeps the invariant |
| ChainIndexer.RunInv | chain_indexer.go:139-282 | in every interleaving each stored head is reached from the one before by sectionSize parent links |
| ChainIndexer.StoredSectionsCanonical | chain_indexer.go:283-290 | if the last head is canonical, all stored sections above the checkpoint are |
| ChainIndexer.VerifiedSectionsCanonical | chain_indexer.go:198-290 | in every run, checking the last head alone establishes that |
| ChainIndexer.Indexer.NewHead | chain_indexer.go:139-187 | the counters and heads after a head event or a reorganisation, and the call that every child gets: exactly when the head told to them goes down |
| ChainIndexer.Indexer.BeginUpdate | chain_indexer.go:198-214 | what is taken to be processed is the step the protocol allows |
| ChainIndexer.Indexer.FinishUpdate | chain_indexer.go:215-252 | the outcome of processing is committed as the protocol says, and the children hear of the last block of a section stored |
| ChainIndexer.Indexer.SetValidSections | chain_indexer.go:318-327 | heads of sections no longer valid are removed, and no others |
| ChainIndexer.Indexer.VerifyLastHead | chain_indexer.go:283-290 | the loop removes the sections the specification removes |
| ChainIndexer.ProcessSection | chain_indexer.go:256-282 | what it does is a sequence of steps of the protocol, each read answered by the chain as it is then; it succeeds exactly when the backend takes the section, every block continues the last and is processed, and the backend commits; then the new head is sectionSize links above the old |
| FieldMul.ColumnsAddUp | field_5x52_int128_impl.h:18-153 | the nine columns of partial products add up to the product |
| FieldMul.FoldValue | field_5x52_int128_impl.h:46-152 | the interleaved carries and reductions change the value by a multiple of the prime |
| FieldMul.MulInner | field_5x52_int128_impl.h:18-153 | for all inputs of 56/52-bit limbs no 64- or 128-bit word overflows, every stated bound holds, the result has 52/49-bit limbs and is the product modulo the prime |
| FieldMul.SqrInner | field_5x52_int128_impl.h:155-275 | the same for the square, with doubled limbs |
| FieldMul.SqrAgreesWithMul | field_5x52_int128_impl.h:155-275 | squaring and multiplying by itself give the same limbs |
| FieldMul.FeMul | field_5x52_impl.h:373-388 | in place, also when the result overwrites an operand |
| FieldMul.FeSqr | field_5x52_impl.h:389-400 | in place, also when the result overwrites its operand |
| FieldNormalize.CompareWithPrime | field_5x52_impl.h:70-74 | the comparison by limbs decides whether the value is at least the prime |
| FieldNormalize.Normalize | field_5x52_impl.h:54-95 | the canonical limbs of the value modulo the prime, for every magnitude up to 2047 |
| FieldNormalize.NormalizeVar | field_5x52_impl.h:121-163 | the same |
| FieldNormalize.CanonicalUnique | field_5x52_impl.h:54-163 | a residue has one canonical representation |
| FieldNormalize.NormalizeAgrees | field_5x52_impl.h:54-163 | both forms give the same limbs |
| FieldNormalize.NormalizesToZero | field_5x52_impl.h:165-186 | holds if and only if the value is 0 modulo the prime |
| FieldNormalize.NormalizesToZeroVar | field_5x52_impl.h:188-227 | the same, with the early exit on the lowest limb |
| FieldNormalize.Negate | field_5x52_impl.h:327-342 | no limb underflows, the magnitude grows by one, the value is the negative modulo the prime |
| FieldNormalize.Add | field_5x52_impl.h:357-371 | magnitudes and values add up without overflow |
| FieldNormalize.Equal | field_impl.h:24-29 | decides congruence of an element of magnitude 1 with one of any magnitude the sum admits |
| FieldNormalize.EqualVar | field_impl.h:31-36 | the same |
| FieldNormalize.FirstPassFitsIff | field_5x52_impl.h:54-66 | the first pass fits 64 bits for all elements of a magnitude if and only if it is at most 2047 |
| FieldInverse.Blocks | field_impl.h:136-200 | the chain of squarings and products gives the powers with 2, 22 and 223 ones for exponent |
| FieldInverse.Inverse | field_impl.h:136-224 | the addition chain computes exactly the (p - 2)-th power, with every operand in bounds |
| FieldPrime.PIsPrime | field_5x52_impl.h:24-25 | the modulus of the field is prime |
| Residues.PowerInverts | field_impl.h:136-224 | modulo a prime n, the (n - 2)-th power inverts every number that n does not divide |
| FieldInverse.InverseInverts | field_impl.h:136-224 | the addition chain computes the inverse of every element that is not zero |
| FieldInverse.SquareRoot | field_impl.h:38-134 | the chain computes exactly the ((p + 1) / 4)-th power; the answer tells whether its square is the input, which is so if and only if the input is a square |
| FieldInverse.RootFoundIff | field_impl.h:38-134 | that power is a square root if and only if there is one, zero included |
| FieldInverse.OneOfTwoHasRoot | field_impl.h:42-44 | of an element and its negative, unless zero, exactly one has a square root |
| FieldInverse.RootOfNegative | field_impl.h:42-46 | the power is the same for an element and its negative, and is a square itself |
| FieldInverse.Prefixes | field_impl.h:270-277 | the forward pass leaves the product of the first elements at each place |
| FieldInverse.Backward | field_impl.h:281-287 | the backward pass turns the inverse of the product into the inverse of every element |
| FieldInverse.InverseAll | field_impl.h:263-288 | for every length each result is the inverse of its element; nothing else is written |
| Wnaf.OddDigit | ecmult_impl.h:261-275 | a digit is odd and below 2^(w-1) in absolute value, and makes up for its carry |
| Wnaf.WordsFitIff | ecmult_impl.h:261-271 | the word and the digit fit a signed 32-bit word; the shifted carry does if and only if the window has at most 30 bits or the carry is 0 |
| Wnaf.ShiftFitsIff | ecmult_impl.h:245-271 | the shifted carry fits for all scalars and windows if and only if the windows have at most 30 bits |
| Wnaf.WrapDigit | ecmult_impl.h:269-271 | a subtraction that wraps around makes up for a shift that does, so the digit is right even then |
| Wnaf.AccountedStep | ecmult_impl.h:255-276 | placing a digit keeps digits plus carry equal to the bits read |
| Wnaf.EcmultWnaf | ecmult_impl.h:235-284 | for every length, digits plus last carry are the low bits of the signed scalar; nonzero digits are odd, bounded and w apart; no word overflows up to w = 30, and one does for the scalar 0x40000001 at w = 31 |
| Wnaf.EcmultWnafFull | ecmult_impl.h:235-284 | with 256 digits the carry is 0 and the digits sum to every scalar modulo the order |
| WnafConst.MakeOdd | ecmult_const_impl.h:57-95 | negation and skew give an odd scalar below the order that stands for scalar plus skew |
| WnafConst.OddStep | ecmult_const_impl.h:98-113 | moving one unit between neighbouring windows makes the digit odd and keeps the sum |
| WnafConst.PutDigits | ecmult_const_impl.h:96-113 | all digits but the last are in range and account for the scalar |
| WnafConst.WnafConst | ecmult_const_impl.h:57-119 | all digits are odd and in range and sum to scalar plus skew modulo the order, the scalar -1 included |
| Bitset.BitsetEncodeBytes | compress.go:71-97 | fills the bitset and gathers the nonzero bytes as the specification says; the recursion ends |
| Bitset.EncodingLayout | compress.go:71-97 | the encoded bit vector comes first, and behind it the nonzero bytes in their order |
| Bitset.MarkIff | compress.go:86-92 | byte i is marked by the bit of weight 2^(7 - i mod 8) in byte i / 8, exactly if it is not zero |
| Bitset.BitsetDecodePartialBytes | compress.go:130-170 | decodes or fails as the specification says |
| Bitset.DecodeFails | compress.go:146-168 | the error is that of the first marked position whose byte is missing, has no place or is zero |
| Bitset.DecodeEncode | compress.go:71-170 | partial decoding of an encoding with any suffix gives the data and consumes exactly the encoding |
| Bitset.DecodeCanonical | compress.go:115-170 | what decodes is the encoding of what it decodes to |
| Bitset.CompressBytes | compress.go:60-70 | the shorter of encoding and input |
| Bitset.RoundTrip | compress.go:60-114 | decompressing what was compressed gives every byte string back |
| Bitset.DecodesExactlyEncodings | compress.go:115-129 | an input decodes to given data if and only if it is the encoding of them |
| Instructions.InstructionIterator.Next | asm.go:20-48 | moves to the next instruction with its whole operand; false at the end and at a push cut short |
| Instructions.Disassemble | asm.go:76-91 | succeeds if and only if no push is cut short, and then the pieces partition the code |
| Instructions.JoinCompleteIff | asm.go:20-48 | what follows whole instructions makes the whole complete if and only if it is complete itself |
| Instructions.VisitsEndIff | asm.go:20-48 | the iterator comes by the end if and only if no push is cut short |
| Instructions.VisitsPrefixIff | asm.go:20-48 | appended code does not change where the iterator comes by before it |
| Instructions.PushSwallows | asm.go:36-44 | no byte behind a push, as far as its operand reaches, is visited |
| Assembler.Compiler.Feed | compiler.go:23-52 | the address of each label is what the first pass counted before its last definition |
| Assembler.LineWidth | compiler.go:76-155 | a line's code is as long as the first pass counted, but for strings given to jumps |
| Assembler.Compiler.CompileLine | compiler.go:76-100 | fails exactly when no accepted line begins here, and else emits the code of its statement |
| Assembler.LineCompleteIff | compiler.go:109-155 | the code of an accepted line is made of whole instructions if and only if its tokens meet the condition, whatever the labels stand for |
| Assembler.LineAlignedIff | compiler.go:76-155 | one more line keeps a program aligned if and only if it is whole, and never repairs one that is not |
| Assembler.Compiler.Compile | compiler.go:53-70 | free of errors if and only if the tokens split into accepted lines; then every statement is at its offset, and all begin at instructions if and only if all are whole |
| Assembler.AddressIsOffsetIff | compiler.go:23-52 | a label's address is its offset if and only if no non-empty string before it was given to a jump |
| Assembler.Assemble | compiler.go:23-155 | errors if and only if the tokens do not split into accepted lines; else each statement prints its opcode and the value of its operand in the fewest bytes, each reference carries the address of the last definition or 0, and statements begin at instructions if and only if all are whole |
| Assembler.CleanProgram | compiler.go:23-155 | without raw operands of jumps and bare pushes everything is whole and addresses are offsets |
| Assembler.BarePush | compiler.go:109-155 | a bare push is accepted, and the label behind it names an operand byte |
| ForkId.GatherForks | forkid.go:115-149 | the strictly increasing list of exactly the configured nonzero forks |
| ForkId.NewId | forkid.go:36-48 | the checksum over the forks passed and the next fork |
| ForkId.Filter | forkid.go:62-104 | the verdict of the EIP-2124 rules at the position the filter takes for the local one, also when checksums collide |
| ForkId.Verdicts | forkid.go:74-104 | for any identifier: a remote is stale exactly when it announces another fork than followed its checksum, and the local chain when it passed the fork announced behind its own checksum or does not know the checksum |
| ForkId.ConfigurationsJudged | forkid.go:62-104 | for any two configurations and heads: the remote is stale exactly when the local chain went on from where they agree with a fork that it does not announce, and the local chain exactly when the remote passed a fork that is not in its list or announces one that it should have passed |
| ForkId.FilterFollowsRulesIff | forkid.go:74-104 | the filter follows EIP-2124 for all identifiers if and only if the head is not a fork block |
| ForkId.AcceptsOwnConfigurationIff | forkid.go:62-104 | nodes of the same configuration are accepted at every remote head if and only if the head is not a fork block |
| ForkId.RulesAcceptOwn | forkid.go:62-104 | the rules themselves accept them at every local head |
| Der.ReadLen | ecdsa_impl.h:49-99 | accepts exactly the shortest definite length octets that stay within the input |
| Der.LengthIff | ecdsa_impl.h:49-99 | length octets are accepted if and only if they are the shortest definite form of a length that fits |
| Der.SignatureIff | ecdsa_impl.h:101-177 | exactly the signatures of the X.690 grammar are accepted, with the contents they have there |
| Der.ScalarFromOwnOctets | ecdsa_impl.h:101-145 | a scalar is below the order, and one other than 0 is read from its own octets only |
| Der.ParseInteger | ecdsa_impl.h:101-145 | accepts exactly integers of shortest content; out of range they stand for 0 |
| Der.ParseSignature | ecdsa_impl.h:147-177 | accepts exactly one sequence of two integers without garbage |
| Der.SerializeSignature | ecdsa_impl.h:179-201 | writes the encoding if the buffer is large enough, nothing else, and reports the size |
| Der.IntegerUnique | ecdsa_impl.h:179-201 | shortest content octets in range are those of their scalar |
| Der.ParseSerialized | ecdsa_impl.h:147-201 | parsing what was serialized gives all scalars below the order back |
| Der.SerializeParsedIff | ecdsa_impl.h:147-201 | an accepted input is the serialization of its scalars if and only if both integers are non-negative and below the order |

## Left out

- Freezer tables with a deleted tail (`itemOffset` or `tailId` other than 0), for which truncation and the first index entry do not fit together in the source.
- FreezerTables.FreezerTable.Repair: an index file whose first entry is not the zero sentinel, which means a deleted tail.
- File numbers of 2^16 and more, which the 16-bit field of an index entry cannot hold; `MarshalRoundTrip` shows the limit, and members that need it ask for it.
- Snappy compression: blobs are the bytes handed to the files.
- FreezerTables.FreezerTable.Append: an index write that fails is not checked by the source and is not modelled; blobs whose length does not fit 32 bits are.
- Freezers.Freezer.AppendAncient: the five appends are written as one loop over the kinds, in the order of the source.
- FreezePass.FreezeLoop.FreezePass: the limit is a parameter; head lookup, immutability threshold, batch limit and timers are not modelled, and a batch is one atomic write.
- Migration: a flush makes all items of a table durable. The source flushes the index and the present head file only, and a data file rotated out during the pass is closed without a flush; so surviving data are taken to be a prefix of what was written.
- Migration models the tables as values, items and dangling bytes, and one append per step; their files are the subject of the freezer modules, and whether an append needs a new file is any answer.
- The panic on an empty string given to a jump, and on numbers of more than 256 bits, in the assembler; the lexer; the tables of mnemonics and opcodes.
- Reorg.BlockChain.WriteBlockWithState: state execution and commit, receipts, logs, events and caches.
- Reorg: `InsertReceiptChain`, `SetHead` and the header chain.
- ChainIndexer: `AddCheckpoint` during processing, `AddChildIndexer`, persistence of the counter, throttling. The unlocked clearing of all sections is modelled write by write, with locked steps between the writes; a decrement counts as one write, and none falls inside a locked step.
- TxIndex.TxDb.IndexBlocks: the loop that starts it, and its timers; batch sizes are any answer of a function.
- ForkId.GatherForks: the selection of fields by reflection is the list of rules given; the checksum is any function.
- Der: inputs of 2^31 bytes and more.
- The inverse through a big-number library.
- Wnaf.EcmultWnaf: signed overflow, which C leaves undefined, wraps around.
- `set_b32`, `get_b32`, `mul_int`, storage forms and `normalize_weak`: easier members.
- The 10x26 limbs, the x86 assembly, the 128-bit endomorphism variant of `wnaf_const`, and constant-time behaviour.
- Networking, metrics, logging, locks (the interleavings they allow are modelled as steps), genesis handling, bn256, ECIES and the JavaScript client.
