# trilogicon-core in Dafny

A model of the node of trilogicon-core, and proofs about it: the account ledger, the chain of blocks,
the pool of pending transactions, the binary codec, the append-only block file, the pending file, the
fork planner with its replay sandbox, the sync loop and the inbound slot counter.
`dafny verify dfyconfig.toml` checks everything.

## How the model is laid out

Each component is a set of functions on values (what an operation does to a ledger, a queue, a file)
and, where the node changes things in place or loops, a class or a method proved equal to those
functions. The theorems are about the functions, so they hold of the classes and loops too.

| file | component |
|---|---|
| `Prelude`, `Records` | machine integers, byte strings, readers, lists of length-prefixed records |
| `Protocol` | transactions, blocks, genesis, the stateless rules |
| `Preimages` | what transaction and block hashes commit to |
| `Ledger`, `Chain`, `Blockchain` | accounts, append, rollback, sealing, and what every reachable chain satisfies |
| `MempoolRules`, `Mempool` | the queue as a list, and the three tables that hold it |
| `Codec`, `CursorCodec` | the canonical encoding, and the cursor and buffer code that computes it |
| `FieldLayout`, `Unicode` | every encoding as fields at offsets; the UTF-8 test against UTF-8 itself |
| `Crc32`, `Crc32Values`, `Store`, `BlockFile` | the checksum and its known values, the two file layouts, torn files, appends that fail half way |
| `Node`, `Durability` | memory and disk together over whole runs with faults and restarts, and what is never lost |
| `Damage` | stored payloads that changed on disk |
| `PendingFile` | the pending-transaction file and its drain |
| `BlockIndex`, `ReorgPlan` | ancestry walks, fork slices, the planner and the plan validator |
| `Fingerprint`, `ReplaySandbox` | the ledger's byte form and the dry run of a plan |
| `Wire`, `SyncLoop`, `Sync`, `SyncTrace` | the `OP_BLOCKS` reply, the budgeted catch-up loop, and the loop told round by round |
| `SlotPool` | the compare-and-swap session counter under every interleaving |

Choices that run through the whole model:

- SHA-256 and Ed25519 are any functions of the right shape (`Protocol.Crypto`; digests are 64 hex
  digits). Most theorems are stated for every `Protocol.Rules`: a transaction check and a header seal
  whose result is never blank. `Protocol.StandardRules` is the rule set of the node.
- A `String` is its UTF-8 bytes. Integers are unbounded with explicit 32-bit and 64-bit ranges, and
  checked, saturating and truncating operations are written out.
- Codecs are `Records.Format` values. The file, wire and pending theorems hold for every format whose
  printer and parser are inverse (`Records.TwoSided`), which `Codec` proves of the real ones.
- A failed disk write leaves any prefix of what it tried to write, the repair write of a restart
  included. The pending file is rewritten all at once or not at all. The clock, the peer and the disk
  are function parameters.
- Iteration over a hash table is an arbitrary choice at every turn.
- `Chain.Canonical` says that a chain is what appending its own blocks to genesis gives; every run of
  append, network append and rollback stays canonical, and the theorems about chains start from it.

Two properties are false as they stand.

- The plan validator is meant to accept exactly the plans that the planner makes. It accepts more: if
  the empty string is itself the hash of a rooted block, every other clean root names it as its parent, and
  a plan that rolls such a root back onto it validates, while the planner finds no common ancestor
  (`ReorgPlan.AmbiguousIndex`). It also accepts less: the planner does not look at the parent of a
  root, the validator does (`ReorgPlan.DirtyRootIndex`). `ReorgPlan.ValidatorExact` proves that the
  two agree on every plan if and only if the index is neither of these.
- Committed blocks are meant to survive every restart. The loader repairs a torn tail by truncating
  and rewriting the whole file, and if that write is cut where the shorter file still loads, the next
  restart comes up without the blocks behind the cut and without an error (`Durability.RepairCutRun`).
  `Durability.DurableIffNoSilentCut` proves that no run loses a block if and only if that does not
  happen in it.

## Model

| member | source | states |
|---|---|---|
| Ledger.TransferMeaning | node/src/state.rs:67-157 | a transfer succeeds if and only if it is valid, its sender exists with that nonce and the funds, and the receiver does not overflow; it then changes exactly its two parties, by amount and fee, and one nonce |
| Ledger.TransferRefusals | node/src/state.rs:67-157 | which error a refused transfer gets, in which order of precedence |
| Ledger.RunBreaksExact | node/src/blockchain.rs:182-186 | a list of transfers fails if and only if some first one fails after the ones before it, and with its error |
| Ledger.TransferBurnsFee | node/src/state.rs:67-157 | every successful transfer, to oneself or to a new account included, lowers the balance total by exactly its fee |
| Ledger.NoReceiverOverflow | node/src/state.rs:102-107 | on a ledger whose total fits 64 bits the receiver overflow error cannot occur |
| Ledger.RunBurnsFees | node/src/state.rs:67-157 | a run of transfers lowers the total by the sum of its fees |
| Ledger.NonceCountsSends | node/src/state.rs:67-157 | after a run each nonce has grown by the number of transfers its account sent |
| Ledger.NonceAtPosition | node/src/state.rs:67-157 | each transfer of a run carries the nonce its sender has reached by then |
| Ledger.NoNonceReuse | node/src/state.rs:67-157 | a sender's later transfer in a run has the larger nonce |
| Ledger.GenesisNonces | node/src/state.rs:21-29 | genesis accounts start at nonce 0 and all come from the document |
| Ledger.GenesisTotal | node/src/state.rs:21-29 | the genesis ledger holds exactly what the document allocates |
| Ledger.GenesisBalances | node/src/state.rs:21-29 | each allocation stands in the genesis ledger under its own address with its own balance, and nothing else does |
| Protocol.ValidateGenesisExact | node/src/genesis.rs:65-102 | a genesis document passes if and only if every address is valid, funded and listed once |
| Protocol.ValidateBlockExact | node/src/block.rs:67-102 | which blocks pass: above height 0 a non-blank parent, distinct transaction hashes, valid transactions and the seal of the header; at height 0 the genesis constants |
| Protocol.TimestampExact | node/src/consensus.rs:40-59 | accepted if and only if parent time plus interval is not after the block time, the earliest time included; when each error is given |
| Protocol.DriftExact | node/src/consensus.rs:62-74 | refused if and only if the block time is after local time plus drift |
| Preimages.BasicValidateExact | node/src/transaction.rs:64-82 | which transactions pass; the address and blank-hash checks on the sender side follow from the others |
| Preimages.PayloadBinds | node/src/transaction.rs:54-62 | the signed text determines all six fields of a transfer, wherever bars occur in the receiver |
| Preimages.PayloadAmbiguous | node/src/transaction.rs:54-62 | why the sender must be bounded: with a bar inside a sender two transfers share one signed text |
| Preimages.TxHashBinds | node/src/transaction.rs:40-82 | valid transactions with one hash are one transfer unless the digest itself collides |
| Preimages.HeaderBinds | node/src/block.rs:34-46 | the text behind a block hash determines height, parent, time and the list of transaction hashes |
| Ledger.State.ApplyTransaction | node/src/state.rs:67-124 | applies exactly the specified transfer or, on any error, changes nothing |
| Ledger.State.ApplySelfTransfer | node/src/state.rs:126-157 | the same for a transfer to oneself |
| Ledger.State.ApplyTransactions | node/src/blockchain.rs:182-186 | applies a list in order and reports the first error |
| Ledger.TotalBalanceSum | node/src/state.rs:57-63 | in every iteration order the checked sum succeeds if and only if the total fits 64 bits, and is the total |
| Chain.EveryRunCanonical | node/src/blockchain.rs:118-190 | every chain reached by any sequence of appends, network appends and rollbacks is its own blocks replayed from genesis |
| Chain.StepCanonical | node/src/blockchain.rs:118-190 | each single operation keeps that |
| Chain.CanonicalLinked | node/src/blockchain.rs:158-190 | in a reachable chain block i has height i and names block i-1 |
| Chain.CanonicalValidated | node/src/block.rs:67-103 | every block above genesis in a reachable chain passes the stateless checks |
| Chain.CanonicalTimestamps | node/src/consensus.rs:40-59 | every block of a reachable chain keeps the minimum interval to its parent |
| Chain.CanonicalPrefix | node/src/blockchain.rs:158-190 | every prefix of a reachable chain is a reachable chain, and appending the rest leads back |
| Chain.HashFixesHistory | node/src/block.rs:34-46 | unless two of their headers collide, chains with equal block hashes at one height have equal headers all the way down |
| Preimages.DigestFixesHistory | node/src/block.rs:34-65 | for the node as built: unless SHA-256 collides on two of their headers, chains with one block hash at a height have equal headers all the way down |
| Chain.AppendExact | node/src/blockchain.rs:118-190 | exactly the blocks that are valid, next, linked, late enough and applicable are appended, and from the network only those not too far ahead; the new ledger is theirs |
| Chain.HistoryAuthentic | node/src/transaction.rs:64-82 | every transfer in a chain of the node verifies under the key that its sender address is the hash of |
| Chain.StateIsReplay | node/src/blockchain.rs:11-22 | the ledger of a reachable chain is genesis replayed through its blocks |
| Chain.RollbackReturns | node/src/blockchain.rs:140-156 | rolling back to any height up to the tip never fails and gives the chain and ledger held then |
| Chain.RollbackRefuses | node/src/blockchain.rs:140-156 | a rollback above the tip or below genesis is refused and changes nothing |
| Chain.RollbackUndoesAppends | node/src/blockchain.rs:140-190 | whatever is appended to a reachable chain, rolling back to its height restores it |
| Chain.RollbackLastUndoes | node/src/blockchain.rs:282-290 | rolling back one block undoes its append, ledger included |
| Chain.RollbackLastCanonical | node/src/blockchain.rs:282-290 | on a reachable chain it fails only at genesis, and the result is reachable |
| Chain.ChainSupply | node/src/blockchain.rs:158-190 | the total of a reachable chain is the genesis allocation less every fee in its history |
| Chain.NoOverflowOnChain | node/src/state.rs:102-107 | with a genesis that fits 64 bits no transfer on top of a reachable chain overflows a receiver, and the total stays in range |
| Chain.NoncesCountHistory | node/src/state.rs:67-157 | in a reachable chain each nonce is the number of transfers the account sent, and its k-th carries nonce k |
| Chain.NoReplayInHistory | node/src/blockchain.rs:158-190 | no sender and nonce pair, hence no transaction, occurs twice in a reachable chain |
| Chain.FromHeightIsSlice | node/src/blockchain.rs:100-110 | on a reachable chain the reply is exactly the slice from that height, cut at the limit |
| Chain.DefaultsAccept | node/src/storage.rs:413-436 | what was accepted under any timestamp parameters is accepted under the defaults used on reload, with the same result |
| Blockchain.SealAccepted | node/src/blockchain.rs:201-234 | a block sealed from any selection is appended unless the parent timestamp rule fails, and then that is the error |
| Blockchain.SealMeaning | node/src/blockchain.rs:201-234 | a seal appends one block with just the selected transactions at the given time and names their hashes; it seals nothing if and only if nothing is selected |
| Blockchain.SealThenRollback | node/src/blockchain.rs:201-290 | sealing and rolling back restores the chain exactly |
| Blockchain.RecomputeState | node/src/blockchain.rs:11-22 | the replay loop computes genesis followed by every transfer in block order |
| Blockchain.FromGenesis | node/src/blockchain.rs:63-81 | refuses a bad genesis document with its error, and otherwise starts with the genesis block and ledger |
| Blockchain.Blockchain.AppendBlock | node/src/blockchain.rs:158-190 | appends exactly as specified or changes nothing |
| Blockchain.Blockchain.TryAppendNetworkBlock | node/src/blockchain.rs:118-129 | the same behind the local clock check |
| Blockchain.Blockchain.RollbackToHeight | node/src/blockchain.rs:140-156 | pops and replays as specified |
| Blockchain.Blockchain.RollbackLastBlock | node/src/blockchain.rs:282-290 | pops one block and replays |
| Blockchain.Blockchain.BlocksFromHeightLimited | node/src/blockchain.rs:100-110 | the filter loop computes the specified reply |
| Blockchain.Blockchain.AppendFromMempoolPendingRemoval | node/src/blockchain.rs:201-234 | selects, builds and appends as specified, does not touch the pool, and changes nothing on error |
| MempoolRules.SubmitOrderly | node/src/mempool.rs:80-109 | submission keeps the queue free of repeated hashes and of repeated sender and nonce pairs, and within capacity |
| MempoolRules.SubmitExact | node/src/mempool.rs:80-109 | accepted if and only if valid, with a new hash and a free slot, and capacity above zero; when each error is given; a refusal changes nothing |
| MempoolRules.SubmitEvicts | node/src/mempool.rs:80-109 | an accepted transaction comes last, and only a full pool loses an entry: exactly its first |
| MempoolRules.WithoutMeaning | node/src/mempool.rs:192-198 | removal keeps exactly the entries not named, in order |
| MempoolRules.WithoutCount | node/src/mempool.rs:192-198 | removing entries that are all there shortens the queue by as many |
| MempoolRules.HygieneMeaning | node/src/mempool.rs:241-366 | hygiene keeps exactly the entries behind the doomed front that are not behind the committed ledger |
| MempoolRules.HygieneSparesViable | node/src/mempool.rs:241-366 | hygiene never drops an entry the committed ledger would accept now |
| MempoolRules.ViableExact | node/src/mempool.rs:241-308 | the purge spares an entry if and only if it is valid with a known sender and comes later, applies now, or fails now only at an arithmetic limit |
| MempoolRules.SelectSound | node/src/mempool.rs:157-189 | the selection is a FIFO subsequence of at most `max` entries that applies in order |
| MempoolRules.SelectGreedy | node/src/mempool.rs:157-189 | an entry is picked exactly when it applies after the picks before it, until the block is full; otherwise it is skipped or fails as its nonce says |
| MempoolRules.SelectErrorStays | node/src/mempool.rs:157-189 | an error stays an error whatever entries follow in the queue |
| MempoolRules.SelectFailsExact | node/src/mempool.rs:157-189 | selection reports an error if and only if some entry, reached with room for a pick, has a known sender and a nonce not above the one reached and does not apply; and then which error |
| MempoolRules.NonceHit | node/src/mempool.rs:157-189 | the nonces a sender spends in a run form one contiguous range |
| MempoolRules.HygieneThenSelect | node/src/mempool.rs:157-189 | after hygiene against a ledger, selection on that ledger never fails with a stale nonce |
| MempoolRules.EveryPoolRunOrderly | node/src/mempool.rs:80-366 | after any sequence of pool operations the queue is well formed and within capacity |
| Mempool.RepresentsUnique | node/src/mempool.rs:201-221 | the queue alone determines all three tables, so restoring a snapshot restores them |
| Mempool.Pool.constructor | node/src/mempool.rs:38-45 | starts empty with all tables in agreement |
| Mempool.Pool.RemoveTxHash | node/src/mempool.rs:59-68 | removes one entry and keeps the sender index exact |
| Mempool.Pool.EvictOldest | node/src/mempool.rs:70-77 | drops exactly the oldest entry |
| Mempool.Pool.TrySubmit | node/src/mempool.rs:80-109 | refuses without change, or adds at the end after dropping the oldest entry of a full pool |
| Mempool.Pool.TrySubmitPendingDrain | node/src/mempool.rs:114-137 | the same but refuses when full |
| Mempool.Pool.OrderedCandidatesForSeal | node/src/mempool.rs:157-189 | computes the specified selection on a copy and leaves the pool alone |
| Mempool.WalkForSeal | node/src/mempool.rs:157-189 | the selection loop computes the specified selection |
| Mempool.Pool.RemoveByTxHashes | node/src/mempool.rs:192-198 | removes exactly the named entries from all three tables |
| Mempool.Pool.CloneFifo | node/src/mempool.rs:201-206 | the snapshot is the queue |
| Mempool.Pool.RestoreFifo | node/src/mempool.rs:208-221 | the three tables are filled from the list alone, whatever it is; a well-formed list makes a valid pool that holds exactly it |
| Mempool.Pool.PurgeNonviable | node/src/mempool.rs:241-308 | drops the longest doomed front and counts it |
| Mempool.Pool.DropStaleNonces | node/src/mempool.rs:316-332 | drops exactly the stale entries and counts them |
| Mempool.Pool.DropLaterConflicts | node/src/mempool.rs:336-358 | in any valid pool it finds nothing and changes nothing |
| Mempool.Pool.HygieneVsCommitted | node/src/mempool.rs:361-366 | performs the specified hygiene; the counts add up to the entries dropped |
| Codec.TxRoundTrip | node/src/encoding.rs:108-146 | decoding an encoded transaction gives it back |
| FieldLayout.TxLayout | node/src/encoding.rs:108-122 | the encoding of a transaction is its tag, version and fields in this order, lengths first |
| FieldLayout.TxNumbersAt | node/src/encoding.rs:108-122 | the offsets of amount, fee, nonce and time |
| FieldLayout.BlockLayout | node/src/encoding.rs:149-166 | the same for a block, each transaction behind its length |
| FieldLayout.PieceAt | node/src/encoding.rs:89-106 | every piece of an encoding lies at the sum of the lengths before it |
| Prelude.BigEndianDigit | node/src/encoding.rs:89-95 | each byte of an encoded integer is a base-256 digit, most significant first |
| Prelude.U32Layout | node/src/encoding.rs:89-91 | the four bytes of a length, count or checksum |
| Unicode.Utf8Exact | node/src/encoding.rs:73-76 | the string test accepts exactly the UTF-8 forms of texts (section 3 of RFC 3629) |
| Codec.TxCanonical | node/src/encoding.rs:124-146 | bytes that decode to a transaction are exactly its encoding |
| Codec.BlockRoundTrip | node/src/encoding.rs:149-199 | decoding an encoded block gives it back |
| Codec.BlockCanonical | node/src/encoding.rs:168-199 | bytes that decode to a block are exactly its encoding |
| Codec.TxTwoSided | node/src/encoding.rs:108-146 | transaction printer and parser are inverse on all values and all byte strings |
| Codec.BlockTwoSided | node/src/encoding.rs:149-199 | the same for blocks |
| CursorCodec.EncodeTransaction | node/src/encoding.rs:108-122 | the buffer code writes the specified encoding |
| CursorCodec.EncodeBlockBytes | node/src/encoding.rs:149-166 | the buffer code and its loop write the specified encoding |
| CursorCodec.DecodeTransaction | node/src/encoding.rs:124-146 | the cursor code accepts and returns exactly what the specification does |
| CursorCodec.DecodeBlockBytes | node/src/encoding.rs:168-199 | the same for blocks, nested transactions included |
| Crc32.WindowInjective | node/src/storage.rs:34-47 | from one register state, two inputs of the same length up to four bytes that lead to one state are equal |
| Crc32.BurstDetected | node/src/storage.rs:34-47 | payloads of any length that differ only inside a window of at most four bytes have different checksums (clause 3.2.9 of IEEE Std 802.3) |
| Crc32.Crc32Ieee | node/src/storage.rs:34-47 | the bit loop computes the specified checksum |
| Crc32Values.Residue | node/src/storage.rs:34-47 | every payload followed by its checksum, low byte first, leaves the register at 0xDEBB20E3, the residue of CRC-32 |
| Crc32Values.CheckValue | node/src/storage.rs:34-47 | the checksum of "123456789" is 0xCBF43926 |
| Crc32Values.CrcOfNothing | node/src/storage.rs:34-47 | the checksum of the empty payload is 0 |
| FieldLayout.FrameLayout | node/src/storage.rs:152-200 | a frame is a length, the payload and, in the newer layout, its checksum |
| FieldLayout.FileLayout | node/src/storage.rs:152-200 | a file of the newer layout is "TRILBC01" and one such frame for each item |
| Store.NextFrameExact | node/src/storage.rs:282-346 | when the reader finds a frame broken, torn or whole, with the cap of 64 MiB |
| Store.StrictIffConsumed | node/src/storage.rs:282-411 | the strict parser accepts exactly what the prefix parser reads to the end |
| Store.StrictIffUnrepaired | node/src/storage.rs:208-278 | the strict reader accepts exactly the files in which the repairing reader repairs nothing, with the same blocks |
| Store.LogParses | node/src/storage.rs:282-346 | whole frames followed by a torn one parse to their items and that tail |
| Store.ParsedIsLog | node/src/storage.rs:282-346 | whatever parses is the log of its items up to a torn tail |
| Store.LegacyNotV2 | node/src/storage.rs:240-246 | no well-formed legacy file, cut anywhere, passes for V2 |
| Store.CutFileLoads | node/src/storage.rs:234-278 | a well-formed file of either layout cut at any byte loads exactly the frames wholly before the cut, or errors; leftovers are forgiven only when 1 to 3 bytes follow at least one frame |
| Store.CutLoadsIff | node/src/storage.rs:234-278 | exactly which cuts of a well-formed file still load, and that every such cut loses blocks |
| Store.LoadedIsFile | node/src/storage.rs:234-278 | what a load that completes leaves on disk is the well-formed file of the blocks it returned, a prefix of the old file |
| Store.LoadTwice | node/src/storage.rs:234-278 | a second load gives the same blocks and repairs nothing |
| BlockFile.AppendMeaning | node/src/storage.rs:152-201 | an append succeeds and stores one more block, is refused without change, or poisons the store and leaves a prefix of what it tried to write |
| BlockFile.HealthyReload | node/src/storage.rs:234-278 | a store that holds a list reloads as exactly that list |
| BlockFile.FailedReload | node/src/storage.rs:152-278 | what a reload finds after a failed append, for every number of bytes that reached the disk |
| BlockFile.LoadThenOpen | node/src/storage.rs:101-138 | after any successful load the file opens, healthy, holding exactly the loaded blocks |
| BlockFile.RepairUnderFault | node/src/storage.rs:274-275 | a fault in the repair write makes the next load lose blocks without an error if and only if the write is cut where the shorter file still loads |
| BlockFile.RepairCanLoseEverything | node/src/storage.rs:274-275 | any file of whole frames with one torn byte behind them is such an input: a repair write that gets nothing down leaves a file that loads as empty |
| BlockFile.ParseFramesPrefix | node/src/storage.rs:282-346 | the prefix parsing loops compute the specified result |
| BlockFile.ParseFramesStrict | node/src/storage.rs:348-411 | the strict parsing loops compute the specified result |
| BlockFile.ReadAllRepairingTail | node/src/storage.rs:234-278 | the repairing reader computes the specified result and file, with any fault in its repair write |
| BlockFile.BlockStore.Append | node/src/storage.rs:152-201 | writes magic and frame as specified under any fault |
| Damage.DamagedFileRefused | node/src/storage.rs:308-411 | a V2 file in which one payload no longer has its checksum is refused by both readers |
| Damage.BurstRefused | node/src/storage.rs:34-47 | under CRC-32 so is every V2 file in which one payload changed inside a window of four bytes |
| Node.BlockFramingSound | node/src/storage.rs:203-205 | the node's own block format meets what the theorems below ask of a format |
| Node.EveryRunConsistent | node/src/network.rs:383-417 | over every run of receives, seals, faults and restarts on any initial disk, of a process that is up or has stopped itself: a healthy file is exactly its chain, a poisoned one is that chain and a prefix of the one failed write |
| Node.StepConsistent | node/src/network.rs:383-417 | each event keeps that |
| Node.HealthyRestart | node/src/storage.rs:426-436 | a healthy process, up or stopped, restarts into exactly the chain it had and changes nothing on disk |
| Node.FailedRestart | node/src/storage.rs:426-436 | after a failed append, exactly which byte counts make a restart find the chain, the chain with the failed block, or refuse |
| Node.RestartAnywhere | node/src/storage.rs:426-436 | at every point of every run after a process came up, also after it stopped itself: a restart refuses, finds its chain, or that chain and one more valid block; with a healthy store exactly its chain |
| Node.SealRestart | node/src/main.rs:667-720 | after a sealing turn of a healthy node with any fault at any byte a restart refuses, finds the chain from before, or the sealed chain; a turn that goes on has the sealed chain in memory and on disk |
| Node.PersistFinds | node/src/network.rs:383-417 | the same for one block written behind a healthy file |
| Node.RunningNodeConsistent | node/src/main.rs:528-538 | the run invariant for the node with its real rules, encoding and checksum |
| Durability.DurableIffNoSilentCut | node/src/storage.rs:234-278 | over every run with any faults and restarts: no committed block, and none that a restart would have found, is ever lost in memory or behind a later restart, if and only if no repair write was cut where the shorter file still loads |
| Durability.DurableWhenRepairsComplete | node/src/storage.rs:274-275 | when every repair write completes nothing is ever lost |
| Durability.RepairCutRun | node/src/storage.rs:274-275 | a run that comes up with the genesis chain although its disk held a longer one |
| Durability.SilentCutLoses | node/src/storage.rs:274-275 | every silent cut makes the next restart come up with fewer blocks |
| Durability.RunningNodeDurable | node/src/main.rs:528-538 | the exact durability condition for the node with its real rules, encoding and checksum |
| Node.NodeInner.AppendNetworkBlockPersist | node/src/network.rs:383-417 | stored exactly when memory and disk both took the block; on a reachable chain the rollback never fails and any other outcome leaves the chain as it was |
| Node.SealAfterHygiene | node/src/main.rs:667-720 | sealing after hygiene is never refused over a nonce |
| Node.NeverStaleInAnyRun | node/src/main.rs:667-720 | the same for every chain run and every pool run |
| Node.PoolNeverRepeatsHistory | node/src/mempool.rs:316-332 | after hygiene against a reachable chain no pool entry shares a sender and nonce with a transaction of its history |
| PendingFile.PendingCanonical | node/src/pending_tx_file.rs:34-58 | a file that parses is exactly the encoding of what it parses to |
| PendingFile.PendingRoundTrip | node/src/pending_tx_file.rs:34-70 | what the queue writes it reads back |
| PendingFile.PendingTail | node/src/pending_tx_file.rs:60-70 | what is left of a parsed file always encodes, to a suffix of the file |
| PendingFile.DrainLosesNothing | node/src/pending_tx_file.rs:158-199 | the old pool is a prefix of the new one and every consumed transaction is in the pool |
| PendingFile.DrainExact | node/src/pending_tx_file.rs:158-199 | the drain stops at the first entry the pool cannot take and not before; the new pool is the old one followed by exactly the consumed entries that were new when their turn came, in file order |
| PendingFile.InvalidCopyBlocks | node/src/pending_tx_file.rs:183-190 | an entry whose hash the pool holds but which does not validate still blocks the file |
| PendingFile.NodeDrain | node/src/pending_tx_file.rs:158-199 | with the real rules and encoding, for every readable file and every pool: nothing consumed is missing, the drain stops at the first entry the pool cannot take, and the rest encodes to a suffix of the file |
| PendingFile.ParseLoop | node/src/pending_tx_file.rs:34-58 | the parsing loop computes the specified result |
| PendingFile.Queue.Drain | node/src/pending_tx_file.rs:158-199 | on success the new file is a byte suffix of the old one and the pool took the consumed entries; on error file, queue and all three tables are as before; it fails only for an unreadable file or a failed rewrite |
| BlockIndex.WalkShape | node/src/v3/block_index.rs:97-117 | on any index a successful walk has length height + 1, heights falling by one, each block the parent of the one before |
| BlockIndex.WalkExact | node/src/v3/block_index.rs:97-117 | a walk succeeds with a path if and only if that path links the tip to a block at height 0, each entry naming the next as its parent one below |
| BlockIndex.WalkFailsExact | node/src/v3/block_index.rs:227-262 | a walk fails with an error if and only if such links lead to a block with just that fault: unknown, its own parent, parent missing, parent at the last height, or a real height mismatch |
| BlockIndex.WalkDistinct | node/src/v3/block_index.rs:97-117 | a walk repeats no block and is no longer than the index |
| BlockIndex.CycleIsSelfParent | node/src/v3/block_index.rs:97-117 | a cycle is reported only for a block that is its own parent |
| BlockIndex.PathFromTip | node/src/v3/block_index.rs:97-117 | the loop computes the walk; its step limit and its visited set never decide the result |
| BlockIndex.ForkPaths | node/src/v3/block_index.rs:122-191 | the two suffixes lead from the tips to one fork and share no block |
| BlockIndex.ForkExists | node/src/v3/block_index.rs:122-191 | a fork is found if and only if both walks succeed and share a block |
| BlockIndex.ForkFails | node/src/v3/block_index.rs:122-191 | a missing fork is blamed on the old walk, else on the new walk, else on there being no common block |
| BlockIndex.ForkIsHighest | node/src/v3/block_index.rs:122-191 | no common ancestor is higher than the fork |
| BlockIndex.ForkSymmetric | node/src/v3/block_index.rs:122-191 | swapping the tips gives the same fork with the suffixes swapped |
| BlockIndex.WalkUntilLoop | node/src/v3/block_index.rs:130-184 | the stopping walk computes the specified suffix |
| BlockIndex.ForkSlicesBetweenTips | node/src/v3/block_index.rs:122-191 | computes the specified fork slices |
| BlockIndex.ValidateBlockAncestry | node/src/v3/block_index.rs:203-225 | accepts exactly the blocks whose walk ends in a root without a parent, and otherwise reports the error of the walk or that root |
| BlockIndex.RootedExact | node/src/v3/block_index.rs:203-225 | accepted ancestry means links to a root without a parent, and conversely |
| BlockIndex.AncestryFaultExact | node/src/v3/block_index.rs:203-225 | each reported fault is there, at a block the links lead to, and each such fault is reported |
| ReorgPlan.ValidatorVersusPlanner | node/src/v3/reorg_plan.rs:57-153 | plan by plan: made by the planner over a clean root if and only if valid with no height-0 block above the fork |
| ReorgPlan.AmbiguousIndex | node/src/v3/reorg_plan.rs:89-153 | an index and a plan that validates although the planner refuses its tips |
| ReorgPlan.AmbiguousCounterexample | node/src/v3/reorg_plan.rs:89-153 | every index with a rooted empty hash and a second root has such a plan |
| ReorgPlan.DirtyRootIndex | node/src/v3/reorg_plan.rs:57-153 | an index and a plan that the planner makes although the plan does not validate |
| ReorgPlan.DirtyRootCounterexample | node/src/v3/reorg_plan.rs:57-153 | every index with a root that names a parent has such a plan |
| ReorgPlan.ValidatorExact | node/src/v3/reorg_plan.rs:57-153 | validator and planner agree on every plan if and only if every root of the index is without a parent and no rooted empty hash stands beside a second root |
| ReorgPlan.AgreeOnPlan | node/src/v3/reorg_plan.rs:57-153 | on every such index a plan validates if and only if it equals what the planner makes of its two tips |
| ReorgPlan.PlanHeights | node/src/v3/reorg_plan.rs:57-79 | in every plan the planner makes, applied minus rolled back blocks is the height difference of the tips |
| ReorgPlan.EnsureUnique | node/src/v3/reorg_plan.rs:156-170 | accepts exactly lists without repeats, and names a repeated hash |
| ReorgPlan.EnsureDisjoint | node/src/v3/reorg_plan.rs:172-182 | accepts exactly disjoint lists, and names a shared hash |
| ReorgPlan.ValidateAgainstIndex | node/src/v3/reorg_plan.rs:89-153 | accepts exactly the valid plans; every error names something wrong with the plan, and a path error is that of one of its blocks |
| Fingerprint.ListingUnique | node/src/state.rs:32-40 | a set of addresses has one sorted listing, so the table's order cannot show |
| Fingerprint.SortKeys | node/src/state.rs:32-40 | gives that listing from any iteration order |
| Fingerprint.FingerprintPreimage | node/src/v3/replay_sandbox.rs:70-85 | the buffer loop writes the specified byte form |
| Fingerprint.PreimageInjective | node/src/v3/replay_sandbox.rs:70-85 | for addresses under 2^32 bytes two ledgers have one byte form if and only if they are equal |
| Fingerprint.LessExact | node/src/v3/replay_sandbox.rs:70-85 | the address order decides at the first byte that differs, a proper prefix coming first |
| FieldLayout.PreimageLayout | node/src/v3/replay_sandbox.rs:70-85 | the byte form is the number of accounts, then address, balance and nonce of each in address order |
| Fingerprint.ReachableFingerprints | node/src/v3/replay_sandbox.rs:70-85 | so it is on every two ledgers the node can reach |
| ReplaySandbox.BlockAgrees | node/src/v3/replay_sandbox.rs:284-386 | for one block the sandbox and the chain agree, but for the key the sandbox also checks |
| ReplaySandbox.BranchAgrees | node/src/v3/replay_sandbox.rs:362-386 | a branch replays if and only if its bodies are keyed by their hashes and the chain takes them in order; the ledgers are equal |
| ReplaySandbox.VerdictExact | node/src/v3/replay_sandbox.rs:221-282 | the dry run succeeds if and only if everything is supplied, the old branch leads to the expected fingerprint, the chain takes the new branch and the supply fits; it reports the chain's ledger |
| ReplaySandbox.MissingExact | node/src/v3/replay_sandbox.rs:221-282 | a missing expected ledger and missing bodies are told before anything is replayed |
| ReplaySandbox.DryRunForetellsReorg | node/src/v3/replay_sandbox.rs:221-282 | on material from a live chain: rolling back to the fork succeeds, the dry run passes if and only if the chain then takes the new branch, and it reports that chain's fingerprint and its genesis supply less fees |
| ReplaySandbox.ApplyBlockToState | node/src/v3/replay_sandbox.rs:362-386 | performs the specified checks in order and the specified transfers |
| ReplaySandbox.ReplayOnClone | node/src/v3/replay_sandbox.rs:245-269 | the loops compute the specified branch replay on a copy |
| ReplaySandbox.RunReplayOnClones | node/src/v3/replay_sandbox.rs:221-282 | computes the specified report or error |
| Wire.BatchRoundTrip | node/src/network.rs:638-701 | a reply the server accepts decodes to the first min(64, n) blocks it was given |
| FieldLayout.BatchLayout | node/src/network.rs:638-656 | a reply is opcode 4, a count of at most 64 and each block behind its length; it is sent if and only if it fits 64 MiB |
| Wire.BatchCanonical | node/src/network.rs:657-701 | a reply that decodes holds at most 64 blocks and is the encoding of them, which the server sends exactly if it fits a frame |
| Wire.WireEncodeBlocks | node/src/network.rs:638-655 | the loop with its cap after every block computes the specified reply |
| Wire.ParseBlocksBody | node/src/network.rs:657-692 | the parsing loop computes the specified result |
| Wire.WireDecodeBlocks | node/src/network.rs:695-701 | the same behind the opcode |
| SyncLoop.LoopKeeps | node/src/network.rs:1132-1195 | whatever one ingested block keeps, the whole loop keeps against any peer; block and round counts stay in budget; each ending means what it says |
| SyncLoop.LoopCatchesUp | node/src/network.rs:1132-1195 | served by a peer that always answers with the next chunk, the loop ends caught up if and only if the budget covers the rounds, blocks and bytes of what is lacking, and then nothing is lacking |
| Sync.BatchCheckExact | node/src/network.rs:705-733 | the batch check accepts exactly linked, individually valid batches at the expected heights, which stay at the last 64-bit height once they reach it |
| Sync.AppendableIsLinear | node/src/network.rs:705-733 | whatever the chain would take passes the batch check |
| Sync.ValidateLinearBatch | node/src/network.rs:705-733 | the loop computes the specified check |
| Sync.IngestMeaning | node/src/network.rs:383-417 | one block extends the chain by itself or leaves it alone, and memory and disk stay consistent |
| Sync.SyncSafe | node/src/network.rs:1118-1213 | against any peer, clock and disk and on every way out: the chain is the starting one plus at most the budgeted blocks, rounds are in budget, memory and disk agree, caught up means an empty last reply, stopped means a cap was reached |
| SyncTrace.SyncByRounds | node/src/network.rs:1118-1213 | against any peer, clock and disk a sync is a list of rounds: a reply that is not contiguous as a whole on the tip of that round appends nothing and fails with a batch fault, any other is taken in order as far as the budget and the node allow, and each ending has its reason |
| SyncTrace.OnlyWholeBatches | node/src/network.rs:1159-1195 | blocks appended in a round are the front of a reply that is contiguous as a whole on the tip held at its start |
| SyncTrace.CheckMeaning | node/src/network.rs:705-733 | the batch check passes exactly the contiguous replies and otherwise names the fault of the first block at fault |
| SyncTrace.IngestExact | node/src/network.rs:383-417 | a block is taken only if it fits now; it is refused only for a reason if the disk works |
| SyncTrace.PullExact | node/src/network.rs:1086-1156 | a reply counts if and only if it is the frame, within 64 MiB, of its at most 64 blocks, asked for from one above the tip |
| Sync.SyncConverges | node/src/network.rs:1118-1213 | with an honest peer and no faults the 64-block rounds end caught up if and only if the budget covers the rounds, the blocks and the bytes of the actual replies, and then the two chains are equal |
| Sync.SyncFromPeer | node/src/network.rs:1118-1213 | computes the specified run on the node, then cleans the pool against the new ledger if blocks came in and no round failed |
| Sync.SyncRounds | node/src/network.rs:1132-1195 | the loop over the node computes the specified run |
| SlotPool.ApplySane | node/src/network.rs:290-341 | each atomic step of any thread keeps the counter equal to the live permits |
| SlotPool.EveryInterleaving | node/src/network.rs:290-341 | over every interleaving of any number of threads, spurious failures included: the counter is the number of live permits, at most the maximum, and no release finds it at zero |
| SlotPool.AcquiresAlone | node/src/network.rs:290-309 | below the maximum an acquisition that runs undisturbed ends with the permit and one more slot taken |
| SlotPool.AcquiresFromStale | node/src/network.rs:290-309 | so does one under way with a stale view, after one more look |
| SlotPool.RefusedAlone | node/src/network.rs:290-309 | at the maximum it is refused and takes nothing |
| SlotPool.ReleasesAlone | node/src/network.rs:320-341 | a drop that runs undisturbed gives its slot back, wherever it had been interrupted |
| SlotPool.TakeThenDrop | node/src/network.rs:290-341 | taking a permit and dropping it leaves the pool as it was |
| SlotPool.NoSlotLeaks | node/src/network.rs:320-341 | the counter is zero exactly when no permit is live |
| SlotPool.RefusedWhenFull | node/src/network.rs:290-308 | an acquisition is refused exactly when the counter value it saw was the maximum |

## Left out

- Sockets, threads, timeouts, the session handshake, gossip and session quotas: input and output around the modelled logic; peers are functions that answer requests.
- The insides of SHA-256 (section 6.2 of FIPS 180-4) and Ed25519 (section 5.1 of RFC 8032): any functions of the right shape.
- TOML files, data directories, file locks, fsync and rename: operating-system effects, replaced by the fault parameters above.
- The command line, operator messages, the wallet and the `dev-test-ui` crate: user interface. Error texts are enumerations here.
- `seen.rs`, `peer_book.rs`, `v3/branch_select.rs`, `v3/reorg_preflight.rs` and `run_report` around the sandbox: they would only add easy members.
- The genesis commitment text and the deprecated `ancestors_to_height_zero`: the first is not injective, the second is documented as unchecked.
- `state_mut`, `create_account`, `ordered_candidates` and `append_block_from_mempool`: mutators outside the reachable states, and thin wrappers.
- The `address` field inside an account: it always repeats the key of the table.
- Wrap-around of `tip.height + 1` at the last 64-bit height, which the node does not check: heights are unbounded in that sum.
- The sort in the genesis loader: modelled as its check for repeated addresses, because the table forgets the order.
- Atomics weaker than sequentially consistent: the slot counter uses none.
- BlockFile.ParseFramesPrefix: one method with a layout parameter stands for the legacy and the V2 parser, which differ only in the checksum.
- CursorCodec.EncodeTransaction: requires lengths that fit 32 bits, because the encoder panics otherwise.
- CursorCodec.EncodeBlockBytes: requires lengths that fit 32 bits, because the encoder panics otherwise.
- Wire.WireEncodeBlocks: requires that the encoder can print the blocks it sends, for the same reason.
- Node.NodeInner.AppendNetworkBlockPersist: requires a block that the encoder can print, which every decoded block is.
- Blockchain.Blockchain.AppendFromMempoolPendingRemoval: requires a tip below the last 64-bit height, because the height increment is unchecked.
- PendingFile.DrainLosesNothing: requires a transaction check that never answers "duplicate", which PendingFile.StandardNeverDuplicate proves of the node's own.
- PendingFile.DrainExact: the same hypothesis, for the same reason.
- Fingerprint.PreimageInjective: speaks of addresses under 2^32 bytes, because the length field keeps 32 bits; Fingerprint.ReachableFingerprints covers every reachable ledger, whose addresses are at most 128 bytes long.
