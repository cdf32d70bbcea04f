# Verified model of the multichain projections

This project models the state machines of multichain-rs that turn ordered observations of several
blockchains into durable records and reversible projections, and proves what they promise over whole
runs.  Check it with `dafny verify dfyconfig.toml` (Dafny 4.11).

What is modelled, by component:

- **Bitcoin canonicality** (`BlockWork`, `DagSpec`, `Dag`, `DagAcceptance`, `UtxoSpec`, `UtxoValue`, `UtxoOverflow`,
  `UtxoRefusals`, `UtxoEvents`, `Utxo`, `BitcoinSpec`, `BitcoinRuns`, `BitcoinLog`, `BitcoinState`): the block tree with heaviest-chain selection, the UTXO map with its undo
  journals, and the transaction that keeps the two in step.
- **Write-ahead log and source capture** (`WalFormat`, `WalLog`, `WalRecovery`, `WalSound`, `WalTornTail`, `WalSpec`,
  `WalRuns`, `WalWitness`, `Wal`, `SourceCapture`): the byte format, the writer, recovery from every cut, crashes
  inside every operation, and the capture protocol that hands out only committed records.
- **Solana canonicality** (`SolanaSpec`, `SolanaRuns`, `SolanaReplay`, `SolanaAcceptance`,
  `Solana`): the fork graph,
  commitments and deaths, and the account map that is moved between forks with undo logs.
- **Ethereum and BSC canonicality** (`ExecutionChain`, `ExecutionAncestry`, `ExecutionAcceptance`,
  `EthereumSpec`, `BscSpec`, `FinalityAcceptance`, `Evm`):
  canonical index, reorganisations, ancestry, checkpoints and finality.
- **Bitcoin mempool** (`SetOrder`, `TxidOrder`, `MempoolGraphSpec`, `MempoolHistory`, `MempoolGraph`,
  `ObserverSpec`, `Observer`): the package
  graph with its conflict index, and membership epochs with snapshot convergence.
- **Lineage**, **alerts** and the **pagination cursor** (`Lineage`, `AlertSpec`, `Alert`, `Cursor`).

For each operation a theorem says exactly what it accepts, in terms of blocks, paths, bytes and histories and
not of the checks themselves, and for each service that emits a log a theorem says that the log rebuilds the
state.

Each stateful component appears twice: as functions on values, about which the run-level theorems are
proved, and as a class whose methods change fields in place and are proved equal to those functions.

Cryptographic digests, checksums, protobuf encoding, proof of work and retargeting are function-valued
parameters.  The log theorems ask of the codec that decoding inverts encoding for the values the writer
can hold and that a commit fits the space reserved for it; `WalWitness` exhibits such a codec.  A hash
names one block: `HashesIdentify` for Bitcoin and `Identified` for execution blocks say so where it is
needed, the latter also that hashes do not go round in circles, each being computed from its parent's.

Where the code does not do what one would expect, the model follows the code, and the exact condition
is a theorem: `UtxoOverflow.AtomicIffNoOverflow`, `SolanaReplay.RunReplaysIff`,
`EthereumSpec.FinalizedForever`, `ExecutionAncestry.OneEntryPerBlockIff` and `Cursor.EncodeDecodeIff`,
each with a concrete run or text that shows the exception.

## Model

| member | source | states |
|---|---|---|
| BitcoinRuns.RunIsReplay | processors/bitcoin-canonicality/src/state.rs:52-76 | after any sequence of observed blocks, accepted or refused and with any reorganisations, the UTXO state is the replay of the canonical chain from nothing, and the stack of applied blocks is that chain |
| BitcoinRuns.SameTipSameState | processors/bitcoin-canonicality/src/state.rs:52-76 | two runs that end at the same tip hold the same UTXO state, whatever came before (a block hash names one block) |
| BitcoinRuns.StepKeepsInv | processors/bitcoin-canonicality/src/state.rs:52-76 | every observed block keeps tree, tip and projection in step; a refused block changes nothing at all |
| BitcoinRuns.StepErrors | processors/bitcoin-canonicality/src/state.rs:58-71 | the errors of a broken tree, a misplaced connect, an out-of-order disconnect and a missing retarget boundary are unreachable; what remains is a bad header, or the ledger refusal of a block on the chain that would become canonical, on the exact replay of that chain below it |
| BitcoinRuns.NoInconsistencyWhileSupplyFits | processors/bitcoin-canonicality/src/state.rs:58-71 | in every run, while the coinbases on the chain that would become canonical fit in 64 bits, no inconsistent projection is met and a refusal names the reason the transactions of a block on that chain failed |
| BitcoinSpec.DriveRefusals | processors/bitcoin-canonicality/src/state.rs:58-71 | corrections go down and then up, so driving them can only stop at a block of the chain they lead to, on the replay of that chain below it |
| BitcoinRuns.RefusalErrors | processors/bitcoin-canonicality/src/state.rs:58-71 | a block that extends the replay is refused only for a ledger reason, and an inconsistent undo is met only after an input-sum overflow |
| BitcoinRuns.RunConservesValue | processors/bitcoin-canonicality/src/state.rs:52-76 | in every run the unspent total plus the fees paid along the canonical chain equals the coinbase outputs created on it, and the fees are not negative |
| BitcoinRuns.TipIsFirstHeaviest | processors/bitcoin-canonicality/src/dag.rs:45-84 | in every run the canonical tip is the earliest accepted block among those of maximal cumulative work |
| BitcoinLog.LogRebuildsState | processors/bitcoin-canonicality/src/state.rs:52-76 | a consumer that reads the updates of any run, from them alone, holds the canonical chain with its heights and the UTXO map, and the updates are numbered 1, 2, 3, … up to the largest number |
| BitcoinLog.DriveInforms | processors/bitcoin-canonicality/src/state.rs:58-71 | each correction is answered by the update that carries it, and its events are what the projection has to tell |
| DagAcceptance.EntersIff | processors/bitcoin-canonicality/src/dag.rs:45-84 | an unknown block enters the tree if and only if it has valid work for its own target and for the one demanded by the chain of its parent, it is genesis or has a known, nonzero parent below height 2^32-1, and its cumulative work is below 2^256 |
| DagAcceptance.RefusedFor | processors/bitcoin-canonicality/src/dag.rs:106-153 | each refusal of an unknown block, if and only if its condition |
| DagAcceptance.RunIsWorked | processors/bitcoin-canonicality/src/dag.rs:45-84 | in every run every block of the tree has valid work for its own target and for the demanded one |
| DagAcceptance.SeenAgain | processors/bitcoin-canonicality/src/dag.rs:50-52 | a block seen again changes nothing |
| BitcoinRuns.Run | processors/bitcoin-canonicality/src/state.rs:52-76 | every reachable state satisfies the joint invariant of tree and projection |
| BitcoinSpec.DriveReplays | processors/bitcoin-canonicality/src/state.rs:58-71 | driving corrections through the projection keeps it equal to the replay of the folded chain, and fails only where a block is refused on such a replay |
| BitcoinSpec.DisconnectReplays | processors/bitcoin-canonicality/src/state.rs:58-71 | disconnecting the top of a chain gives exactly the replay of the chain below it |
| BitcoinState.BitcoinState.ObserveBlock | processors/bitcoin-canonicality/src/state.rs:52-76 | clones, drives all corrections, and swaps both clones in or keeps both originals: equal to the specification step |
| BitcoinState.BitcoinState.ApplyTransitions | processors/bitcoin-canonicality/src/state.rs:58-71 | the loop over transitions stops at the first failure and otherwise collects all updates in order |
| DagSpec.ObserveKeepsInv | processors/bitcoin-canonicality/src/dag.rs:45-84 | observing any block keeps the tree sound, its works summed, its tip heaviest, and everything already in it |
| DagSpec.ObserveCorrects | processors/bitcoin-canonicality/src/dag.rs:155-196 | the emitted corrections lead from the old canonical chain to the new one |
| DagSpec.FoldCorrections | processors/bitcoin-canonicality/src/dag.rs:155-196 | popping for each disconnect and pushing for each connect, at the heights they name, turns the old chain into the new one |
| DagSpec.ObserveTouchesDifferences | processors/bitcoin-canonicality/src/dag.rs:155-196 | what is disconnected is on the old chain only, and what is connected on the new one only |
| DagSpec.ObserveErrors | processors/bitcoin-canonicality/src/dag.rs:106-153 | a sound tree never reports itself inconsistent and never misses a retarget boundary |
| DagSpec.WorkIsChainWork | processors/bitcoin-canonicality/src/dag.rs:62-73 | the cumulative work of a node is the sum of the works along its ancestry |
| DagSpec.ChainLinks | processors/bitcoin-canonicality/src/dag.rs:66-73 | a chain starts at genesis, every block names its predecessor, and the height of a node is its distance from genesis |
| DagSpec.SharedBlocks | processors/bitcoin-canonicality/src/dag.rs:155-196 | a block on two chains sits at one place on both: the shared blocks are exactly the common prefix |
| CanonicalityState.CanonicalityState.ObserveBlock | processors/bitcoin-canonicality/src/dag.rs:45-84 | validates, inserts and reorganises in place: result and new state equal the specification |
| CanonicalityState.CanonicalityState.ValidateCandidateContext | processors/bitcoin-canonicality/src/dag.rs:106-153 | finds height, parent work and required target, or the error the source gives |
| CanonicalityState.CanonicalityState.ReorganizeTo | processors/bitcoin-canonicality/src/dag.rs:155-196 | emits disconnects from the old tip down to the lowest common ancestor, then connects up to the new tip, numbered consecutively |
| CanonicalityState.CanonicalityState.AncestorSet | processors/bitcoin-canonicality/src/dag.rs:198-208 | the cursor loop returns exactly the blocks of the chain |
| CanonicalityState.CanonicalityState.AncestorAtHeight | processors/bitcoin-canonicality/src/dag.rs:210-224 | the cursor loop returns the block of the chain at that height |
| BlockWork.CheckedAdd | crates/bitcoin-domain/src/block.rs:144-153 | the byte-wise carry loop returns a value exactly when the integer sum is below 2^256, and then it denotes that sum |
| BlockWork.SumIsUnique | crates/bitcoin-domain/src/block.rs:144-153 | a 32-byte sum is determined by its operands |
| BigEndian.LexOrderIsIntegerOrder | crates/bitcoin-domain/src/block.rs:13-14 | the derived lexicographic byte order coincides with the integer order |
| BigEndian.ToBytesRoundTrip | crates/bitcoin-domain/src/block.rs:13-14 | every integer below 256^k has exactly one k-byte big-endian form |
| UtxoSpec.RevertAllUndoesApplyAll | processors/bitcoin-canonicality/src/utxo.rs:92-170 | reverting is the exact inverse of applying for stacks of blocks of any depth, including outputs created and spent in one block |
| UtxoSpec.RevertUndoesApply | processors/bitcoin-canonicality/src/utxo.rs:92-170 | reverting the block just applied restores the state exactly |
| UtxoSpec.AtomicIffNoInputSumOverflow | processors/bitcoin-canonicality/src/utxo.rs:92-121 | a refused block leaves the state unchanged if and only if it is not refused for an overflowing input sum, and otherwise exactly which entry is lost or where undoing gets stuck |
| UtxoOverflow.AtomicIffNoOverflow | processors/bitcoin-canonicality/src/utxo.rs:92-121 | a block is atomic if and only if no input of it is one that takes the sum of the spendable inputs before it over 2^64-1 after valid transactions; at such an input an older entry is lost, or undoing gets stuck on it when the block itself made it |
| UtxoOverflow.SupplyFitsIsAtomic | processors/bitcoin-canonicality/src/utxo.rs:92-121 | a block is atomic whenever the unspent total plus what its coinbases create fits in 64 bits |
| UtxoOverflow.OverflowLosesAnEntry | processors/bitcoin-canonicality/src/utxo.rs:199-230 | from nothing, two concrete blocks of which the second is refused and loses an entry of the first |
| UtxoOverflow.OverflowGetsStuck | processors/bitcoin-canonicality/src/utxo.rs:279-301 | from nothing, a concrete block whose undoing gets stuck on an output it made itself |
| UtxoOverflow.ValidTxsApply | processors/bitcoin-canonicality/src/utxo.rs:192-277 | the transactions of a block go through exactly when each is valid on what the ones before leave, and what remains is that |
| UtxoSpec.ApplyTxIsValidTx | processors/bitcoin-canonicality/src/utxo.rs:192-277 | a transaction goes through exactly when it is valid, and then removes exactly its prevouts and adds exactly its outputs |
| UtxoSpec.JournalInverts | processors/bitcoin-canonicality/src/utxo.rs:279-301 | running the undo journal backwards restores the map before the block, except for an entry lost to an overflow |
| UtxoEvents.ReadBlock | processors/bitcoin-canonicality/src/utxo.rs:192-277 | reading the events of an accepted block over the map before it gives the map after it: a spend takes what is there, a creation is new |
| UtxoEvents.BlockEventsAre | processors/bitcoin-canonicality/src/utxo.rs:223-269 | a block emits one event per input and output; each spend names the transaction and input position that hold the outpoint, each creation its output |
| UtxoEvents.RevertAnswers | processors/bitcoin-canonicality/src/utxo.rs:128-170 | reverting a block emits the answers to its events in reverse order, with the same outpoint, transaction and index |
| UtxoEvents.RevertInforms | processors/bitcoin-canonicality/src/utxo.rs:128-170 | reading the events of a revert puts back what was spent last |
| UtxoRefusals.AppliesIff | processors/bitcoin-canonicality/src/utxo.rs:92-121 | a block is applied if and only if it is on top already, or follows the top and its transactions are valid one after the other |
| UtxoRefusals.RefusalMeans | processors/bitcoin-canonicality/src/utxo.rs:92-121 | a refusal is that of a misplaced block or of the first transaction that fails, with its place and amounts |
| UtxoSpec.NoInputFailureIffSpendable | processors/bitcoin-canonicality/src/utxo.rs:199-230 | no input fails exactly when the inputs are spendable together |
| UtxoValue.BlockConservesValue | processors/bitcoin-canonicality/src/utxo.rs:199-275 | for an accepted block, unspent value after plus fees equals value before plus coinbase outputs, with every fee non-negative |
| UtxoValue.TxConservesValue | processors/bitcoin-canonicality/src/utxo.rs:199-275 | the same for one transaction |
| UtxoState.UtxoState.ApplyBlock | processors/bitcoin-canonicality/src/utxo.rs:92-121 | in-place application with a journal and rollback on failure equals the specification, events included |
| UtxoState.UtxoState.RevertBlock | processors/bitcoin-canonicality/src/utxo.rs:128-170 | in-place revert in reverse order equals the specification |
| UtxoState.UtxoState.ApplyTransactions | processors/bitcoin-canonicality/src/utxo.rs:192-277 | the nested loops over transactions, inputs and outputs equal the specification fold |
| UtxoState.UtxoState.RollbackPartial | processors/bitcoin-canonicality/src/utxo.rs:279-301 | the reverse loop over the journal equals the specification, including where it gets stuck |
| WalRecovery.RecoverCut | crates/wal/src/recovery.rs:67-238 | for every log the writer can have produced and every byte position at which its file is cut, recovery succeeds and returns exactly what the records wholly before the cut commit, and reports a truncated or uncommitted tail exactly when there is one |
| WalRecovery.RecoverPreallocated | crates/wal/src/recovery.rs:67-238 | a whole log in a zero-filled segment is recovered whole |
| WalTornTail.RecoverTornZeros | crates/wal/src/recovery.rs:67-238 | when a proper part of the next record was written in front of zeros: with a bad checksum a torn observation is dropped and the exact committed list recovered, a torn commit or seal is a corrupt frame at its offset; with a checksum that matches by chance nothing is lost, reordered or invented |
| WalWitness.FixedWidthIsLawful | crates/wal/src/format.rs:29-71 | the laws asked of the codec are satisfiable: a concrete fixed-width codec meets them |
| WalWitness.UsableWithLog | crates/wal/src/writer.rs:81-137 | a usable configuration exists, with a log of an observation, its commit and a seal |
| WalRecovery.FramesProcessed | crates/wal/src/recovery.rs:95-206 | processing the frames of a log rebuilds exactly the view the writer has of it |
| WalRecovery.CommitIsAccepted | crates/wal/src/recovery.rs:240-299 | the commit the writer builds is one that validation accepts |
| WalRecovery.FramesScanned | crates/wal/src/reader.rs:19-95 | scanning a file that starts with a rendered log finds exactly its frames, then whatever follows |
| WalSound.RecoversIff | crates/wal/src/recovery.rs:67-299 | recovery accepts any file if and only if its frames are all in order: every commit decodes to the session, range, places and digest of exactly the good, gapless observations since the previous one, a seal to the digest of everything before; the result is the groups of the commits one after the other, the next number, the seal and the report |
| WalSound.RefusalSays | crates/wal/src/recovery.rs:95-299 | a refused file is refused for its first frame out of order: a bad checksum before a commit by its place, the first gap of an otherwise fitting commit by the place behind it, what does not decode as such, anything else as a corrupt frame |
| WalSound.OversizedIsRefused | crates/wal/src/reader.rs:39-47 | a length above the limit is refused as corrupt at its place, whatever lies before it |
| WalSound.NothingBadIsCommitted | crates/wal/src/recovery.rs:148-150 | in an accepted file no observation with a bad checksum lies before a commit |
| WalSound.CorruptionIsReported | crates/wal/src/recovery.rs:122-150 | any change of the payload or checksum of a committed observation that makes its checksum fail is reported as committed corruption at its offset |
| WalSound.ScannedIff | crates/wal/src/reader.rs:19-95 | scanning finds, in any file, the frames its bytes hold side by side and how they stop |
| WalFormat.ScanFile | crates/wal/src/reader.rs:19-95 | the parser loop equals the recursive specification of scanning on every file |
| WalFormat.HashPrefix | crates/wal/src/reader.rs:97-112 | hashing a prefix in 8 KiB chunks feeds exactly its bytes to the digest |
| WalFormat.ReadWritten | crates/wal/src/format.rs:29-48 | a frame written at an offset is read back whole with a valid checksum |
| WalFormat.ReadCut | crates/wal/src/reader.rs:19-95 | a frame cut short by the end of the file is recognised as cut, wherever the cut is |
| WalFormat.EncodeFrame | crates/wal/src/format.rs:29-48 | the encoder produces type, length, payload and checksum, and refuses payloads over the bound |
| WalLog.CalculateCommitHash | crates/wal/src/format.rs:50-71 | the digest loop of writer and recovery computes the specified commit hash |
| WalLog.Numbering | crates/wal/src/writer.rs:228-274 | committed and pending observations are numbered 0, 1, 2, … without gaps |
| WalLog.CommittedPrefix | crates/wal/src/writer.rs:276-326 | what is committed stays committed as the log grows |
| WalLog.CountBound | crates/wal/src/writer.rs:228-274 | a segment below 2^64 bytes can never exhaust the 64-bit sequence numbers |
| WalSpec.CommitFits | crates/wal/src/writer.rs:276-326 | the space that every append reserves is always enough for the commit record |
| WalSpec.AcceptedIff | crates/wal/src/writer.rs:158-326 | an append, a commit or a seal is accepted if and only if the longer log is one the writer can produce and fits, an append with 512 bytes left for its commit |
| WalSpec.RecoverSurvivor | crates/wal/src/recovery.rs:67-238 | recovery from anything a crash can leave of a log returns exactly its committed part |
| WalSpec.KeptFacts | crates/wal/src/writer.rs:81-137 | the log that reopening continues with is exactly the one whose bytes it keeps |
| WalRuns.CommittedOnlyGrows | crates/wal/src/writer.rs:81-137 | over any run of appends, commits, seals, crashes anywhere, also inside a commit or a seal, and reopenings, the committed list only grows and is numbered from 0 without gaps |
| WalRuns.AcknowledgedForever | crates/wal/src/writer.rs:276-326 | everything pending when a commit was acknowledged stays committed for the rest of any run, at its place and with its stamp |
| WalRuns.CommitCrash | crates/wal/src/writer.rs:276-326 | after a crash inside a commit the committed list is the old one, or, exactly when the commit record survived whole, the old one and everything pending |
| WalRuns.SealCrash | crates/wal/src/writer.rs:158-172 | after a crash inside a seal the log is sealed, exactly when the record survived whole, or as it was |
| WalRuns.ReopeningIsRecovery | crates/wal/src/writer.rs:81-137 | what a run takes a reopening to be is what recovery finds in the surviving bytes: committed list, end, next number and seal |
| WalRuns.DiscardedStaysDiscarded | crates/wal/src/writer.rs:81-137 | what a reopening discarded never comes back: the reopened log stays in front of everything later |
| WalRuns.StepKeepsInv | crates/wal/src/writer.rs:228-326 | every event keeps the invariant and never shortens or changes what is committed |
| WalRuns.CrashKeepsCommitted | crates/wal/src/writer.rs:81-137 | a crash that keeps the synced bytes leaves the committed list as it was |
| WalRuns.CutSurvives | crates/wal/src/writer.rs:81-137 | every file a run can leave at a crash is one that reopening is proved for |
| Wal.FileWal.Open | crates/wal/src/writer.rs:81-137 | on every file: the capacity errors, an error exactly when recovery errs and then that error, otherwise the fields recovery found over the file reset behind its end; on a surviving segment writing continues with exactly the kept log |
| Wal.FileWal.Append | crates/wal/src/writer.rs:228-274 | an accepted append writes one frame, leaves room for its commit, and is refused in exactly the specified cases without effect |
| Wal.FileWal.GroupCommit | crates/wal/src/writer.rs:276-326 | one commit record makes all pending observations durable, or nothing changes |
| Wal.FileWal.SealSegment | crates/wal/src/writer.rs:158-172 | the seal carries the digest of everything before it, and closes the segment |
| Wal.FileWal.ReadCommitted | crates/wal/src/writer.rs:328-331 | reading back from the bytes gives exactly the committed list |
| Wal.RecoverFile | crates/wal/src/recovery.rs:67-93 | the recovery loop over frames equals the specification on every file |
| Wal.ReopenedSurvivor | crates/wal/src/writer.rs:81-137 | reopening what a crash left continues with exactly what reopening keeps of the log |
| SourceCapture.NeverTwoRecordsOneNumber | crates/source-capture/src/lib.rs:276-348 | over any run of captures, crashes between and inside them, and resumptions at whatever number, no two records are handed out under one sequence number, and each is in the committed list |
| SourceCapture.NumbersNeverReused | crates/source-capture/src/lib.rs:276-348 | a record handed out later has a number that was not committed at any earlier moment |
| SourceCapture.CrashInTakeKeeps | crates/source-capture/src/lib.rs:276-348 | a crash inside a capture leaves the committed list as it was, or with exactly the one record it was writing |
| SourceCapture.UnreturnedStaysUnreturned | crates/source-capture/src/lib.rs:276-348 | a record that such a crash left committed but unreturned is never handed out, nor is its number |
| SourceCapture.HandedOutIsCommitted | crates/source-capture/src/lib.rs:276-348 | a record is handed out exactly when the log has just committed it, alone, as its next entry; a refusal that does not poison changes nothing |
| SourceCapture.CapturedIff | crates/source-capture/src/lib.rs:276-348 | a message is captured if and only if it is within bounds, the log can take its observation next and nothing else is pending; one out of bounds changes nothing, any other failure poisons |
| SourceCapture.RefusedFor | crates/source-capture/src/lib.rs:276-305 | each refusal before anything is written, if and only if its condition |
| SourceCapture.LiveKeepsInv | crates/source-capture/src/lib.rs:276-348 | every capture, crash and resumption keeps the records handed out strictly increasing in number, each at its own number in the committed list |
| SourceCapture.DurableSourceCapture.TakeMessage | crates/source-capture/src/lib.rs:276-348 | the capture protocol over the log object, with sequence and poison flag, equals the specification |
| SolanaRuns.RunIsReplay | processors/solana-canonicality/src/lib.rs:362-509 | in every run whose accepted writes go to the active tip or to forks off the active path, the account map is the replay of all recorded writes from the root to the active tip |
| SolanaReplay.ReplaysIff | processors/solana-canonicality/src/lib.rs:362-509 | in every state that keeps the invariant, the account map is the replay of all recorded writes if and only if on the active path the last applied write of each account is the last recorded one, or says the same |
| SolanaReplay.RunReplaysIff | processors/solana-canonicality/src/lib.rs:182-509 | over every run, the map replays after an event if and only if the state before met the condition of that event: a write, a switch, a death or any other |
| SolanaReplay.WriteReplaysIff | processors/solana-canonicality/src/lib.rs:362-396 | the condition of an accepted write, account by account: it goes to the tip, or is hidden above or off the path and the account was current, or the map already holds its value |
| SolanaReplay.SwitchReplaysIff | processors/solana-canonicality/src/lib.rs:408-451 | the condition of a switch: each account is recorded on a fork that comes onto the path or is current on the forks that stay |
| SolanaReplay.DeathReplaysIff | processors/solana-canonicality/src/lib.rs:273-326 | the condition of a death: that of the switch to the parent when the projection has to move, and otherwise none |
| SolanaReplay.HiddenWriteSurfaces | processors/solana-canonicality/src/lib.rs:362-451 | a concrete run in which an ancestor write that a later fork hides is missing after a switch back |
| SolanaReplay.AncestorWriteIsLost | processors/solana-canonicality/src/lib.rs:362-396 | a concrete run in which a write to the parent of the active tip never reaches the map |
| SolanaAcceptance.VersionsRise | processors/solana-canonicality/src/lib.rs:362-396 | in every run the versions of the writes recorded on each fork rise strictly |
| SolanaAcceptance.WriteAcceptedIff | processors/solana-canonicality/src/lib.rs:362-396 | in every run a write is accepted if and only if its fork is known and not dead and every write recorded on it has a smaller version; each refusal if and only if its condition, without effect |
| SolanaAcceptance.RecordedIsHistory | processors/solana-canonicality/src/lib.rs:362-396 | a fork has recorded exactly the writes that came while it was live and newer than all before, in order |
| SolanaAcceptance.SlotAcceptedIff | processors/solana-canonicality/src/lib.rs:182-223 | a slot is accepted if and only if it is known with that parent, or the first of all, or its parent is known, live and at a smaller slot; nothing else changes |
| SolanaAcceptance.SlotRefusedFor | processors/solana-canonicality/src/lib.rs:182-223 | each refusal of a slot, if and only if its condition |
| SolanaAcceptance.CommitmentAcceptedIff | processors/solana-canonicality/src/lib.rs:231-264 | a commitment is accepted if and only if the fork is known and has it or can rise to it, and then only that fork changes |
| SolanaAcceptance.CommitmentRefusedFor | processors/solana-canonicality/src/lib.rs:231-264 | each refusal of a commitment, if and only if its condition |
| SolanaAcceptance.DeathAcceptedIff | processors/solana-canonicality/src/lib.rs:273-326 | a fork dies if and only if it is known and neither it nor a descendant is finalized; exactly it and its descendants are then dead and the projection has left them |
| SolanaAcceptance.SwitchAcceptedIff | processors/solana-canonicality/src/lib.rs:398-406 | a switch is accepted if and only if its target is known and not dead |
| SolanaAcceptance.LogTellsCommitments | processors/solana-canonicality/src/lib.rs:231-326 | commitment revisions are numbered 1, 2, 3, … without gaps, and the last one that names a live fork says its commitment |
| SolanaRuns.Run | processors/solana-canonicality/src/lib.rs:182-326 | in every reachable state the tree is sound, dead forks are closed under descendants, the active tip is live, and forks off the active path have nothing applied |
| SolanaRuns.AncestorsOfLiveAreLive | processors/solana-canonicality/src/lib.rs:273-326 | no ancestor of a live fork, in particular of a finalized one, is dead |
| SolanaRuns.FateIsFinal | processors/solana-canonicality/src/lib.rs:231-326 | a finalized fork stays finalized and a dead one dead for the rest of any run |
| SolanaSpec.ParentIsLive | processors/solana-canonicality/src/lib.rs:301-314 | moving the projection to the parent inside a death can never fail |
| SolanaRuns.VacatedAvoids | processors/solana-canonicality/src/lib.rs:301-314 | after that move the active path does not meet the dying subtree |
| SolanaSpec.PathGrows | processors/solana-canonicality/src/lib.rs:453-461 | slots grow along a path, so walks to the root terminate and meet no fork twice |
| SolanaSpec.SharedForks | processors/solana-canonicality/src/lib.rs:428-433 | a fork on two paths is at one place on both: the shared forks are the common prefix |
| SolanaCanonicality.UnwindUndoesWrites | processors/solana-canonicality/src/lib.rs:482-509 | an undo log run backwards is the exact inverse of the writes it was made for |
| SolanaCanonicality.SwitchedIsActivated | processors/solana-canonicality/src/lib.rs:408-451 | reverting down to the common fork and applying up to the target is the declarative switch: shared forks keep what they have, the others get all or nothing |
| SolanaCanonicality.SolanaCanonicality.ActivateOptional | processors/solana-canonicality/src/lib.rs:408-451 | the account map and undo logs are moved in place; new state equals the switch, refusals change nothing, and the map stays the fold of applied writes along the path |
| SolanaCanonicality.SolanaCanonicality.RecordAccountWrite | processors/solana-canonicality/src/lib.rs:362-396 | records always, applies only on the active tip, refuses without effect |
| SolanaCanonicality.SolanaCanonicality.MarkDead | processors/solana-canonicality/src/lib.rs:273-326 | vacates, then marks exactly the subtree dead; the revision overflow after the change is kept as it is |
| SolanaCanonicality.SolanaCanonicality.ObserveCommitment | processors/solana-canonicality/src/lib.rs:231-264 | commitments only rise; result and new state equal the specification |
| SolanaCanonicality.SolanaCanonicality.ObserveSlot | processors/solana-canonicality/src/lib.rs:182-223 | adds a leaf or refuses; the account map does not change |
| SolanaCanonicality.SolanaCanonicality.PathToRoot | processors/solana-canonicality/src/lib.rs:453-461 | the parent loop returns the path from tip to root |
| SolanaCanonicality.SolanaCanonicality.IsAncestor | processors/solana-canonicality/src/lib.rs:511-513 | true exactly for the forks on the path to the root |
| SolanaCanonicality.SolanaCanonicality.RevertNode | processors/solana-canonicality/src/lib.rs:490-509 | runs the undo log of one fork from its end and clears it |
| SolanaCanonicality.SolanaCanonicality.ApplyNode | processors/solana-canonicality/src/lib.rs:463-480 | applies all recorded writes of one fork and keeps their undo log |
| EthereumSpec.Run | processors/evm-canonicality/src/lib.rs:115-274 | in every reachable state, block numbers up to 2^64-1 included, the canonical index is a contiguous run of known blocks up to the head, each leading to the one below by parent links, and head, safe and finalized lead to one another in that order |
| EthereumSpec.FinalizedForever | processors/evm-canonicality/src/lib.rs:155-274 | once finalized, a block is an ancestor of the head and of every later finalized block for ever; it is in the canonical index if and only if it is not numbered 2^64-1 or is the head |
| EthereumSpec.FinalizedLeavesIndex | processors/evm-canonicality/src/lib.rs:115-146 | a concrete run in which a finalized block numbered 2^64-1 leaves the canonical index |
| EthereumSpec.CheckpointsAreAncestors | processors/evm-canonicality/src/lib.rs:226-274 | in every reachable state finalized is an ancestor of safe, if set, and both of the head, each canonical if and only if it is not numbered 2^64-1 or is the head |
| EthereumSpec.LogRebuildsState | processors/evm-canonicality/src/lib.rs:115-274 | revisions of a whole run are numbered 1, 2, 3, …; folding its head and reorged revisions rebuilds the canonical index; its last finalized revision names the finalized block, and its last safe revision the safe block while there is one |
| BscSpec.Run | processors/evm-canonicality/src/lib.rs:485-611 | the same run invariant for BSC, with one finalized block; the last finality change is not after the last observation |
| BscSpec.FinalizedForever | processors/evm-canonicality/src/lib.rs:524-611 | once finalized, a BSC block is an ancestor of the head and of every later finalized block for ever; it is in the canonical index if and only if it is not numbered 2^64-1 or is the head |
| BscSpec.FinalizedIsAncestor | processors/evm-canonicality/src/lib.rs:524-562 | in every reachable state the finalized block is an ancestor of the head, canonical if and only if it is not numbered 2^64-1 or is the head |
| BscSpec.LogRebuildsState | processors/evm-canonicality/src/lib.rs:485-611 | revisions of a whole BSC run are numbered without gaps; folding them rebuilds the canonical index, and the last finalized revision names the finalized block |
| ExecutionAncestry.CanonicalOrder | processors/evm-canonicality/src/lib.rs:301-315 | among canonical blocks, ancestry by parent links is the order of numbers |
| ExecutionAncestry.AncestorIsCanonicalIff | processors/evm-canonicality/src/lib.rs:115-217 | an ancestor of the head is in the canonical index if and only if it is not numbered 2^64-1 or is the head |
| ExecutionAncestry.IndexIsLinked | processors/evm-canonicality/src/lib.rs:115-217 | the index has no gaps, and below 2^64-1 each entry is the parent of the next |
| ExecutionAncestry.CommitKeeps | processors/evm-canonicality/src/lib.rs:115-146 | a commit of any genuine blocks keeps the run invariant and everything known |
| ExecutionAncestry.CommitKeepsAncestor | processors/evm-canonicality/src/lib.rs:115-146 | a commit keeps every ancestor of the head |
| ExecutionAncestry.ReorgKeeps | processors/evm-canonicality/src/lib.rs:155-217 | a reorganisation with any genuine blocks keeps the run invariant and everything known |
| ExecutionAncestry.ReorgKeepsAncestor | processors/evm-canonicality/src/lib.rs:155-217 | a reorganisation keeps every ancestor of the head that it does not remove |
| ExecutionAncestry.RemovedIsSuffix | processors/evm-canonicality/src/lib.rs:176-185 | an accepted removal is exactly the top of the canonical run |
| ExecutionAncestry.UnremovedStays | processors/evm-canonicality/src/lib.rs:186-190 | a canonical block is in the removed segment exactly when its number is not below it, and otherwise stays canonical |
| ExecutionAncestry.OneEntryPerBlockIff | processors/evm-canonicality/src/lib.rs:389-397 | an accepted commit adds one canonical entry per block if and only if no number saturates |
| ExecutionAncestry.ReorgEntriesIff | processors/evm-canonicality/src/lib.rs:199-208 | an accepted reorganisation frees one entry per removed block, and takes one per added block if and only if no number of the added segment saturates |
| ExecutionAncestry.SaturationLosesABlock | processors/evm-canonicality/src/lib.rs:389-397 | two linked blocks with the largest number are accepted and one is lost |
| ExecutionAcceptance.ReorgAcceptedIff | processors/evm-canonicality/src/lib.rs:155-217 | a reorganisation is accepted if and only if both segments are nonempty and linked, start at one number with one parent, the removed one is the top of the index without the finalized block, and, for Ethereum, no added block is the entry at its number |
| ExecutionAcceptance.ReorgRefusedFor | processors/evm-canonicality/src/lib.rs:164-196 | each refusal of a reorganisation, if and only if its condition |
| ExecutionAcceptance.ReorgIndex | processors/evm-canonicality/src/lib.rs:198-208 | afterwards the index is as before below the first number, holds the added blocks from there on, and ends at the last of them, the head |
| ExecutionAcceptance.ReorgRevisions | processors/evm-canonicality/src/lib.rs:198-207 | a reorganisation tells of each removed block from the head down, then of each added one, numbered on |
| ExecutionAcceptance.SiblingReplaces | processors/evm-canonicality/src/lib.rs:155-217 | three blocks and then a sibling in place of the last: the two revisions, the head and the index |
| ExecutionAcceptance.CommitAcceptedIff | processors/evm-canonicality/src/lib.rs:115-146 | a commit is accepted if and only if it is empty, or linked and wholly in the index already or on top of the head |
| ExecutionAcceptance.CommitIndex | processors/evm-canonicality/src/lib.rs:115-146 | a new commit sets the entries from its first number to its last and no others, and its last block is the head |
| FinalityAcceptance.CheckpointAcceptedIff | processors/evm-canonicality/src/lib.rs:226-274 | a checkpoint is accepted if and only if its blocks are canonical, head leads to safe and safe to finalized, and neither moves off its line; a revision tells of each that changed |
| FinalityAcceptance.CheckpointRefusedFor | processors/evm-canonicality/src/lib.rs:226-255 | each refusal of a checkpoint of canonical blocks, if and only if its condition |
| FinalityAcceptance.EthereumReorgAcceptedIff | processors/evm-canonicality/src/lib.rs:155-217 | the same in every run; finalized stays, and safe stays exactly when it is still canonical |
| FinalityAcceptance.ObservationAcceptedIff | processors/evm-canonicality/src/lib.rs:524-562 | a finality observation is accepted if and only if it is newer, canonical, under the head and on the line of the previous one; the time of change moves only with the finalized block |
| FinalityAcceptance.BscReorgAcceptedIff | processors/evm-canonicality/src/lib.rs:570-611 | in every run a BSC reorganisation is accepted if and only if it is replaceable; finality and its times stay |
| EvmCanonicality.IsAncestor | processors/evm-canonicality/src/lib.rs:301-315 | the parent loop terminates and decides ancestry, a block numbered 2^64-1 being only its own ancestor |
| EvmCanonicality.ValidateSegment | processors/evm-canonicality/src/lib.rs:389-397 | the window loop accepts exactly the segments whose neighbours follow each other |
| EvmCanonicality.ConnectAll | processors/evm-canonicality/src/lib.rs:139-145 | the insertion loop equals the specification fold, revisions included |
| EvmCanonicality.DisconnectAll | processors/evm-canonicality/src/lib.rs:199-202 | the removal loop, tip first, equals the specification, revisions included |
| EvmCanonicality.EthereumCanonicality.CommitSegment | processors/evm-canonicality/src/lib.rs:115-146 | exact replay is a no-op, anything else must extend the head; the run invariant, safe and finalized are kept |
| EvmCanonicality.EthereumCanonicality.Reorg | processors/evm-canonicality/src/lib.rs:155-217 | checks in order, replaces the suffix, and forgets a safe checkpoint that left the index |
| EvmCanonicality.EthereumCanonicality.CheckCheckpoint | processors/evm-canonicality/src/lib.rs:226-255 | the checks by parent walks accept exactly the checkpoints whose blocks are canonical and in number order, each the previous one or one with a larger number |
| EvmCanonicality.EthereumCanonicality.ObserveCheckpoint | processors/evm-canonicality/src/lib.rs:226-274 | moves safe and finalized and emits a revision for each change |
| EvmCanonicality.BscCanonicality.CommitSegment | processors/evm-canonicality/src/lib.rs:485-516 | exact replay is a no-op, anything else must extend the head; the run invariant and finality are kept |
| EvmCanonicality.BscCanonicality.Reorg | processors/evm-canonicality/src/lib.rs:570-611 | replaces a canonical suffix that does not hold the finalized block, also by blocks that are already canonical, and keeps the run invariant |
| EvmCanonicality.BscCanonicality.CheckObservation | processors/evm-canonicality/src/lib.rs:524-549 | the checks by parent walks accept exactly newer observations of the head with a canonical block that is the previous one or has a larger number |
| EvmCanonicality.BscCanonicality.ObserveFinalized | processors/evm-canonicality/src/lib.rs:524-562 | records the observation and the time of a finality change |
| MempoolGraph.MempoolGraph.Search | processors/bitcoin-mempool/src/graph.rs:281-291 | the breadth-first loop terminates and returns exactly the connected component |
| MempoolGraph.MempoolGraph.PackageContaining | processors/bitcoin-mempool/src/graph.rs:277-321 | the package is the component in ascending order with checked totals, or the error the source gives |
| MempoolGraph.MempoolGraph.CurrentAdjacency | processors/bitcoin-mempool/src/graph.rs:323-338 | the map holds exactly the pairs of present transactions one of which spends the other |
| MempoolGraphSpec.SameComponent | processors/bitcoin-mempool/src/graph.rs:277-291 | every member of a component has the same component |
| MempoolGraphSpec.SamePackage | processors/bitcoin-mempool/src/graph.rs:277-321 | every member of a package yields the same package |
| MempoolGraphSpec.PackageFailsIff | processors/bitcoin-mempool/src/graph.rs:293-312 | a package request of a present transaction fails exactly when the true fee or size total exceeds 2^64-1 or the size is zero; otherwise it returns the true totals |
| MempoolGraphSpec.TotalsFitIff | processors/bitcoin-mempool/src/graph.rs:293-309 | the checked fold succeeds exactly when both totals fit, and its error names a total that does not |
| MempoolGraphSpec.IndexIsHistory | processors/bitcoin-mempool/src/graph.rs:246-251 | in every run the spend index holds exactly the spends of all additions ever accepted |
| MempoolGraphSpec.ConflictsAreHistory | processors/bitcoin-mempool/src/graph.rs:208-225 | the conflicts of a new transaction are exactly the earlier accepted spenders of its inputs |
| MempoolGraphSpec.ReportedConflicts | processors/bitcoin-mempool/src/graph.rs:196-265 | an accepted addition reports those conflicts once each, in ascending order of output and spender |
| MempoolHistory.PresentIff | processors/bitcoin-mempool/src/graph.rs:196-270 | in every run a transaction is present if and only if its last accepted addition came after its last removal, and it has the inputs, fee and size of that addition |
| MempoolHistory.PackageIff | processors/bitcoin-mempool/src/graph.rs:272-338 | a transaction is in the package of another if and only if a chain of payments in either direction, all among present transactions, connects the two |
| MempoolHistory.AddAcceptedIff | processors/bitcoin-mempool/src/graph.rs:196-265 | an addition goes through if and only if it is present already, or its size fits and its evidence, if any, names another spender of one of its inputs; the classification |
| MempoolGraph.MempoolGraph.Add | processors/bitcoin-mempool/src/graph.rs:196-265 | ordered conflicts, evidence check, classification and in-place index update equal the specification |
| MempoolGraph.MempoolGraph.CheckedTotals | processors/bitcoin-mempool/src/graph.rs:293-309 | the fold stops at the first overflow |
| ObserverSpec.RunAlternates | processors/bitcoin-mempool/src/state.rs:209-266 | in every run each transaction alternates Present and Absent; both revisions of its k-th epoch carry the digest of the transaction and k, up to the counter limit, as revisions 1 and 2; members, counters and first-seen times agree with its last revision |
| ObserverSpec.SameIdentityIff | processors/bitcoin-mempool/src/state.rs:268-280 | while the digest does not collide, two revisions of a transaction share an identity exactly when they belong to one epoch, or both to epochs past the counter limit |
| ObserverSpec.SnapshotConverges | processors/bitcoin-mempool/src/state.rs:113-163 | after an accepted newer snapshot the members are exactly that snapshot |
| ObserverSpec.SnapshotReturns | processors/bitcoin-mempool/src/state.rs:113-163 | a snapshot is accepted if and only if it is newer or the last again; a newer one tells of each member that is gone, then of each that is new, in ascending order, and the log gains exactly that list |
| ObserverSpec.AddReturns | processors/bitcoin-mempool/src/state.rs:209-241 | the revision returned carries the cause and times given, and is what the log gains |
| ObserverSpec.RemoveReturns | processors/bitcoin-mempool/src/state.rs:243-260 | the same for a removal |
| ObserverSpec.SequenceOnlyGrows | processors/bitcoin-mempool/src/state.rs:120-136 | the snapshot sequence never goes back |
| ObserverMempool.ObserverMempool.ApplySnapshot | processors/bitcoin-mempool/src/state.rs:113-163 | regression, conflict, repeat and convergence equal the specification, removals before additions in ascending order |
| ObserverMempool.ObserverMempool.Add | processors/bitcoin-mempool/src/state.rs:209-241 | opens the next epoch under its digest and records its revision 1, unless present |
| ObserverMempool.ObserverMempool.Remove | processors/bitcoin-mempool/src/state.rs:243-260 | closes the epoch that was opened under its identity and records its revision 2, unless absent |
| TxidOrder.ListingAscends | processors/bitcoin-mempool/src/state.rs:138-140 | sets of transactions are visited in strictly ascending order |
| SetOrder.ListingAscends | processors/bitcoin-mempool/src/graph.rs:208-262 | an ordered collection is visited in strictly ascending order of its keys |
| Lineage.LineageGraph.TraceToObservations | processors/reconciler/src/lib.rs:316-357 | a successful trace is the depth-first walk from the root, each node before its parents and once, exactly the reachable nodes and within both limits; otherwise the error is the first limit the walk breaks, with its witness |
| Lineage.OutcomeIsUnique | processors/reconciler/src/lib.rs:316-357 | the walk and the limits leave one answer |
| Lineage.WalkVisits | processors/reconciler/src/lib.rs:322-355 | a node, then its parents, then what was to be done: the stack loop is the recursive walk |
| Lineage.InsertedIff | processors/reconciler/src/lib.rs:291-308 | a node is inserted if and only if its name is not blank and new, an observation has no parents, and all parents are known; each refusal if and only if its condition |
| Lineage.SearchEnds | processors/reconciler/src/lib.rs:322-355 | when the stack is empty the visited nodes are the reachable ones and one is an observation |
| Lineage.InsertedIsAcyclic | processors/reconciler/src/lib.rs:291-308 | after any inserts, accepted or refused, ranking nodes by insertion shows there is no cycle |
| Lineage.ClosedHasLeaf | processors/reconciler/src/lib.rs:322-355 | a set of nodes closed under parents contains a node without parents |
| Lineage.LineageGraph.InsertNode | processors/reconciler/src/lib.rs:291-308 | inserts after its parents or refuses in the order of the source |
| AlertSpec.DeliveriesAlternate | processors/alert-engine/src/mempool.rs:380-416 | over any stream deliveries alternate Triggered and Corrected or Retracted, and the alert is active exactly after a trigger |
| AlertSpec.TriggersExactlyWhen | processors/alert-engine/src/mempool.rs:397-415 | a snapshot triggers exactly when the alert is off, it ends a long enough streak above the threshold on good evidence, and every earlier trigger is a cooldown ago |
| AlertSpec.TransitionIs | processors/alert-engine/src/mempool.rs:373-411 | what comes of every evaluated snapshot, each of the eight transitions, from the snapshot and the log before it |
| AlertSpec.EvaluatedIff | processors/alert-engine/src/mempool.rs:445-475 | a snapshot is evaluated if and only if it has the band and quorum of the definition and repeats the last one or comes after it; each refusal if and only if its condition |
| AlertSpec.EvaluationReports | processors/alert-engine/src/mempool.rs:411-440 | the delivery flag, activity and streak that an evaluation reports are those of the log with it |
| AlertSpec.TriggerNeedsPersistence | processors/alert-engine/src/mempool.rs:397-405 | the required number of consecutive evaluated snapshots up to the trigger are all above the threshold and not degraded |
| AlertSpec.TriggersAreApart | processors/alert-engine/src/mempool.rs:503-508 | any two triggers are at least the cooldown apart, unless that passes the largest clock value |
| AlertSpec.InertSnapshotsDrop | processors/alert-engine/src/mempool.rs:364-372 | a refused or immediately repeated snapshot can be dropped from a stream without changing any later result |
| AlertSpec.RunKeepsInv | processors/alert-engine/src/mempool.rs:364-442 | streak counter, activity, cooldown anchor and order agree with the log of evaluated snapshots |
| AlertEngine.MempoolAlertEvaluator.Evaluate | processors/alert-engine/src/mempool.rs:364-442 | one evaluation in place: transition, delivery flag, counters, identity and outbox key as the stream theorems describe them, and nothing changed on refusal or repeat |
| AlertSpec.RepeatKeepsIdentity | processors/alert-engine/src/mempool.rs:477-500 | an immediate repeat is answered with the identity the snapshot was first given, and nothing is delivered for it |
| AlertSpec.KeysAreDistinct | processors/alert-engine/src/mempool.rs:415-417 | while the digests do not collide, no two evaluated snapshots of a stream share an outbox key |
| AlertEngine.MempoolAlertEvaluator.Validate | processors/alert-engine/src/mempool.rs:445-475 | the order and contract checks, in order |
| Cursor.DecodeEncode | crates/api-contract/src/lib.rs:537-577 | decoding an encoded cursor returns the same cursor, for every bounded dataset, key and revision |
| Cursor.EncodeDecodeIff | crates/api-contract/src/lib.rs:552-577 | a text that decodes is the encoding of its cursor if and only if its revision field is plain decimal |
| Cursor.ParsesIff | crates/api-contract/src/lib.rs:568-572 | a sequence parses if and only if it is some digits, with or without one plus sign, of a value that fits in 64 bits |
| Cursor.DecodesIff | crates/api-contract/src/lib.rs:552-577 | a text decodes to a cursor if and only if the cursor is in bounds and the text is its fields in hexadecimal with their checksum and some text of its revision |
| Cursor.LeadingZeroDecodes | crates/api-contract/src/lib.rs:567-571 | for every cursor a second text, with a leading zero in the revision, decodes to it |
| Cursor.HexRoundTrip | crates/api-contract/src/lib.rs:769-790 | hexadecimal text and bytes determine each other |
| Cursor.DecimalRoundTrip | crates/api-contract/src/lib.rs:567-571 | parsing undoes printing, and printing gives back exactly the plain texts |
| Cursor.Utf8Cut | crates/api-contract/src/lib.rs:563-574 | a NUL byte cuts valid text into valid text |
| Cursor.DecodeSealed | crates/api-contract/src/lib.rs:552-577 | any sealed text with these fields and a revision text of that value decodes to the cursor |

## Left out

- Connectors, HTTP, ZMQ, gRPC, Kafka, databases, object storage and service entry points: I/O over libraries outside this model.
- Clocks, randomness and asynchronous cancellation: times and session identities are parameters.
- Error texts, and error payloads that only carry text; every error is its constructor with its data.
- WalTornTail.RecoverTornZeros: which of the allowed outcomes occurs is open only where the checksum of torn bytes matches by chance, because the checksum is a parameter.
- File-system failures: partial write errors, failing syncs and the quarantine rename of a corrupt segment; a crash keeps the bytes up to some position at or after the last sync, or a part of the next record in front of zeros.
- Validation of proof of work, difficulty retargeting, Bitcoin consensus decoding and script execution: parameters of the block tree, or not modelled.
- Counters at their 64-bit limit where the source panics (`next_revision` of the Ethereum and BSC trackers): revisions are unbounded there.
- Source identities on revisions and checkpoints, and their validation: stored, never read by the modelled logic.
- BSC finality health: one comparison.
- Solana transaction keys, recovery evidence and shred joins: sets without further logic.
- SolanaCanonicality.SolanaCanonicality.ActivateOptional: undo logs are a map beside the nodes instead of a field of each node.
- Observer health, clock offset and the aggregate views over observers: no run-level property of their own.
- Construction checks of alert definitions and snapshots: carried by types.  The evidence fields an evaluation copies from its snapshot are the snapshot itself.
- The coverage ledger, archive coordination, checkpoints of storage, truth envelopes and fact rows: easy members, or claims that need assumptions the code does not enforce.
- State hashes of the projections: digests over states whose equality is proved directly.
