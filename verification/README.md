# A verified model of the subs commitment pipeline

`subs` registers names under a space. An operator collects handle requests, commits them in batches to a name
tree (SpaceDB) whose bookkeeping lives in SQLite, has every batch proven by a remote prover, puts the root on chain,
and publishes certificates to a relay. This project models that pipeline in Dafny and proves what it keeps.

| file | what it holds |
|---|---|
| `Tables.dfy`, `NameOrder.dfy` | the `handles` table and the SQL statements on it; `ORDER BY name LIMIT n` |
| `ZkBatch.dfy`, `Replay.dfy` | the 64-byte batch records; rebuilding every snapshot from the stored batches |
| `Ledger.dfy`, `LedgerProofs.dfy` | the two stores, every operation as its trace of durable writes, their agreement, crashes and repair |
| `LedgerRuns.dfy` | runs of operations with crashes: agreement, permanence of what was broadcast, the commit gate |
| `LocalSpace.dfy` | the class that performs the operations write by write |
| `Proving.dfy`, `TipReceipts.dfy`, `ProverServer.dfy`, `ProvingProtocol.dfy` | the proof chain, a tip without a receipt, the prover's job server, and chain and server under free interleaving |
| `BatchSizing.dfy` | the feedback loop that sizes publish batches |
| `Publishing.dfy`, `PublishingRuns.dfy`, `Operator.dfy` | publishing passes, runs with an advancing tip, the class that performs a pass |
| `Registry.dfy`, `RegistrySync.dfy`, `SyncClient.dfy` | the registry's queue, sync with lost and repeated acks, the operator's side of it |
| `Progress.dfy` | the progress figures of a running proof |

## How the source is represented

- A tree is a map from label to script pubkey and SpaceDB a sequence of trees, oldest first. A root is a collision-free
  hash: `RootOf(tree)`. The bytes of a zk batch use hash functions that are parameters; there a collision is possible,
  and the replay theorems assume that there is none among the labels and entries of the trees they speak of.
- Tables are sequences of rows in row-id order. Row ids of commitments come from a counter that never goes back
  (AUTOINCREMENT). The index of a commitment comes from COUNT(*), as in the source.
- The guest program works on hashed trees: it rejects a batch with a label that is there already, and otherwise inserts its
  records. A receipt is its program and two roots. An honest prover answers a step request by running the guest on the tree
  that the request's exclusion proof is against and on the request's bytes, and a fold request if the two receipts are
  adjacent. That a proof succeeds is stated for spaces in which no two labels share a hash.
- Operations with several durable writes are functions to the list of states those writes leave (`CommitTrace`,
  `RollbackTrace`, `CheckTrace`, `ParkTrace`, `SaveTrace` and so on). `LocalSpace` carries a ghost log of the ledger after
  each durable write of its own methods, and these state that the log grows by exactly that list, so a crash can stop an
  operation in those states only. The status updates of publishing are not logged; runs have a step (`StopPublish`) for a
  pass that crashes after some of them.
- A publish pass asks the node for the tip twice, once for the statuses and once for the certificates. The two answers are
  two parameters, and in runs the tip may advance between them.
- Each operation on the ledger is one step. On the prover and the registry every lock section and every message is a step
  of its own. A message may arrive late, never, or repeatedly.
- What the node, wallet, relay and prover answer are parameters. Lock sections of the job server keep the local variables
  of handlers and worker as ghost fields.

## What was found

- The consistency check restores the agreement after a crash anywhere in a rollback and before the tree write of a later
  commit. It does not after a crash between a commit's tree write and its last write, nor after the tree write of the first
  commit: `CrashInCommit` is an if-and-only-if over all crash points. `RollbackRepairsCommit` shows that the
  operator's own rollback repairs the crashes that the check cannot, once the commitment row exists.
- `publish_certs` reads the tip at core/src/app.rs:1704-1706 and `issue_certs` reads it again at core/src/app.rs:1635-1638.
  When the chain adopts a commitment in between, its handles are sent inclusion certificates and recorded as temporary:
  `CertMatchesStatus` says exactly when, `MovedTipDisagrees` gives the input, and `MovedTipIsRepaired` shows that
  the next pass clears these statuses, so that the handles are published again.
- An oversized list of handles that the operator publishes by hand spoils the measurement for the automatic batches after
  it (`ListSpoilsNext`). `RefusalsBounded` says how many refusals it can cost.
- The doc comment of the check (core/src/core.rs:577-579) says it runs on startup. `load_all_spaces` goes through
  `load_space_unchecked` (core/src/app.rs:497-512), which does not call it; only `load_or_create_space` does
  (core/src/app.rs:545). The theorems are about a call of the check, whenever it comes.
- `rollback_last_commitment` and the check's cleanup are two SQL statements without a transaction; stopping between them
  is covered, and so is stopping inside the check.
- Broadcasting asks for a step receipt only (core/src/app.rs:1097-1105), while the certificate of a tip at index 2 or above
  needs the aggregate. `TipReceiptSpans` says exactly when a tip's receipt can be given, and `TipWithoutReceipt` is a run
  that keeps every rule and ends with a tip whose receipt cannot.
- `finish` rounds the clock down to milliseconds, so stopping inside the first phase can move the fraction back.
  `FinishStepsBackIff` says exactly when.

## Model

| member | source | states |
|---|---|---|
| Tables.CountIsSelected | core/src/storage.rs:936-950 | counting in SQL agrees with selecting the rows |
| NameOrder.SelectByNameIs | core/src/storage.rs:972-990 | a limited selection holds as many matching rows as allowed, each once, and leaves out none that sorts before one it takes |
| NameOrder.NameLeqIs | core/src/storage.rs:972-990 | names are ordered by their first difference, a name before those that continue it |
| ZkBatch.ToZkInput | core/src/lib.rs:63-79 | the byte loop gives 64 bytes per entry: the label's hash in the first 32, the hash of its tree entry in the others, in order; the record reader gets them back |
| ZkBatch.ParseEncode | core/src/core.rs:1123-1149 | reading records undoes writing them |
| ZkBatch.EncodeParse | core/src/core.rs:1123-1149 | writing undoes reading, for every byte string of whole records |
| ZkBatch.InsertHashes | core/src/core.rs:467-477 | inserting hashed records into a hashed tree follows inserting the entries into the tree, unless labels collide |
| ZkBatch.GuestAcceptsIff | core/src/core.rs:440-455 | run on the bytes of a batch, the guest goes from the tree to the tree with the batch inserted exactly if every label is new |
| LedgerProofs.GuestRunIs | core/src/core.rs:440-455 | what a commit asks of the guest before it writes is what the guest does with the bytes |
| Replaying.ReplayRebuilds | core/src/core.rs:370-422 | in every reachable ledger the stored zk batches of commitments 0..i, replayed into the empty tree, give the hashed form of snapshot i |
| Replaying.HashedFormDecides | core/src/core.rs:370-422 | two trees with the same hashed form are the same tree, unless hashes collide |
| Replaying.ReplayDecidesRoot | core/src/core.rs:370-422 | in every reachable ledger the only tree that the replayed bytes can stand for is the one whose root commitment i carries |
| Replaying.StepRequestWitness | core/src/core.rs:822-841 | in every reachable ledger a step request is for the first commitment without a step and carries its witness: the tree before it, and bytes that take any hashed form of that tree to the hashed form of its own |
| LedgerProofs.SkipIs | core/src/core.rs:321-366 | a request is skipped exactly if its name has a row, and that row decides the reason: staged or committed, same key or another |
| LedgerProofs.NothingReplaced | core/src/storage.rs:493-507 | a request that may be staged has no row at all, so INSERT OR REPLACE only ever appends |
| LedgerProofs.AddRequestInv | core/src/core.rs:310-367 | staging keeps the two stores in agreement |
| LedgerProofs.SetParkedIs | core/src/storage.rs:778-805 | parking flags exactly the staged rows of the names, or all staged rows when there are no names |
| LedgerProofs.RemoveStagedIs | core/src/storage.rs:823-846 | removal takes exactly the staged rows of the names, or all staged rows when there are no names |
| LedgerProofs.SetParkedInv | core/src/storage.rs:778-820 | parking keeps the agreement |
| LedgerProofs.RemoveStagedInv | core/src/storage.rs:823-862 | removal keeps the agreement |
| LedgerProofs.CommitIs | core/src/core.rs:425-544 | on a consistent ledger a commit fails only for want of staged handles (the guest never rejects), and its three durable states are the stated ones |
| LedgerProofs.NewTree | core/src/core.rs:467-477 | a staged handle is in the committed tree, under its own key, exactly if it is not parked |
| LedgerProofs.CommitInv | core/src/core.rs:425-544 | a commit keeps the agreement |
| LedgerProofs.RollbackIs | core/src/core.rs:551-575 | a rollback is refused exactly when there is no commitment or the last one was broadcast; otherwise it drops exactly the last snapshot, or resets at genesis |
| LedgerProofs.RollbackInv | core/src/core.rs:551-575 | a rollback keeps the agreement |
| LedgerProofs.RollbackUndoesCommit | core/src/storage.rs:869-897 | rolling back a commit restores snapshots, commitments and handle rows, publish status and parked flags included; only the row-id counter differs |
| LedgerProofs.CheckIsIdentity | core/src/core.rs:580-594 | the consistency check leaves a consistent ledger alone |
| LedgerProofs.CheckIff | core/src/storage.rs:899-927 | on any ledger, consistent or not, the check acts exactly for a last commitment that was not broadcast and whose tree is not the newest, and removes just that one |
| LedgerProofs.CrashInRollback | core/src/core.rs:577-594 | a rollback stopped after any of its durable writes is finished by the check |
| LedgerProofs.CrashInCheck | core/src/storage.rs:899-927 | a check that is itself interrupted is completed by the next one |
| LedgerProofs.RepairIs | core/src/storage.rs:899-927 | a check interrupted any number of times ends where one undisturbed check would |
| LedgerProofs.CrashInCommit | core/src/core.rs:455-485 | after a crash in a commit the check restores the agreement if and only if no tree write was left unfinished, with exactly the before or the after state |
| LedgerProofs.CrashAfterTreeWrite | core/src/core.rs:467-487 | for every commit, the state after its tree write and before its handle update breaks the agreement and is invisible to the check |
| LedgerProofs.RollbackRepairsCommit | core/src/core.rs:551-575 | from that state the operator's rollback returns to the ledger before the commit |
| LedgerProofs.RowOfName | core/src/core.rs:457-487 | every name of snapshot i has a row with the same key, committed at or below i |
| LedgerProofs.RowsAreTheDifference | core/src/storage.rs:649-661 | the rows of commitment i are exactly what snapshot i added, with the same keys |
| LedgerRuns.Reachable | core/src/core.rs:310-594 | in every reachable ledger the two stores agree; runs have crashes after any write but the lone tree write of a first commit, checks that are interrupted, and the operator's rollback where the check cannot repair |
| LedgerRuns.StoppedLoop | core/src/storage.rs:778-862 | a per-name loop stopped part-way leaves what the shorter list would have left |
| LedgerRuns.ParkCountIs | core/src/storage.rs:788-798 | the answered count is that of the staged rows of the names, once for each time a name is listed |
| LedgerRuns.TwoStoresAgree | core/src/storage.rs:366-393 | spelled out: commitment i has index i, the root of snapshot i, the previous root, and staged rows are in no snapshot |
| LedgerRuns.BroadcastNamesStay | core/src/core.rs:552-556 | once commitment k has a txid, each of its names keeps its key in every later snapshot from k on and in its handle row, through every run |
| LedgerRuns.RunPermanent | core/src/storage.rs:879-893 | once commitment k has a txid, snapshots and commitments 0..k never change |
| LedgerRuns.GateIff | core/src/app.rs:866-940 | the commit gate is open exactly when something is staged and the last commitment is proven and, with a node, an unbroadcast genesis or broadcast and on chain in a block at least 150 below the tip |
| LedgerRuns.GateReasons | core/src/app.rs:866-940 | each reason that the gate gives, and exactly when it gives it |
| LedgerRuns.HealthyIff | core/src/app.rs:558-609 | the health check passes exactly if the node has no root for the space or one of a local snapshot |
| LedgerRuns.CommitLocalIs | core/src/app.rs:947-959 | the operator's commit, health check and gate included, commits all that is staged and not parked or changes nothing, and exactly when |
| LedgerRuns.BroadcastIs | core/src/app.rs:1086-1123 | a broadcast is accepted exactly for a last commitment without a txid that is genesis or has a step; which refusal otherwise |
| LedgerRuns.SaveIs | core/src/core.rs:921-969 | a receipt is refused exactly for the wrong program; otherwise it is stored and only the row with this id refers to it |
| LedgerRuns.GateOverRuns | core/src/app.rs:883-893 | over whole gated runs every commitment but the last is fully proven, and at most two proofs are pending |
| LedgerRuns.ConfirmedOverRuns | core/src/app.rs:895-937 | over whole gated runs with a node, the root of every commitment but genesis and the last was seen by some commit attempt in a block at least 150 below the tip |
| LedgerRuns.BroadcastOverRuns | core/src/app.rs:895-937 | over whole gated runs with a node, every commitment but genesis and the last has a txid, so with three or more only the last can be rolled back |
| Proving.NoRequestIffNonePending | core/src/core.rs:815-893 | there is a next proving request exactly while the pending count is not zero |
| Proving.NextRequestIs | core/src/core.rs:815-893 | the request goes to the first commitment that lacks a step, or once all steps are there to the first that lacks an aggregate, with the right roots, receipts, exclusion tree and batch |
| Proving.SoundIsProvable | core/src/core.rs:822-841 | a request whose commitment is still there can be proven from what it carries, and the proof spans what it should |
| Proving.FulfilLowersPending | core/src/core.rs:1052-1063 | the next request can be proven, the answer is never refused and lowers the pending count by exactly one |
| Proving.LoopEnds | core/tests/full_e2e.rs:195-201 | n answers lower the count by n, so the proving loop ends after exactly as many answers as proofs were pending |
| Proving.SaveKeepsProven | core/src/core.rs:921-969 | the answer to a sound request leaves every attached receipt certifying its own commitment |
| Proving.SoundLater | core/src/storage.rs:18-32 | a request stays sound through rollbacks and new commits, because row ids are never reused |
| Proving.CrashInSave | core/src/core.rs:938-942 | stopped between the two writes of a saved receipt, the ledger asks for the same proof again and nothing else changed |
| Proving.TipReceiptSpans | core/src/core.rs:676-727 | the receipt of a tip spans everything from the genesis root to that tip, and is there exactly if the step (index 1) or aggregate (from 2) is; none is needed without a tip, and an unknown tip is an error |
| TipReceipts.TipWithoutReceipt | core/src/app.rs:1097-1105 | a gated run with honest receipts that broadcasts commitment 2 with a step and no aggregate, after which the tip has no receipt |
| ProverServer.RunAdvances | prover/src/server.rs:581-680 | from a consistent server, any interleaving keeps it consistent and unsettles nothing |
| ProverServer.ReachableJobs | prover/src/server.rs:595-604 | at most one job is processing, and a receipt is there exactly for complete jobs |
| ProverServer.ReachableLog | prover/src/server.rs:549-577 | "Receipt not available" and the worker's "not found" are unreachable |
| ProverServer.AtMostOnce | prover/src/server.rs:549-577 | no receipt is delivered twice and no job started twice |
| ProverServer.CancelIs | prover/src/server.rs:244-284 | a cancel is accepted exactly for a job that has not ended, running or queued, and changes that job only |
| ProverServer.CancelledNeverCompletes | prover/src/server.rs:244-284 | the cancel of a job that has not ended is accepted, and keeps the job in the table for good, never complete, its receipt never handed out |
| ProverServer.CancelledInQueueNeverRuns | prover/src/server.rs:267-272 | a job cancelled while queued never starts |
| ProverServer.TerminalForever | prover/src/server.rs:259-266 | a terminal job does not change, and leaves the table only if complete |
| ProverServer.FirstInFirstOut | prover/src/server.rs:586-609 | in every run jobs are taken in the order in which they were queued |
| ProverServer.FinishIs | prover/src/server.rs:637-678 | the four ways in which a running job ends: status, receipt, error |
| ProverServer.SubmittedIsDelivered | prover/src/server.rs:581-680 | on an idle server a submitted job is started, completed with the prover's receipt and delivered |
| ProverServer.JobServer.SubmitProve | prover/src/server.rs:351-368 | a submission enters the table as a pending job under a fresh id |
| ProverServer.JobServer.NotifyWorker | prover/src/server.rs:370-373 | the id enters the bounded queue when there is room |
| ProverServer.JobServer.CancelJob | prover/src/server.rs:244-284 | answers and new state for each status |
| ProverServer.JobServer.CheckReceipt | prover/src/server.rs:523-547 | a pull goes on exactly if the job is complete |
| ProverServer.JobServer.PullReceipt | prover/src/server.rs:549-577 | the job leaves the table and its receipt is handed out |
| ProverServer.JobServer.WorkerReceive | prover/src/server.rs:586-609 | the worker starts the next job, or skips a cancelled one |
| ProverServer.JobServer.WorkerFinish | prover/src/server.rs:637-678 | the four outcomes of a proof |
| ProvingProtocol.AlwaysSafe | subs/src/background.rs:264-331 | under every interleaving of pushes, double pushes, cancels, polls, worker steps, restarts, rollbacks and commits, everything in flight and attached is sound |
| ProvingProtocol.AttachedReceipts | core/src/core.rs:921-969 | a step spans its own commitment, an aggregate spans genesis to its commitment, and aggregates form a prefix |
| ProvingProtocol.GoneForGood | core/src/storage.rs:18-32 | a commitment id that was rolled back never comes back |
| ProvingProtocol.StaleReceiptAttachesNowhere | core/src/storage.rs:398-413 | a receipt for a rolled-back commitment changes no commitment row |
| ProvingProtocol.IssuedIsProvable | subs/src/background.rs:264-331 | at any moment, any request ever read whose commitment is still there can be proven from its witness |
| ProvingProtocol.SaveSafe | subs/src/routes/proving.rs:521-566 | saving a polled receipt keeps everything sound |
| ProvingProtocol.SubmitSafe | subs/src/routes/proving.rs:239-332 | pushing a request that was read earlier, once or several times, keeps everything sound |
| ProvingProtocol.RequestIsForLast | subs/src/routes/commits.rs:282-303 | when every commit goes through the gate, at any moment of the protocol at most two proofs are pending and the next request belongs to the last commitment, whose keys a rollback clears |
| BatchSizing.NextBatchSizeIs | core/src/app.rs:1521-1534 | of the sizes from 2 to the ceiling the next batch takes exactly those that at the measured bytes per certificate stay within 85% of 512 KiB |
| BatchSizing.UnmeasuredIs | core/src/app.rs:1524-1533 | with nothing measured it is 50 or the ceiling, and at least 1 |
| BatchSizing.RefusalShrinks | core/src/app.rs:1521-1534 | after a refused batch of h handles the next limit is at most h, and less from 6 on, whatever the byte count |
| BatchSizing.GrowsIffWithinTarget | core/src/app.rs:1512-1534 | the limit grows past the last batch exactly when that message stayed within the target |
| BatchSizing.GrowthBounded | core/src/app.rs:1524-1529 | a next batch that is larger than the last one lands at most one handle's worth above the target |
| BatchSizing.FitsAgain | core/src/app.rs:1486-1497 | after a message that fits, the next batch fits, whatever backlog and ceiling |
| BatchSizing.RefusalsBounded | core/src/app.rs:1536-1548 | from any measurement a run of any length, automatic and listed passes mixed, refuses at most as many automatic batches as its first limit exceeds five and its oversized lists cost |
| BatchSizing.RefusalsOnceFit | core/src/app.rs:1512-1534 | once a batch fitted, only oversized lists after it can cause a refusal, so none without them |
| BatchSizing.ListSpoilsNext | core/src/app.rs:1721-1736 | a listed batch that is refused makes the next automatic one too large, though 50 handles fitted before |
| Publishing.ConfirmedIffInTree | core/src/app.rs:1788-1801 | with the tip at commitment k, "committed at or below k" in SQL and "found in the tip's snapshot" in the tree are the same |
| Publishing.CertMatchesStatus | core/src/app.rs:187-206 | what SQL calls final gets an inclusion certificate wherever the tip moved; certificate and status agree exactly unless the handle's commitment was reached between the two reads of the tip |
| Publishing.SentMatchesRecorded | core/src/app.rs:1760-1807 | entry by entry for whatever a pass sends: the status recorded is decided by the first tip's snapshot, the certificate by the second's, final implies inclusion, and the exact condition for the two to agree |
| Publishing.UnknownTipPublishesNothing | core/src/core.rs:691-693 | a pass whose certificates would be against an untracked tip sends nothing, marks nothing, and fails if it had anything to send |
| Publishing.PassLeavesTempsCurrent | core/src/storage.rs:1035-1061 | after a pass that reached the reset, every temporary certificate on record is against the tip that it began with |
| Publishing.PassInv | core/src/app.rs:1694-1829 | a pass keeps the two stores in agreement |
| Publishing.PassTouches | core/src/app.rs:1716-1807 | row by row: a pass resets a stale row, publishes a row of its list (or without a list one that is unpublished), temporary or final by the first tip, and touches no other |
| Publishing.ListedPass | core/src/app.rs:1737-1828 | a pass over a list answers for as many handles as the table has of those names, up to the ceiling, with none left over; refused for its size it publishes none |
| Publishing.ListedPublished | core/src/app.rs:1737-1807 | and every row of those names, if they are no more than the ceiling, is published |
| Publishing.FailsIff | core/src/app.rs:1636-1673 | when a pass fails, and with which error; an unreachable node leaves everything alone |
| Publishing.CountAfterBatch | core/src/storage.rs:1010-1030 | marking a batch lowers the unpublished count by its size |
| PublishingRuns.PassProgress | core/src/app.rs:1738-1828 | an automatic pass publishes a full batch or all that is left, or nothing when refused, and "remaining" is the count in the new state |
| PublishingRuns.Drains | core/src/app.rs:1738-1828 | with a fixed tip, no refusals and nothing new, each pass takes at least one handle off the backlog until none is left |
| PublishingRuns.Quiescent | core/src/app.rs:1750-1752 | after that a pass reports (0, 0) and changes nothing |
| PublishingRuns.BacklogEmpties | core/src/app.rs:1521-1548 | refused batches included, the backlog is empty after as many passes as it holds handles and the first limit exceeds five |
| PublishingRuns.BacklogZeroIff | core/src/storage.rs:936-950 | nothing is left to publish exactly when every handle is final, or temporary against this very tip and not confirmed by it |
| PublishingRuns.SentInRuns | core/src/app.rs:1635-1638 | in every sound world, wherever the tip moves during a pass, statuses and certificates are as SentMatchesRecorded says |
| PublishingRuns.FinalForever | core/src/storage.rs:883-889 | over runs with an advancing tip, with moves of the tip and crashes in mid-pass and rollbacks, a final row stays exactly as it is |
| PublishingRuns.FinalIsInTip | core/src/app.rs:1709-1714 | every final handle lies in the tip's snapshot under its own key |
| PublishingRuns.TempIsNotInTip | core/src/app.rs:1788-1801 | in every reachable world a handle that is temporary against the current tip is not in that tip's snapshot |
| PublishingRuns.TempsFollowTip | core/src/app.rs:1716-1721 | in every reachable world a pass leaves only temporary certificates against the tip that it read at its start |
| PublishingRuns.StatusesRight | core/src/app.rs:1716-1807 | in every reachable world, after a pass during which the tip stood still, each published handle is final exactly if the tip's snapshot has it |
| PublishingRuns.MovedTipLeavesStale | core/src/storage.rs:1035-1061 | what a pass recorded against a tip that moved meanwhile is stale in every later state |
| PublishingRuns.MovedTipIsRepaired | core/src/app.rs:1716-1721 | and the next pass that reaches the reset clears every such status |
| PublishingRuns.MovedTipDisagrees | core/src/app.rs:1635-1638 | the input: an inclusion certificate sent, a temporary status recorded |
| PublishingRuns.OneBroadcastReached | core/src/app.rs:1704-1706 | that input is reachable |
| Operators.Operator.PublishCerts | core/src/app.rs:1694-1829 | the pass, with both answers of the node and its loops over certificates and names, does what the pass function says: rows, measurement, result and the certificates that go out |
| Operators.Operator.IssueHandleCerts | core/src/app.rs:1663-1673 | one certificate per handle, decided by the tree; one failure fails the batch |
| Operators.Operator.MarkHandlesPublished | core/src/storage.rs:1010-1030 | the per-name update loop |
| Operators.Operator.RecordOutcome | core/src/app.rs:1540-1548 | the measurement is kept unless it is empty |
| LocalSpaces.LocalSpace.AddRequest | core/src/core.rs:310-367 | new state, skip reason and durable states, tree first, staged rows second |
| LocalSpaces.LocalSpace.SetParked | core/src/storage.rs:778-805 | the per-name loop and the bulk form, the durable state after each UPDATE, and the number of rows matched |
| LocalSpaces.LocalSpace.RemoveStaged | core/src/storage.rs:823-846 | the per-name loop and the bulk form, the durable state after each DELETE, and the number of rows gone |
| LocalSpaces.LocalSpace.PrepareZkInput | core/src/core.rs:370-422 | the batch in row order, with an exclusion proof unless it is the first |
| LocalSpaces.LocalSpace.WriteBatch | core/src/core.rs:467-484 | one write transaction appends the tree with all entries inserted |
| LocalSpaces.LocalSpace.AddCommitment | core/src/storage.rs:366-395 | the row gets the row count as its index and the next row id |
| LocalSpaces.LocalSpace.Commit | core/src/core.rs:425-544 | result, new state, and exactly the durable states of the commit trace; a dry run changes nothing |
| LocalSpaces.LocalSpace.CommitLocal | core/src/app.rs:947-959 | the health check and the gate, each with its own answer of the node, then the commit |
| LocalSpaces.LocalSpace.SnapshotForTip | core/src/core.rs:1438-1448 | the newest snapshot with the root, or none |
| LocalSpaces.LocalSpace.LookupHandleInTree | core/src/core.rs:597-611 | no tip finds nothing, an unknown tip is an error, otherwise the value in that snapshot |
| LocalSpaces.LocalSpace.RollbackSnapshot | core/src/core.rs:1451-1477 | the newest-to-oldest search drops the newest matching snapshot and all above it |
| LocalSpaces.LocalSpace.RollbackLastCommitment | core/src/storage.rs:869-897 | refusals, and the two durable writes in order |
| LocalSpaces.LocalSpace.RollbackLocal | core/src/core.rs:551-575 | result, new state, and exactly the durable states of the rollback trace |
| LocalSpaces.LocalSpace.CheckConsistency | core/src/core.rs:580-594 | result, new state, and exactly the durable states of the check trace |
| LocalSpaces.LocalSpace.GetNextProvingRequest | core/src/core.rs:815-893 | the two loops find the next request |
| LocalSpaces.LocalSpace.CountPendingProofs | core/src/core.rs:1052-1063 | the loop counts the missing receipts |
| LocalSpaces.LocalSpace.SaveProvingReceipt | core/src/core.rs:1015-1026 | the program is checked, the receipt stored, then the one row with this id refers to it: two durable writes |
| LocalSpaces.LocalSpace.BroadcastLast | core/src/app.rs:1086-1157 | health, delegation, refusals and the wallet's answer, and the txid on the last commitment; a refusal changes nothing |
| Registry.RegistryServer.RegisterHandle | examples/registry-server/src/main.rs:252-299 | a new handle waits as pending; a known one is refused |
| Registry.RegistryServer.GetPendingHandles | examples/registry-server/src/main.rs:361-391 | the pending registrations of the space asked for |
| Registry.RegistryServer.AckHandles | examples/registry-server/src/main.rs:416-458 | each entry settles its handle if it is pending, in order |
| RegistrySync.AckSettles | examples/registry-server/src/main.rs:423-455 | an ack settles its pending handle with its outcome; everything else, and anything settled, stays |
| RegistrySync.OfferedWhilePending | examples/registry-server/src/main.rs:367-384 | a handle is offered exactly while it is pending, to who asks for its space or for all |
| RegistrySync.HeldAnswers | core/src/core.rs:321-366 | a held name answers its own key as already held and any other key with a refusal, and nothing changes |
| RegistrySync.HeldStays | core/src/storage.rs:835-840 | only the operator's removal gives a name up; commits, rollbacks and crashes do not |
| RegistrySync.OutcomeIs | subs/src/routes/registry.rs:225-247 | which outcome is reported, and so which status, is decided by the name's row: staged or committed, this key or another |
| RegistrySync.OutcomeTells | subs/src/routes/registry.rs:225-247 | every outcome says truly who holds the name afterwards |
| RegistrySync.AckAnswers | subs/src/routes/registry.rs:184-247 | the ack of a batch staged to its end answers for every delivery of the space and every one that does not parse |
| RegistrySync.PullStageAckSettles | subs/src/routes/registry.rs:256-264 | over whole runs, whatever was lost before: pull, full staging and arrival of that ack settle a pending handle for good, and it is offered no more |
| RegistrySync.AddedIsGrowth | core/src/app.rs:839-860 | what is reported as added is what the handle table grew by |
| RegistrySync.AckCountIs | examples/registry-server/src/main.rs:416-458 | the count answered to an ack is the number of registrations that stopped waiting |
| RegistrySync.AlwaysOk | subs/src/routes/registry.rs:257-264 | with failed stagings and any loss, delay or repetition of pulls and acks, statuses and acks under way tell truly who holds the name |
| RegistrySync.AcceptedNeverRejected | examples/registry-server/src/main.rs:425-450 | over whole runs: once the operator accepted an entry, in every later state without a removal of the name it is held under its key, neither entry nor ack rejects it, and redelivery changes nothing |
| RegistrySync.SettledStays | examples/registry-server/src/main.rs:425-450 | a settled entry keeps its status through every run |
| RegistrySync.FirstStagedWins | core/src/core.rs:346-366 | of two owners the first one staged has the name in every later state, and the second is refused each time it asks |
| SyncClient.SyncSpace | subs/src/routes/registry.rs:178-264 | unparsable handles are settled as invalid, those of other spaces dropped, the rest staged in order, or none when the health check fails; outcomes and error count |
| Progress.NeverBackwards | prover/src/progress.rs:247-263 | the fraction is between 0 and 1 and never goes back until phase 2, whatever completes between two looks |
| Progress.EstimateCoversLast | prover/src/progress.rs:225-238 | a projection never falls short of the completion it was made from |
| Progress.EstimateIs | prover/src/progress.rs:225-238 | the projection runs through the first and the last completion |
| Progress.SteadyIsExact | prover/src/progress.rs:225-238 | a job with even segments after the first is projected exactly, however slow the first was |
| Progress.RemainingIs | prover/src/progress.rs:240-245 | what is shown is the rest of the projection, exactly while the clock has not reached it |
| Progress.RemainingCountsDown | prover/src/progress.rs:240-245 | between completions what is shown as remaining is positive and goes down with the clock |
| Progress.FinishCanStepBack | prover/src/progress.rs:160-167 | stopping the clock can move the fraction back |
| Progress.FinishStepsBackIff | prover/src/progress.rs:160-167 | exactly when it does |
| Progress.FinishOnce | prover/src/progress.rs:160-167 | the first call stops the clock and later ones change nothing |
| Progress.ProgressSink.OnSegmentProven | prover/src/progress.rs:175-187 | counters after a segment, times floored at one millisecond |
| Progress.ProgressSink.OnFinish | prover/src/progress.rs:162-167 | the first call stops the clock |

## Left out

- HTTP, RPC, relay traffic, SQLite and SpaceDB internals, hashing, the zkVM and signing are replaced by the contracts above.
- The search and filter forms of parking and removing: the SQL they build is not the WHERE clause their comments describe.
- SNARK compression, the groth16 receipts and `tip_receipt_id`; receipt claims are about rows without a groth16 id.
- `published_at`, proving estimates and `dev_private_key`.
- Interleavings inside one ledger operation, and the gap between check and push in `register_handle`; both are one step.
  A publish pass is one step too, but for a tip that moves meanwhile.
- A third question to the node, for the chain proof of a message that is already built.
- Receipts that do not answer an issued request: saving checks only the program, so honest provers are assumed.
- Registry keys with bad hex, names in another than their canonical form, and the `/committed` notification.
- The push, poll and cancel handlers are steps of `ProvingProtocol`, not methods; their HTTP error answers are not modelled.
- The two background loops and the worker loop are endless in the source; each of their iterations is a step here.
- Machine integer width: counters and byte counts are unbounded, clocks are real numbers, and `po2` cycle sums, which nothing reads, are not kept.
- Calibration, durations and cycle formatting, UI, configuration, logging and command-line tools.
- BatchSizing.RefusalsBounded: counts automatic batches and assumes that a message takes a fixed number of bytes plus a fixed number per handle, with the bounds in `Modest`; `RefusalShrinks` and `GrowsIffWithinTarget` assume nothing about sizes.
- Progress.NeverBackwards: segment completions are single steps, while the source stores the counters one after the other.
