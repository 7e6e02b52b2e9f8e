# Verified model of a Cloudiy node

A Dafny model of the parts of the Cloudiy compute network whose correctness spans several
operations or a whole run: the Solana message compiler, the Ed25519 verifier of the conformance
suite, the durable job log, resource and lease accounting, the auto-host planner and the hosting
cycle, the directory's demand oracle, the rate limiter and the escrow replay set, the chunked-body
and token-stream decoders, session framing, the reputation ramp, answer normalisation, and the
signed messages that tie a result to a payment.

Check it with `dafny verify dfyconfig.toml`.

Code that updates fields or buffers is a class or a method with loops, proved equal to a
specification function of the old state; the theorems are lemmas about those functions. Everything
outside the process enters as a parameter: clocks, Docker, the network, the file system's answers,
hashes, JSON parsing. Scores and densities are real numbers. Integer widths, casts and saturation
are written out where the code has them.

## Files

| file | subject |
|---|---|
| `SolanaMessage.dfy` | legacy message compiler and its decoder |
| `Edwards.dfy`, `Groups.dfy`, `Ed25519.dfy`, `SignatureChecks.dfy` | curve addition, scalar multiples, compression, verifier; which signatures it accepts |
| `JobLog.dfy`, `JobFaults.dfy`, `LogBytes.dfy` | FIFO job cache over an append-only log; runs with failing I/O; the log as bytes |
| `ResourceVectors.dfy`, `NodeResources.dfy`, `Leases.dfy` | resource accounting, VM and workload runs, lease arithmetic |
| `DiskPlanner.dfy`, `Hosting.dfy` | the two halves of an auto-host cycle, install and uninstall |
| `DemandOracle.dfy`, `Timeline.dfy` | windowed demand, supply tally, announcement store; timed events |
| `RateLimiter.dfy`, `ServedEscrows.dfy` | sliding window, bounded replay set |
| `Dechunk.dfy`, `TokenStream.dfy`, `SessionFraming.dfy`, `Newlines.dfy`, `Utf8.dfy`, `Hex.dfy` | parsers, streams, frames |
| `Reputation.dfy`, `Normalize.dfy` | canary-earned trust, answer normalisation |
| `SignedMessages.dfy`, `Uuid.dfy`, `ReleaseMessage.dfy` | signed payloads, job ids, release by proof |
| `Bytes.dfy`, `Seqs.dfy`, `Wrappers.dfy` | shared integer encodings, sequence facts, result shapes |

## Where the code does less than its documentation says

Each promise below fails for some inputs; the lemma named with it says exactly for which.

- Compiling a message with more than 256 accounts or with 256 signers yields bytes that decode to a
  different request, because indices and header counts are cast to one byte
  (`SolanaMessage.CompileRoundTrip`).
- A crash that cuts an append inside a UTF-8 character makes the next start ignore the whole log;
  a cut between two characters never does, so an ASCII receipt is safe wherever it is cut
  (`LogBytes.CrashAtOffset`).
- Lease accrual and remaining time are cast to 64 bits: a spent lease is alive again once the accrual
  no longer fits, and the reported remainder is wrong once the lease in seconds does not fit
  (`Leases.SpentForGood`, `Leases.RemainingIsTight`). The payment gate admits no budget below the
  node's price, so every metered lease meets the condition of the first (`Leases.GateBuysASecond`).
- `dechunk` rejects a body whose chunk extension is not UTF-8, although RFC 9112 allows any octets
  in a quoted extension value (`Dechunk.DecodeUndoesEncode`).
- Uninstalling a model keeps its automatic install time, so a model the operator later installs by
  hand is not a pin and a cycle may evict it, although the cycle says it never evicts a manual pin
  (`Hosting.HandInstallPins`).
- The supply column counts listings: it is the number of providers exactly when none of them lists
  the key twice (`DemandOracle.SupplyCountsProviders`).
- The demand count can miss live pings when the table is read with a clock behind the newest ping:
  for ordered pings below the cap, exactly when one lies between the two cut-off times
  (`DemandOracle.ReadingBehind`).
- Stopping a VM adopted at a restart frees what another one holds exactly when its own reservation
  had failed and it takes something of a kind the others hold (`NodeResources.StopSafeExactly`).
- A restart re-reserves the resources of a VM from its labels, which keep processors, memory and
  whether there is a GPU: it reserves what the VM held exactly when that was at most one GPU and
  nothing of any other kind (`NodeResources.RestartReservesExactly`).
- A release message is rebuilt from the canonical job id, so it is the signed one exactly when the
  job id was written hyphenated, unwrapped and in lowercase (`ReleaseMessage.RebuiltIsSigned`).

Three consequences that the documentation does not spell out: a `Contains` canary is passed exactly
by the expected words in a row, where the outer ends of the first and last may lie inside longer words
(`Normalize.PassesExactly`); the depth of history a tier asks for only ever binds veterans
(`Reputation.DepthBindsOnlyVeterans`); and an end-of-file frame is read whatever follows its tag, so
what is read is not always what some writer wrote (`SessionFraming.DecodeExactly`).

## Model

| member | source | states |
|---|---|---|
| SolanaMessage.ShortvecRoundTrip | crates/cloudiy/src/solana.rs:160-173 | every length reads back from its compact form, whatever follows it |
| SolanaMessage.ShortvecDigits | crates/cloudiy/src/solana.rs:160-173 | a compact length is its base-128 digits, lowest first, as few as it takes, all but the last with the top bit set |
| SolanaMessage.PutShortvec | crates/cloudiy/src/solana.rs:160-173 | the loop appends exactly the compact form of the length |
| SolanaMessage.MergeFlags | crates/cloudiy/src/solana.rs:180-198 | the table holds, for every account mentioned, the OR of its signer and writable flags, and the order list its first mentions |
| SolanaMessage.OrderByFirstMention | crates/cloudiy/src/solana.rs:180-197 | the accounts are listed in the order of their first mention |
| SolanaMessage.AccountKeysMembers | crates/cloudiy/src/solana.rs:200-216 | the keys are distinct and are the fee payer and every other account mentioned |
| SolanaMessage.GroupsByFirstMention | crates/cloudiy/src/solana.rs:199-213 | within each of the four groups the keys stand in the order of their first mention |
| SolanaMessage.HeaderCounts | crates/cloudiy/src/solana.rs:218-229 | the three header counts are the sizes of the groups they announce |
| SolanaMessage.RightsFromCounts | crates/cloudiy/src/solana.rs:200-229 | a key's rights can be read off its position and the counts |
| SolanaMessage.EncodeRoundTrip | crates/cloudiy/src/solana.rs:233-250 | the printed message is self-delimiting and decodes to itself |
| SolanaMessage.Layout | crates/cloudiy/src/solana.rs:230-239 | at which byte each count, the keys, the block hash and the instructions of a printed message lie |
| SolanaMessage.KeyAt | crates/cloudiy/src/solana.rs:234-237 | key i takes the bytes from 32 i on of the key list |
| SolanaMessage.IxLayout | crates/cloudiy/src/solana.rs:240-248 | at which byte the program, the accounts and the data of a printed instruction lie |
| SolanaMessage.CompileMessage | crates/cloudiy/src/solana.rs:178-251 | the compiler, step by step, prints the lowered message |
| SolanaMessage.CompileRoundTrip | crates/cloudiy/src/solana.rs:178-251 | decoding the compiled bytes gives back keys, rights, instructions and blockhash if and only if there are at most 256 accounts and 255 signers |
| Edwards.Curve.AddKeepsT | conformance/cloudiy_conformance.py:81-87 | `_add` keeps XY = ZT modulo p |
| Edwards.Curve.AddIsEdwards | conformance/cloudiy_conformance.py:81-87 | x and y of the sum, as quotients by Z, are those of the addition law (section 5.1.4 of RFC 8032) |
| Edwards.Curve.AddOnCurve | conformance/cloudiy_conformance.py:81-87 | the sum of two curve points satisfies the curve equation |
| Edwards.Curve.Completeness | conformance/cloudiy_conformance.py:81-87 | no denominator of the addition vanishes when D is not a square |
| Edwards.Curve.AddValid | conformance/cloudiy_conformance.py:81-87 | curve points are closed under `_add` |
| Edwards.Curve.AddSame | conformance/cloudiy_conformance.py:81-101 | the sum does not depend on the projective representative, in the sense of `_eq` |
| Edwards.Curve.AddCommutes | conformance/cloudiy_conformance.py:81-87 | addition commutes |
| Groups.MulIsTimes | conformance/cloudiy_conformance.py:90-97 | in any group double-and-add is repeated addition |
| Ed25519.MulLoop | conformance/cloudiy_conformance.py:90-97 | the loop computes the double-and-add function |
| Ed25519.MulIsFold | conformance/cloudiy_conformance.py:90-97 | `_mul(s, P)` is s-fold addition for every s and every curve point |
| Ed25519.RecoverXFinds | conformance/cloudiy_conformance.py:60-73 | `_recover_x` finds the x of every curve point from its y and the parity of its x |
| Ed25519.DecompressCompress | conformance/cloudiy_conformance.py:104-111 | decompressing a compressed curve point gives an equal curve point (sections 5.1.2 and 5.1.3 of RFC 8032) |
| Ed25519.HonestSignatureAccepted | conformance/cloudiy_conformance.py:114-127 | every signature made as in section 5.1.6 of RFC 8032 passes the check of section 5.1.7, for every secret, nonce, message and hash; what else passes is said by the `SignatureChecks` rows |
| Ed25519.ConstantsChecked | conformance/cloudiy_conformance.py:54-78 | p, D, I and the base point meet their definitions |
| Ed25519.SuiteAcceptsHonestSignatures | conformance/cloudiy_conformance.py:54-127 | the same for the constants of the suite |
| SignatureChecks.DecompressSound | conformance/cloudiy_conformance.py:60-111 | whatever decompression returns is the curve point that the bytes encode, with coordinates below p and the parity in the top bit |
| SignatureChecks.DecompressFinds | conformance/cloudiy_conformance.py:60-111 | bytes that encode a curve point decompress to it |
| SignatureChecks.AcceptedExactly | conformance/cloudiy_conformance.py:114-127 | a signature is accepted if and only if key and signature have 32 and 64 bytes, S is below L, curve points A and R encode to the key and to the first half, and S times the base is R plus h times A, with multiples as repeated additions |
| SignatureChecks.OnlyHonestScalar | conformance/cloudiy_conformance.py:114-127 | with the public key of a and the nonce point of r, and a base of exact order L, the bytes S are accepted if and only if they read as (r + h a) mod L |
| SignatureChecks.TamperedMessage | conformance/cloudiy_conformance.py:472-487 | a signature made for one message passes for another if and only if the two hashes agree modulo L |
| SignatureChecks.SuiteRefusesTampering | conformance/cloudiy_conformance.py:114-127 | the same for the constants of the suite, given that L is prime |
| Groups.PrimeOrder | conformance/cloudiy_conformance.py:54-54 | a point that a prime L kills has exact order L if and only if it is not the unit |
| Groups.ScalarsBelowOrder | conformance/cloudiy_conformance.py:123-127 | below the order of a point equal multiples have equal scalars |
| JobLog.RememberCases | crates/cloudiy/src/core.rs:189-201 | an insert evicts at most the oldest id, never the new one, and keeps order duplicate-free and equal to the map's keys |
| JobLog.RetainsLastAdmitted | crates/cloudiy/src/core.rs:189-201 | the retained ids are the last 1024 admissions in order |
| JobLog.RetainsLatest | crates/cloudiy/src/core.rs:189-201 | every retained id holds its latest inserted value |
| JobLog.SnapshotReplays | crates/cloudiy/src/core.rs:159-186 | a compacted log replays to the store it was written from, payloads erased |
| JobLog.AppendReplays | crates/cloudiy/src/core.rs:203-233 | a written receipt replays as one more insert, unless glued to what an earlier append left |
| JobLog.InsertSynced | crates/cloudiy/src/core.rs:203-233 | a written insert leaves log and memory in step and the log within 2048 lines |
| JobLog.WindowAppends | crates/cloudiy/src/core.rs:203-242 | until a window of 1024 appends is full the log only grows, by one payload-free receipt an insert |
| JobLog.WindowCompacts | crates/cloudiy/src/core.rs:159-242 | the insert that fills the window rewrites the log as one receipt for each job held, in order |
| JobLog.CompactionHeals | crates/cloudiy/src/core.rs:159-186 | after any lost appends a compaction that succeeds puts log and memory in step again |
| JobLog.OpenSynced | crates/cloudiy/src/core.rs:133-152 | opening a readable log gives the store it replays to, in step with it |
| JobLog.RestartHolds | crates/cloudiy/src/core.rs:133-186 | a restart finds the same ids in the same order, each with its identity and other fields and without its payload |
| JobLog.CrashConsistent | crates/cloudiy/src/core.rs:159-233 | at every crash point the log replays to the store just before or just after the insert if and only if the torn part is text (or there was nothing to lose) |
| LogBytes.ReplayAgrees | crates/cloudiy/src/core.rs:138-144 | reading the bytes as one string, line by line, is replaying the log they are |
| LogBytes.CrashAtOffset | crates/cloudiy/src/core.rs:203-287 | for a crash that cuts the append at any byte, the next start finds the store just before or just after the insert if and only if the cut is between two characters of the receipt (or there was nothing to lose), and otherwise nothing |
| LogBytes.AsciiNeverLoses | crates/cloudiy/src/core.rs:203-287 | an ASCII receipt never loses the log, wherever it is cut |
| LogBytes.TornReceiptLoses | crates/cloudiy/src/core.rs:138-144 | a receipt that holds the bytes C3 A9 loses a nonempty log when cut between them |
| LogBytes.CompactedReads | crates/cloudiy/src/core.rs:159-186 | the bytes compaction writes read back as the store, payloads erased |
| LogBytes.RunAtOffsets | crates/cloudiy/src/core.rs:129-242 | over every run whose crashes cut between characters, at any offset, the store holds what a store that never stopped would hold |
| Utf8.CutExactly | crates/cloudiy/src/core.rs:138-138 | a text cut short is text if and only if the cut is between two characters |
| Utf8.DecodeExactly | crates/cloudiy/src/core.rs:138-138 | bytes read as a text if and only if they are its scalar values encoded one after the other (section 3 of RFC 3629) |
| JobLog.RunDurable | crates/cloudiy/src/core.rs:129-242 | over every run of inserts, restarts and crashes with working I/O the store holds what a store that never stopped would hold |
| JobFaults.ReplayAfterAppends | crates/cloudiy/src/core.rs:203-233 | after any appends, failed or not, a restart rebuilds what was there plus the surviving ones, unless a part was torn inside a character |
| JobFaults.NothingLostExactly | crates/cloudiy/src/core.rs:203-233 | every append survives if and only if all were written whole, except that the last may lack its newline |
| JobFaults.FaultyRunTracks | crates/cloudiy/src/core.rs:129-242 | over every run in which appends, compactions and reopenings may fail, memory is coherent and holds every insert since it was loaded, and the file is the last good compaction plus the appends since |
| JobFaults.RestartFinds | crates/cloudiy/src/core.rs:129-242 | what the next restart finds after such a run |
| JobFaults.RestartLoses | crates/cloudiy/src/core.rs:129-242 | without a reopening in between, a restart loses exactly the appends that did not survive |
| JobLog.JobStore.WithPersistence | crates/cloudiy/src/core.rs:133-152 | the constructor replays the log and trims it |
| JobLog.JobStore.Compact | crates/cloudiy/src/core.rs:159-186 | compaction writes the retained receipts, all or nothing |
| JobLog.JobStore.Retain | crates/cloudiy/src/core.rs:189-201 | the in-memory bookkeeping with FIFO eviction |
| JobLog.JobStore.Insert | crates/cloudiy/src/core.rs:203-233 | receipt, cache, then compaction after a window of appends |
| ResourceVectors.CheckedAdd | crates/protocol/src/resource.rs:61-68 | per-kind saturating sum over all kinds of both vectors |
| ResourceVectors.SaturatingSub | crates/protocol/src/resource.rs:71-78 | per-kind saturating difference |
| ResourceVectors.Resources.Declare | crates/protocol/src/resource.rs:108-119 | refused, naming the first offending kind in key order, exactly when some kind shares more than it has |
| ResourceVectors.Resources.Allocate | crates/protocol/src/resource.rs:126-140 | all or nothing, with the first kind in key order that is short and what was available |
| ResourceVectors.KindOrder | crates/protocol/src/resource.rs:10-21 | key order is total and no two kinds share a place in it |
| ResourceVectors.KindsInOrder | crates/protocol/src/resource.rs:10-21 | kinds come in the order of their declaration, custom ones last and by name |
| ResourceVectors.TextLeExactly | crates/protocol/src/resource.rs:10-21 | names are in lexicographic order: a prefix first, otherwise the smaller character where they first differ |
| ResourceVectors.Resources.Release | crates/protocol/src/resource.rs:143-145 | subtracts the request from what is in use |
| ResourceVectors.ReserveReleaseRoundTrip | crates/protocol/src/resource.rs:121-145 | what a reservation takes its release returns, without saturating, for every kind |
| ResourceVectors.TotalWithout | crates/protocol/src/resource.rs:91-95 | the sum of holdings does not depend on the order of the holders |
| NodeResources.RunKeeps | crates/cloudiy/src/core.rs:860-910 | over every run of VM start, stop, reap and workload begin and end, what is in use equals the live reservations and stays within shared and total |
| NodeResources.DeclaredRunsConserve | crates/protocol/src/resource.rs:108-119 | in particular every run from a fresh declaration |
| NodeResources.StartKeeps | crates/cloudiy/src/core.rs:943-997 | starting a VM, including the rollback when the container fails, keeps the account |
| NodeResources.StopReturnsReservation | crates/cloudiy/src/core.rs:1023-1031 | stopping gives back the whole reservation without saturating |
| NodeResources.EndReturnsReservation | crates/cloudiy/src/core.rs:908-911 | so does the end of a workload |
| NodeResources.DrainReturnsAll | crates/cloudiy/src/core.rs:860-910 | a run that leaves nothing live leaves nothing in use |
| NodeResources.ReconcileUndercounts | crates/cloudiy/src/vm.rs:990-1081 | after a restart, whatever could not be re-reserved, what is in use is at most what is live |
| NodeResources.ReconcileExact | crates/cloudiy/src/vm.rs:990-1081 | the account is exact after a restart if and only if all adopted VMs together fit what is shared |
| NodeResources.ReconcileCounts | crates/cloudiy/src/vm.rs:1062-1064 | a restart adds to the account exactly the shares that were free at their turn |
| NodeResources.StopLeaves | crates/cloudiy/src/vm.rs:955-985 | stopping an adopted VM leaves what the others hold, less its own share if that was never reserved |
| NodeResources.StopSafeExactly | crates/cloudiy/src/vm.rs:1062-1079 | stopping an adopted VM never frees what another one holds if and only if its own share was reserved or takes nothing of a kind the others hold |
| NodeResources.RepeatedOwnerLeaks | crates/cloudiy/src/vm.rs:1064-1079 | adopting an owner twice leaks exactly the first machine's share, for every node, share and kind |
| NodeResources.UncountedStopOvercommits | crates/cloudiy/src/vm.rs:1061-1079 | an instance of an unsafe stop: two equal VMs on a node that fits one |
| NodeResources.NodeService.StartVm | crates/cloudiy/src/core.rs:943-997 | which outcome goes with which branch: existing VM, unpaid, no runtime, short with the first short kind, failed container, up; and the new state |
| NodeResources.StartExactly | crates/cloudiy/src/core.rs:943-997 | a machine is added if and only if its owner had none, it was paid for, there is a runtime, its share was free and the container came up; then the share is in use, otherwise the account is what it was |
| NodeResources.FreeExactly | crates/cloudiy/src/core.rs:961-966 | a request is free if and only if with what is in use it fits what is shared, for every kind |
| NodeResources.NodeService.StopVm | crates/cloudiy/src/core.rs:1023-1031 | the record goes and its reservation is released |
| NodeResources.NodeService.ReapExpired | crates/cloudiy/src/vm.rs:779-798 | exactly the VMs with a spent lease are stopped |
| NodeResources.NodeService.BeginWorkload | crates/cloudiy/src/core.rs:860-865 | a call starts exactly when its request is available |
| NodeResources.BeginExactly | crates/cloudiy/src/core.rs:860-865 | a call that starts holds its request under a new number and has it in use; one that does not changes nothing |
| NodeResources.NodeService.EndWorkload | crates/cloudiy/src/core.rs:908-911 | its request is released whatever the execution returned |
| NodeResources.NodeService.Reconcile | crates/cloudiy/src/vm.rs:1009-1081 | line by line over the listing: short lines and lines without owner are skipped, a stopped container that does not come up is dropped, the rest is reserved as far as possible and adopted |
| NodeResources.ContainersAppend | crates/cloudiy/src/vm.rs:1009-1031 | the adopted containers are, in the order of the listing, those of the lines with nine fields and an owner whose container runs or comes up |
| NodeResources.LabelsRead | crates/cloudiy/src/vm.rs:1033-1059 | which quantities, rate, budget and start each label of a listed line gives, present or missing |
| NodeResources.RestartReads | crates/cloudiy/src/vm.rs:584-606 | the labels a start writes are read back as the same rate, budget and start, the same processors and memory, one GPU if any, and nothing of other kinds |
| NodeResources.RestartReservesExactly | crates/cloudiy/src/vm.rs:1033-1063 | a restart reserves for a machine what it held if and only if that was at most one GPU and nothing but processors, memory and the GPU |
| Leases.LastSecondTight | crates/cloudiy/src/vm.rs:330-333 | N seconds cover the budget and N - 1 do not |
| Leases.SpentFromLastSecond | crates/cloudiy/src/vm.rs:345-349 | while the accrual fits 64 bits the lease is spent from second N on and not before |
| Leases.SpentForGood | crates/cloudiy/src/vm.rs:330-349 | spent stays spent up to a time whenever the accrual at that time fits 64 bits, and only then if the lease buys a second |
| Leases.GateBuysASecond | crates/cloudiy/src/core.rs:503-516 | a budget of at least the price, which the payment gate demands, buys more than a second |
| Leases.RemainingIsTight | crates/cloudiy/src/vm.rs:336-342 | the reported remainder lies between N-t-1 and N-t+3599/rate at every t before N if and only if the lease in seconds fits an i64 |
| Leases.NothingLeft | crates/cloudiy/src/vm.rs:336-342 | from N on nothing remains |
| Leases.UnmeteredNeverSpent | crates/cloudiy/src/vm.rs:336-349 | an unmetered VM is never spent |
| Leases.SpentStaysSpent | crates/cloudiy/src/vm.rs:345-349 | a spent lease stays spent as the clock advances |
| Leases.ExpiresExactly | crates/cloudiy/src/vm.rs:317-349 | while the accrual fits, a metered lease is spent at a time if and only if the seconds it buys have passed since its start |
| Leases.CastFailures | crates/cloudiy/src/vm.rs:330-342 | leases the payment gate admits on which each cast fails |
| DiskPlanner.PlanCycle | crates/cloudiy/src/gateway.rs:1410-1473 | the loops compute the planner's function: gather, rank, commit pins, fill |
| DiskPlanner.PlanSound | crates/cloudiy/src/gateway.rs:1410-1473 | pins are kept, used is the size of the distinct target images, within the larger of budget and pins, and nothing skipped would still fit |
| DiskPlanner.SumsBounded | crates/cloudiy/src/gateway.rs:1455-1473 | no sum the planner forms exceeds the size of all catalog images |
| DiskPlanner.GreedyNearOptimal | crates/cloudiy/src/gateway.rs:1442-1473 | without pins and sharing, the chosen score plus the first skipped score is at least that of any candidate set that fits |
| DiskPlanner.PlanNearOptimal | crates/cloudiy/src/gateway.rs:1410-1473 | the same for the whole planner |
| DiskPlanner.PlanEarns | crates/cloudiy/src/gateway.rs:1418-1473 | without pins and sharing, no set of keys whose images fit the budget earns more, in requests times price, than the plan and one more wanted entry |
| DiskPlanner.CandidateEarns | crates/cloudiy/src/gateway.rs:1418-1441 | every candidate is a catalog entry that can run here and is asked for, scored by requests times price, as large as its image |
| DiskPlanner.PlanNearOptimalBesidePins | crates/cloudiy/src/gateway.rs:1443-1473 | beside pins whose images no other candidate shares, the same bound against what the pins leave of the budget |
| Hosting.RunKeepsServed | crates/cloudiy/src/gateway.rs:1094-1141 | over every run of install, uninstall and cycles each hosted catalog key's image is present |
| Hosting.ImageLeavesUnused | crates/cloudiy/src/gateway.rs:1128-1139 | an image leaves only with a dropped key and only when no hosted key is left on it |
| Hosting.CycleEvictsExactly | crates/cloudiy/src/gateway.rs:1494-1519 | a cycle drops a key if and only if the controller installed it, the plan leaves it out, it is not warm and its residency is over |
| Hosting.CycleExactly | crates/cloudiy/src/gateway.rs:1475-1519 | which keys a cycle leaves hosted and with which install times: the hosted ones it does not drop, as they were, and the chosen ones whose image is present or is pulled, with the time of the cycle |
| Hosting.CycleReclaims | crates/cloudiy/src/gateway.rs:1505-1518 | the image of a dropped key is gone after the cycle if and only if no hosted catalog key is left on it, where removals succeed |
| Hosting.HandInstallPins | crates/cloudiy/src/gateway.rs:1094-1112 | a hand install makes a pin if and only if no automatic install time is left |
| Hosting.PinSurvivesRun | crates/cloudiy/src/gateway.rs:1443-1519 | a hosted model without install time stays hosted over every run of installs, cycles and uninstalls of other models |
| Hosting.UninstallLeavesMark | crates/cloudiy/src/gateway.rs:1117-1141 | a legal run of automatic install, uninstall, hand install and idle cycle evicts the hand-installed model |
| Hosting.ModelHost.ModelsInstall | crates/cloudiy/src/gateway.rs:1094-1112 | outcome and new state of an install |
| Hosting.InstallExactly | crates/cloudiy/src/gateway.rs:1094-1112 | exactly the installed key becomes hosted and its image present, if it is in the catalog and present or pulled; install times stay |
| Hosting.ModelHost.Shared | crates/cloudiy/src/gateway.rs:1128-1133 | the scan finds whether a hosted key needs the image |
| Hosting.ModelHost.ModelsUninstall | crates/cloudiy/src/gateway.rs:1117-1141 | outcome of an uninstall and the new hosted set, images and install times |
| Hosting.UninstallExactly | crates/cloudiy/src/gateway.rs:1117-1141 | exactly the dropped key stops being hosted; an image goes if and only if it is that key's, its removal succeeds and no other hosted catalog key runs on it; install times stay |
| Hosting.ModelHost.AutohostCycle | crates/cloudiy/src/gateway.rs:1475-1519 | the two loops of a cycle |
| DemandOracle.Store.RecordInterest | crates/cloudiy/src/directory.rs:71-82 | push, drop stale, drop excess |
| DemandOracle.QueueSuffix | crates/cloudiy/src/directory.rs:71-82 | the queue is the newest part of the history, and what is missing is stale or beyond the cap |
| DemandOracle.InterestExact | crates/cloudiy/src/directory.rs:71-110 | for nondecreasing times the windowed count is the smaller of 100000 and the count over the full history |
| DemandOracle.DemandExact | crates/cloudiy/src/directory.rs:71-110 | the same over every run of pings to any keys |
| DemandOracle.NeverOverstated | crates/cloudiy/src/directory.rs:71-110 | whatever the clock does the count is never too large |
| DemandOracle.AnyOrderExact | crates/cloudiy/src/directory.rs:71-110 | below the cap the count is exact for pings in any order once the clock has passed them all |
| DemandOracle.ReadingExactly | crates/cloudiy/src/directory.rs:71-110 | for any history and reading time the count is exact if and only if every dropped ping is stale at that time |
| DemandOracle.ReadingBehind | crates/cloudiy/src/directory.rs:71-110 | a reading behind the newest ping is exact if and only if no ping lies between the two cut-off times |
| DemandOracle.SteppingBackLosesPings | crates/cloudiy/src/directory.rs:71-82 | an instance of a reading that misses a live ping |
| DemandOracle.SupplyCountsProviders | crates/cloudiy/src/directory.rs:86-96 | the supply shown equals the number of announcing providers if and only if none lists the key twice |
| DemandOracle.Store.TallySupply | crates/cloudiy/src/directory.rs:86-96 | the double loop computes the supply of every key |
| DemandOracle.Store.DemandTable | crates/cloudiy/src/directory.rs:86-116 | one row per key with demand or supply, with both counts |
| DemandOracle.Store.InsertAnnouncement | crates/cloudiy/src/directory.rs:54-63 | only verifying announcements enter, stale ones go, and at most 10000 are kept |
| RateLimiter.Limiter.EndpointRateOk | crates/cloudiy/src/core.rs:680-698 | retain, decide, push |
| RateLimiter.AtMostThirty | crates/cloudiy/src/core.rs:680-698 | no half-open window of sixty seconds holds more than thirty admissions |
| RateLimiter.RefusedExactly | crates/cloudiy/src/core.rs:680-698 | a call is refused if and only if at least thirty admissions are recent |
| RateLimiter.RefusedByCount | crates/cloudiy/src/core.rs:680-698 | the same by count: refused if and only if at least thirty admissions are less than sixty seconds old, to the nanosecond |
| RateLimiter.OwnersIndependent | crates/cloudiy/src/core.rs:680-698 | an owner's state depends on that owner's calls alone |
| RateLimiter.LimitHolds | crates/cloudiy/src/core.rs:680-698 | the limit holds over every interleaving of owners |
| ServedEscrows.OrderIsNewest | crates/cloudiy/src/core.rs:262-275 | the queue is the newest 4096 of all admissions, without repetition |
| ServedEscrows.RefusedExactly | crates/cloudiy/src/core.rs:490-500 | a verified escrow is refused if and only if it is among the newest 4096 |
| ServedEscrows.AdmittedExactly | crates/cloudiy/src/core.rs:480-531 | an escrow was ever admitted if and only if some attempt with it was verified |
| ServedEscrows.Separated | crates/cloudiy/src/core.rs:249-275 | between two admissions of one escrow at least 4096 others were admitted |
| ServedEscrows.Served.Insert | crates/cloudiy/src/core.rs:263-274 | set and queue keep holding the same distinct escrows |
| ServedEscrows.Served.Authorize | crates/cloudiy/src/core.rs:480-531 | admission as one step: replay check, verification, reservation |
| Dechunk.DechunkBody | crates/cloudiy/src/gateway.rs:2187-2207 | the loop computes the decoder |
| Dechunk.HexValueExactly | crates/cloudiy/src/gateway.rs:2197-2197 | digits read as a number if and only if they are that number printed in base sixteen, in any letter case, with any leading zeros, and it is below 2^64 |
| Dechunk.PrintedReads | crates/cloudiy/src/gateway.rs:2197-2197 | a printed number reads back, and one of 2^64 or more is rejected |
| Dechunk.ChunkSizeExactly | crates/cloudiy/src/gateway.rs:2191-2197 | a size line is read as n if and only if it is UTF-8 that spells n: blanks, perhaps a plus sign, the digits of n, blanks, perhaps a semicolon and anything |
| Dechunk.SizeRead | crates/cloudiy/src/gateway.rs:2191-2198 | a legal size line, with its length printed in base sixteen, is read as announced if and only if its extension is UTF-8 |
| Dechunk.CrlfAfter | crates/cloudiy/src/gateway.rs:2190-2190 | the first CRLF is the one that ends the line |
| Dechunk.DecodeUndoesEncode | crates/cloudiy/src/gateway.rs:2187-2207 | for every split, with each length printed in base sixteen in any letter case and with any leading zeros, for every extension and trailer, decoding returns the body if and only if every extension is UTF-8 (section 7.1 of RFC 9112) |
| Dechunk.DecodeShrinks | crates/cloudiy/src/gateway.rs:2187-2207 | a decoded body is at least three bytes shorter than its input |
| Dechunk.TruncationRejected | crates/cloudiy/src/gateway.rs:2187-2207 | a body cut anywhere before the end of its closing line is rejected |
| TokenStream.Stream | crates/cloudiy/src/gateway.rs:3030-3089 | what is sent is the batch over the joined bytes, cut where the client hangs up: chunk boundaries do not matter |
| TokenStream.BatchExactly | crates/cloudiy/src/gateway.rs:3040-3089 | the batch is, and nothing else is, one token for each nonempty response of a parsable line up to and including the first done one, in order, then the count of that done record, or 0 |
| TokenStream.OneFinalAtEnd | crates/cloudiy/src/gateway.rs:3050-3089 | the output is nonempty tokens followed by exactly one final record |
| TokenStream.NothingAfterDone | crates/cloudiy/src/gateway.rs:3058-3075 | lines after the first done record have no effect |
| Newlines.UnterminatedTailDropped | crates/cloudiy/src/gateway.rs:3040-3042 | bytes after the last newline are dropped |
| SessionFraming.FrameRoundTrip | crates/common/src/proto.rs:210-264 | a session frame reads back as itself if and only if it is not the exit code i32::MIN and its text is UTF-8 |
| SessionFraming.DecodeExactly | crates/common/src/proto.rs:238-264 | bytes are read as a frame if and only if they are what is written for one that reads back as it, or begin with the end-of-file tag |
| SessionFraming.EncodeLayout | crates/common/src/proto.rs:210-236 | the bytes of every session frame: tag, then fields, numbers high byte first |
| SessionFraming.FrameLayout | crates/common/src/proto.rs:147-152 | the length of a frame in four bytes, high byte first, then the payload |
| SessionFraming.StreamRoundTrip | crates/common/src/proto.rs:147-264 | any list of frames that fit reads back in order and ends cleanly |
| SessionFraming.CutStream | crates/common/src/proto.rs:156-171 | a cut anywhere yields the whole frames before it, then a clean end on a boundary and an error elsewhere |
| SessionFraming.WriteFrame | crates/common/src/proto.rs:147-152 | writes length and payload, or nothing when the payload is too long |
| SessionFraming.ReadFrame | crates/common/src/proto.rs:156-171 | clean end, whole frame or error, with the rest of the stream left unread |
| SessionFraming.ReadExactly | crates/common/src/proto.rs:156-171 | a payload is read if and only if the stream begins with its frame and it is not too long; a clean end is nothing at all; a length beyond the limit is refused |
| SessionFraming.WriteSessionFrame | crates/common/src/proto.rs:210-236 | writes the tagged frame exactly when it fits |
| SessionFraming.ReadSessionFrame | crates/common/src/proto.rs:238-264 | reads one tagged frame |
| Utf8.LossyRepairs | crates/common/src/proto.rs:260-260 | lossy decoding always yields UTF-8 and changes nothing if and only if it was UTF-8 already |
| Utf8.BadLengthMaximal | crates/common/src/proto.rs:260-260 | what one replacement character stands for is as long as it can be while it could still begin a well-formed sequence |
| Reputation.ScoreBounds | crates/cloudiy/src/reputation.rs:66-74 | with p passes and f failures in any order the score is in [0, 1) and between 0.25^f (1 - 0.95^p) and 1 - 0.95^p |
| Reputation.FailureCostsPasses | crates/cloudiy/src/reputation.rs:57-90 | any failure puts the provider in tier New, and the tiers then need at least 8, 26 and 53 passes |
| Reputation.ClimbBackExactly | crates/cloudiy/src/reputation.rs:57-90 | those numbers are reached exactly after a hundred clean verdicts and one failure |
| Reputation.TierCapWithinScoreCap | crates/cloudiy/src/reputation.rs:132-198 | the tier's cap is at most the score's, and equal exactly where the history is deep enough |
| Reputation.DepthBindsOnlyVeterans | crates/cloudiy/src/reputation.rs:83-90 | over every history only the veteran's depth requirement can bind |
| Reputation.Registry.RecordProbe | crates/cloudiy/src/reputation.rs:248-258 | a probe counts like its verdicts one after the other |
| Reputation.Registry.RecordCanary | crates/cloudiy/src/reputation.rs:241-245 | one verdict updates one provider |
| Normalize.NormalizeText | crates/cloudiy/src/canary.rs:78-95 | the loop computes the lowercased maximal alphanumeric runs joined by single spaces |
| Normalize.WordsExactly | crates/cloudiy/src/canary.rs:78-95 | other characters, then a whole alphanumeric run, then the rest: the run in lower case is the first word and the rest gives the others |
| Normalize.LowerTable | crates/cloudiy/src/canary.rs:82-84 | each of the 26 upper-case letters becomes its lower-case one and nothing else changes |
| Normalize.WordsOfJoin | crates/cloudiy/src/canary.rs:78-95 | the words can be read back from the normal form |
| Normalize.Idempotent | crates/cloudiy/src/canary.rs:78-95 | normalising twice changes nothing |
| Normalize.SameWords | crates/cloudiy/src/canary.rs:78-95 | two texts normalise alike if and only if they have the same words |
| Normalize.VerdictOfWords | crates/cloudiy/src/canary.rs:131-138 | a Contains verdict depends only on the word sequence |
| Normalize.WordsInARowPass | crates/cloudiy/src/canary.rs:131-138 | an answer with the expected words in a row passes |
| Normalize.PassesExactly | crates/cloudiy/src/canary.rs:131-138 | an answer passes if and only if it has the expected words in a row, where the outer ends of the first and last may lie inside longer words |
| Normalize.PassesLoosely | crates/cloudiy/src/canary.rs:131-138 | an answer passes without the exact words in a row if and only if it has such a run and every one has a longer word at an end |
| Normalize.PartOfAWordPasses | crates/cloudiy/src/canary.rs:131-138 | an instance: the expected word inside a longer one |
| SignedMessages.Unambiguous | crates/common/src/sig.rs:16-28 | payloads of the four builders are equal if and only if they are of one kind and agree on every field |
| SignedMessages.Layout | crates/common/src/sig.rs:16-28 | at which byte each field of the four payloads lies, the input digest before the output digest |
| SignedMessages.SigningPayload | crates/common/src/sig.rs:16-28 | the result payload, part by part |
| SignedMessages.AnnounceSigningPayload | crates/common/src/sig.rs:78-86 | the announcement payload, part by part |
| SignedMessages.ReputationSigningPayload | crates/common/src/sig.rs:149-157 | the reputation payload, part by part |
| SignedMessages.RunAuthMessage | crates/cloudiy/src/payments.rs:99-110 | the run authorization, part by part |
| SignedMessages.ZeroDelimits | crates/common/src/sig.rs:20-21 | a zero byte ends a zero-free domain unambiguously |
| Uuid.TextRoundTrip | crates/cloudiy/src/core.rs:438-440 | the written form of a job id reads back (section 4 of RFC 9562) |
| Uuid.ParseExactly | crates/cloudiy/src/core.rs:438-440 | a text reads as an id if and only if it is the plain, hyphenated, braced or URN form of digits that spell it |
| Uuid.TextOfNumber | crates/cloudiy/src/core.rs:438-440 | the written form is the 128-bit number in lower-case base sixteen, hyphenated |
| Uuid.CanonicalExactly | crates/cloudiy/src/core.rs:438-440 | a text that reads as an id is its written form if and only if it is hyphenated, unwrapped and lowercase |
| ReleaseMessage.Rebuild | crates/cloudiy/src/solana.rs:806-818 | the rebuilt message is the result payload for the canonical id |
| ReleaseMessage.RebuiltIsSigned | crates/cloudiy/src/solana.rs:806-818 | it is the message the provider signed if and only if the job id was written canonically |
| ReleaseMessage.Ed25519VerifyIx | crates/cloudiy/src/solana.rs:754-783 | the instruction data, part by part |
| ReleaseMessage.CheckReadsBack | crates/cloudiy/src/solana.rs:754-783 | the offsets read back key and signature, and the message if and only if it is shorter than 65536 bytes |
| ReleaseMessage.ReleaseChecksSignedMessage | crates/cloudiy/src/solana.rs:790-828 | for a canonical job id the chain checks exactly the signed message |
| ReleaseMessage.ParseJob | crates/cloudiy/src/payments.rs:31-62 | the walk over the account data |
| ReleaseMessage.LayoutRoundTrip | crates/cloudiy/src/payments.rs:31-62 | a job in the documented layout is read back field by field |
| ReleaseMessage.FieldPlaces | crates/cloudiy/src/payments.rs:31-62 | at which byte each field of an account lies |

## Assumptions

- Ed25519: p and, for what is refused, L are prime (for p: no zero divisors, Fermat's little theorem),
  D is not a square, addition is associative, and L kills the base point. Closure, completeness,
  commutativity, the unit, independence of representatives and the exact order of the base point are
  proved. SHA-512 and SHA-256 are arbitrary functions; the
  latter has 32-byte results.
- Job log: appends add to the end of the file, the rename of a compaction is atomic, a receipt is one
  line of UTF-8 that parses to the same job, no shorter part of it parses, and neither does a
  receipt glued to what an earlier append left behind.
- Hosting: the persisted set of hosted models starts with all images present, and images are removed
  only by the node.
- Restart: Docker keeps container names unique and a name is a function of the owner, so owners do
  not repeat.
- UUID texts are read as the `uuid` crate documents; the crate itself is not part of this model.

## Left out

- Lock interleavings: the status check, reservation and insert of `start_vm` are one step, as are the replay check and the insert of `authorize`, and each hosting operation.
- A workload call that is cancelled between its reservation and its release: the model ends every call.
- The permit that bounds concurrent workloads, and the wording of error messages.
- NodeResources.NodeService.Reconcile: takes each label as its parsed value or none, because number and date parsing is the library's; the image, ports and volume of a record, which no accounting reads, are not modelled.
- DiskPlanner.PlanCycle: sums sizes without the 64-bit bound of the code; `SumsBounded` shows that the bound is met whenever all catalog images together fit it. Takes the demand already folded over the directories.
- The near-optimality bound for candidates that share images with each other or with a pin.
- The timestamps of receipts, and carriage returns before a newline, which no receipt contains. A missing log file is an empty one.
- DemandOracle.Store.TallySupply: counts without the 32-bit bound of the code.
- Normalize.NormalizeText: is about ASCII text, because lowercasing outside ASCII can yield marks that are not alphanumeric.
- Floating point: scores, densities and thresholds are reals, so rounding and NaN are not modelled.
- JSON, base64, base58, SHA-256, SHA-512, signing and program-derived addresses, except as parameters.
- The final-record fields other than the token count, and the message sent before a token stream starts.
- Order of iteration over hash tables is arbitrary in the model, as it is in the code.
- The Exact and Number modes of a canary, the freshness and deadline checks of an escrow, and what makes an announcement verify.
- The scheduler, SDK quorum tally, escrow contract, kernels, HTTP routes, origin guard, catalogues, fee formulas and the command line.
