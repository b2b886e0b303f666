# Reservoir: a model and its proofs

Reservoir is a replicated, Redis-like key-value store. This project models the parts of it that carry state across calls, nodes or crashes, and proves what they keep over whole runs.

| part | files | main results |
|---|---|---|
| Leader election | `ElectionSpec`, `ElectionSafety`, `ElectionProgress`, `ElectionCompletes`, `ElectionUnguarded`, `ClusterManager` | Election Safety, agreement of recorded leaders, ballots only advance; every leader that is heard is recorded, and an election can always be finished |
| Last-write-wins replication | `Hlc`, `LwwSpec`, `LwwConvergence`, `LwwStore`, `LwwKeyspace`, `Replication`, `ReplicaNode`, `ReplicaRun`, `ReplicaHeard`, `ReplicaAgreement`, `Retention`, `ForgettingRun`, `LocalWrites` | strong eventual consistency over whole runs, anti-entropy as a join, invisible tombstone collection and what the window must be, causal and unique stamps |
| Commit log | `LogEntry`, `LogReplay`, `KeyOrder`, `CompactionSpec`, `CrashSafety`, `Compactor`, `LogCodec`, `LogFormat`, `LogDamage`, `LogReopen`, `TornLog`, `LogReader` | no crash loses or revives a key, down to torn bytes; which bytes are a record, and what the reader makes of damaged and cut files |
| Lists | `DequeSpec`, `Deque` | a ring buffer that refines a sequence |
| Protocol | `RespSpec`, `RespLaws`, `Resp` | which bytes are read as which command, round trip within the limits, stable argument slices |
| Patterns | `Glob`, `GlobLaws` | the matcher decides the declarative meaning of a pattern, however it is written |
| Deferred commands | `DeferredSpec`, `Deferred` | each command is pending, run or cancelled, once, and in order |
| Strings and accounting | `Integers`, `AccountingSpec`, `StringLaws`, `Accounting` | the store refines a map from keys to bytes, and its counters are conserved, over any run |

`Wrappers`, `Digits` and `ByteReader` hold what several parts share.

Objects whose methods change fields are classes here too. Each of their methods is proved against a function of the old state, and the theorems about runs are about those functions.

## How the replication proofs go

A string key is one slot and each element of a set key is another. A slot holds the winner of its events: the later stamp, and on equal stamps of an element the add. `ApplyIsJoin` shows that every stamped operation is the join of one fact into one slot. Convergence, pulls, full merges and tombstone collection follow from that alone.

A run of the cluster is made of the steps that `ReplicaNode` proves of its methods: a write, a pushed event, a digest that a peer took at some earlier moment, a collection. `ReplicaHeard.Heard` says which writes have reached a replica, directly or through digests; a digest entry speaks for every write of its slot that is not newer than it. The invariant compares each replica with an ideal one that has heard the same and never collects, and holds in every run; what a collection may make visible is a separate, exact condition. `Retention` then follows local time: it says which deletes a collection forgets, and that the window is enough for replicas that every write reaches within it.

## How the compaction proof goes

A write is buried if a newer delete of its key comes after it in the log. A directory of segment files is faithful to the history if it invents nothing, holds the newest record of every key that is alive, and of every other key holds only buried writes. Appending keeps this exactly when the record is no late write: no write that comes when the newest record of its key is a newer delete. Putting the compacted records in front keeps this. So does dropping the files they were made from, oldest first. The final rename reads exactly like removing the oldest file. Hence every prefix of the file operations leaves a faithful directory, also when an earlier compaction was interrupted and its marker is still there. `TornLog` repeats the runs on the bytes of the files: each file operation does to the bytes what it does to the records read from them, and a batch cut by a crash is read as its whole frames.

## What the proofs found

- A list trimmed to a number of elements equal to its capacity keeps its tail one past the end of the array. After a pop at the front, a push at the back is out of range (`DequeModel.Deque.PushBack`, `DequeModel.TrimmedListPanics`). A deque built from such a number of elements has the same tail (`DequeModel.RestoredListPanics`); for lists nothing in the repository builds one so.
- Removing with the smallest 64-bit count removes nothing (`DequeSpec.SmallestCountRemovesNothing`).
- Anti-entropy applies a peer's stamps without merging them into the local clock, so a later local write can be dropped (`LocalWrites.PullHidesLocalWrite`). That is the only way (`LocalWrites.OnlyPullsHideWrites`), and whether a write lands can be told from the next stamp and the fact held (`LocalWrites.LocalWriteLandsIff`).
- A replica that collects a removal before a peer has heard of it can differ from that peer even after a full rotation each way (`ForgettingRun.ForgettingDisagrees`).
- A log in which a write comes when the newest record of its key is a newer delete is compacted to one in which the key is alive again (`CompactionSpec.LateWriteIsRevived`, `CompactionSpec.EveryLateWriteIsRevived`). Crash safety holds for all other appends, and this is exactly what they must avoid (`LogEntry.AppendIsFaithfulIff`, `CompactionSpec.FoldStaysExactIff`).
- A segment cut inside a frame is reopened for append as it is. The next entry is then delivered only if the frame spliced from the two happens to parse to it (`LogReopen.AppendedAfterTornIff`), and some entry is always lost (`LogReopen.TornLosesSome`), so that even a completed flush can be lost (`TornLog.ReopenedRunLoses`). Reopening is safe exactly at the end of a frame (`LogReopen.ReopenIsSafeIff`).
- After an error the reader looks for the next length below the greatest size, so a record of exactly that size, which is accepted and read in its place, is not found again (`LogDamage.GreatestIsNotFound`).
- The CRC covers operation, key and value as one text: bytes moved from the end of the key to the front of the value leave it unchanged (`LogFormat.CrcTellsApartIff`).
- The element operations of replication cannot carry a NUL byte or the empty element (`Replication.MembersSurviveTheWire`, `Replication.EntryStandsForItsFact`).
- Adding a deferred command whose id is in use breaks cancelling it (`DeferredSpec.AddAgreesIff`, `DeferredSpec.CancelAfterRepeatStillRuns`).
- Freeing an empty value under the empty key moves the memory counters by the size of its record, always the same way, so that the error never cancels out (`AccountingSpec.BalanceKeptIff`, `AccountingSpec.StoreBalancedIff`).
- A counter that reaches the smallest 64-bit integer is stored as "-" and cannot be incremented again (`Integers.FormatRoundTripIff`, `AccountingSpec.IncrementsAddUp`).
- A node update raises the receiver's term without making it a follower. If the receiver is a leader or a candidate, two leaders of one term can follow (`ElectionUnguarded.RaisedLeaderRun`, `ElectionUnguarded.RaisedCandidateRun`); if node updates raise only followers, Election Safety holds (`ElectionSafety.ElectionSafety`), and no other raise keeps the invariant it rests on (`ElectionSafety.NodeUpdateKeepsInvIff`).
- `RecoverFromInterruptedCompaction` is called nowhere in the repository. The crash-safety theorem covers runs with and without it.

## Assumptions

Election: membership is fixed: the only joins are those of members that come back; in the theorems that ask for it, node updates raise the term of followers only; each handler and each election start is one atomic step; a node keeps its identity over a restart; storing nil in `VotedFor` clears the vote; writing the state file succeeds; terms do not wrap. A crash inside a handler is its step followed by a crash, with the packets lost, or the crash alone.

Replication: only stamped operations are used, each write under one stamp; a key is used with one type; the logical counter does not wrap in a run; origins are distinct; memory, key and value limits are not reached; no TTLs. Where the wire encoding matters, set keys and members hold no NUL byte and members are not empty. Clocks are not restarted. Agreement of replicas that collect tombstones asks that nothing stale lands at them (`ReplicaAgreement.NothingStale`), which holds if every write reaches them within the retention window (`Retention.Timely`), and agreement by rotations also that neither has forgotten, nor forgets meanwhile, anything that the other has not heard (`ReplicaAgreement.Shares`).

Commit log: the file operations are atomic and fail only by a crash; a flush is atomic in `CrashSafety`, and in `TornLog` brings any number of its first bytes to the file; in `TornLog` every record passes the size check and carries its CRC, and no batch is flushed to a file that was cut inside a frame; CRC32 is any function of the bytes; two records of a key with one timestamp are the same record; no write is appended when the newest record of its key is a newer delete. The meaning of a log is `GetLatestSnapshot`, which is server recovery for logs of SET, INCRBY and DEL records.

Accounting: the value and counter updates of one operation are one step; 64-bit counters do not overflow.

## Model

| member | source | states |
|---|---|---|
| ElectionSafety.ElectionSafety | internal/cluster/handlers.go:230-323 | At any two moments of any run (lost, duplicated and reordered messages, failed sends, crashes, restarts, rejoins, and node updates that raise the term of followers only), two nodes that are leader in the same term are the same node: Election Safety, section 5.2 of the Raft paper |
| ElectionSafety.LeaderRecordsAgree | internal/cluster/handlers.go:43-73 | At any two moments of any such run, nodes whose recorded leader terms are equal record the same leader, and a recorded leader term never exceeds the node's own term |
| ElectionSafety.NoConflictingClaim | internal/cluster/handlers.go:49-71 | In every state such a run reaches, no leader heartbeat in flight that passes the term test conflicts with the receiver's record: the branch that ignores a conflicting claim is dead |
| ElectionSafety.BallotsAdvance | internal/cluster/cluster.go:223-257 | Through any run at all, crashes and all node updates included, the (term, vote) in a node's state file only moves to a later term or fills an empty vote, so no node votes twice in a term |
| ElectionSafety.RunsKeepInv | internal/cluster/handlers.go:13-323 | Every state that such a run reaches keeps: the vote in memory is on disk, candidates count only real votes, leaders and recorded leaders have a majority of votes, one vote per voter and term |
| ElectionSafety.RunsOnlyAddVotes | internal/cluster/cluster.go:223-257 | Along any run membership is constant and a vote once durable is never forgotten |
| ElectionSafety.WinnersAgree | internal/cluster/cluster.go:440-445 | Two candidates with a majority of the fixed membership in one term are the same |
| ElectionSafety.VoteRequestIsSound | internal/cluster/handlers.go:230-275 | Answering a vote request, from any node state that keeps the invariant, advances the ballot, keeps the invariant, and grants only a vote already on disk |
| ElectionSafety.VoteResponseIsSound | internal/cluster/handlers.go:278-323 | Counting a response keeps the invariant; a win is backed by distinct real votes however often a response is repeated |
| ElectionSafety.HeartbeatIsSound | internal/cluster/handlers.go:13-76 | Hearing a heartbeat keeps the invariant, and records a leader only if it won the term it claims |
| ElectionSafety.StartElectionIsSound | internal/cluster/cluster.go:413-462 | Starting an election persists the new term and self-vote first, and keeps the invariant whichever sends fail, also with no peers |
| ElectionSafety.WinningIsSound | internal/cluster/cluster.go:467-484 | Becoming leader with enough voters keeps the invariant, and every heartbeat it sends claims a term it won |
| ElectionSafety.InstallKeepsInv | internal/cluster/cluster.go:198-257 | A handler whose effect is sound for its own node keeps the invariant of the whole cluster, network included |
| ElectionSafety.RejoinIsSound | internal/cluster/handlers.go:92-177 | Announcing a member that joins again changes no ballot and keeps the invariant |
| ElectionSafety.NodeUpdateIsSound | internal/cluster/handlers.go:371-411 | A node update that does not raise the term of a candidate or a leader keeps the invariant of its receiver, whoever sent it and whatever term it carries |
| ElectionSafety.NodeUpdateKeepsInvIff | internal/cluster/handlers.go:377-380 | A node update keeps the invariant of the whole cluster exactly when it does not raise the term of a candidate or a leader |
| ElectionCompletes.ElectionCompletes | internal/cluster/cluster.go:413-462 | An election can always be finished: from any state that any run with such node updates reaches, a node that is no leader, and whose term no other exceeds, becomes leader of the next term in some continuation of the run, with every other member following it, its record of leader and term included |
| ElectionProgress.LeaderIsRecorded | internal/cluster/handlers.go:13-76 | In any such run, whenever a leader's heartbeat reaches a node that knows its sender in a term no older than the node's own, the node afterwards follows: its term and its recorded leader term are that term, and its recorded leader is the sender |
| ElectionProgress.RecordsMove | internal/cluster/handlers.go:43-73 | In any such run, what a step does to a node's record: a crash clears it, a heartbeat of that kind and a win of its own set it, and no other step, request, response, update or heartbeat touches it |
| ElectionProgress.RecordIsNotTaken | internal/cluster/handlers.go:49-61 | In any node state at all, a heartbeat never gives the record of a term to another node than the one recorded for it |
| ElectionProgress.TermsMove | internal/cluster/handlers.go:13-73 | In any such run, a node's term is the latest it has met in a request, a node update or a known member's heartbeat; standing takes it up by one, and a crash back to the state file's |
| ElectionProgress.RolesMove | internal/cluster/handlers.go:13-323 | In any such run, a leader stays one as long as its term does, only a candidate becomes leader, and a later term makes a follower |
| ElectionProgress.StandingMakesCandidate | internal/cluster/cluster.go:413-462 | In any such run, a node that stands sends its request to exactly the members to whom sending succeeds, and is a candidate with its own vote unless it is alone or a send failed |
| ElectionProgress.RequestIsAnswered | internal/cluster/handlers.go:230-275 | In any such run, a vote request is answered to its candidate and to nobody else, in the term that the receiver is then in; it is granted if its term is later, or the same with the vote free or already the candidate's |
| ElectionProgress.VoteIsGivenAgain | internal/cluster/handlers.go:230-275 | In any such run, a vote once cast is given again to the same candidate in the same term, however often it asks, also after the voter has crashed |
| ElectionProgress.GrantIsCounted | internal/cluster/handlers.go:278-323 | In any such run, every grant that reaches a candidate in its term is counted, and it becomes leader exactly when its voters are a majority |
| ElectionProgress.BallotsMove | internal/cluster/handlers.go:13-73 | In any such run, a node votes for itself when it stands, and for the candidate of a request when the term is later or its vote free; a later term heard with a heartbeat empties the vote; the state file then holds the ballot, and nothing else delivered writes it |
| ElectionProgress.PeersMove | internal/cluster/handlers.go:13-41 | In any such run, the term that a node has noted of a peer is the highest heard from it since it last joined |
| ElectionProgress.OthersAreTold | internal/cluster/cluster.go:382-394 | In any such run, a tick and a win tell every other member the node's term and role, and a member's return is told to all others |
| ElectionProgress.NextTermIsModular | internal/cluster/cluster.go:413-462 | Terms are counted modulo 2^64 |
| ElectionProgress.WinningIsIdempotent | internal/cluster/cluster.go:467-484 | From any node state, a second win of the same election changes nothing and tells nobody |
| ElectionProgress.LaterResponseStepsDown | internal/cluster/handlers.go:278-323 | From any node state, a candidate answered in a later term than its own steps down into it, without a vote |
| ElectionUnguarded.RaisedLeaderRun | internal/cluster/handlers.go:377-380 | A run of the handlers, in which a node update raises the term of a leader, that ends with two leaders in one term |
| ElectionUnguarded.RaisedCandidateRun | internal/cluster/handlers.go:377-380 | A run of the handlers, in which a node update raises the term of a candidate, that ends with two leaders in one term |
| ClusterManagerModel.ClusterManager.constructor | internal/cluster/cluster.go:198-218 | A restarted node has exactly the ballot of the state file, and no role, leader or election of before |
| ClusterManagerModel.ClusterManager.PersistState | internal/cluster/cluster.go:223-257 | The state file afterwards holds the current term and vote, and nothing else changes |
| ClusterManagerModel.ClusterManager.SendHeartbeats | internal/cluster/cluster.go:382-394 | One heartbeat with the node's own term and role to every peer |
| ClusterManagerModel.ClusterManager.BecomeLeader | internal/cluster/cluster.go:467-484 | Idempotent within an election: the second call changes and sends nothing; the first records this node as leader of the current term and announces it |
| ClusterManagerModel.ClusterManager.BeginCampaign | internal/cluster/cluster.go:413-445 | The new term, self-vote, voter set and vote count, with the ballot persisted, as the specification's campaign |
| ClusterManagerModel.ClusterManager.StartElection | internal/cluster/cluster.go:413-462 | Whole new state and packets of an election start equal the specification step, for every set of failed sends |
| ClusterManagerModel.ClusterManager.HandleVoteRequest | internal/cluster/handlers.go:230-275 | Whole new state and reply equal the specification step that the safety theorems are about |
| ClusterManagerModel.ClusterManager.HandleVoteResponse | internal/cluster/handlers.go:278-323 | Whole new state and packets equal the specification step |
| ClusterManagerModel.ClusterManager.HandleHeartbeat | internal/cluster/handlers.go:13-76 | Whole new state equals the specification step, the recorded leader and its term and the ignored claims included; `ElectionProgress.LeaderIsRecorded` says what that step records |
| ClusterManagerModel.ClusterManager.HandleRejoin | internal/cluster/handlers.go:92-177 | For a member that is known: whole new state and the node updates sent equal the specification step |
| ClusterManagerModel.ClusterManager.HandleNodeUpdate | internal/cluster/handlers.go:371-411 | For a member that joined: whole new state, the raised term included, equals the specification step |
| Hlc.AfterNow | pkg/types/hlc.go:65-76 | A local timestamp carries the larger of last and physical time, and is later than the last one exactly when the 32-bit counter does not wrap, however far physical time goes back |
| Hlc.AfterUpdate | pkg/types/hlc.go:82-116 | A merged timestamp carries the largest physical time, and is later than both the last and the remote one exactly when the counter does not wrap |
| Hlc.NowIsEarliestIff | pkg/types/hlc.go:65-76 | Unless the counter wraps, a local timestamp is the one earliest that is later than the last and not before physical time |
| Hlc.UpdateIsEarliestIff | pkg/types/hlc.go:82-116 | Unless the counter wraps, a merged timestamp is the one earliest that is later than the last and the remote one and not before physical time |
| Hlc.WrapGoesBackIff | pkg/types/hlc.go:65-76 | When the counter wraps, and only then, the clock goes back, to counter zero of the same instant |
| Hlc.HLC.Now | pkg/types/hlc.go:65-76 | The clock is left at the timestamp it returns, which is the specified one |
| Hlc.HLC.Update | pkg/types/hlc.go:82-116 | The clock is left at the timestamp it returns, which is the specified one |
| LwwSpec.ApplyIsJoin | internal/store/lww.go:37-162 | Every stamped operation, on any typed state, is the join of one fact into one slot (a string key, or one element of a set key) and changes no other slot's winner |
| LwwSpec.CrdtIsJoin | internal/store/crdt_set.go:31-55 | Adding or removing an element is the join of its winner under "later stamp, add above remove on ties" |
| LwwSpec.AfterIsLexicographic | internal/store/lww.go:11-28 | Stamps compare by physical time, then counter, then origin |
| LwwSpec.OriginBreaksTies | internal/store/lww.go:23-28 | Of two writes of a key at one time the one of the higher origin is kept, whichever arrives first |
| LwwSpec.OtherTypeRule | internal/store/lww.go:37-162 | Keys used with both types: an element operation on a string changes nothing; a string operation later than the zero stamp replaces a whole set, and an earlier one changes nothing |
| LwwConvergence.Convergence | internal/store/lww.go:37-162 | Strong eventual consistency: replicas that applied the same events, in any order and with any repetition, show the same values and members, and still do after any further common events |
| LwwConvergence.DecidedByGreatest | internal/store/crdt_set.go:31-55 | After any sequence of events each slot holds the greatest of its events, and nothing if it had none |
| LwwConvergence.MembershipRule | internal/store/crdt_set.go:46-55 | After any events, an element is a member exactly when some add of it is not older than any remove of it |
| LwwConvergence.StringRule | internal/store/lww.go:37-162 | After any events, a key reads v exactly when a set of v carries the greatest stamp among the key's sets and deletes |
| LwwConvergence.SameWinnersForever | internal/store/lww.go:37-162 | States with equal winners read alike after every later sequence of operations, whatever else they store |
| LwwConvergence.PullIsJoin | internal/cluster/antientropy.go:90-131 | Pulling a winner-only digest leaves in every slot in scope the join of both replicas' winners, and every other slot untouched |
| LwwConvergence.PullLearnsEverything | internal/cluster/antientropy.go:90-131 | After a full pull a replica cannot be told from one that applied every event either side knew |
| LwwConvergence.PullsMakeReplicasAgree | internal/cluster/antientropy.go:90-131 | Pulls both ways make two replicas read alike, for now and after all later common events |
| LwwConvergence.FullMergeJoinsWinners | internal/store/crdt_set.go:141-171 | Merging complete states (every add and remove stamp) joins winners, slot by slot: the reference the digest is compared with |
| LwwConvergence.DigestIsAsGoodAsFullState | internal/store/crdt_set.go:31-35 | No later stamped operation can tell a winner-only pull from a full-state merge |
| LwwConvergence.CollectForgetsOnlyDead | internal/store/crdt_set.go:179-200 | Tombstone collection changes no read: it forgets only slots whose winner is a delete |
| LwwConvergence.CollectionIsInvisible | internal/store/lww.go:175-212 | A replica that collects, any number of times along the way, and one that never does read alike after any events, if every event that meets a forgotten tombstone is newer than it |
| LwwConvergence.StaleWriteShowsCollection | internal/store/lww.go:175-212 | That condition is exact: the next write of a forgotten slot reads alike on both exactly when it beats the forgotten delete |
| LwwStore.SetValue.constructor | internal/store/crdt_set.go:22-27 | A new set value has no members, no stamps and count zero, and its view is exact |
| LwwStore.SetValue.EnsureCrdt | internal/store/crdt_set.go:84-92 | Lazy seeding is invisible: the stamps read before and after are the same, and every seeded member carries the zero stamp |
| LwwStore.SeededYields | internal/store/crdt_set.go:84-92 | Seeded members lose to a remove exactly when its stamp is later than zero, and their digest entries travel unstamped |
| LwwStore.SetValue.SyncMember | internal/store/crdt_set.go:97-111 | Given a view exact but for one element, makes it exact, and reports a flip exactly when that element's membership changed |
| LwwStore.SetValue.AddWithStamp | internal/store/crdt_set.go:116-122 | The materialised set and its size stay exactly the CRDT's members and count; the result is whether the count grew by one |
| LwwStore.SetValue.RemoveWithStamp | internal/store/crdt_set.go:127-133 | The materialised set and its size stay exactly the CRDT's members and count; the result is whether the count fell by one |
| LwwStore.SetValue.AddMembers | internal/store/crdt_set.go:208-261 | Adding a list of members returns exactly the number of membership flips |
| LwwStore.SetValue.RemoveMembers | internal/store/crdt_set.go:268-321 | Removing a list of members returns exactly the number of membership flips |
| LwwStore.SetValue.AppendLWWDigest | internal/store/crdt_set.go:141-171 | Emits the winner of every element that holds a stamp, each, and nothing else |
| LwwStore.SetValue.GcElementTombstones | internal/store/crdt_set.go:179-200 | Drops exactly the dead elements with an old remove, returns how many, keeps the materialised view exact, and reports empty exactly when no stamp is left |
| LwwStore.PruneKeepsMembers | internal/store/crdt_set.go:179-200 | Pruning dead elements changes no membership |
| LwwKeyspace.Store.SetWithHLC | internal/store/lww.go:37-108 | The store changes as the specification's set and reports applied exactly when neither the value nor a tombstone is as new |
| LwwKeyspace.Store.DeleteWithHLC | internal/store/lww.go:123-162 | The store changes as the specification's delete, tombstone included, and reports applied exactly when nothing as new is held |
| LwwKeyspace.Store.SAddLWW | internal/store/crdt_set.go:208-261 | The store changes as a run of element adds, other keys untouched; the reply counts the membership flips, or is the wrong-type error with nothing changed |
| LwwKeyspace.Store.SRemLWW | internal/store/crdt_set.go:268-321 | The store changes as a run of element removes, other keys untouched; the reply counts the membership flips, or is the wrong-type error with nothing changed |
| LwwKeyspace.Store.GcTombstones | internal/store/lww.go:175-212 | A tombstone is kept, as it was, exactly when its delete is not before the cutoff; both loops together equal the specified collection, and the result counts the tombstones and the emptied sets that went |
| Retention.ElementsForgottenIff | internal/store/crdt_set.go:179-200 | A collection takes an element's stamps exactly when it is no member and its remove is before the cutoff, and leaves all others as they were |
| Retention.KeysForgottenIff | internal/store/lww.go:175-212 | A collection leaves strings as they were, takes a set exactly when no element of it keeps a stamp, and a string's tombstone exactly when it is aged |
| LwwKeyspace.Store.ShardLWWDigest | internal/store/lww.go:245-278 | For a valid shard, exactly the winners of the slots whose keys hash to it; for any other index, nothing |
| LwwKeyspace.SameShardIff | internal/store/lww.go:245-278 | Of the 256 shards two keys share one exactly when their hashes differ by a multiple of 256 |
| LwwKeyspace.RunAddOps | internal/store/crdt_set.go:208-261 | A multi-member add equals the run of its single-element adds |
| LwwKeyspace.RunRemOps | internal/store/crdt_set.go:268-321 | A multi-member remove equals the run of its single-element removes |
| Replication.MembersSurviveTheWire | internal/server/replication.go:75-98 | The receiver gets back the members that were sent exactly when neither they nor the key contain a NUL byte |
| Replication.EntrySurvivesTheWire | internal/cluster/antientropy.go:100-123 | A digest entry is applied as the one operation it stands for exactly when it is stamped and NUL-free |
| Replication.EntryStandsForItsFact | internal/cluster/antientropy.go:102-114 | An entry stands for the fact it was made from exactly when that fact is not about the empty element |
| Replication.EntriesRunAsOps | internal/server/replication.go:53-103 | Applying NUL-free stamped entries one by one equals running the operations they stand for |
| Replication.EventIsRead | internal/server/replication.go:53-167 | An event is applied as stamped operations exactly when it is stamped and a SET, DEL or SPOP, or an SADD or SREM whose payload has a member; they are of its kind, under its own stamp, and on its own key, whatever key the payload names |
| Replication.StoreSendsShardDigest | internal/server/replication.go:35-50 | What a store lists for a shard is a digest of that shard |
| Replication.ShardDigestStandsForWinners | internal/store/lww.go:245-278 | The operations of a shard digest carry exactly the winners of that shard's slots |
| Replication.RotationReachesEveryShard | internal/cluster/antientropy.go:20-50 | Whatever shard the rotation starts at, one round asks for every shard |
| Replication.RotationGoesOn | internal/cluster/antientropy.go:20-50 | Each tick of the rotation goes on from the shard where the last one left off |
| Replication.RotationIsFullDigest | internal/cluster/antientropy.go:20-50 | The digests of one round, all taken of one and the same state of the peer, make up a digest of the whole peer; `ReplicaAgreement.RotationTeaches` says what a round does over a run in which the peer changes |
| ReplicaNodeModel.ReplicaNode.NextStamp | internal/cluster/cluster.go:116-119 | A local write is stamped with the advanced clock and the node's own origin |
| ReplicaNodeModel.ReplicaNode.ApplyReplication | internal/server/replication.go:53-167 | A stamped SET, DEL, SADD, SREM or SPOP event changes the store as its decoded operations do, and the result says whether it was one; other events leave the modelled store as it was; a tombstone with a stamp that was not there before is dated now, and all others keep their dates |
| ReplicaNodeModel.ReplicaNode.HandleReplicationPush | internal/cluster/handlers.go:337-368 | The clock merges each event's stamp before it is applied, and the store takes the events in order; each tombstone afterwards is one that was there, untouched, or the delete of one of the events, dated when that event came |
| ReplicaNodeModel.PushMovesClockIff | internal/cluster/handlers.go:337-368 | A push moves the receiver's clock exactly when its event is stamped, as long as the counter does not wrap |
| ReplicaNodeModel.ReplicaNode.HandleSyncResponse | internal/cluster/antientropy.go:90-131 | The store takes the digest's entries as events, and the clock is not touched; each tombstone afterwards is one that was there, untouched, or the delete of one of the entries, dated now |
| ReplicaNodeModel.ReplicaNode.HandleSyncRequest | internal/cluster/antientropy.go:71-85 | Replies with a digest of the requested shard, and with nothing to an index that names no shard |
| ReplicaNodeModel.ReplicaNode.NextShardToRequest | internal/cluster/antientropy.go:20-50 | Requests the shard where the rotation stands and moves it on by one |
| ReplicaRun.CausalityIsOrdered | pkg/types/hlc.go:82-116 | Over any run, a write or a push is stamped strictly later than everything that happens before it (program order and pushes, chained, with pulls and collections in between), whatever the physical clocks do |
| ReplicaRun.StampsAreUnique | internal/cluster/cluster.go:116-119 | Two writes of a run that carry the same (timestamp, origin) stamp are the same write |
| ReplicaRun.WritesAreStamped | internal/server/replication.go:56-63 | No write of a run carries the zero stamp, which the apply path reads as unstamped |
| ReplicaHeard.HeardIsConsistent | internal/store/lww.go:11-28 | What any two replicas of a run have heard, at any two moments, satisfies what convergence asks for: distinct events of a string key carry distinct stamps |
| ReplicaHeard.HeardIsWritten | internal/cluster/handlers.go:337-368 | Every event a replica has heard, directly or through the digests of others, is the write of some earlier step |
| ReplicaHeard.RunsAreGrounded | internal/server/replication.go:53-103 | At every moment of any run, every fact that a replica holds was heard, and its keys keep their types |
| ReplicaAgreement.ReplicasConverge | internal/cluster/handlers.go:337-368 | End to end: replicas that have heard the same writes, at whatever moments of a run of pushes, delayed shard digests, multi-member writes and tombstone collections, show the same values and members, if nothing stale has landed at either: no set or add that took effect there was older than an event of its slot heard before |
| ReplicaAgreement.ReadsAlikeIff | internal/store/lww.go:175-212 | That condition is exact: a replica reads, at every moment up to a given one, like the replica that has heard the same and never collects, exactly when nothing stale lands at it before then |
| ReplicaAgreement.RetainedLetsNothingStaleLand | internal/store/lww.go:175-212 | A long enough window meets it: nothing stale lands at a replica whose own collections forget only deletes that no set or add reaching it later is older than; other replicas may collect as they like |
| Retention.ForgetsIffAged | internal/store/lww.go:175-212 | In any run, a collection at a replica forgets a delete of a string exactly when the step that brought it was longer ago than the window, and a removed element exactly when the stamp of the remove is: nothing younger ever goes, and nothing older ever stays |
| Retention.RunsDateTombstones | internal/store/lww.go:123-162 | At every moment of any run, every string tombstone of a replica carries the time of the step at which its delete reached the replica |
| Retention.AgedIsOlder | internal/store/lww.go:175-212 | If every set and add reaches a replica within the window of its stamp, what a collection forgets is older than every set or add that reaches it later |
| Retention.TimelyRunsRetain | internal/store/lww.go:175-212 | So in such runs nothing stale lands at a replica, whatever it collects: the window is enough |
| Retention.TimelyReplicasConverge | internal/store/lww.go:175-212 | Replicas that have heard the same writes, each within the window, read alike, whatever either has collected |
| ReplicaAgreement.RunsTrackIdeal | internal/server/replication.go:53-103 | At every moment of any run, whatever is collected and however early, each slot of a replica holds what the replica that has heard the same and never collects holds there; or that one holds a delete which this replica has collected, and this one holds nothing or something older |
| ReplicaHeard.StepRunsArriving | internal/cluster/antientropy.go:90-131 | What a write, a push or a pulled digest does to the store is the run of the operations it brings, whatever the state of the peer |
| ReplicaAgreement.RotationTeaches | internal/cluster/antientropy.go:20-50 | After one digest of every shard, in any order and while both replicas go on changing, a replica has heard everything the peer had heard when the round began and has not forgotten |
| ReplicaAgreement.OnlyDeletesAreForgotten | internal/store/lww.go:175-212 | A replica forgets events of a slot only where the greatest event it has heard is a delete, and only by collecting that delete itself |
| ReplicaAgreement.RotationsAgree | internal/cluster/antientropy.go:20-131 | Eventual consistency by anti-entropy: once no new write reaches two replicas and nothing stale has landed at them, one full rotation each way, with digests delayed or repeated, leaves them reading alike, if neither has forgotten, nor forgets meanwhile, anything that the other has not heard |
| ReplicaAgreement.UncollectedShares | internal/cluster/antientropy.go:20-131 | A replica that has collected no tombstone has forgotten nothing that the other has not heard |
| ForgettingRun.ForgettingDisagrees | internal/store/lww.go:175-212 | That last condition is needed: a run that meets all the others, with a removal collected before the peer hears of it, and the two replicas read differently |
| ReplicaAgreement.UndisturbedRotationsJoin | internal/cluster/antientropy.go:20-131 | Whatever either has forgotten: if two replicas only pull from each other meanwhile, a full rotation each way leaves every slot of both with the join of the winners they began with |
| ReplicaAgreement.UndisturbedRotationsAgree | internal/cluster/antientropy.go:20-131 | So they read alike, and still do after any further common events |
| LocalWrites.HeldIsBehindOrPulled | internal/cluster/handlers.go:349-365 | At every moment of any run, a fact that a replica holds and that is stamped after its clock came to it in a pulled digest |
| LocalWrites.LocalWritesLand | internal/cluster/cluster.go:116-119 | In any run, while a node has pulled nothing, each of its writes wins each of its slots at once, and no local set or delete is dropped as stale |
| LocalWrites.LocalWriteLandsIff | internal/cluster/cluster.go:116-119 | In any run, a local write wins its slot exactly when the stamp that the node's clock gives next is later than the fact held there, and that is what a local set or delete reports |
| LocalWrites.OnlyPullsHideWrites | internal/cluster/antientropy.go:90-131 | In any run, the fact that hides a local write came in a pulled digest and is stamped after the node's clock |
| LocalWrites.PullHidesLocalWrite | internal/cluster/antientropy.go:90-131 | This happens: a run in which a node pulls a digest from a peer whose clock is ahead, and its own next write is dropped |
| CrashSafety.NothingLostNothingRevived | internal/commitlog/compaction.go:174-296 | At every moment of every run of appends (none a write that comes when the newest record of its key is a newer delete), rotations, compactions, recoveries and restarts, with crashes after any file operation, the files recover the snapshot of everything ever appended |
| CrashSafety.CompactionKeepsInv | internal/commitlog/compaction.go:236-263 | A crash after any number of a compaction's file operations keeps the files faithful to the history |
| CrashSafety.RecoveryKeepsInv | internal/commitlog/compaction.go:266-296 | A crash after any number of recovery's file operations does too |
| CrashSafety.RecoveryFinishes | internal/commitlog/compaction.go:266-296 | A recovery that runs to its end leaves no marker, and the marked file, if it was there, under its plain name alone |
| CrashSafety.RecoveryTakesOver | internal/commitlog/compaction.go:266-296 | After a crash anywhere past the marker, recovery finishes what the compaction began: the compacted records stand in the place of the oldest file, before whichever old files are still there |
| CrashSafety.AppendKeepsInv | internal/commitlog/commitlog.go:324-386 | Appending a record that is no late write, that is no write that comes when the newest record of its key is a newer delete, keeps the files faithful |
| CrashSafety.RotateKeepsInv | internal/commitlog/commitlog.go:483-494 | Starting a new segment keeps the files faithful, with the marker of an interrupted compaction still pending |
| CrashSafety.RenameReadsAsRemove | internal/commitlog/compaction.go:253-262 | Renaming the compacted file over its unsuffixed name reads exactly like removing the file of that name, in any sorted directory |
| CrashSafety.DirectoryIsMap | internal/commitlog/compaction.go:174-296 | A sorted directory is a map from names to contents, and publishing, removing and renaming are the operations of a map; to rename a file that is not there does nothing |
| CrashSafety.CompactionReaches | internal/commitlog/compaction.go:174-263 | The disk after the first n operations of a compaction, for every n, on any directory of at least two files in the layout that runs keep |
| CompactionSpec.FrontKeepsFaithful | internal/commitlog/compaction.go:174-233 | Compacted records put in front of a log that still holds what they were made from change nothing |
| CompactionSpec.DroppingOldestIsFaithful | internal/commitlog/compaction.go:244-250 | With the compacted records in front, the records they were made from can go oldest first, at any point between |
| CompactionSpec.BuildStateFindsTopIff | internal/commitlog/compaction.go:127-171 | On any log, folding finds whether a key is alive, and its newest record if it is, exactly when that record is a write or every write of the key is followed by a newer delete |
| CompactionSpec.FoldStaysExactIff | internal/commitlog/compaction.go:127-171 | One more record keeps the fold exact, unless and only unless it is a late write: a write that comes when the newest record of its key is a newer delete |
| CompactionSpec.KeptIff | internal/commitlog/compaction.go:127-171 | On any log, in any order and with any timestamps, what the fold keeps for a key is exactly the first of the newest of its writes that no newer delete follows |
| CompactionSpec.LateWriteIsRevived | internal/commitlog/compaction.go:127-171 | A log of two records whose compaction revives the deleted key |
| CompactionSpec.EveryLateWriteIsRevived | internal/commitlog/compaction.go:127-171 | After any history that was safe so far, every late write is revived by a compaction of the log |
| CompactorModel.CompactIsCrashSafe | internal/commitlog/compaction.go:32-94 | A compaction as it runs, stopped by a crash anywhere, keeps the invariant and the recovered snapshot |
| CompactorModel.CompactionHalvesIff | internal/commitlog/compaction.go:32-94 | A compaction of two or more segments that runs to its end rewrites them exactly when that at least halves their records; afterwards the closed files hold at most two records for each live key, and one if they were rewritten |
| CompactorModel.Compactor.FindSegmentsToCompact | internal/commitlog/compaction.go:105-124 | In name order, every segment file but the current one |
| CompactorModel.SegmentsButIff | internal/commitlog/compaction.go:105-124 | On any directory the names to compact are those of all its files but the current segment itself, a compacted file of the same id not excepted |
| CompactorModel.Compactor.BuildCurrentState | internal/commitlog/compaction.go:127-171 | The fold over all records of the segments in order, and their number |
| CompactorModel.Compactor.WriteCompactedSegment | internal/commitlog/compaction.go:174-233 | Exactly one record for each live key, the one that is its state, in ascending order of the keys |
| KeyOrder.ContentIsUnique | internal/commitlog/compaction.go:186-206 | The state leaves no choice: there is one list of its records in ascending order of the keys |
| KeyOrder.LessIff | internal/commitlog/compaction.go:186-206 | The order of the keys: at the first place where they differ the first one ends or has the smaller byte |
| CompactorModel.Compactor.ReplaceSegments | internal/commitlog/compaction.go:236-263 | Marker, removals oldest first, rename, unmark, up to the point where a crash stops it |
| CompactorModel.Compactor.Compact | internal/commitlog/compaction.go:32-94 | Nothing when there are too few segments or too little garbage; otherwise the disk that its file operations, up to the crash, leave, with the records in ascending order of the keys |
| CompactorModel.Compactor.RecoverFromInterruptedCompaction | internal/commitlog/compaction.go:266-296 | Completes the marked rename if the compacted file is there, then unmarks, up to the crash |
| LogEntry.FaithfulSnapshot | internal/commitlog/reader.go:303-322 | A log that holds the live record of every key that has one, and of the others only writes buried under newer deletes, recovers exactly the history's snapshot |
| LogEntry.AppendIsFaithfulIff | internal/commitlog/commitlog.go:324-386 | One more record keeps a faithful log faithful exactly when it is no late write |
| LogReplay.ReplayIsSnapshot | internal/commitlog/reader.go:303-322 | Replaying the records in any order sorted by time, with equal times in any order, gives the snapshot |
| LogReplay.ReadAll | internal/commitlog/reader.go:44-72 | The records of all files, each as often as they hold it, sorted by time |
| LogReplay.GetLatestSnapshot | internal/commitlog/reader.go:303-322 | The snapshot of the files, when equal times of a key mean equal records |
| LogCodec.FrameRoundTrip | internal/commitlog/commitlog.go:324-386 | Reading a written frame gives the entry back and leaves what follows, for every entry within the sizes |
| LogCodec.SegmentRoundTrip | internal/commitlog/reader.go:75-124 | Reading a segment written from any list of valid entries delivers exactly that list |
| LogCodec.TruncatedSegmentReads | internal/commitlog/reader.go:75-213 | Reading any byte prefix of a segment delivers exactly the entries whose frames fit whole in it |
| LogCodec.WholeFramesIsExact | internal/commitlog/commitlog.go:324-386 | k entries fit whole in n bytes exactly when their k frames take at most n bytes |
| LogCodec.DeliveredIsSound | internal/commitlog/reader.go:75-236 | On any bytes whatever, each delivered entry is a well-sized frame found in them whose stored and computed CRC agree |
| LogFormat.FrameIff | internal/commitlog/reader.go:127-236 | On any bytes whatever, a record is read from the front exactly when a frame of it stands there: its length, within the limit, its fields, its CRC, and perhaps bytes after that |
| LogFormat.HeaderLayout | internal/commitlog/commitlog.go:324-386 | Where the length, the type and the timestamp of a written record stand, byte by byte |
| LogFormat.PartsLayout | internal/commitlog/commitlog.go:324-386 | Where its operation, key, value and CRC stand, each behind its own length |
| LogFormat.NumbersCompareAsBytes | internal/commitlog/commitlog.go:324-386 | Numbers are big-endian: of one width they compare as their bytes do |
| LogFormat.CrcTellsApartIff | internal/commitlog/commitlog.go:71-79 | Which records a CRC can tell apart: those of different type, time or text, where the text is operation, key and value without the places at which they meet |
| LogDamage.DamageCostsItself | internal/commitlog/reader.go:75-124 | From any list of records within the size limits, whatever their CRCs, reading delivers exactly those whose CRC agrees, in order: a record with a wrong CRC costs only itself |
| LogDamage.SeekFindsFirst | internal/commitlog/reader.go:216-236 | After an error, seeking stops exactly at the first place with a length above zero and below the maximum |
| LogDamage.SeekFindsNoneIff | internal/commitlog/reader.go:216-236 | And finds none exactly when there is no such place |
| LogDamage.ErrorGoesOn | internal/commitlog/reader.go:75-124 | Reading then goes on from there, or ends |
| LogDamage.ErrorIs | internal/commitlog/reader.go:127-145 | Which bytes are an error, and which the end, and what is left after each kind of error |
| LogDamage.BadFrameCostsItself | internal/commitlog/reader.go:75-213 | A frame of a fair length whose fields do not fit it costs only itself, if the record after it is below the greatest size |
| LogDamage.GreatestIsNotFound | internal/commitlog/reader.go:216-236 | A record of exactly the greatest size is not taken for one when seeking |
| LogCodec.ReadBackIff | internal/commitlog/commitlog.go:46-58 | An entry is read back exactly when it passes the size check and carries its CRC; deletes are written without that check |
| LogCodec.TornFrameDeliversNothing | internal/commitlog/reader.go:127-145 | A frame cut anywhere delivers nothing, and no bytes after the cut are read |
| LogReopen.AppendAfterTornFrameIsLost | internal/commitlog/commitlog.go:430-457 | Not safe if the last byte is missing: for every torn frame, the next entry is lost, unless it is the torn one itself with the low byte of its CRC zero |
| LogReopen.AppendedAfterTornIff | internal/commitlog/commitlog.go:430-457 | A file cut at any byte inside a frame, and then appended to: the appended entry is delivered exactly when the spliced frame, made of the cut one and the start of the next, parses to that very entry |
| LogReopen.ReopenedAtBoundaryReads | internal/commitlog/commitlog.go:430-457 | A file cut at the end of a frame is safe to append to: what was whole and what is appended is delivered, and nothing else |
| LogReopen.ReopenIsSafeIff | internal/commitlog/commitlog.go:430-457 | A segment cut at n bytes can be appended to, so that every next entry is delivered after what was whole, exactly when n is the end of a frame |
| LogReopen.TornLosesSome | internal/commitlog/commitlog.go:430-457 | After a cut at any byte inside any frame, some valid entry is lost when it is appended next |
| TornLog.NothingWholeIsLost | internal/commitlog/commitlog.go:285-321 | At every moment of every run on the bytes of the files, with batches cut by a crash at any byte, what is recovered is the snapshot of all records that reached the files whole, if no batch is flushed to a file that was cut inside a frame |
| TornLog.ReadDo | internal/commitlog/compaction.go:127-296 | Every file operation of compaction and recovery does to the bytes of the files what it does to the records read from them |
| TornLog.ContentIsSealed | internal/commitlog/compaction.go:174-233 | What compaction writes was read with a matching CRC, so it is read back |
| TornLog.FlushAddsPrefix | internal/commitlog/commitlog.go:285-321 | A flush that completes brings its whole batch to disk, and a cut one a prefix of it |
| TornLog.CleanIsSafeIff | internal/commitlog/commitlog.go:430-457 | Of a cut segment, encoding what is read of it gives the same bytes exactly when it is safe to append to |
| TornLog.ReopenedRunLoses | internal/commitlog/commitlog.go:430-457 | That guard is needed: a run in which a batch is cut by one byte, the process restarts, and a batch that is then flushed completely to the same file is lost |
| LogReopen.EntryAfterTornFrameIsLost | internal/commitlog/commitlog.go:430-457 | Whatever the hash, two valid entries and a cut for which the second entry is lost |
| LogReaderModel.ReadEntry | internal/commitlog/reader.go:127-213 | On any stream: end, corrupt or an entry exactly as the format says, leaving the stream at the specified place, never reading outside it |
| LogReaderModel.SeekToNextEntry | internal/commitlog/reader.go:216-236 | Stops at the first place with a plausible length, if there is one; terminates on every stream |
| LogReaderModel.ReadSegment | internal/commitlog/reader.go:75-124 | Terminates on every byte string and delivers exactly the entries that `LogDamage` characterises, errors and wrong CRCs passed over |
| LogReaderModel.ParseEntry | internal/commitlog/reader.go:148-213 | The cursor-driven, bounds-checked parse equals the format's parse on every buffer |
| LogReaderModel.Segment.WriteEntry | internal/commitlog/commitlog.go:324-386 | Appends exactly the frame, and adds its length to the recorded size |
| LogReaderModel.Segment.Write | internal/commitlog/commitlog.go:163-198 | Refuses exactly the entries over the size limits, unchanged; otherwise appends the frame of the given operation, key, value and time with its own CRC, and adds its length to the recorded size |
| DequeModel.Deque.constructor | internal/store/deque.go:19-26 | Empty, in an array of the initial capacity, with the tail inside it |
| DequeModel.Deque.WithElements | internal/store/deque.go:29-55 | Holds the elements in the least capacity 8 times a power of two; the tail stands one past the end exactly when they fill it |
| DequeModel.Deque.Grow | internal/store/deque.go:68-91 | Doubles a full array and keeps the sequence, whether or not it wraps around |
| DequeModel.Deque.PushFront | internal/store/deque.go:95-106 | The new elements in order in front of the old ones, in the same array while there is room; returns the length |
| DequeModel.Deque.PushBack | internal/store/deque.go:110-121 | Out of range exactly when something is pushed while the tail stands one past the end with room left; otherwise the old elements, then the new ones, and the length; the same array while there is room |
| DequeModel.Deque.PopFront | internal/store/deque.go:124-141 | Takes the first n elements, or none, or all, in order, and leaves the rest |
| DequeModel.Deque.PopBack | internal/store/deque.go:144-161 | Takes the last n elements, or none, or all, last first, and leaves the rest |
| DequeModel.Deque.Get | internal/store/deque.go:164-170 | The element at an index of the sequence, and found exactly when the index is in range |
| DequeModel.Deque.Set | internal/store/deque.go:173-183 | Replaces one element, content size kept exact, exactly when the index is in range |
| DequeModel.Deque.Range | internal/store/deque.go:186-216 | The slice of the sequence between two positions, negative ones counted from the end |
| DequeModel.Deque.ToSlice | internal/store/deque.go:219-224 | The sequence |
| DequeModel.Deque.Contains | internal/store/deque.go:370-378 | Whether the element occurs in the sequence |
| DequeModel.Deque.Trim | internal/store/deque.go:311-367 | Keeps exactly the slice that Range returns; the tail stands one past the end exactly when that fills the array |
| DequeModel.Deque.Remove | internal/store/deque.go:230-308 | Leaves the specified removal of the sequence, in place, with exact content size, and returns how many went |
| DequeModel.Deque.Clear | internal/store/deque.go:381-389 | Empties the sequence and clears every slot |
| DequeModel.RestoredListPanics | internal/store/deque.go:49-55 | The same for a deque built from eight elements |
| DequeModel.TrimmedListPanics | internal/store/list_operations.go:396-425 | A new list given eight elements, trimmed to all of itself, popped once at the front and pushed once at the back, is out of range, whatever the elements |
| DequeSpec.SliceIsBetween | internal/store/deque.go:186-216 | The slice holds s[i] exactly for the i between the two positions, in order |
| DequeSpec.NegativeCountsFromEnd | internal/store/deque.go:186-198 | A negative position names the same element as its distance from the end does; one before the first element counts as the first at the start of a slice and empties it at the end |
| DequeSpec.SliceOfAll | internal/store/deque.go:186-216 | From first to last is the whole list, and from an element to itself is that element |
| DequeSpec.RemovedLeaves | internal/store/deque.go:230-308 | For every count, a removal leaves all other elements as they were and in order, and of the element as many as were not asked for; zero asks for all |
| DequeSpec.DropFirstIsPrefixFilter | internal/store/deque.go:247-257 | Removing c from the head drops exactly the first c matches, or all, and nothing after the cut |
| DequeSpec.RemovalMirrors | internal/store/deque.go:258-283 | Removing -c is the mirror image, under reversal, of removing c |
| DequeSpec.SmallestCountRemovesNothing | internal/store/deque.go:241-243 | The smallest 64-bit count negates to itself and removes nothing, which is right exactly when there is nothing to remove |
| DequeSpec.RemovedFrees | internal/store/deque.go:245-290 | A removal frees the element's size once for each element removed, and none removed leaves the list as it was |
| DequeSpec.HoldsPushFront | internal/store/deque.go:93-106 | Writing before the head of a ring with room, wrapping around, prepends to the sequence it holds and keeps the other slots cleared |
| DequeSpec.HoldsPushBack | internal/store/deque.go:110-121 | Writing after the last element of a ring with room, wrapping around, appends to the sequence it holds |
| DequeSpec.HoldsPopFront | internal/store/deque.go:132-139 | Clearing the head slot and advancing drops the first element |
| DequeSpec.HoldsPopBack | internal/store/deque.go:153-159 | Clearing the last slot drops the last element |
| RespSpec.ArrayRoundTrip | internal/protocol/parser.go:101-295 | A printed array within the limits on count, argument size and total size is read back as the same arguments, leaving what follows; any other is refused, never misread |
| RespSpec.NumberOfDecimal | internal/protocol/parser.go:298-329 | A printed number parses back exactly up to the overflow guard, and is refused above it |
| RespLaws.NumberIff | internal/protocol/parser.go:298-329 | Exactly these byte strings are read as a number: a minus or none, any zeros, and a decimal up to the guard, as its value; and a lone minus, as zero |
| RespLaws.LineIff | internal/protocol/parser.go:132-157 | A line is read exactly when the input starts with it and LF or CR LF, and all of that is not too long |
| RespLaws.CommandIff | internal/protocol/parser.go:101-232 | On any bytes, the first line that is not empty and what follows it are read as a command exactly so: with the array mark, as many arguments as it announces, null ones included, however they are spelt, that fit count, size and buffer; with any other first byte, the words of the line |
| RespLaws.BulkIff | internal/protocol/parser.go:236-295 | What is read as an argument is exactly a line that announces a length with that many bytes and any two more, or a line that announces -1, if it fits |
| RespLaws.InlineReads | internal/protocol/parser.go:160-183 | Words laid out on a line with any blanks around them are read as the arguments, and a line of blanks is refused |
| RespLaws.EmptyLineSkips | internal/protocol/parser.go:101-130 | Empty lines before a command are skipped |
| RespSpec.PrintedHeaderIsHeader | internal/protocol/parser.go:132-157 | A printed header line reads as its mark and number, whatever follows |
| RespSpec.PrintedBulkIsBulk | internal/protocol/parser.go:236-295 | A printed bulk string, whatever follows and wherever the buffer stands, is read back exactly when it fits |
| RespSpec.WordsKeepTheBytes | internal/protocol/parser.go:332-356 | The words of an inline command, joined, are the bytes of the line that are not blank, in order |
| RespSpec.WordsAreWords | internal/protocol/parser.go:332-356 | No word is empty or contains a blank |
| RespSpec.WordsIff | internal/protocol/parser.go:332-356 | The words of a line are the one list that the line is laid out from: words without blanks, gaps of blanks, none between two words empty |
| RespModel.LeastSizeFits | internal/protocol/parser.go:269-278 | The doubled buffer size is refused exactly when what is needed exceeds the maximum buffer size |
| RespModel.Parser.EnsureRoom | internal/protocol/parser.go:269-282 | Room for the bytes up to an end, in the same or a larger copy, exactly when the end is within the maximum |
| RespModel.Parser.ParseRESPString | internal/protocol/parser.go:236-295 | The bulk string the protocol reads, as a slice of the buffer, with every byte handed out before left as it was |
| RespModel.Parser.ParseRESPArray | internal/protocol/parser.go:186-233 | The arguments the protocol reads, each as a slice that shows its bytes, clear of the buffer the parser keeps |
| RespModel.Parser.ParseCommand | internal/protocol/parser.go:101-125 | The command the protocol reads from the stream, inline or array, after any empty lines; its slices lie outside the parser's next buffer |
| RespModel.Parser.ParseSimpleCommand | internal/protocol/parser.go:160-183 | The words of the line as slices of the line, refused when there are none |
| RespModel.ParseAnother | internal/protocol/parser.go:221-232 | Parsing another command, whether it succeeds or fails and with whatever reads and reallocations, leaves all slices handed out before showing the same bytes |
| RespModel.SplitBySpace | internal/protocol/parser.go:332-356 | Slices of the line that are exactly its words |
| RespModel.ReadTextLine | internal/protocol/parser.go:132-157 | The specified line, stripped, with the stream just after it, or nothing if the input ends or the line is too long |
| RespModel.ParseNumber | internal/protocol/parser.go:298-329 | The specified number for every byte string, without overflow on the way |
| RespModel.Writer.WriteArrayStart | internal/commands/commands.go:501-523 | Appends the array header |
| RespModel.Writer.WriteBulkString | internal/commands/commands.go:464-498 | Appends the length header, the bytes and the line end |
| RespModel.Writer.WriteArray | internal/commands/commands.go:526-538 | Appends exactly the printed array, for every list |
| Glob.GlobMatch | internal/commands/glob.go:7-9 | True exactly when the name can be cut into consecutive pieces that the pattern's items admit in turn; which items a pattern means is `GlobLaws.ParseIff` |
| Glob.GlobMatchBytes | internal/commands/glob.go:11-95 | Terminates, and equals the item-by-item relation for every pattern and name |
| Glob.MatchStar | internal/commands/glob.go:14-27 | A run of stars followed by a rest matches exactly when the rest matches some suffix |
| Glob.MatchClass | internal/commands/glob.go:35-72 | Inside a class, escapes, ranges in either order and the closing bracket are read as parsed, and one byte is tested for membership |
| Glob.MatchesIsAdmits | internal/commands/glob.go:11-95 | The item-by-item relation holds exactly when some cut into admitted pieces exists |
| Glob.ParseInvertsPrint | internal/commands/glob.go:3-6 | Printing any printable list of items and parsing it gives the list back: the syntax is read as documented |
| GlobLaws.ParseIff | internal/commands/glob.go:3-95 | A pattern means exactly the items that it is a writing of, where bytes may stand bare or escaped, class members too, and a class may be left open at the end; every pattern is such a writing |
| GlobLaws.PlainMatchesOnlyItself | internal/commands/glob.go:87-91 | A name without special bytes is a pattern for that name and no other |
| GlobLaws.WildcardsAdmit | internal/commands/glob.go:14-33 | A star matches every name, a question mark every name of one byte |
| GlobLaws.ClassesAdmit | internal/commands/glob.go:35-76 | A class matches one byte that is written in it, bare, escaped or in a range either way round, or, negated, one that is not; left open at the end of the pattern it means the same |
| GlobLaws.EscapesAdmit | internal/commands/glob.go:78-85 | An escaped byte matches itself, whichever it is, and so does a backslash that ends the pattern |
| GlobLaws.WritingsConcat | internal/commands/glob.go:11-95 | Two parts of a pattern written one after the other match the names that can be cut in two for them |
| Glob.QuotedMatchesOnlyItself | internal/commands/glob.go:78-85 | A name with every byte escaped is a pattern for that name and no other |
| Glob.StarsCollapse | internal/commands/glob.go:15-18 | Consecutive stars count as one |
| DeferredSpec.EveryCommandIsSettledOnce | internal/store/deferred.go:69-196 | Conservation over every run with fresh ids: each command added is pending, or was run, or was cancelled, and only one of these, once |
| DeferredSpec.RunsAtMostOnceNeverCancelled | internal/store/deferred.go:82-196 | Over every run with fresh ids, a command is run at most once, and never if it was cancelled |
| DeferredSpec.RunsOnTime | internal/store/deferred.go:165-196 | A pending command runs exactly at the first tick that reaches its second, and none runs before its second |
| DeferredSpec.RunInAddedOrder | internal/store/deferred.go:165-196 | In every run with fresh ids, two commands of one second that a tick runs are run in the order in which they were added |
| DeferredSpec.RunsAgree | internal/store/deferred.go:22-30 | Throughout every run with fresh ids, the id map and the time index hold the same commands, each once, in the bucket of its own second |
| DeferredSpec.AddAgreesIff | internal/store/deferred.go:69-79 | Adding keeps that agreement exactly when the id is not in use |
| DeferredSpec.CancelKeepsAgreement | internal/store/deferred.go:82-111 | Cancelling keeps it, and takes away exactly that id |
| DeferredSpec.TickKeepsAgreement | internal/store/deferred.go:165-188 | A tick keeps it |
| DeferredSpec.CancelAfterRepeatStillRuns | internal/server/replication.go:313-334 | If a command is added again under its id, with any deadline and body, as a repeated replication event does, one of the two still runs after a cancel that reported success |
| DeferredSpec.RepeatOutlivesCancel | internal/store/deferred.go:82-111 | Which one: the repeat if both fall in one second, and the first otherwise; it stays in the time index under no id |
| DeferredModel.DeferredScheduler.AddDeferredCommand | internal/store/deferred.go:69-79 | Both maps change as specified |
| DeferredModel.DeferredScheduler.CancelDeferredCommand | internal/store/deferred.go:82-111 | Both maps change as specified, and the result is whether the id was there |
| DeferredModel.DeferredScheduler.ExecuteReadyCommands | internal/store/deferred.go:165-196 | Returns exactly the commands of the due buckets, the seconds in some order and each bucket in its own, and both maps lose exactly those, whatever order the maps are walked in |
| AccountingSpec.RunsKeepBalance | internal/store/string_operations.go:24-432 | Conservation: after any run of the eight operations on non-empty keys, each shard's counters equal its key count and summed sizes, and the totals equal the sums over shards |
| AccountingSpec.StoreBalancedIff | internal/store/store.go:484-527 | The whole life of a new store, on any keys: its memory counter falls short of the sizes it holds by one record for each operation that freed an empty value under the empty key, so the counters are exact exactly when none did |
| AccountingSpec.OperationDrifts | internal/store/store.go:484-516 | From whatever shortfall, such an operation adds one record to it, and no other operation changes it |
| AccountingSpec.BalanceKeptIff | internal/store/store.go:484-516 | An operation keeps the counters exact exactly when it does not free an empty value under the empty key, whose recorded size of zero is worked out anew on the way out |
| AccountingSpec.PutBalancesIff | internal/store/store.go:494-516 | A write keeps the counters exact exactly when its delta is the new size less the recorded size of what it replaces |
| AccountingSpec.DropBalancesIff | internal/store/store.go:502-507 | A removal keeps the counters exact exactly when it frees the recorded size |
| AccountingSpec.GrowthIsWithinLimit | internal/store/store.go:522-527 | From any counters, a set or delete never leaves total memory above the limit unless it was above and did not grow |
| AccountingSpec.CheckedRunsStayWithinLimit | internal/store/store.go:518-527 | From any counters within the limit, any run of sets and deletes on any keys stays within it |
| AccountingSpec.AppendPassesLimitIff | internal/store/string_operations.go:338-375 | An append is not checked: it ends above the limit exactly when it is long enough to |
| AccountingSpec.IncrementsAddUp | internal/store/string_operations.go:260-320 | One increment after another adds up or is refused for overflow, except that a counter at the smallest integer is stored as a lone sign and then refused |
| StringLaws.RunsRefine | internal/store/string_operations.go:24-432 | Over any run of the eight operations, on any keys, the store behaves as a map from keys to bytes: every reply is one that the map allows, which for all but memory refusals and stale stamps is one alone, and at the end the store holds what the map holds |
| StringLaws.OperationRefines | internal/store/string_operations.go:24-432 | One operation leaves every key with the text that the map says, whatever the counters |
| StringLaws.OperationAnswers | internal/store/string_operations.go:24-432 | The reply of one operation, by what the map holds: which of NX and XX refuses, the sum or refusal of an increment, the length of an append, the previous text of a get-and-set |
| StringLaws.SetRefusedForMemoryIff | internal/store/store.go:522-527 | A set is refused for memory exactly when it would make total memory grow past the limit |
| StringLaws.StampedAppliesIff | internal/store/lww.go:37-162 | A stamped set or delete that is not refused is applied exactly when its stamp is later than those of the value and of the tombstone, and leaves its stamp behind |
| StringLaws.PlainLeavesTombstones | internal/store/string_operations.go:24-432 | No other operation touches a tombstone, and a plain write drops the stamp |
| StringLaws.NewStoreIsEmpty | internal/store/store.go:84-130 | A new store holds nothing |
| StringLaws.OthersKeepTheirTexts | internal/store/string_operations.go:24-432 | No operation changes what another key holds |
| StringLaws.SetThenAppend | internal/store/string_operations.go:338-375 | A set and then an append leave the store, counters included, as the set of both together does |
| StringLaws.AppendsConcatenate | internal/store/string_operations.go:338-375 | Two appends equal one of the bytes together, replies and counters included |
| StringLaws.GetSetRepliesLast | internal/store/string_operations.go:399-432 | A get-and-set replies with what the last applied set stored |
| StringLaws.DeleteOnce | internal/store/string_operations.go:202-238 | A delete leaves its key absent, and deleting it again finds nothing |
| AccountingModel.LockFreeStore.AccountKeyAdded | internal/store/store.go:494-499 | One key more and the size, in the shard and in the totals, and nothing else |
| AccountingModel.LockFreeStore.AccountKeyRemoved | internal/store/store.go:502-507 | One key and the size less, in the shard and in the totals, and nothing else |
| AccountingModel.LockFreeStore.AccountMemoryDelta | internal/store/store.go:510-516 | The size moved, in the shard and in the total, and nothing else |
| AccountingModel.LockFreeStore.Set | internal/store/string_operations.go:98-168 | New store and reply as specified, refusals included |
| AccountingModel.LockFreeStore.SetWithOptions | internal/store/string_operations.go:24-95 | New store and reply as specified, with the NX and XX conditions |
| AccountingModel.LockFreeStore.SetWithHLC | internal/store/lww.go:37-108 | New store, tombstones and reply as specified |
| AccountingModel.LockFreeStore.IncrBy | internal/store/string_operations.go:259-320 | New store and reply as specified, the overflow test on wrapped sums included |
| AccountingModel.LockFreeStore.Append | internal/store/string_operations.go:337-375 | New store and length as specified; `StringLaws.AppendsConcatenate` says that the new bytes come last |
| AccountingModel.LockFreeStore.GetSet | internal/store/string_operations.go:399-432 | New store and previous value as specified |
| AccountingModel.LockFreeStore.Delete | internal/store/string_operations.go:202-238 | New store and reply as specified |
| AccountingModel.LockFreeStore.DeleteWithHLC | internal/store/lww.go:123-162 | New store, tombstone and reply as specified |
| Integers.FormatRoundTripIff | internal/store/string_operations.go:507-541 | A printed 64-bit integer parses back as itself, except the smallest, which is refused |
| Integers.ParseIntegerIff | internal/store/string_operations.go:435-474 | Exactly these byte strings are read as a counter: none at all, as zero, and any sign or none with any zeros and a decimal, as the number wrapped to 64 bits |
| Integers.OverflowTestIsExact | internal/store/string_operations.go:287-290 | The overflow test on the wrapped sum holds exactly when the true sum does not fit in 64 bits |
| Integers.ParseIntegerStrict | internal/store/string_operations.go:435-474 | For every byte string: refused, or the number denoted, wrapped to 64 bits |
| Integers.FormatInt64Fast | internal/store/string_operations.go:507-541 | Sign and digits for every integer, with a lone sign for the smallest |

## Left out

- Transport, encoding by gob, authentication and reconnection: the network is the set of packets ever sent.
- New members, join responses, leaves and health eviction: they change the membership, and a join response sets the joiner's term outright.
- ElectionSafety.ElectionSafety: does not cover node updates that raise the term of a candidate or a leader, because it is false with them, as `ElectionUnguarded` shows.
- Interleavings of the election goroutine with the message loop: each is one step here.
- ElectionSafety.RunsKeepInv: does not cover a state file that cannot be written, because the code then goes on as if it had been.
- Plain (unstamped) writes mixed with stamped ones, keys used with two types, TTLs on replicated keys: convergence is not claimed for them.
- The 256 shard maps of the replicated keyspace are one map with the shard as a function of the key; `lwwSet` is a value in a field of its set, not an object of its own.
- Replication.RotationIsFullDigest: takes all digests of one state of the peer; `ReplicaAgreement.RotationTeaches` is the statement about a peer that goes on changing.
- ReplicaNodeModel.ReplicaNode.ApplyReplication: leaves out what unstamped events and those of other operations do to the store, because the model has only stamped strings and sets.
- ClusterManagerModel.ClusterManager.HandleRejoin: leaves out the join response and the registration of a member not yet known, because membership is fixed.
- ClusterManagerModel.ClusterManager.HandleNodeUpdate: leaves out departures and the registration of a member not yet known, because membership is fixed.
- Restarts of a replica, whose clock would start at zero.
- Compaction of logs with SADD, SREM, EXPIRE and PERSIST records: one record for each key does not keep their meaning.
- LogReplay.SortByTime: stands for the library sort; only the order by time and the records are used of its result.
- TornLog.NothingWholeIsLost: does not cover a delete whose key is too long for its frame, because the code writes it unchecked and it is not read back.
- CRC32 bits, buffered writers, the queue in front of a batch, worker goroutines and file-system errors of the commit log.
- DequeModel.Deque.PushBack: reports the out-of-range panic as a result instead of stopping.
- Memory figures of lists, their unique pushes, and the aliasing of strings.
- Precomputed reply headers: taken to be the bytes that the general path writes.
- Buffer pooling: a buffer taken from the pool is one that no command holds. A parser used after its release has no buffer and would loop for ever in the growth loop; that is not modelled.
- RespModel.Parser.ParseRESPString: does not require the two bytes after a bulk string to be CR LF, because the code does not; a failed read leaves the stream at an unspecified place.
- The effect of a deferred command on the store, template expansion, and the generation of ids.
- Accounting of lists, sets and hashes, of expired keys, of `DeleteFast` and of `SetStoredValue`: they charge and free different amounts.
- TTL bookkeeping and commit-log calls of the string operations.
- Hash functions, SIMD variants, metrics, configuration, INFO and CONFIG commands, the user interface.
