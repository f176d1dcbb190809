# Verified models of the 6.5840 lab framework

The 6.5840 labs ask students to write Raft, a replicated key/value store, a
sharded store and MapReduce. The repository holds the framework around those
unwritten parts: the shard configuration and its rebalancer, the simulated
network and its crash/restart machinery, the checkers that judge the students'
servers, and a sequential MapReduce. This project models that framework and
proves what it is relied on for. Where the framework talks to a student's
server, the server is arbitrary, or its operations are single atomic steps of
the repository's own sequential model.

`dafny verify dfyconfig.toml` checks everything.

## What is modelled

**Shard configurations** (`ShardBalance`, `ShardLaws`, `ShardConfigs`, `ShardConfig`).
`ShardConfig.ShardConfig` is the object, with the shard array rewritten in
place; `ShardBalance.Rebalanced` is the reference definition of its greedy
rebalance, and `ShardConfigs` treats whole sequences of joins and leaves. The
main result is one the source never states: among all assignments to the
current groups whose sizes differ by at most one, the greedy rebalance is one
that moves the fewest shards. `ShardLaws` pins the result itself, on shards, gids and
loads alone: which group gets each unowned shard, which shards a group gives,
how ties are broken, the closed form of a first join, and that the rebalance is
exactly the greedy process, whose outcome is unique. The number of shards is a parameter of at most
256 (the source's sentinel is 257, its count 12). `log.Fatalf` is the outcome
`Fatal`; a Join or Leave that is refused half-way has kept some of its changes,
as in the source.

**The linearizability model** (`KvModel`, `Locality`, `OneKey`, `StringOrder`).
`Partition` lets the history checker judge each key alone. `LocalityTheorem`
proves that this is sound and complete, by merging per-key linearizations with
a greedy merge. It rests on each operation being called before it returns,
which the recording functions guarantee; a counterexample shows that the
theorem is false without it. `OneKey` says what the one-key model accepts in
terms of the operations: each get returns what the last effective put before it
wrote, and a put takes effect exactly when it carries the number of effective
puts before it.

**Concurrent clients and their checkers** (`AppendClients`, `PutClients`). Each
client is a state machine whose Get and Put are atomic steps of
`KvModel.Step`. Every interleaving of any number of clients passes the checker
that runs afterwards. The checkers themselves are loops, proved to accept exactly
the lists and versions described in terms of entries and counts, so what they
refuse is fixed as well. A Put may report ErrMaybe whether or not it took effect. The
client's own test of the value it reads back is `e.Id != me && e.V != ver`, so
it fails only when both fields are wrong; the model keeps that conjunction, and
the stronger fact, that both fields are right, is what is proved.

**The replicated-log checker** (`LogAgreement`, `LogChecker`). The tester's
cross-server comparison, snapshot-taking and snapshot-ingestion are interleaved
one lock-protected action at a time above an arbitrary Raft: a server may
ingest a snapshot while another's command is half compared. Runs that report no
error are proved to be runs in which all logs agree, and nCommitted's count,
whose reads snapshots may come between, cannot find two entries. An ingested
snapshot is assumed to have been produced earlier in the run and to be no older
than the receiver's log; without either assumption there are runs, shown for
any number of servers from two on, in which no error is reported and the logs
disagree.

**The network, crash and restart** (`Connectivity`, `ServerGroup`,
`RpcDurability`, `Persister`). `Connectivity` gives the matrix of enabled ends
under connect, disconnect, partition and restart; `ServerGroup` proves the
classes that toggle individual ends against it. `RpcDurability` interleaves
request processing, handler saves, deletion, persister copying, booting and
registration in any order and proves the claims made in the ordering comments
of `processReq` and `ShutdownServer`, in runs that may also start servers
carelessly, while they are up. `Persister` shows why sharing slices
between a persister and its copy is safe. `StartServer` says that a restarted
server must have been shut down first: starting a server is proved safe, for
every continuation of every run, if and only if the server is down, and a
careless start endangers that server's saves alone. The comment in
`annotation.go` says that `connected` is precise exactly when `Partition` is
not used. Without partitions it is precise; a partition leaves it so under an
exact condition (one side empty, and nobody missed), and a later `ConnectAll`
makes it precise again, so the comment's "only if" is not true of whole runs. `MakePartition` does what its comment says only for an odd number of
servers; for an even number it lists server 0 twice or leaves a zero in place,
and the contract says so.

**The type walk** (`TypeWalk`). labgob's memoised depth-first search over
possibly cyclic types, with its global set and counter as fields.

**MapReduce** (`MapReduce`, `Indexer`). The sort-and-group loop of the
sequential program, the FNV-1a hash that names a key's reduce task, and the
indexing application. The sort is not stable, so the sequential output is
determined exactly for reduce functions that ignore the order of their values;
for those, any number of reduce tasks produces the same lines, which is what
the repository's test script compares.

`Collections` holds a few shared facts about sets, sequences and sums.

## Model

| member | source | states |
|---|---|---|
| ShardBalance.RebalanceIsOptimal | src/shardkv1/shardcfg/shardcfg.go:120-154 | no assignment to the current groups with sizes within one of each other differs from the starting shards in fewer positions than the rebalanced one |
| ShardBalance.SettledKeepsMost | src/shardkv1/shardcfg/shardcfg.go:140-153 | any balanced outcome of the greedy moves keeps at least as many shards in place as every other balanced assignment |
| ShardBalance.RebalanceIsFair | src/shardkv1/shardcfg/shardcfg.go:131-153 | with n groups each owns floor(N/n) shards or one more, the counts add up to N, and no group both gains and loses |
| ShardBalance.BalancedSizes | src/shardkv1/shardcfg/shardcfg.go:261-278 | sizes within one of each other mean floor(N/n) or one more for every group, with no shard left out |
| ShardBalance.MoveKeepsProgress | src/shardkv1/shardcfg/shardcfg.go:142-152 | the shard a move takes has never moved before, so the distance from the start grows by one with each move and the loop ends within N rounds |
| ShardBalance.AssignKeepsProgress | src/shardkv1/shardcfg/shardcfg.go:132-138 | giving an unowned shard to the least loaded group takes nothing from any member and keeps the rebalance on course |
| ShardBalance.SurvivorsDoNotTrade | src/shardkv1/shardcfg/shardcfg.go:131-153 | between groups that were balanced before and stay members, no shard changes hands |
| ShardLaws.OrphansGoToLeast | src/shardkv1/shardcfg/shardcfg.go:131-138 | owned shards stay; each unowned shard, in order, goes to the group with the fewest shards at that moment, the smallest gid among equals |
| ShardLaws.FirstJoinDeals | src/shardkv1/shardcfg/shardcfg.go:98-138 | when no group owns a shard, shard k ends at the (k mod n)'th of the n gids in increasing order |
| ShardLaws.RebalanceLaws | src/shardkv1/shardcfg/shardcfg.go:140-153 | a group gives away its lowest-numbered shards; a group that gained ends with no more than those with smaller gids, and one that gave with no fewer |
| ShardLaws.RebalanceIsGreedy | src/shardkv1/shardcfg/shardcfg.go:131-153 | an assignment is the rebalance's result if and only if it arises by placing the unowned shards and then moving the first shard of the fullest group to the emptiest until they are within one |
| ShardLaws.DistanceMeans | src/shardkv1/shardcfg/shardcfg.go:140-153 | the distance that is minimised is the number of shards whose owner differs |
| ShardConfigs.ReachableConfigs | src/shardkv1/shardcfg/shardcfg.go:156-279 | every configuration that successful joins and leaves can reach passes CheckConfig for its own groups, is numbered by the changes made, and names no server twice |
| ShardConfigs.ChangeKeepsSound | src/shardkv1/shardcfg/shardcfg.go:207-221 | one successful change yields a balanced, fully assigned configuration without shared servers, whatever the assignment was before |
| ShardConfigs.MembershipIsExact | src/shardkv1/shardcfg/shardcfg.go:229-236 | IsMember agrees with membership in Groups for every gid if and only if there is a group and there are no more groups than shards |
| ShardConfigs.LeaveMovesOnlyOrphans | src/shardkv1/shardcfg/shardcfg.go:215-221 | a LeaveBalance reassigns only shards that leaving groups owned |
| ShardConfigs.JoinMovesOnlyToNewcomers | src/shardkv1/shardcfg/shardcfg.go:207-213 | a JoinBalance reassigns shards only to joining groups |
| ShardConfigs.JoinThenLeave | src/shardkv1/shardcfg/shardcfg.go:207-221 | joining groups and removing them again restores Groups and alters only shards that passed through them |
| ShardConfig.ShardConfig.MakeShardConfig | src/shardkv1/shardcfg/shardcfg.go:44-49 | the initial configuration: number 0, every shard unassigned, no groups |
| ShardConfig.ShardConfig.Copy | src/shardkv1/shardcfg/shardcfg.go:67-77 | an equal configuration in a fresh object with a fresh array |
| ShardConfig.ShardConfig.Analyze | src/shardkv1/shardcfg/shardcfg.go:80-111 | the most and the least loaded group, ties to the smallest gid, independent of map order; the sentinels never show |
| ShardConfig.ShardConfig.Rebalance | src/shardkv1/shardcfg/shardcfg.go:122-154 | the array ends as the greedy process leaves it, a function of the old shards and the set of gids alone, having been written exactly as often as shards changed owner; without groups every shard is unassigned |
| ShardConfig.ShardConfig.MoveOne | src/shardkv1/shardcfg/shardcfg.go:141-153 | one round moves the first shard of the most loaded group to the least loaded one, and stops exactly when they are within one |
| ShardConfig.ShardConfig.AssignOrphans | src/shardkv1/shardcfg/shardcfg.go:132-138 | ranging over a copy of the array, every shard without a current owner goes to the group that is least loaded at that moment, the smallest gid among equals |
| ShardConfig.ShardConfig.CountShards | src/shardkv1/shardcfg/shardcfg.go:81-84 | the map gives each gid the number of shards it owns, zero where it has no entry |
| ShardConfig.ShardConfig.Join | src/shardkv1/shardcfg/shardcfg.go:156-183 | succeeds exactly when something joins, no gid is present and no server is in two groups; otherwise says why, leaves Num alone and may keep some of the new groups |
| ShardConfig.ShardConfig.Leave | src/shardkv1/shardcfg/shardcfg.go:185-205 | succeeds exactly for a non-empty list of distinct current gids; otherwise Num is unchanged and only listed groups may be gone |
| ShardConfig.ShardConfig.JoinBalance | src/shardkv1/shardcfg/shardcfg.go:207-213 | on success the new configuration is the joined and rebalanced old one; on failure shards and Num are as before |
| ShardConfig.ShardConfig.LeaveBalance | src/shardkv1/shardcfg/shardcfg.go:215-221 | on success the new configuration is the reduced and rebalanced old one; on failure shards and Num are as before |
| ShardConfig.ShardConfig.IsMember | src/shardkv1/shardcfg/shardcfg.go:229-236 | true exactly when the gid owns a shard |
| ShardConfig.ShardConfig.CheckConfig | src/shardkv1/shardcfg/shardcfg.go:238-279 | passes exactly for the expected groups, with every shard owned by one of them and sizes within one of each other |
| Locality.LocalityTheorem | src/models1/kv.go:26-67 | a history in which no operation returns before it is called is linearizable over the whole store if and only if its operations on each key are linearizable for that key |
| Locality.LocalityNeedsOrderedTimes | src/kvtest1/porcupine.go:67-80 | without call <= return the equivalence fails: two operations that are fine per key and impossible together |
| Locality.OneHeadIsFree | src/models1/kv.go:45-46 | the step that makes per-key checking sound: of two per-key orders, one may always be continued first |
| Locality.MergeKeepsRealTime | src/models1/kv.go:27-43 | merging two real-time orders greedily gives a real-time order |
| Locality.StoreIsPerKey | src/models1/kv.go:44-67 | the map-of-keys model accepts an order exactly when the one-key model accepts its projection on every key |
| Locality.Partition | src/models1/kv.go:27-43 | returns each key's operations in their original order, one list per key, keys sorted and distinct |
| Locality.PartitionDecides | src/models1/kv.go:27-67 | checking each returned list against Init and Step decides linearizability of the whole history |
| Locality.PartitionKeepsAll | src/models1/kv.go:27-43 | the returned lists together hold exactly the history's operations |
| OneKey.ModelIsLawful | src/models1/kv.go:44-67 | Init and Step explain a sequence if and only if each get returns the value of the last effective put before it (or the empty string), each put answers as its version requires, and nothing else occurs |
| OneKey.LinearizableMeans | src/models1/kv.go:44-67 | a one-key history is linearizable exactly when it has such an order that respects real time |
| OneKey.PartitionJudges | src/models1/kv.go:27-67 | judging the returned lists by these rules decides the whole history |
| OneKey.StaleReadsAreRefused | src/models1/kv.go:54-61 | a get that misses a put acknowledged before it was called is not linearizable |
| StringOrder.SortedIsUnique | src/models1/kv.go:37 | a sorted list of strings is determined by its contents |
| StringOrder.LeMeans | src/models1/kv.go:37 | one string comes before another if it is a prefix of it or smaller at the first difference |
| AppendClients.CheckAppends | src/kvtest1/kvtest.go:361-390 | passes exactly when each client's entries have increasing, non-negative numbers below its count of puts, no set of numbers it skipped outnumbers its uncertain puts, every client is known, and the version is one more than the entries |
| AppendClients.AcceptsMeans | src/kvtest1/kvtest.go:368-389 | the checker's running maps decide exactly those conditions on the entries |
| AppendClients.AcknowledgedAppendsArePresent | src/kvtest1/kvtest.go:336-348 | at every moment of every run a client has at least as many entries as acknowledged puts, and at most its uncertain ones more |
| AppendClients.PutOutcome | src/kvtest1/kvtest.go:340-347 | a put ends the iteration exactly when it reports success or uncertainty, and is counted as that; otherwise the same number is tried again |
| AppendClients.ReadEntry | src/kvtest1/kvtest.go:368-378 | one round of the checker: an entry is stale exactly when its number is below the one awaited, and otherwise both maps stay true of the entries read |
| AppendClients.EveryRunPasses | src/kvtest1/kvtest.go:316-390 | in every interleaving of any number of append clients, CheckAppends accepts the list, version and counters, at the end and at every moment before |
| AppendClients.StepKeepsInv | src/kvtest1/kvtest.go:336-348 | each client action keeps all clients' views consistent with the shared list |
| AppendClients.PutKeepsInv | src/kvtest1/kvtest.go:340-347 | a put takes effect only on the list its client read, so it appends exactly one entry, whatever it reports |
| PutClients.Tally.CheckPutConcurrent | src/kvtest1/kvtest.go:126-140 | adds the clients' counts to the running totals and passes exactly when the version equals the OK count (reliable) or does not exceed OK plus maybe |
| PutClients.NoAssertionFails | src/kvtest1/kvtest.go:208-227 | in every interleaving OnePut never fails, no two OK puts carry one version, and a client that reads the version its put made reads its own value |
| PutClients.FailsExactly | src/kvtest1/kvtest.go:208-220 | a client fails exactly on an unknown error, an unreadable key, or an entry wrong in both fields right after its own successful put |
| PutClients.GetOutcome | src/kvtest1/kvtest.go:221-224 | after its read a client believes the version read, counts the put as reported, and retries exactly one that lost the race |
| PutClients.UnaccountedPutsAreRefused | src/kvtest1/kvtest.go:133-139 | a version above all OK and uncertain puts is refused in either mode, and in reliable mode one below the OK puts |
| PutClients.RoundBounds | src/kvtest1/kvtest.go:259-284 | a round of clients raises the version by at least the OK puts and at most OK plus maybe |
| PutClients.RoundsBounds | src/kvtest1/kvtest.go:126-140 | the same over any number of rounds on the key, with the totals carried from round to round |
| PutClients.ChecksPass | src/kvtest1/kvtest.go:126-140 | after any round the check passes if and only if some put has completed by then, reliable being claimed only when no put was uncertain |
| LogAgreement.ErrorFreeRunsAgree | src/raft1/server.go:121-205 | after any run without a reported error all logs agree wherever they overlap, each covers exactly 1..lastApplied, and maxIndex is the largest index |
| LogAgreement.StepKeepsInv | src/raft1/test.go:125-146 | every interleaved action that reports no error keeps agreement, coverage and the backing of every snapshot |
| LogAgreement.IngestKeepsCheck | src/raft1/server.go:175-205 | a snapshot ingested in the middle of another server's comparison cannot hide a conflict from it |
| LogAgreement.SnapshotAgrees | src/raft1/server.go:145-160 | whatever a snapshot holds agrees with every log that has the index |
| LogAgreement.CountsAgree | src/raft1/test.go:180-206 | at every moment of nCommitted's loop the next server's entry, if any, is the one already counted, whatever is ingested between the reads |
| LogAgreement.StaleSnapshotsHideConflicts | src/raft1/server.go:195-203 | for any two or more servers there is a run that ingests a genuine but older snapshot, reports no error, and ends with logs that disagree |
| LogAgreement.ForgedSnapshotsHideConflicts | src/raft1/server.go:195-203 | likewise for a snapshot that nobody took |
| LogAgreement.DeliveryIsARun | src/raft1/server.go:130-143 | a command applied without interruption is one of the interleavings, so the objects' behaviour is covered |
| LogChecker.Rfsrv.IngestSnap | src/raft1/server.go:175-205 | succeeds exactly for a decodable snapshot with a matching index, and then the log and lastApplied are the snapshot's; otherwise nothing changes |
| LogChecker.Rfsrv.Collect | src/raft1/server.go:145-154 | the snapshot holds entries 0..index, nil where the log has none |
| LogChecker.Test.CheckLogs | src/raft1/test.go:125-146 | reports an error exactly when some server's log has another command at the index, and records the command and maxIndex regardless |
| LogChecker.Test.ApplyCommand | src/raft1/server.go:130-160 | reports no error exactly when the command is in order and unopposed, and then records it and takes the snapshot that is due |
| LogChecker.Test.Apply | src/raft1/server.go:126-163 | dispatches commands and snapshots to the abstract steps, with the exact error conditions; other messages change nothing |
| LogChecker.Test.NCommitted | src/raft1/test.go:180-206 | returns the number of servers that hold the index and the entry they hold; fails exactly when two of them differ |
| LogChecker.NCommittedNeverFails | src/raft1/test.go:186-204 | after any run without a reported error the mismatch branch is unreachable, for a count made at once and for one whose reads are interleaved with ingested snapshots |
| Connectivity.ConnectedIsPrecise | src/tester1/annotation.go:224-227 | the "if" half of the comment: over every run of connects, disconnects, shutdowns and starts of disconnected servers, without partitions, an end is enabled exactly when both its servers are connected |
| Connectivity.PartitionPrecision | src/tester1/annotation.go:224-227 | the "only if" half, made exact: a partition keeps that equivalence if and only if one side is empty and no unlisted connected server misses a listed one |
| Connectivity.ConnectAllRestores | src/tester1/group.go:134-138 | from any state, partitioned or not, ConnectAll connects every server and makes the equivalence hold again |
| Connectivity.ConnectMeans | src/tester1/group.go:155-171 | connecting enables, in both directions, exactly the ends between the server and the listed servers that are connected |
| Connectivity.DisconnectMeans | src/tester1/group.go:175-194 | disconnecting disables, in both directions, exactly the ends between the server and the listed servers |
| Connectivity.RestartMeans | src/tester1/group.go:235-237 | a restart clears the server's outgoing ends and nothing else |
| Connectivity.OpKeepsPrecise | src/tester1/group.go:134-204 | each such operation keeps that equivalence |
| Connectivity.RestartPrecision | src/tester1/group.go:234-246 | starting a server keeps the equivalence if and only if the server was disconnected |
| Connectivity.PartitionSeparates | src/tester1/group.go:302-312 | from any prior state, an end between listed servers is enabled exactly when both are on one side; other ends are untouched |
| Connectivity.NoQuorum | src/tester1/group.go:282-312 | after such a partition, every set of servers that the isolated one can reach is smaller than a majority |
| Connectivity.MakePartition | src/tester1/group.go:282-300 | the two arrays list each server once, with a strict majority in the first and l in the second, exactly when the number of servers is odd |
| RpcDurability.AtMostOnce | src/labrpc/labrpc.go:238-329 | in every run each request gets at most one reply and exactly one once processing has ended, and a true reply carries the result of its one execution, over an end that was enabled and by a server that was registered at the final check |
| RpcDurability.ArrivalOutcome | src/labrpc/labrpc.go:239-252 | a request is served exactly when it is not dropped and its end is enabled and leads to a registered server, and then by that server |
| RpcDurability.PollOnlyWhenDead | src/labrpc/labrpc.go:270-282 | waiting ends without a reply only if the end is disabled or the server no longer registered |
| RpcDurability.FinalCheckOutcome | src/labrpc/labrpc.go:284-311 | what is sent, for each outcome of the final check and each fate of the reply |
| RpcDurability.LateRepliesAnswer | src/labrpc/labrpc.go:298-307 | a postponed reply, once sent, carries the handler's result |
| RpcDurability.PassedWasAlive | src/labrpc/labrpc.go:284-294 | a request that has passed did so at a moment when its handler had returned, its server was registered and its end enabled, and its handler saved nothing later |
| RpcDurability.CheckIsDurable | src/labrpc/labrpc.go:284-290 | passing the final check while the server is up means that the instance is current, so all that its persister holds will be in every copy |
| RpcDurability.AcknowledgedSavesSurvive | src/tester1/group.go:254-268 | when a call passes its final check, all that its instance's persister holds, whoever saved it, is in the history of every later instance of that server at every later moment, given only that this server was not started carelessly before the check |
| RpcDurability.HandlerSavesSurvive | src/tester1/group.go:254-268 | in particular every instance from the acknowledging one on has each save of an acknowledged handler |
| RpcDurability.SupersededSavesStayBehind | src/tester1/srv.go:75-85 | in every run, careless starts included, what an instance inherits was saved, in that order, by older instances of the same server, at moments when a restart would have copied their own persister |
| RpcDurability.SaveOrigin | src/tester1/persister.go:51-58 | each such save goes back to the event that made it |
| RpcDurability.StartIsSafeExactlyWhenDown | src/tester1/group.go:234-246 | starting a server keeps its acknowledged saves in every continuation if and only if the server is down, whatever is done to the other servers |
| RpcDurability.StartingALiveServerLosesASave | src/tester1/srv.go:33-47 | after any run at all, starting a server that is up has a continuation in which a call passes and the new instance lacks its save |
| RpcDurability.CopyingFirstLosesASave | src/tester1/group.go:259-265 | in any run, had the shutdown copied the persister before deleting the server, a call could pass in between and its save be missing from the next instance |
| RpcDurability.ShutdownCompletes | src/tester1/group.go:254-268 | deleting and then copying can be done whenever the server is up or down, and leaves it down and unregistered |
| RpcDurability.StartCompletes | src/tester1/group.go:234-246 | copying, making the instance and registering it can be done whenever the server is down, and leaves that instance registered |
| Persister.Persister.Save | src/tester1/persister.go:51-58 | replaces both slices by fresh copies and writes to no existing array, so copies keep what they held |
| Persister.Persister.Copy | src/tester1/persister.go:30-37 | a new persister that shares the slices and inherits the history |
| Persister.Persister.ReadRaftState | src/tester1/persister.go:39-43 | a fresh array with the saved bytes |
| Persister.Persister.ReadSnapshot | src/tester1/persister.go:60-64 | a fresh array with the saved bytes |
| Persister.Clone | src/tester1/persister.go:24-28 | a fresh array with the same bytes, empty for a nil slice |
| Persister.LateSave | src/tester1/srv.go:79-85 | after the persister was copied, neither a save by the old instance nor reuse of the caller's buffer shows in the copy |
| ServerGroup.Net.MakeEnd | src/labrpc/labrpc.go:333-350 | a new end is neither enabled nor connected |
| ServerGroup.Net.Connect | src/labrpc/labrpc.go:378-385 | the end leads to the named server; no other register changes |
| ServerGroup.Net.Enable | src/labrpc/labrpc.go:387-393 | the end's switch alone changes |
| ServerGroup.Net.AddServer | src/labrpc/labrpc.go:364-369 | the instance is registered under the name, replacing any other |
| ServerGroup.Net.DeleteServer | src/labrpc/labrpc.go:371-376 | no instance is registered under the name |
| ServerGroup.Net.ReadEndInfo | src/labrpc/labrpc.go:212-226 | whether the end is enabled, the name it leads to and the instance registered there, each as read under the lock; together they decide whether a request proceeds |
| ServerGroup.Net.ServerIsDead | src/labrpc/labrpc.go:228-236 | dead exactly when the end is not enabled, or no server or another one is registered under the name |
| ServerGroup.Server.MakeServer | src/tester1/srv.go:19-31 | one fresh, disabled end to each server of the group, connected to its name |
| ServerGroup.Server.StartServer | src/tester1/srv.go:33-47 | fresh ends and a fresh persister with the old one's history, or an empty one; recorded as the boot step |
| ServerGroup.Server.Connect | src/tester1/srv.go:49-60 | enables exactly the server's ends to listed servers that are connected |
| ServerGroup.Server.Disconnect | src/tester1/srv.go:62-73 | disables exactly the server's ends to the listed servers |
| ServerGroup.Server.Shutdown | src/tester1/srv.go:75-85 | the saved persister is replaced by a fresh one with the same history; recorded as the copying step |
| ServerGroup.ServerGrp.MakeSrvGrp | src/tester1/group.go:80-96 | n servers, none connected, no end enabled |
| ServerGroup.ServerGrp.Connect | src/tester1/group.go:154-171 | toggling ends one by one amounts to connecting the server to the listed, connected servers in both directions |
| ServerGroup.ServerGrp.Disconnect | src/tester1/group.go:173-194 | toggling ends one by one amounts to cutting both directions to the listed servers |
| ServerGroup.ServerGrp.ConnectOne | src/tester1/group.go:140-142 | connecting one server to all, as ConnectedIsPrecise takes it |
| ServerGroup.ServerGrp.DisconnectAll | src/tester1/group.go:196-198 | disconnecting one server from all, as ConnectedIsPrecise takes it |
| ServerGroup.ServerGrp.ConnectAll | src/tester1/group.go:134-138 | the group's matrix ends as connecting every server in order defines it |
| ServerGroup.ServerGrp.Partition | src/tester1/group.go:302-312 | the group's matrix ends as the partition of which PartitionSeparates speaks |
| ServerGroup.ServerGrp.ShutdownServer | src/tester1/group.go:254-268 | disconnected, deleted from the network and its persister superseded by a copy with the same history; the recorded steps are the deletion and then the copy |
| ServerGroup.ServerGrp.StartServer | src/tester1/group.go:234-246 | fresh disabled ends in the matrix, a fresh persister with the old history, and the instance registered under the server's name; the recorded steps are the boot and then the registration |
| ServerGroup.ConnectView | src/tester1/group.go:160-170 | enabling exactly the hit ends is connecting in the matrix |
| ServerGroup.RestartView | src/tester1/group.go:236-237 | replacing a server's ends by fresh ones clears its outgoing row and nothing else |
| TypeWalk.Checker.CheckType | src/labgob/labgob.go:72-113 | ends on cyclic types; adds only types reachable from its argument, with all field types of each new struct, the element type of each new slice, array or pointer, and both types of each new map; counts each new type's lower-case fields once |
| TypeWalk.WalkIsReach | src/labgob/labgob.go:72-85 | from a set closed under reference, a call adds exactly what its argument reaches, so a type skipped as already checked loses nothing |
| TypeWalk.Checker.CheckAll | src/labgob/labgob.go:58-70 | after any series of calls the checked types are exactly those reachable from the roots along field, element and key types, and errorCount is the number of pairs of a checked struct and a lower-case field of it |
| TypeWalk.LowerCount | src/labgob/labgob.go:90-104 | the count of one struct is the number of its lower-case fields |
| TypeWalk.OneMoreRoot | src/labgob/labgob.go:76-85 | one further call extends both facts by its own root |
| MapReduce.ReduceGroups | src/main/mrsequential.go:64-84 | from sorted pairs, one line for each key, keys strictly increasing, each line reduced on exactly the key's values in order |
| MapReduce.Sequential | src/main/mrsequential.go:33-84 | the program's output for what Map returned, whichever order the unstable sort leaves equal keys in |
| MapReduce.FlattenCounts | src/main/mrsequential.go:38-51 | the intermediate pairs are those of all files together |
| MapReduce.DeterministicReducers | src/main/mrsequential.go:59-84 | the sequential output is determined for every input if and only if the reduce function ignores the order of its values |
| MapReduce.ValuesInBucket | src/mr/worker.go:17-25 | all of a key's values are in the key's own bucket, in order, and none in any other |
| MapReduce.IHash | src/mr/worker.go:21-25 | the hash lies in 0..2^31-1, so the bucket number is valid |
| MapReduce.IHashMeans | src/mr/worker.go:24 | the hash is the FNV-1a value without its top bit |
| MapReduce.Fnv1aVector | src/mr/worker.go:22-24 | the hash function has the published FNV-1a values of "" and "a" |
| MapReduce.XorBits | src/mr/worker.go:23 | the exclusive-or of the hash acts bit by bit |
| MapReduce.BucketMeans | src/mr/worker.go:17-20 | a key's reduce task is the remainder of its hash |
| MapReduce.EachKeyReducedOnce | src/mr/worker.go:17-25 | for any reduce function, each key has one line in its own task's output and none elsewhere, made from exactly the values emitted for it |
| MapReduce.BucketsEqualSequential | src/main/test-mr.sh:82-104 | for order-insensitive reduce functions and any number of reduce tasks, the tasks' outputs together are the sequential output, line for line |
| Indexer.Map | src/mrapps/indexer.go:20-31 | exactly one pair for each distinct word, in any order |
| Indexer.Reduce | src/mrapps/indexer.go:36-39 | leaves its argument sorted in place and returns the count and the sorted names |
| Indexer.EntryReadsBack | src/mrapps/indexer.go:36-39 | from an entry the number of documents and, if no name has a comma, their sorted names can be read back |
| Indexer.HoldingMeans | src/mrapps/indexer.go:20-31 | the documents listed for a word are those that hold it, each as often as it is given |
| Indexer.ReduceIsInsensitive | src/mrapps/indexer.go:36-39 | the entry does not depend on the order in which a word's documents arrive |
| Indexer.SequentialIndex | src/mrapps/indexer.go:16-39 | the sequential run lists, for each word of any document, exactly the documents that hold it, and this output is unique whatever orders the map range and the sort choose |
| Indexer.BucketedIndex | src/main/test-mr.sh:122-135 | any number of reduce tasks, fed by separate runs of Map, yields the lines of that index |

## Left out

- The unwritten parts: Raft peers, RSM, the key/value and shard servers and their clerks, the lock, the shard controller, the MapReduce coordinator and worker loop. They decide nothing yet.
- Porcupine's search, visualisation and annotations: linearizability is defined directly over call and return times.
- Real time, sleeps and random choices: nondeterministic steps or parameters. The random names of client ends are parameters that do not clash with existing ones.
- Encodings (gob, JSON, reflection, ShardConfig's String and FromString): encoding followed by decoding is the identity, and types are an abstract finite graph, in which one constructor stands for slices, arrays and pointers. The clients' stored values are values, not JSON text.
- The internals of sort.Sort, sort.Strings and slices.Sort: some sorted permutation.
- strings.FieldsFunc and unicode.IsLetter: a document is given as the list of its words.
- Thread interleavings inside checkType, which takes its lock twice per type, and checkDefault, which only prints a warning.
- PutClients.ChecksPass: one key; the random choice among several keys in OneClientPut is not modelled, because the check is skipped in that mode.
- AppendClients.EveryRunPasses: runs of at most 2^63 - 2 steps, because the list's length is an int that the checker compares with the version converted to int.
- PutClients.RoundBounds: rounds in which the 64-bit version does not wrap; Step itself wraps.
- The width of ShardConfig's Num and of the client counters: unbounded here.
- ShardConfig.ShardConfig.Join: the groups' server slices are values here, so a caller that later writes to a slice it passed to Join is not modelled.
- A Get that reports ErrNoKey to a client ends the client's test at once; in PutClients this is the failed state for an absent key.
- LogAgreement.ErrorFreeRunsAgree: runs without a server restart, which replaces the server's copy of its log.
- The variant of the applier without snapshots (raft1/server.go:100-118), a part of the one modelled, and the applyErr field, which log.Fatalf makes unreachable.
- Kill's extra Save of the state it just read, DeleteEnd, message counters, byte counters and log sizes.
- MakePartition on fewer than two servers indexes an empty array.
- The reply that longReordering delays is sent after the final check; durability is stated at the check, which comes first.
