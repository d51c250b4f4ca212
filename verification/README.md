# Verified model of the semantic plagiarism detector

This project models the stateful and algorithmic parts of the semantic plagiarism detector in Dafny 4.11 and proves what
they keep over every input and every run. `dafny verify dfyconfig.toml` checks all of it.

| file | what it models |
|---|---|
| `Network.dfy`, `PlagiarismNetwork.dfy`, `NetworkRuns.dfy` | the plagiarism network: node table, edge list and the keyed multigraph that mirrors them; neighbours, degrees, induced subnetworks; whole runs of calls |
| `UndirectedGraphs.dfy`, `SimilarityNetworks.dfy` | breadth-first components, edge counts and density; the networks of similar documents at a threshold |
| `TemporalPatterns.dfy` | documents grouped by submission hour, the all-pairs similarity of a group, similarity of change histories |
| `CacheKeys.dfy`, `RedisMigration.dfy`, `MigrationProtocol.dfy`, `CacheReaders.dfy` | how cache keys are built, where legacy keys go and which of them collide, the rename protocol over a live store, and which entries the readers find afterwards |
| `BackupDaemon.dfy` | counting active sessions from cache keys, and the backup daemon as a timed state machine |
| `DetectionMetrics.dfy`, `AdversarialBenchmark.dfy` | confusion counts, threshold sweep and best F1; rates per category, degradation ranking, regression gate |
| `SyntheticCorpus.dfy`, `AdversarialText.dfy` | the corpus generator's lexer and printer; compression and synonym substitution on whitespace tokens |
| `Tags.dfy`, `TagGeneration.dfy` | the tag registry with its counters and two views; tag scoring and its memo |
| `ChunkMatrix.dfy` | the chunk similarity matrix filled in place, and the drill-down densities |
| `DependencyAudit.dfy` | audit verdicts against dated assessments, and the installed inventory |
| `TextScores.dfy` | sentiment consistency, coherence, and the weighted paraphrase similarity |
| `Sequences.dfy`, `Sorting.dfy` | shared facts about sequences, finite sets and stable sorting |

Numbers the program holds as floats are reals here. Clocks, random draws, scan orders, embeddings, regular-expression
character classes and language case functions are parameters, so every statement holds for all of them; lower-casing of a
replaced word only needs to give one character for one, or a mark that no synonym bank key holds, as it does for ASCII keys.

## What the proofs found

Where the code does not do what its text or callers expect, the model follows the code and the exact condition is proved.

- **Active sessions are not seen.** A session key is `spd:v1:session:<version>:<id>:last_interaction`
  (`src/utils/redis_cache.py:272-276`), but the counter takes the fourth piece of the key for the identifier, which is the
  application version. The count is right about "no session is active" exactly when nobody is active or a session named like
  the version is (`SessionActivity.CounterIsRightIff`, witness `ActiveSessionUnnoticed`). So in every run the daemon's session
  test holds a backup back for no other session, entries from before the daemon's start included
  (`BackupDaemon.BackupIff`). What protects sessions in use is the idle timeout: with an activity write at most some lag
  before every interaction, no backup comes within 15 minutes of an interaction exactly when the timeout exceeds 15 minutes
  by more than the lag, which the default of 30 does for lags below 15 minutes (`BackupDaemon.ProtectsIff`, witness
  `BackupDuringSession`).
- **Migrated sessions can be out of reach.** The migration cuts `id:field` at the first colon, the session reader builds its
  key from the two by themselves. They ask for the same entry exactly when the identifier has no colon, or path normalisation
  does not notice the colons (`CacheReaders.SessionReaderFindsIff`); an identifier `a:./b` is lost to its reader
  (`DottedSessionIsLost`, `MigrationLosesSession`). Documents have a similar condition (`CacheReaders.DocReaderFindsIff`,
  witness `DottedDocIsLost` for `./b`); all other entries are found (`CacheReaders.ReadersFindEntries`).
- **A repeated key counts as an error.** A scan may yield a key twice; the second rename fails. Nothing is lost by it: a live
  run leaves no legacy key exactly when each is yielded at least once over a working connection
  (`MigrationProtocol.CompletesIff`), but its error count is 0 only without repeats (`MigrationProtocol.NoErrorsIff`).
- **A rejected attribute name leaves the network half updated.** `add_node` and `add_edge` store the node or edge before the
  multigraph call, which raises `TypeError` when an attribute is called like one of its own keyword arguments. The degree
  total is twice the edge list exactly when no edge has such an attribute (`Network.Handshake`), and `get_subgraph` fails
  exactly when the requested part holds one (`PlagiarismNetworks.PlagiarismNetwork.GetSubgraph`); runs that get there are
  `NetworkRuns.RefusedEdgeIsHalfStored` and `RefusedNodeIsHalfStored`.
- **Automatic node identifiers can overwrite.** They are counted separately from identifiers given by callers, and an
  extracted subnetwork counts from zero again. In any run an automatic node overwrites another exactly when its number was
  there at the start or was given by a caller before (`NetworkRuns.AutomaticIdOverwritesIff`); so it never happens in a
  network built from scratch while callers stay clear of numbers still to come (`ClearCallersLoseNothing`), and it does after an
  extraction (`ExtractionRestartsNumbers`, witness `ExtractedNodeIsLost`).
- **More keys collide than the prefixes suggest.** The migration script's text leaves out the application version and the path
  normalisation that key building applies; the model follows the code. `LegacyKeys.CollisionsAreExactly` gives all collisions,
  `LegacyKeys.PlainCollisions` those of plainly spelled identifiers, `LegacyKeys.SpellingsCollide` the family of spellings
  that differ by a doubled slash, `LegacyKeys.EmptySessionIdCollides` sessions without an identifier.
- **The tag memo ignores the limit it was filled with.** Every answer is the one for the limit of the first call with that
  text, and it is right exactly when both limits show the same part of the candidate tags
  (`TagGeneration.EveryAnswerIsTheFirst`, witnesses `SecondAnswerIsStaleIff`, `TwoWordsAreTwoTags`).
- **Unassigning a pair assigned twice unbalances the tag counter** (`TagRegistry.UnassignKeepsCounterIff`, witness
  `DoubleAssignmentUnbalances`).
- **The regression gate passes an empty benchmark** whose overall detection rate is reported as 0
  (`AdversarialBenchmark.GateCatchesOverallRegression`, witness `EmptyBenchmarkPasses`).
- **Documents linked to themselves can lift a network's density above 1**: exactly when they outnumber the pairs that are not
  similar (`UndirectedGraphs.LinkedPairsBounds`, witness `NetworkRuns.SelfLinkInflatesDensity`).

## Model

| member | source | states |
|---|---|---|
| EntityIds.EdgeIdInjective | Plagiarism_detection_collaboration_system.py:128 | two edges never share a printed key, also beyond six digits |
| EntityIds.IdsArePrinted | Plagiarism_detection_collaboration_system.py:99-128 | identifiers are the word and the counter in decimal, padded to six digits, more beyond a million |
| Network.AddNodeKeepsConsistent | Plagiarism_detection_collaboration_system.py:96-118 | adding or replacing a node, also when it raises, keeps edge list, node table and multigraph consistent |
| Network.AddEdgeKeepsConsistent | Plagiarism_detection_collaboration_system.py:120-144 | adding an edge, also when it raises, keeps them consistent: the multigraph stays exactly the mirror of the storable edges |
| Network.GraphGrowsWithList | Plagiarism_detection_collaboration_system.py:140-143 | inserting one keyed edge into the mirror of a list gives the mirror of the longer list |
| Network.MirrorHoldsTheSameEdges | Plagiarism_detection_collaboration_system.py:88-144 | edge list and keyed multigraph hold the same edges with known ends, each under a key of its own |
| Network.DegreeCountsEdgeEnds | Plagiarism_detection_collaboration_system.py:168-172 | a node's degree is the number of positions of stored edges that leave it plus that of those that enter it |
| Network.Handshake | Plagiarism_detection_collaboration_system.py:678 | degrees sum to twice the stored edges, and to twice the edge list iff no edge was refused |
| PlagiarismNetworks.NeighborsAreEdgeTargets | Plagiarism_detection_collaboration_system.py:150-166 | the list-based neighbours are distinct and exactly the targets of stored edges of the type asked for |
| PlagiarismNetworks.PlagiarismNetwork.AddNode | Plagiarism_detection_collaboration_system.py:96-118 | the whole new state, and consistency kept |
| PlagiarismNetworks.PlagiarismNetwork.AddEdge | Plagiarism_detection_collaboration_system.py:120-144 | the whole new state or the error, and consistency kept |
| PlagiarismNetworks.PlagiarismNetwork.GetNeighbors | Plagiarism_detection_collaboration_system.py:150-166 | neighbours read off the multigraph equal those of the edge list, in order |
| PlagiarismNetworks.PlagiarismNetwork.AverageDegree | Plagiarism_detection_collaboration_system.py:678 | the reported average is 2E/V iff no edge was refused |
| PlagiarismNetworks.PlagiarismNetwork.GetSubgraph | Plagiarism_detection_collaboration_system.py:174-190 | fails iff refused attributes are among the requested part; otherwise gives the induced network, consistent again |
| PlagiarismNetworks.InducedIsExact | Plagiarism_detection_collaboration_system.py:174-190 | exactly the requested known nodes, unchanged, and exactly the edges between requested nodes, as often as before |
| PlagiarismNetworks.SubgraphOfSubgraph | Plagiarism_detection_collaboration_system.py:174-190 | extracting T from what was extracted for S is extracting the common identifiers |
| NetworkRuns.EveryRunIsConsistent | Plagiarism_detection_collaboration_system.py:88-144 | every run of calls, raising ones included, keeps edge list, node table and multigraph consistent |
| NetworkRuns.CallAnswers | Plagiarism_detection_collaboration_system.py:96-144 | what every call answers: the identifier given or drawn, a missing end, or the name clash |
| NetworkRuns.NodeIdInjective | Plagiarism_detection_collaboration_system.py:99-101 | two automatic nodes are never numbered alike |
| NetworkRuns.AutomaticIdOverwritesIff | Plagiarism_detection_collaboration_system.py:99-117 | in any run an automatic node overwrites another iff its number was there at the start or was given by a caller before |
| NetworkRuns.ClearCallersLoseNothing | Plagiarism_detection_collaboration_system.py:99-117 | from an empty network nothing is overwritten while callers avoid numbers still to be drawn |
| NetworkRuns.ExtractionRestartsNumbers | Plagiarism_detection_collaboration_system.py:174-190 | after an extraction the m-th automatic node overwrites iff its number was extracted or given before |
| NetworkRuns.ExtractedNodeIsLost | Plagiarism_detection_collaboration_system.py:99-190 | a node extracted alone is lost to the first automatic node |
| NetworkRuns.RefusedEdgeIsHalfStored | Plagiarism_detection_collaboration_system.py:138-143 | a run whose edge attribute has one of the six names that raise leaves an edge in the list, a degree total of 0 and a part that cannot be extracted |
| NetworkRuns.RefusedNodeIsHalfStored | Plagiarism_detection_collaboration_system.py:116-117 | a node attribute with one of the three names that raise leaves the node in the table only |
| NetworkRuns.OtherNamesAreStored | Plagiarism_detection_collaboration_system.py:116-143 | no other attribute name is refused |
| UndirectedGraphs.BreadthFirst | Plagiarism_detection_collaboration_system.py:509 | finds exactly the reachable vertices, each from one found before |
| UndirectedGraphs.ConnectedComponents | Plagiarism_detection_collaboration_system.py:509 | components partition the vertices; two share one iff a path joins them |
| UndirectedGraphs.DegreesCountLinks | Plagiarism_detection_collaboration_system.py:513-514 | within a part the degrees, loops twice, sum to twice the number of linked pairs |
| UndirectedGraphs.LinkedPairsCount | Plagiarism_detection_collaboration_system.py:514 | the linked pairs are the pairs of positions, a position with itself allowed, that are linked |
| UndirectedGraphs.ConnectedPartHasTreeEdges | Plagiarism_detection_collaboration_system.py:514 | a connected part of n vertices has at least n - 1 linked pairs |
| UndirectedGraphs.LinkedAndUnlinked | Plagiarism_detection_collaboration_system.py:514 | linked pairs are all pairs less the unlinked ones plus the loops |
| UndirectedGraphs.DensityIsLinkedPairs | Plagiarism_detection_collaboration_system.py:514 | the density computed from degrees, times n(n - 1), is twice the number of linked pairs of positions; 0 for a single vertex |
| UndirectedGraphs.LinkedPairsBounds | Plagiarism_detection_collaboration_system.py:514 | that density is at least 2/n when connected, and at most 1 iff loops do not outnumber unlinked pairs |
| SimilarityNetworks.ReachesIsConnected | Plagiarism_detection_collaboration_system.py:498-506 | reaching in the built graph is being joined by similarity edges of at least the threshold |
| SimilarityNetworks.SimilarLinkIff | Plagiarism_detection_collaboration_system.py:498-506 | two documents are linked iff a similarity edge of at least the threshold has these two ends, in either direction |
| SimilarityNetworks.DetectSimilarityNetworks | Plagiarism_detection_collaboration_system.py:493-529 | two documents are reported together iff such a chain joins them; networks are disjoint, of size two or more, their density times size(size - 1) twice the number of similar pairs, at least 2/size, at most 1 iff self-links do not outnumber the pairs that are not similar |
| SimilarityNetworks.DenseIff | Plagiarism_detection_collaboration_system.py:525 | a network is called dense iff four times its similar pairs exceed size(size - 1) |
| SimilarityNetworks.RaisingTheThresholdOnlySplits | Plagiarism_detection_collaboration_system.py:493-529 | every network at a higher threshold lies inside one of a lower threshold |
| NetworkRuns.SelfLinkInflatesDensity | Plagiarism_detection_collaboration_system.py:505-514 | two documents, one link and one self-link, added by calls: every report gives their network density 2 |
| TemporalPatterns.GroupsPartition | Plagiarism_detection_collaboration_system.py:332-344 | each dated document is once in the group of its hour and in no other |
| TemporalPatterns.AllPairsCount | Plagiarism_detection_collaboration_system.py:351-364 | k documents give exactly k(k - 1)/2 entries |
| TemporalPatterns.CollectPairs | Plagiarism_detection_collaboration_system.py:350-364 | the nested loops collect the similarity of every pair in order |
| TemporalPatterns.PairSimilarityIsFirst | Plagiarism_detection_collaboration_system.py:354-364 | the similarity of a pair is the weight of the first similarity edge with these two ends, 0 without one |
| TemporalPatterns.AverageIsOverPairs | Plagiarism_detection_collaboration_system.py:350-366 | the average, times k(k - 1), is the sum of the similarities over all ordered pairs of different positions |
| TemporalPatterns.AverageWithin | Plagiarism_detection_collaboration_system.py:366 | the average stays within bounds that hold 0 and the similarity weights |
| TemporalPatterns.AverageIgnoresOrder | Plagiarism_detection_collaboration_system.py:350-366 | the average does not depend on the order in which documents were added |
| TemporalPatterns.DetectTemporalPatterns | Plagiarism_detection_collaboration_system.py:327-378 | an hour is reported once, iff four documents or more fall in it and their average exceeds 0.3, with that average, suspicious iff it exceeds 0.5 |
| TemporalPatterns.ChangeSimilarity | Plagiarism_detection_collaboration_system.py:464-480 | symmetric, in [0, 1], and 1 iff same length and same set of change types |
| TemporalPatterns.ChangeSimilarityIsMean | Plagiarism_detection_collaboration_system.py:464-480 | it is the mean of shorter over longer length and of common types over the larger number of types |
| CacheKeys.NormalizeIsIdempotent | src/utils/redis_cache.py:255-259 | normalising twice is normalising once; only the empty name becomes empty |
| CacheKeys.NormalizeKeeps | src/utils/redis_cache.py:255-259 | the segments that are neither empty nor "." stay in order, and so does the root, three or more slashes counting as one; nothing else is left |
| CacheKeys.KeyShape | src/utils/redis_cache.py:272-276 | a key is its namespace, the version and one ":name" per non-empty part |
| CacheKeys.KeysEqualIff | src/utils/redis_cache.py:262-276 | keys are equal iff namespace and pieces are |
| LegacyKeys.ImageIsModern | scripts/migrate_redis_keys.py:36-82 | a new name is in the versioned namespace and is never mapped again |
| LegacyKeys.ClassifiedIff | scripts/migrate_redis_keys.py:49-80 | a key is taken for an entry iff it is that entry's text |
| LegacyKeys.CollisionsAreExactly | scripts/migrate_redis_keys.py:49-80 | two legacy keys get one name exactly in the listed cases, sessions included: identifier and field agree, or an empty identifier's field spells out the other two |
| LegacyKeys.EmptySessionIdCollides | scripts/migrate_redis_keys.py:76-80 | the session without identifier whose field is "id:field" collides with session id |
| LegacyKeys.PlainCollisions | scripts/migrate_redis_keys.py:49-80 | with plainly spelled identifiers: similarity/analysis, doc:x against analysis or similarity:doc:x, the default index against corpus_index |
| LegacyKeys.PlainImagesAre | scripts/migrate_redis_keys.py:49-80 | the new name of every plainly spelled key, in full |
| LegacyKeys.SpellingsCollide | scripts/migrate_redis_keys.py:61-63 | a doubled slash inside a relative path gives two keys of one prefix that collide |
| MigrationProtocol.StatsAddUp | scripts/migrate_redis_keys.py:124-166 | scanned = migrated + skipped + errors, and as many renames as migrated |
| MigrationProtocol.SkippedAre | scripts/migrate_redis_keys.py:143-147 | skipped are exactly the yields that are no legacy keys |
| MigrationProtocol.LiveRun | scripts/migrate_redis_keys.py:137-168 | after any live run, failures included: renamed keys are gone, their new names hold the value renamed last, the rest is untouched |
| MigrationProtocol.SurvivorsFailed | scripts/migrate_redis_keys.py:157-166 | a scanned legacy key still there failed every time and was counted as an error |
| MigrationProtocol.CompletesIff | scripts/migrate_redis_keys.py:137-168 | a live run leaves no legacy key iff its scan yields each of them at least once over a working connection, in any order and with any repeats |
| MigrationProtocol.CoveringRunCompletes | scripts/migrate_redis_keys.py:137-168 | such a run has renamed every legacy key, and a second run over its store migrates nothing and counts no error |
| MigrationProtocol.NoErrorsIff | scripts/migrate_redis_keys.py:157-166 | the error count is 0 iff no legacy key is yielded twice, unknown, or met over a broken connection |
| MigrationProtocol.NothingLostIffCollisionFree | scripts/migrate_redis_keys.py:158 | under a scan that reaches every legacy key, repeats allowed, the store keeps its size iff no new names coincide or are taken |
| MigrationProtocol.ShrinksIff | scripts/migrate_redis_keys.py:158 | under such a scan the store shrinks iff two legacy keys meet under one name or a name is taken |
| MigrationProtocol.CollisionFreeRunRelabels | scripts/migrate_redis_keys.py:137-168 | under such a scan and without collisions every value ends under its new name and nothing else changes |
| MigrationProtocol.DryRunPredictsSameScan | scripts/migrate_redis_keys.py:152-155 | a dry run touches nothing and lists the renames an error-free live run over the same scan performs |
| MigrationProtocol.DryRunPredictsAnyScan | scripts/migrate_redis_keys.py:152-166 | for a dry scan that lists the store and a live one that reaches every legacy key, both with any repeats, the announced keys are the renamed keys |
| MigrationProtocol.MigrateKeys | scripts/migrate_redis_keys.py:137-168 | for any key mapping, the loop over the client performs exactly the modelled run |
| RedisMigration.MigrateRedisKeys | scripts/migrate_redis_keys.py:114-168 | the script's run with the legacy mapping is exactly the modelled run |
| NameSeams.NormalAroundColon | src/utils/redis_cache.py:255-259 | normalising a text with a colon normalises both sides by themselves, but for the segments that meet at the colon |
| CacheReaders.ReadersFindEntries | src/utils/redis_cache.py:699-751 | after a collision-free migration counters, results and indexes are found under the identifier of their legacy key |
| CacheReaders.MissingCountersReadZero | src/utils/redis_cache.py:724-751 | a counter that nothing was migrated to reads 0 |
| CacheReaders.SessionReaderAsksIff | src/utils/redis_cache.py:684-687 | the session reader asks for the new name of "session:id:field" iff the two read back |
| CacheReaders.SessionReaderFindsIff | src/utils/redis_cache.py:684-687 | then it finds the value; otherwise nothing, or another entry's value |
| CacheReaders.DottedSessionIsLost | scripts/migrate_redis_keys.py:76-79 | an identifier "a:./b" is not read back under any field |
| CacheReaders.MigrationLosesSession | src/utils/redis_cache.py:684-687 | the only entry of such a store is not found after the migration |
| CacheReaders.OneKeyMigrates | scripts/migrate_redis_keys.py:137-168 | a store with one legacy key migrates to one with its new name |
| CacheReaders.DocReaderFindsIff | src/utils/redis_cache.py:709-711 | the results reader finds a document under "doc:id" iff normalisation leaves the identifier alike after the colon |
| CacheReaders.DottedDocIsLost | scripts/migrate_redis_keys.py:65-67 | a document "./b" is not found after its migration |
| LegacyKeys.SessionKeyParts | scripts/migrate_redis_keys.py:76-80 | a session identifier without colon and its field come apart again |
| RedisMigration.MeetingIsColliding | scripts/migrate_redis_keys.py:36-82 | two keys meet in a run iff their entries collide |
| SessionActivity.GetActiveSessionsCount | app/state_manager.py:74-139 | counts the listed keys whose fourth piece names a recently active session, or -1 when nothing can be listed |
| SessionActivity.ListedKeysAre | app/state_manager.py:84-111 | listed are all keys of a scan that worked and the interaction keys of the fallback, these once each |
| SessionActivity.CountFailsIff | app/state_manager.py:98-117 | the answer is -1 iff neither listing works, or the scan fails and the fallback names no interaction |
| SessionActivity.StoredKeysAreListed | app/state_manager.py:100-105 | every key the session cache writes is recognised as an interaction key |
| SessionActivity.FourthPieceIsVersion | app/state_manager.py:121-123 | the fourth piece of every stored session key is the application version |
| SessionActivity.CountIgnoresSessions | app/state_manager.py:119-134 | over stored keys the count is all or nothing and ignores whose they are |
| SessionActivity.CounterIsRightIff | app/state_manager.py:74-139 | "no session is active" is right iff nobody is, or the session named like the version is |
| SessionActivity.ActiveSessionUnnoticed | app/state_manager.py:119-134 | any other session is active and listed, and the count is 0 |
| SessionActivity.LenientCountMissesMore | app/streamlit_app.py:1244-1290 | each count is 0 iff a stated condition on listings and active listed keys holds; the second alone is 0 iff nothing can be listed, or the cache is offline with an active session in its fallback |
| SessionActivity.ListedActiveIsVersion | app/state_manager.py:119-134 | over stored keys a listed session counts iff there are keys and the session named like the version is active |
| SessionActivity.SameSessionIff | src/utils/redis_cache.py:684-687 | two session identifiers share a key iff they normalise alike |
| BackupDaemon.BackupIsSafe | app/state_manager.py:226-248 | every backup has no session counted in the cache as the run left it, and comes a full timeout after the start and after every earlier activity |
| BackupDaemon.BackupsNeedActivityBetween | app/state_manager.py:228-273 | two backups are more than a timeout apart with an activity write or corruption between |
| BackupDaemon.QuietPeriodBacksUpOnce | app/state_manager.py:213-276 | a quiet period after unsaved activity takes exactly one backup iff some iteration is ready |
| BackupDaemon.NothingNewNothingBackedUp | app/state_manager.py:235-240 | while the only activity known is not newer than the last backup, no iteration backs up before an activity write or a corruption |
| BackupDaemon.RestartBacksUpOnlyNews | app/state_manager.py:191-240 | a daemon started over a recorded backup and activity, merely polling, takes one backup iff the activity is newer and some iteration is ready |
| BackupDaemon.BackupIsRecorded | app/state_manager.py:266-270 | a backup is recorded under its time, in the daemon and in the cache |
| BackupDaemon.SuccessorContinues | app/state_manager.py:191-203 | whatever a daemon did, one started afterwards has the same last backup time |
| BackupDaemon.LostTimestampIsBackedUp | app/state_manager.py:227-231 | after an unusable timestamp mere polling takes one backup iff some later iteration is ready a timeout after the repairing one |
| BackupDaemon.SessionsDecideOnlyByVersionName | app/state_manager.py:235-248 | unless the session named like the version is active, a backup depends on times alone |
| BackupDaemon.NearIsSeen | app/state_manager.py:355-356 | in a run a session counts as recent iff one of its interactions, or its entry from before the start, is within the window and still cached |
| BackupDaemon.BackupIff | app/state_manager.py:226-248 | in every run an iteration with a true listing backs up iff a timeout has passed since the start and since a known activity newer than the last backup, and no interaction of a session named like the version, from the run or from before it, is within 15 minutes and still cached |
| BackupDaemon.BackupAfterInteractions | app/state_manager.py:318-356 | with activity written at most a lag before every interaction, a backup comes at least the timeout less the lag after each interaction of any session |
| BackupDaemon.BackupDuringSession | app/state_manager.py:119-248 | under any timeout and lag, a timeout after an activity write the daemon backs up although the session it announced is listed |
| BackupDaemon.ProtectsIff | src/core/app_config.py:389-392 | for any lag between activity write and interaction, no backup comes within 15 minutes of an interaction iff the timeout less the lag is more than 15 minutes |
| BackupDaemon.SecondGuardIsWeaker | app/streamlit_app.py:1303-1321 | the page's daemon may back up whenever this one may; it alone may iff a timeout has passed since an activity newer than the last backup and nothing can be listed, an active session is listed offline, or nobody listed is active but the first is starting up |
| BackupDaemon.Daemon.Poll | app/state_manager.py:213-276 | one polling iteration performs exactly the modelled step |
| BackupDaemon.Daemon.constructor | app/state_manager.py:191-211 | it starts from the recorded backup time, from 0 when none is usable, and writes an activity timestamp only when it is missing |
| DetectionMetrics.RaisingTheThreshold | evaluation/evaluate.py:116-121 | tp and fp never grow, fn and tn never shrink, and each loss on one side is a gain on the other |
| DetectionMetrics.CountsAreCardinalities | evaluation/evaluate.py:114-121 | each count is the number of positions on its side of the threshold with its label |
| DetectionMetrics.CountsConstantBetweenScores | evaluation/evaluate.py:116-121 | the counts do not change between consecutive scores |
| DetectionMetrics.F1IsCountQuotient | evaluation/evaluate.py:123-129 | F1 is 2tp/(2tp+fp+fn), or 0 where that is 0/0, and lies in [0, 1] |
| DetectionMetrics.BestThresholdIsAScore | evaluation/evaluate.py:110-130 | the best F1 over all real thresholds is attained at one of the scores |
| DetectionMetrics.GridStopsBeforeStop | evaluation/evaluate.py:154 | exactly the grid points before the stop are swept, for rising and for falling grids |
| DetectionMetrics.SweepThresholds | evaluation/evaluate.py:145-156 | one row per grid point before the stop, holding those counts and, rounded, precision, recall, F1 and accuracy as quotients of them |
| DetectionMetrics.BestRow | evaluation/evaluate.py:332-334 | the first row of largest reported F1 |
| DetectionMetrics.SweepAgainstBestScore | evaluation/evaluate.py:134-156 | the row of largest rounded F1 does not beat the best score; with a grid point just below that score it reports the same F1 |
| AdversarialBenchmark.GroupByTransformation | evaluation/adversarial_benchmark.py:340-343 | groups exactly the scores of each transformation, in order |
| AdversarialBenchmark.CategoriesAddUp | evaluation/adversarial_benchmark.py:340-353 | category sizes and true positives add up to the overall ones |
| AdversarialBenchmark.OverallRateIsWeightedMean | evaluation/adversarial_benchmark.py:117-161 | the overall rate is the size-weighted mean of the category rates |
| AdversarialBenchmark.RateIsDetectedShare | evaluation/adversarial_benchmark.py:114-118 | a rate is the share of the scores at or above the threshold |
| Rounding.RoundingIsMonotone | evaluation/adversarial_benchmark.py:127 | rounding to four places keeps order |
| Rounding.RoundsToNearest | evaluation/evaluate.py:132-137 | rounding takes the nearest value, the even one of two |
| AdversarialBenchmark.IdentifyWorstCategories | evaluation/adversarial_benchmark.py:218-243 | a permutation of the categories' entries in falling degradation, ties in their order; each entry holds the category's share of detected scores, rounded, and its rounded distance from the baseline |
| AdversarialBenchmark.GateCatchesOverallRegression | evaluation/adversarial_benchmark.py:591-621 | an overall regression beyond the limit fails the gate, rounding included, iff there are pairs |
| AdversarialBenchmark.GateFailsIff | evaluation/adversarial_benchmark.py:591-621 | the exit code is 1 iff some category's rounded share of detected scores falls short of the baseline by more than the limit, and 0 otherwise |
| AdversarialBenchmark.EmptyBenchmarkPasses | evaluation/adversarial_benchmark.py:591-621 | an empty benchmark loses all of a baseline of 1 and passes the gate |
| SyntheticCorpus.Reconstruct | scripts/generate_synthetic_corpus.py:245-252 | the loop prints the token list |
| SyntheticCorpus.LexOfPrint | scripts/generate_synthetic_corpus.py:203-252 | lexing a printed list gives the lexemes of its items one after the other |
| SyntheticCorpus.RoundTripIffTokens | scripts/generate_synthetic_corpus.py:203-252 | printing and lexing undo each other exactly on lists of tokens |
| SyntheticCorpus.RebuildIsIdempotent | scripts/generate_synthetic_corpus.py:203-252 | rebuilding after lexing settles a sentence |
| SyntheticCorpus.BlanksStandBeforeWords | scripts/generate_synthetic_corpus.py:245-252 | the printed text has one blank right before each word after the first token and no other |
| SyntheticCorpus.SubstitutedIsDrawn | scripts/generate_synthetic_corpus.py:228-242 | a draw that hits a known word puts the drawn synonym in its place, all else stays |
| SyntheticCorpus.ReplaceInSentence | scripts/generate_synthetic_corpus.py:225-254 | the mutated sentence is the print of the substituted tokens |
| SyntheticCorpus.MutatedSentenceReadsBack | scripts/generate_synthetic_corpus.py:225-254 | it reads back token for token iff every synonym put in is one token |
| AdversarialText.TokenizeUndoesDetokenizeIff | evaluation/adversarial_generator.py:479-486 | tokenising undoes joining exactly on non-empty words without spaces |
| AdversarialText.TokenizeCuts | evaluation/adversarial_generator.py:479-481 | any space cuts the tokens in two, a text without spaces is one token |
| AdversarialText.JoinedLength | evaluation/adversarial_generator.py:484-486 | joining puts one blank into each gap |
| AdversarialText.TransformCompression | evaluation/adversarial_generator.py:710-752 | returns short text unchanged and otherwise the joined compressed tokens |
| AdversarialText.CompressedIsSubsequence | evaluation/adversarial_generator.py:739-752 | a subsequence that keeps every occurrence of every non-stop-word, empty only for no tokens |
| AdversarialText.CompressionKeeps | evaluation/adversarial_generator.py:734-752 | a longer text keeps exactly its content words and the m-th stop word iff the m-th draw is below the factor, limited to [0.1, 1]; when nothing stays, the first tokens of that share, at least one |
| AdversarialText.CompressionReadsBack | evaluation/adversarial_generator.py:710-752 | compressed text reads back as the compressed tokens |
| AdversarialText.SubstituteSynonyms | evaluation/adversarial_generator.py:505-519 | overwrites the sampled positions and leaves the others alone |
| AdversarialText.SubstitutionIsBounded | evaluation/adversarial_generator.py:507-511 | at most as many positions change as are sampled, all of the eligible ones or the larger of 1 and their share under the ratio rounded down; all eligible |
| AdversarialText.EligibleIff | evaluation/adversarial_generator.py:507-509 | a token is eligible iff it is, lower-cased, a bank key with marks behind it |
| AdversarialText.KeysKeepLength | evaluation/adversarial_generator.py:515-516 | a stem that lower-cases to a bank key has the key's length |
| AdversarialText.ReplacedKeepsPunctuation | evaluation/adversarial_generator.py:513-518 | a token whose stem is known becomes a synonym followed by exactly its trailing punctuation, any other stays |
| TagRegistry.AddTagKeepsConsistent | app/streamlit_app.py:420-441 | names stay unique and every other tag keeps its identifier |
| TagRegistry.EveryRunIsConsistent | app/streamlit_app.py:388-503 | in every run names are unique, assignments name existing tags and 0 <= counter <= usage |
| TagRegistry.UsageCountsAssignments | app/streamlit_app.py:458-476 | in every run the usage counter of a name is the number of assignments ever made to it |
| TagRegistry.AssignAppends | app/streamlit_app.py:458-476 | one assignment to the tag of that name is appended, a new name enters as a custom tag, other counters stay |
| TagRegistry.UnassignTakesThePair | app/streamlit_app.py:478-491 | true iff the name is known; every assignment of the pair goes and no other |
| TagRegistry.ViewsAgree | app/streamlit_app.py:493-503 | a document lists a tag as often as the tag lists the document |
| TagRegistry.AssignKeepsCounter | app/streamlit_app.py:458-476 | assigning keeps the counter equal to the live assignments |
| TagRegistry.UnassignKeepsCounterIff | app/streamlit_app.py:478-491 | unassigning keeps it iff the pair was assigned once or the tag nowhere |
| TagRegistry.DoubleAssignmentUnbalances | app/streamlit_app.py:458-491 | a pair assigned twice and unassigned once leaves a counter of 1 and no assignment |
| TagRegistry.DisciplinedRunsCountLive | app/streamlit_app.py:458-491 | under the tag panel's discipline the counter is the number of live assignments |
| TagRegistry.TagManager.AddTag | app/streamlit_app.py:420-441 | the whole new state |
| TagRegistry.TagManager.AssignTag | app/streamlit_app.py:458-476 | the whole new state |
| TagRegistry.TagManager.UnassignTag | app/streamlit_app.py:478-491 | the whole new state |
| TagGeneration.ScoreTags | app/streamlit_app.py:325-345 | the loops build the table of distinct candidates |
| TagGeneration.CandidatesAre | app/streamlit_app.py:329-337 | candidates are the keywords of three letters that score above 0.01, at twice their score, and the topics, none above 1 |
| TagGeneration.TagsInOrder | app/streamlit_app.py:339-345 | the table lists the tags in the order in which they first come up |
| TagGeneration.UniqueKeepsTheBest | app/streamlit_app.py:339-345 | each candidate tag once, with the largest of its scores |
| TagGeneration.AnswerIsBestOfCandidates | app/streamlit_app.py:288-300 | distinct tags in falling order, at most as many as asked, each with its best score, in (0, 1] |
| TagGeneration.NothingBetterIsLeftOut | app/streamlit_app.py:295 | no candidate left out beats one that is in |
| TagGeneration.TiesKeepTheirOrder | app/streamlit_app.py:295 | tags of one score stand in the order of the table |
| TagGeneration.AnswerLength | app/streamlit_app.py:295 | an answer is the beginning of the ranking, of exactly the length the limit leaves, negative limits included |
| TagGeneration.DetectTopics | app/streamlit_app.py:347-365 | the nested loops score each topic with a keyword in the text by the share found |
| TagGeneration.TopicScores | app/streamlit_app.py:352-363 | a detected topic scores above 0 and at most 1 |
| TagGeneration.TopicsAre | app/streamlit_app.py:347-365 | detected are exactly the topics with a keyword in the text; the score times the number of keywords is the number found |
| TagGeneration.RankingLength | app/streamlit_app.py:339-345 | there are as many ranked tags as different candidate names |
| TagGeneration.StaleIff | app/streamlit_app.py:283-298 | answers for two limits agree iff the limits are equal or neither is below the number of different candidate tags (and its extension to negative limits) |
| TagGeneration.EveryAnswerIsTheFirst | app/streamlit_app.py:278-300 | in every run each answer is that for the limit of the first call with the text, and is right iff the two limits show alike |
| TagGeneration.SecondAnswerIsStaleIff | app/streamlit_app.py:283-298 | a text asked for some tags and then for more is answered wrongly iff it has more candidate tags than were asked for first |
| TagGeneration.ExtractKeywords | app/streamlit_app.py:302-323 | the counting and boosting loops score each distinct word of the text by its share of the words, half as much again per topic listing it |
| TagGeneration.KeywordsAre | app/streamlit_app.py:309-321 | a keyword is a word of the text; its score times the number of words is its count, raised once per listing |
| TagGeneration.WordIsTag | app/streamlit_app.py:325-345 | every word of three or more letters in a text of less than a hundred words is a candidate tag |
| TagGeneration.TwoWordsAreTwoTags | app/streamlit_app.py:302-345 | a text of less than a hundred words that holds two different words has two candidate tags |
| TagGeneration.TagGenerator.GenerateTags | app/streamlit_app.py:278-300 | memo and answer are those of the modelled call; with one limit throughout the answer is the computed one |
| ChunkMatrix.FillChunkMatrix | app/streamlit_app.py:2075-2088 | the double loop writes every cell's final value in place: symmetric, unit diagonal, 0 where a side is empty |
| ChunkMatrix.MatrixMaxReaches | app/streamlit_app.py:2082-2086 | an entry reaches a threshold iff some chunk pair does |
| ChunkMatrix.EntryReachesIffDense | app/streamlit_app.py:2484-2492 | the entry reaches the threshold iff density A is positive iff density B is; both are percentages |
| ChunkMatrix.DensitiesArePercentages | app/streamlit_app.py:2484-2492 | a density, times the size of its side, is 100 times the number of its chunks that reach the threshold against some chunk of the other |
| DependencyAudit.Evaluate | scripts/audit_dependencies.py:37-65 | the two verdict lists are the blocked and the covered items, in report order |
| DependencyAudit.ReviewedIff | scripts/audit_dependencies.py:47-64 | a reported finding passes iff it has no fix and some assessment names package, version and the finding or an alias, says "not_affected", is in date and rests on the present evidence; everything else blocks |
| DependencyAudit.ItemsAre | scripts/audit_dependencies.py:42-46 | items are the skipped dependencies and the findings of the others |
| DependencyAudit.VerdictsPartition | scripts/audit_dependencies.py:42-65 | every item lands in exactly one list, as often as reported |
| DependencyAudit.VerdictsMoveOneWay | scripts/audit_dependencies.py:43-64 | a later day only blocks more, more assessments only review more, skips and findings with fixes always block |
| DependencyAudit.InstalledInventory | scripts/audit_dependencies.py:68-86 | fails iff two versions of one name are installed; otherwise the ascending list of pins, of which only Torch CPU builds are audited under their public version |
| DependencyAudit.InventoryIgnoresOrder | scripts/audit_dependencies.py:77-86 | the inventory does not depend on order or repetition |
| TextOrder.AscendingIsUnique | scripts/audit_dependencies.py:86 | a sorted list without repetition is determined by its elements |
| TextOrder.BeforeIff | scripts/audit_dependencies.py:86 | names are ordered by their first difference, a prefix first |
| ConsistencyScores.VarianceIsBounded | AI_ADVANCED_Text_Gen.py:307-311 | the sample variance is at most n/(n-1) <= 2, so the clamp never acts and the score is in [0, 1] |
| ConsistencyScores.ZeroConsistencyIff | AI_ADVANCED_Text_Gen.py:307-311 | the score is 0 exactly for two opposite sentences |
| ConsistencyScores.FullConsistencyIff | AI_ADVANCED_Text_Gen.py:284-311 | the score is 1 exactly when all sentences have the same sentiment |
| ConsistencyScores.VarianceTimes | AI_ADVANCED_Text_Gen.py:307-311 | the variance, times n - 1, is the sum of the squared deviations from the mean |
| ConsistencyScores.DeviationsTimes | AI_ADVANCED_Text_Gen.py:307-311 | that sum, times n, is n times the squares less the squared total |
| ConsistencyScores.ComputeSemanticCoherence | AI_ADVANCED_Text_Gen.py:267-282 | the loop computes the mean overlap of neighbouring sentences |
| ConsistencyScores.CoherenceBounds | AI_ADVANCED_Text_Gen.py:267-282 | in [0, 1], and 1 iff all sentences have one non-empty word set or there are less than two |
| ConsistencyScores.OverlapTimesUnion | AI_ADVANCED_Text_Gen.py:267-282 | an overlap, times the size of the union, is the size of the intersection |
| ConsistencyScores.CoherenceGrows | AI_ADVANCED_Text_Gen.py:267-282 | one more sentence adds its overlap with the last to the sum that is averaged |
| ParaphraseSimilarity.OverallSimilarity | Paraphrase & Sentence-Level_Plagiarism_Detection.py:208-332 | symmetric, in [0, 1], and 1 iff TF-IDF is 1, token sets and stems are the same and not empty, and sentences and words are equally many |
| ParaphraseSimilarity.OverallMoves | Paraphrase & Sentence-Level_Plagiarism_Detection.py:232-244 | a component moves the total by its own move times 0.35 for TF-IDF, 0.35 for the tokens, 0.15 for structure and stems each |
| ParaphraseSimilarity.SemanticIsWeighted | Paraphrase & Sentence-Level_Plagiarism_Detection.py:309-334 | 0.6 times the share of common stems and 0.4 times that of common letters; the cap never acts |
| ParaphraseSimilarity.StructuralIsMean | Paraphrase & Sentence-Level_Plagiarism_Detection.py:285-307 | the mean of the ratios of average sentence lengths and of sentence counts |

## Left out

- Streamlit rendering, plotting, report and HTML export, command-line menus: no state worth proving.
- Maximal cliques of a similarity network, greedy modularity communities, eigenvector centrality, Louvain communities: computed by libraries.
- `detect_collaboration_networks`, `_simple_community_detection` and the multigraph metrics of `generate_network_stats` beyond the average degree do not run as written (they call `get` on edge tuples, or undirected algorithms on a directed multigraph); `detect_similarity_networks` stands for the component search.
- Malformed submission times, on which grouping by hour raises.
- Creation timestamps of nodes, edges and tags, and the attribute copies the multigraph keeps per node: nothing modelled reads them.
- Aliasing of attribute dictionaries between a network and its extractions: attributes are values here.
- Other clients that write to the key store while it is being migrated, renames that take effect although the connection reports a failure, and keys that are not valid UTF-8 (the script stops at those).
- Cache expiry other than session entries disappearing, and interleavings inside one polling iteration of the daemon (an activity write between its reading the timestamp and writing the backup); iterations are atomic steps between the other threads' writes.
- Exceptions between writing a backup file and recording its time.
- Installed versions that are no valid version strings, on which the inventory raises.
- Floating-point rounding; only the rounding of reported metrics and rates is modelled.
- Hash collisions of the tag memo, which is kept by text here.
- Whether the bytes of a migrated entry are in the form its reader decodes; readers find stored bytes here.
- Cached timestamps stored as numeric text: the daemon converts them, the application page's daemon does not.
- `check_session_timeout` and the session reset functions: their windows and key lists are constants, and statements about them would add only easy members.
- The point and submission ledgers of the plagiarism, AI-detection and citation systems: each operation clamps or adds constants, so statements about them would add only easy members.
- Citation extraction, validation and style checks, the AI classifier, perplexity, and the statistics of sentence analyses.
- Sentence splitting, clause and word reordering, noise insertion, paraphrase phrases and corpus files of the text generators.
- TagRegistry.TagManager.AddTag: identifiers drawn for new tags are assumed unused, as random ones are.
