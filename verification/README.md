# Verified model of the arca-dns control plane and agent

arca-dns keeps DNS zones in a versioned store, signs them, and ships them to agents that serve them
and announce their routes over BGP. This Dafny project models the parts where a mistake would be silent
and proves what they promise, for all inputs and all runs. `dafny verify dfyconfig.toml` checks it.

| files | part of the system |
|---|---|
| `MemoryStore`, `EtcdServer`, `EtcdProtocol`, `EtcdHistory` | The zone store. The in-memory backend is the atomic specification. The etcd backend is a protocol of separate read and transaction steps over revisioned keys; any number of controllers interleave without the in-process lock, history cleanups run beside them, and replies can be lost before or after the server acted. The protocol refines the atomic store. |
| `HealthEngine`, `HealthMachine`, `RouteControl` | Health checks to BGP. Status to signal, signal to state, state to advice, advice to BIRD commands. A failed BIRD command may or may not have taken effect. |
| `CanonicalOrder`, `Chains`, `Denial` | NSEC and NSEC3 chains over label sequences, with the hash as an arbitrary function. |
| `AgentFiles`, `FileNames`, `Syncer` | Zone synchronization: file names, files, managed-zone index, service references, rollback and deletion. What every file operation and service command answers is an input, and a failure can come before or after it took effect. |
| `Serials`, `Digits`, `Ulid` | SOA serials on both sides, and the identifier generator with its bit buffer. |
| `ZoneRules`, `RRsets`, `TxtSplit`, `Keys` | The record-set validator, grouping for the signer, and TXT chunking. |
| `Backoff` | The re-signing scheduler's backoff. |
| `NsdConfig`, `Text`, `ZoneNames`, `ZoneModel`, `Ordering` | The managed NSD file with its parser, line splitting, name and file-name normalization, shared types, and sorting. |

The outside world is an input or a free choice: clocks, dates, random draws, version generation, fetch
results, service and file errors. Objects that the program updates in place are classes; loops stay loops;
each is proved against a specification function or a stated property, and the theorems are about those.

## Where the code and its promises differ

- `pkg/model/validation.go:23` calls 65279 the largest TXT payload that fits one record. That holds for
  ASCII; for arbitrary valid UTF-8 the exact limit is 65275 (`TxtSplit.LengthLimitIsExact`).
- `pkg/dnssec/nsec3.go:116-117` appends NSEC3PARAM to the apex bitmap without sorting. The bitmap is
  ascending exactly when NSEC3PARAM was there already or no apex type exceeds 51
  (`Denial.ApexBitmapOrder`); otherwise a CAA record breaks it.
- The NSEC chain also holds a record for every empty non-terminal, which section 2.3 of RFC 4035 does
  not allow. The chain is free of them exactly when every ancestor of an owner strictly below the apex
  owns a record (`Denial.ChainListsOwnersOnlyIff`).
- ULIDs increase only while the clock fits 48 bits (`Ulid.IssueGrowsIff`, `Ulid.WrappedClockGoesBack`);
  times before 1970 convert to huge unsigned values and are outside that range too.
- A serial set by the caller is accepted by the controller in plain order, but the agent rejects it if it
  jumps by more than 2^31 (`Serials.PreparedSerialRejection`).
- History cleanup can drop the current version's snapshot when versions do not commit in sorting order:
  `EtcdHistory.CleanupDropsCurrentIff` says exactly when, `EtcdHistory.CurrentSnapshotCanBeLost` gives a run.
- File names do not keep all zones apart. A zone longer than 200 characters shares its file with the zone
  spelled like its shortened form, without any hash collision (`FileNames.CollidingPair`;
  `FileNames.ShareFileIff` is exact). What `Syncer` says about service references is therefore stated for
  the zones at hand having files of their own (`AgentFiles.RealNamingApartIff`).
- Deleting a zone can leave a service reference to a missing file. `Syncer.Agent.DeleteRemovedZone` says
  exactly when; `Syncer.RepeatedRemovalDangles` and `Syncer.LostRemovalDangles` are runs that do it: a
  removal repeated after its index update failed, and a directory sync that fails after the removal.
- A zone can be in sync and yet unserved: `Syncer.UnchangedZoneStaysUnserved` is such a run. A cycle without
  errors serves a listed zone exactly if it was fetched in full or served before (`Syncer.Agent.SyncAll`).
- That a reconcile adopts BIRD's real state rests on BIRD naming a protocol disabled in its answer exactly
  when it is; the code calls its reading of that answer a heuristic (`internal/agent/bird/routes.go:58-60`).

## Model

| member | source | states |
|---|---|---|
| `EtcdProtocol.Refinement` | pkg/backend/etcd.go:298-597 | Every interleaving of any number of clients, with any replies lost, keeps the invariant and leaves exactly the zones that the atomic store holds after the committed operations in commit order; each of those operations succeeds when replayed alone |
| `EtcdProtocol.RepliesAreTrue` | pkg/backend/etcd.go:298-597 | Success is reported exactly when the operation took effect in that step; every other delivered reply means it did not, and is the atomic store's own answer, except that a conflict may also report that the zone changed since it was read or, for a versioned delete, that the version read was not the expected one |
| `EtcdProtocol.ReportsMatchCommits` | pkg/backend/etcd.go:298-597 | Over every run, the operations that took effect are exactly those reported as done plus those whose reply was lost after the server acted; with none lost, the reports are the commits in order |
| `EtcdProtocol.CommitsIffUntouched` | pkg/backend/etcd.go:346-597 | No lost update: a client that read a zone commits later exactly when nobody has touched that zone key since (a versioned delete also needs the version it read to be the expected one) |
| `EtcdProtocol.OneWriterWins` | pkg/backend/etcd.go:346-597 | In every interleaving, between two committed operations that expected the same version of a zone some commit issued that version again; with versions never reused, one writer wins |
| `EtcdProtocol.ZoneKeyNeverReverts` | pkg/backend/etcd.go:401-423 | Delete and recreate never bring an old key state back, so a stale updater cannot be fooled |
| `EtcdProtocol.StepKeepsInv` | pkg/backend/etcd.go:298-597 | Every step keeps: the version key exists exactly when the zone key does and equals the zone's version; a revision read once names one value; a step changes the visible zones only by one successful atomic operation |
| `EtcdProtocol.CommitIsAtomic` | pkg/backend/etcd.go:321-343 | A transaction whose comparisons hold acts as the atomic operation on exactly the zone value the client read |
| `EtcdProtocol.GuardMeaning` | pkg/backend/etcd.go:412-417 | When the comparisons of a pending client hold, per operation |
| `EtcdProtocol.TxnMeaning` | pkg/backend/etcd.go:323-329 | What the writes of each transaction do to the zone, version and history keys |
| `EtcdProtocol.CommitUsesNewRevision` | pkg/backend/etcd.go:321-343 | A changed zone key gets a revision never used before |
| `EtcdProtocol.CommitStepShape` | pkg/backend/etcd.go:298-597 | A commit step takes effect completely or leaves the store alone |
| `EtcdProtocol.LostReplies` | pkg/backend/etcd.go:425-428 | A lost reply changes what the client learns, not what the server did |
| `EtcdProtocol.Client.Begin` | pkg/backend/etcd.go:346-401 | The read half of an operation, branch by branch, is the begin step of the protocol |
| `EtcdProtocol.Client.Commit` | pkg/backend/etcd.go:409-432 | The transaction half, with its reply possibly lost before or after it acted, is the commit step |
| `EtcdProtocol.Client.Recheck` | pkg/backend/etcd.go:482-491 | The second read that tells a conflict from a missing zone is the recheck step |
| `EtcdServer.Server.Commit` | pkg/backend/etcd.go:321-331 | All comparisons and writes of a transaction happen at one new revision or not at all |
| `EtcdHistory.HistoryIsSound` | pkg/backend/etcd.go:412-423 | If versions commit in sorting order, in every reachable state the current version's snapshot is in the history, agrees with the zone up to metadata and is the newest; no interleaved cleanup drops it, and listing order is commit order |
| `EtcdHistory.CleanupDropsCurrentIff` | pkg/backend/etcd.go:871-887 | Whatever happens between the listing of a cleanup and its deletes, it can drop the then current snapshot exactly when that version was in the listing with a hundred newer ones and this cleanup has not deleted it yet |
| `EtcdHistory.CurrentSnapshotCanBeLost` | pkg/backend/etcd.go:871-887 | For every zone that stays valid under other versions, serials and times there is a run from the empty store, with versions in descending order, after which a cleanup has dropped the current snapshot |
| `EtcdHistory.MetadataKeepsRevision` | pkg/backend/etcd.go:466-476 | A committed metadata update stores the DNSSEC part passed in and leaves the version key, the history, and the zone's version, serial and records as they are |
| `EtcdHistory.StepKeepsHistoryInv` | pkg/backend/etcd.go:298-597 | Every step keeps the history invariant |
| `EtcdHistory.ListDoomed` | pkg/backend/etcd.go:871-887 | A cleanup deletes exactly the versions with at least a hundred newer ones |
| `EtcdHistory.ListRevisions` | pkg/backend/etcd.go:660-717 | A page is newest first, each entry tells version, serial and time of its own snapshot, and it holds exactly the versions whose rank from the newest lies in the window, for negative offsets and absent limits too |
| `EtcdHistory.SliceMeaning` | pkg/backend/etcd.go:697-716 | A slice of the descending listing, said by counting newer versions |
| `EtcdHistory.VersionsMeaning` | pkg/backend/etcd.go:139-141 | The versions of a zone are those with a history key, and newer means above in string order |
| `MemoryStore.MemoryBackend.CreateZone` | pkg/backend/memory.go:137-160 | Whole new state and outcome of the atomic create |
| `MemoryStore.MemoryBackend.UpdateZone` | pkg/backend/memory.go:163-212 | Whole new state and outcome of the atomic update |
| `MemoryStore.UpdateStores` | pkg/backend/memory.go:163-212 | A successful update stores the caller's records, DNSSEC part and SOA but for the serial, under the normalized name, with the old creation time and the clock as update time; the version is the caller's if non-empty and new, else the generated one, and differs from the old one whenever the generated one does |
| `MemoryStore.CreateStores` | pkg/backend/create_prepare.go:10-36 | A successful create stores the caller's zone, with a generated serial and version where they are missing and the clock as both times |
| `MemoryStore.OtherOperationsStore` | pkg/backend/memory.go:215-260 | A metadata update stores the DNSSEC part passed in and the clock and keeps the rest; a delete removes the zone |
| `MemoryStore.FailuresMeaning` | pkg/backend/memory.go:137-260 | Which error each operation reports, and exactly when it is a missing zone or a version conflict |
| `MemoryStore.MemoryBackend.UpdateDnssecMetadata` | pkg/backend/memory.go:215-228 | Only the DNSSEC part and the update time change |
| `MemoryStore.MemoryBackend.DeleteZone` | pkg/backend/memory.go:231-242 | Whole new state and outcome of the atomic delete |
| `MemoryStore.MemoryBackend.DeleteZoneWithVersion` | pkg/backend/memory.go:245-260 | Whole new state and outcome of the versioned delete |
| `MemoryStore.ApplyIsLocal` | pkg/backend/memory.go:137-260 | A failed operation changes nothing, a successful one touches only its own zone |
| `MemoryStore.OneWinnerPerVersion` | pkg/backend/memory.go:163-260 | Of two operations in a run that expect the same version of a zone at most one succeeds, unless that version is issued again in between |
| `MemoryStore.StoreStep` | pkg/backend/memory.go:137-260 | What one operation other than a delete keeps of a zone |
| `MemoryStore.StoreRun` | pkg/backend/memory.go:163-260 | Over any run without a delete of it, a zone stays under its normalized name, keeps its creation time, and its serial never goes back |
| `Serials.UpdateIncreasesSerial` | pkg/backend/serial.go:9-14 | An update strictly increases the serial exactly when it is below the largest 32-bit value |
| `Serials.GeneratedSerialIncreases` | pkg/backend/memory.go:318-348 | A generated serial is larger than the current one, or equal at the largest value |
| `Serials.GeneratedSerialIsMax` | pkg/backend/memory.go:318-348 | While the date form YYYYMMDD01 fits 32 bits, the generated serial is the larger of it and the next number |
| `Serials.GeneratedSerialBracket` | pkg/backend/memory.go:318-348 | A generated serial is at least today's first serial and at most one above the larger of it and the current one |
| `Serials.RunBound` | pkg/backend/memory.go:318-348 | After n generated updates the serial is at most max(s0, F) + n |
| `Serials.SerialBeforeMeaning` | internal/agent/sync/serial.go:26-28 | Exactly which serials the agent calls older, without modular arithmetic |
| `Serials.MissedUpdatesAreAccepted` | internal/agent/sync/sync.go:408-410 | An agent that missed all n generated updates accepts the result while F + n is at most 2^31 |
| `Serials.PreparedSerialRejection` | pkg/backend/serial.go:9-14 | A serial chosen by the caller is stored as newer but rejected by the agent exactly when it jumps more than 2^31; with an example |
| `HealthMachine.HistoryMeaning` | internal/agent/bird/statemachine.go:69-159 | Over every signal history the counters are the lengths of the trailing hard-failure and success runs, and outside service the state is Recovering exactly when a success followed the last hard failure |
| `HealthMachine.ServiceGrade` | internal/agent/bird/statemachine.go:127-159 | While in service, Degraded means exactly that the last signal other than a hard failure reported latency |
| `HealthMachine.LeavesServiceIff` | internal/agent/bird/statemachine.go:112-124 | A serving machine turns Unhealthy exactly when the last FailureThreshold signals were hard failures |
| `HealthMachine.ReturnsToServiceIff` | internal/agent/bird/statemachine.go:141-159 | Service resumes exactly when RecoveryThreshold successes in a row complete and an earlier success had already followed the last hard failure |
| `HealthMachine.OneSuccessIsNotEnough` | internal/agent/bird/statemachine.go:141-159 | From Unhealthy one success never resumes service, whatever the threshold |
| `HealthMachine.AdviceIsSafe` | internal/agent/bird/statemachine.go:92-183 | Announce and withdraw are never advised together; announce needs a serving state and no hard failure; the debounce window silences both |
| `HealthMachine.AdviceWhen` | internal/agent/bird/statemachine.go:163-183 | Once no change is marked or the last mark is at least MinStateDuration old, Unhealthy and Recovering withdraw, Healthy and Degraded announce unless the signal is a hard failure; before that, silence |
| `HealthMachine.FirstSuccessAnnounces` | internal/agent/bird/statemachine.go:49-65 | The first success of a new machine is advised to announce |
| `HealthMachine.TrailingRunMeaning` | internal/agent/bird/statemachine.go:69-109 | A trailing run is maximal |
| `HealthMachine.StateMachine.ProcessSignal` | internal/agent/bird/statemachine.go:69-109 | State, counters and advice after one signal |
| `HealthMachine.StateMachine.HandleHardFailure` | internal/agent/bird/statemachine.go:112-124 | The hard-failure transition |
| `HealthMachine.StateMachine.HandleLatencyDegradation` | internal/agent/bird/statemachine.go:127-138 | The latency transition |
| `HealthMachine.StateMachine.HandleSuccess` | internal/agent/bird/statemachine.go:141-159 | The success transition |
| `HealthMachine.StateMachine.DetermineRouteAction` | internal/agent/bird/statemachine.go:163-183 | Announces in Healthy and Degraded, withdraws in Unhealthy and Recovering, exactly when no change is marked or the last mark is at least MinStateDuration old |
| `RouteControl.ContainsWord` | internal/agent/bird/routes.go:39-56 | Finds a word exactly when it occurs bounded by blanks or the ends |
| `RouteControl.WordMeaning` | internal/agent/bird/routes.go:39-56 | A word is found exactly if the text around it ends and begins at blanks |
| `RouteControl.ProtocolEnabledFromShowProtocols` | internal/agent/bird/routes.go:58-73 | Enabled exactly when no line reports the word |
| `RouteControl.RouteManager.Reconcile` | internal/agent/bird/routes.go:77-106 | Succeeds exactly when every protocol answers; then the cache equals BIRD's state: announced exactly when all protocols are enabled, pending withdraw exactly when some but not all are; otherwise nothing changes |
| `RouteControl.RouteManager.AnnounceRoutesChanged` | internal/agent/bird/routes.go:117-141 | Keeps the cache sound whatever fails; without a failed request it succeeds, with all protocols enabled; a failure stops the enables there and is followed by a disable of every protocol; foreign protocols are untouched |
| `RouteControl.RouteManager.EnableAll` | internal/agent/bird/routes.go:126-136 | One enable per protocol, in order, up to the first failure |
| `RouteControl.RouteManager.RollbackAnnounceFailure` | internal/agent/bird/routes.go:143-152 | Disables every protocol; a withdraw stays due exactly when one of these requests failed |
| `RouteControl.RouteManager.ForceWithdrawRoutes` | internal/agent/bird/routes.go:163-177 | Sound from any cached state; disables every protocol and succeeds exactly when no request failed, with all disabled |
| `RouteControl.RouteManager.WithdrawRoutesChanged` | internal/agent/bird/routes.go:181-200 | Keeps the cache sound; disables every protocol if there is something to withdraw, and succeeds exactly when no request failed, with all disabled |
| `RouteControl.RouteManager.WithdrawRoutesLocked` | internal/agent/bird/routes.go:202-216 | Sends one disable per protocol, in order, also after failures; a protocol is still enabled only if its own request failed; succeeds exactly when none did |
| `RouteControl.AnyCalls` | internal/agent/bird/routes.go:77-216 | Any sequence of calls, whichever commands fail and whether or not a failed one took effect, leaves the cache sound and foreign protocols untouched |
| `RouteControl.ControlLoop.ProcessSignal` | internal/agent/bird/loop.go:74-112 | When the last marked change is at least MinStateDuration old and BIRD confirms every request sent, Unhealthy and Recovering leave all protocols disabled, and Healthy and Degraded without a hard failure leave all enabled; otherwise no request is sent |
| `RouteControl.ControlLoop.Shutdown` | internal/agent/bird/loop.go:57-71 | Succeeds exactly when BIRD confirms every request, and then all protocols are disabled |
| `RouteControl.ControlLoop.Run` | internal/agent/bird/loop.go:32-71 | Over a whole signal stream: the machine follows the signal history, marked route changes are at least MinStateDuration apart, the cache stays sound, and if BIRD confirms the requests of the shutdown all protocols end up disabled |
| `RouteControl.ExtendSpaced` | internal/agent/bird/loop.go:74-112 | A mark outside the debounce window keeps all marks spaced |
| `RouteControl.SpacingAddsUp` | internal/agent/bird/loop.go:74-112 | n route changes take at least n - 1 debounce windows |
| `HealthEngine.Engine.Classify` | internal/agent/health/engine.go:75-104 | The hard-failure and latency flags do not depend on the order in which the check map is walked |
| `HealthEngine.SignalMeaning` | internal/agent/health/engine.go:78-104 | The signal of a status by cases: a failed check other than latency, failed latency alone, and no failed check |
| `HealthEngine.Engine.ProcessHealthStatus` | internal/agent/health/engine.go:75-171 | The signal of the status, passed on exactly when it is a latency report or completes a run of failures or successes of the configured length |
| `HealthEngine.Engine.RunWithStatus` | internal/agent/health/engine.go:50-69 | For any thresholds, exactly the signals that pass are sent, in order |
| `HealthEngine.PassThrough` | internal/agent/health/engine.go:75-171 | With thresholds 1/1 every status yields its signal, in order |
| `CanonicalOrder.CanonicalLess` | pkg/dnssec/nsec3.go:211-223 | The comparison loop computes the canonical order |
| `CanonicalOrder.NameLessIsStrictTotalOrder` | pkg/dnssec/nsec3.go:205-223 | The canonical order is a strict total order on label sequences |
| `CanonicalOrder.OrderMeaning` | pkg/dnssec/nsec3.go:211-223 | The order is decided at the rightmost differing label, or by length (section 6.1 of RFC 4034) |
| `CanonicalOrder.ApexIsFirst` | pkg/dnssec/nsec3.go:211-223 | The apex sorts before every other name of the zone |
| `CanonicalOrder.InZoneMeaning` | pkg/dnssec/nsec3.go:235-237 | A name is in the zone exactly if it is the apex with any labels in front |
| `Denial.CollectAuthoritativeNames` | pkg/dnssec/nsec3.go:226-266 | The names are exactly the in-zone owners plus all their ancestors strictly below the apex, and the empty non-terminals exactly those owning no record, for every map iteration order |
| `Denial.WalkUp` | pkg/dnssec/nsec3.go:243-257 | Adds exactly the ancestors of one name |
| `Denial.DeriveEmptyNonTerminals` | pkg/dnssec/nsec3.go:241-257 | Ranging over the names while they grow ends with all ancestors, whatever the order |
| `Denial.CollectOwners` | pkg/dnssec/nsec3.go:227-239 | Exactly the in-zone owner names |
| `Denial.ClosureMeaning` | pkg/dnssec/nsec3.go:226-266 | Membership in the closed name set |
| `Denial.ChainListsOwnersOnlyIff` | pkg/dnssec/nsec3.go:226-266 | The chain has no empty non-terminal exactly when every ancestor of an owner strictly below the apex owns a record |
| `Denial.TypeBitmapByName` | pkg/dnssec/nsec3.go:269-304 | For each owner the ascending list of exactly its types, and nothing for other names |
| `Denial.GenerateNsecChain` | pkg/dnssec/nsec3.go:53-95 | Fails exactly when the zone owns no name; otherwise one record per closed name in canonical order, linked to its successor, with its types plus NSEC and RRSIG ascending |
| `Denial.NsecChainMatchesRecords` | pkg/dnssec/nsec3.go:53-95 | The chain against the records: every record other than NSEC3 whose name is the apex with any labels in front is listed and shows its type; the types shown are exactly those of the records at the name, NSEC and RRSIG, ascending; the names listed are exactly the records' names and their ancestors strictly below the apex |
| `Denial.NsecChainIsOneCycle` | pkg/dnssec/nsec3.go:69-92 | Following the links from any name comes back to it after exactly as many hops as there are names |
| `Denial.ApexLeadsTheChain` | pkg/dnssec/nsec3.go:69-92 | If the apex owns a record, the first name is the apex, so the last record points back to it |
| `Denial.AbsentNameIsCoveredOnce` | pkg/dnssec/nsec3.go:69-92 | Every in-zone name that is not in the chain falls in exactly one gap |
| `Denial.NsecBitmap` | pkg/dnssec/nsec3.go:74-80 | The NSEC bitmap of one name is ascending and complete |
| `Denial.GenerateNsec3Chain` | pkg/dnssec/nsec3.go:99-203 | Succeeds exactly when the hash is injective on the closed name set; the records then follow the sorted hashes, with exactly the types at each name (plus NSEC3PARAM at the apex), and empty bitmaps for empty non-terminals |
| `Denial.Nsec3ChainMatchesRecords` | pkg/dnssec/nsec3.go:99-203 | The same for NSEC3, behind the hashes, with NSEC3PARAM at an apex that owns a record |
| `Denial.Nsec3ChainIsOneCycle` | pkg/dnssec/nsec3.go:133-180 | The NSEC3 records form one cycle over the sorted hashes |
| `Denial.AbsentHashIsCoveredOnce` | pkg/dnssec/nsec3.go:133-180 | Every absent hash is covered by exactly one NSEC3 record |
| `Denial.HashNames` | pkg/dnssec/nsec3.go:122-131 | A hash table of the names exactly when no two collide |
| `Denial.Nsec3Bitmap` | pkg/dnssec/nsec3.go:115-150 | The bitmap of one name, ascending exactly when NSEC3PARAM is not out of place |
| `Denial.ApexBitmapOrder` | pkg/dnssec/nsec3.go:116-117 | Appending NSEC3PARAM keeps the bitmap ascending exactly when it is already there or no larger type is |
| `Denial.CaaAtApexBreaksOrder` | pkg/dnssec/nsec3.go:116-117 | A CAA record at the apex breaks the ascending order |
| `Chains.SingleCycle` | pkg/dnssec/nsec3.go:69-92 | Where k hops along a chain lead |
| `Chains.FullTurn` | pkg/dnssec/nsec3.go:69-92 | Following the links returns to the start exactly after one full turn |
| `Chains.Reaches` | pkg/dnssec/nsec3.go:69-92 | Every name is reached from every other |
| `Chains.ExactlyOneGap` | pkg/dnssec/nsec3.go:69-92 | An unlisted element lies in exactly one gap of a sorted cycle |
| `Chains.NextOf` | pkg/dnssec/nsec3.go:72-73 | The successor with wrap-around |
| `Ulid.Increment80` | pkg/util/ulid.go:46-54 | In place: adds one to the 80-bit number, or reports overflow exactly when all bits are set |
| `Ulid.EncodeUlid` | pkg/util/ulid.go:56-98 | The 26 base-32 digits whose value is the 48+80-bit number |
| `Ulid.AlphabetMeaning` | pkg/util/ulid.go:10-11 | The digits are written in Crockford's alphabet |
| `Ulid.PushByte` | pkg/util/ulid.go:78-95 | One byte in and every complete five-bit digit out keeps the number |
| `Ulid.DecodeInvertsEncode` | pkg/util/ulid.go:56-98 | Decoding the 26 characters gives back the same bits |
| `Ulid.UlidOrder` | pkg/util/ulid.go:56-98 | String order equals numeric order |
| `Ulid.UlidsIncrease` | pkg/util/ulid.go:21-44 | In any run, under clocks that stall or go back and with errors in between, later identifiers are larger strings |
| `Ulid.StateGrows` | pkg/util/ulid.go:21-44 | The generator state never moves back, and strictly grows with each identifier |
| `Ulid.IssueGrowsIff` | pkg/util/ulid.go:21-44 | Exactly when a forward clock step yields a larger identifier: unless the 48-bit field wraps |
| `Ulid.WrappedClockGoesBack` | pkg/util/ulid.go:58-66 | A clock at 2^48 yields a smaller identifier |
| `Ulid.Generator.NewUlid` | pkg/util/ulid.go:21-44 | One call: state change, error cases and the string handed out |
| `Ulid.IssuedMeaning` | pkg/util/ulid.go:21-44 | What one call hands out: the later of its clock and the last, with the draw or the last randomness plus one, and exactly when it fails |
| `Digits.OrderIsNumeric` | pkg/util/ulid.go:56-98 | Digit-wise order of equally long numbers is numeric order |
| `AgentFiles.ZoneFiles.WriteZoneFile` | internal/agent/sync/filemanager.go:93-187 | Succeeds exactly when every step does, then file and index entry are replaced and remembered; a failure before the rename changes nothing, a later one puts the file back unless that fails too, and an index written before its directory sync failed stays written |
| `AgentFiles.ZoneFiles.RunRollback` | internal/agent/sync/filemanager.go:164-186 | The closure restores this zone's file and index entry exactly and leaves every other file and index entry as it is now |
| `AgentFiles.WriteThenUndo` | internal/agent/sync/filemanager.go:93-187 | Write, let others change every other file and index entry, undo: file and entry of the zone are as before, everything else as the others left it |
| `AgentFiles.ZoneFiles.RestoreSnapshot` | internal/agent/sync/filemanager.go:351-379 | Puts one file back, or removes it if there was none |
| `AgentFiles.RestoredMeaning` | internal/agent/sync/filemanager.go:351-379 | Putting one entry back restores exactly that entry |
| `AgentFiles.ZoneFiles.RecordManagedZone` | internal/agent/sync/filemanager.go:578-603 | Adds the entry and returns the one it replaced |
| `AgentFiles.ZoneFiles.RemoveManagedZone` | internal/agent/sync/filemanager.go:605-612 | Removes exactly this zone's entry |
| `AgentFiles.ZoneFiles.DeleteZoneFiles` | internal/agent/sync/filemanager.go:265-307 | Removes the file; an error can come after the removal |
| `AgentFiles.Services.Apply` | cmd/arca-dns-agent/main.go:599-621 | Succeeds exactly when every command does, then both services reference the zone; what a failure leaves; no other zone is touched |
| `AgentFiles.ScriptsMeaning` | cmd/arca-dns-agent/main.go:599-662 | Writes, applies and deletions are fine exactly if every single answer is |
| `AgentFiles.ApplyRefsMeaning` | cmd/arca-dns-agent/main.go:599-621 | What an apply leaves for each point of failure |
| `AgentFiles.Services.RollbackApplied` | cmd/arca-dns-agent/main.go:623-628 | A zone that existed keeps its references, a new one loses them all, if it succeeds |
| `AgentFiles.Services.Delete` | cmd/arca-dns-agent/main.go:630-678 | Succeeds exactly when every command does and then leaves no reference; what a failure and the restore after it leave |
| `AgentFiles.DropLeavesReferenceIff` | cmd/arca-dns-agent/main.go:630-678 | Exactly when dropping references leaves one: a command failed, and an old reference outlived it or the restore added one, be it to a zone that had none |
| `AgentFiles.RemovalLeavesReferenceIff` | internal/agent/sync/sync.go:294-321 | Once references are dropped, a removal leaves one exactly when removing the file fails and the restore adds it |
| `AgentFiles.Services.Restore` | cmd/arca-dns-agent/main.go:680-707 | Restores what the flags ask for and removes nothing |
| `AgentFiles.RealNamingAgrees` | pkg/util/zonepath.go:31-59 | File naming, normalization and validity agree for the agent's own functions |
| `AgentFiles.RealNamingApartIff` | pkg/util/zonepath.go:31-59 | A set of valid zones have files of their own exactly when no two of them clash |
| `FileNames.ManagedFilename` | pkg/util/zonepath.go:31-59 | The file name of a valid zone is its name, shortened if longer than 200 characters |
| `FileNames.ShareFileIff` | pkg/util/zonepath.go:31-59 | Two different zones share a file exactly when both are long with equal first 187 characters and equal hash, or one is spelled like the shortened form of the other |
| `FileNames.ShortNamesDoNotCollide` | pkg/util/zonepath.go:31-59 | Zones of up to 200 characters share a file exactly when they are the same zone |
| `FileNames.CollidingPair` | pkg/util/zonepath.go:31-59 | Whatever the hash, there are two valid zones, of 213 and 200 characters, that share a file |
| `Syncer.Agent.SyncAll` | internal/agent/sync/sync.go:148-217 | A failed or rejected listing changes nothing; lastSuccess advances exactly on cycles that return no error; such a cycle leaves exactly the listed zones tracked, each with no failures and its file, and no other index entry, and a listed zone is then referenced by both services exactly if it was fetched in full or was before; if every listed zone will sync and every removal works there is no error. For zones with files of their own: every reference stays tracked, after a clean cycle references go to listed zones only, and none dangles if every zone to be removed still has its file and no removal loses one |
| `Syncer.Agent.SyncZone` | internal/agent/sync/sync.go:366-460 | Succeeds exactly when the answer is fresh and every step works, or nothing changed and the local file matches; then both services reference the zone exactly if it was fetched in full or they did before; whatever fails, only this zone's file, index entry and references can change, its file does not vanish, it is not newly referenced without a file, and a readable local serial never goes back |
| `Syncer.Agent.SyncStep` | internal/agent/sync/sync.go:165-178 | Syncing one zone and recording the outcome keeps every invariant and counts the failures |
| `Syncer.Agent.SyncListed` | internal/agent/sync/sync.go:160-181 | Every listed zone gets a state; without an error all are in sync, and referenced exactly if fetched in full or referenced before; zones that will sync do; nothing else changes |
| `Syncer.Agent.RollbackFailedApply` | internal/agent/sync/sync.go:462-477 | After a failed apply a new file is removed only if all references are gone |
| `Syncer.Agent.Install` | internal/agent/sync/sync.go:421-447 | Write, apply and roll back: succeeds exactly when write and apply do; otherwise the file does not vanish and the zone is not newly referenced without one |
| `Syncer.Agent.Judge` | internal/agent/sync/sync.go:366-410 | Content is accepted exactly if it parses and is not older than a readable local file; an unmodified answer exactly if the local file is there and, when the known version is a content hash, has that hash |
| `Syncer.EtagMeaning` | internal/agent/sync/sync.go:543-548 | Every spelling of a SHA-256, bare or quoted, weak or not, with blanks around, stands for that hash and is taken for one |
| `Syncer.Agent.UnmodifiedMeansIntact` | internal/agent/sync/sync.go:496-517 | An unmodified answer for a zone whose version spells a hash succeeds exactly if the local file is readable and has that hash; with any other version exactly if the file is there |
| `Syncer.Agent.FullAnswerMeaning` | internal/agent/sync/sync.go:390-447 | A full answer is installed exactly if it parses, is not older than a readable local serial, in plain numbers, and write and apply work |
| `Syncer.StateMeaning` | internal/agent/sync/sync.go:681-690 | A zone without a state counts as never failed and without a version |
| `Syncer.Agent.DeleteRemovedZone` | internal/agent/sync/sync.go:294-321 | Exactly what is left of references, file, index entry and state for every sequence of answers; a reference to a missing file exactly when the file was missing before or only its directory sync failed, and a reference was restored or never dropped |
| `Syncer.RepeatedRemovalDangles` | internal/agent/sync/sync.go:294-321 | A removal whose index update fails, repeated with its first command failing, ends with a reference to a missing file |
| `Syncer.LostRemovalDangles` | internal/agent/sync/sync.go:300-306 | So does one removal whose directory sync fails |
| `Syncer.UnchangedZoneStaysUnserved` | internal/agent/sync/sync.go:366-406 | A zone whose removal failed after its references were dropped is synced again without being applied when the controller lists it unchanged |
| `Syncer.Agent.DeleteRemovedZones` | internal/agent/sync/sync.go:220-292 | With no error exactly the listed zones stay tracked and the index names only their files; listed zones keep state and file; no error if every removal works |
| `Syncer.Agent.DeleteStaleZones` | internal/agent/sync/sync.go:249-266 | Every stale zone is removed or has one more failure on record; states and files of others stay |
| `Syncer.Agent.DeleteOrphanedZones` | internal/agent/sync/sync.go:268-289 | Every index entry outside the list that was not just attempted is removed or has one more failure on record; an unreadable index is one error |
| `Syncer.Agent.DropAliases` | internal/agent/sync/sync.go:239-247 | Old spellings lose their state while every referenced zone stays known |
| `Syncer.Agent.OnlyListedReferences` | internal/agent/sync/sync.go:148-217 | After a clean cycle services reference listed zones only, if the zones known have files of their own |
| `Syncer.Agent.SyncOne` | internal/agent/sync/sync.go:557-596 | On-demand sync succeeds exactly for a listed zone that will sync, and only then advances lastSuccess; then both services reference the zone exactly if it was fetched in full or they did before; a failure is recorded; it keeps every invariant and other states |
| `Syncer.ValidateControllerZoneList` | internal/agent/sync/sync.go:598-611 | Accepts exactly the lists of valid names without two spellings of one zone |
| `ZoneRules.ValidateRecordSetConstraints` | pkg/model/validation.go:64-132 | Accepts exactly the zones that meet the declarative rules: no canonical duplicates, no apex CNAME, a CNAME single and alone, one TTL per RRset, an apex NS |
| `ZoneRules.ScanRecords` | pkg/model/validation.go:77-119 | The first pass stops exactly when one of its rules is broken and otherwise knows every owner's types and TTLs |
| `ZoneRules.ApexNsSpellings` | pkg/model/validation.go:80-84 | An NS record at the apex sign or at the full zone name is an apex NS |
| `ZoneRules.CnamesAlone` | pkg/model/validation.go:121-125 | The second pass finds exactly the owners with a CNAME and another type |
| `ZoneRules.CnameAloneMeaning` | pkg/model/validation.go:121-125 | The type count test means that nothing stands beside a CNAME |
| `ZoneRules.DuplicateKeyMeaning` | pkg/model/validation.go:199-206 | Equal joined keys mean equal owner, type, TTL and canonical value |
| `RRsets.GroupRRsets` | pkg/dnssec/signer.go:468-497 | Fails exactly when two records of one owner and type differ in TTL or class; otherwise the groups partition the records in order |
| `RRsets.AcceptedZonesGroup` | pkg/dnssec/signer.go:223-254 | Every accepted zone, with DNSKEYs of one TTL, groups without error |
| `RRsets.BuildRRs` | pkg/dnssec/signer.go:223-351 | The SOA with its minimum as TTL, then for each record, in order, its expanded owner, type number, class IN and TTL; refuses exactly the zones with an unsupported type |
| `RRsets.TypeNumberTable` | pkg/dnssec/signer.go:257-351 | The registered numbers of the supported types, and that no other is supported |
| `RRsets.GroupKeyMeaning` | pkg/dnssec/signer.go:468-480 | The joined key stands for owner and type |
| `TxtSplit.SplitTxtValue` | pkg/model/validation.go:635-654 | The loop computes the split |
| `TxtSplit.CutMeaning` | pkg/model/validation.go:640-650 | The cut is at the last byte up to the limit that does not continue a rune, else at the limit |
| `TxtSplit.SplitRoundTrip` | pkg/model/validation.go:635-654 | The chunks concatenate to the value |
| `TxtSplit.ChunkSizes` | pkg/model/validation.go:635-654 | Every chunk has at most 255 bytes, and at least one if the value is not empty |
| `TxtSplit.ValidChunks` | pkg/model/validation.go:635-654 | No rune is ever cut: every chunk of valid UTF-8 is valid UTF-8 |
| `TxtSplit.ValidChunkSizes` | pkg/model/validation.go:635-654 | Every chunk but the last of valid UTF-8 has 252 to 255 bytes |
| `TxtSplit.EncodedIsValid` | pkg/model/validation.go:635-654 | Every UTF-8 encoding of scalar values is valid |
| `TxtSplit.ValidIsEncoded` | pkg/model/validation.go:635-654 | Everything valid is such an encoding |
| `TxtSplit.AsciiFits` | pkg/model/validation.go:20-25 | ASCII values up to 65279 bytes fit one record |
| `TxtSplit.ShortValuesFit` | pkg/model/validation.go:20-25 | Valid values up to 65275 bytes fit one record |
| `TxtSplit.LengthLimitIsExact` | pkg/model/validation.go:20-25 | All valid values of a given length fit exactly up to 65275; the documented 65279 is too large |
| `Backoff.FailureBackoffDelay` | pkg/dnssec/scheduler.go:325-344 | The doubling loop equals min(max, min * 2^failures), in 64-bit arithmetic without overflow |
| `Backoff.DelayDoubles` | pkg/dnssec/scheduler.go:325-344 | The delay doubles with each failure up to the maximum |
| `Backoff.JitterBounds` | pkg/dnssec/scheduler.go:304-314 | The jittered delay lies between the delay and the maximum |
| `Backoff.BackoffIsRespected` | pkg/dnssec/scheduler.go:252-323 | In every run with a non-decreasing clock, after the k-th consecutive failure no attempt comes before the k-th delay has passed |
| `Backoff.FailuresAreConsecutive` | pkg/dnssec/scheduler.go:292-323 | The stored count is the number of failed attempts since the last success |
| `Backoff.GateHolds` | pkg/dnssec/scheduler.go:279-289 | Once it is too early for a zone, every later attempt comes at the set time or after |
| `Backoff.DueIsAttempted` | pkg/dnssec/scheduler.go:279-289 | The next event on a zone after a failed attempt is attempted exactly if it comes at or after the failure time plus the jittered delay |
| `Backoff.CleanZoneIsAttempted` | pkg/dnssec/scheduler.go:279-289 | A zone without a failure since its last success is always attempted |
| `Backoff.Scheduler.AttemptResign` | pkg/dnssec/scheduler.go:252-276 | State change and reply of one attempt |
| `Backoff.Scheduler.RecordFailure` | pkg/dnssec/scheduler.go:292-323 | The entry after a failure |
| `NsdConfig.RenderManagedZoneConfig` | internal/agent/nsd/control.go:470-491 | One stanza per zone in the order of the normalized names; for normalized names the rendering of the set |
| `NsdConfig.RenderingNamesZones` | internal/agent/nsd/control.go:470-491 | A rendered file has a four-line header with the include path and, for each zone and nothing else, a stanza that names the zone and its own zone file |
| `NsdConfig.RenderingIsUnique` | internal/agent/nsd/control.go:470-491 | Rendering depends only on the set |
| `NsdConfig.ReadManagedZoneConfig` | internal/agent/nsd/control.go:381-415 | The parsing loop computes the parse; one bad marker refuses the file |
| `NsdConfig.ParseLineMeaning` | internal/agent/nsd/control.go:395-411 | A marker line with any blanks stands for its zone, or spoils the file if the name is invalid; a marker without a name stands for nothing |
| `NsdConfig.OtherLineMeaning` | internal/agent/nsd/control.go:395-401 | Every other line stands for nothing |
| `NsdConfig.RenderRoundTrip` | internal/agent/nsd/control.go:381-491 | Parsing a rendered file gives exactly the rendered zones |
| `NsdConfig.Controller.Update` | internal/agent/nsd/control.go:348-372 | Refuses exactly an invalid zone, an invalid path, an unreadable or malformed file, or a needed write that fails; otherwise the file becomes the rendering of the edited set and a change is reported exactly when the text differs |
| `NsdConfig.RealPathsJoin` | internal/agent/nsd/control.go:480-488 | A valid zone directory joined with a safe file name, and cleaned, brings no line break into the file |
| `NsdConfig.ValidPathMeaning` | pkg/config/config.go:393-417 | A path may be rendered exactly if it is absolute, has no blank at an end and no quote, backslash or control character |
| `NsdConfig.ReEnsureChangesNothing` | internal/agent/nsd/control.go:348-372 | Ensuring a listed zone leaves the text as it is |
| `NsdConfig.EnsureThenRemoveRestores` | internal/agent/nsd/control.go:348-372 | Ensuring a new zone and deleting it restores the original text |
| `NsdConfig.ParsedAreManaged` | internal/agent/nsd/control.go:381-415 | Everything a parse accepts is a valid normalized zone name |
| `NsdConfig.ValidZoneNameMeaning` | pkg/model/validation.go:502-542 | The valid zone names are exactly labels of letters, digits and inner hyphens joined by dots, with or without a final one, of at most 253 characters |
| `ZoneNames.NormalizeIsIdempotent` | pkg/model/normalize.go:12-21 | Normalizing twice changes nothing |
| `ZoneNames.NormalizeMeaning` | pkg/model/normalize.go:12-21 | Lower case, with the final dot it may lack; the empty name stays |
| `ZoneNames.LowerMeaning` | pkg/model/normalize.go:12-21 | ASCII capitals become small letters and nothing else changes |
| `ZoneNames.OwnerIsIdempotent` | pkg/model/normalize.go:72-90 | Expanding an expanded owner changes nothing |
| `ZoneNames.OwnerEndsWithDot` | pkg/model/normalize.go:72-90 | An expanded owner is lower case and ends with a dot |
| `ZoneNames.OwnerSpellingsAgree` | pkg/model/normalize.go:72-90 | The relative, full and dotted spellings of an owner expand alike |
| `ZoneNames.OwnerByCases` | pkg/model/normalize.go:72-90 | The owner by cases: the apex sign gives the zone, a full name itself, a name ending in the zone itself with a dot, any other the name before the zone; all in lower case |
| `ZoneNames.FilenameIsSafe` | pkg/util/zonepath.go:31-59 | Every zone name becomes a bounded file name without separators, double dots or a final dot |
| `ZoneNames.PathFilename` | pkg/util/zonepath.go:31-59 | Path separators and pairs of dots become underscores |
| `ZoneNames.DotsFilename` | pkg/util/zonepath.go:54-56 | A name of dots alone becomes the fallback name |
| `ZoneNames.FilenameIsIdempotent` | pkg/util/zonepath.go:31-59 | A file name read back through the function is unchanged |
| `ZoneNames.FilenameAgreesWithNormalization` | pkg/util/zonepath.go:31-59 | All spellings of a zone share one file |

## Left out

- SQL and git backends: their behaviour is that of the database and of the git library.
- Cryptography, key generation, signatures and the choice of the signing key: foreign libraries; hashes are arbitrary functions here.
- HTTP client and server, authentication, TLS, metrics, DNSTap, configuration loading, path and permission checks: plumbing or one-branch checks.
- etcd watches: best effort by design. JSON encoding: stored values are the zones themselves.
- Effects on the caller's argument: both backends also write prepared fields back into the zone passed in; record identifiers, which only the in-memory backend assigns, are not modelled.
- Durability: renames are atomic and crashes are not modelled; a failing directory sync is an error after the effect. Backup files and their retention, disk-space and symlink checks are folded into "preparing the write may fail".
- Index files written by older agents or by hand: the model starts from an index whose entries are filed under their own zone's file name, which every operation keeps.
- Time stamps of zone states other than the last success, and the jitter of the sync interval.
- Case folding beyond ASCII; Unicode normalization.
- Calendar dates beyond the year 9999, where the date no longer has eight digits.
- Counters are unbounded where the program uses machine integers that cannot overflow in practice (failure counts, etcd revisions); serials, ULID bytes and backoff durations have their real widths.
- Syncer.Agent.SyncAll: that no reference dangles is stated for cycles in which every zone to be removed still has its file, under one spelling, and no removal loses one; for a single removal the condition is exact.
- RRsets.BuildRRs: models owner, type, class and TTL; errors in converting record values are not modelled.
- ZoneRules.ValidateRecordSetConstraints: the canonical form of record values is an arbitrary function, so address and target parsing is not modelled.
- ZoneRules.DuplicateKeyMeaning: needs owners and types without NUL characters, which record validation rejects before.
- EtcdHistory.ListRevisions: hashes of the entries and decoding errors are not modelled.
- NsdConfig.RealPathsJoin: the cleaning of joined paths is any function that brings in no characters but slashes and dots.
