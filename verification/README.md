# configmirror-operator, modelled in Dafny

This project models the core of the ConfigMirror operator. The operator is a Kubernetes
controller. It copies ConfigMaps that match a label selector into a list of target
namespaces. Each copy carries the owner label `mirror.pawapay.io/owner` with the value
`<mirror namespace>.<mirror name>`. Copies of ConfigMaps that stop being listed are
deleted. A finalizer, `mirror.pawapay.io/finalizer`, makes sure every copy is deleted
before the ConfigMirror goes away. Optionally, each mirrored ConfigMap is also kept as a
row of a PostgreSQL table.

The model has seven modules, one per file:

- `Wrappers` (`wrappers.dfy`): `Option` and `Result`.
- `Selectors` (`selectors.dfy`): label selectors. A nil selector compiles to one that
  matches nothing. A malformed match expression makes compilation fail.
- `MirrorApi` (`mirror_api.dfy`): the ConfigMirror resource.
  - Spec and status as datatypes.
  - The schema markers as predicates (`ValidSpec`, `ConditionsKeyedByType`,
    `PersistenceEnabled`).
  - `SetStatusCondition`, an upsert keyed by condition type.
- `ObjectStore` (`object_store.dfy`): the API server as the controller sees it.
  - A `Cluster` object holds the stored ConfigMaps and ConfigMirrors.
  - Every call can fail. Which calls fail is fixed by a set of injected faults.
  - `List` returns the matching objects in an order the server chooses.
- `Database` (`postgres.dfy`): the PostgreSQL client, as a `Client` class over a table
  value. The table is a map from the unique key
  `(name, namespace, configmirror_namespace, configmirror_name)` to the stored columns.
  `created_at` becomes a counter that only grows.
- `Replication` (`replication.dfy`): pure functions that say what each step of a
  reconciliation does to the stored ConfigMaps and to the table, with lemmas about
  them.
  - The steps: replicate one ConfigMap into one namespace, fan out to all targets,
    handle all listed ConfigMaps, delete orphans, finalize.
  - These functions are the specification the imperative methods are proved against.
- `Controller` (`controller.dfy`): the `ConfigMirrorReconciler` class.
  - `Reconcile`, `replicateConfigMap`, `deleteReplicatedConfigMap`,
    `cleanupConfigMaps`, `updateStatus` and `findConfigMirrorsForConfigMap` as methods
    with the loops of the source.
  - Each method's postcondition gives the new cluster state, the new table and the
    result in terms of the `Replication` functions.

Behaviour of the code worth noting:

- **Listing namespace.** The ConfigMaps to replicate are listed in the ConfigMirror's
  own namespace. `spec.sourceNamespace` is not used for listing
  (`internal/controller/configmirror_controller.go:104`).
- **Update path.** When a ConfigMap of the replica's name already exists in a target,
  it is updated without an ownership check. It is relabelled as ours
  (`Replication.ReplicateAdoptsForeign`).
- **Orphan cleanup** deletes from the *current* target namespaces. A replica in a
  namespace that was removed from the spec is not cleaned up.
- **Finalization** deletes the copies but not the database rows.
- **Status writes.** The error of the status write is discarded. The pass result does
  not depend on it.

## Model

| member | source | states |
|---|---|---|
| Controller.ConfigMirrorReconciler.Reconcile | internal/controller/configmirror_controller.go:61-186 | Get fails: that error, nothing changes. ConfigMirror missing: no error, no requeue, nothing changes. Deletion requested: never requeues and never touches the database. Without our finalizer: nothing changes. With it: every owner-labelled copy in the targets is deleted and the finalizer is removed, unless a call fails, in which case an error is returned and the finalizer stays. Live without the finalizer and the finalizer update fails: that error, nothing changes. Otherwise the finalizer is persisted first, then the active pass runs. |
| Controller.ConfigMirrorReconciler.ReconcileActive | internal/controller/configmirror_controller.go:95-185 | Invalid selector: Ready=False/InvalidSelector, an error, no ConfigMap or table change. List failure: Ready=False/ListFailed, the error, no change. Otherwise: requeue after 300 s, no error, ConfigMaps = `PassObjects` of the listing, table = `PassRows`, and the status written is Ready=True/ReconcileSuccess with ObservedGeneration = Generation and the new entries. |
| Controller.ConfigMirrorReconciler.Finalize | internal/controller/configmirror_controller.go:80-93 | Without our finalizer: no error, no change. A blocked cleanup returns an error, keeps the finalizer and has deleted only owned copies in targets. A complete cleanup leaves exactly `Purged`. The finalizer is then removed by an Update, whose failure is returned. |
| Controller.AddFinalizer | internal/controller/configmirror_controller.go:74-75 | The finalizer is present afterwards. Nothing is lost. If it was already there the list is unchanged; otherwise at most one element is added. |
| Controller.RemoveFinalizer | internal/controller/configmirror_controller.go:87 | The finalizer is absent afterwards. Every other entry is kept. |
| Controller.RemoveAbsentFinalizer | internal/controller/configmirror_controller.go:87 | Removing a finalizer that is not there changes nothing. |
| Controller.RemoveUndoesAdd | internal/controller/configmirror_controller.go:73-91 | Removing the finalizer after adding it gives back the original list. |
| Controller.WithReady | internal/controller/configmirror_controller.go:262-272 | Ready lookup yields the new condition at the current generation. Every other condition type is unchanged. Keyed-by-type is preserved. Metadata, spec and the rest of the status are unchanged. |
| Controller.ConfigMirrorReconciler.UpdateStatus | internal/controller/configmirror_controller.go:262-274 | The returned object is `WithReady`. Stored mirrors = `WriteStatus` of it; a failed write changes nothing and is ignored. ConfigMaps are untouched. |
| Controller.ConfigMirrorReconciler.PersistenceOn | internal/controller/configmirror_controller.go:125 | The database guard at lines 125, 157 and 168: a client exists and the spec enables persistence. When it holds, the client and the database section are both non-nil. |
| Controller.PassStatus | internal/controller/configmirror_controller.go:165-166 | The new entries and database status are recorded and ObservedGeneration becomes the generation. Conditions, metadata and spec are unchanged, so a keyed-by-type condition list stays keyed. |
| Controller.CompletedPassStatus | internal/controller/configmirror_controller.go:165-185 | After a completed pass: Ready=True/ReconcileSuccess at the current generation, ObservedGeneration = Generation, the new entries and the database status, with metadata and spec unchanged. |
| Controller.PingStatus | internal/controller/configmirror_controller.go:168-181 | `connected` is the outcome of the ping. The failure message is a stand-in for the driver's error text. |
| Controller.ConfigMirrorReconciler.RefreshDatabaseStatus | internal/controller/configmirror_controller.go:168-181 | Persistence off: the status is kept. Persistence on: it is the ping outcome. |
| Controller.ConfigMirrorReconciler.ReplicateConfigMap | internal/controller/configmirror_controller.go:188-218 | ConfigMaps become `ReplicateOnce`. No error iff that step succeeds. |
| Controller.ConfigMirrorReconciler.DeleteReplicatedConfigMap | internal/controller/configmirror_controller.go:220-238 | ConfigMaps become `DeleteIfOwned`. An error iff the Get fails, or the object is ours and its Delete fails. A missing or foreign object gives no error. |
| Controller.ConfigMirrorReconciler.PurgeNamespace | internal/controller/configmirror_controller.go:243-256 | No error iff the list and every owned delete go through. Then the namespace's owned copies are exactly the ones removed. Otherwise only owned copies of that namespace were removed. |
| Controller.ConfigMirrorReconciler.CleanupConfigMaps | internal/controller/configmirror_controller.go:240-260 | No error iff no required call is refused (`PurgeBlocked`). Then ConfigMaps = `Purged`: all owned copies in targets are gone, all else kept. Always `PartlyPurged`. |
| Controller.PurgeNamespaceListing | internal/controller/configmirror_controller.go:244-256 | The owner-label listing of a namespace holds exactly its owned copies. Deleting them is the purge of that namespace. |
| Controller.PurgeExtend | internal/controller/configmirror_controller.go:243-257 | Purging target after target equals purging all of them. |
| Controller.OwnerSelectorMatches | internal/controller/configmirror_controller.go:247 | The owner-label selector matches exactly the ConfigMaps owned by that value. |
| Controller.ConfigMirrorReconciler.ReplicateToTargets | internal/controller/configmirror_controller.go:116-123 | ConfigMaps become `ReplicateTargets`. The returned targets are the in-order subsequence of the spec's targets whose replication succeeded. |
| Controller.ConfigMirrorReconciler.ReplicateListed | internal/controller/configmirror_controller.go:115-136 | One listed ConfigMap: the fan-out, an entry with its name, namespace and succeeded targets, and the row saved when persistence is on. |
| Controller.ConfigMirrorReconciler.ReplicateMatched | internal/controller/configmirror_controller.go:112-137 | ConfigMaps and entries are `ReplicateAll` of the listing. The table is `SaveAll` when persistence is on, unchanged otherwise. |
| Controller.ConfigMirrorReconciler.CollectNames | internal/controller/configmirror_controller.go:140-143 | The set of listed names. |
| Controller.ConfigMirrorReconciler.DeleteFromTargets | internal/controller/configmirror_controller.go:150-154 | `DeleteEverywhere`: an owner-checked delete in every current target. Failures do not stop the loop. |
| Controller.ConfigMirrorReconciler.ForgetIfOrphan | internal/controller/configmirror_controller.go:146-162 | A still-listed name changes nothing. An orphan is deleted from the targets, and its row too when persistence is on. |
| Controller.ConfigMirrorReconciler.CleanupOrphans | internal/controller/configmirror_controller.go:145-163 | ConfigMaps = `RemoveOrphans`. Table = `DeleteOrphanRows` when persistence is on, unchanged otherwise. |
| Controller.Routed | internal/controller/configmirror_controller.go:297-314 | A request for a ConfigMirror iff its selector compiles and matches the labels. There are no more requests than ConfigMirrors, and when the ConfigMirrors' keys are distinct so are the requests. |
| Controller.RoutedOnListing | internal/controller/configmirror_controller.go:289-315 | Over a listing of the ConfigMap's namespace: a ConfigMirror is requested iff it is in that namespace and its selector matches, and no request repeats. |
| Controller.ConfigMirrorReconciler.FindConfigMirrorsForConfigMap | internal/controller/configmirror_controller.go:289-315 | A list failure gives no requests. Otherwise the requests are `Routed` over a listing of the ConfigMap's namespace, in list order, skipping invalid selectors. The requests are distinct: exactly the ConfigMirrors of that namespace whose selector matches. |
| Replication.OwnerValue | internal/controller/configmirror_controller.go:194 | The owner value is namespace, a dot and name; its length is the sum plus one. |
| Replication.OwnerValueInjective | internal/controller/configmirror_controller.go:221 | For dot-free namespaces, equal owner values mean the same ConfigMirror. |
| Replication.OwnedBy | internal/controller/configmirror_controller.go:233 | For a non-empty owner value: true iff the owner label is present and equals it. A missing label or a nil label map never passes the check. |
| Replication.Replica | internal/controller/configmirror_controller.go:189-199 | A new copy sits at (target, source name) and carries exactly the owner label. |
| Replication.Refreshed | internal/controller/configmirror_controller.go:210-215 | An updated copy keeps its key and carries our owner label. |
| Replication.ReplicateOnce | internal/controller/configmirror_controller.go:188-218 | It succeeds iff the Get and then the Create or Update go through; failure changes nothing. On success the target holds the source's Data and BinaryData with our owner label. Only that key changes. A created copy is `Replica`. An updated one keeps its annotations and other labels. |
| Replication.ReplicateOnceIdempotent | internal/controller/configmirror_controller.go:188-218 | Replicating the same ConfigMap into the same namespace twice in a row leaves the ConfigMaps as after the first time. |
| Replication.ReplicateAdoptsForeign | internal/controller/configmirror_controller.go:201-217 | A same-named ConfigMap that is not ours is relabelled as ours by the update path. |
| Replication.HoldsAfterReplicateOnce | internal/controller/configmirror_controller.go:117-123 | A replica in place survives replicating the same source elsewhere. |
| Replication.SelectMembers | internal/controller/configmirror_controller.go:116-123 | An element is in `Select(xs, mask)` iff its flag is set. |
| Replication.ReplicateTargets | internal/controller/configmirror_controller.go:116-123 | Only the source's name in the targets can change. Every flagged target holds an up-to-date replica. Nothing is removed. |
| Replication.ReplicateTargetsIdempotent | internal/controller/configmirror_controller.go:116-123 | A second fan-out of the same ConfigMap to the same targets changes no ConfigMap, whatever the targets and faults. |
| Replication.SuccessMask | internal/controller/configmirror_controller.go:117-122 | Definition: a flag per target, set iff the target's calls go through on the given state. |
| Replication.ReplicateTargetsExact | internal/controller/configmirror_controller.go:116-123 | With distinct targets, a target succeeds exactly when its calls go through on the starting state. |
| Replication.ReplicateTargetsFailedUntouched | internal/controller/configmirror_controller.go:116-123 | With distinct targets, a failed target is left exactly as it was. |
| Replication.ReplicateAll | internal/controller/configmirror_controller.go:112-137 | One entry per listed ConfigMap, in list order, with its name and namespace. Targets come from the spec. Objects outside the targets or the listed names are unchanged. |
| Replication.ReplicateAllIdempotent | internal/controller/configmirror_controller.go:112-137 | For a listing with distinct names, a second run of the replication loop changes no ConfigMap. |
| Replication.PassEntriesNames | internal/controller/configmirror_controller.go:138-143 | The entries a pass records name exactly the listed ConfigMaps. |
| Replication.PassReplicasHold | internal/controller/configmirror_controller.go:112-137 | With distinct names, every target an entry names holds an up-to-date replica of its ConfigMap. |
| Replication.PassTargetsExact | internal/controller/configmirror_controller.go:112-137 | With distinct names and targets, each entry's targets are the in-order subsequence of the spec's targets whose calls go through. |
| Replication.PrefixNames | internal/controller/configmirror_controller.go:140-143 | The names of a prefix of the listing are among the listed names. |
| Replication.DeleteIfOwned | internal/controller/configmirror_controller.go:220-238 | Only that key can go. It goes iff it exists, is ours, and the Get and the Delete go through. |
| Replication.DeleteEverywhere | internal/controller/configmirror_controller.go:150-154 | Only owned copies of that name in the targets are removed. Each one whose calls go through is removed. |
| Replication.RemoveOrphans | internal/controller/configmirror_controller.go:145-163 | Removed objects are owned, in a current target, named in the previous status and no longer listed. Each such one whose calls go through is removed. |
| Replication.RemoveOrphansNoneTracked | internal/controller/configmirror_controller.go:145-163 | When every name of the previous status is still listed, the orphan cleanup deletes nothing. |
| Replication.PassObjectsIdempotent | internal/controller/configmirror_controller.go:112-163 | Idempotence of the ConfigMaps: a second pass over the same listing, by the ConfigMirror as the first pass recorded it, changes no ConfigMap. |
| Replication.RemoveOrphansStep | internal/controller/configmirror_controller.go:146-163 | One more previous entry extends the cleanup by one owner-checked fan-out, or by nothing if still listed. |
| Replication.PassKeepsReplicas | internal/controller/configmirror_controller.go:112-163 | Orphan cleanup never takes back a replica the same pass wrote. |
| Replication.PassSparesForeign | internal/controller/configmirror_controller.go:112-163 | Anything outside the targets, or foreign and not listed, survives the pass unchanged. |
| Replication.Purged | internal/controller/configmirror_controller.go:240-260 | Removes exactly the owned ConfigMaps in the targets and keeps the rest. |
| Replication.PurgedIdempotent | internal/controller/configmirror_controller.go:240-260 | Finalizing twice removes no more than once. |
| Replication.SaveAll | internal/controller/configmirror_controller.go:125-129 | Table presence is kept. No row is lost. Rows not of listed ConfigMaps are unchanged. |
| Replication.SaveAllStores | internal/controller/configmirror_controller.go:125-129 | On a reachable table, each listed ConfigMap whose save goes through is stored with its data, labels and annotations. |
| Replication.DeleteOrphanRows | internal/controller/configmirror_controller.go:156-161 | Only rows of tracked, no longer listed ConfigMaps are removed. On a reachable table each such row whose delete goes through is gone. |
| Replication.DeleteOrphanRowsNoneTracked | internal/controller/configmirror_controller.go:156-161 | When every name of the previous status is still listed, no row is deleted. |
| Replication.PassRowsIdempotent | internal/controller/configmirror_controller.go:112-163 | Idempotence of the rows: a second pass over the same listing, by the ConfigMirror as the first pass recorded it, leaves the table unchanged. |
| ObjectStore.WriteFinalizers | internal/controller/configmirror_controller.go:87-90 | Only that ConfigMirror changes. It gets the new finalizer list, or disappears when deletion was requested and none remain. |
| ObjectStore.WriteStatus | internal/controller/configmirror_controller.go:273 | Keys are unchanged and only the status of that ConfigMirror changes. A failed write changes nothing. |
| Selectors.Compile | internal/controller/configmirror_controller.go:95-100 | Compilation fails iff some match expression is malformed. A nil selector matches nothing. |
| Selectors.MatchLabelsSemantics | internal/controller/configmirror_controller.go:304 | A matchLabels-only selector matches iff every pair is present. |
| Selectors.CompiledSelectorSemantics | internal/controller/configmirror_controller.go:95-100 | A selector whose expressions are all well formed matches iff every matchLabels pair is present and every expression is satisfied. |
| Selectors.UnrecognizedOperatorIsInvalid | internal/controller/configmirror_controller.go:95-100 | An unknown operator is a selector error. |
| MirrorApi.ValidSpec | api/v1alpha1/configmirror_types.go:28-39 | Definition of what the schema admits: at least one target and a selector. Required strings may be empty, since no minimum length is set. A valid spec never compiles to the select-nothing selector. |
| MirrorApi.ConditionsKeyedByType | api/v1alpha1/configmirror_types.go:71-73 | Definition of the list-map: no two conditions share a type. In such a list, looking up a condition's type finds that very condition. |
| MirrorApi.PersistenceEnabled | internal/controller/configmirror_controller.go:125 | Definition of the spec half of the database guard at lines 125, 157 and 168: a database section is present and enabled. The section is checked for presence before `enabled` is read. |
| MirrorApi.SecretNamespace | api/v1alpha1/configmirror_types.go:64-66 | Definition of the defaulting rule: an empty namespace means the ConfigMirror's own namespace. A named owner namespace therefore never yields an empty one. |
| MirrorApi.FindCondition | api/v1alpha1/configmirror_types.go:71-75 | Finds a condition of that type from the list, or none exists. |
| MirrorApi.FindConditionFirst | api/v1alpha1/configmirror_types.go:71-75 | The lookup returns the condition at the first index of that type. |
| MirrorApi.SetStatusCondition | api/v1alpha1/configmirror_types.go:71-75 | Elements are the new condition or old ones. A new type is appended. |
| MirrorApi.SetStatusConditionLookup | api/v1alpha1/configmirror_types.go:72-75 | After the upsert its type yields the new condition; other types are unchanged. |
| MirrorApi.SetStatusConditionKeepsKeys | api/v1alpha1/configmirror_types.go:72-73 | The upsert keeps the conditions a list-map keyed by type. |
| MirrorApi.SetStatusConditionLength | api/v1alpha1/configmirror_types.go:72-75 | The length is kept when the type is present; a new type grows the list by one. |
| MirrorApi.SetStatusConditionInPlace | api/v1alpha1/configmirror_types.go:72-75 | The first condition of that type is overwritten at its own index; every other element stays where it was. |
| MirrorApi.SetStatusConditionIdempotent | api/v1alpha1/configmirror_types.go:71-75 | Setting the same condition twice is setting it once. |
| Database.RecordOf | internal/database/postgres.go:193-208 | The seven scanned columns: name and namespace from the key, data, labels and annotations from the row, and the ConfigMirror's name and namespace from the key. The record's key gives back the row's key. |
| Database.CreateIfAbsent | internal/database/postgres.go:83-103 | The table exists afterwards with its rows untouched. |
| Database.CreateIfAbsentIdempotent | internal/database/postgres.go:83-103 | Running the schema twice is running it once, and it keeps the table well formed. |
| Database.Upsert | internal/database/postgres.go:126-137 | The key is added or its data, labels and annotations replaced. An existing row keeps its creation stamp, a new one gets the next. Other rows are unchanged. |
| Database.AfterSave | internal/database/postgres.go:139-153 | Definition in closed form: reachable and not refused gives the upsert; otherwise the table is unchanged. |
| Database.AfterDelete | internal/database/postgres.go:158-168 | Reachable and not refused: exactly that key is removed; otherwise unchanged. |
| Database.NewestFirstUnique | internal/database/postgres.go:184 | There is only one newest-first order of a set of rows. |
| Database.UpsertWellFormed | internal/database/postgres.go:126-137 | Saving keeps the table well formed (distinct creation stamps below the counter). |
| Database.UpsertIdempotent | internal/database/postgres.go:124-154 | Saving the same ConfigMap twice is saving it once. |
| Database.NewRowListedFirst | internal/database/postgres.go:178-208 | A newly saved ConfigMap comes first in its ConfigMirror's listing, with the saved contents. |
| Database.DeleteUndoesInsert | internal/database/postgres.go:157-175 | Deleting a freshly inserted row restores the rows from before. |
| Database.Client.Close | internal/database/postgres.go:69-74 | A nil pool: no-op. Otherwise the pool is closed once. The table is untouched. |
| Database.Client.Ping | internal/database/postgres.go:77-79 | Success iff the pool is open and healthy; the error is unwrapped. |
| Database.Client.InitSchema | internal/database/postgres.go:82-111 | Success iff reachable; then the table exists with its rows kept. Otherwise "failed to initialize schema" and nothing changes. |
| Database.Client.SaveConfigMap | internal/database/postgres.go:125-154 | The table becomes `AfterSave`. Success iff reachable and not refused. A failure is "failed to save ConfigMap" and leaves the table unchanged. |
| Database.Client.DeleteConfigMap | internal/database/postgres.go:157-175 | The table becomes `AfterDelete`. A refused statement gives "failed to delete ConfigMap". A missing row gives ErrNoRows. A removed row gives success. |
| Database.Client.QueryOwned | internal/database/postgres.go:179-190 | Exactly the ConfigMirror's rows, newest first. |
| Database.Client.GetConfigMaps | internal/database/postgres.go:178-216 | Records are exactly the owner's rows, newest first; empty is fine. Errors: a query failure gives "failed to query ConfigMaps", a row scan failure "failed to scan ConfigMap row", an iteration failure "error iterating ConfigMap rows". Success iff none occurs. |

## Left out

- Kubernetes client I/O is an in-memory `Cluster` with injected faults. Left out:
  - resource versions and the conflicts of optimistic concurrency;
  - the informer cache.
  A refused call returns one generic error (`Unavailable`).
- The internals of `LabelSelectorAsSelector`. Only one check is modelled: In and NotIn
  need values, Exists and DoesNotExist need none, and an unknown operator is an error.
  The syntax of label keys and values is not checked.
- The internals of `meta.SetStatusCondition`. The model replaces the whole condition.
  The rule that `LastTransitionTime` changes only when the status changes is not
  modelled.
- Timestamps: `LastSyncTime`, `LastTransitionTime`, `created_at` and `updated_at`. The
  order of `created_at` is kept as a counter.
- `SetupWithManager`, `init`, logging and the RBAC markers. Only the map function
  `findConfigMirrorsForConfigMap` is modelled. The type assertion on its argument is
  taken to hold.
- `NewClient`: parsing the connection string, pool sizing, and the initial ping.
- The SQL engine and JSONB encoding. A row holds the decoded maps.
- Context cancellation and concurrency between reconciliations.
- The texts of errors produced by libraries (the selector parser, the API server, the
  driver) are stand-in constants. The client's own wrapping texts are exact.
- `ObjectMeta.Generation` and `ObservedGeneration` are `int64` in the source and
  unbounded integers here. No overflow is modelled.
- Database.Client.Ping: requires a non-nil pool. The source would dereference a nil
  pool there.
- Database.Client.InitSchema: requires a non-nil pool. The source would dereference a
  nil pool there.
- Database.Client.SaveConfigMap: requires a non-nil pool. The source would dereference
  a nil pool there.
- Database.Client.DeleteConfigMap: requires a non-nil pool. The source would dereference
  a nil pool there.
- Database.Client.GetConfigMaps: an injected iteration failure is placed after the last
  row. When a scan failure is injected too, the scan error is reported. A driver that
  stops `rows.Next` early on an iteration error, before the faulty row, is not modelled.
- Database.Client.GetConfigMaps: requires a non-nil pool. The source would dereference
  a nil pool there.
- Controller.ConfigMirrorReconciler.CleanupConfigMaps: on a refused call, it states only
  that what was deleted so far were owned copies in the targets. It does not say how far
  the loop got.
- Controller.ConfigMirrorReconciler.Reconcile: on a terminating ConfigMirror whose
  cleanup is blocked, it states only that an error is returned, not which one.
- Controller.ConfigMirrorReconciler.FindConfigMirrorsForConfigMap: the Go function
  returns nil on a list failure. Here that is the empty sequence.
- Listing order is the server's choice. Methods that list return the listing they saw
  as a ghost value, and their postconditions hold for any valid listing.
- The idempotence of a pass covers the ConfigMaps and the rows, not the status
  entries. A second pass may record different targets: an Update can be refused where
  the first pass's Create went through. Its entries also follow the new listing's order.
