/**
 * The ConfigMirror reconciler: finalizer handling, selector compilation, the
 * replication pass with its status rebuild and orphan cleanup, finalization, and the
 * routing of ConfigMap events to the ConfigMirrors that select them.
 */
module Controller {
  import opened Wrappers
  import opened Selectors
  import opened MirrorApi
  import opened ObjectStore
  import Database
  import opened Replication

  /** `ctrl.Result`: zero means no timed requeue. */
  datatype ReconcileResult = ReconcileResult(requeueAfterSeconds: nat)

  const NoRequeue := ReconcileResult(0)
  const ResyncSeconds: nat := 5 * 60

  /** The error Reconcile returns: one from the API server, or the selector's. */
  datatype ReconcileError = Api(cause: ApiError) | SelectorInvalid

  const ReadyType := "Ready"
  const SuccessMessage := "Successfully replicated ConfigMaps"
  /** Stand-ins for error texts produced by libraries outside this model. */
  const SelectorErrorMessage := "invalid label selector"
  const ListErrorMessage := "failed to list ConfigMaps"
  /** Stand-in for the driver's error text that a failed Ping records; not the source's wording. */
  const PingErrorMessage := "<driver ping error>"

  /** controllerutil.AddFinalizer: appended when absent, otherwise the list is kept. */
  function AddFinalizer(finalizers: seq<string>, f: string): (r: seq<string>)
    ensures f in r
    ensures forall x :: x in finalizers ==> x in r
    ensures f in finalizers ==> r == finalizers
    ensures |r| <= |finalizers| + 1
  {
    if f in finalizers then finalizers else finalizers + [f]
  }

  /** controllerutil.RemoveFinalizer: every occurrence goes, the others stay in order. */
  function RemoveFinalizer(finalizers: seq<string>, f: string): (r: seq<string>)
    ensures f !in r
    ensures forall x :: x in r <==> x in finalizers && x != f
    ensures |r| <= |finalizers|
  {
    if finalizers == [] then []
    else (if finalizers[0] == f then [] else [finalizers[0]]) + RemoveFinalizer(finalizers[1..], f)
  }

  /** Removing a finalizer that is not there changes nothing. */
  lemma {:induction false} RemoveAbsentFinalizer(finalizers: seq<string>, f: string)
    requires f !in finalizers
    ensures RemoveFinalizer(finalizers, f) == finalizers
  {
    if finalizers != [] {
      RemoveAbsentFinalizer(finalizers[1..], f);
    }
  }

  /** Adding our finalizer and removing it again gives back the finalizers we found. */
  lemma {:induction false} RemoveUndoesAdd(finalizers: seq<string>, f: string)
    requires f !in finalizers
    ensures RemoveFinalizer(AddFinalizer(finalizers, f), f) == finalizers
  {
    if finalizers == [] {
      assert RemoveFinalizer([f], f) == [] + RemoveFinalizer([], f);
    } else {
      var added := finalizers + [f];
      assert added[0] == finalizers[0] && added[1..] == finalizers[1..] + [f];
      RemoveUndoesAdd(finalizers[1..], f);
    }
  }

  /** The ConfigMirror with our finalizer, as the active path makes sure of it. */
  function Admitted(m: ConfigMirror): ConfigMirror {
    m.(metadata := m.metadata.(finalizers := AddFinalizer(m.metadata.finalizers, FinalizerName)))
  }

  function ReadyCondition(generation: int, status: ConditionStatus, reason: string, message: string): Condition {
    Condition(ReadyType, status, generation, reason, message)
  }

  /**
   * updateStatus on the in-memory object: the Ready condition set for the current
   * generation, every other condition and the rest of the object untouched.
   */
  function WithReady(m: ConfigMirror, status: ConditionStatus, reason: string, message: string): (r: ConfigMirror)
    ensures r.metadata == m.metadata && r.spec == m.spec
    ensures r.status.replicatedConfigMaps == m.status.replicatedConfigMaps
      && r.status.databaseStatus == m.status.databaseStatus
      && r.status.observedGeneration == m.status.observedGeneration
    ensures FindCondition(r.status.conditions, ReadyType) == Some(ReadyCondition(m.metadata.generation, status, reason, message))
    ensures forall t :: t != ReadyType ==> FindCondition(r.status.conditions, t) == FindCondition(m.status.conditions, t)
    ensures ValidStatus(m.status) ==> ValidStatus(r.status)
  {
    var c := ReadyCondition(m.metadata.generation, status, reason, message);
    SetStatusConditionLookup(m.status.conditions, c, ReadyType);
    assert forall t :: t != ReadyType ==> FindCondition(SetStatusCondition(m.status.conditions, c), t) == FindCondition(m.status.conditions, t) by {
      forall t | t != ReadyType
        ensures FindCondition(SetStatusCondition(m.status.conditions, c), t) == FindCondition(m.status.conditions, t)
      {
        SetStatusConditionLookup(m.status.conditions, c, t);
      }
    }
    assert ValidStatus(m.status) ==> ConditionsKeyedByType(SetStatusCondition(m.status.conditions, c)) by {
      if ValidStatus(m.status) {
        SetStatusConditionKeepsKeys(m.status.conditions, c);
      }
    }
    m.(status := m.status.(conditions := SetStatusCondition(m.status.conditions, c)))
  }

  /** What a successful Ping, or a failed one, records as the database status. */
  function PingStatus(ok: bool): (s: DatabaseStatus)
    ensures s.connected == ok
  {
    if ok then DatabaseStatus(true, "Connected") else DatabaseStatus(false, PingErrorMessage)
  }

  /** The object a completed pass writes before the Ready condition is set. */
  function PassStatus(m: ConfigMirror, entries: seq<ReplicatedConfigMap>, databaseStatus: Option<DatabaseStatus>): (r: ConfigMirror)
    ensures r.metadata == m.metadata && r.spec == m.spec && r.status.conditions == m.status.conditions
    ensures r.status.replicatedConfigMaps == entries && r.status.databaseStatus == databaseStatus
    ensures r.status.observedGeneration == r.metadata.generation
    ensures ValidStatus(m.status) ==> ValidStatus(r.status)
  {
    m.(status := m.status.(replicatedConfigMaps := entries, observedGeneration := m.metadata.generation,
                           databaseStatus := databaseStatus))
  }

  /**
   * After a completed pass the ConfigMirror reports Ready=True for its current
   * generation, has observed that generation, and lists the new entries.
   */
  lemma CompletedPassStatus(m: ConfigMirror, entries: seq<ReplicatedConfigMap>, databaseStatus: Option<DatabaseStatus>)
    ensures var r := WithReady(PassStatus(m, entries, databaseStatus), ConditionTrue, "ReconcileSuccess", SuccessMessage);
      && FindCondition(r.status.conditions, ReadyType) == Some(Condition(ReadyType, ConditionTrue, m.metadata.generation, "ReconcileSuccess", SuccessMessage))
      && r.status.observedGeneration == m.metadata.generation
      && r.status.replicatedConfigMaps == entries
      && r.status.databaseStatus == databaseStatus
      && r.metadata == m.metadata && r.spec == m.spec
  {
  }

  /** The requests for a ConfigMap's labels: each ConfigMirror whose selector compiles and matches, in list order. */
  function Routed(mirrors: seq<ConfigMirror>, labels: Labels): (r: seq<ObjectKey>)
    ensures |r| <= |mirrors|
    ensures forall k :: k in r <==>
      exists i :: 0 <= i < |mirrors| && MirrorKey(mirrors[i]) == k && Matches(Compile(mirrors[i].spec.selector), labels)
    ensures DistinctKeys(mirrors) ==> Distinct(r)
    decreases |mirrors|
  {
    if mirrors == [] then []
    else
      var n := |mirrors| - 1;
      var prev := Routed(mirrors[..n], labels);
      assert forall i :: 0 <= i < n ==> mirrors[..n][i] == mirrors[i];
      var sel := Compile(mirrors[n].spec.selector);
      if !sel.Invalid? && Matches(sel, labels) then
        assert DistinctKeys(mirrors) ==> MirrorKey(mirrors[n]) !in prev;
        prev + [MirrorKey(mirrors[n])]
      else prev
  }

  /** No two ConfigMirrors of the sequence share a key. */
  predicate DistinctKeys(mirrors: seq<ConfigMirror>) {
    forall i, j :: 0 <= i < j < |mirrors| ==> MirrorKey(mirrors[i]) != MirrorKey(mirrors[j])
  }

  /**
   * Routing over a listing of the ConfigMap's namespace: a ConfigMirror is requested
   * exactly when it lives in that namespace and its selector matches the labels.
   */
  lemma RoutedOnListing(listed: seq<ConfigMirror>, mirrors: MirrorTable, ns: string, labels: Labels)
    requires MirrorKeysConsistent(mirrors) && IsMirrorListing(listed, mirrors, ns)
    ensures forall k :: k in Routed(listed, labels) <==>
      k in mirrors && k.namespace == ns && Matches(Compile(mirrors[k].spec.selector), labels)
    ensures Distinct(Routed(listed, labels))
  {
    assert DistinctKeys(listed);
    forall k | k in mirrors && k.namespace == ns && Matches(Compile(mirrors[k].spec.selector), labels)
      ensures k in Routed(listed, labels)
    {
      assert mirrors[k] in listed;
      var i :| 0 <= i < |listed| && listed[i] == mirrors[k];
      assert MirrorKey(listed[i]) == k;
    }
  }

  /** The owner label selector finds exactly the ConfigMaps owned by `v`. */
  lemma OwnerSelectorMatches(v: string, labels: Labels)
    requires v != ""
    ensures Matches(LabelEquals(OwnerLabel, v), labels) <==> LabelOf(labels, OwnerLabel) == v
  {
    LabelEqualsSemantics(OwnerLabel, v, labels);
  }

  function ListedKeys(items: seq<ConfigMap>): set<ObjectKey> {
    set i | 0 <= i < |items| :: KeyOf(items[i])
  }

  /** Keys of a listing with distinct names, one more item at a time. */
  lemma ListedKeysStep(items: seq<ConfigMap>, j: nat)
    requires j < |items|
    requires forall x, y :: 0 <= x < y < |items| ==> items[x].name != items[y].name
    ensures ListedKeys(items[..j + 1]) == ListedKeys(items[..j]) + {KeyOf(items[j])}
    ensures KeyOf(items[j]) !in ListedKeys(items[..j])
  {
    assert forall x :: 0 <= x < j ==> items[..j + 1][x] == items[..j][x] == items[x];
    assert items[..j + 1][j] == items[j];
  }

  /**
   * One namespace of finalization: removing what the owner-label listing of that
   * namespace returned is exactly the purge of that namespace.
   */
  lemma PurgeNamespaceListing(before: Objects, items: seq<ConfigMap>, ns: string, v: string)
    requires KeysConsistent(before) && v != ""
    requires IsListing(items, before, ns, LabelEquals(OwnerLabel, v))
    ensures forall x :: 0 <= x < |items| ==>
      KeyOf(items[x]) in before && KeyOf(items[x]).namespace == ns && OwnedBy(before[KeyOf(items[x])], v)
    ensures forall k :: k in before && k.namespace == ns && OwnedBy(before[k], v) ==>
      exists x :: 0 <= x < |items| && KeyOf(items[x]) == k
    ensures before - ListedKeys(items) == Purged(before, [ns], v)
  {
    var after := Purged(before, [ns], v);
    forall x | 0 <= x < |items|
      ensures KeyOf(items[x]) in before && KeyOf(items[x]).namespace == ns && OwnedBy(before[KeyOf(items[x])], v)
    {
      OwnerSelectorMatches(v, items[x].labels);
    }
    forall k | k in before && k.namespace == ns && OwnedBy(before[k], v)
      ensures exists x :: 0 <= x < |items| && KeyOf(items[x]) == k
    {
      OwnerSelectorMatches(v, before[k].labels);
      assert before[k] in items;
      var x :| 0 <= x < |items| && items[x] == before[k];
      assert KeyOf(items[x]) == k;
    }
    assert (before - ListedKeys(items)).Keys == after.Keys;
  }

  lemma RemoveOneMore(before: Objects, removed: set<ObjectKey>, key: ObjectKey)
    ensures (before - removed) - {key} == before - (removed + {key})
  {
  }

  /** Deleting a prefix of that listing is part of the purge of the namespace. */
  lemma PartialPurge(before: Objects, items: seq<ConfigMap>, j: nat, ns: string, v: string)
    requires j <= |items|
    requires forall x :: 0 <= x < |items| ==>
      KeyOf(items[x]) in before && KeyOf(items[x]).namespace == ns && OwnedBy(before[KeyOf(items[x])], v)
    ensures PartlyPurged(before - ListedKeys(items[..j]), before, [ns], v)
  {
    forall k | k in ListedKeys(items[..j]) ensures k.namespace in [ns] && OwnedBy(before[k], v) {
      var x :| 0 <= x < j && KeyOf(items[..j][x]) == k;
      assert items[..j][x] == items[x];
    }
  }

  /** Purging namespace after namespace is purging them all. */
  lemma PurgeExtend(objs: Objects, targets: seq<string>, ns: string, v: string)
    ensures Purged(Purged(objs, targets, v), [ns], v) == Purged(objs, targets + [ns], v)
  {
    assert forall t :: t in targets + [ns] <==> t in targets || t == ns;
    var a := Purged(Purged(objs, targets, v), [ns], v);
    assert a.Keys == Purged(objs, targets + [ns], v).Keys;
  }

  class ConfigMirrorReconciler {
    const cluster: Cluster
    /** `DBClient`: absent when persistence is not configured for the operator. */
    const db: Database.Client?

    ghost predicate Valid()
      reads this, cluster, db
    {
      cluster.Valid() && (db != null ==> db.Valid() && db.pool != Database.NilPool)
    }

    constructor (cluster: Cluster, db: Database.Client?)
      requires cluster.Valid() && (db != null ==> db.Valid() && db.pool != Database.NilPool)
      ensures Valid() && this.cluster == cluster && this.db == db
    {
      this.cluster := cluster;
      this.db := db;
    }

    /**
     * The database guard: there is a client and the spec enables persistence. Whenever
     * it holds, the client and the database section it dereferences are both present.
     */
    predicate PersistenceOn(m: ConfigMirror): (b: bool)
      reads this
      ensures b ==> db != null && m.spec.database.Some?
      ensures db != null && m.spec.database.Some? && m.spec.database.value.enabled ==> b
    {
      db != null && PersistenceEnabled(m.spec)
    }

    method ReplicateConfigMap(source: ConfigMap, targetNamespace: string, owner: ConfigMirror) returns (err: Option<ApiError>)
      requires Valid()
      modifies cluster
      ensures Valid() && cluster.mirrors == old(cluster.mirrors)
      ensures var o := ReplicateOnce(old(cluster.configMaps), cluster.faults, source, targetNamespace, OwnerOf(owner));
        cluster.configMaps == o.objects && (err.None? <==> o.ok)
    {
      var v := OwnerOf(owner);
      var target := Replica(source, targetNamespace, v);
      var existing := cluster.Get(KeyOf(target));
      if existing.Err? {
        if existing.error == NotFound {
          err := cluster.Create(target);
          return;
        }
        return Some(existing.error);
      }
      err := cluster.Update(Refreshed(existing.value, source, v));
    }

    method DeleteReplicatedConfigMap(name: string, targetNamespace: string, owner: ConfigMirror) returns (err: Option<ApiError>)
      requires Valid()
      modifies cluster
      ensures Valid() && cluster.mirrors == old(cluster.mirrors)
      ensures cluster.configMaps == DeleteIfOwned(old(cluster.configMaps), cluster.faults, ObjectKey(targetNamespace, name), OwnerOf(owner))
      ensures var key := ObjectKey(targetNamespace, name);
        err.Some? <==> (GetFails(key) in cluster.faults
                        || (key in old(cluster.configMaps) && OwnedBy(old(cluster.configMaps)[key], OwnerOf(owner))
                            && DeleteFails(key) in cluster.faults))
    {
      var key := ObjectKey(targetNamespace, name);
      var got := cluster.Get(key);
      if got.Err? {
        if got.error == NotFound {
          return None;
        }
        return Some(got.error);
      }
      if OwnedBy(got.value, OwnerOf(owner)) {
        err := cluster.Delete(KeyOf(got.value));
        return;
      }
      return None;
    }

    /** One iteration of cleanupConfigMaps: list the ConfigMaps of `ns` carrying owner label `v` and delete them. */
    method PurgeNamespace(ns: string, v: string) returns (err: Option<ApiError>)
      requires Valid() && v != ""
      modifies cluster
      ensures Valid() && cluster.mirrors == old(cluster.mirrors)
      ensures err.None? <==> (ListFails(ns) !in cluster.faults
        && forall k :: k in old(cluster.configMaps) && k.namespace == ns && OwnedBy(old(cluster.configMaps)[k], v)
                       ==> DeleteFails(k) !in cluster.faults)
      ensures err.None? ==> cluster.configMaps == Purged(old(cluster.configMaps), [ns], v)
      ensures PartlyPurged(cluster.configMaps, old(cluster.configMaps), [ns], v)
    {
      var listing := cluster.List(ns, LabelEquals(OwnerLabel, v));
      if listing.Err? {
        return Some(listing.error);
      }
      var items := listing.value;
      ghost var before := cluster.configMaps;
      PurgeNamespaceListing(before, items, ns, v);
      for j := 0 to |items|
        invariant Valid() && cluster.mirrors == old(cluster.mirrors)
        invariant cluster.configMaps == before - ListedKeys(items[..j])
        invariant forall x :: 0 <= x < j ==> DeleteFails(KeyOf(items[x])) !in cluster.faults
      {
        var key := KeyOf(items[j]);
        ListedKeysStep(items, j);
        RemoveOneMore(before, ListedKeys(items[..j]), key);
        var e := cluster.Delete(key);
        if e.Some? && e.value != NotFound {
          PartialPurge(before, items, j, ns, v);
          return e;
        }
      }
      assert items[..|items|] == items;
      return None;
    }

    /** Finalization: delete every ConfigMap carrying our owner label from every target namespace. */
    method CleanupConfigMaps(m: ConfigMirror) returns (err: Option<ApiError>)
      requires Valid()
      modifies cluster
      ensures Valid() && cluster.mirrors == old(cluster.mirrors)
      ensures err.None? <==> !PurgeBlocked(old(cluster.configMaps), cluster.faults, m.spec.targetNamespaces, OwnerOf(m))
      ensures err.None? ==> cluster.configMaps == Purged(old(cluster.configMaps), m.spec.targetNamespaces, OwnerOf(m))
      ensures PartlyPurged(cluster.configMaps, old(cluster.configMaps), m.spec.targetNamespaces, OwnerOf(m))
    {
      var v := OwnerOf(m);
      assert |v| > 0;
      var targets := m.spec.targetNamespaces;
      ghost var objs := cluster.configMaps;
      for i := 0 to |targets|
        invariant Valid() && cluster.mirrors == old(cluster.mirrors)
        invariant cluster.configMaps == Purged(objs, targets[..i], v)
        invariant forall t :: t in targets[..i] ==> ListFails(t) !in cluster.faults
        invariant forall k :: k in objs && k.namespace in targets[..i] && OwnedBy(objs[k], v) ==> DeleteFails(k) !in cluster.faults
      {
        assert targets[..i + 1] == targets[..i] + [targets[i]];
        assert forall t :: t in targets[..i] ==> t in targets;
        ghost var before := cluster.configMaps;
        var e := PurgeNamespace(targets[i], v);
        PurgeExtend(objs, targets[..i], targets[i], v);
        if e.Some? {
          assert targets[i] in targets;
          if ListFails(targets[i]) !in cluster.faults {
            ghost var k :| k in before && k.namespace == targets[i] && OwnedBy(before[k], v) && DeleteFails(k) in cluster.faults;
            assert k in objs && objs[k] == before[k];
          }
          return e;
        }
        forall k | k in objs && k.namespace == targets[i] && OwnedBy(objs[k], v) && k.namespace !in targets[..i]
          ensures DeleteFails(k) !in cluster.faults
        {
          assert k in before && before[k] == objs[k];
        }
      }
      assert targets[..|targets|] == targets;
      return None;
    }

    /** updateStatus: the Ready condition set in memory and written with `Status().Update`, whose error is dropped. */
    method UpdateStatus(m: ConfigMirror, status: ConditionStatus, reason: string, message: string) returns (updated: ConfigMirror)
      requires Valid()
      modifies cluster
      ensures Valid() && cluster.configMaps == old(cluster.configMaps)
      ensures updated == WithReady(m, status, reason, message)
      ensures cluster.mirrors == WriteStatus(old(cluster.mirrors), cluster.faults, updated)
    {
      updated := WithReady(m, status, reason, message);
      var ignored := cluster.UpdateMirrorStatus(updated);
    }

    /** One listed ConfigMap replicated into every target namespace; failures are skipped. */
    method ReplicateToTargets(source: ConfigMap, m: ConfigMirror) returns (succeeded: seq<string>)
      requires Valid()
      modifies cluster
      ensures Valid() && cluster.mirrors == old(cluster.mirrors)
      ensures var f := ReplicateTargets(old(cluster.configMaps), cluster.faults, source, m.spec.targetNamespaces, OwnerOf(m));
        cluster.configMaps == f.objects && succeeded == Select(m.spec.targetNamespaces, f.mask)
    {
      var targets := m.spec.targetNamespaces;
      ghost var objs := cluster.configMaps;
      succeeded := [];
      for i := 0 to |targets|
        invariant Valid() && cluster.mirrors == old(cluster.mirrors)
        invariant var f := ReplicateTargets(objs, cluster.faults, source, targets[..i], OwnerOf(m));
          cluster.configMaps == f.objects && succeeded == Select(targets[..i], f.mask)
      {
        ghost var f := ReplicateTargets(objs, cluster.faults, source, targets[..i], OwnerOf(m));
        assert targets[..i + 1][..i] == targets[..i];
        var err := ReplicateConfigMap(source, targets[i], m);
        ghost var f' := ReplicateTargets(objs, cluster.faults, source, targets[..i + 1], OwnerOf(m));
        assert f'.mask[..i] == f.mask;
        if err.Some? {
          continue;
        }
        succeeded := succeeded + [targets[i]];
      }
      assert targets[..|targets|] == targets;
    }

    /** One iteration of the replication loop: the fan-out of `cm`, then its database save when persistence is on. */
    method ReplicateListed(cm: ConfigMap, m: ConfigMirror) returns (entry: ReplicatedConfigMap)
      requires Valid()
      modifies cluster, db
      ensures Valid() && cluster.mirrors == old(cluster.mirrors)
      ensures db != null ==> db.pool == old(db.pool)
      ensures var f := ReplicateTargets(old(cluster.configMaps), cluster.faults, cm, m.spec.targetNamespaces, OwnerOf(m));
        cluster.configMaps == f.objects
        && entry == ReplicatedConfigMap(cm.name, cm.namespace, Select(m.spec.targetNamespaces, f.mask))
      ensures PersistenceOn(m) ==>
        db.table == Database.AfterSave(old(db.table), db.pool, db.faults, Database.KeyFor(cm, m.metadata.name, m.metadata.namespace), cm)
      ensures db != null && !PersistenceOn(m) ==> db.table == old(db.table)
    {
      var targets := ReplicateToTargets(cm, m);
      if db != null && PersistenceEnabled(m.spec) {
        var ignored := db.SaveConfigMap(cm, m.metadata.name, m.metadata.namespace);
      }
      entry := ReplicatedConfigMap(cm.name, cm.namespace, targets);
    }

    /** The replication loop of Reconcile, with the database save of each listed ConfigMap. */
    method ReplicateMatched(items: seq<ConfigMap>, m: ConfigMirror) returns (entries: seq<ReplicatedConfigMap>)
      requires Valid()
      modifies cluster, db
      ensures Valid() && cluster.mirrors == old(cluster.mirrors)
      ensures db != null ==> db.pool == old(db.pool)
      ensures cluster.configMaps == ReplicateAll(old(cluster.configMaps), cluster.faults, items, m.spec.targetNamespaces, OwnerOf(m)).objects
      ensures entries == ReplicateAll(old(cluster.configMaps), cluster.faults, items, m.spec.targetNamespaces, OwnerOf(m)).entries
      ensures PersistenceOn(m) ==>
        db.table == SaveAll(old(db.table), db.pool, db.faults, items, m.metadata.name, m.metadata.namespace)
      ensures db != null && !PersistenceOn(m) ==> db.table == old(db.table)
    {
      ghost var objs := cluster.configMaps;
      ghost var table := if db != null then db.table else Database.Table(false, map[], 0);
      var targets := m.spec.targetNamespaces;
      entries := [];
      for i := 0 to |items|
        invariant Valid() && cluster.mirrors == old(cluster.mirrors)
        invariant db != null ==> db.pool == old(db.pool)
        invariant cluster.configMaps == ReplicateAll(objs, cluster.faults, items[..i], targets, OwnerOf(m)).objects
        invariant entries == ReplicateAll(objs, cluster.faults, items[..i], targets, OwnerOf(m)).entries
        invariant PersistenceOn(m) ==>
          db.table == SaveAll(table, db.pool, db.faults, items[..i], m.metadata.name, m.metadata.namespace)
        invariant db != null && !PersistenceOn(m) ==> db.table == old(db.table)
      {
        assert items[..i + 1][..i] == items[..i] && items[..i + 1][i] == items[i];
        var entry := ReplicateListed(items[i], m);
        entries := entries + [entry];
      }
      assert items[..|items|] == items;
    }

    /** currentConfigMapNames. */
    method CollectNames(items: seq<ConfigMap>) returns (names: set<string>)
      ensures names == ListedNames(items)
    {
      names := {};
      for i := 0 to |items|
        invariant names == ListedNames(items[..i])
      {
        assert ListedNames(items[..i + 1]) == ListedNames(items[..i]) + {items[i].name} by {
          assert forall x :: 0 <= x < i ==> items[..i + 1][x] == items[..i][x];
          assert items[..i + 1][i] == items[i];
        }
        names := names + {items[i].name};
      }
      assert items[..|items|] == items;
    }

    /** The inner orphan loop: an owner-checked delete of `name` in every target; errors are only logged. */
    method DeleteFromTargets(name: string, m: ConfigMirror)
      requires Valid()
      modifies cluster
      ensures Valid() && cluster.mirrors == old(cluster.mirrors)
      ensures cluster.configMaps == DeleteEverywhere(old(cluster.configMaps), cluster.faults, name, m.spec.targetNamespaces, OwnerOf(m))
    {
      var targets := m.spec.targetNamespaces;
      ghost var objs := cluster.configMaps;
      for i := 0 to |targets|
        invariant Valid() && cluster.mirrors == old(cluster.mirrors)
        invariant cluster.configMaps == DeleteEverywhere(objs, cluster.faults, name, targets[..i], OwnerOf(m))
      {
        assert targets[..i + 1][..i] == targets[..i];
        var ignored := DeleteReplicatedConfigMap(name, targets[i], m);
      }
      assert targets[..|targets|] == targets;
    }

    /** One iteration of the orphan loop: a ConfigMap no longer listed is deleted from the targets and from the database. */
    method ForgetIfOrphan(previous: ReplicatedConfigMap, m: ConfigMirror, names: set<string>)
      requires Valid()
      modifies cluster, db
      ensures Valid() && cluster.mirrors == old(cluster.mirrors)
      ensures db != null ==> db.pool == old(db.pool)
      ensures previous.name in names ==> cluster.configMaps == old(cluster.configMaps)
      ensures previous.name !in names ==>
        cluster.configMaps == DeleteEverywhere(old(cluster.configMaps), cluster.faults, previous.name, m.spec.targetNamespaces, OwnerOf(m))
      ensures PersistenceOn(m) && previous.name !in names ==>
        db.table == Database.AfterDelete(old(db.table), db.pool, db.faults,
                                         Database.RowKey(previous.name, previous.sourceNamespace, m.metadata.namespace, m.metadata.name))
      ensures db != null && (!PersistenceOn(m) || previous.name in names) ==> db.table == old(db.table)
    {
      if previous.name !in names {
        DeleteFromTargets(previous.name, m);
        if db != null && PersistenceEnabled(m.spec) {
          var ignored := db.DeleteConfigMap(previous.name, previous.sourceNamespace, m.metadata.name, m.metadata.namespace);
        }
      }
    }

    /** The orphan cleanup of Reconcile, with the database delete of each orphan. */
    method CleanupOrphans(m: ConfigMirror, names: set<string>)
      requires Valid()
      modifies cluster, db
      ensures Valid() && cluster.mirrors == old(cluster.mirrors)
      ensures db != null ==> db.pool == old(db.pool)
      ensures cluster.configMaps == RemoveOrphans(old(cluster.configMaps), cluster.faults, m.status.replicatedConfigMaps, names,
                                                  m.spec.targetNamespaces, OwnerOf(m))
      ensures PersistenceOn(m) ==>
        db.table == DeleteOrphanRows(old(db.table), db.pool, db.faults, m.status.replicatedConfigMaps, names,
                                     m.metadata.name, m.metadata.namespace)
      ensures db != null && !PersistenceOn(m) ==> db.table == old(db.table)
    {
      var previous := m.status.replicatedConfigMaps;
      var targets := m.spec.targetNamespaces;
      ghost var objs := cluster.configMaps;
      ghost var table := if db != null then db.table else Database.Table(false, map[], 0);
      for i := 0 to |previous|
        invariant Valid() && cluster.mirrors == old(cluster.mirrors)
        invariant db != null ==> db.pool == old(db.pool)
        invariant cluster.configMaps == RemoveOrphans(objs, cluster.faults, previous[..i], names, targets, OwnerOf(m))
        invariant PersistenceOn(m) ==>
          db.table == DeleteOrphanRows(table, db.pool, db.faults, previous[..i], names, m.metadata.name, m.metadata.namespace)
        invariant db != null && !PersistenceOn(m) ==> db.table == old(db.table)
      {
        assert previous[..i + 1][..i] == previous[..i];
        RemoveOrphansStep(objs, cluster.faults, previous, names, targets, OwnerOf(m), i);
        ForgetIfOrphan(previous[i], m, names);
      }
      assert previous[..|previous|] == previous;
    }

    /** The database status a completed pass records, from a Ping when persistence is on. */
    method RefreshDatabaseStatus(m: ConfigMirror) returns (status: Option<DatabaseStatus>)
      requires Valid()
      ensures !PersistenceOn(m) ==> status == m.status.databaseStatus
      ensures PersistenceOn(m) ==> status == Some(PingStatus(db.pool == Database.Open && Database.PingFails !in db.faults))
    {
      status := m.status.databaseStatus;
      if db != null && PersistenceEnabled(m.spec) {
        var err := db.Ping();
        status := Some(PingStatus(err.None?));
      }
    }

    /** Everything Reconcile does once the ConfigMirror is live and carries the finalizer. */
    method ReconcileActive(m: ConfigMirror) returns (result: ReconcileResult, err: Option<ReconcileError>, ghost listed: seq<ConfigMap>)
      requires Valid()
      modifies cluster, db
      ensures Valid()
      ensures db != null ==> db.pool == old(db.pool)
      ensures Compile(m.spec.selector).Invalid? ==>
        && result == NoRequeue && err == Some(SelectorInvalid)
        && cluster.configMaps == old(cluster.configMaps)
        && cluster.mirrors == WriteStatus(old(cluster.mirrors), cluster.faults, WithReady(m, ConditionFalse, "InvalidSelector", SelectorErrorMessage))
        && (db != null ==> db.table == old(db.table))
      ensures !Compile(m.spec.selector).Invalid? && ListFails(m.metadata.namespace) in cluster.faults ==>
        && result == NoRequeue && err == Some(Api(Unavailable))
        && cluster.configMaps == old(cluster.configMaps)
        && cluster.mirrors == WriteStatus(old(cluster.mirrors), cluster.faults, WithReady(m, ConditionFalse, "ListFailed", ListErrorMessage))
        && (db != null ==> db.table == old(db.table))
      ensures !Compile(m.spec.selector).Invalid? && ListFails(m.metadata.namespace) !in cluster.faults ==>
        && result == ReconcileResult(ResyncSeconds) && err == None
        && IsListing(listed, old(cluster.configMaps), m.metadata.namespace, Compile(m.spec.selector))
        && cluster.configMaps == PassObjects(old(cluster.configMaps), cluster.faults, listed, m)
        && (var dbStatus := if PersistenceOn(m)
                            then Some(PingStatus(db.pool == Database.Open && Database.PingFails !in db.faults))
                            else m.status.databaseStatus;
            cluster.mirrors == WriteStatus(old(cluster.mirrors), cluster.faults,
              WithReady(PassStatus(m, PassEntries(old(cluster.configMaps), cluster.faults, listed, m), dbStatus),
                        ConditionTrue, "ReconcileSuccess", SuccessMessage)))
        && (PersistenceOn(m) ==> db.table == PassRows(old(db.table), db.pool, db.faults, listed, m))
        && (db != null && !PersistenceOn(m) ==> db.table == old(db.table))
    {
      listed := [];
      var selector := Compile(m.spec.selector);
      if selector.Invalid? {
        var ignored := UpdateStatus(m, ConditionFalse, "InvalidSelector", SelectorErrorMessage);
        return NoRequeue, Some(SelectorInvalid), listed;
      }
      var listing := cluster.List(m.metadata.namespace, selector);
      if listing.Err? {
        var ignored := UpdateStatus(m, ConditionFalse, "ListFailed", ListErrorMessage);
        return NoRequeue, Some(Api(listing.error)), listed;
      }
      var items := listing.value;
      listed := items;
      var entries := ReplicateMatched(items, m);
      var names := CollectNames(items);
      CleanupOrphans(m, names);
      var dbStatus := RefreshDatabaseStatus(m);
      var ignored := UpdateStatus(PassStatus(m, entries, dbStatus), ConditionTrue, "ReconcileSuccess", SuccessMessage);
      return ReconcileResult(ResyncSeconds), None, listed;
    }

    /** Finalization of a ConfigMirror whose deletion was requested. */
    method Finalize(m: ConfigMirror) returns (err: Option<ReconcileError>)
      requires Valid() && MirrorKey(m) in cluster.mirrors && m.metadata.deletionRequested
      modifies cluster
      ensures Valid()
      ensures FinalizerName !in m.metadata.finalizers ==>
        err == None && cluster.configMaps == old(cluster.configMaps) && cluster.mirrors == old(cluster.mirrors)
      ensures FinalizerName in m.metadata.finalizers ==>
        var v := OwnerOf(m);
        var targets := m.spec.targetNamespaces;
        && (PurgeBlocked(old(cluster.configMaps), cluster.faults, targets, v) ==>
              err.Some? && cluster.mirrors == old(cluster.mirrors)
              && PartlyPurged(cluster.configMaps, old(cluster.configMaps), targets, v))
        && (!PurgeBlocked(old(cluster.configMaps), cluster.faults, targets, v) ==>
              cluster.configMaps == Purged(old(cluster.configMaps), targets, v)
              && (MirrorUpdateFails(MirrorKey(m)) in cluster.faults ==>
                    err == Some(Api(Unavailable)) && cluster.mirrors == old(cluster.mirrors))
              && (MirrorUpdateFails(MirrorKey(m)) !in cluster.faults ==>
                    err == None
                    && cluster.mirrors == WriteFinalizers(old(cluster.mirrors), MirrorKey(m),
                                                          RemoveFinalizer(m.metadata.finalizers, FinalizerName))))
    {
      if FinalizerName in m.metadata.finalizers {
        var e := CleanupConfigMaps(m);
        if e.Some? {
          return Some(Api(e.value));
        }
        var m' := m.(metadata := m.metadata.(finalizers := RemoveFinalizer(m.metadata.finalizers, FinalizerName)));
        var u := cluster.UpdateMirror(m');
        if u.Some? {
          return Some(Api(u.value));
        }
      }
      return None;
    }

    method Reconcile(req: ObjectKey) returns (result: ReconcileResult, err: Option<ReconcileError>, ghost listed: seq<ConfigMap>)
      requires Valid()
      modifies cluster, db
      ensures Valid()
      ensures db != null ==> db.pool == old(db.pool)
      // The ConfigMirror is gone, or cannot be read.
      ensures MirrorGetFails(req) in cluster.faults ==>
        result == NoRequeue && err == Some(Api(Unavailable)) && cluster.configMaps == old(cluster.configMaps) && cluster.mirrors == old(cluster.mirrors) && (db != null ==> db.table == old(db.table))
      ensures MirrorGetFails(req) !in cluster.faults && req !in old(cluster.mirrors) ==>
        result == NoRequeue && err == None && cluster.configMaps == old(cluster.configMaps) && cluster.mirrors == old(cluster.mirrors) && (db != null ==> db.table == old(db.table))
      // Deletion was requested: finalize, never requeue, never touch the database.
      ensures MirrorGetFails(req) !in cluster.faults && req in old(cluster.mirrors)
              && old(cluster.mirrors)[req].metadata.deletionRequested ==>
        var m := old(cluster.mirrors)[req];
        && result == NoRequeue
        && (db != null ==> db.table == old(db.table))
        && (FinalizerName !in m.metadata.finalizers ==> err == None && cluster.configMaps == old(cluster.configMaps) && cluster.mirrors == old(cluster.mirrors))
        && (FinalizerName in m.metadata.finalizers && !PurgeBlocked(old(cluster.configMaps), cluster.faults, m.spec.targetNamespaces, OwnerOf(m)) ==>
              cluster.configMaps == Purged(old(cluster.configMaps), m.spec.targetNamespaces, OwnerOf(m))
              && (err.None? <==> MirrorUpdateFails(req) !in cluster.faults)
              && (err.None? ==> cluster.mirrors == WriteFinalizers(old(cluster.mirrors), req, RemoveFinalizer(m.metadata.finalizers, FinalizerName)))
              && (err.Some? ==> cluster.mirrors == old(cluster.mirrors)))
        && (FinalizerName in m.metadata.finalizers && PurgeBlocked(old(cluster.configMaps), cluster.faults, m.spec.targetNamespaces, OwnerOf(m)) ==>
              err.Some? && cluster.mirrors == old(cluster.mirrors)
              && PartlyPurged(cluster.configMaps, old(cluster.configMaps), m.spec.targetNamespaces, OwnerOf(m)))
      // Live, but the finalizer could not be added: nothing else happens.
      ensures MirrorGetFails(req) !in cluster.faults && req in old(cluster.mirrors)
              && !old(cluster.mirrors)[req].metadata.deletionRequested
              && FinalizerName !in old(cluster.mirrors)[req].metadata.finalizers
              && MirrorUpdateFails(req) in cluster.faults ==>
        result == NoRequeue && err == Some(Api(Unavailable)) && cluster.configMaps == old(cluster.configMaps) && cluster.mirrors == old(cluster.mirrors) && (db != null ==> db.table == old(db.table))
      // Live with the finalizer in place (added and persisted first if it was missing): the active pass.
      ensures MirrorGetFails(req) !in cluster.faults && req in old(cluster.mirrors)
              && !old(cluster.mirrors)[req].metadata.deletionRequested
              && (FinalizerName in old(cluster.mirrors)[req].metadata.finalizers || MirrorUpdateFails(req) !in cluster.faults) ==>
        var m := Admitted(old(cluster.mirrors)[req]);
        var admitted := old(cluster.mirrors)[req := m];
        var selector := Compile(m.spec.selector);
        && (selector.Invalid? ==>
              && result == NoRequeue && err == Some(SelectorInvalid)
              && cluster.configMaps == old(cluster.configMaps) && (db != null ==> db.table == old(db.table))
              && cluster.mirrors == WriteStatus(admitted, cluster.faults, WithReady(m, ConditionFalse, "InvalidSelector", SelectorErrorMessage)))
        && (!selector.Invalid? && ListFails(req.namespace) in cluster.faults ==>
              && result == NoRequeue && err == Some(Api(Unavailable))
              && cluster.configMaps == old(cluster.configMaps) && (db != null ==> db.table == old(db.table))
              && cluster.mirrors == WriteStatus(admitted, cluster.faults, WithReady(m, ConditionFalse, "ListFailed", ListErrorMessage)))
        && (!selector.Invalid? && ListFails(req.namespace) !in cluster.faults ==>
              && result == ReconcileResult(ResyncSeconds) && err == None
              && IsListing(listed, old(cluster.configMaps), req.namespace, selector)
              && cluster.configMaps == PassObjects(old(cluster.configMaps), cluster.faults, listed, m)
              && (var dbStatus := if PersistenceOn(m)
                                  then Some(PingStatus(db.pool == Database.Open && Database.PingFails !in db.faults))
                                  else m.status.databaseStatus;
                  cluster.mirrors == WriteStatus(admitted, cluster.faults,
                    WithReady(PassStatus(m, PassEntries(old(cluster.configMaps), cluster.faults, listed, m), dbStatus),
                              ConditionTrue, "ReconcileSuccess", SuccessMessage)))
              && (PersistenceOn(m) ==> db.table == PassRows(old(db.table), db.pool, db.faults, listed, m))
              && (db != null && !PersistenceOn(m) ==> db.table == old(db.table)))
    {
      listed := [];
      var got := cluster.GetMirror(req);
      if got.Err? {
        if got.error == NotFound {
          return NoRequeue, None, listed;
        }
        return NoRequeue, Some(Api(got.error)), listed;
      }
      var m := got.value;
      if m.metadata.deletionRequested {
        err := Finalize(m);
        return NoRequeue, err, listed;
      }
      if FinalizerName !in m.metadata.finalizers {
        m := m.(metadata := m.metadata.(finalizers := AddFinalizer(m.metadata.finalizers, FinalizerName)));
        var u := cluster.UpdateMirror(m);
        if u.Some? {
          return NoRequeue, Some(Api(u.value)), listed;
        }
      }
      assert m == Admitted(old(cluster.mirrors)[req]);
      assert cluster.mirrors == old(cluster.mirrors)[req := m];
      result, err, listed := ReconcileActive(m);
    }

    /** The event handler: the ConfigMirrors of the ConfigMap's namespace whose selector matches it. */
    method FindConfigMirrorsForConfigMap(cm: ConfigMap) returns (requests: seq<ObjectKey>, ghost listed: seq<ConfigMirror>)
      requires Valid()
      ensures MirrorListFails(cm.namespace) in cluster.faults ==> requests == []
      ensures MirrorListFails(cm.namespace) !in cluster.faults ==>
        IsMirrorListing(listed, cluster.mirrors, cm.namespace) && requests == Routed(listed, cm.labels)
      ensures MirrorListFails(cm.namespace) !in cluster.faults ==>
        Distinct(requests)
        && forall k :: k in requests <==>
             k in cluster.mirrors && k.namespace == cm.namespace && Matches(Compile(cluster.mirrors[k].spec.selector), cm.labels)
    {
      listed := [];
      var listing := cluster.ListMirrors(cm.namespace);
      if listing.Err? {
        return [], listed;
      }
      var items := listing.value;
      listed := items;
      requests := [];
      for i := 0 to |items|
        invariant requests == Routed(items[..i], cm.labels)
      {
        assert items[..i + 1][..i] == items[..i] && items[..i + 1][i] == items[i];
        var selector := Compile(items[i].spec.selector);
        if selector.Invalid? {
          continue;
        }
        if Matches(selector, cm.labels) {
          requests := requests + [MirrorKey(items[i])];
        }
      }
      assert items[..|items|] == items;
      RoutedOnListing(items, cluster.mirrors, cm.namespace, cm.labels);
    }
  }
}
