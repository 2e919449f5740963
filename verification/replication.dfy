/**
 * What a reconciliation does to the ConfigMaps of the cluster and to the rows of the
 * database, as functions of the state it starts from. The controller's methods are
 * proved to perform exactly these functions; the lemmas here say what they achieve.
 */
module Replication {
  import opened Wrappers
  import opened Selectors
  import opened MirrorApi
  import opened ObjectStore
  import Database

  const FinalizerName := "mirror.pawapay.io/finalizer"
  const OwnerLabel := "mirror.pawapay.io/owner"

  /** The owner label value of a ConfigMirror: its namespace and name joined by a dot. */
  function OwnerValue(namespace: string, name: string): (v: string)
    ensures |v| == |namespace| + |name| + 1
  {
    namespace + "." + name
  }

  function OwnerOf(m: ConfigMirror): string {
    OwnerValue(m.metadata.namespace, m.metadata.name)
  }

  /**
   * Namespaces never contain a dot, so the owner label names exactly one ConfigMirror:
   * two ConfigMirrors with the same label value are the same one.
   */
  lemma OwnerValueInjective(ns1: string, name1: string, ns2: string, name2: string)
    requires '.' !in ns1 && '.' !in ns2
    requires OwnerValue(ns1, name1) == OwnerValue(ns2, name2)
    ensures ns1 == ns2 && name1 == name2
  {
    var v := OwnerValue(ns1, name1);
    assert v == OwnerValue(ns2, name2);
    assert forall i :: 0 <= i < |ns1| ==> v[i] == ns1[i];
    assert forall i :: 0 <= i < |ns2| ==> v[i] == ns2[i];
    assert v[|ns1|] == '.' && v[|ns2|] == '.';
    assert |ns1| == |ns2|;
    assert ns1 == v[..|ns1|] == ns2;
    assert name1 == v[|ns1| + 1..] == name2;
  }

  /** A Go map lookup: a missing key reads as the empty string. */
  function LabelOf(labels: Labels, key: string): string {
    if key in labels then labels[key] else ""
  }

  /** The safety check before deleting a replica: the owner label carries `v`. */
  predicate OwnedBy(cm: ConfigMap, v: string): (b: bool)
    ensures v != "" ==> (b <==> OwnerLabel in cm.labels && cm.labels[OwnerLabel] == v)
  {
    LabelOf(cm.labels, OwnerLabel) == v
  }

  /** The copy of `source` that replication creates in namespace `ns`. */
  function Replica(source: ConfigMap, ns: string, v: string): (r: ConfigMap)
    ensures KeyOf(r) == ObjectKey(ns, source.name)
    ensures OwnedBy(r, v) && r.labels.Keys == {OwnerLabel}
  {
    ConfigMap(source.name, ns, map[OwnerLabel := v], map[], source.data, source.binaryData)
  }

  /** An existing ConfigMap brought up to date: contents replaced, owner label set, the rest kept. */
  function Refreshed(existing: ConfigMap, source: ConfigMap, v: string): (r: ConfigMap)
    ensures KeyOf(r) == KeyOf(existing)
    ensures OwnedBy(r, v)
  {
    existing.(labels := existing.labels[OwnerLabel := v], data := source.data, binaryData := source.binaryData)
  }

  /** Namespace `ns` holds an up-to-date copy of `source` owned by `v`. */
  ghost predicate HoldsReplica(objs: Objects, ns: string, source: ConfigMap, v: string) {
    var key := ObjectKey(ns, source.name);
    key in objs && objs[key].data == source.data && objs[key].binaryData == source.binaryData
    && OwnedBy(objs[key], v)
  }

  /** The two stores agree at `k`. */
  ghost predicate Agree(a: Objects, b: Objects, k: ObjectKey) {
    (k in a <==> k in b) && (k in a ==> a[k] == b[k])
  }

  /** `a` is `b` with some entries removed. */
  ghost predicate SubMap<K, V>(a: map<K, V>, b: map<K, V>) {
    forall k :: k in a ==> k in b && a[k] == b[k]
  }

  predicate Distinct<T(==)>(xs: seq<T>) {
    forall i, j :: 0 <= i < j < |xs| ==> xs[i] != xs[j]
  }

  predicate DistinctNames(items: seq<ConfigMap>) {
    forall i, j :: 0 <= i < j < |items| ==> items[i].name != items[j].name
  }

  /** Every API call that replicating into `key` makes goes through. */
  predicate Succeeds(objs: Objects, faults: set<Fault>, key: ObjectKey) {
    GetFails(key) !in faults
    && (if key in objs then UpdateFails(key) !in faults else CreateFails(key) !in faults)
  }

  datatype Outcome = Outcome(objects: Objects, ok: bool)

  /**
   * replicateConfigMap: create the replica when it is missing, otherwise update the
   * existing ConfigMap in place, whoever owns it.
   */
  function ReplicateOnce(objs: Objects, faults: set<Fault>, source: ConfigMap, ns: string, v: string): (r: Outcome)
    ensures r.ok <==> Succeeds(objs, faults, ObjectKey(ns, source.name))
    ensures !r.ok ==> r.objects == objs
    ensures r.ok ==> HoldsReplica(r.objects, ns, source, v)
    ensures forall k :: k != ObjectKey(ns, source.name) ==> Agree(objs, r.objects, k)
    ensures r.objects.Keys == objs.Keys + (if r.ok then {ObjectKey(ns, source.name)} else {})
    ensures r.ok && ObjectKey(ns, source.name) !in objs ==> r.objects[ObjectKey(ns, source.name)] == Replica(source, ns, v)
    ensures r.ok && ObjectKey(ns, source.name) in objs ==>
      var before := objs[ObjectKey(ns, source.name)];
      var after := r.objects[ObjectKey(ns, source.name)];
      after.annotations == before.annotations
      && forall l :: l in before.labels && l != OwnerLabel ==> l in after.labels && after.labels[l] == before.labels[l]
  {
    var key := ObjectKey(ns, source.name);
    if GetFails(key) in faults then Outcome(objs, false)
    else if key !in objs then
      if CreateFails(key) in faults then Outcome(objs, false)
      else Outcome(objs[key := Replica(source, ns, v)], true)
    else
      if UpdateFails(key) in faults then Outcome(objs, false)
      else Outcome(objs[key := Refreshed(objs[key], source, v)], true)
  }

  /** The update path asks nothing about ownership: a ConfigMap of the same name that
      nobody mirrored is taken over and relabelled as a replica. */
  lemma ReplicateAdoptsForeign(objs: Objects, faults: set<Fault>, source: ConfigMap, ns: string, v: string)
    requires ObjectKey(ns, source.name) in objs && !OwnedBy(objs[ObjectKey(ns, source.name)], v)
    requires Succeeds(objs, faults, ObjectKey(ns, source.name))
    ensures OwnedBy(ReplicateOnce(objs, faults, source, ns, v).objects[ObjectKey(ns, source.name)], v)
  {
  }

  /** A replica, once in place, survives any later replication of the same source. */
  lemma HoldsAfterReplicateOnce(objs: Objects, faults: set<Fault>, source: ConfigMap, ns: string, ns': string, v: string)
    requires HoldsReplica(objs, ns, source, v)
    ensures HoldsReplica(ReplicateOnce(objs, faults, source, ns', v).objects, ns, source, v)
  {
    var r := ReplicateOnce(objs, faults, source, ns', v);
    if ns != ns' {
      assert Agree(objs, r.objects, ObjectKey(ns, source.name));
    }
  }

  /** Picks the elements of `xs` whose flag in `mask` is set, keeping their order. */
  function Select<T(==)>(xs: seq<T>, mask: seq<bool>): (r: seq<T>)
    requires |mask| == |xs|
    ensures |r| <= |xs|
    ensures forall x :: x in r ==> x in xs
    decreases |xs|
  {
    if xs == [] then []
    else Select(xs[..|xs| - 1], mask[..|xs| - 1]) + (if mask[|xs| - 1] then [xs[|xs| - 1]] else [])
  }

  lemma {:induction false} SelectMembers<T>(xs: seq<T>, mask: seq<bool>, x: T)
    requires |mask| == |xs|
    ensures x in Select(xs, mask) <==> exists i :: 0 <= i < |xs| && mask[i] && xs[i] == x
    decreases |xs|
  {
    if xs != [] {
      var n := |xs| - 1;
      SelectMembers(xs[..n], mask[..n], x);
      if x in Select(xs[..n], mask[..n]) {
        var i :| 0 <= i < n && mask[..n][i] && xs[..n][i] == x;
        assert mask[i] && xs[i] == x;
      }
      if exists i :: 0 <= i < |xs| && mask[i] && xs[i] == x {
        var i :| 0 <= i < |xs| && mask[i] && xs[i] == x;
        if i < n {
          assert mask[..n][i] && xs[..n][i] == x;
        }
      }
    }
  }

  datatype Fanout = Fanout(objects: Objects, mask: seq<bool>)

  /** The inner loop of Reconcile: `source` replicated to each target namespace in turn. */
  function ReplicateTargets(objs: Objects, faults: set<Fault>, source: ConfigMap, targets: seq<string>, v: string): (r: Fanout)
    ensures |r.mask| == |targets|
    ensures forall k: ObjectKey :: k.name != source.name || k.namespace !in targets ==> Agree(objs, r.objects, k)
    ensures forall i :: 0 <= i < |targets| && r.mask[i] ==> HoldsReplica(r.objects, targets[i], source, v)
    ensures objs.Keys <= r.objects.Keys
    decreases |targets|
  {
    if targets == [] then Fanout(objs, [])
    else
      var n := |targets| - 1;
      var prev := ReplicateTargets(objs, faults, source, targets[..n], v);
      var step := ReplicateOnce(prev.objects, faults, source, targets[n], v);
      assert forall i :: 0 <= i < n && prev.mask[i] ==> HoldsReplica(step.objects, targets[i], source, v) by {
        forall i | 0 <= i < n && prev.mask[i] ensures HoldsReplica(step.objects, targets[i], source, v) {
          assert targets[..n][i] == targets[i];
          HoldsAfterReplicateOnce(prev.objects, faults, source, targets[i], targets[n], v);
        }
      }
      assert forall k: ObjectKey :: k.name != source.name || k.namespace !in targets ==> k.namespace !in targets[..n] || k.name != source.name;
      Fanout(step.objects, prev.mask + [step.ok])
  }

  /**
   * Whether replicating `name` into each target would succeed, judged on `objs`.
   * A definition, the reference that the replication loop is proved against.
   */
  function SuccessMask(objs: Objects, faults: set<Fault>, name: string, targets: seq<string>): (r: seq<bool>)
    ensures |r| == |targets|
    ensures forall j :: 0 <= j < |targets| ==> r[j] == Succeeds(objs, faults, ObjectKey(targets[j], name))
  {
    seq(|targets|, j requires 0 <= j < |targets| => Succeeds(objs, faults, ObjectKey(targets[j], name)))
  }

  lemma DistinctPrefix<T>(xs: seq<T>)
    requires Distinct(xs) && xs != []
    ensures Distinct(xs[..|xs| - 1]) && xs[|xs| - 1] !in xs[..|xs| - 1]
  {
    var n := |xs| - 1;
    forall i | 0 <= i < n ensures xs[..n][i] != xs[n] {
      assert xs[..n][i] == xs[i];
    }
  }

  /**
   * With distinct target namespaces, a target counts as replicated exactly when its API
   * calls go through on the state the loop started from.
   */
  lemma {:induction false} ReplicateTargetsExact(objs: Objects, faults: set<Fault>, source: ConfigMap, targets: seq<string>, v: string)
    requires Distinct(targets)
    ensures ReplicateTargets(objs, faults, source, targets, v).mask == SuccessMask(objs, faults, source.name, targets)
    decreases |targets|
  {
    if targets != [] {
      var n := |targets| - 1;
      var init := targets[..n];
      DistinctPrefix(targets);
      ReplicateTargetsExact(objs, faults, source, init, v);
      var prev := ReplicateTargets(objs, faults, source, init, v);
      var step := ReplicateOnce(prev.objects, faults, source, targets[n], v);
      var r := ReplicateTargets(objs, faults, source, targets, v);
      assert r.mask == prev.mask + [step.ok];
      var key := ObjectKey(targets[n], source.name);
      assert Agree(objs, prev.objects, key);
      var want := SuccessMask(objs, faults, source.name, targets);
      forall i | 0 <= i < |targets| ensures r.mask[i] == want[i] {
        if i < n {
          assert init[i] == targets[i];
        }
      }
    }
  }

  /** With distinct target namespaces, a target whose replication failed is left as it was. */
  lemma {:induction false} ReplicateTargetsFailedUntouched(objs: Objects, faults: set<Fault>, source: ConfigMap, targets: seq<string>, v: string)
    requires Distinct(targets)
    ensures var r := ReplicateTargets(objs, faults, source, targets, v);
      forall i :: 0 <= i < |targets| && !r.mask[i] ==> Agree(objs, r.objects, ObjectKey(targets[i], source.name))
    decreases |targets|
  {
    if targets != [] {
      var n := |targets| - 1;
      var init := targets[..n];
      DistinctPrefix(targets);
      ReplicateTargetsFailedUntouched(objs, faults, source, init, v);
      var prev := ReplicateTargets(objs, faults, source, init, v);
      var step := ReplicateOnce(prev.objects, faults, source, targets[n], v);
      var r := ReplicateTargets(objs, faults, source, targets, v);
      assert r.objects == step.objects && r.mask == prev.mask + [step.ok];
      forall i | 0 <= i < |targets| && !r.mask[i] ensures Agree(objs, r.objects, ObjectKey(targets[i], source.name)) {
        if i < n {
          assert init[i] == targets[i] && !prev.mask[i];
          assert Agree(prev.objects, step.objects, ObjectKey(targets[i], source.name));
        } else {
          assert Agree(objs, prev.objects, ObjectKey(targets[n], source.name));
        }
      }
    }
  }

  /** The names of the listed ConfigMaps: `currentConfigMapNames`. */
  function ListedNames(items: seq<ConfigMap>): set<string> {
    set i | 0 <= i < |items| :: items[i].name
  }

  /** The names recorded in a status list of replicated ConfigMaps. */
  function TrackedNames(entries: seq<ReplicatedConfigMap>): set<string> {
    set i | 0 <= i < |entries| :: entries[i].name
  }

  datatype PassResult = PassResult(objects: Objects, entries: seq<ReplicatedConfigMap>)

  /**
   * The outer loop of Reconcile: every listed ConfigMap replicated to every target,
   * with one status entry per listed ConfigMap, in list order.
   */
  function ReplicateAll(objs: Objects, faults: set<Fault>, items: seq<ConfigMap>, targets: seq<string>, v: string): (r: PassResult)
    ensures |r.entries| == |items|
    ensures forall i :: 0 <= i < |items| ==>
      r.entries[i].name == items[i].name && r.entries[i].sourceNamespace == items[i].namespace
      && (forall t :: t in r.entries[i].targets ==> t in targets)
    ensures forall k: ObjectKey :: k.namespace !in targets || k.name !in ListedNames(items) ==> Agree(objs, r.objects, k)
    decreases |items|
  {
    if items == [] then PassResult(objs, [])
    else
      var n := |items| - 1;
      var prev := ReplicateAll(objs, faults, items[..n], targets, v);
      var f := ReplicateTargets(prev.objects, faults, items[n], targets, v);
      assert forall i :: 0 <= i < n ==> items[..n][i] == items[i];
      assert ListedNames(items[..n]) <= ListedNames(items) by {
        forall x | x in ListedNames(items[..n]) ensures x in ListedNames(items) {
          var i :| 0 <= i < n && items[..n][i].name == x;
          assert items[i].name == x;
        }
      }
      assert items[n].name in ListedNames(items);
      PassResult(f.objects, prev.entries + [ReplicatedConfigMap(items[n].name, items[n].namespace, Select(targets, f.mask))])
  }

  lemma PrefixNames(items: seq<ConfigMap>, n: nat)
    requires n <= |items|
    ensures ListedNames(items[..n]) <= ListedNames(items)
    ensures forall x :: x in ListedNames(items[..n]) ==> exists i :: 0 <= i < n && items[i].name == x
  {
    forall x | x in ListedNames(items[..n]) ensures x in ListedNames(items) && exists i :: 0 <= i < n && items[i].name == x {
      var i :| 0 <= i < n && items[..n][i].name == x;
      assert items[i].name == x;
    }
  }

  /** Each target named in an entry holds an up-to-date replica of the entry's ConfigMap. */
  ghost predicate ReplicasHeld(objs: Objects, entries: seq<ReplicatedConfigMap>, items: seq<ConfigMap>, v: string)
    requires |entries| == |items|
  {
    forall i, t :: 0 <= i < |items| && t in entries[i].targets ==> HoldsReplica(objs, t, items[i], v)
  }

  lemma {:induction false} PassReplicasHold(objs: Objects, faults: set<Fault>, items: seq<ConfigMap>, targets: seq<string>, v: string)
    requires DistinctNames(items)
    ensures ReplicasHeld(ReplicateAll(objs, faults, items, targets, v).objects, ReplicateAll(objs, faults, items, targets, v).entries, items, v)
    decreases |items|
  {
    if items != [] {
      var n := |items| - 1;
      assert DistinctNames(items[..n]);
      PassReplicasHold(objs, faults, items[..n], targets, v);
      var prev := ReplicateAll(objs, faults, items[..n], targets, v);
      var f := ReplicateTargets(prev.objects, faults, items[n], targets, v);
      var r := ReplicateAll(objs, faults, items, targets, v);
      assert r.objects == f.objects;
      assert ReplicasHeld(prev.objects, prev.entries, items[..n], v);
      forall i, t | 0 <= i < |items| && t in r.entries[i].targets ensures HoldsReplica(r.objects, t, items[i], v) {
        if i < n {
          assert r.entries[i] == prev.entries[i];
          assert items[..n][i] == items[i];
          assert t in prev.entries[i].targets;
          assert HoldsReplica(prev.objects, t, items[i], v);
          assert items[i].name != items[n].name;
          assert Agree(prev.objects, f.objects, ObjectKey(t, items[i].name));
        } else {
          SelectMembers(targets, f.mask, t);
        }
      }
    }
  }

  lemma SuccessMaskAgree(a: Objects, b: Objects, faults: set<Fault>, name: string, targets: seq<string>)
    requires forall t :: t in targets ==> Agree(a, b, ObjectKey(t, name))
    ensures SuccessMask(a, faults, name, targets) == SuccessMask(b, faults, name, targets)
  {
    forall j | 0 <= j < |targets| ensures Succeeds(a, faults, ObjectKey(targets[j], name)) == Succeeds(b, faults, ObjectKey(targets[j], name)) {
      assert Agree(a, b, ObjectKey(targets[j], name));
    }
  }

  /**
   * With distinct names and distinct targets, a ConfigMap's status entry lists, in the
   * order of the spec, exactly the targets whose API calls go through on the starting state.
   */
  lemma {:induction false} PassTargetsExact(objs: Objects, faults: set<Fault>, items: seq<ConfigMap>, targets: seq<string>, v: string)
    requires DistinctNames(items) && Distinct(targets)
    ensures var r := ReplicateAll(objs, faults, items, targets, v);
      forall i :: 0 <= i < |items| ==> r.entries[i].targets == Select(targets, SuccessMask(objs, faults, items[i].name, targets))
    decreases |items|
  {
    if items != [] {
      var n := |items| - 1;
      assert DistinctNames(items[..n]);
      PassTargetsExact(objs, faults, items[..n], targets, v);
      var prev := ReplicateAll(objs, faults, items[..n], targets, v);
      var f := ReplicateTargets(prev.objects, faults, items[n], targets, v);
      var r := ReplicateAll(objs, faults, items, targets, v);
      ReplicateTargetsExact(prev.objects, faults, items[n], targets, v);
      assert items[n].name !in ListedNames(items[..n]) by {
        PrefixNames(items, n);
      }
      SuccessMaskAgree(objs, prev.objects, faults, items[n].name, targets);
      forall i | 0 <= i < |items| ensures r.entries[i].targets == Select(targets, SuccessMask(objs, faults, items[i].name, targets)) {
        if i < n {
          assert r.entries[i] == prev.entries[i];
          assert items[..n][i] == items[i];
        }
      }
    }
  }

  /** deleteReplicatedConfigMap: the object goes only when it exists and carries our owner label. */
  function DeleteIfOwned(objs: Objects, faults: set<Fault>, key: ObjectKey, v: string): (r: Objects)
    ensures SubMap(r, objs)
    ensures forall k :: k != key ==> Agree(objs, r, k)
    ensures key in objs && key !in r <==>
      key in objs && OwnedBy(objs[key], v) && GetFails(key) !in faults && DeleteFails(key) !in faults
  {
    if GetFails(key) in faults || key !in objs then objs
    else if OwnedBy(objs[key], v) && DeleteFails(key) !in faults then objs - {key}
    else objs
  }

  /** The orphan loop for one name: an owner-checked delete in every target namespace. */
  function DeleteEverywhere(objs: Objects, faults: set<Fault>, name: string, targets: seq<string>, v: string): (r: Objects)
    ensures SubMap(r, objs)
    ensures forall k :: k in objs && k !in r ==> k.name == name && k.namespace in targets && OwnedBy(objs[k], v)
    ensures forall k :: (k in objs && k.name == name && k.namespace in targets && OwnedBy(objs[k], v)
                         && GetFails(k) !in faults && DeleteFails(k) !in faults) ==> k !in r
    decreases |targets|
  {
    if targets == [] then objs
    else
      var n := |targets| - 1;
      var prev := DeleteEverywhere(objs, faults, name, targets[..n], v);
      assert forall t :: t in targets[..n] ==> t in targets;
      assert forall t :: t in targets ==> t in targets[..n] || t == targets[n];
      DeleteIfOwned(prev, faults, ObjectKey(targets[n], name), v)
  }

  /**
   * The orphan cleanup of Reconcile: every ConfigMap recorded in the previous status
   * whose name is no longer listed is deleted, owner-checked, from every current target.
   */
  function RemoveOrphans(objs: Objects, faults: set<Fault>, previous: seq<ReplicatedConfigMap>, names: set<string>,
                         targets: seq<string>, v: string): (r: Objects)
    ensures SubMap(r, objs)
    ensures forall k :: k in objs && k !in r ==>
      k.namespace in targets && k.name !in names && k.name in TrackedNames(previous) && OwnedBy(objs[k], v)
    ensures forall k :: (k in objs && k.namespace in targets && k.name !in names && k.name in TrackedNames(previous)
                         && OwnedBy(objs[k], v) && GetFails(k) !in faults && DeleteFails(k) !in faults) ==> k !in r
    decreases |previous|
  {
    if previous == [] then objs
    else
      var n := |previous| - 1;
      var prev := RemoveOrphans(objs, faults, previous[..n], names, targets, v);
      assert TrackedNames(previous) == TrackedNames(previous[..n]) + {previous[n].name} by {
        forall x | x in TrackedNames(previous) ensures x in TrackedNames(previous[..n]) + {previous[n].name} {
          var i :| 0 <= i < |previous| && previous[i].name == x;
          if i < n { assert previous[..n][i] == previous[i]; }
        }
        forall x | x in TrackedNames(previous[..n]) ensures x in TrackedNames(previous) {
          var i :| 0 <= i < n && previous[..n][i].name == x;
          assert previous[i] == previous[..n][i];
        }
      }
      if previous[n].name in names then prev
      else DeleteEverywhere(prev, faults, previous[n].name, targets, v)
  }

  /** One more entry of the previous status extends the orphan cleanup by one step. */
  lemma RemoveOrphansStep(objs: Objects, faults: set<Fault>, previous: seq<ReplicatedConfigMap>, names: set<string>,
                          targets: seq<string>, v: string, n: nat)
    requires n < |previous|
    ensures var prev := RemoveOrphans(objs, faults, previous[..n], names, targets, v);
      RemoveOrphans(objs, faults, previous[..n + 1], names, targets, v)
        == if previous[n].name in names then prev else DeleteEverywhere(prev, faults, previous[n].name, targets, v)
  {
    assert previous[..n + 1][..n] == previous[..n];
  }

  /** What the replication loop writes is never taken back by the orphan cleanup of the same pass. */
  lemma PassKeepsReplicas(objs: Objects, faults: set<Fault>, items: seq<ConfigMap>, previous: seq<ReplicatedConfigMap>,
                          targets: seq<string>, v: string)
    requires DistinctNames(items)
    ensures var r := ReplicateAll(objs, faults, items, targets, v);
      ReplicasHeld(RemoveOrphans(r.objects, faults, previous, ListedNames(items), targets, v), r.entries, items, v)
  {
    var r := ReplicateAll(objs, faults, items, targets, v);
    var after := RemoveOrphans(r.objects, faults, previous, ListedNames(items), targets, v);
    PassReplicasHold(objs, faults, items, targets, v);
    assert ReplicasHeld(r.objects, r.entries, items, v);
    forall i, t | 0 <= i < |items| && t in r.entries[i].targets ensures HoldsReplica(after, t, items[i], v) {
      var key := ObjectKey(t, items[i].name);
      assert HoldsReplica(r.objects, t, items[i], v);
      assert items[i].name in ListedNames(items);
      assert key in after;
    }
  }

  /** The whole pass deletes nothing that is not ours, and touches nothing outside the target namespaces. */
  lemma PassSparesForeign(objs: Objects, faults: set<Fault>, items: seq<ConfigMap>, previous: seq<ReplicatedConfigMap>,
                          targets: seq<string>, v: string, k: ObjectKey)
    requires k in objs && (k.namespace !in targets || (!OwnedBy(objs[k], v) && k.name !in ListedNames(items)))
    ensures var r := ReplicateAll(objs, faults, items, targets, v);
      var after := RemoveOrphans(r.objects, faults, previous, ListedNames(items), targets, v);
      k in after && after[k] == objs[k]
  {
    var r := ReplicateAll(objs, faults, items, targets, v);
    assert Agree(objs, r.objects, k);
  }

  /**
   * The ConfigMaps that finalization removes: every ConfigMap in a target namespace
   * carrying this ConfigMirror's owner label, and nothing else.
   */
  ghost function Purged(objs: Objects, targets: seq<string>, v: string): (r: Objects)
    ensures SubMap(r, objs)
    ensures forall k :: k in objs ==> (k !in r <==> k.namespace in targets && OwnedBy(objs[k], v))
  {
    map k | k in objs && !(k.namespace in targets && OwnedBy(objs[k], v)) :: objs[k]
  }

  /** Some call that finalization must make will be refused. */
  ghost predicate PurgeBlocked(objs: Objects, faults: set<Fault>, targets: seq<string>, v: string) {
    (exists t :: t in targets && ListFails(t) in faults)
    || (exists k :: k in objs && k.namespace in targets && OwnedBy(objs[k], v) && DeleteFails(k) in faults)
  }

  /** `now` is `before` with some of the finalization deletions done. */
  ghost predicate PartlyPurged(now: Objects, before: Objects, targets: seq<string>, v: string) {
    SubMap(now, before)
    && forall k :: k in before && k !in now ==> k.namespace in targets && OwnedBy(before[k], v)
  }

  /** Finalizing twice removes no more than finalizing once. */
  lemma PurgedIdempotent(objs: Objects, targets: seq<string>, v: string)
    ensures Purged(Purged(objs, targets, v), targets, v) == Purged(objs, targets, v)
  {
    var once := Purged(objs, targets, v);
    assert Purged(once, targets, v).Keys == once.Keys;
  }

  /** Every key of the listed ConfigMaps as rows of this ConfigMirror. */
  function SavedKeys(items: seq<ConfigMap>, mirrorName: string, mirrorNamespace: string): set<Database.RowKey> {
    set i | 0 <= i < |items| :: Database.KeyFor(items[i], mirrorName, mirrorNamespace)
  }

  /** The database side of the replication loop: each listed ConfigMap saved in turn. */
  function SaveAll(t: Database.Table, pool: Database.PoolState, faults: set<Database.DbFault>, items: seq<ConfigMap>,
                   mirrorName: string, mirrorNamespace: string): (r: Database.Table)
    ensures r.present == t.present
    ensures t.rows.Keys <= r.rows.Keys
    ensures forall k :: k in r.rows && k !in SavedKeys(items, mirrorName, mirrorNamespace) ==> k in t.rows && r.rows[k] == t.rows[k]
    decreases |items|
  {
    if items == [] then t
    else
      var n := |items| - 1;
      var prev := SaveAll(t, pool, faults, items[..n], mirrorName, mirrorNamespace);
      assert SavedKeys(items[..n], mirrorName, mirrorNamespace) <= SavedKeys(items, mirrorName, mirrorNamespace) by {
        forall x | x in SavedKeys(items[..n], mirrorName, mirrorNamespace) ensures x in SavedKeys(items, mirrorName, mirrorNamespace) {
          var i :| 0 <= i < n && Database.KeyFor(items[..n][i], mirrorName, mirrorNamespace) == x;
          assert items[..n][i] == items[i];
        }
      }
      assert Database.KeyFor(items[n], mirrorName, mirrorNamespace) in SavedKeys(items, mirrorName, mirrorNamespace);
      Database.AfterSave(prev, pool, faults, Database.KeyFor(items[n], mirrorName, mirrorNamespace), items[n])
  }

  /** The row under `key` carries the contents of `cm`. */
  ghost predicate Stored(t: Database.Table, key: Database.RowKey, cm: ConfigMap) {
    key in t.rows && t.rows[key].data == cm.data && t.rows[key].labels == cm.labels
    && t.rows[key].annotations == cm.annotations
  }

  /** On a reachable table, each listed ConfigMap whose save goes through is stored with its contents. */
  lemma {:induction false} SaveAllStores(t: Database.Table, pool: Database.PoolState, faults: set<Database.DbFault>,
                                         items: seq<ConfigMap>, mirrorName: string, mirrorNamespace: string)
    requires Database.Reachable(pool, t) && DistinctNames(items)
    ensures forall i :: 0 <= i < |items| && Database.SaveFails(Database.KeyFor(items[i], mirrorName, mirrorNamespace)) !in faults ==>
      Stored(SaveAll(t, pool, faults, items, mirrorName, mirrorNamespace), Database.KeyFor(items[i], mirrorName, mirrorNamespace), items[i])
    decreases |items|
  {
    if items != [] {
      var n := |items| - 1;
      assert DistinctNames(items[..n]);
      SaveAllStores(t, pool, faults, items[..n], mirrorName, mirrorNamespace);
      var prev := SaveAll(t, pool, faults, items[..n], mirrorName, mirrorNamespace);
      var r := SaveAll(t, pool, faults, items, mirrorName, mirrorNamespace);
      var last := Database.KeyFor(items[n], mirrorName, mirrorNamespace);
      assert r == Database.AfterSave(prev, pool, faults, last, items[n]);
      assert Database.Reachable(pool, prev);
      forall i | 0 <= i < |items| && Database.SaveFails(Database.KeyFor(items[i], mirrorName, mirrorNamespace)) !in faults
        ensures Stored(r, Database.KeyFor(items[i], mirrorName, mirrorNamespace), items[i])
      {
        if i < n {
          assert items[..n][i] == items[i];
          assert Stored(prev, Database.KeyFor(items[i], mirrorName, mirrorNamespace), items[i]);
          assert Database.KeyFor(items[i], mirrorName, mirrorNamespace) != last;
        }
      }
    }
  }

  /** The row keys of the previously recorded ConfigMaps, as DeleteConfigMap is called with them. */
  function TrackedRowKeys(previous: seq<ReplicatedConfigMap>, mirrorName: string, mirrorNamespace: string): set<Database.RowKey> {
    set i | 0 <= i < |previous| :: Database.RowKey(previous[i].name, previous[i].sourceNamespace, mirrorNamespace, mirrorName)
  }

  /** The database side of the orphan cleanup: the row of each orphan deleted. */
  function DeleteOrphanRows(t: Database.Table, pool: Database.PoolState, faults: set<Database.DbFault>,
                            previous: seq<ReplicatedConfigMap>, names: set<string>,
                            mirrorName: string, mirrorNamespace: string): (r: Database.Table)
    ensures r.present == t.present && r.nextCreated == t.nextCreated
    ensures SubMap(r.rows, t.rows)
    ensures forall k :: k in t.rows && k !in r.rows ==>
      k.name !in names && k in TrackedRowKeys(previous, mirrorName, mirrorNamespace)
    ensures Database.Reachable(pool, t) ==>
      forall i :: 0 <= i < |previous| && previous[i].name !in names
        && Database.DeleteFails(Database.RowKey(previous[i].name, previous[i].sourceNamespace, mirrorNamespace, mirrorName)) !in faults
        ==> Database.RowKey(previous[i].name, previous[i].sourceNamespace, mirrorNamespace, mirrorName) !in r.rows
    decreases |previous|
  {
    if previous == [] then t
    else
      var n := |previous| - 1;
      var prev := DeleteOrphanRows(t, pool, faults, previous[..n], names, mirrorName, mirrorNamespace);
      assert forall i :: 0 <= i < n ==> previous[..n][i] == previous[i];
      assert TrackedRowKeys(previous[..n], mirrorName, mirrorNamespace) <= TrackedRowKeys(previous, mirrorName, mirrorNamespace) by {
        forall x | x in TrackedRowKeys(previous[..n], mirrorName, mirrorNamespace)
          ensures x in TrackedRowKeys(previous, mirrorName, mirrorNamespace)
        {
          var i :| 0 <= i < n && Database.RowKey(previous[..n][i].name, previous[..n][i].sourceNamespace, mirrorNamespace, mirrorName) == x;
          assert previous[..n][i] == previous[i];
        }
      }
      var key := Database.RowKey(previous[n].name, previous[n].sourceNamespace, mirrorNamespace, mirrorName);
      assert key in TrackedRowKeys(previous, mirrorName, mirrorNamespace);
      if previous[n].name in names then prev
      else Database.AfterDelete(prev, pool, faults, key)
  }

  /** The ConfigMaps after a completed pass of Reconcile over the listed `items`: replication, then orphan cleanup. */
  function PassObjects(objs: Objects, faults: set<Fault>, items: seq<ConfigMap>, m: ConfigMirror): Objects {
    var targets := m.spec.targetNamespaces;
    RemoveOrphans(ReplicateAll(objs, faults, items, targets, OwnerOf(m)).objects, faults,
                  m.status.replicatedConfigMaps, ListedNames(items), targets, OwnerOf(m))
  }

  /** The status entries a completed pass records. */
  function PassEntries(objs: Objects, faults: set<Fault>, items: seq<ConfigMap>, m: ConfigMirror): seq<ReplicatedConfigMap> {
    ReplicateAll(objs, faults, items, m.spec.targetNamespaces, OwnerOf(m)).entries
  }

  /** The database table after a completed pass with persistence on: saves, then orphan rows deleted. */
  function PassRows(t: Database.Table, pool: Database.PoolState, faults: set<Database.DbFault>,
                    items: seq<ConfigMap>, m: ConfigMirror): Database.Table {
    DeleteOrphanRows(SaveAll(t, pool, faults, items, m.metadata.name, m.metadata.namespace), pool, faults,
                     m.status.replicatedConfigMaps, ListedNames(items), m.metadata.name, m.metadata.namespace)
  }

  // The idempotence of a pass: with nothing changed in between, a second pass over the
  // same listing writes no ConfigMap and no row.

  /**
   * Replicating `source` into `ns` again would change nothing: either a call it makes
   * is refused, or the ConfigMap there already is what the update path would write.
   */
  ghost predicate Settled(objs: Objects, faults: set<Fault>, source: ConfigMap, ns: string, v: string) {
    var key := ObjectKey(ns, source.name);
    !Succeeds(objs, faults, key) || (key in objs && Refreshed(objs[key], source, v) == objs[key])
  }

  lemma SettledUnchanged(objs: Objects, faults: set<Fault>, source: ConfigMap, ns: string, v: string)
    requires Settled(objs, faults, source, ns, v)
    ensures ReplicateOnce(objs, faults, source, ns, v).objects == objs
  {
    var key := ObjectKey(ns, source.name);
    if Succeeds(objs, faults, key) {
      assert objs[key := objs[key]] == objs;
    }
  }

  lemma SettledAfterReplicateOnce(objs: Objects, faults: set<Fault>, source: ConfigMap, ns: string, v: string)
    ensures Settled(ReplicateOnce(objs, faults, source, ns, v).objects, faults, source, ns, v)
  {
    var key := ObjectKey(ns, source.name);
    var r := ReplicateOnce(objs, faults, source, ns, v);
    if r.ok {
      var c := r.objects[key];
      assert OwnerLabel in c.labels && c.labels[OwnerLabel] == v;
      assert c.labels[OwnerLabel := v] == c.labels;
    }
  }

  /** Whether replicating into `ns` would change anything depends only on that one key. */
  lemma SettledAgree(a: Objects, b: Objects, faults: set<Fault>, source: ConfigMap, ns: string, v: string)
    requires Agree(a, b, ObjectKey(ns, source.name)) && Settled(a, faults, source, ns, v)
    ensures Settled(b, faults, source, ns, v)
  {
  }

  /** Replicating into another namespace keeps `ns` settled. */
  lemma SettledElsewhere(objs: Objects, faults: set<Fault>, source: ConfigMap, ns: string, ns': string, v: string)
    requires ns != ns' && Settled(objs, faults, source, ns, v)
    ensures Settled(ReplicateOnce(objs, faults, source, ns', v).objects, faults, source, ns, v)
  {
    SettledAgree(objs, ReplicateOnce(objs, faults, source, ns', v).objects, faults, source, ns, v);
  }

  /** replicateConfigMap twice in a row is replicateConfigMap once. */
  lemma ReplicateOnceIdempotent(objs: Objects, faults: set<Fault>, source: ConfigMap, ns: string, v: string)
    ensures var once := ReplicateOnce(objs, faults, source, ns, v).objects;
      ReplicateOnce(once, faults, source, ns, v).objects == once
  {
    SettledAfterReplicateOnce(objs, faults, source, ns, v);
    SettledUnchanged(ReplicateOnce(objs, faults, source, ns, v).objects, faults, source, ns, v);
  }

  /** After the fan-out, replicating into any of its targets again would change nothing. */
  lemma {:induction false} ReplicateTargetsSettles(objs: Objects, faults: set<Fault>, source: ConfigMap, targets: seq<string>, v: string)
    ensures forall t :: t in targets ==> Settled(ReplicateTargets(objs, faults, source, targets, v).objects, faults, source, t, v)
    decreases |targets|
  {
    if targets != [] {
      var n := |targets| - 1;
      ReplicateTargetsSettles(objs, faults, source, targets[..n], v);
      var prev := ReplicateTargets(objs, faults, source, targets[..n], v);
      assert ReplicateTargets(objs, faults, source, targets, v).objects
          == ReplicateOnce(prev.objects, faults, source, targets[n], v).objects;
      SettlesOneMore(prev.objects, faults, source, targets, v);
    }
  }

  /** Settled in the first targets, then replicated into the last one: settled in all of them. */
  lemma SettlesOneMore(objs: Objects, faults: set<Fault>, source: ConfigMap, targets: seq<string>, v: string)
    requires targets != []
    requires forall t :: t in targets[..|targets| - 1] ==> Settled(objs, faults, source, t, v)
    ensures forall t :: t in targets ==>
      Settled(ReplicateOnce(objs, faults, source, targets[|targets| - 1], v).objects, faults, source, t, v)
  {
    var n := |targets| - 1;
    SettledAfterReplicateOnce(objs, faults, source, targets[n], v);
    forall t | t in targets && t != targets[n]
      ensures Settled(ReplicateOnce(objs, faults, source, targets[n], v).objects, faults, source, t, v)
    {
      var i :| 0 <= i < |targets| && targets[i] == t;
      assert targets[..n][i] == t;
      SettledElsewhere(objs, faults, source, t, targets[n], v);
    }
  }

  /** A fan-out over targets that are all settled changes nothing. */
  lemma {:induction false} ReplicateTargetsOnSettled(objs: Objects, faults: set<Fault>, source: ConfigMap, targets: seq<string>, v: string)
    requires forall t :: t in targets ==> Settled(objs, faults, source, t, v)
    ensures ReplicateTargets(objs, faults, source, targets, v).objects == objs
    decreases |targets|
  {
    if targets != [] {
      var n := |targets| - 1;
      assert forall t :: t in targets[..n] ==> t in targets;
      ReplicateTargetsOnSettled(objs, faults, source, targets[..n], v);
      SettledUnchanged(objs, faults, source, targets[n], v);
    }
  }

  /** Replicating one ConfigMap into its targets a second time changes no ConfigMap. */
  lemma ReplicateTargetsIdempotent(objs: Objects, faults: set<Fault>, source: ConfigMap, targets: seq<string>, v: string)
    ensures var once := ReplicateTargets(objs, faults, source, targets, v).objects;
      ReplicateTargets(once, faults, source, targets, v).objects == once
  {
    ReplicateTargetsSettles(objs, faults, source, targets, v);
    ReplicateTargetsOnSettled(ReplicateTargets(objs, faults, source, targets, v).objects, faults, source, targets, v);
  }

  /** Every listed ConfigMap is settled in every target. */
  ghost predicate AllSettled(objs: Objects, faults: set<Fault>, items: seq<ConfigMap>, targets: seq<string>, v: string) {
    forall i, t :: 0 <= i < |items| && t in targets ==> Settled(objs, faults, items[i], t, v)
  }

  lemma {:induction false} ReplicateAllSettles(objs: Objects, faults: set<Fault>, items: seq<ConfigMap>, targets: seq<string>, v: string)
    requires DistinctNames(items)
    ensures AllSettled(ReplicateAll(objs, faults, items, targets, v).objects, faults, items, targets, v)
    decreases |items|
  {
    if items != [] {
      var n := |items| - 1;
      assert DistinctNames(items[..n]);
      ReplicateAllSettles(objs, faults, items[..n], targets, v);
      var prev := ReplicateAll(objs, faults, items[..n], targets, v);
      var f := ReplicateTargets(prev.objects, faults, items[n], targets, v);
      assert ReplicateAll(objs, faults, items, targets, v).objects == f.objects;
      ReplicateTargetsSettles(prev.objects, faults, items[n], targets, v);
      forall i, t | 0 <= i < |items| && t in targets ensures Settled(f.objects, faults, items[i], t, v) {
        if i < n {
          assert items[..n][i] == items[i];
          assert Settled(prev.objects, faults, items[i], t, v);
          assert items[i].name != items[n].name;
          SettledAgree(prev.objects, f.objects, faults, items[i], t, v);
        }
      }
    }
  }

  lemma {:induction false} ReplicateAllOnSettled(objs: Objects, faults: set<Fault>, items: seq<ConfigMap>, targets: seq<string>, v: string)
    requires AllSettled(objs, faults, items, targets, v)
    ensures ReplicateAll(objs, faults, items, targets, v).objects == objs
    decreases |items|
  {
    if items != [] {
      var n := |items| - 1;
      assert AllSettled(objs, faults, items[..n], targets, v) by {
        forall i, t | 0 <= i < n && t in targets ensures Settled(objs, faults, items[..n][i], t, v) {
          assert items[..n][i] == items[i];
        }
      }
      ReplicateAllOnSettled(objs, faults, items[..n], targets, v);
      assert forall t :: t in targets ==> Settled(objs, faults, items[n], t, v);
      ReplicateTargetsOnSettled(objs, faults, items[n], targets, v);
    }
  }

  /** The replication loop run twice over a listing with distinct names changes no ConfigMap the second time. */
  lemma ReplicateAllIdempotent(objs: Objects, faults: set<Fault>, items: seq<ConfigMap>, targets: seq<string>, v: string)
    requires DistinctNames(items)
    ensures var once := ReplicateAll(objs, faults, items, targets, v).objects;
      ReplicateAll(once, faults, items, targets, v).objects == once
  {
    ReplicateAllSettles(objs, faults, items, targets, v);
    ReplicateAllOnSettled(ReplicateAll(objs, faults, items, targets, v).objects, faults, items, targets, v);
  }

  /** The entries a pass records name exactly the listed ConfigMaps. */
  lemma PassEntriesNames(objs: Objects, faults: set<Fault>, items: seq<ConfigMap>, m: ConfigMirror)
    ensures TrackedNames(PassEntries(objs, faults, items, m)) == ListedNames(items)
  {
    var entries := PassEntries(objs, faults, items, m);
    forall x | x in TrackedNames(entries) ensures x in ListedNames(items) {
      var i :| 0 <= i < |entries| && entries[i].name == x;
      assert items[i].name == x;
    }
    forall x | x in ListedNames(items) ensures x in TrackedNames(entries) {
      var i :| 0 <= i < |items| && items[i].name == x;
      assert entries[i].name == x;
    }
  }

  /** With every tracked name still listed, the orphan cleanup deletes nothing. */
  lemma RemoveOrphansNoneTracked(objs: Objects, faults: set<Fault>, previous: seq<ReplicatedConfigMap>, names: set<string>,
                                 targets: seq<string>, v: string)
    requires TrackedNames(previous) <= names
    ensures RemoveOrphans(objs, faults, previous, names, targets, v) == objs
  {
    var r := RemoveOrphans(objs, faults, previous, names, targets, v);
    assert r.Keys == objs.Keys;
  }

  /**
   * The idempotence invariant for the ConfigMaps: a second pass over the same listing,
   * by the ConfigMirror as the first pass recorded it, changes no ConfigMap.
   */
  lemma PassObjectsIdempotent(objs: Objects, faults: set<Fault>, items: seq<ConfigMap>, m: ConfigMirror, recorded: ConfigMirror)
    requires DistinctNames(items)
    requires recorded.metadata == m.metadata && recorded.spec == m.spec
    requires recorded.status.replicatedConfigMaps == PassEntries(objs, faults, items, m)
    ensures var once := PassObjects(objs, faults, items, m);
      PassObjects(once, faults, items, recorded) == once
  {
    var targets := m.spec.targetNamespaces;
    var v := OwnerOf(m);
    var names := ListedNames(items);
    var r := ReplicateAll(objs, faults, items, targets, v);
    var once := PassObjects(objs, faults, items, m);
    assert once == RemoveOrphans(r.objects, faults, m.status.replicatedConfigMaps, names, targets, v);
    ReplicateAllSettles(objs, faults, items, targets, v);
    assert AllSettled(once, faults, items, targets, v) by {
      forall i, t | 0 <= i < |items| && t in targets ensures Settled(once, faults, items[i], t, v) {
        assert items[i].name in names;
        SettledAgree(r.objects, once, faults, items[i], t, v);
      }
    }
    ReplicateAllOnSettled(once, faults, items, targets, v);
    PassEntriesNames(objs, faults, items, m);
    RemoveOrphansNoneTracked(once, faults, r.entries, names, targets, v);
  }

  /** Saving `cm` under `key` again would change nothing: the statement is refused, or the row already holds `cm`. */
  ghost predicate RowSettled(t: Database.Table, pool: Database.PoolState, faults: set<Database.DbFault>,
                             key: Database.RowKey, cm: ConfigMap) {
    !(Database.Reachable(pool, t) && Database.SaveFails(key) !in faults) || Stored(t, key, cm)
  }

  lemma RowSettledUnchanged(t: Database.Table, pool: Database.PoolState, faults: set<Database.DbFault>,
                            key: Database.RowKey, cm: ConfigMap)
    requires RowSettled(t, pool, faults, key, cm)
    ensures Database.AfterSave(t, pool, faults, key, cm) == t
  {
    if Database.Reachable(pool, t) && Database.SaveFails(key) !in faults {
      assert t.rows[key] == Database.Row(cm.data, cm.labels, cm.annotations, t.rows[key].created);
      assert t.rows[key := t.rows[key]] == t.rows;
    }
  }

  /** Whether saving again would change anything depends only on reachability and that one row. */
  lemma RowSettledAgree(a: Database.Table, b: Database.Table, pool: Database.PoolState, faults: set<Database.DbFault>,
                        key: Database.RowKey, cm: ConfigMap)
    requires a.present == b.present && (key in a.rows <==> key in b.rows) && (key in a.rows ==> a.rows[key] == b.rows[key])
    requires RowSettled(a, pool, faults, key, cm)
    ensures RowSettled(b, pool, faults, key, cm)
  {
  }

  lemma {:induction false} SaveAllSettles(t: Database.Table, pool: Database.PoolState, faults: set<Database.DbFault>,
                                          items: seq<ConfigMap>, mirrorName: string, mirrorNamespace: string)
    requires DistinctNames(items)
    ensures forall i :: 0 <= i < |items| ==>
      RowSettled(SaveAll(t, pool, faults, items, mirrorName, mirrorNamespace), pool, faults,
                 Database.KeyFor(items[i], mirrorName, mirrorNamespace), items[i])
    decreases |items|
  {
    if items != [] {
      var n := |items| - 1;
      assert DistinctNames(items[..n]);
      SaveAllSettles(t, pool, faults, items[..n], mirrorName, mirrorNamespace);
      var prev := SaveAll(t, pool, faults, items[..n], mirrorName, mirrorNamespace);
      var last := Database.KeyFor(items[n], mirrorName, mirrorNamespace);
      var r := Database.AfterSave(prev, pool, faults, last, items[n]);
      assert SaveAll(t, pool, faults, items, mirrorName, mirrorNamespace) == r;
      forall i | 0 <= i < |items|
        ensures RowSettled(r, pool, faults, Database.KeyFor(items[i], mirrorName, mirrorNamespace), items[i])
      {
        var key := Database.KeyFor(items[i], mirrorName, mirrorNamespace);
        if i < n {
          assert items[..n][i] == items[i];
          assert key != last;
          RowSettledAgree(prev, r, pool, faults, key, items[i]);
        }
      }
    }
  }

  lemma {:induction false} SaveAllOnSettled(t: Database.Table, pool: Database.PoolState, faults: set<Database.DbFault>,
                                            items: seq<ConfigMap>, mirrorName: string, mirrorNamespace: string)
    requires forall i :: 0 <= i < |items| ==>
      RowSettled(t, pool, faults, Database.KeyFor(items[i], mirrorName, mirrorNamespace), items[i])
    ensures SaveAll(t, pool, faults, items, mirrorName, mirrorNamespace) == t
    decreases |items|
  {
    if items != [] {
      var n := |items| - 1;
      var last := Database.KeyFor(items[n], mirrorName, mirrorNamespace);
      forall i | 0 <= i < n
        ensures RowSettled(t, pool, faults, Database.KeyFor(items[..n][i], mirrorName, mirrorNamespace), items[..n][i])
      {
        assert items[..n][i] == items[i];
      }
      SaveAllOnSettled(t, pool, faults, items[..n], mirrorName, mirrorNamespace);
      RowSettledUnchanged(t, pool, faults, last, items[n]);
      assert SaveAll(t, pool, faults, items, mirrorName, mirrorNamespace)
          == Database.AfterSave(SaveAll(t, pool, faults, items[..n], mirrorName, mirrorNamespace), pool, faults, last, items[n]);
    }
  }

  /** With every tracked name still listed, no orphan row is deleted. */
  lemma DeleteOrphanRowsNoneTracked(t: Database.Table, pool: Database.PoolState, faults: set<Database.DbFault>,
                                    previous: seq<ReplicatedConfigMap>, names: set<string>,
                                    mirrorName: string, mirrorNamespace: string)
    requires TrackedNames(previous) <= names
    ensures DeleteOrphanRows(t, pool, faults, previous, names, mirrorName, mirrorNamespace) == t
  {
    var r := DeleteOrphanRows(t, pool, faults, previous, names, mirrorName, mirrorNamespace);
    assert r.rows.Keys == t.rows.Keys;
  }

  /**
   * The idempotence invariant for the rows: a second pass over the same listing, by the
   * ConfigMirror as the first pass recorded it, writes no row.
   */
  lemma PassRowsIdempotent(t: Database.Table, pool: Database.PoolState, faults: set<Database.DbFault>,
                           objs: Objects, objectFaults: set<Fault>, items: seq<ConfigMap>, m: ConfigMirror, recorded: ConfigMirror)
    requires DistinctNames(items)
    requires recorded.metadata == m.metadata
    requires recorded.status.replicatedConfigMaps == PassEntries(objs, objectFaults, items, m)
    ensures var once := PassRows(t, pool, faults, items, m);
      PassRows(once, pool, faults, items, recorded) == once
  {
    var mn := m.metadata.name;
    var mns := m.metadata.namespace;
    var names := ListedNames(items);
    var saved := SaveAll(t, pool, faults, items, mn, mns);
    var once := PassRows(t, pool, faults, items, m);
    assert once == DeleteOrphanRows(saved, pool, faults, m.status.replicatedConfigMaps, names, mn, mns);
    SaveAllSettles(t, pool, faults, items, mn, mns);
    forall i | 0 <= i < |items| ensures RowSettled(once, pool, faults, Database.KeyFor(items[i], mn, mns), items[i]) {
      assert items[i].name in names;
      RowSettledAgree(saved, once, pool, faults, Database.KeyFor(items[i], mn, mns), items[i]);
    }
    SaveAllOnSettled(once, pool, faults, items, mn, mns);
    PassEntriesNames(objs, objectFaults, items, m);
    DeleteOrphanRowsNoneTracked(once, pool, faults, recorded.status.replicatedConfigMaps, names, mn, mns);
  }
}
