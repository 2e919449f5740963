/**
 * The PostgreSQL client that keeps a copy of every mirrored ConfigMap. The
 * `configmaps` table is modelled as a map from its unique key
 * (name, namespace, configmirror_namespace, configmirror_name) to the stored columns;
 * `created` stands for `created_at`, a counter that only grows, so that
 * "ORDER BY created_at DESC" has a meaning without clocks. Which statements the
 * server refuses is fixed by an injected set of faults.
 */
module Database {
  import opened Wrappers
  import opened Selectors
  import ObjectStore

  datatype RowKey = RowKey(name: string, namespace: string, mirrorNamespace: string, mirrorName: string)

  datatype Row = Row(data: map<string, string>, labels: Labels, annotations: map<string, string>, created: nat)

  /** `present` is whether the table has been created at all. */
  datatype Table = Table(present: bool, rows: map<RowKey, Row>, nextCreated: nat)

  datatype ConfigMapRecord = ConfigMapRecord(
    name: string,
    namespace: string,
    data: map<string, string>,
    labels: Labels,
    annotations: map<string, string>,
    configMirrorName: string,
    configMirrorNamespace: string)

  /**
   * `NoRows` is pgx.ErrNoRows, returned as is; `Failed` is a driver error wrapped
   * with the context the client adds; `DriverError` is a driver error returned unwrapped.
   */
  datatype DbError = NoRows | Failed(context: string) | DriverError

  datatype DbFault =
    | SchemaFails
    | SaveFails(key: RowKey)
    | DeleteFails(key: RowKey)
    | QueryFails
    | ScanFails(key: RowKey)
    | IterationFails
    | PingFails

  /** The pool behind the client: never set, open, or closed by `Close`. */
  datatype PoolState = NilPool | Open | Closed

  const SchemaFailure := "failed to initialize schema"
  const SaveFailure := "failed to save ConfigMap"
  const DeleteFailure := "failed to delete ConfigMap"
  const QueryFailure := "failed to query ConfigMaps"
  const ScanFailure := "failed to scan ConfigMap row"
  const IterationFailure := "error iterating ConfigMap rows"

  /** A missing table has no rows, creation stamps lie below the counter and no two rows share one. */
  ghost predicate WellFormed(t: Table) {
    && (!t.present ==> t.rows == map[])
    && (forall k :: k in t.rows ==> t.rows[k].created < t.nextCreated)
    && (forall k1, k2 :: k1 in t.rows && k2 in t.rows && t.rows[k1].created == t.rows[k2].created ==> k1 == k2)
  }

  /** A statement touching the table can go through only on an open pool with the table in place. */
  predicate Reachable(pool: PoolState, t: Table) {
    pool == Open && t.present
  }

  function KeyFor(cm: ObjectStore.ConfigMap, mirrorName: string, mirrorNamespace: string): RowKey {
    RowKey(cm.name, cm.namespace, mirrorNamespace, mirrorName)
  }

  function RecordOf(k: RowKey, row: Row): (r: ConfigMapRecord)
    ensures r.name == k.name && r.namespace == k.namespace
    ensures r.data == row.data && r.labels == row.labels && r.annotations == row.annotations
    ensures r.configMirrorName == k.mirrorName && r.configMirrorNamespace == k.mirrorNamespace
    ensures KeyFor(ObjectStore.ConfigMap(r.name, r.namespace, r.labels, r.annotations, r.data, map[]),
                   r.configMirrorName, r.configMirrorNamespace) == k
  {
    ConfigMapRecord(k.name, k.namespace, row.data, row.labels, row.annotations, k.mirrorName, k.mirrorNamespace)
  }

  /** CREATE TABLE IF NOT EXISTS: an existing table and its rows are left alone. */
  function CreateIfAbsent(t: Table): (r: Table)
    ensures r.present
    ensures r.rows == t.rows && r.nextCreated == t.nextCreated
  {
    t.(present := true)
  }

  /**
   * INSERT … ON CONFLICT DO UPDATE: a new key gets a fresh creation stamp; an
   * existing one keeps its stamp and has data, labels and annotations replaced.
   */
  function Upsert(t: Table, key: RowKey, cm: ObjectStore.ConfigMap): (r: Table)
    ensures r.present == t.present
    ensures r.rows.Keys == t.rows.Keys + {key}
    ensures r.rows[key].data == cm.data && r.rows[key].labels == cm.labels && r.rows[key].annotations == cm.annotations
    ensures key in t.rows ==> r.rows[key].created == t.rows[key].created && r.nextCreated == t.nextCreated
    ensures key !in t.rows ==> r.rows[key].created == t.nextCreated && r.nextCreated == t.nextCreated + 1
    ensures forall k :: k in t.rows && k != key ==> r.rows[k] == t.rows[k]
  {
    if key in t.rows then
      t.(rows := t.rows[key := Row(cm.data, cm.labels, cm.annotations, t.rows[key].created)])
    else
      t.(rows := t.rows[key := Row(cm.data, cm.labels, cm.annotations, t.nextCreated)], nextCreated := t.nextCreated + 1)
  }

  /**
   * The table after SaveConfigMap: the upsert, or nothing when the statement fails.
   * A definition in closed form; its postconditions spell out the two cases.
   */
  function AfterSave(t: Table, pool: PoolState, faults: set<DbFault>, key: RowKey, cm: ObjectStore.ConfigMap): (r: Table)
    ensures Reachable(pool, t) && SaveFails(key) !in faults ==> r == Upsert(t, key, cm)
    ensures !Reachable(pool, t) || SaveFails(key) in faults ==> r == t
  {
    if Reachable(pool, t) && SaveFails(key) !in faults then Upsert(t, key, cm) else t
  }

  /** The table after DeleteConfigMap: the row with exactly that key is gone, if the statement runs. */
  function AfterDelete(t: Table, pool: PoolState, faults: set<DbFault>, key: RowKey): (r: Table)
    ensures r.present == t.present && r.nextCreated == t.nextCreated
    ensures Reachable(pool, t) && DeleteFails(key) !in faults ==> r.rows == t.rows - {key}
    ensures !Reachable(pool, t) || DeleteFails(key) in faults ==> r == t
  {
    if Reachable(pool, t) && DeleteFails(key) !in faults then t.(rows := t.rows - {key}) else t
  }

  /** The rows that belong to one ConfigMirror. */
  ghost function OwnedRows(t: Table, mirrorName: string, mirrorNamespace: string): set<RowKey> {
    set k | k in t.rows && k.mirrorName == mirrorName && k.mirrorNamespace == mirrorNamespace
  }

  /** `order` lists exactly the keys of `s`, newest first. */
  ghost predicate NewestFirst(order: seq<RowKey>, rows: map<RowKey, Row>, s: set<RowKey>) {
    && (forall i :: 0 <= i < |order| ==> order[i] in s && order[i] in rows)
    && (forall k :: k in s ==> k in order)
    && (forall i, j :: 0 <= i < j < |order| ==> rows[order[i]].created > rows[order[j]].created)
  }

  /** The head of a newest-first listing is strictly newer than every other key of the set. */
  lemma NewestFirstHead(o: seq<RowKey>, rows: map<RowKey, Row>, s: set<RowKey>)
    requires NewestFirst(o, rows, s) && o != []
    ensures forall k :: k in s && k != o[0] ==> rows[k].created < rows[o[0]].created
  {
    forall k | k in s && k != o[0] ensures rows[k].created < rows[o[0]].created {
      var a :| 0 <= a < |o| && o[a] == k;
    }
  }

  /** Dropping the head of a newest-first listing lists the rest of the set. */
  lemma NewestFirstTail(o: seq<RowKey>, rows: map<RowKey, Row>, s: set<RowKey>)
    requires NewestFirst(o, rows, s) && o != []
    ensures NewestFirst(o[1..], rows, s - {o[0]})
  {
    forall k | k in s - {o[0]} ensures k in o[1..] {
      var a :| 0 <= a < |o| && o[a] == k;
      assert o[1..][a - 1] == k;
    }
    forall x | 0 <= x < |o[1..]| ensures o[1..][x] in s - {o[0]} {
      assert rows[o[0]].created > rows[o[x + 1]].created;
    }
    forall a, b | 0 <= a < b < |o[1..]| ensures rows[o[1..][a]].created > rows[o[1..][b]].created {
      assert o[1..][a] == o[a + 1] && o[1..][b] == o[b + 1];
    }
  }

  /** Ordering by creation leaves no choice: there is only one newest-first listing of a set of rows. */
  lemma {:induction false} NewestFirstUnique(o1: seq<RowKey>, o2: seq<RowKey>, rows: map<RowKey, Row>, s: set<RowKey>)
    requires NewestFirst(o1, rows, s) && NewestFirst(o2, rows, s)
    ensures o1 == o2
    decreases |o1|
  {
    assert o1 == [] <==> s == {} by { if o1 != [] { assert o1[0] in s; } }
    assert o2 == [] <==> s == {} by { if o2 != [] { assert o2[0] in s; } }
    if o1 != [] && o2 != [] {
      NewestFirstHead(o1, rows, s);
      NewestFirstHead(o2, rows, s);
      assert o1[0] in s && o2[0] in s;
      assert o1[0] == o2[0];
      NewestFirstTail(o1, rows, s);
      NewestFirstTail(o2, rows, s);
      NewestFirstUnique(o1[1..], o2[1..], rows, s - {o1[0]});
      assert o1 == [o1[0]] + o1[1..] && o2 == [o2[0]] + o2[1..];
    }
  }

  /** Running the schema statement again changes nothing: IF NOT EXISTS keeps the table and its rows. */
  lemma CreateIfAbsentIdempotent(t: Table)
    ensures CreateIfAbsent(CreateIfAbsent(t)) == CreateIfAbsent(t)
    ensures WellFormed(t) ==> WellFormed(CreateIfAbsent(t))
  {
  }

  /** Saving keeps the table well formed. */
  lemma UpsertWellFormed(t: Table, key: RowKey, cm: ObjectStore.ConfigMap)
    requires WellFormed(t) && t.present
    ensures WellFormed(Upsert(t, key, cm))
  {
    var r := Upsert(t, key, cm);
    forall k1, k2 | k1 in r.rows && k2 in r.rows && r.rows[k1].created == r.rows[k2].created
      ensures k1 == k2
    {
      if k1 != key && k2 != key {
        assert r.rows[k1] == t.rows[k1] && r.rows[k2] == t.rows[k2];
      }
    }
  }

  /** Saving the same ConfigMap twice leaves the table as saving it once. */
  lemma UpsertIdempotent(t: Table, key: RowKey, cm: ObjectStore.ConfigMap)
    ensures Upsert(Upsert(t, key, cm), key, cm) == Upsert(t, key, cm)
  {
    var once := Upsert(t, key, cm);
    assert once.rows[key := Row(cm.data, cm.labels, cm.annotations, once.rows[key].created)] == once.rows;
  }

  /**
   * A ConfigMap saved for the first time is the newest row of its ConfigMirror:
   * it comes first in the listing, carrying what was saved.
   */
  lemma {:induction false} NewRowListedFirst(t: Table, cm: ObjectStore.ConfigMap, mirrorName: string, mirrorNamespace: string, order: seq<RowKey>)
    requires WellFormed(t) && t.present
    requires KeyFor(cm, mirrorName, mirrorNamespace) !in t.rows
    requires NewestFirst(order, Upsert(t, KeyFor(cm, mirrorName, mirrorNamespace), cm).rows,
                         OwnedRows(Upsert(t, KeyFor(cm, mirrorName, mirrorNamespace), cm), mirrorName, mirrorNamespace))
    ensures |order| > 0 && order[0] == KeyFor(cm, mirrorName, mirrorNamespace)
    ensures RecordOf(order[0], Upsert(t, order[0], cm).rows[order[0]]) ==
      ConfigMapRecord(cm.name, cm.namespace, cm.data, cm.labels, cm.annotations, mirrorName, mirrorNamespace)
  {
    var key := KeyFor(cm, mirrorName, mirrorNamespace);
    var r := Upsert(t, key, cm);
    assert key in OwnedRows(r, mirrorName, mirrorNamespace);
    assert key in order;
    NewestFirstHead(order, r.rows, OwnedRows(r, mirrorName, mirrorNamespace));
    assert order[0] in OwnedRows(r, mirrorName, mirrorNamespace);
  }

  /** Deleting a row right after saving it gives back the rows from before the save. */
  lemma DeleteUndoesInsert(t: Table, key: RowKey, cm: ObjectStore.ConfigMap)
    requires key !in t.rows
    ensures Upsert(t, key, cm).rows - {key} == t.rows
  {
    assert (Upsert(t, key, cm).rows - {key}).Keys == t.rows.Keys;
  }

  class Client {
    var pool: PoolState
    var table: Table
    const faults: set<DbFault>
    /** How often the pool has been asked to close. */
    ghost var closeCalls: nat

    ghost predicate Valid()
      reads this
    {
      WellFormed(table)
    }

    constructor (pool: PoolState, table: Table, faults: set<DbFault>)
      requires WellFormed(table)
      ensures Valid()
      ensures this.pool == pool && this.table == table && this.faults == faults && closeCalls == 0
    {
      this.pool := pool;
      this.table := table;
      this.faults := faults;
      closeCalls := 0;
    }

    /** A nil pool is left alone; otherwise the pool is closed. */
    method Close()
      modifies this
      ensures table == old(table)
      ensures old(pool) == NilPool ==> pool == NilPool && closeCalls == old(closeCalls)
      ensures old(pool) != NilPool ==> pool == Closed && closeCalls == old(closeCalls) + 1
    {
      if pool != NilPool {
        pool := Closed;
        closeCalls := closeCalls + 1;
      }
    }

    /** The pool's own health check; its error is returned unwrapped. */
    method Ping() returns (err: Option<DbError>)
      requires pool != NilPool
      ensures err.None? <==> pool == Open && PingFails !in faults
      ensures err.Some? ==> err.value == DriverError
    {
      if pool == Open && PingFails !in faults {
        return None;
      }
      return Some(DriverError);
    }

    method InitSchema() returns (err: Option<DbError>)
      requires Valid() && pool != NilPool
      modifies this
      ensures Valid() && pool == old(pool) && closeCalls == old(closeCalls)
      ensures err.None? <==> pool == Open && SchemaFails !in faults
      ensures err.None? ==> table == CreateIfAbsent(old(table))
      ensures err.Some? ==> err.value == Failed(SchemaFailure) && table == old(table)
    {
      if pool != Open || SchemaFails in faults {
        return Some(Failed(SchemaFailure));
      }
      table := CreateIfAbsent(table);
      return None;
    }

    method SaveConfigMap(cm: ObjectStore.ConfigMap, mirrorName: string, mirrorNamespace: string) returns (err: Option<DbError>)
      requires Valid() && pool != NilPool
      modifies this
      ensures Valid() && pool == old(pool) && closeCalls == old(closeCalls)
      ensures table == AfterSave(old(table), pool, faults, KeyFor(cm, mirrorName, mirrorNamespace), cm)
      ensures err.None? <==> Reachable(pool, old(table)) && SaveFails(KeyFor(cm, mirrorName, mirrorNamespace)) !in faults
      ensures err.Some? ==> err.value == Failed(SaveFailure)
    {
      var key := KeyFor(cm, mirrorName, mirrorNamespace);
      if !Reachable(pool, table) || SaveFails(key) in faults {
        return Some(Failed(SaveFailure));
      }
      UpsertWellFormed(table, key, cm);
      table := Upsert(table, key, cm);
      return None;
    }

    method DeleteConfigMap(name: string, namespace: string, mirrorName: string, mirrorNamespace: string)
      returns (err: Option<DbError>)
      requires Valid() && pool != NilPool
      modifies this
      ensures Valid() && pool == old(pool) && closeCalls == old(closeCalls)
      ensures var key := RowKey(name, namespace, mirrorNamespace, mirrorName);
        table == AfterDelete(old(table), pool, faults, key)
      ensures var key := RowKey(name, namespace, mirrorNamespace, mirrorName);
        (!Reachable(pool, old(table)) || DeleteFails(key) in faults) ==> err == Some(Failed(DeleteFailure))
      ensures var key := RowKey(name, namespace, mirrorNamespace, mirrorName);
        (Reachable(pool, old(table)) && DeleteFails(key) !in faults && key in old(table).rows) ==> err == None
      ensures var key := RowKey(name, namespace, mirrorNamespace, mirrorName);
        (Reachable(pool, old(table)) && DeleteFails(key) !in faults && key !in old(table).rows) ==> err == Some(NoRows)
    {
      var key := RowKey(name, namespace, mirrorNamespace, mirrorName);
      if !Reachable(pool, table) || DeleteFails(key) in faults {
        return Some(Failed(DeleteFailure));
      }
      var affected := key in table.rows;
      table := AfterDelete(table, pool, faults, key);
      if !affected {
        return Some(NoRows);
      }
      return None;
    }

    /** The SELECT with `ORDER BY created_at DESC`: the keys of one ConfigMirror's rows, newest first. */
    method QueryOwned(mirrorName: string, mirrorNamespace: string) returns (keys: seq<RowKey>)
      requires Valid()
      ensures NewestFirst(keys, table.rows, OwnedRows(table, mirrorName, mirrorNamespace))
    {
      ghost var s := OwnedRows(table, mirrorName, mirrorNamespace);
      keys := [];
      var c := table.nextCreated;
      while c > 0
        invariant c <= table.nextCreated
        invariant forall i :: 0 <= i < |keys| ==> keys[i] in s && keys[i] in table.rows && table.rows[keys[i]].created >= c
        invariant forall i, j :: 0 <= i < j < |keys| ==> table.rows[keys[i]].created > table.rows[keys[j]].created
        invariant forall k :: k in s && table.rows[k].created >= c ==> k in keys
      {
        c := c - 1;
        if exists k :: k in table.rows && k.mirrorName == mirrorName && k.mirrorNamespace == mirrorNamespace && table.rows[k].created == c {
          var k :| k in table.rows && k.mirrorName == mirrorName && k.mirrorNamespace == mirrorNamespace && table.rows[k].created == c;
          keys := keys + [k];
        }
      }
    }

    /**
     * GetConfigMaps: the rows of one ConfigMirror, newest first. `order` is the key
     * sequence the query yields; it is ghost because the records determine it.
     */
    method GetConfigMaps(mirrorName: string, mirrorNamespace: string)
      returns (r: Result<seq<ConfigMapRecord>, DbError>, ghost order: seq<RowKey>)
      requires Valid() && pool != NilPool
      ensures NewestFirst(order, table.rows, OwnedRows(table, mirrorName, mirrorNamespace))
      ensures (!Reachable(pool, table) || QueryFails in faults) ==> r == Err(Failed(QueryFailure))
      ensures (Reachable(pool, table) && QueryFails !in faults
               && exists i :: 0 <= i < |order| && ScanFails(order[i]) in faults) ==>
              r == Err(Failed(ScanFailure))
      ensures (Reachable(pool, table) && QueryFails !in faults && IterationFails in faults
               && forall i :: 0 <= i < |order| ==> ScanFails(order[i]) !in faults) ==>
              r == Err(Failed(IterationFailure))
      ensures r.Ok? <==> (Reachable(pool, table) && QueryFails !in faults && IterationFails !in faults
                          && forall i :: 0 <= i < |order| ==> ScanFails(order[i]) !in faults)
      ensures r.Ok? ==> (|r.value| == |order|
                         && forall i :: 0 <= i < |order| ==> r.value[i] == RecordOf(order[i], table.rows[order[i]]))
    {
      var keys := QueryOwned(mirrorName, mirrorNamespace);
      order := keys;
      if !Reachable(pool, table) || QueryFails in faults {
        return Err(Failed(QueryFailure)), order;
      }
      var records: seq<ConfigMapRecord> := [];
      for i := 0 to |keys|
        invariant |records| == i
        invariant forall x :: 0 <= x < i ==> ScanFails(keys[x]) !in faults
        invariant forall x :: 0 <= x < i ==> records[x] == RecordOf(keys[x], table.rows[keys[x]])
      {
        if ScanFails(keys[i]) in faults {
          return Err(Failed(ScanFailure)), order;
        }
        records := records + [RecordOf(keys[i], table.rows[keys[i]])];
      }
      if IterationFails in faults {
        return Err(Failed(IterationFailure)), order;
      }
      return Ok(records), order;
    }
  }
}
