/**
 * The Kubernetes API server as the controller sees it: ConfigMaps and ConfigMirrors
 * stored by (namespace, name). Every call may fail; which calls fail is fixed by an
 * injected set of faults, so a reconciliation pass is a function of the state it
 * starts from and of the order in which List returns items.
 */
module ObjectStore {
  import opened Wrappers
  import opened Selectors
  import opened MirrorApi

  datatype ObjectKey = ObjectKey(namespace: string, name: string)

  datatype ConfigMap = ConfigMap(
    name: string,
    namespace: string,
    labels: Labels,
    annotations: map<string, string>,
    data: map<string, string>,
    binaryData: map<string, seq<bv8>>)

  function KeyOf(cm: ConfigMap): ObjectKey {
    ObjectKey(cm.namespace, cm.name)
  }

  function MirrorKey(m: ConfigMirror): ObjectKey {
    ObjectKey(m.metadata.namespace, m.metadata.name)
  }

  /** The errors the controller distinguishes: not found, already exists, anything else. */
  datatype ApiError = NotFound | AlreadyExists | Unavailable

  /** A call that the API server will refuse. */
  datatype Fault =
    | GetFails(key: ObjectKey)
    | CreateFails(key: ObjectKey)
    | UpdateFails(key: ObjectKey)
    | DeleteFails(key: ObjectKey)
    | ListFails(namespace: string)
    | MirrorGetFails(key: ObjectKey)
    | MirrorUpdateFails(key: ObjectKey)
    | MirrorStatusFails(key: ObjectKey)
    | MirrorListFails(namespace: string)

  type Objects = map<ObjectKey, ConfigMap>

  type MirrorTable = map<ObjectKey, ConfigMirror>

  ghost predicate KeysConsistent(objs: Objects) {
    forall k :: k in objs ==> KeyOf(objs[k]) == k
  }

  ghost predicate MirrorKeysConsistent(mirrors: MirrorTable) {
    forall k :: k in mirrors ==> MirrorKey(mirrors[k]) == k
  }

  /**
   * `items` is an answer to "list the ConfigMaps of `ns` matching `sel`": each item is
   * stored, in `ns` and matching; no name appears twice; every matching object appears.
   */
  ghost predicate IsListing(items: seq<ConfigMap>, objs: Objects, ns: string, sel: Selector) {
    && (forall i :: 0 <= i < |items| ==>
          KeyOf(items[i]) in objs && objs[KeyOf(items[i])] == items[i]
          && items[i].namespace == ns && Matches(sel, items[i].labels))
    && (forall i, j :: 0 <= i < j < |items| ==> items[i].name != items[j].name)
    && (forall k :: k in objs && k.namespace == ns && Matches(sel, objs[k].labels) ==> objs[k] in items)
  }

  /** `items` is an answer to "list the ConfigMirrors of `ns`". */
  ghost predicate IsMirrorListing(items: seq<ConfigMirror>, mirrors: MirrorTable, ns: string) {
    && (forall i :: 0 <= i < |items| ==>
          MirrorKey(items[i]) in mirrors && mirrors[MirrorKey(items[i])] == items[i]
          && items[i].metadata.namespace == ns)
    && (forall i, j :: 0 <= i < j < |items| ==> items[i].metadata.name != items[j].metadata.name)
    && (forall k :: k in mirrors && k.namespace == ns ==> mirrors[k] in items)
  }

  /**
   * What `Update` of a ConfigMirror persists. The controller only ever changes the
   * finalizer list; the status is a subresource and is not written by `Update`. Once
   * deletion was requested and no finalizer is left, the object goes away.
   */
  function WriteFinalizers(mirrors: MirrorTable, key: ObjectKey, finalizers: seq<string>): (r: MirrorTable)
    requires key in mirrors
    ensures forall k :: k != key ==> (k in r <==> k in mirrors) && (k in r ==> r[k] == mirrors[k])
    ensures key in r <==> !(mirrors[key].metadata.deletionRequested && finalizers == [])
    ensures key in r ==> r[key] == mirrors[key].(metadata := mirrors[key].metadata.(finalizers := finalizers))
  {
    var stored := mirrors[key];
    if stored.metadata.deletionRequested && finalizers == [] then mirrors - {key}
    else mirrors[key := stored.(metadata := stored.metadata.(finalizers := finalizers))]
  }

  /** What `Status().Update` persists: only the status, and only when the call goes through. */
  function WriteStatus(mirrors: MirrorTable, faults: set<Fault>, m: ConfigMirror): (r: MirrorTable)
    ensures r.Keys == mirrors.Keys
    ensures forall k :: k in r && k != MirrorKey(m) ==> r[k] == mirrors[k]
    ensures MirrorKey(m) in r && MirrorStatusFails(MirrorKey(m)) !in faults ==>
      r[MirrorKey(m)] == mirrors[MirrorKey(m)].(status := m.status)
    ensures MirrorStatusFails(MirrorKey(m)) in faults ==> r == mirrors
  {
    var key := MirrorKey(m);
    if MirrorStatusFails(key) in faults || key !in mirrors then mirrors
    else mirrors[key := mirrors[key].(status := m.status)]
  }

  class Cluster {
    var configMaps: Objects
    var mirrors: MirrorTable
    const faults: set<Fault>

    ghost predicate Valid()
      reads this
    {
      KeysConsistent(configMaps) && MirrorKeysConsistent(mirrors)
    }

    constructor (configMaps: Objects, mirrors: MirrorTable, faults: set<Fault>)
      requires KeysConsistent(configMaps) && MirrorKeysConsistent(mirrors)
      ensures Valid()
      ensures this.configMaps == configMaps && this.mirrors == mirrors && this.faults == faults
    {
      this.configMaps := configMaps;
      this.mirrors := mirrors;
      this.faults := faults;
    }

    method Get(key: ObjectKey) returns (r: Result<ConfigMap, ApiError>)
      requires Valid()
      ensures GetFails(key) in faults ==> r == Err(Unavailable)
      ensures GetFails(key) !in faults && key !in configMaps ==> r == Err(NotFound)
      ensures GetFails(key) !in faults && key in configMaps ==> r == Ok(configMaps[key])
      ensures r.Ok? ==> KeyOf(r.value) == key
    {
      if GetFails(key) in faults {
        return Err(Unavailable);
      }
      if key !in configMaps {
        return Err(NotFound);
      }
      return Ok(configMaps[key]);
    }

    method Create(cm: ConfigMap) returns (err: Option<ApiError>)
      requires Valid()
      modifies this
      ensures Valid() && mirrors == old(mirrors)
      ensures CreateFails(KeyOf(cm)) in faults ==> err == Some(Unavailable) && configMaps == old(configMaps)
      ensures CreateFails(KeyOf(cm)) !in faults && KeyOf(cm) in old(configMaps) ==>
        err == Some(AlreadyExists) && configMaps == old(configMaps)
      ensures CreateFails(KeyOf(cm)) !in faults && KeyOf(cm) !in old(configMaps) ==>
        err == None && configMaps == old(configMaps)[KeyOf(cm) := cm]
    {
      var key := KeyOf(cm);
      if CreateFails(key) in faults {
        return Some(Unavailable);
      }
      if key in configMaps {
        return Some(AlreadyExists);
      }
      configMaps := configMaps[key := cm];
      return None;
    }

    method Update(cm: ConfigMap) returns (err: Option<ApiError>)
      requires Valid()
      modifies this
      ensures Valid() && mirrors == old(mirrors)
      ensures UpdateFails(KeyOf(cm)) in faults ==> err == Some(Unavailable) && configMaps == old(configMaps)
      ensures UpdateFails(KeyOf(cm)) !in faults && KeyOf(cm) !in old(configMaps) ==>
        err == Some(NotFound) && configMaps == old(configMaps)
      ensures UpdateFails(KeyOf(cm)) !in faults && KeyOf(cm) in old(configMaps) ==>
        err == None && configMaps == old(configMaps)[KeyOf(cm) := cm]
    {
      var key := KeyOf(cm);
      if UpdateFails(key) in faults {
        return Some(Unavailable);
      }
      if key !in configMaps {
        return Some(NotFound);
      }
      configMaps := configMaps[key := cm];
      return None;
    }

    method Delete(key: ObjectKey) returns (err: Option<ApiError>)
      requires Valid()
      modifies this
      ensures Valid() && mirrors == old(mirrors)
      ensures DeleteFails(key) in faults ==> err == Some(Unavailable) && configMaps == old(configMaps)
      ensures DeleteFails(key) !in faults && key !in old(configMaps) ==>
        err == Some(NotFound) && configMaps == old(configMaps)
      ensures DeleteFails(key) !in faults && key in old(configMaps) ==>
        err == None && configMaps == old(configMaps) - {key}
    {
      if DeleteFails(key) in faults {
        return Some(Unavailable);
      }
      if key !in configMaps {
        return Some(NotFound);
      }
      configMaps := configMaps - {key};
      return None;
    }

    /** The ConfigMaps of `ns` whose labels match `sel`, in the order the server chooses. */
    method List(ns: string, sel: Selector) returns (r: Result<seq<ConfigMap>, ApiError>)
      requires Valid()
      ensures r.Err? <==> ListFails(ns) in faults
      ensures r.Err? ==> r.error == Unavailable
      ensures r.Ok? ==> IsListing(r.value, configMaps, ns, sel)
    {
      if ListFails(ns) in faults {
        return Err(Unavailable);
      }
      var items: seq<ConfigMap> := [];
      var rest := configMaps.Keys;
      while rest != {}
        invariant rest <= configMaps.Keys
        invariant forall i :: 0 <= i < |items| ==>
          KeyOf(items[i]) in configMaps && KeyOf(items[i]) !in rest && configMaps[KeyOf(items[i])] == items[i]
          && items[i].namespace == ns && Matches(sel, items[i].labels)
        invariant forall i, j :: 0 <= i < j < |items| ==> items[i].name != items[j].name
        invariant forall k :: k in configMaps && k !in rest && k.namespace == ns && Matches(sel, configMaps[k].labels) ==>
          configMaps[k] in items
        decreases rest
      {
        var k :| k in rest;
        rest := rest - {k};
        var cm := configMaps[k];
        if k.namespace == ns && Matches(sel, cm.labels) {
          items := items + [cm];
        }
      }
      return Ok(items);
    }

    method GetMirror(key: ObjectKey) returns (r: Result<ConfigMirror, ApiError>)
      requires Valid()
      ensures MirrorGetFails(key) in faults ==> r == Err(Unavailable)
      ensures MirrorGetFails(key) !in faults && key !in mirrors ==> r == Err(NotFound)
      ensures MirrorGetFails(key) !in faults && key in mirrors ==> r == Ok(mirrors[key])
      ensures r.Ok? ==> MirrorKey(r.value) == key
    {
      if MirrorGetFails(key) in faults {
        return Err(Unavailable);
      }
      if key !in mirrors {
        return Err(NotFound);
      }
      return Ok(mirrors[key]);
    }

    /** `Update` of a ConfigMirror: persists its finalizer list. */
    method UpdateMirror(m: ConfigMirror) returns (err: Option<ApiError>)
      requires Valid()
      modifies this
      ensures Valid() && configMaps == old(configMaps)
      ensures MirrorUpdateFails(MirrorKey(m)) in faults ==> err == Some(Unavailable) && mirrors == old(mirrors)
      ensures MirrorUpdateFails(MirrorKey(m)) !in faults && MirrorKey(m) !in old(mirrors) ==>
        err == Some(NotFound) && mirrors == old(mirrors)
      ensures MirrorUpdateFails(MirrorKey(m)) !in faults && MirrorKey(m) in old(mirrors) ==>
        err == None && mirrors == WriteFinalizers(old(mirrors), MirrorKey(m), m.metadata.finalizers)
    {
      var key := MirrorKey(m);
      if MirrorUpdateFails(key) in faults {
        return Some(Unavailable);
      }
      if key !in mirrors {
        return Some(NotFound);
      }
      mirrors := WriteFinalizers(mirrors, key, m.metadata.finalizers);
      return None;
    }

    /** `Status().Update` of a ConfigMirror. */
    method UpdateMirrorStatus(m: ConfigMirror) returns (err: Option<ApiError>)
      requires Valid()
      modifies this
      ensures Valid() && configMaps == old(configMaps)
      ensures mirrors == WriteStatus(old(mirrors), faults, m)
      ensures err.None? <==> MirrorStatusFails(MirrorKey(m)) !in faults && MirrorKey(m) in old(mirrors)
    {
      var key := MirrorKey(m);
      if MirrorStatusFails(key) in faults {
        return Some(Unavailable);
      }
      if key !in mirrors {
        return Some(NotFound);
      }
      mirrors := WriteStatus(mirrors, faults, m);
      return None;
    }

    /** The ConfigMirrors of `ns`, in the order the server chooses. */
    method ListMirrors(ns: string) returns (r: Result<seq<ConfigMirror>, ApiError>)
      requires Valid()
      ensures r.Err? <==> MirrorListFails(ns) in faults
      ensures r.Err? ==> r.error == Unavailable
      ensures r.Ok? ==> IsMirrorListing(r.value, mirrors, ns)
    {
      if MirrorListFails(ns) in faults {
        return Err(Unavailable);
      }
      var items: seq<ConfigMirror> := [];
      var rest := mirrors.Keys;
      while rest != {}
        invariant rest <= mirrors.Keys
        invariant forall i :: 0 <= i < |items| ==>
          MirrorKey(items[i]) in mirrors && MirrorKey(items[i]) !in rest && mirrors[MirrorKey(items[i])] == items[i]
          && items[i].metadata.namespace == ns
        invariant forall i, j :: 0 <= i < j < |items| ==> items[i].metadata.name != items[j].metadata.name
        invariant forall k :: k in mirrors && k !in rest && k.namespace == ns ==> mirrors[k] in items
        decreases rest
      {
        var k :| k in rest;
        rest := rest - {k};
        if k.namespace == ns {
          items := items + [mirrors[k]];
        }
      }
      return Ok(items);
    }
  }
}
