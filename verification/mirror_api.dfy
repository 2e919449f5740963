/**
 * The ConfigMirror custom resource (group mirror.pawapay.io, version v1alpha1):
 * its spec and status as values, with the schema's validation markers written as
 * predicates, and the condition list kept as a list-map keyed by condition type.
 */
module MirrorApi {
  import opened Wrappers
  import opened Selectors

  datatype SecretReference = SecretReference(name: string, namespace: string)

  datatype DatabaseConfig = DatabaseConfig(enabled: bool, secretRef: SecretReference)

  datatype ConfigMirrorSpec = ConfigMirrorSpec(
    sourceNamespace: string,
    targetNamespaces: seq<string>,
    selector: Option<LabelSelector>,
    database: Option<DatabaseConfig>)

  datatype ConditionStatus = ConditionTrue | ConditionFalse | ConditionUnknown

  datatype Condition = Condition(
    conditionType: string,
    status: ConditionStatus,
    observedGeneration: int,
    reason: string,
    message: string)

  datatype ReplicatedConfigMap = ReplicatedConfigMap(name: string, sourceNamespace: string, targets: seq<string>)

  datatype DatabaseStatus = DatabaseStatus(connected: bool, message: string)

  datatype ConfigMirrorStatus = ConfigMirrorStatus(
    conditions: seq<Condition>,
    replicatedConfigMaps: seq<ReplicatedConfigMap>,
    databaseStatus: Option<DatabaseStatus>,
    observedGeneration: int)

  /** The part of the object metadata the controller reads or writes. */
  datatype ObjectMeta = ObjectMeta(
    name: string,
    namespace: string,
    generation: int,
    deletionRequested: bool,
    finalizers: seq<string>)

  datatype ConfigMirror = ConfigMirror(metadata: ObjectMeta, spec: ConfigMirrorSpec, status: ConfigMirrorStatus)

  /**
   * What the schema admits. `Required` only demands that a field be present, so empty
   * strings pass (no `MinLength` is set), and the required strings and the secret
   * reference are always present in this model. What remains: a selector, and at least
   * one target namespace.
   */
  predicate ValidSpec(spec: ConfigMirrorSpec): (b: bool)
    ensures b ==> !Compile(spec.selector).Nothing?
  {
    && |spec.targetNamespaces| >= 1
    && spec.selector.Some?
  }

  /**
   * `+listType=map`, `+listMapKey=type`: no two conditions share a type, so looking a
   * condition up by its type finds that very condition.
   */
  predicate ConditionsKeyedByType(cs: seq<Condition>): (b: bool)
    ensures b ==> forall i :: 0 <= i < |cs| ==> FindCondition(cs, cs[i].conditionType) == Some(cs[i])
  {
    if DistinctTypes(cs) then
      FindEachCondition(cs);
      true
    else
      false
  }

  predicate DistinctTypes(cs: seq<Condition>) {
    forall i, j :: 0 <= i < j < |cs| ==> cs[i].conditionType != cs[j].conditionType
  }

  /** With distinct types, the lookup of each condition's type returns that condition. */
  lemma {:induction false} FindEachCondition(cs: seq<Condition>)
    requires DistinctTypes(cs)
    ensures forall i :: 0 <= i < |cs| ==> FindCondition(cs, cs[i].conditionType) == Some(cs[i])
  {
    if cs != [] {
      var rest := cs[1..];
      assert DistinctTypes(rest) by {
        forall i, j | 0 <= i < j < |rest| ensures rest[i].conditionType != rest[j].conditionType {
          assert rest[i] == cs[i + 1] && rest[j] == cs[j + 1];
        }
      }
      FindEachCondition(rest);
      forall i | 0 < i < |cs| ensures FindCondition(cs, cs[i].conditionType) == Some(cs[i]) {
        assert cs[i] == rest[i - 1];
      }
    }
  }

  predicate ValidStatus(status: ConfigMirrorStatus) {
    ConditionsKeyedByType(status.conditions)
  }

  /** Persistence is on only when a database section is present and enabled. */
  predicate PersistenceEnabled(spec: ConfigMirrorSpec): (b: bool)
    ensures b ==> spec.database.Some?
  {
    spec.database.Some? && spec.database.value.enabled
  }

  /** The namespace of the credentials Secret; empty means the ConfigMirror's own namespace. */
  function SecretNamespace(ref: SecretReference, ownerNamespace: string): (ns: string)
    ensures ref.namespace != "" ==> ns == ref.namespace
    ensures ref.namespace == "" ==> ns == ownerNamespace
    ensures ownerNamespace != "" ==> ns != ""
  {
    if ref.namespace == "" then ownerNamespace else ref.namespace
  }

  /** meta.FindStatusCondition: the first condition of the given type. */
  function FindCondition(cs: seq<Condition>, conditionType: string): (r: Option<Condition>)
    ensures r.Some? ==> r.value in cs && r.value.conditionType == conditionType
    ensures r.None? ==> forall i :: 0 <= i < |cs| ==> cs[i].conditionType != conditionType
  {
    if cs == [] then None
    else if cs[0].conditionType == conditionType then Some(cs[0])
    else FindCondition(cs[1..], conditionType)
  }

  /** The lookup returns the condition at the first index of that type. */
  lemma {:induction false} FindConditionFirst(cs: seq<Condition>, conditionType: string, i: nat)
    requires i < |cs| && cs[i].conditionType == conditionType
    requires forall j :: 0 <= j < i ==> cs[j].conditionType != conditionType
    ensures FindCondition(cs, conditionType) == Some(cs[i])
  {
    if i > 0 {
      FindConditionFirst(cs[1..], conditionType, i - 1);
    }
  }

  /**
   * meta.SetStatusCondition without timestamps: the first condition of the same
   * type is overwritten in place, otherwise the condition is appended.
   */
  function SetStatusCondition(cs: seq<Condition>, c: Condition): (r: seq<Condition>)
    ensures forall x :: x in r ==> x == c || x in cs
    ensures FindCondition(cs, c.conditionType).None? ==> r == cs + [c]
  {
    if cs == [] then [c]
    else if cs[0].conditionType == c.conditionType then [c] + cs[1..]
    else [cs[0]] + SetStatusCondition(cs[1..], c)
  }

  /** After the upsert the condition of that type is the new one; every other type is unaffected. */
  lemma {:induction false} SetStatusConditionLookup(cs: seq<Condition>, c: Condition, t: string)
    ensures t == c.conditionType ==> FindCondition(SetStatusCondition(cs, c), t) == Some(c)
    ensures t != c.conditionType ==> FindCondition(SetStatusCondition(cs, c), t) == FindCondition(cs, t)
  {
    if cs != [] && cs[0].conditionType != c.conditionType {
      var r := SetStatusCondition(cs, c);
      assert r[0] == cs[0] && r[1..] == SetStatusCondition(cs[1..], c);
      SetStatusConditionLookup(cs[1..], c, t);
    } else if cs != [] {
      assert SetStatusCondition(cs, c)[1..] == cs[1..];
    }
  }

  /** The upsert keeps the list a list-map keyed by type. */
  lemma SetStatusConditionKeepsKeys(cs: seq<Condition>, c: Condition)
    requires ConditionsKeyedByType(cs)
    ensures ConditionsKeyedByType(SetStatusCondition(cs, c))
  {
    SetStatusConditionKeepsTypesDistinct(cs, c);
  }

  lemma {:induction false} SetStatusConditionKeepsTypesDistinct(cs: seq<Condition>, c: Condition)
    requires DistinctTypes(cs)
    ensures DistinctTypes(SetStatusCondition(cs, c))
  {
    if cs != [] && cs[0].conditionType != c.conditionType {
      var rest := SetStatusCondition(cs[1..], c);
      SetStatusConditionKeepsTypesDistinct(cs[1..], c);
      forall j | 0 <= j < |rest| ensures rest[j].conditionType != cs[0].conditionType {
        assert rest[j] in rest;
        if rest[j] != c {
          var k :| 0 <= k < |cs[1..]| && cs[1..][k] == rest[j];
          assert cs[k + 1] == rest[j];
        }
      }
      assert SetStatusCondition(cs, c) == [cs[0]] + rest;
    }
  }

  /** An existing condition of that type is replaced, so the list does not grow. */
  lemma {:induction false} SetStatusConditionLength(cs: seq<Condition>, c: Condition)
    ensures FindCondition(cs, c.conditionType).Some? ==> |SetStatusCondition(cs, c)| == |cs|
    ensures FindCondition(cs, c.conditionType).None? ==> |SetStatusCondition(cs, c)| == |cs| + 1
  {
    if cs != [] && cs[0].conditionType != c.conditionType {
      SetStatusConditionLength(cs[1..], c);
    }
  }

  /** The first condition of that type is overwritten at its own position; the others keep theirs. */
  lemma {:induction false} SetStatusConditionInPlace(cs: seq<Condition>, c: Condition, i: nat)
    requires i < |cs| && cs[i].conditionType == c.conditionType
    requires forall j :: 0 <= j < i ==> cs[j].conditionType != c.conditionType
    ensures SetStatusCondition(cs, c) == cs[i := c]
  {
    if i > 0 {
      SetStatusConditionInPlace(cs[1..], c, i - 1);
      assert cs[i := c] == [cs[0]] + cs[1..][i - 1 := c];
    }
  }

  /** Setting a condition twice in a row is the same as setting it once. */
  lemma {:induction false} SetStatusConditionIdempotent(cs: seq<Condition>, c: Condition)
    ensures SetStatusCondition(SetStatusCondition(cs, c), c) == SetStatusCondition(cs, c)
  {
    if cs != [] && cs[0].conditionType != c.conditionType {
      SetStatusConditionIdempotent(cs[1..], c);
      assert SetStatusCondition(cs, c)[1..] == SetStatusCondition(cs[1..], c);
    }
  }
}
