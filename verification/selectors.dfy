/**
 * Label selectors as the controller uses them. The conversion of a user-written
 * `LabelSelector` into a matching predicate belongs to the Kubernetes libraries; this
 * module keeps only its outcome: either the selector is invalid, or it is a pure
 * predicate over a label map.
 */
module Selectors {
  import opened Wrappers

  type Labels = map<string, string>

  datatype Operator = In | NotIn | Exists | DoesNotExist | Unrecognized(name: string)

  datatype Requirement = Requirement(key: string, operator: Operator, values: seq<string>)

  /** The selector as written in a ConfigMirror: exact matches and set-based expressions. */
  datatype LabelSelector = LabelSelector(matchLabels: Labels, matchExpressions: seq<Requirement>)

  /**
   * The compiled selector. `Nothing` is what an absent selector compiles to;
   * `Conjunction` requires every exact match and every requirement.
   */
  datatype Selector = Invalid | Nothing | Conjunction(equalities: Labels, requirements: seq<Requirement>)

  /** The operator is known and has the number of values it needs. */
  predicate WellFormedRequirement(r: Requirement) {
    match r.operator
    case In => |r.values| > 0
    case NotIn => |r.values| > 0
    case Exists => |r.values| == 0
    case DoesNotExist => |r.values| == 0
    case Unrecognized(_) => false
  }

  predicate Satisfies(r: Requirement, labels: Labels) {
    match r.operator
    case In => r.key in labels && labels[r.key] in r.values
    case NotIn => r.key !in labels || labels[r.key] !in r.values
    case Exists => r.key in labels
    case DoesNotExist => r.key !in labels
    case Unrecognized(_) => false
  }

  /** Every key/value pair of `wanted` is present in `labels`. */
  predicate HasAll(labels: Labels, wanted: Labels) {
    forall k :: k in wanted ==> k in labels && labels[k] == wanted[k]
  }

  predicate Matches(s: Selector, labels: Labels) {
    match s
    case Invalid => false
    case Nothing => false
    case Conjunction(eq, reqs) =>
      HasAll(labels, eq) && forall i :: 0 <= i < |reqs| ==> Satisfies(reqs[i], labels)
  }

  /** LabelSelectorAsSelector: a nil selector selects nothing; a malformed expression is an error. */
  function Compile(ps: Option<LabelSelector>): (s: Selector)
    ensures s.Invalid? <==>
      ps.Some? && exists i :: 0 <= i < |ps.value.matchExpressions| && !WellFormedRequirement(ps.value.matchExpressions[i])
    ensures ps.None? ==> forall labels :: !Matches(s, labels)
  {
    match ps
    case None => Nothing
    case Some(sel) =>
      if forall i :: 0 <= i < |sel.matchExpressions| ==> WellFormedRequirement(sel.matchExpressions[i])
      then Conjunction(sel.matchLabels, sel.matchExpressions)
      else Invalid
  }

  /** The selector that `client.MatchingLabels{key: value}` builds. */
  function LabelEquals(key: string, value: string): Selector {
    Conjunction(map[key := value], [])
  }

  /** A selector of exact matches only matches exactly the label maps that contain every pair. */
  lemma MatchLabelsSemantics(wanted: Labels, labels: Labels)
    ensures Compile(Some(LabelSelector(wanted, []))).Conjunction?
    ensures Matches(Compile(Some(LabelSelector(wanted, []))), labels) <==> HasAll(labels, wanted)
  {
  }

  /**
   * A selector whose expressions are all well formed matches exactly the label maps that
   * carry every matchLabels pair and satisfy every expression.
   */
  lemma CompiledSelectorSemantics(sel: LabelSelector, labels: Labels)
    requires forall i :: 0 <= i < |sel.matchExpressions| ==> WellFormedRequirement(sel.matchExpressions[i])
    ensures Matches(Compile(Some(sel)), labels) <==>
      HasAll(labels, sel.matchLabels) && forall i :: 0 <= i < |sel.matchExpressions| ==> Satisfies(sel.matchExpressions[i], labels)
  {
  }

  /** A selector with an expression whose operator is not recognised does not compile. */
  lemma UnrecognizedOperatorIsInvalid(wanted: Labels, key: string, op: string, values: seq<string>)
    ensures Compile(Some(LabelSelector(wanted, [Requirement(key, Unrecognized(op), values)]))) == Invalid
  {
    var sel := LabelSelector(wanted, [Requirement(key, Unrecognized(op), values)]);
    assert !WellFormedRequirement(sel.matchExpressions[0]);
  }

  lemma LabelEqualsSemantics(key: string, value: string, labels: Labels)
    ensures Matches(LabelEquals(key, value), labels) <==> key in labels && labels[key] == value
  {
  }
}
