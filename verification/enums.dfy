/** Lookups over the constants of a Kotlin `enum class`, which the modelled
    parsers all do the same way: walk `values()` in declaration order and
    take the first constant that matches, if any. */
module Enums {
  import opened Outcomes

  /** The position of the first value satisfying `p`. */
  function FindIndex<T>(values: seq<T>, p: T -> bool): (r: Option<nat>)
    ensures r.None? <==> forall i :: 0 <= i < |values| ==> !p(values[i])
    ensures r.Some? ==> r.value < |values| && p(values[r.value])
    ensures r.Some? ==> forall j :: 0 <= j < r.value ==> !p(values[j])
  {
    if |values| == 0 then None
    else if p(values[0]) then Some(0)
    else
      assert forall i :: 1 <= i < |values| ==> values[i] == values[1..][i - 1];
      match FindIndex(values[1..], p)
      case None => None
      case Some(i) => Some(i + 1)
  }

  /** `values().find(p)`: the first value satisfying `p`. */
  function FindFirst<T>(values: seq<T>, p: T -> bool): (r: Option<T>)
    ensures r.None? <==> forall i :: 0 <= i < |values| ==> !p(values[i])
    ensures r.Some? ==> p(r.value)
  {
    match FindIndex(values, p)
    case None => None
    case Some(i) => Some(values[i])
  }

  /** When exactly one value satisfies `p`, the lookup finds that one. */
  lemma FindFirstUnique<T>(values: seq<T>, p: T -> bool, k: int)
    requires 0 <= k < |values| && p(values[k])
    requires forall i :: 0 <= i < |values| && i != k ==> !p(values[i])
    ensures FindFirst(values, p) == Some(values[k])
  {
    assert FindIndex(values, p) == Some(k);
  }

  /** The lookup only depends on which values satisfy the predicate. */
  lemma {:induction false} FindFirstSamePredicate<T>(values: seq<T>, p: T -> bool, q: T -> bool)
    requires forall i :: 0 <= i < |values| ==> p(values[i]) == q(values[i])
    ensures FindFirst(values, p) == FindFirst(values, q)
  {
    if |values| > 0 && !p(values[0]) {
      FindFirstSamePredicate(values[1..], p, q);
      assert FindIndex(values, p) == match FindIndex(values[1..], p)
        case None => None case Some(i) => Some(i + 1);
    }
  }
}
