/** Extension methods on enumerables (ObjectExtensions.cs). */
module ObjectExtensions {
  import opened Wrappers

  /** `IsEmptyOrNull`: true for a `null` enumerable (`None`) and for one with no
      element; it only asks whether an element exists and never changes the
      sequence. A false answer tells the caller the enumerable is not null. */
  function IsEmptyOrNull<T>(enumerable: Option<seq<T>>): (emptyOrNull: bool)
    ensures emptyOrNull <==> enumerable == None || enumerable == Some([])
    ensures !emptyOrNull ==> enumerable.Some? && |enumerable.value| > 0
  {
    match enumerable
    case None => true
    case Some(items) => !Any(items)
  }

  /** LINQ `Any()` without a predicate: the sequence has at least one element. */
  predicate Any<T>(items: seq<T>)
  {
    |items| > 0
  }
}
