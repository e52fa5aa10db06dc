/** The per-property copy rule an entity merge applies, chosen by the
    `@CopyBehavior` annotation (default MOST_RECENT_NON_NULL). */
module CopyBehavior {
  import opened Wrappers
  import opened JavaTypes

  datatype Behavior = Ignore | TakeUpdated | TakeOriginal | AlwaysNull | MostRecentNonNull

  /** The behaviour of a property without the annotation, and the value of
      the annotation when it names none. */
  const DEFAULT_BEHAVIOR: Behavior := MostRecentNonNull

  /** The value the merged copy receives for one property, given its value in
      the stored entity and in the updated one; `None` when the behaviour
      leaves the copy's own initial value in place. */
  function Merged(b: Behavior, existing: Value, updated: Value): (r: Option<Value>)
    ensures r.None? <==> b == Ignore
    ensures b == TakeUpdated ==> r == Some(updated)
    ensures b == TakeOriginal ==> r == Some(existing)
    ensures b == AlwaysNull ==> r == Some(VNull)
    ensures b == MostRecentNonNull ==> r == Some(if updated.VNull? then existing else updated)
  {
    match b
    case Ignore => None
    case TakeUpdated => Some(updated)
    case TakeOriginal => Some(existing)
    case AlwaysNull => Some(VNull)
    case MostRecentNonNull => if updated != VNull then Some(updated) else Some(existing)
  }

  /** MOST_RECENT_NON_NULL never turns a populated value into null, and it
      keeps the stored value only when the update carries none. */
  lemma MostRecentNeverNullifies(existing: Value, updated: Value)
    ensures !existing.VNull? ==> !Merged(MostRecentNonNull, existing, updated).value.VNull?
    ensures Merged(MostRecentNonNull, existing, updated).value == existing ==> updated.VNull? || updated == existing
  {
  }

  /** Merging the result again with the same update changes nothing. */
  lemma MergedIdempotent(b: Behavior, existing: Value, updated: Value)
    requires b != Ignore
    ensures Merged(b, Merged(b, existing, updated).value, updated) == Merged(b, existing, updated)
  {
  }
}
