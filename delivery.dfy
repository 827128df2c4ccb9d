/** The ordering of pending work: higher priority first, then earlier deadline. */
module DeliveryOrder {
  import opened Types

  /** `a` is served before `b` (DeliveryCompare): it has the higher priority, or the same
      priority and the earlier deadline. */
  predicate Before(a: Delivery, b: Delivery)
  {
    if a.priority != b.priority then a.priority > b.priority else a.deadline < b.deadline
  }

  lemma HigherPriorityFirst(a: Delivery, b: Delivery)
    requires a.priority > b.priority
    ensures Before(a, b) && !Before(b, a)
  {
  }

  lemma EarlierDeadlineBreaksTies(a: Delivery, b: Delivery)
    requires a.priority == b.priority && a.deadline < b.deadline
    ensures Before(a, b) && !Before(b, a)
  {
  }

  lemma EqualKeysAreUnordered(a: Delivery, b: Delivery)
    requires a.priority == b.priority && a.deadline == b.deadline
    ensures !Before(a, b) && !Before(b, a)
  {
  }

  /** Before is a strict weak order: irreflexive, asymmetric, transitive, and "neither
      precedes" is transitive too (what the heap needs to find a first element). */
  lemma BeforeIsStrictWeakOrder(a: Delivery, b: Delivery, c: Delivery)
    ensures !Before(a, a)
    ensures Before(a, b) ==> !Before(b, a)
    ensures Before(a, b) && Before(b, c) ==> Before(a, c)
    ensures !Before(a, b) && !Before(b, c) ==> !Before(a, c)
  {
  }
}
