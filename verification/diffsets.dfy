/** The transaction's record of what it added and removed for one kind of item. */
module DiffSets {
  import opened Iterators

  /** Items added and removed in the transaction, each in iteration order. */
  datatype DiffSet<T(==)> = DiffSet(added: seq<T>, removed: seq<T>)
  {
    predicate IsAdded(x: T)
    {
      x in added
    }

    predicate IsRemoved(x: T)
    {
      x in removed
    }

    /** The net change in the number of items: added minus removed. */
    function Delta(): int
    {
      |added| - |removed|
    }
  }

  /** A diff set in the shape the transaction state keeps it: no item recorded twice, and no
      item both added and removed (removing an added item cancels the addition instead). */
  predicate WellFormed<T(==)>(d: DiffSet<T>)
  {
    && (forall i, j :: 0 <= i < j < |d.added| ==> d.added[i] != d.added[j])
    && (forall i, j :: 0 <= i < j < |d.removed| ==> d.removed[i] != d.removed[j])
    && (forall i, j :: 0 <= i < |d.added| && 0 <= j < |d.removed| ==> d.added[i] != d.removed[j])
  }

  /** The part of a diff set concerning the items that satisfy `inScope`. */
  function Restrict<T(==,!new)>(d: DiffSet<T>, inScope: T -> bool): (r: DiffSet<T>)
    ensures forall x :: r.IsAdded(x) <==> d.IsAdded(x) && inScope(x)
    ensures forall x :: r.IsRemoved(x) <==> d.IsRemoved(x) && inScope(x)
  {
    DiffSet(Filter(d.added, inScope), Filter(d.removed, inScope))
  }

  /** A committed sequence of items seen through the diff set: the committed items that were not
      removed, in their order, followed by the added items. */
  function Apply<T(==,!new)>(d: DiffSet<T>, committed: seq<T>): (r: seq<T>)
    ensures forall x :: x in r <==> (x in committed && !d.IsRemoved(x)) || d.IsAdded(x)
    ensures |r| <= |committed| + |d.added|
  {
    Filter(committed, x => x !in d.removed) + d.added
  }
}
