/** The transaction as the overlay sees it: whether it is open, whether it has changes, what
    those changes are, and the security context it currently acts under. */
module Transactions {
  import opened Schema
  import opened DiffSets
  import opened Security
  import opened CountsDelta

  /** The transaction's own changes, kept apart from committed storage. */
  datatype TxState = TxState(
    nodes: DiffSet<int>,
    relationships: DiffSet<int>,
    indexChanges: DiffSet<IndexDescriptor>,
    constraintChanges: DiffSet<ConstraintDescriptor>,
    countEvents: seq<CountEvent>)
  {
    /** The index changes whose schema lies in `scope`. */
    function IndexChangesIn(scope: Scope): (r: DiffSet<IndexDescriptor>)
      ensures forall d :: r.IsAdded(d) <==> indexChanges.IsAdded(d) && InScope(scope, d.Schema())
      ensures forall d :: r.IsRemoved(d) <==> indexChanges.IsRemoved(d) && InScope(scope, d.Schema())
    {
      Restrict(indexChanges, (d: IndexDescriptor) => InScope(scope, d.Schema()))
    }

    /** The constraint changes whose schema lies in `scope`. */
    function ConstraintChangesIn(scope: Scope): (r: DiffSet<ConstraintDescriptor>)
      ensures forall c :: r.IsAdded(c) <==> constraintChanges.IsAdded(c) && InScope(scope, c.schema)
      ensures forall c :: r.IsRemoved(c) <==> constraintChanges.IsRemoved(c) && InScope(scope, c.schema)
    {
      Restrict(constraintChanges, (c: ConstraintDescriptor) => InScope(scope, c.schema))
    }
  }

  /** `hasChanges` is whether the transaction has a state with changes; when it is false the
      overlay never looks at `state`. */
  datatype Transaction = Transaction(open: bool, hasChanges: bool, state: TxState, context: SecurityContext)
}
