/** Constraint existence and listing, merging committed constraints with the transaction's
    constraint changes. */
module Constraints {
  import opened Wrappers
  import opened Iterators
  import opened DiffSets
  import opened Schema
  import opened Errors
  import opened Transactions
  import opened Storage

  /** A constraint the transaction sees: one it added, or a committed one it did not drop. */
  predicate VisibleConstraint(tx: Transaction, store: StorageReader, c: ConstraintDescriptor)
  {
    if tx.hasChanges then c in tx.state.constraintChanges.added || (c in store.constraints && c !in tx.state.constraintChanges.removed)
    else c in store.constraints
  }

  /** `constraintExists`: consults the changes on the constraint's own schema. */
  function ConstraintExists(tx: Transaction, store: StorageReader, c: ConstraintDescriptor): (r: Result<bool, KernelError>)
    ensures r.Failure? <==> !tx.open
    ensures r.Failure? ==> r.error == NotInTransaction
    ensures r.Success? ==> (r.value <==> VisibleConstraint(tx, store, c))
  {
    if !tx.open then Failure(NotInTransaction)
    else
      var inStore := c in store.constraints;
      if tx.hasChanges then
        var changes := tx.state.ConstraintChangesIn(OnSchema(c.schema));
        Success(changes.IsAdded(c) || (inStore && !changes.IsRemoved(c)))
      else Success(inStore)
  }

  /** Storage's constraints in `scope`, seen through the transaction's changes in that scope. */
  function ConstraintsIn(tx: Transaction, store: StorageReader, scope: Scope): (r: seq<ConstraintDescriptor>)
    ensures forall c :: c in r <==> InScope(scope, c.schema) && VisibleConstraint(tx, store, c)
  {
    var committed := store.ConstraintsIn(scope);
    if tx.hasChanges then Apply(tx.state.ConstraintChangesIn(scope), committed) else committed
  }

  function ConstraintsGetForSchema(tx: Transaction, store: StorageReader, schema: SchemaDescriptor): (r: Result<seq<ConstraintDescriptor>, KernelError>)
    ensures r.Failure? <==> !tx.open
    ensures r.Failure? ==> r.error == NotInTransaction
    ensures r.Success? ==> forall c :: c in r.value <==> c.schema == schema && VisibleConstraint(tx, store, c)
  {
    if !tx.open then Failure(NotInTransaction) else Success(ConstraintsIn(tx, store, OnSchema(schema)))
  }

  function ConstraintsGetForLabel(tx: Transaction, store: StorageReader, labelId: int): (r: Result<seq<ConstraintDescriptor>, KernelError>)
    ensures r.Failure? <==> !tx.open
    ensures r.Failure? ==> r.error == NotInTransaction
    ensures r.Success? ==> forall c :: c in r.value <==>
              c.schema.kind == NodeLabel && c.schema.entityToken == labelId && VisibleConstraint(tx, store, c)
  {
    if !tx.open then Failure(NotInTransaction) else Success(ConstraintsIn(tx, store, OnLabel(labelId)))
  }

  function ConstraintsGetForRelationshipType(tx: Transaction, store: StorageReader, typeId: int): (r: Result<seq<ConstraintDescriptor>, KernelError>)
    ensures r.Failure? <==> !tx.open
    ensures r.Failure? ==> r.error == NotInTransaction
    ensures r.Success? ==> forall c :: c in r.value <==>
              c.schema.kind == RelationshipType && c.schema.entityToken == typeId && VisibleConstraint(tx, store, c)
  {
    if !tx.open then Failure(NotInTransaction) else Success(ConstraintsIn(tx, store, OnRelationshipType(typeId)))
  }

  function ConstraintsGetAll(tx: Transaction, store: StorageReader): (r: Result<seq<ConstraintDescriptor>, KernelError>)
    ensures r.Failure? <==> !tx.open
    ensures r.Failure? ==> r.error == NotInTransaction
    ensures r.Success? ==> forall c :: c in r.value <==> VisibleConstraint(tx, store, c)
  {
    if !tx.open then Failure(NotInTransaction) else Success(ConstraintsIn(tx, store, Everything))
  }

  /** `constraintsGetForProperty`: every visible constraint, then only those on the property. */
  function ConstraintsGetForProperty(tx: Transaction, store: StorageReader, propertyKey: int): (r: Result<seq<ConstraintDescriptor>, KernelError>)
    ensures r.Failure? <==> !tx.open
    ensures r.Failure? ==> r.error == NotInTransaction
    ensures r.Success? ==> forall c :: c in r.value <==> propertyKey in c.schema.properties && VisibleConstraint(tx, store, c)
  {
    if !tx.open then Failure(NotInTransaction)
    else Success(Filter(ConstraintsIn(tx, store, Everything), (c: ConstraintDescriptor) => propertyKey in c.schema.properties))
  }

  /** A constraint exists exactly when listing all constraints, or those on its schema, returns it. */
  lemma ExistenceMatchesListing(tx: Transaction, store: StorageReader, c: ConstraintDescriptor)
    requires tx.open
    ensures ConstraintExists(tx, store, c).value <==> c in ConstraintsGetAll(tx, store).value
    ensures ConstraintExists(tx, store, c).value <==> c in ConstraintsGetForSchema(tx, store, c.schema).value
  {
  }
}
