/** Resolving a schema or a label and properties to exactly one index reference, and listing
    indexes, by merging committed storage with the transaction's index changes. */
module Indexes {
  import opened Wrappers
  import opened Iterators
  import opened DiffSets
  import opened Schema
  import opened Errors
  import opened Transactions
  import opened Storage

  /** Maps a descriptor to the reference the rest of the kernel works with. No descriptor means
      no index; a committed one is looked up in the indexing runtime and, when the runtime does not
      know it, is used as storage describes it; a pending one is used as it is. */
  function IndexReference(rt: IndexingService, d: Option<IndexDescriptor>): (r: IndexRef)
    ensures r.NoIndex? <==> d.None?
    ensures d.Some? && d.value.Pending? ==> r == Ref(d.value)
    ensures d.Some? && d.value.Committed? ==> r.Ref? && r.descriptor.Committed?
    ensures d.Some? && d.value.Committed? && d.value.Schema() in rt.proxies ==>
              r == Ref(Committed(rt.proxies[d.value.Schema()].descriptor))
    ensures d.Some? && d.value.Committed? && d.value.Schema() !in rt.proxies ==> r == Ref(d.value)
  {
    match d
    case None => NoIndex
    case Some(Pending(_, _)) => Ref(d.value)
    case Some(Committed(index)) =>
      match rt.GetIndexProxy(index.schema)
      case Success(proxy) => Ref(Committed(proxy.descriptor))
      case Failure(_) => Ref(Committed(index))
  }

  /** When the runtime agrees with storage, mapping a committed index keeps its id and schema. */
  lemma ReferenceKeepsIdentity(rt: IndexingService, store: StorageReader, c: StoreIndex)
    requires rt.AgreesWith(store)
    requires c in store.indexes
    ensures IndexReference(rt, Some(Committed(c))).descriptor.index.id == c.id
    ensures IndexReference(rt, Some(Committed(c))).descriptor.index.schema == c.schema
  {
  }

  function HasSchema(schema: SchemaDescriptor): IndexDescriptor -> bool
  {
    (d: IndexDescriptor) => d.Schema() == schema
  }

  /** The shared resolution rule: with changes, a committed index dropped in this transaction is
      absent, and only when storage has no index does the first added index on the schema count. */
  function Resolve(committed: Option<StoreIndex>, hasChanges: bool, changes: DiffSet<IndexDescriptor>,
                   schema: SchemaDescriptor): Option<IndexDescriptor>
  {
    match committed
    case Some(c) =>
      if hasChanges && changes.IsRemoved(Committed(c)) then None else Some(Committed(c))
    case None =>
      if hasChanges then FirstMatch(changes.added, HasSchema(schema)) else None
  }

  /** The index a transaction sees for `schema` is one of: none, storage's index, or an index the
      transaction added while storage has none. */
  predicate OneOutcome(tx: Transaction, store: StorageReader, schema: SchemaDescriptor, r: Option<IndexDescriptor>)
  {
    || r.None?
    || (r.value.Committed? && store.IndexGetForSchema(schema) == Some(r.value.index))
    || (tx.hasChanges && store.IndexGetForSchema(schema).None? && r.value in tx.state.indexChanges.added)
  }

  /** The descriptor `index(schema)` resolves to, before mapping it to a reference. */
  function ResolvedForSchema(tx: Transaction, store: StorageReader, schema: SchemaDescriptor): (r: Option<IndexDescriptor>)
    ensures OneOutcome(tx, store, schema, r)
    ensures r.Some? ==> r.value.Schema() == schema
    ensures !tx.hasChanges ==> r == (if store.IndexGetForSchema(schema).Some? then Some(Committed(store.IndexGetForSchema(schema).value)) else None)
    ensures store.IndexGetForSchema(schema).Some? && tx.hasChanges ==>
              (r.None? <==> Committed(store.IndexGetForSchema(schema).value) in tx.state.indexChanges.removed)
    ensures store.IndexGetForSchema(schema).None? && tx.hasChanges ==>
              (r.Some? <==> exists d :: d in tx.state.indexChanges.added && d.Schema() == schema)
    ensures store.IndexGetForSchema(schema).None? && tx.hasChanges && r.Some? ==>
              exists i :: 0 <= i < |tx.state.indexChanges.added| && tx.state.indexChanges.added[i] == r.value &&
                forall j :: 0 <= j < i ==> tx.state.indexChanges.added[j].Schema() != schema
  {
    var changes := tx.state.IndexChangesIn(OnSchema(schema));
    FirstMatchOfFilter(tx.state.indexChanges.added, HasSchema(schema), (d: IndexDescriptor) => InScope(OnSchema(schema), d.Schema()));
    Resolve(store.IndexGetForSchema(schema), tx.hasChanges, changes, schema)
  }

  /** `index(schema)`. */
  function IndexBySchema(tx: Transaction, store: StorageReader, rt: IndexingService, schema: SchemaDescriptor): (r: Result<IndexRef, KernelError>)
    ensures r.Failure? <==> !tx.open
    ensures r.Failure? ==> r.error == NotInTransaction
    ensures r.Success? ==> r.value == IndexReference(rt, ResolvedForSchema(tx, store, schema))
  {
    if !tx.open then Failure(NotInTransaction)
    else Success(IndexReference(rt, ResolvedForSchema(tx, store, schema)))
  }

  /** `index(label, properties...)`: unknown label or property tokens give no index rather than
      an error; otherwise it is `index(schema)` for the label's schema, even though it consults
      the transaction's changes by label rather than by schema. */
  function IndexByLabel(tx: Transaction, store: StorageReader, rt: IndexingService, labelId: int, properties: seq<int>): (r: Result<IndexRef, KernelError>)
    ensures r.Failure? <==> !tx.open
    ensures r.Failure? ==> r.error == NotInTransaction
    ensures r.Success? && ForLabel(labelId, properties).None? ==> r.value == NoIndex
    ensures ForLabel(labelId, properties).Some? ==> r == IndexBySchema(tx, store, rt, ForLabel(labelId, properties).value)
  {
    if !tx.open then Failure(NotInTransaction)
    else
      match ForLabel(labelId, properties)
      case None => Success(NoIndex)
      case Some(schema) =>
        var changes := tx.state.IndexChangesIn(OnLabel(labelId));
        LabelChangesResolveAsSchema(tx, store, labelId, schema);
        Success(IndexReference(rt, Resolve(store.IndexGetForSchema(schema), tx.hasChanges, changes, schema)))
  }

  /** Consulting the changes on the label gives the same resolution as consulting the changes on
      one of the label's schemas. */
  lemma LabelChangesResolveAsSchema(tx: Transaction, store: StorageReader, labelId: int, schema: SchemaDescriptor)
    requires schema.kind == NodeLabel && schema.entityToken == labelId
    ensures Resolve(store.IndexGetForSchema(schema), tx.hasChanges, tx.state.IndexChangesIn(OnLabel(labelId)), schema)
            == ResolvedForSchema(tx, store, schema)
  {
    var byLabel := tx.state.IndexChangesIn(OnLabel(labelId));
    var bySchema := tx.state.IndexChangesIn(OnSchema(schema));
    var added := tx.state.indexChanges.added;
    var onLabel := (d: IndexDescriptor) => InScope(OnLabel(labelId), d.Schema());
    var onSchema := (d: IndexDescriptor) => InScope(OnSchema(schema), d.Schema());
    assert Resolve(store.IndexGetForSchema(schema), tx.hasChanges, bySchema, schema) == ResolvedForSchema(tx, store, schema);
    match store.IndexGetForSchema(schema)
    case Some(c) =>
      assert byLabel.IsRemoved(Committed(c)) <==> bySchema.IsRemoved(Committed(c));
    case None =>
      assert byLabel.added == Filter(added, onLabel);
      assert bySchema.added == Filter(added, onSchema);
      FirstMatchOfFilter(added, HasSchema(schema), onLabel);
      FirstMatchOfFilter(added, HasSchema(schema), onSchema);
  }

  /** The transaction's candidates for `schema` in the form `indexGetForSchema` collects them:
      storage's index, seen through the changes on the schema, kept if on the schema. */
  function Candidates(tx: Transaction, store: StorageReader, schema: SchemaDescriptor): (r: seq<IndexDescriptor>)
    ensures !tx.hasChanges ==> r == CommittedForSchema(store, schema)
    ensures tx.hasChanges ==>
              r == (match store.IndexGetForSchema(schema)
                    case Some(c) => if Committed(c) in tx.state.indexChanges.removed then [] else [Committed(c)]
                    case None => [])
                   + Filter(tx.state.indexChanges.added, HasSchema(schema))
  {
    var committed := CommittedForSchema(store, schema);
    if tx.hasChanges then
      CandidatesFromState(tx, store, schema);
      Filter(Apply(tx.state.IndexChangesIn(OnSchema(schema)), committed), HasSchema(schema))
    else committed
  }

  /** The candidates, stated over the whole transaction state rather than its part on the schema:
      storage's index unless the transaction dropped it, then every index it added on the schema. */
  lemma CandidatesFromState(tx: Transaction, store: StorageReader, schema: SchemaDescriptor)
    ensures Filter(Apply(tx.state.IndexChangesIn(OnSchema(schema)), CommittedForSchema(store, schema)), HasSchema(schema))
            == (match store.IndexGetForSchema(schema)
                case Some(c) => if Committed(c) in tx.state.indexChanges.removed then [] else [Committed(c)]
                case None => [])
               + Filter(tx.state.indexChanges.added, HasSchema(schema))
  {
    var changes := tx.state.IndexChangesIn(OnSchema(schema));
    var inScope := (d: IndexDescriptor) => InScope(OnSchema(schema), d.Schema());
    var kept := Filter(CommittedForSchema(store, schema), (x: IndexDescriptor) => x !in changes.removed);
    FilterConcat(kept, changes.added, HasSchema(schema));
    assert changes.added == Filter(tx.state.indexChanges.added, inScope);
    FilterNarrowing(tx.state.indexChanges.added, HasSchema(schema), inScope);
    match store.IndexGetForSchema(schema)
    case Some(c) =>
      assert [Committed(c)][1..] == [];
      if Committed(c) in tx.state.indexChanges.removed {
        assert Committed(c) in changes.removed;
        assert kept == [];
      } else {
        assert Committed(c) !in changes.removed;
        assert kept == [Committed(c)];
        assert Filter(kept, HasSchema(schema)) == [Committed(c)];
      }
    case None =>
  }

  /** `indexGetForSchema`: like `index(schema)`, but it does not check that the transaction is open
      and it fails when more than one candidate remains. */
  function IndexGetForSchema(tx: Transaction, store: StorageReader, rt: IndexingService, schema: SchemaDescriptor): (r: Result<IndexRef, KernelError>)
    ensures r.Failure? ==> r.error == MoreThanOneElement && tx.hasChanges
    ensures r.Failure? <==> |Candidates(tx, store, schema)| > 1
    ensures |Candidates(tx, store, schema)| == 0 ==> r == Success(NoIndex)
    ensures |Candidates(tx, store, schema)| == 1 ==> r == Success(IndexReference(rt, Some(Candidates(tx, store, schema)[0])))
    ensures r.Success? && r.value.Ref? ==> r.value.descriptor.Committed? || r.value.descriptor in tx.state.indexChanges.added
  {
    match SingleOrNull(Candidates(tx, store, schema))
    case Failure(_) => Failure(MoreThanOneElement)
    case Success(d) => Success(IndexReference(rt, d))
  }

  /** The two resolvers agree whenever the transaction never adds an index on a schema storage
      already indexes, and adds at most one index per schema. */
  lemma ResolversAgree(tx: Transaction, store: StorageReader, rt: IndexingService, schema: SchemaDescriptor)
    requires tx.open
    requires store.IndexGetForSchema(schema).Some? ==> forall d :: d in tx.state.indexChanges.added ==> d.Schema() != schema
    requires forall i, j :: 0 <= i < j < |tx.state.indexChanges.added| ==>
               !(tx.state.indexChanges.added[i].Schema() == schema && tx.state.indexChanges.added[j].Schema() == schema)
    ensures IndexGetForSchema(tx, store, rt, schema) == IndexBySchema(tx, store, rt, schema)
  {
    var resolved := ResolvedForSchema(tx, store, schema);
    if !tx.hasChanges {
    } else if store.IndexGetForSchema(schema).Some? {
      CandidatesWhenStorageIndexes(tx, store, schema);
    } else {
      CandidatesWhenOnlyAdded(tx, store, schema);
    }
    assert Candidates(tx, store, schema) == (if resolved.Some? then [resolved.value] else []);
  }

  /** Storage indexes the schema and the transaction added nothing on it: the candidates are the
      resolved index, if any. */
  lemma CandidatesWhenStorageIndexes(tx: Transaction, store: StorageReader, schema: SchemaDescriptor)
    requires tx.hasChanges && store.IndexGetForSchema(schema).Some?
    requires forall d :: d in tx.state.indexChanges.added ==> d.Schema() != schema
    ensures var resolved := ResolvedForSchema(tx, store, schema);
            Candidates(tx, store, schema) == (if resolved.Some? then [resolved.value] else [])
  {
    assert forall d :: d in tx.state.indexChanges.added ==> !HasSchema(schema)(d);
    FilterNone(tx.state.indexChanges.added, HasSchema(schema));
  }

  /** Storage has no index on the schema and the transaction added at most one: the candidates are
      the resolved index, if any. */
  lemma CandidatesWhenOnlyAdded(tx: Transaction, store: StorageReader, schema: SchemaDescriptor)
    requires tx.hasChanges && store.IndexGetForSchema(schema).None?
    requires forall i, j :: 0 <= i < j < |tx.state.indexChanges.added| ==>
               !(tx.state.indexChanges.added[i].Schema() == schema && tx.state.indexChanges.added[j].Schema() == schema)
    ensures var resolved := ResolvedForSchema(tx, store, schema);
            Candidates(tx, store, schema) == (if resolved.Some? then [resolved.value] else [])
  {
    var added := tx.state.indexChanges.added;
    var inScope := (d: IndexDescriptor) => InScope(OnSchema(schema), d.Schema());
    FilterAtMostOne(added, HasSchema(schema));
    FirstMatchOfFilter(added, HasSchema(schema), inScope);
    var changes := tx.state.IndexChangesIn(OnSchema(schema));
    assert changes.added == Filter(added, inScope);
    assert ResolvedForSchema(tx, store, schema) == FirstMatch(added, HasSchema(schema));
    assert Candidates(tx, store, schema) == [] + Filter(added, HasSchema(schema));
  }

  /** Storage's index on `schema`, as a sequence of at most one descriptor. */
  function CommittedForSchema(store: StorageReader, schema: SchemaDescriptor): seq<IndexDescriptor>
  {
    match store.IndexGetForSchema(schema)
    case Some(c) => [Committed(c)]
    case None => []
  }

  /** Dropping a committed index and creating one on the same schema in a single transaction:
      `index(schema)` reports no index, while `indexGetForSchema` finds the new pending one. */
  lemma DropAndRecreate(tx: Transaction, store: StorageReader, rt: IndexingService, c: StoreIndex, provider: int)
    requires tx.open && tx.hasChanges
    requires store.IndexGetForSchema(c.schema) == Some(c)
    requires tx.state.indexChanges == DiffSet([Pending(c.schema, provider)], [Committed(c)])
    ensures IndexBySchema(tx, store, rt, c.schema) == Success(NoIndex)
    ensures IndexGetForSchema(tx, store, rt, c.schema) == Success(Ref(Pending(c.schema, provider)))
  {
    var changes := tx.state.IndexChangesIn(OnSchema(c.schema));
    assert changes.added == [Pending(c.schema, provider)];
    assert Filter([Committed(c)], (x: IndexDescriptor) => x !in changes.removed) == [];
    assert Candidates(tx, store, c.schema) == Filter(changes.added, HasSchema(c.schema));
  }

  /** The descriptors whose schema lies in `scope` that the transaction sees: committed ones it did
      not drop, and those it added. */
  predicate VisibleIndex(tx: Transaction, store: StorageReader, scope: Scope, d: IndexDescriptor)
  {
    && InScope(scope, d.Schema())
    && if tx.hasChanges then
         (d.Committed? && d.index in store.indexes && d !in tx.state.indexChanges.removed) || d in tx.state.indexChanges.added
       else d.Committed? && d.index in store.indexes
  }

  function References(rt: IndexingService, ds: seq<IndexDescriptor>): (r: seq<IndexRef>)
    ensures |r| == |ds|
    ensures forall i :: 0 <= i < |ds| ==> r[i] == IndexReference(rt, Some(ds[i]))
  {
    seq(|ds|, i requires 0 <= i < |ds| => IndexReference(rt, Some(ds[i])))
  }

  /** The references for every index in `scope` the transaction sees, and for nothing else. */
  function IndexesIn(tx: Transaction, store: StorageReader, rt: IndexingService, scope: Scope): (r: seq<IndexRef>)
    ensures forall x :: x in r ==> x.Ref?
    ensures forall d :: VisibleIndex(tx, store, scope, d) ==> IndexReference(rt, Some(d)) in r
    ensures forall x :: x in r ==> exists d :: VisibleIndex(tx, store, scope, d) && x == IndexReference(rt, Some(d))
  {
    var committed := store.IndexesIn(scope);
    var visible := if tx.hasChanges then Apply(tx.state.IndexChangesIn(scope), committed) else committed;
    assert forall d :: d in visible <==> VisibleIndex(tx, store, scope, d);
    var r := References(rt, visible);
    assert forall d :: d in visible ==> IndexReference(rt, Some(d)) in r by {
      forall d | d in visible ensures IndexReference(rt, Some(d)) in r {
        var k :| 0 <= k < |visible| && visible[k] == d;
        assert r[k] == IndexReference(rt, Some(d));
      }
    }
    r
  }

  /** `indexesGetForLabel`. */
  function IndexesGetForLabel(tx: Transaction, store: StorageReader, rt: IndexingService, labelId: int): (r: Result<seq<IndexRef>, KernelError>)
    ensures r.Failure? <==> !tx.open
    ensures r.Failure? ==> r.error == NotInTransaction
    ensures r.Success? ==> forall d :: VisibleIndex(tx, store, OnLabel(labelId), d) ==> IndexReference(rt, Some(d)) in r.value
    ensures r.Success? ==> forall x :: x in r.value ==> exists d :: VisibleIndex(tx, store, OnLabel(labelId), d) && x == IndexReference(rt, Some(d))
  {
    if !tx.open then Failure(NotInTransaction) else Success(IndexesIn(tx, store, rt, OnLabel(labelId)))
  }

  /** `indexesGetAll`. */
  function IndexesGetAll(tx: Transaction, store: StorageReader, rt: IndexingService): (r: Result<seq<IndexRef>, KernelError>)
    ensures r.Failure? <==> !tx.open
    ensures r.Failure? ==> r.error == NotInTransaction
    ensures r.Success? ==> forall d :: VisibleIndex(tx, store, Everything, d) ==> IndexReference(rt, Some(d)) in r.value
    ensures r.Success? ==> forall x :: x in r.value ==> exists d :: VisibleIndex(tx, store, Everything, d) && x == IndexReference(rt, Some(d))
  {
    if !tx.open then Failure(NotInTransaction) else Success(IndexesIn(tx, store, rt, Everything))
  }

  /** When the runtime files each index under its own schema, listing by label returns only
      references to indexes on that label. */
  lemma LabelListingStaysOnLabel(tx: Transaction, store: StorageReader, rt: IndexingService, labelId: int)
    requires tx.open
    requires rt.AgreesWith(store)
    ensures forall x :: x in IndexesGetForLabel(tx, store, rt, labelId).value ==>
              x.Ref? && x.descriptor.Schema().kind == NodeLabel && x.descriptor.Schema().entityToken == labelId
  {
  }
}
