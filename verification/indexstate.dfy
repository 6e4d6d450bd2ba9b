/** Index state, population progress, failure, committed id and statistics for a reference,
    taking indexes created or dropped in the transaction into account. */
module IndexState {
  import opened Wrappers
  import opened DiffSets
  import opened Schema
  import opened Errors
  import opened Transactions
  import opened Storage
  import opened Indexes

  /** Fails for the NO_INDEX reference, and otherwise gives the reference's descriptor. */
  function AssertValidIndex(ref: IndexRef): (r: Result<IndexDescriptor, KernelError>)
    ensures r.Failure? <==> ref.NoIndex?
    ensures r.Failure? ==> r.error == IndexNotFound(NoIndexWasFound)
    ensures r.Success? ==> r.value == ref.descriptor
  {
    if ref.NoIndex? then Failure(IndexNotFound(NoIndexWasFound)) else Success(ref.descriptor)
  }

  /** Whether the index is one the transaction created (so the runtime does not know it yet);
      an index the transaction dropped is an error. An addition is checked before a removal. */
  function CheckIndexState(d: IndexDescriptor, changes: DiffSet<IndexDescriptor>): (r: Result<bool, KernelError>)
    ensures r == Success(true) <==> changes.IsAdded(d)
    ensures r.Failure? <==> !changes.IsAdded(d) && changes.IsRemoved(d)
    ensures r.Failure? ==> r.error == IndexNotFound(DroppedInThisTransaction(d.Schema()))
  {
    if changes.IsAdded(d) then Success(true)
    else if changes.IsRemoved(d) then Failure(IndexNotFound(DroppedInThisTransaction(d.Schema())))
    else Success(false)
  }

  /** The transaction neither created nor dropped `d`, so the runtime answers for it. */
  predicate Untouched(tx: Transaction, d: IndexDescriptor)
  {
    !(tx.hasChanges && (d in tx.state.indexChanges.added || d in tx.state.indexChanges.removed))
  }

  /** The steps `indexGetState` and `indexGetPopulationProgress` share before asking the runtime:
      the reference must not be NO_INDEX, the transaction must be open, and an index created in
      this transaction answers `true`. Every reference the overlay hands out is already a kernel
      descriptor, so the descriptor checked against the changes is the reference's own. */
  function CreatedInTransaction(tx: Transaction, ref: IndexRef): (r: Result<bool, KernelError>)
    ensures ref.NoIndex? ==> r == Failure(IndexNotFound(NoIndexWasFound))
    ensures ref.Ref? && !tx.open ==> r == Failure(NotInTransaction)
    ensures r == Success(true) <==> ref.Ref? && tx.open && tx.hasChanges && ref.descriptor in tx.state.indexChanges.added
    ensures ref.Ref? && tx.open && tx.hasChanges && ref.descriptor !in tx.state.indexChanges.added
              && ref.descriptor in tx.state.indexChanges.removed ==>
              r == Failure(IndexNotFound(DroppedInThisTransaction(ref.descriptor.Schema())))
    ensures r == Success(false) ==> ref.Ref? && tx.open
    ensures r == Success(false) && tx.hasChanges ==>
              ref.descriptor !in tx.state.indexChanges.added && ref.descriptor !in tx.state.indexChanges.removed
    ensures ref.Ref? && tx.open && Untouched(tx, ref.descriptor) ==> r == Success(false)
  {
    if ref.NoIndex? then Failure(IndexNotFound(NoIndexWasFound))
    else if !tx.open then Failure(NotInTransaction)
    else if tx.hasChanges then CheckIndexState(ref.descriptor, tx.state.IndexChangesIn(OnSchema(ref.descriptor.Schema())))
    else Success(false)
  }

  /** `indexGetState`: an index created in this transaction is POPULATING; otherwise the runtime's
      state for the reference's schema. */
  function IndexGetState(tx: Transaction, rt: IndexingService, ref: IndexRef): (r: Result<InternalIndexState, KernelError>)
    ensures ref.NoIndex? ==> r == Failure(IndexNotFound(NoIndexWasFound))
    ensures ref.Ref? && !tx.open ==> r == Failure(NotInTransaction)
    ensures ref.Ref? && tx.open && tx.hasChanges && ref.descriptor in tx.state.indexChanges.added ==> r == Success(Populating)
    ensures ref.Ref? && tx.open && tx.hasChanges && ref.descriptor !in tx.state.indexChanges.added
              && ref.descriptor in tx.state.indexChanges.removed ==>
              r == Failure(IndexNotFound(DroppedInThisTransaction(ref.descriptor.Schema())))
    ensures r.Success? ==> r == Success(Populating) || (ref.descriptor.Schema() in rt.proxies && r.value == rt.proxies[ref.descriptor.Schema()].state)
    ensures ref.Ref? && tx.open && Untouched(tx, ref.descriptor) ==>
              var s := ref.descriptor.Schema();
              r == (if s in rt.proxies then Success(rt.proxies[s].state) else Failure(IndexNotFound(NoProxyForSchema(s))))
  {
    var created :- CreatedInTransaction(tx, ref);
    if created then Success(Populating)
    else
      var proxy :- rt.GetIndexProxy(ref.descriptor.Schema());
      Success(proxy.state)
  }

  /** `indexGetPopulationProgress`: an index created in this transaction has made no progress;
      otherwise the runtime's progress for the reference's schema. */
  function IndexGetPopulationProgress(tx: Transaction, rt: IndexingService, ref: IndexRef): (r: Result<PopulationProgress, KernelError>)
    ensures ref.NoIndex? ==> r == Failure(IndexNotFound(NoIndexWasFound))
    ensures ref.Ref? && !tx.open ==> r == Failure(NotInTransaction)
    ensures ref.Ref? && tx.open && tx.hasChanges && ref.descriptor in tx.state.indexChanges.added ==> r == Success(NONE)
    ensures ref.Ref? && tx.open && tx.hasChanges && ref.descriptor !in tx.state.indexChanges.added
              && ref.descriptor in tx.state.indexChanges.removed ==>
              r == Failure(IndexNotFound(DroppedInThisTransaction(ref.descriptor.Schema())))
    ensures r.Success? ==> r == Success(NONE) || (ref.descriptor.Schema() in rt.proxies && r.value == rt.proxies[ref.descriptor.Schema()].progress)
    ensures ref.Ref? && tx.open && Untouched(tx, ref.descriptor) ==>
              var s := ref.descriptor.Schema();
              r == (if s in rt.proxies then Success(rt.proxies[s].progress) else Failure(IndexNotFound(NoProxyForSchema(s))))
  {
    var created :- CreatedInTransaction(tx, ref);
    if created then Success(NONE)
    else
      var proxy :- rt.GetIndexProxy(ref.descriptor.Schema());
      Success(proxy.progress)
  }

  /** The answer for an index created in this transaction does not depend on the runtime at all. */
  lemma CreatedIndexIgnoresRuntime(tx: Transaction, rt1: IndexingService, rt2: IndexingService, ref: IndexRef)
    requires tx.open && tx.hasChanges
    requires ref.Ref? && ref.descriptor in tx.state.indexChanges.added
    ensures IndexGetState(tx, rt1, ref) == IndexGetState(tx, rt2, ref) == Success(Populating)
    ensures IndexGetPopulationProgress(tx, rt1, ref) == IndexGetPopulationProgress(tx, rt2, ref) == Success(NONE)
  {
  }

  /** `indexGetFailure`: the runtime's population failure; it does not check the transaction. */
  function IndexGetFailure(rt: IndexingService, ref: IndexRef): (r: Result<string, KernelError>)
    ensures ref.NoIndex? ==> r == Failure(IndexNotFound(NoIndexWasFound))
    ensures ref.Ref? ==> (r.Success? <==> ref.descriptor.Schema() in rt.proxies)
    ensures r.Success? ==> r.value == rt.proxies[ref.descriptor.Schema()].failure
    ensures ref.Ref? && ref.descriptor.Schema() !in rt.proxies ==>
              r == Failure(IndexNotFound(NoProxyForSchema(ref.descriptor.Schema())))
  {
    var _ :- AssertValidIndex(ref);
    var proxy :- rt.GetIndexProxy(ref.descriptor.Schema());
    Success(proxy.failure)
  }

  /** `indexGetCommittedId`: only a committed reference has a storage id; anything else, NO_INDEX
      included, is a missing schema rule. */
  function IndexGetCommittedId(tx: Transaction, ref: IndexRef): (r: Result<int, KernelError>)
    ensures !tx.open ==> r == Failure(NotInTransaction)
    ensures r.Success? <==> tx.open && ref.Ref? && ref.descriptor.Committed?
    ensures r.Success? ==> r.value == ref.descriptor.index.id
    ensures tx.open && !(ref.Ref? && ref.descriptor.Committed?) ==> r == Failure(SchemaRuleNotFound)
  {
    if !tx.open then Failure(NotInTransaction)
    else match ref
      case Ref(Committed(index)) => Success(index.id)
      case _ => Failure(SchemaRuleNotFound)
  }

  /** Resolving a schema storage indexes and asking for the committed id gives storage's id, unless
      the transaction dropped the index; an index only the transaction created has no committed id. */
  lemma ResolvedCommittedId(tx: Transaction, store: StorageReader, rt: IndexingService, schema: SchemaDescriptor)
    requires tx.open
    requires rt.AgreesWith(store)
    ensures store.IndexGetForSchema(schema).Some? && !(tx.hasChanges && Committed(store.IndexGetForSchema(schema).value) in tx.state.indexChanges.removed) ==>
              IndexGetCommittedId(tx, IndexBySchema(tx, store, rt, schema).value) == Success(store.IndexGetForSchema(schema).value.id)
    ensures store.IndexGetForSchema(schema).None? && (forall d :: d in tx.state.indexChanges.added ==> d.Pending?) ==>
              IndexGetCommittedId(tx, IndexBySchema(tx, store, rt, schema).value) == Failure(SchemaRuleNotFound)
  {
  }

  /** A ratio of two longs, kept exact. */
  datatype Ratio = Ratio(numerator: int, denominator: int)

  /** The storage index behind a reference, looked up by the reference's schema. */
  function StorageIndexFor(store: StorageReader, ref: IndexRef): (r: Result<StoreIndex, KernelError>)
    requires ref.Ref?
    ensures r.Success? <==> store.IndexGetForSchema(ref.descriptor.Schema()).Some?
    ensures r.Success? ==> r.value == store.IndexGetForSchema(ref.descriptor.Schema()).value
    ensures r.Failure? ==> r.error == IndexNotFound(NoIndexForSchema(ref.descriptor.Schema()))
  {
    match store.IndexGetForSchema(ref.descriptor.Schema())
    case Some(index) => Success(index)
    case None => Failure(IndexNotFound(NoIndexForSchema(ref.descriptor.Schema())))
  }

  /** `indexUniqueValuesSelectivity`: unique values over sample size from the statistics of storage's
      index on the reference's schema; an empty sample is perfectly selective. */
  function IndexUniqueValuesSelectivity(tx: Transaction, store: StorageReader, stats: IndexStatisticsStore, ref: IndexRef): (r: Result<Ratio, KernelError>)
    ensures ref.NoIndex? ==> r == Failure(IndexNotFound(NoIndexWasFound))
    ensures ref.Ref? && !tx.open ==> r == Failure(NotInTransaction)
    ensures ref.Ref? && tx.open && store.IndexGetForSchema(ref.descriptor.Schema()).None? ==>
              r == Failure(IndexNotFound(NoIndexForSchema(ref.descriptor.Schema())))
    ensures r.Success? ==> r.value.denominator != 0
    ensures r.Success? ==>
              var sample := stats.indexSample(store.IndexGetForSchema(ref.descriptor.Schema()).value.id);
              if sample.second == 0 then r.value.numerator == r.value.denominator
              else r.value.numerator * sample.second == sample.first * r.value.denominator
  {
    var _ :- AssertValidIndex(ref);
    if !tx.open then Failure(NotInTransaction)
    else
      var index :- StorageIndexFor(store, ref);
      var sample := stats.indexSample(index.id);
      var unique := sample.first;
      var size := sample.second;
      Success(if size == 0 then Ratio(1, 1) else Ratio(unique, size))
  }

  /** `indexSize`: the size recorded for storage's index on the reference's schema. */
  function IndexSize(tx: Transaction, store: StorageReader, stats: IndexStatisticsStore, ref: IndexRef): (r: Result<int, KernelError>)
    ensures ref.NoIndex? ==> r == Failure(IndexNotFound(NoIndexWasFound))
    ensures ref.Ref? && !tx.open ==> r == Failure(NotInTransaction)
    ensures ref.Ref? && tx.open && store.IndexGetForSchema(ref.descriptor.Schema()).None? ==>
              r == Failure(IndexNotFound(NoIndexForSchema(ref.descriptor.Schema())))
    ensures r.Success? ==> (ref.Ref? && store.IndexGetForSchema(ref.descriptor.Schema()).Some? &&
              r.value == stats.indexUpdatesAndSize(store.IndexGetForSchema(ref.descriptor.Schema()).value.id).second)
    ensures ref.Ref? && tx.open ==> (r.Success? <==> store.IndexGetForSchema(ref.descriptor.Schema()).Some?)
  {
    var _ :- AssertValidIndex(ref);
    if !tx.open then Failure(NotInTransaction)
    else
      var index :- StorageIndexFor(store, ref);
      Success(stats.indexUpdatesAndSize(index.id).second)
  }

  /** `indexUpdatesAndSize`: unlike the two reads above, it checks the transaction before the reference. */
  function IndexUpdatesAndSize(tx: Transaction, store: StorageReader, stats: IndexStatisticsStore, ref: IndexRef): (r: Result<Register, KernelError>)
    ensures !tx.open ==> r == Failure(NotInTransaction)
    ensures tx.open && ref.NoIndex? ==> r == Failure(IndexNotFound(NoIndexWasFound))
    ensures r.Success? ==> (ref.Ref? && store.IndexGetForSchema(ref.descriptor.Schema()).Some? &&
              r.value == stats.indexUpdatesAndSize(store.IndexGetForSchema(ref.descriptor.Schema()).value.id))
    ensures tx.open && ref.Ref? ==> (r.Success? <==> store.IndexGetForSchema(ref.descriptor.Schema()).Some?)
    ensures tx.open && ref.Ref? && store.IndexGetForSchema(ref.descriptor.Schema()).None? ==>
              r == Failure(IndexNotFound(NoIndexForSchema(ref.descriptor.Schema())))
  {
    if !tx.open then Failure(NotInTransaction)
    else
      var _ :- AssertValidIndex(ref);
      var index :- StorageIndexFor(store, ref);
      Success(stats.indexUpdatesAndSize(index.id))
  }

  /** `indexSample`: the sampled (unique values, sample size) of storage's index on the reference's schema. */
  function IndexSample(tx: Transaction, store: StorageReader, stats: IndexStatisticsStore, ref: IndexRef): (r: Result<Register, KernelError>)
    ensures !tx.open ==> r == Failure(NotInTransaction)
    ensures tx.open && ref.NoIndex? ==> r == Failure(IndexNotFound(NoIndexWasFound))
    ensures r.Success? ==> (ref.Ref? && store.IndexGetForSchema(ref.descriptor.Schema()).Some? &&
              r.value == stats.indexSample(store.IndexGetForSchema(ref.descriptor.Schema()).value.id))
    ensures tx.open && ref.Ref? ==> (r.Success? <==> store.IndexGetForSchema(ref.descriptor.Schema()).Some?)
    ensures tx.open && ref.Ref? && store.IndexGetForSchema(ref.descriptor.Schema()).None? ==>
              r == Failure(IndexNotFound(NoIndexForSchema(ref.descriptor.Schema())))
  {
    if !tx.open then Failure(NotInTransaction)
    else
      var _ :- AssertValidIndex(ref);
      var index :- StorageIndexFor(store, ref);
      Success(stats.indexSample(index.id))
  }

  /** The size is the second half of the (updates, size) register: both reads succeed together and agree. */
  lemma SizeIsUpdatesAndSizeSecond(tx: Transaction, store: StorageReader, stats: IndexStatisticsStore, ref: IndexRef)
    requires tx.open
    ensures IndexSize(tx, store, stats, ref).Success? <==> IndexUpdatesAndSize(tx, store, stats, ref).Success?
    ensures IndexSize(tx, store, stats, ref).Success? ==>
              IndexSize(tx, store, stats, ref).value == IndexUpdatesAndSize(tx, store, stats, ref).value.second
    ensures ref.NoIndex? ==> IndexSize(tx, store, stats, ref) == Failure(IndexNotFound(NoIndexWasFound))
    ensures ref.NoIndex? ==> IndexUpdatesAndSize(tx, store, stats, ref) == Failure(IndexNotFound(NoIndexWasFound))
  {
  }

  /** Selectivity is the sample's ratio: whenever the sample is available, selectivity times the
      sample size is the number of unique values, and an empty sample gives exactly one. */
  lemma SelectivityFromSample(tx: Transaction, store: StorageReader, stats: IndexStatisticsStore, ref: IndexRef)
    requires IndexSample(tx, store, stats, ref).Success?
    ensures IndexUniqueValuesSelectivity(tx, store, stats, ref).Success?
    ensures var sample := IndexSample(tx, store, stats, ref).value;
            var s := IndexUniqueValuesSelectivity(tx, store, stats, ref).value;
            if sample.second == 0 then s == Ratio(1, 1) else s.numerator * sample.second == sample.first * s.denominator
  {
  }
}
