/** The committed side the overlay reads from: the storage snapshot, the indexing runtime and
    the index statistics store. None of them is changed by the overlay. */
module Storage {
  import opened Wrappers
  import opened Iterators
  import opened Schema
  import opened Errors

  /** A point-in-time view of committed storage. Counts come from the counts store and are kept
      apart from the entity sets, as in storage itself. */
  datatype StorageReader = StorageReader(
    nodes: set<int>,
    relationships: set<int>,
    nodeCount: int,
    relationshipCount: int,
    countsForNode: int -> int,
    countsForRelationship: (int, int, int) -> int,
    indexes: seq<StoreIndex>,
    constraints: seq<ConstraintDescriptor>)
  {
    /** The committed index on `schema`, if storage has one. */
    function IndexGetForSchema(schema: SchemaDescriptor): (r: Option<StoreIndex>)
      ensures r.Some? ==> r.value in indexes && r.value.schema == schema
      ensures r.None? <==> forall i :: i in indexes ==> i.schema != schema
    {
      FirstMatch(indexes, (i: StoreIndex) => i.schema == schema)
    }

    /** The committed indexes whose schema lies in `scope`, as descriptors. */
    function IndexesIn(scope: Scope): (r: seq<IndexDescriptor>)
      ensures forall d :: d in r <==> d.Committed? && d.index in indexes && InScope(scope, d.Schema())
    {
      var inScope := Filter(indexes, (i: StoreIndex) => InScope(scope, i.schema));
      var r := seq(|inScope|, k requires 0 <= k < |inScope| => Committed(inScope[k]));
      assert forall d :: d in r ==> d.Committed? && d.index in inScope;
      assert forall i :: i in inScope ==> Committed(i) in r by {
        forall i | i in inScope ensures Committed(i) in r {
          var k :| 0 <= k < |inScope| && inScope[k] == i;
          assert r[k] == Committed(i);
        }
      }
      r
    }

    /** The committed constraints whose schema lies in `scope`. */
    function ConstraintsIn(scope: Scope): (r: seq<ConstraintDescriptor>)
      ensures forall c :: c in r <==> c in constraints && InScope(scope, c.schema)
    {
      Filter(constraints, (c: ConstraintDescriptor) => InScope(scope, c.schema))
    }
  }

  /** An index's lifecycle state as the indexing runtime reports it. */
  datatype InternalIndexState = Populating | Online | Failed

  datatype PopulationProgress = PopulationProgress(completed: int, total: int)

  /** The progress reported for an index that has not started populating. */
  const NONE: PopulationProgress := PopulationProgress(0, 0)

  /** The indexing runtime's live view of one committed index. */
  datatype IndexProxy = IndexProxy(
    descriptor: StoreIndex,
    state: InternalIndexState,
    progress: PopulationProgress,
    failure: string)

  /** The indexing runtime: the indexes it has loaded, by schema. */
  datatype IndexingService = IndexingService(proxies: map<SchemaDescriptor, IndexProxy>)
  {
    function GetIndexProxy(schema: SchemaDescriptor): (r: Result<IndexProxy, KernelError>)
      ensures r.Success? <==> schema in proxies
      ensures r.Success? ==> r.value == proxies[schema]
      ensures r.Failure? ==> r.error == IndexNotFound(NoProxyForSchema(schema))
    {
      if schema in proxies then Success(proxies[schema])
      else Failure(IndexNotFound(NoProxyForSchema(schema)))
    }

    /** The runtime and storage agree on the committed indexes they both know. */
    predicate AgreesWith(store: StorageReader)
    {
      && (forall s :: s in proxies ==> proxies[s].descriptor.schema == s)
      && (forall i :: i in store.indexes && i.schema in proxies ==> proxies[i.schema].descriptor.id == i.id)
    }
  }

  /** A pair of longs, as the statistics store writes them. */
  datatype Register = Register(first: int, second: int)

  /** Sampled statistics by committed index id: (unique values, sample size) and (updates, size). */
  datatype IndexStatisticsStore = IndexStatisticsStore(
    indexSample: int -> Register,
    indexUpdatesAndSize: int -> Register)
}
