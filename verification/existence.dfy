/** Node and relationship existence, deletion checks and total counts, seen through the
    transaction's own additions and deletions. */
module Existence {
  import opened Wrappers
  import opened DiffSets
  import opened Errors
  import opened Transactions
  import opened Storage

  /** The ids visible to the transaction: committed ids plus those it added, minus those it deleted. */
  function Visible(hasChanges: bool, d: DiffSet<int>, committed: set<int>): set<int>
  {
    if hasChanges then (committed + (set x | x in d.added)) - (set x | x in d.removed)
    else committed
  }

  function VisibleNodes(tx: Transaction, store: StorageReader): set<int>
  {
    Visible(tx.hasChanges, tx.state.nodes, store.nodes)
  }

  function VisibleRelationships(tx: Transaction, store: StorageReader): set<int>
  {
    Visible(tx.hasChanges, tx.state.relationships, store.relationships)
  }

  /** The decision both existence checks make: a deletion in this transaction wins, then an
      addition in this transaction, and otherwise storage decides. */
  function ExistsThrough(hasChanges: bool, d: DiffSet<int>, id: int, inStore: bool): bool
  {
    if hasChanges && d.IsRemoved(id) then false
    else if hasChanges && d.IsAdded(id) then true
    else inStore
  }

  function NodeExists(tx: Transaction, store: StorageReader, id: int): (r: Result<bool, KernelError>)
    ensures r.Failure? <==> !tx.open
    ensures r.Failure? ==> r.error == NotInTransaction
    ensures r.Success? ==> (r.value <==> id in VisibleNodes(tx, store))
    ensures r.Success? && tx.hasChanges && id in tx.state.nodes.removed ==> !r.value
    ensures r.Success? && tx.hasChanges && id !in tx.state.nodes.removed && id in tx.state.nodes.added ==> r.value
    ensures r.Success? && !tx.hasChanges ==> r.value == (id in store.nodes)
  {
    if !tx.open then Failure(NotInTransaction)
    else Success(ExistsThrough(tx.hasChanges, tx.state.nodes, id, id in store.nodes))
  }

  function RelationshipExists(tx: Transaction, store: StorageReader, id: int): (r: Result<bool, KernelError>)
    ensures r.Failure? <==> !tx.open
    ensures r.Failure? ==> r.error == NotInTransaction
    ensures r.Success? ==> (r.value <==> id in VisibleRelationships(tx, store))
    ensures r.Success? && tx.hasChanges && id in tx.state.relationships.removed ==> !r.value
    ensures r.Success? && tx.hasChanges && id !in tx.state.relationships.removed && id in tx.state.relationships.added ==> r.value
    ensures r.Success? && !tx.hasChanges ==> r.value == (id in store.relationships)
  {
    if !tx.open then Failure(NotInTransaction)
    else Success(ExistsThrough(tx.hasChanges, tx.state.relationships, id, id in store.relationships))
  }

  function NodeDeletedInTransaction(tx: Transaction, id: int): (r: Result<bool, KernelError>)
    ensures r.Failure? <==> !tx.open
    ensures r.Failure? ==> r.error == NotInTransaction
    ensures r.Success? ==> (r.value <==> tx.hasChanges && id in tx.state.nodes.removed)
    ensures forall store: StorageReader :: r == Success(true) ==> NodeExists(tx, store, id) == Success(false)
  {
    if !tx.open then Failure(NotInTransaction)
    else Success(tx.hasChanges && tx.state.nodes.IsRemoved(id))
  }

  function RelationshipDeletedInTransaction(tx: Transaction, id: int): (r: Result<bool, KernelError>)
    ensures r.Failure? <==> !tx.open
    ensures r.Failure? ==> r.error == NotInTransaction
    ensures r.Success? ==> (r.value <==> tx.hasChanges && id in tx.state.relationships.removed)
    ensures forall store: StorageReader :: r == Success(true) ==> RelationshipExists(tx, store, id) == Success(false)
  {
    if !tx.open then Failure(NotInTransaction)
    else Success(tx.hasChanges && tx.state.relationships.IsRemoved(id))
  }

  function NodesGetCount(tx: Transaction, store: StorageReader): (r: Result<int, KernelError>)
    ensures r.Failure? <==> !tx.open
    ensures r.Failure? ==> r.error == NotInTransaction
    ensures r.Success? && tx.hasChanges ==> r.value == store.nodeCount + |tx.state.nodes.added| - |tx.state.nodes.removed|
    ensures r.Success? && !tx.hasChanges ==> r.value == store.nodeCount
  {
    if !tx.open then Failure(NotInTransaction)
    else
      var base := store.nodeCount;
      Success(if tx.hasChanges then base + tx.state.nodes.Delta() else base)
  }

  function RelationshipsGetCount(tx: Transaction, store: StorageReader): (r: Result<int, KernelError>)
    ensures r.Failure? <==> !tx.open
    ensures r.Failure? ==> r.error == NotInTransaction
    ensures r.Success? && tx.hasChanges ==> r.value == store.relationshipCount + |tx.state.relationships.added| - |tx.state.relationships.removed|
    ensures r.Success? && !tx.hasChanges ==> r.value == store.relationshipCount
  {
    if !tx.open then Failure(NotInTransaction)
    else
      var base := store.relationshipCount;
      Success(if tx.hasChanges then base + tx.state.relationships.Delta() else base)
  }

  /** A sequence without repeats has as many distinct elements as it has elements. */
  lemma {:induction false} DistinctCardinality(s: seq<int>)
    requires forall i, j :: 0 <= i < j < |s| ==> s[i] != s[j]
    ensures |set x | x in s| == |s|
  {
    if |s| > 0 {
      var tail := s[1..];
      DistinctCardinality(tail);
      assert (set x | x in s) == {s[0]} + (set x | x in tail);
      assert s[0] !in (set x | x in tail);
    }
  }

  /** When storage's count agrees with its entity set, the transaction only adds ids storage does
      not have and only deletes ids storage has, the overlaid count is the number of visible ids. */
  lemma CountMatchesVisible(hasChanges: bool, d: DiffSet<int>, committed: set<int>, count: int)
    requires count == |committed|
    requires WellFormed(d)
    requires forall x :: x in d.added ==> x !in committed
    requires forall x :: x in d.removed ==> x in committed
    ensures |Visible(hasChanges, d, committed)| == (if hasChanges then count + d.Delta() else count)
  {
    if hasChanges {
      var a := set x | x in d.added;
      var rm := set x | x in d.removed;
      DistinctCardinality(d.added);
      DistinctCardinality(d.removed);
      assert committed !! a;
      var u := committed + a;
      assert |u| == |committed| + |a|;
      assert rm <= u;
      assert |u - rm| == |u| - |rm|;
    }
  }

  lemma NodesCountMatchesVisibleNodes(tx: Transaction, store: StorageReader)
    requires tx.open
    requires store.nodeCount == |store.nodes|
    requires WellFormed(tx.state.nodes)
    requires forall x :: x in tx.state.nodes.added ==> x !in store.nodes
    requires forall x :: x in tx.state.nodes.removed ==> x in store.nodes
    ensures NodesGetCount(tx, store) == Success(|VisibleNodes(tx, store)|)
  {
    CountMatchesVisible(tx.hasChanges, tx.state.nodes, store.nodes, store.nodeCount);
  }

  lemma RelationshipsCountMatchesVisibleRelationships(tx: Transaction, store: StorageReader)
    requires tx.open
    requires store.relationshipCount == |store.relationships|
    requires WellFormed(tx.state.relationships)
    requires forall x :: x in tx.state.relationships.added ==> x !in store.relationships
    requires forall x :: x in tx.state.relationships.removed ==> x in store.relationships
    ensures RelationshipsGetCount(tx, store) == Success(|VisibleRelationships(tx, store)|)
  {
    CountMatchesVisible(tx.hasChanges, tx.state.relationships, store.relationships, store.relationshipCount);
  }
}
