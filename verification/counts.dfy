/** Per-label and per-relationship-pattern counts, adjusted by the transaction's replayed delta. */
module Counts {
  import opened CountsDelta
  import opened Transactions
  import opened Storage

  /** The committed count for a label, ignoring the transaction. */
  function CountsForNodeWithoutTxState(store: StorageReader, labelId: int): (r: int)
    ensures r == store.countsForNode(labelId)
  {
    store.countsForNode(labelId)
  }

  /** The committed count for a relationship pattern, ignoring the transaction. */
  function CountsForRelationshipWithoutTxState(store: StorageReader, startLabelId: int, typeId: int, endLabelId: int): (r: int)
    ensures r == store.countsForRelationship(startLabelId, typeId, endLabelId)
  {
    store.countsForRelationship(startLabelId, typeId, endLabelId)
  }

  /** The count for `key` after adding the freshly replayed delta, which is consulted only when
      it records some change. */
  function Adjusted(base: int, tx: Transaction, key: CountKey): (r: int)
    ensures !tx.hasChanges ==> r == base
    ensures tx.hasChanges ==> r == base + SumFor(tx.state.countEvents, key)
  {
    if tx.hasChanges then
      var counts := Replay(tx.state.countEvents);
      ReplayCounts(tx.state.countEvents, key);
      if |counts| > 0 then base + Lookup(counts, key) else base
    else base
  }

  /** Unlike the other reads, the count reads do not check that the transaction is open. */
  function CountsForNode(tx: Transaction, store: StorageReader, labelId: int): (r: int)
    ensures !tx.hasChanges ==> r == CountsForNodeWithoutTxState(store, labelId)
    ensures tx.hasChanges ==> r == store.countsForNode(labelId) + SumFor(tx.state.countEvents, NodeCount(labelId))
  {
    Adjusted(CountsForNodeWithoutTxState(store, labelId), tx, NodeCount(labelId))
  }

  function CountsForRelationship(tx: Transaction, store: StorageReader, startLabelId: int, typeId: int, endLabelId: int): (r: int)
    ensures !tx.hasChanges ==> r == CountsForRelationshipWithoutTxState(store, startLabelId, typeId, endLabelId)
    ensures tx.hasChanges ==> r == store.countsForRelationship(startLabelId, typeId, endLabelId)
                                   + SumFor(tx.state.countEvents, RelationshipCount(startLabelId, typeId, endLabelId))
  {
    Adjusted(CountsForRelationshipWithoutTxState(store, startLabelId, typeId, endLabelId), tx,
             RelationshipCount(startLabelId, typeId, endLabelId))
  }

  /** Changes reported for other categories never move a category's count. */
  lemma {:induction false} OtherCategoriesDoNotCount(events: seq<CountEvent>, key: CountKey)
    requires forall i :: 0 <= i < |events| ==> events[i].key != key
    ensures SumFor(events, key) == 0
  {
    if |events| > 0 {
      OtherCategoriesDoNotCount(events[1..], key);
    }
  }

  /** The transaction-aware counts and the counts that ignore the transaction differ by exactly
      the transaction's summed events for the label or pattern, and not at all without changes. */
  lemma TxStateAdjustment(tx: Transaction, store: StorageReader, labelId: int, startLabelId: int, typeId: int, endLabelId: int)
    ensures CountsForNode(tx, store, labelId) - CountsForNodeWithoutTxState(store, labelId)
            == (if tx.hasChanges then SumFor(tx.state.countEvents, NodeCount(labelId)) else 0)
    ensures CountsForRelationship(tx, store, startLabelId, typeId, endLabelId)
              - CountsForRelationshipWithoutTxState(store, startLabelId, typeId, endLabelId)
            == (if tx.hasChanges then SumFor(tx.state.countEvents, RelationshipCount(startLabelId, typeId, endLabelId)) else 0)
  {
  }

  /** With or without the transaction, a label's count differs only by the transaction's own
      events on that label: whatever it did to other labels or patterns leaves the count alone. */
  lemma {:induction false} TxStateOnlyAddsOwnEvents(tx: Transaction, store: StorageReader, labelId: int)
    requires forall i :: 0 <= i < |tx.state.countEvents| ==> tx.state.countEvents[i].key != NodeCount(labelId)
    ensures CountsForNode(tx, store, labelId) == CountsForNodeWithoutTxState(store, labelId)
  {
    OtherCategoriesDoNotCount(tx.state.countEvents, NodeCount(labelId));
  }

  /** A label's count, with ten committed nodes, three added and one deleted in the transaction, is twelve. */
  lemma LabelCountExample(tx: Transaction, store: StorageReader, labelId: int)
    requires tx.hasChanges
    requires store.countsForNode(labelId) == 10
    requires tx.state.countEvents == [CountEvent(NodeCount(labelId), 1), CountEvent(NodeCount(labelId), 1),
                                      CountEvent(NodeCount(labelId + 1), 1), CountEvent(NodeCount(labelId), 1),
                                      CountEvent(NodeCount(labelId), -1)]
    ensures CountsForNode(tx, store, labelId) == 12
  {
    var events := tx.state.countEvents;
    var key := NodeCount(labelId);
    assert SumFor(events[4..], key) == -1 + SumFor(events[5..], key);
    assert SumFor(events[3..], key) == 1 + SumFor(events[4..], key);
    assert SumFor(events[2..], key) == SumFor(events[3..], key);
    assert SumFor(events[1..], key) == 1 + SumFor(events[2..], key);
  }
}
