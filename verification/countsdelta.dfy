/** The signed per-category count changes a transaction makes, as replayed from its state. */
module CountsDelta {

  /** A count category: nodes with a label, or relationships by start label, type and end label. */
  datatype CountKey =
    | NodeCount(labelId: int)
    | RelationshipCount(startLabelId: int, typeId: int, endLabelId: int)

  /** One change reported while replaying the transaction's state through the counting visitor. */
  datatype CountEvent = CountEvent(key: CountKey, delta: int)

  /** The delta accumulated for a category; a category never touched reads as 0. */
  function Lookup(counts: map<CountKey, int>, key: CountKey): int
  {
    if key in counts then counts[key] else 0
  }

  function Increment(counts: map<CountKey, int>, e: CountEvent): map<CountKey, int>
  {
    counts[e.key := Lookup(counts, e.key) + e.delta]
  }

  /** The counts delta built by folding every reported change into an initially empty map. */
  function Replay(events: seq<CountEvent>): map<CountKey, int>
  {
    if |events| == 0 then map[]
    else Increment(Replay(events[..|events| - 1]), events[|events| - 1])
  }

  /** The reference meaning of a category's delta: the sum of the changes reported for it. */
  function SumFor(events: seq<CountEvent>, key: CountKey): int
  {
    if |events| == 0 then 0
    else (if events[0].key == key then events[0].delta else 0) + SumFor(events[1..], key)
  }

  lemma {:induction false} SumForSnoc(events: seq<CountEvent>, e: CountEvent, key: CountKey)
    ensures SumFor(events + [e], key) == SumFor(events, key) + (if e.key == key then e.delta else 0)
  {
    if |events| > 0 {
      assert (events + [e])[1..] == events[1..] + [e];
      SumForSnoc(events[1..], e, key);
    }
  }

  /** Replaying the changes yields, for every category, the sum of the changes reported for it. */
  lemma {:induction false} ReplayCounts(events: seq<CountEvent>, key: CountKey)
    ensures Lookup(Replay(events), key) == SumFor(events, key)
  {
    if |events| > 0 {
      var prefix := events[..|events| - 1];
      var last := events[|events| - 1];
      ReplayCounts(prefix, key);
      assert prefix + [last] == events;
      SumForSnoc(prefix, last, key);
    }
  }

  /** The delta reports changes exactly when some change was replayed. */
  lemma {:induction false} ReplayHasChanges(events: seq<CountEvent>)
    ensures |Replay(events)| > 0 <==> |events| > 0
  {
    if |events| > 0 {
      var m := Replay(events);
      assert events[|events| - 1].key in m;
    }
  }
}
