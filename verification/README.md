# Transactional read overlay of the Neo4j kernel, in Dafny

This project models `AllStoreHolder`, the kernel's read view for one transaction. Every read
combines two sources:

- committed storage, reached through a storage reader, the indexing runtime and the index
  statistics store;
- the transaction's own uncommitted changes, held as diff sets (an added and a removed side)
  for nodes, relationships, indexes and constraints, plus the count events it would report.

The model covers the following reads:

- node and relationship existence, deletion checks and total counts;
- per-label and per-relationship-pattern counts;
- resolving a schema, or a label with properties, to an index reference;
- index listing, index state, population progress, failure, committed id and statistics;
- constraint existence and listing.

It also covers the security scoping of procedure, function and aggregation calls:

- a checked call refuses a current access mode that does not permit its category, then runs under
  that mode restricted to the category's static mode;
- an `...Override` call checks nothing and runs under the category's static mode;
- either way, the captured context is installed again around every later pull on a procedure's
  result.

Storage, the indexing runtime and the statistics store are immutable values handed to each read.
Procedures, functions and aggregators are passed in as functions of the transaction they run in.

Modules, in dependency order:

- `Wrappers`, `Iterators`, `DiffSets`: results, the filtering and single-element iterator
  helpers, and diff sets.
- `Schema`, `Security`, `Errors`, `CountsDelta`: descriptors, access modes, kernel errors,
  and the replayed counts delta.
- `Transactions`, `Storage`: the transaction's state and committed storage.
- `Existence`, `Counts`, `Indexes`, `IndexState`, `Constraints`, `Procedures`: the reads.

## Model

| member | source | states |
|---|---|---|
| Existence.NodeExists | community/kernel/src/main/java/org/neo4j/kernel/impl/newapi/AllStoreHolder.java:129-146 | fails exactly when the transaction is closed; otherwise true iff the id is committed or added and not deleted in this transaction, with a deletion winning over an addition |
| Existence.RelationshipExists | community/kernel/src/main/java/org/neo4j/kernel/impl/newapi/AllStoreHolder.java:230-247 | the same rule for relationships |
| Existence.NodeDeletedInTransaction | community/kernel/src/main/java/org/neo4j/kernel/impl/newapi/AllStoreHolder.java:149-153 | fails exactly when the transaction is closed; otherwise true iff the transaction has changes and deleted the node; a node reported deleted is reported non-existent whatever storage holds |
| Existence.RelationshipDeletedInTransaction | community/kernel/src/main/java/org/neo4j/kernel/impl/newapi/AllStoreHolder.java:156-160 | the same for relationships |
| Existence.NodesGetCount | community/kernel/src/main/java/org/neo4j/kernel/impl/newapi/AllStoreHolder.java:586-591 | fails exactly when the transaction is closed; otherwise storage's count shifted by the transaction's additions minus deletions |
| Existence.RelationshipsGetCount | community/kernel/src/main/java/org/neo4j/kernel/impl/newapi/AllStoreHolder.java:594-599 | the same for relationships |
| Existence.NodesCountMatchesVisibleNodes | community/kernel/src/main/java/org/neo4j/kernel/impl/newapi/AllStoreHolder.java:586-591 | if storage's count is its node count, and the transaction adds only new ids and deletes only committed ones, the overlaid count is the number of nodes the transaction sees |
| Existence.RelationshipsCountMatchesVisibleRelationships | community/kernel/src/main/java/org/neo4j/kernel/impl/newapi/AllStoreHolder.java:594-599 | the same for relationships |
| Existence.CountMatchesVisible | community/kernel/src/main/java/org/neo4j/kernel/impl/newapi/AllStoreHolder.java:129-146 | the count arithmetic agrees with the set of ids the existence check accepts |
| Existence.DistinctCardinality | community/kernel/src/main/java/org/neo4j/kernel/impl/newapi/AllStoreHolder.java:586-591 | a change list without repeats contributes one to the count per entry |
| CountsDelta.ReplayCounts | community/kernel/src/main/java/org/neo4j/kernel/impl/newapi/AllStoreHolder.java:170-191 | the replayed delta map holds, for every key, the sum of that key's events |
| CountsDelta.ReplayHasChanges | community/kernel/src/main/java/org/neo4j/kernel/impl/newapi/AllStoreHolder.java:170-191 | the replayed delta is non-empty exactly when some event was reported |
| CountsDelta.SumForSnoc | community/kernel/src/main/java/org/neo4j/kernel/impl/newapi/AllStoreHolder.java:170-191 | summing a key's events extends by the last event's delta |
| Counts.CountsForNodeWithoutTxState | community/kernel/src/main/java/org/neo4j/kernel/impl/newapi/AllStoreHolder.java:193-197 | the label's count as the counts store holds it |
| Counts.CountsForRelationshipWithoutTxState | community/kernel/src/main/java/org/neo4j/kernel/impl/newapi/AllStoreHolder.java:223-227 | the pattern's count as the counts store holds it |
| Counts.Adjusted | community/kernel/src/main/java/org/neo4j/kernel/impl/newapi/AllStoreHolder.java:170-191 | without changes, the committed count; with changes, the committed count plus the key's summed events, even though the delta is consulted only when non-empty |
| Counts.CountsForNode | community/kernel/src/main/java/org/neo4j/kernel/impl/newapi/AllStoreHolder.java:170-191 | the committed label count, plus the summed label events when the transaction has changes; no open-transaction check |
| Counts.CountsForRelationship | community/kernel/src/main/java/org/neo4j/kernel/impl/newapi/AllStoreHolder.java:200-221 | the same for a (start label, type, end label) pattern |
| Counts.OtherCategoriesDoNotCount | community/kernel/src/main/java/org/neo4j/kernel/impl/newapi/AllStoreHolder.java:170-191 | events for other labels or patterns never move a count |
| Counts.TxStateAdjustment | community/kernel/src/main/java/org/neo4j/kernel/impl/newapi/AllStoreHolder.java:170-227 | the transaction-aware count and the count without transaction state differ by exactly the transaction's summed events for the key, and not at all without changes |
| Counts.TxStateOnlyAddsOwnEvents | community/kernel/src/main/java/org/neo4j/kernel/impl/newapi/AllStoreHolder.java:170-197 | when the transaction reported no event on a label, the label's count equals the count without transaction state |
| Counts.LabelCountExample | community/kernel/src/main/java/org/neo4j/kernel/impl/newapi/AllStoreHolder.java:170-191 | ten committed nodes, three added and one deleted on the label, with an event on another label: the count is twelve |
| Schema.ForLabel | community/kernel/src/main/java/org/neo4j/kernel/impl/newapi/AllStoreHolder.java:281-318 | a schema exists exactly when neither the label nor any property is the missing-token value |
| Indexes.IndexReference | community/kernel/src/main/java/org/neo4j/kernel/impl/newapi/AllStoreHolder.java:326-357 | no descriptor gives NO_INDEX; a pending one is used as is; a committed one becomes the runtime's descriptor, or storage's when the runtime has none |
| Indexes.ReferenceKeepsIdentity | community/kernel/src/main/java/org/neo4j/kernel/impl/newapi/AllStoreHolder.java:326-357 | when the runtime agrees with storage, mapping a committed index keeps its id and schema |
| Indexes.ResolvedForSchema | community/kernel/src/main/java/org/neo4j/kernel/impl/newapi/AllStoreHolder.java:377-404 | the result is none, storage's index, or an index the transaction added while storage has none; storage's index disappears iff the transaction dropped it; otherwise an added index is found iff one is on the schema, and it is the first such |
| Indexes.IndexBySchema | community/kernel/src/main/java/org/neo4j/kernel/impl/newapi/AllStoreHolder.java:377-404 | fails exactly when the transaction is closed; otherwise the reference of the resolved descriptor |
| Indexes.IndexByLabel | community/kernel/src/main/java/org/neo4j/kernel/impl/newapi/AllStoreHolder.java:281-318 | fails exactly when the transaction is closed; unknown tokens give NO_INDEX; otherwise it equals the lookup by the label's schema, although it filters the changes by label |
| Indexes.LabelChangesResolveAsSchema | community/kernel/src/main/java/org/neo4j/kernel/impl/newapi/AllStoreHolder.java:281-318 | for a schema on the label, resolving through the changes on the label gives the same index as resolving through the changes on the schema |
| Indexes.IndexGetForSchema | community/kernel/src/main/java/org/neo4j/kernel/impl/newapi/AllStoreHolder.java:631-642 | fails with "more than one element" iff more than one candidate remains; NO_INDEX for none; the reference of the only candidate for one |
| Indexes.Candidates | community/kernel/src/main/java/org/neo4j/kernel/impl/newapi/AllStoreHolder.java:631-642 | without changes, storage's index on the schema; with changes, storage's index unless the transaction dropped it, followed by every index the transaction added on the schema, duplicates kept |
| Indexes.CandidatesFromState | community/kernel/src/main/java/org/neo4j/kernel/impl/newapi/AllStoreHolder.java:631-642 | applying the changes on the schema and then filtering by the schema gives the same candidates as reading the whole transaction state |
| Indexes.ResolversAgree | community/kernel/src/main/java/org/neo4j/kernel/impl/newapi/AllStoreHolder.java:377-404 | if the transaction adds no index on a schema storage already indexes, and at most one per schema, the checked lookup and the single-or-null lookup agree |
| Indexes.CandidatesWhenStorageIndexes | community/kernel/src/main/java/org/neo4j/kernel/impl/newapi/AllStoreHolder.java:377-404 | when storage indexes the schema and the transaction added nothing on it, the candidates are exactly the resolved index, if any |
| Indexes.CandidatesWhenOnlyAdded | community/kernel/src/main/java/org/neo4j/kernel/impl/newapi/AllStoreHolder.java:377-404 | when storage has no index on the schema and the transaction added at most one on it, the candidates are exactly the resolved index, if any |
| Indexes.DropAndRecreate | community/kernel/src/main/java/org/neo4j/kernel/impl/newapi/AllStoreHolder.java:631-642 | dropping a committed index and re-adding one on its schema: the checked lookup reports NO_INDEX while the single-or-null lookup finds the new one |
| Iterators.FilterConcat | community/kernel/src/main/java/org/neo4j/kernel/impl/newapi/AllStoreHolder.java:631-642 | filtering a concatenation filters each part |
| Indexes.References | community/kernel/src/main/java/org/neo4j/kernel/impl/newapi/AllStoreHolder.java:421-432 | one reference per descriptor, in order |
| Indexes.IndexesIn | community/kernel/src/main/java/org/neo4j/kernel/impl/newapi/AllStoreHolder.java:421-472 | the references of exactly the indexes in scope that the transaction sees: committed ones it did not drop, and ones it added |
| Indexes.IndexesGetForLabel | community/kernel/src/main/java/org/neo4j/kernel/impl/newapi/AllStoreHolder.java:421-432 | fails exactly when the transaction is closed; otherwise exactly the visible indexes on the label |
| Indexes.IndexesGetAll | community/kernel/src/main/java/org/neo4j/kernel/impl/newapi/AllStoreHolder.java:461-472 | fails exactly when the transaction is closed; otherwise exactly the visible indexes |
| Indexes.LabelListingStaysOnLabel | community/kernel/src/main/java/org/neo4j/kernel/impl/newapi/AllStoreHolder.java:421-432 | when the runtime agrees with storage, every listed reference is on the requested label |
| IndexState.AssertValidIndex | community/kernel/src/main/java/org/neo4j/kernel/impl/newapi/AllStoreHolder.java:960-966 | fails with "index not found" exactly for NO_INDEX |
| IndexState.CheckIndexState | community/kernel/src/main/java/org/neo4j/kernel/impl/newapi/AllStoreHolder.java:644-657 | true iff added; an index dropped and not re-added is an error naming the dropped schema; otherwise false |
| IndexState.CreatedInTransaction | community/kernel/src/main/java/org/neo4j/kernel/impl/newapi/AllStoreHolder.java:475-511 | NO_INDEX is checked before the transaction; true exactly for an index the open transaction added; a dropped one is an error; false for any index the transaction did not touch |
| IndexState.IndexGetState | community/kernel/src/main/java/org/neo4j/kernel/impl/newapi/AllStoreHolder.java:475-492 | NO_INDEX fails before the transaction check; POPULATING for an index created in this transaction; the dropped-index error for one it dropped; for any other index, the runtime's state for the schema, or "index not found" when the runtime has none |
| IndexState.IndexGetPopulationProgress | community/kernel/src/main/java/org/neo4j/kernel/impl/newapi/AllStoreHolder.java:495-511 | no progress for an index created in this transaction; otherwise the runtime's progress, or "index not found" when the runtime has none, with the same error rules |
| IndexState.CreatedIndexIgnoresRuntime | community/kernel/src/main/java/org/neo4j/kernel/impl/newapi/AllStoreHolder.java:475-511 | for an index created in this transaction, state and progress do not depend on the runtime |
| IndexState.IndexGetFailure | community/kernel/src/main/java/org/neo4j/kernel/impl/newapi/AllStoreHolder.java:537-541 | NO_INDEX is an error; otherwise the runtime's failure message, or "index not found" naming the schema when the runtime has no such index; no open-transaction check |
| IndexState.IndexGetCommittedId | community/kernel/src/main/java/org/neo4j/kernel/impl/newapi/AllStoreHolder.java:522-534 | a closed transaction fails first; succeeds exactly for a committed reference, with its storage id; any other reference, NO_INDEX included, is a missing schema rule |
| IndexState.ResolvedCommittedId | community/kernel/src/main/java/org/neo4j/kernel/impl/newapi/AllStoreHolder.java:522-534 | resolving a schema storage indexes and asking for the committed id gives storage's id unless the transaction dropped it; an index only the transaction created has none |
| IndexState.StorageIndexFor | community/kernel/src/main/java/org/neo4j/kernel/impl/newapi/AllStoreHolder.java:544-574 | storage's index for the reference's schema, or "no index found for" that schema |
| IndexState.IndexUniqueValuesSelectivity | community/kernel/src/main/java/org/neo4j/kernel/impl/newapi/AllStoreHolder.java:544-559 | reference checked before the transaction; the result is unique values over sample size, exactly one when the sample is empty |
| IndexState.IndexSize | community/kernel/src/main/java/org/neo4j/kernel/impl/newapi/AllStoreHolder.java:562-574 | reference checked before the transaction; succeeds iff storage indexes the schema, with the recorded size of that index |
| IndexState.IndexUpdatesAndSize | community/kernel/src/main/java/org/neo4j/kernel/impl/newapi/AllStoreHolder.java:602-614 | transaction checked before the reference; succeeds iff storage indexes the schema, with that index's register, and otherwise fails with "no index found for" the schema |
| IndexState.IndexSample | community/kernel/src/main/java/org/neo4j/kernel/impl/newapi/AllStoreHolder.java:617-629 | the same for the sample register, with the same errors |
| IndexState.SizeIsUpdatesAndSizeSecond | community/kernel/src/main/java/org/neo4j/kernel/impl/newapi/AllStoreHolder.java:562-614 | in an open transaction, the size and the (updates, size) register succeed together, and the size is the register's second half |
| IndexState.SelectivityFromSample | community/kernel/src/main/java/org/neo4j/kernel/impl/newapi/AllStoreHolder.java:544-559 | whenever the sample is available, selectivity times sample size is the number of unique values |
| Constraints.ConstraintExists | community/kernel/src/main/java/org/neo4j/kernel/impl/newapi/AllStoreHolder.java:673-688 | fails exactly when the transaction is closed; otherwise true iff added, or committed and not dropped |
| Constraints.ConstraintsIn | community/kernel/src/main/java/org/neo4j/kernel/impl/newapi/AllStoreHolder.java:660-737 | exactly the visible constraints in scope |
| Constraints.ConstraintsGetForSchema | community/kernel/src/main/java/org/neo4j/kernel/impl/newapi/AllStoreHolder.java:660-671 | fails exactly when the transaction is closed; otherwise exactly the visible constraints on the schema |
| Constraints.ConstraintsGetForLabel | community/kernel/src/main/java/org/neo4j/kernel/impl/newapi/AllStoreHolder.java:690-701 | exactly the visible constraints on the label |
| Constraints.ConstraintsGetForRelationshipType | community/kernel/src/main/java/org/neo4j/kernel/impl/newapi/AllStoreHolder.java:727-737 | exactly the visible constraints on the relationship type |
| Constraints.ConstraintsGetAll | community/kernel/src/main/java/org/neo4j/kernel/impl/newapi/AllStoreHolder.java:703-712 | exactly the visible constraints |
| Constraints.ConstraintsGetForProperty | community/kernel/src/main/java/org/neo4j/kernel/impl/newapi/AllStoreHolder.java:714-724 | exactly the visible constraints whose schema mentions the property |
| Constraints.ExistenceMatchesListing | community/kernel/src/main/java/org/neo4j/kernel/impl/newapi/AllStoreHolder.java:673-712 | a constraint exists iff listing all constraints, or those on its schema, returns it |
| DiffSets.Apply | community/kernel/src/main/java/org/neo4j/kernel/impl/newapi/AllStoreHolder.java:660-671 | committed elements not removed, then the added ones |
| DiffSets.Restrict | community/kernel/src/main/java/org/neo4j/kernel/impl/newapi/AllStoreHolder.java:660-701 | a change is kept iff it is in scope |
| Iterators.Filter | community/kernel/src/main/java/org/neo4j/kernel/impl/newapi/AllStoreHolder.java:714-724 | exactly the elements that satisfy the predicate, in order |
| Iterators.SingleOrNull | community/kernel/src/main/java/org/neo4j/kernel/impl/newapi/AllStoreHolder.java:631-642 | none for no element, the element for one, an error for more |
| Iterators.FirstMatchOfFilter | community/kernel/src/main/java/org/neo4j/kernel/impl/newapi/AllStoreHolder.java:377-404 | narrowing the changes to a scope first does not change the first match on a schema inside that scope |
| Iterators.FilterNarrowing | community/kernel/src/main/java/org/neo4j/kernel/impl/newapi/AllStoreHolder.java:631-642 | filtering by a scope and then by a schema inside it is filtering by the schema |
| Iterators.FilterAtMostOne | community/kernel/src/main/java/org/neo4j/kernel/impl/newapi/AllStoreHolder.java:631-642 | when at most one element matches, the filter keeps only that one |
| Security.RestrictionsNeverWiden | community/kernel/src/main/java/org/neo4j/kernel/impl/newapi/AllStoreHolder.java:773-835 | a stack of restrictions never allows more than the innermost static or overridden mode it was stacked on |
| Security.OverrideGrantsExactly | community/kernel/src/main/java/org/neo4j/kernel/impl/newapi/AllStoreHolder.java:786-835 | an override grants exactly its own capabilities, so it can grant more than the mode it overrides |
| Procedures.OverrideWith | community/kernel/src/main/java/org/neo4j/kernel/impl/newapi/AllStoreHolder.java:887-902 | installs the context and hands back the previous one |
| Procedures.Revert | community/kernel/src/main/java/org/neo4j/kernel/impl/newapi/AllStoreHolder.java:887-902 | restores the previous security context and changes nothing else |
| Procedures.CallProcedure | community/kernel/src/main/java/org/neo4j/kernel/impl/newapi/AllStoreHolder.java:887-902 | a closed transaction fails; otherwise this procedure runs with the mode installed, the previous security context is restored, and the iterator wraps this procedure's result from its start with the installed context |
| Procedures.HasNext | community/kernel/src/main/java/org/neo4j/kernel/impl/newapi/AllStoreHolder.java:904-927 | the pull sees the captured context; the previous security context is restored |
| Procedures.Next | community/kernel/src/main/java/org/neo4j/kernel/impl/newapi/AllStoreHolder.java:904-927 | the same for next; past the last row it fails with no such element |
| Procedures.ProcedureCall | community/kernel/src/main/java/org/neo4j/kernel/impl/newapi/AllStoreHolder.java:773-835 | a mode that does not permit the category is refused with the subject's violation, before the open-transaction check; otherwise the procedure's own failure is returned unchanged, and on success the iterator wraps this procedure, whose mode is the current mode intersected with the category's static mode |
| Procedures.ProcedureCallOverride | community/kernel/src/main/java/org/neo4j/kernel/impl/newapi/AllStoreHolder.java:786-835 | no check; the procedure's own failure is returned unchanged, and on success the iterator wraps this procedure, whose mode is exactly the category's static mode |
| Procedures.CallFunction | community/kernel/src/main/java/org/neo4j/kernel/impl/newapi/AllStoreHolder.java:929-950 | a closed transaction fails; otherwise the call's result under the installed mode, with the previous security context restored |
| Procedures.ReadCall | community/kernel/src/main/java/org/neo4j/kernel/impl/newapi/AllStoreHolder.java:838-866 | refused without reads, before the open-transaction check; otherwise the function, or the aggregator's creation, runs under the current mode restricted to reads |
| Procedures.ReadCallOverride | community/kernel/src/main/java/org/neo4j/kernel/impl/newapi/AllStoreHolder.java:850-873 | no check; the function, or the aggregator's creation, runs under the read mode whatever the current mode |
| Procedures.ReadCallSeesAtMostRead | community/kernel/src/main/java/org/neo4j/kernel/impl/newapi/AllStoreHolder.java:838-854 | a checked read call sees the caller's capabilities cut down to reads, so never writes; the override sees exactly reads |
| Procedures.PullsSeeCapturedContext | community/kernel/src/main/java/org/neo4j/kernel/impl/newapi/AllStoreHolder.java:904-927 | over any sequence of pulls and ambient context changes, every pull sees the context captured at call time, and the transaction ends with the ambient context the caller last set |
| Procedures.OverrideSurvivesRevocation | community/kernel/src/main/java/org/neo4j/kernel/impl/newapi/AllStoreHolder.java:808-813 | a write procedure called with the override keeps its token-write mode on later pulls after the ambient context is revoked |
| Procedures.NestedWriteInsideReadIsRefused | community/kernel/src/main/java/org/neo4j/kernel/impl/newapi/AllStoreHolder.java:773-805 | a write procedure called from inside a read procedure is refused even when the outer caller may write |

## Left out

- Locks: the shared schema, label and relationship-type locks taken before reads, and `lockConstraint`, are not modelled; the model has no concurrency.
- Index readers, read sessions, the reader cache, `nodesCountIndexed`, `prepareForLabelScans`, the label scan reader and `release`: these are resource handling over code that is not part of this model.
- `schemaStateGetOrCreate` and `schemaStateFlush`: a cache that does not take part in the overlay.
- `indexGetForName`: it filters the transaction's added indexes by name, but neither the semantics of that filter nor index names are part of this model.
- `indexGetOwningUniquenessConstraintId`, `indexReferenceUnchecked` and `storageIndexDescriptor`: lookups that do not combine storage with transaction state.
- `nodePropertyChangeInTransactionOrNull`: property state is not part of the model.
- Registry lookups (`functionGet`, `procedureGet`, `proceduresGetAll`, `aggregationFunctionGet`) and `prepareContext`: procedures are given to the calls directly as functions of the transaction.
- Aggregators: only their creation is modelled; updating and reading an aggregator happen outside this class, without the override.
- Effects of procedures on the transaction: a procedure is modelled as reading the transaction, not changing it. Writes made by a procedure run for writes or schema changes are therefore not modelled. The model promises only that the previous security context is restored after the call and after each pull.
- Diff-set application: it is assumed to keep the committed items that were not removed, in order, followed by every added item. An item both committed and added therefore appears twice, which matters for the count of candidates in `indexGetForSchema`. The diff-set class is not part of this model.
- Statement acquisition around a procedure call: it has no effect on the security context.
- Access-mode classes: a restricted mode is modelled as the intersection of capabilities, and an overridden mode as the overriding mode's capabilities. The classes themselves are not part of this model.
- Schema descriptors: `forLabel` is assumed to reject only the missing-token value (-1); its factory is not part of this model.
- Transaction state: its by-schema, by-label and by-type diff sets are modelled as the full diff set restricted to the scope.
- Error messages are modelled as error kinds carrying the schema or subject, not as formatted strings.
- IndexState.IndexUniqueValuesSelectivity: the selectivity is an exact ratio of two integers, not a double.
- Counts.CountsForNode, Counts.CountsForRelationship, Existence.NodesGetCount and Existence.RelationshipsGetCount: counts are unbounded integers, not 64-bit longs that wrap around.
- The counting visitor over transaction state is abstracted as the list of count events it reports; a failure while visiting is not modelled.
- IndexState.CreatedInTransaction: it takes the reference's own descriptor as the kernel descriptor. The storage branch of `storageIndexDescriptor` is not modelled, because every reference the overlay hands out is already a kernel descriptor.
