# ZydecoDB in Dafny

ZydecoDB is a log-structured key-value engine with a document and query layer on top. This project
models its hardest parts and proves what they promise.

The engine side: the k-way merge over versioned entries (`MergeIterator.dfy`), compaction with its
garbage collection and file splitting (`Compaction.dfy`), which reads compaction preserves
(`CompactionReads.dfy`), the level planner and whole compaction runs (`Levels.dfy`), the protocol
between the engine owner and the compaction worker (`Scheduler.dfy`) and the change stream over
archived log segments (`ChangeLog.dfy`).

The document side: order-preserving index keys (`Encoding.dfy` over `Values.dfy`, `Words.dfy`,
`Bytes.dfy`, `Keys.dfy`), filters (`Filters.dfy`), the planner and its key ranges (`Planner.dfy`),
query execution over a snapshot (`Query.dfy`), index order against requested sorts
(`SortOrder.dfy`, `ReverseSort.dfy`), pagination (`Paging.dfy`, `Find.dfy`), `$lookup` (`Join.dfy`), the
binary document format (`ZDoc.dfy`, `ZDocView.dfy`, `ZDocRefines.dfy`), the document store with its
indexes, unique constraints and counters (`StoreState.dfy`, `StoreSteps.dfy`, `Store.dfy`), index
definition as an operation of that store (`IndexBuild.dfy`, `Backfill.dfy`, `DdlFailures.dfy`), what all
of that gives a reader (`Consistency.dfy`) and whole sessions of filtered writes and definitions (`Session.dfy`).

Code that changes state or loops is modelled by classes and methods with invariants, proved against
specification functions; pure code by functions. Engine keys, cursors and documents are byte
sequences; doubles are their 64-bit patterns with an exact numeric meaning.

## Where the code does less than it says

In several places the plain claim fails. A lemma gives a concrete failure where one is named, and
another the exact condition under which the code does what it says.

- A tombstone dropped at the bottom level can uncover the value it hid: `PutDeleteResurfaces`, and
  exactly when a read changes, `TombstoneDropExact`.
- Expiry ignores the watermark and deeper levels: `ExpiryLosesSnapshotRead`, `ExpiryDropExact`.
- The planner is documented to affect speed only; -0.0 and 0.0 are equal to the filter and apart in an
  index: `NegativeZeroHides`, `PlannerTransparent`.
- A reverse sort match is right only with at most one index field past the equality prefix:
  `ReverseMisorders`, a planned query over a store of two documents, and `ReverseExact`.
- The two join operators differ on null and on documents a signed zero hides: `NullJoinDiffers`,
  `ZeroJoinDiffers`, `StrategiesAgree`.
- Inline TTL stamping can overflow a chunk: `StampOverflows`, `WriteEntries`.
- Stamping bodies for a TTL index leaves the entries of older indexes at the old expiry:
  `StampingBreaksOlderIndex`. `OlderExact` says exactly which stamps do, and `PartlyBuilt` that the
  collection is consistent until the first of them.
- Keys a crashed definition leaves are documented as harmless; the next definition reuses the id and
  keeps them: `ReusedIdStaysStale`. `BackfillExact` and
  `DefinitionConsistent` give the exact condition for every kind of index; it also asks that no document
  has expired unswept (`ExpiredPassedOver`) and that no document the index leaves alone expires by itself
  (`UnstampedEntryOutlives`).
- Leftovers under a reused id make the unique check refuse a collection without duplicates,
  `SpuriousRefusal`, or accept one with them, `LeftoverHidesDuplicate`; `ClashExact` and `CheckExact`
  say what it decides.
- Undoing a refused unique index is documented to leave the store as it was: `SpuriousRefusal` and
  `UndoLeavesExpired` are stores it does not, `UndoRestores` says exactly when it does.
- Deleting a list of ids that names a document twice miscounts, `RepeatedDeleteDrifts`, unless the list
  names every stored document: `DeletesCounted`. The ids the store selects for itself never repeat:
  `SelectCandidates`.

One design consequence: a plan staged behind a running compaction is never the one submitted
(`StagedNeverSubmitted`).

## Model

| member | source | states |
|---|---|---|
| Bytes.PrefixUpperBound | crates/zydecodb-document/src/keys.rs:94-105 | the buffer loop returns the bound such that a key has the prefix if and only if it lies in the half-open range, an empty bound meaning unbounded |
| Bytes.PrefixRange | crates/zydecodb-document/src/keys.rs:91-105 | for every prefix and key: prefix if and only if inside `[p, UpperBound(p))` |
| Bytes.UpperBoundLeast | crates/zydecodb-document/src/keys.rs:91-105 | no smaller string is above every key with the prefix |
| Bytes.ComplementReverses | crates/zydecodb-document/src/encoding.rs:57-66 | complementing every byte reverses the order of diverging strings |
| Bytes.SuccessorKey | crates/zydecodb-document/src/query.rs:735-738 | `k` followed by a zero byte is the immediate successor of `k` |
| Words.BEOrder | crates/zydecodb-document/src/keys.rs:23-28 | big-endian words order, and diverge, as the numbers do |
| Keys.DocKeyRoundTrip | crates/zydecodb-document/src/keys.rs:32-43 | the id taken from a document key is the id it was built from |
| Keys.DocKeyOf | crates/zydecodb-document/src/keys.rs:23-43 | a key under the document prefix is the key of exactly one id |
| Keys.IndexPrefixesApart | crates/zydecodb-document/src/keys.rs:47-54 | two indexes of one storage prefix never share a key |
| Keys.RecordsApart | crates/zydecodb-document/src/keys.rs:18-54 | bodies and index entries never share a key |
| Values.IntToF64Monotone | crates/zydecodb-document/src/encoding.rs:34-37 | converting integers to doubles with rounding to nearest even never inverts their order |
| Values.IntToF64Nearest | crates/zydecodb-document/src/encoding.rs:34-37 | the double of an integer denotes it exactly up to 2^53 and is within half a unit in the last place beyond |
| Encoding.AppendStr | crates/zydecodb-document/src/encoding.rs:228-239 | the escaping loop appends exactly the specified string encoding |
| Encoding.AppendFields | crates/zydecodb-document/src/encoding.rs:70-80 | the buffer built field by field is the composite encoding with its per-field directions |
| Encoding.F64Order | crates/zydecodb-document/src/encoding.rs:159-167 | the bit transform compares as numbers do, with -0.0 just below 0.0 |
| Encoding.ScalarOrder | crates/zydecodb-document/src/encoding.rs:27-45 | two scalar encodings are equal when the values compare equal and otherwise diverge in the logical order: order-preserving and prefix-free |
| Encoding.DirectedOrder | crates/zydecodb-document/src/encoding.rs:57-66 | the same in reverse for a descending field, still prefix-free |
| Encoding.FieldsOrder | crates/zydecodb-document/src/encoding.rs:70-80 | composites with any mixture of directions order lexicographically by field |
| Encoding.IndexKeyOrder | crates/zydecodb-document/src/keys.rs:57-68 | index keys order by fields first and document id second |
| Encoding.FieldsPrefixFree | crates/zydecodb-document/src/keys.rs:11-16 | equal concatenations of fields and id have equal fields and equal ids |
| Encoding.EncodingContract | crates/zydecodb-document/src/encoding.rs:148-154 | byte order is the logical order in both directions, equality included, and no encoding is a proper prefix of another |
| Encoding.IntegerOrder | crates/zydecodb-document/src/encoding.rs:34-37 | integers beyond 2^53 may tie in an index but are never misordered |
| Filters.IdShortcutAgrees | crates/zydecodb-document/src/filter.rs:402-421 | for every atom, matching an id string directly equals matching it as a stored string value |
| Filters.CollectTopLevel | crates/zydecodb-document/src/filter.rs:136-153 | the recursive collector returns the field predicates reached through nested conjunctions |
| Filters.TopLevelHolds | crates/zydecodb-document/src/filter.rs:123-153 | a matching document satisfies every predicate shown to the planner |
| Filters.OrdersAgree | crates/zydecodb-document/src/filter.rs:497-531 | the filter order and the index order agree on two scalars if and only if they are not zeros of opposite sign |
| Planner.CollectConstraints | crates/zydecodb-document/src/planner.rs:74-88 | the map holds, for every path, the constraint distilled from the atoms on that path, later atoms replacing earlier ones |
| Planner.EqLen | crates/zydecodb-document/src/planner.rs:103-110 | the longest leading run of fields pinned by equality |
| Planner.Score | crates/zydecodb-document/src/planner.rs:103-117 | the loop computes the equality length and whether a range follows |
| Planner.Plan | crates/zydecodb-document/src/planner.rs:91-134 | returns the planned path: the `_id` lookup, else the first index that none beats on equality length then range, else a collection scan |
| Planner.ScanBounds | crates/zydecodb-document/src/planner.rs:200-267 | both bounds of every scan are encoded fragments of leading values, swapped on a descending field |
| Planner.RangeExact | crates/zydecodb-document/src/planner.rs:200-267 | an entry lies in the scanned range if and only if its field values satisfy the constraints in index order, for ascending, descending and mixed composites |
| Planner.ScanInsideIndex | crates/zydecodb-document/src/planner.rs:200-267 | a scan meets only keys of its own index |
| Planner.ConstraintHolds | crates/zydecodb-document/src/planner.rs:74-88 | a matching document satisfies every distilled constraint in the filter order |
| Planner.MatchingAdmitted | crates/zydecodb-document/src/planner.rs:91-134 | a matching document is admitted by the planned range if and only if no literal meets a zero of the other sign |
| Query.ForEachMatch | crates/zydecodb-document/src/query.rs:819-888 | the visitor sees exactly the matches of the path in scan order up to the first it does not go on from, with exact statistics; refused if and only if the candidate bound is passed before that |
| Query.CollectionRows | crates/zydecodb-document/src/query.rs:871-884 | a collection scan visits each matching live document through its own key, and nothing else |
| Query.IndexRows | crates/zydecodb-document/src/query.rs:854-870 | over an agreeing index, a scan visits exactly the matching documents its bounds admit |
| Query.PlannerExact | crates/zydecodb-document/src/planner.rs:4-8 | for every filter, index set and agreeing snapshot, the planned path visits a document if and only if a full scan does and no signed zero hides it |
| Query.PlannerTransparent | crates/zydecodb-document/src/planner.rs:4-8 | planning changes no answer if and only if no matching document has a clashing zero |
| Query.PlannedOnce | crates/zydecodb-document/src/query.rs:819-888 | through any planned path no document is visited twice and keys ascend |
| Query.NegativeZeroHides | crates/zydecodb-document/src/encoding.rs:156-167 | a document holding -0.0 is found by a full scan for 0.0 and missed through its index |
| SortOrder.CompareSortKeys | crates/zydecodb-document/src/query.rs:1177-1186 | the comparison loop is the lexicographic comparison of encoded keys with directions |
| SortOrder.ComparesAsFields | crates/zydecodb-document/src/query.rs:1095-1117 | comparing buffered sort keys compares the sorted fields in the logical order |
| SortOrder.ForwardSorted | crates/zydecodb-document/src/query.rs:313-336 | when a sort matches an index forward, the scan delivers matches sorted |
| SortOrder.ReverseSorted | crates/zydecodb-document/src/query.rs:337-348 | when it matches in reverse with at most one field past the equality prefix, the backward scan delivers matches sorted |
| ReverseSort.ReverseExact | crates/zydecodb-document/src/query.rs:337-348 | over an index whose fields documents may fill freely, every query planned on it with `n` fields pinned that it answers backwards lists its matches sorted if and only if at most one field lies past them |
| ReverseSort.MisorderedQuery | crates/zydecodb-document/src/query.rs:337-348 | for any longer suffix, a planned query over a store of two documents that lists them in the wrong order |
| ReverseSort.TopLevelIndependent | crates/zydecodb-document/src/catalog.rs:438-496 | distinct top-level fields may be filled freely, by documents with their keys in order |
| ReverseSort.ReverseMisorders | crates/zydecodb-document/src/query.rs:337-348 | on an index over (a, b) the query `a >= false` sorted by b then a descending is planned on it and listed in the wrong order |
| Paging.CursorRoundTrip | crates/zydecodb-document/src/query.rs:250-297 | decoding a cursor gives back its position and its snapshot sequence |
| Paging.KeyModePage | crates/zydecodb-document/src/query.rs:720-774 | the streaming loop returns the next rows and a cursor exactly when another match exists |
| Paging.StreamOffsetPage | crates/zydecodb-document/src/query.rs:1056-1093 | the skip-and-fill loop returns the window at the offset and a cursor exactly when rows remain |
| Paging.StableSortSpec | crates/zydecodb-document/src/query.rs:1157-1158 | the sorted buffer is a permutation of the matches, in sort order, ties in scan order |
| Find.BufferedSortPage | crates/zydecodb-document/src/query.rs:1119-1175 | refuses if and only if matches exceed the buffer, else returns the window of the stable sort with bodies fetched again |
| Find.OffsetModePage | crates/zydecodb-document/src/query.rs:779-800 | cursor errors, then streaming or sorting from the offset |
| Find.ExecuteFind | crates/zydecodb-document/src/query.rs:664-715 | every call answers as specified for a planned path: mode, window, cursor and errors |
| Planner.PlanUnique | crates/zydecodb-document/src/planner.rs:91-134 | planning is deterministic, so all pages of a query take one path |
| Find.ResumeForward | crates/zydecodb-document/src/query.rs:735-739 | scanning from the successor of a delivered key yields exactly the matches after it |
| Find.ResumeBackward | crates/zydecodb-document/src/query.rs:732-734 | scanning up to a delivered key yields exactly the matches before it |
| Find.NextPage | crates/zydecodb-document/src/query.rs:664-800 | once the first page is answered, the cursor for any position is answered too and resumes the list exactly there, in every mode |
| Find.PaginationExact | crates/zydecodb-document/src/query.rs:664-800 | a query whose first page is answered can be followed to the end, and its pages concatenate to the whole ordered list from `skip`, full except the last, for every filter, sort, limit and mode |
| Find.ListingSorted | crates/zydecodb-document/src/query.rs:664-800 | the list being paged is a permutation of the matches and sorted as requested, a backward scan needing at most one field past the equality prefix |
| Join.EqualityIndex | crates/zydecodb-document/src/planner.rs:146-153 | the first index led by the field: it is led by it and none before it is; none if there is none |
| Join.StrategySound | crates/zydecodb-document/src/join.rs:66-81 | the indexed strategy is chosen if and only if a joinable value binds to a path, so under it only the match bound can refuse an outer document |
| Join.PlanEquality | crates/zydecodb-document/src/planner.rs:163-198 | a probe is bound if and only if the value and an index allow it, and never to a collection scan |
| Join.FetchInnerMatches | crates/zydecodb-document/src/join.rs:165-218 | returns every match of the probe, or refuses if and only if there are more than the bound |
| Join.BuildHashSide | crates/zydecodb-document/src/join.rs:228-273 | the map holds each bucket of joinable matches in scan order, refused if and only if the scan or byte bound is exceeded |
| Join.StrategiesAgree | crates/zydecodb-document/src/join.rs:165-289 | indexed and hash probes attach the same multiset if and only if no document passing the join filter with the value in index order is unjoinable, which takes null, or hidden by a signed zero from the filter's own plan; the hash side never attaches more |
| Join.LookupsAgree | crates/zydecodb-document/src/join.rs:349-425 | for any outer document both operators attach the same multiset or refuse alike, if and only if it has no joinable value, no such inner document exists or both are past the match bound |
| Join.NullJoinDiffers | crates/zydecodb-document/src/join.rs:249-251 | a document without the field is attached to null by the index and not by the hash |
| Join.UnjoinableIsNull | crates/zydecodb-document/src/join.rs:228-273 | a document passing the filter with the probe's value is unjoinable only when that value is null |
| Join.ZeroJoinDiffers | crates/zydecodb-document/src/join.rs:228-273 | joining -0.0 under the filter x == 0.0, a document is attached by the index and not by the hash |
| Join.ExecuteLookup | crates/zydecodb-document/src/join.rs:349-425 | attaches to each outer match, in order, what its strategy finds; refused if and only if a bound is exceeded |
| ZDoc.Backfill | crates/zydecodb-document/src/binary.rs:62-66 | back-patching overwrites the zeroed table with the offsets and touches nothing else |
| ZDoc.WriteArray | crates/zydecodb-document/src/binary.rs:51-73 | the array writer appends tag, total, count, offset table and elements as laid out |
| ZDoc.WriteObject | crates/zydecodb-document/src/binary.rs:74-117 | the object writer appends both offset tables and the entries as laid out |
| ZDoc.WriteValue | crates/zydecodb-document/src/binary.rs:23-119 | placeholders and back-patching produce exactly the specified bytes after whatever the buffer held |
| ZDocView.ArrayReads | crates/zydecodb-document/src/binary.rs:439-446 | every element of a written array is reached through its offset, whatever bytes follow |
| ZDocView.ObjectReads | crates/zydecodb-document/src/binary.rs:361-378 | every key and value of a written object is reached through its offsets |
| ZDocRefines.RoundTrip | crates/zydecodb-document/src/binary.rs:258-317 | decoding written bytes at depth `d` returns the value if and only if `d` plus its depth is at most 256, and reports excessive depth otherwise |
| ZDocRefines.AcceptedReadsBack | crates/zydecodb-document/src/update.rs:116-137 | the depth check on the result of an update accepts a document if and only if it reads back once stored |
| ZDocRefines.ObjectGet | crates/zydecodb-document/src/binary.rs:382-411 | the binary search loop, on any bytes, is its recursive specification |
| ZDocRefines.SearchIsLookup | crates/zydecodb-document/src/binary.rs:382-411 | on a written object binary search finds a key if and only if the map has it, and returns its value |
| ZDocRefines.ViewPathRefines | crates/zydecodb-document/src/binary.rs:236-250 | dotted path access on the bytes refines path access on the value |
| ZDocRefines.IndexKeyFromView | crates/zydecodb-document/src/store.rs:52-69 | index keys read off a stored body equal the keys derived from the document |
| StoreState.UpsertApplies | crates/zydecodb-document/src/store.rs:351-374 | the prepared operations replace the body, remove stale entries and write current ones |
| StoreState.DeleteApplies | crates/zydecodb-document/src/store.rs:492-511 | the prepared operations remove the body and all its entries |
| StoreState.EntryNamesDoc | crates/zydecodb-document/src/keys.rs:57-68 | an entry key determines the document it belongs to |
| StoreState.UpsertExact | crates/zydecodb-document/src/store.rs:280-386 | an upsert keeps every index equal to the entries derived from the stored bodies, expiry included |
| StoreState.DeleteExact | crates/zydecodb-document/src/store.rs:463-521 | so does a delete |
| StoreSteps.StepStable | crates/zydecodb-document/src/update.rs:623-684 | a write prepared against one state is right for any state with the same body of that document |
| StoreSteps.StepCounted | crates/zydecodb-document/src/catalog.rs:294-341 | adding the delta to true counts gives true counts, so saturation never bites |
| StoreSteps.ConflictExact | crates/zydecodb-document/src/store.rs:155-186 | scanning a unique index finds a conflict if and only if another live document shares the value |
| StoreSteps.RunExact | crates/zydecodb-document/src/store.rs:618-663 | every prefix of a run of writes leaves the indexes exact |
| StoreSteps.RunStep | crates/zydecodb-document/src/store.rs:618-663 | each prepared write does its step, or nothing when an earlier one for the same document already did |
| StoreSteps.RunCounted | crates/zydecodb-document/src/store.rs:574-587 | after every prefix the counts are those of the steps really taken |
| StoreSteps.TallyExact | crates/zydecodb-document/src/catalog.rs:294-341 | the committed counters are true if and only if the deltas prepared are those of the steps really taken |
| StoreSteps.DistinctTally | crates/zydecodb-document/src/store.rs:618-663 | which they are when no document is written twice |
| StoreSteps.RunUnique | crates/zydecodb-document/src/update.rs:608-684 | every prefix leaves unique indexes free of duplicates, whatever mixture of old and new documents it holds |
| Store.DocumentStore.constructor | crates/zydecodb-document/src/catalog.rs:222-233 | an empty store is valid |
| Store.DocumentStore.CounterUpdate | crates/zydecodb-document/src/catalog.rs:294-341 | the record to write is the counters moved by every delta, or none when nothing moves |
| Store.DocumentStore.WriteCountedChunk | crates/zydecodb-document/src/store.rs:574-587 | operations and counter record become durable together, memory follows, and an oversized chunk changes nothing |
| Store.DocumentStore.CommitBatches | crates/zydecodb-document/src/store.rs:618-663 | never fails, applies every write with its delta, and every state made durable on the way holds a prefix of the writes, each whole and counted |
| Store.ReplaysRun | crates/zydecodb-document/src/store.rs:618-663 | committing prepared writes, repeats included, replays the run of their steps |
| Store.DocumentStore.EnforceUnique | crates/zydecodb-document/src/store.rs:155-186 | accepts if and only if no other live document holds a unique value of the new one |
| Store.DocumentStore.BuildUpsert | crates/zydecodb-document/src/store.rs:280-386 | exactly when it refuses for a duplicate or for size, and otherwise the prepared write with its delta |
| Store.DocumentStore.UpsertDocument | crates/zydecodb-document/src/store.rs:443-457 | inserts or replaces, or changes nothing, and exactly when it refuses for a duplicate or for size; the store stays consistent at every durable state |
| Store.DocumentStore.BuildDelete | crates/zydecodb-document/src/store.rs:463-521 | nothing for an absent, expired or filtered-out document, else the delete or a size refusal |
| Store.DocumentStore.PrepareDeletes | crates/zydecodb-document/src/store.rs:556-564 | one delete for each selected document, refused if and only if one is too large for a batch |
| Store.DocumentStore.DeleteIds | crates/zydecodb-document/src/store.rs:548-567 | removes exactly the selected documents or, exactly when one is too large, nothing; indexes exact and unique at every durable state for any list, and the counters true if and only if no selected id repeats or all documents are selected |
| Store.DeletesCounted | crates/zydecodb-document/src/store.rs:548-567 | after deleting any list the counters are true if and only if it repeats no document or names every stored one |
| Store.DocumentStore.PrepareUpdates | crates/zydecodb-document/src/update.rs:632-681 | one write for each selected document, or a refusal that names a failing update, a taken unique value or a write too large for a batch |
| Store.DocumentStore.ApplyToIds | crates/zydecodb-document/src/update.rs:623-684 | for any list of ids every selected document gets its updated body and no other moves, if and only if every update succeeds, no unique value is taken twice or held by another and every write fits; otherwise nothing changes; consistent at every durable state |
| Store.DocumentStore.Claim | crates/zydecodb-document/src/update.rs:649-664 | accepts a document if and only if no earlier one in the call took a unique value of it |
| Store.OneEntryEach | crates/zydecodb-document/src/store.rs:19-21 | in an exact state every index holds one entry for each document |
| Store.RepeatedDeleteDrifts | crates/zydecodb-document/src/store.rs:548-567 | in a store of two documents, deleting one id twice in a call leaves the counters wrong |
| Consistency.SnapshotAgrees | crates/zydecodb-document/src/store.rs:351-374 | exact indexes make every snapshot agree with its bodies at any clock |
| Consistency.QueriesExact | crates/zydecodb-document/src/query.rs:644-647 | a planned query over any exact store visits a document if and only if it is live, matches and no signed zero hides it |
| Session.FindIds | crates/zydecodb-document/src/query.rs:943-974 | the ids of every match of the planned path in order, refused if and only if there are more than the cap |
| Session.FindFirstId | crates/zydecodb-document/src/query.rs:979-1000 | the id of the first match of the planned path, if any |
| Session.SelectCandidates | crates/zydecodb/src/docdispatch.rs:700-725 | from an exact store, the candidates of a filtered write, none twice |
| Session.DeleteMany | crates/zydecodb/src/docdispatch.rs:669-698 | deletes every document that is live and matches, save those a signed zero hides from the planned index, and no other; consistent at every durable state |
| Session.UpsertFallback | crates/zydecodb/src/docdispatch.rs:621-643 | under the lock updates the first match after all, or inserts its document, and that only when no live document matches, save those a signed zero hides; or refuses and changes nothing |
| Session.UpdateMany | crates/zydecodb/src/docdispatch.rs:592-648 | the count is of distinct live matches, whose updated bodies are all that changes; updating all takes every live match, and counting none or inserting means there is none, save those a signed zero hides; nothing changes on a refusal; consistent at every durable state |
| Session.DefineWhenReady | crates/zydecodb/src/docdispatch.rs:442-466 | defining an index on a store ready for it keeps the store sound, with its new index or without, and every state made durable on the way consistent |
| Session.Perform | crates/zydecodb/src/docdispatch.rs:442-698 | a write, a filtered update, upsert or delete of one or all, or a definition on a store ready for it keeps the store sound, and what it makes durable consistent at every later clock |
| Session.Serve | crates/zydecodb/src/docdispatch.rs:442-698 | any sequence of such calls at non-decreasing clocks does, so a crash at any moment recovers a consistent store |
| IndexBuild.BuiltExactly | crates/zydecodb-document/src/store.rs:890-980 | the whole effect of a definition of any kind: an entry for every live document, every stamped body at its derived expiry, nothing else moved |
| IndexBuild.OlderExact | crates/zydecodb-document/src/store.rs:924-932 | the older indexes stay exact if and only if every stamped document has none or already expired then |
| IndexBuild.PartlyBuilt | crates/zydecodb-document/src/store.rs:738-747 | at every moment of a definition the collection its catalog knows is consistent if and only if the stamps applied so far are harmless |
| IndexBuild.BackfillExact | crates/zydecodb-document/src/store.rs:890-980 | for every kind of index all indexes are exact afterwards if and only if the stamps are harmless, no document left unstamped expires by itself, and what else lay under the id is the right entry of every document the scan passed over |
| IndexBuild.FreshAccounted | crates/zydecodb-document/src/store.rs:904-912 | with nothing left over under the id, that last condition is that no stored document has expired unswept |
| IndexBuild.NewUnique | crates/zydecodb-document/src/store.rs:942-949 | with no two unexpired documents sharing the value, every unique index is free of duplicates afterwards |
| IndexBuild.DefinitionConsistent | crates/zydecodb-document/src/store.rs:773-804 | the collection with its new index and entry count is consistent if and only if nothing was left over, no document had expired unswept, the stamps are harmless and no document left unstamped expires by itself |
| Backfill.WriteEntries | crates/zydecodb-document/src/store.rs:908-940 | the chunked pass completes if and only if no chunk overflows, having applied every entry in order; every state made durable holds the entries and stamps of whole leading documents |
| Backfill.UniformFits | crates/zydecodb-document/src/store.rs:916-934 | stamping no document, or every document, never overflows a chunk |
| Backfill.StampOverflows | crates/zydecodb-document/src/store.rs:916-934 | one short of a full batch of plain documents followed by a stamped one overflows |
| Backfill.StampBodies | crates/zydecodb-document/src/store.rs:950-981 | applies every stamp after the check, in chunks that never overflow |
| Backfill.StampUnique | crates/zydecodb-document/src/store.rs:950-977 | scanning again after the check finds the same documents, and stamps them |
| Backfill.RefuseDuplicate | crates/zydecodb-document/src/store.rs:942-949 | refuses exactly when the check finds a duplicate, leaving everything but the live keys under the id; consistent at every durable state |
| Backfill.BackfillIndex | crates/zydecodb-document/src/store.rs:890-980 | the outcome in each case and the key space it leaves, before any catalog change |
| Backfill.UniqueIndexHasDuplicate | crates/zydecodb-document/src/store.rs:987-1012 | finds a duplicate if and only if two neighbours share an encoding, which over entries of the index's own form is any two |
| Backfill.NeighboursSuffice | crates/zydecodb-document/src/store.rs:883-886 | over entries of the index's own form equal encodings are contiguous |
| Backfill.ClashExact | crates/zydecodb-document/src/store.rs:987-1012 | over keys of that form the check refuses if and only if two live keys under the id share an encoding, whoever wrote them |
| Backfill.CheckExact | crates/zydecodb-document/src/store.rs:942-949 | with nothing left over it refuses if and only if two scanned documents with unexpired entries share the value |
| Backfill.RemoveIndexRange | crates/zydecodb-document/src/store.rs:1016-1039 | deletes exactly the scanned keys, in chunks that never overflow |
| Backfill.UndoRestores | crates/zydecodb-document/src/store.rs:886-889 | undoing restores the store if and only if each entry was new and unexpired, or had expired and was there already, and no other live key lay under the id |
| Backfill.DefineIndex | crates/zydecodb-document/src/store.rs:773-804 | on any consistent store: exactly when it overflows, refuses a duplicate or succeeds, the store and catalog each leaves, that a success is consistent if and only if the store was ready, and that with harmless stamps every state made durable before the catalog is consistent |
| DdlFailures.StampingBreaksOlderIndex | crates/zydecodb-document/src/store.rs:924-932 | a one-document store whose older index a TTL definition leaves inexact |
| DdlFailures.UnstampedEntryOutlives | crates/zydecodb-document/src/store.rs:913-919 | a document that expires by itself gets an entry that never does |
| DdlFailures.ExpiredPassedOver | crates/zydecodb-document/src/store.rs:905-910 | a document expired and not yet swept gets no entry |
| DdlFailures.ReusedIdStaysStale | crates/zydecodb-document/src/store.rs:786-804 | after a crashed definition, a rewrite and a second definition under the same id, a stale entry survives |
| DdlFailures.SpuriousRefusal | crates/zydecodb-document/src/store.rs:942-949 | a store of one document that a unique definition refuses, and that its undo does not restore |
| DdlFailures.LeftoverHidesDuplicate | crates/zydecodb-document/src/store.rs:987-1012 | a store of two documents sharing a value that a unique definition accepts |
| DdlFailures.UndoLeavesExpired | crates/zydecodb-document/src/store.rs:1016-1039 | a store of three documents where a refused unique TTL definition leaves an already expired entry behind |
| Versions.NewestSpec | crates/zydecodb-engine/src/keys.rs:76-84 | the newest visible version of a key is the visible one with the greatest sequence, if any |
| MergeIterator.MergingIterator.constructor | crates/zydecodb-engine/src/iter.rs:73-97 | a fresh iterator holds the whole yield of its sources |
| MergeIterator.MergingIterator.Next | crates/zydecodb-engine/src/iter.rs:99-137 | each call returns the first pending entry and leaves the rest |
| MergeIterator.MergedPermutes | crates/zydecodb-engine/src/iter.rs:58-137 | raw merging yields every source entry exactly once |
| MergeIterator.MergedSorted | crates/zydecodb-engine/src/iter.rs:139-181 | the raw merge of ordered sources is ordered by key, newest first |
| MergeIterator.DedupScan | crates/zydecodb-engine/src/iter.rs:99-137 | deduplicated, it yields exactly the newest version of each key that is not a tombstone, in key order |
| MergeIterator.ReverseMirrorsForward | crates/zydecodb-engine/src/iter.rs:217-247 | the reverse deduplicated scan is the exact mirror of the forward one |
| MergeIterator.RawIndependentOfSources | crates/zydecodb-engine/src/iter.rs:58-137 | the raw merge depends only on the entries, not on how sources hold them |
| Compaction.DecideIsFate | crates/zydecodb-engine/src/compaction_worker.rs:428-449 | the decision made from the loop state is the version's specified fate |
| Compaction.Absorb | crates/zydecodb-engine/src/compaction_worker.rs:398-471 | one merged entry: the pending output is closed only at a key boundary once full, and the entry is written or counted as its fate says |
| Compaction.ExecuteCompaction | crates/zydecodb-engine/src/compaction_worker.rs:361-485 | outputs concatenate to the survivors, counters tally every dropped version, files have disjoint key ranges with all versions of a key together, and every file but the last reaches the target |
| CompactionReads.SurvivorsAreKept | crates/zydecodb-engine/src/compaction_worker.rs:387-471 | the streamed survivors are the versions the rules keep |
| CompactionReads.SupersededInvisible | crates/zydecodb-engine/src/compaction_worker.rs:493-514 | at or above the watermark dropping superseded versions changes no newest version |
| CompactionReads.PreservedExactly | crates/zydecodb-engine/src/compaction_worker.rs:361-485 | a read at or above the watermark is preserved if and only if its newest version is not a discarded input uncovering a live value |
| CompactionReads.SupersedingPreserves | crates/zydecodb-engine/src/compaction_worker.rs:493-514 | without tombstone drop and expiry, every read at or above the watermark finds the same version |
| CompactionReads.TombstoneDropExact | crates/zydecodb-engine/src/compaction_worker.rs:500-513 | with nothing expired a read is lost if and only if its newest version is a dropped tombstone over a live value |
| CompactionReads.BottommostTombstonesSafe | crates/zydecodb-engine/src/compaction_worker.rs:500-513 | dropping tombstones that are the oldest version of their key anywhere preserves every such read |
| CompactionReads.PutDeleteResurfaces | crates/zydecodb-engine/src/compaction_worker.rs:506-512 | a put and a delete compacted together bring the value back |
| CompactionReads.ExpiryDropExact | crates/zydecodb-engine/src/compaction_worker.rs:428-434 | a read is lost to expiry if and only if a covered input was its newest version and was live or hid a live one |
| CompactionReads.LatestReadsAfterExpiry | crates/zydecodb-engine/src/compaction_worker.rs:404-434 | a latest read survives unless an expired input was newest and a live version lies outside the inputs |
| CompactionReads.ExpiryLosesSnapshotRead | crates/zydecodb-engine/src/compaction_worker.rs:428-434 | a snapshot between two versions loses its value |
| Levels.KeySpan | crates/zydecodb-engine/src/compaction.rs:353-367 | the loop returns the exact hull of the files, none if there are none |
| Levels.EffectiveLevelTargets | crates/zydecodb-engine/src/compaction.rs:226-244 | the array holds each level's target sized down from the bottom |
| Levels.BaseLevel | crates/zydecodb-engine/src/compaction.rs:253-261 | the first level in use, the bottom if none |
| Levels.PlanL0 | crates/zydecodb-engine/src/compaction.rs:263-282 | a job if and only if L0 has enough files, taking all of L0 with everything overlapping it in the base level, which is its output |
| Levels.PlanLevel | crates/zydecodb-engine/src/compaction.rs:284-311 | a job if and only if the level exceeds its target, its one source the oldest file, with everything overlapping that below |
| Levels.PlanL2Gc | crates/zydecodb-engine/src/compaction.rs:313-349 | an in-place job if and only if some bottom file overlaps the oldest and half the bytes of all that do reach the threshold; it takes exactly those files |
| Levels.Plan | crates/zydecodb-engine/src/compaction.rs:143-173 | over disjoint levels no job if and only if no candidate asks for one, else a promotion from the first that does, never a same-level job |
| Levels.OutsideHull | crates/zydecodb-engine/src/compaction.rs:263-311 | a file left alone at the output level has the whole input hull on one side |
| Levels.ApplySound | crates/zydecodb-engine/src/compaction_worker.rs:398-424 | applying an executed job keeps the catalog sound: levels from 1 up stay pairwise disjoint |
| Levels.ApplySoundAfterFlush | crates/zydecodb-engine/src/engine/maintain.rs:163-202 | so does applying a job after files were flushed to L0 since it was planned |
| Levels.ApplyStored | crates/zydecodb-engine/src/compaction_worker.rs:361-485 | the stored versions afterwards are the kept inputs and everything left alone |
| Levels.ApplyDescends | crates/zydecodb-engine/src/compaction.rs:263-311 | every job strictly lowers the sum over entries of their distance to the bottom |
| Levels.CompactOnce | crates/zydecodb-engine/src/compaction.rs:143-151 | one plan, execute and apply: progress if and only if some candidate asks for it, soundness kept |
| Levels.StepPreservesReads | crates/zydecodb-engine/src/compaction_worker.rs:361-485 | with live snapshots and nothing expired one job changes no read at or above the watermark |
| Levels.RunToIdle | crates/zydecodb-engine/src/compaction.rs:143-200 | with no new flushes compaction stops within the potential, at a state where no candidate asks for work, and no level at all if none that asks is ever passed over; whatever order levels are tried in, sound throughout and with reads unchanged under live snapshots |
| Scheduler.RunSafe | crates/zydecodb-engine/src/compaction_worker.rs:188-347 | every state of every interleaving keeps the counter, the busy flag and the owner's knowledge exact |
| Scheduler.Interlock | crates/zydecodb-engine/src/compaction_worker.rs:188-282 | the result counter never underflows and a job is sent only when none runs or awaits its drain, from a plan made when that was so |
| Scheduler.StagedNeverSubmitted | crates/zydecodb-engine/src/compaction_worker.rs:239-256 | the staged slot is empty whenever the owner could take from it |
| Scheduler.ClearingFirstBreaksInterlock | crates/zydecodb-engine/src/compaction_worker.rs:304-347 | clearing busy before counting reaches a state that sends a second job |
| ChangeLog.DocBodyKeyExact | crates/zydecodb-engine/src/change_log.rs:411-424 | the body-key test is having the collection's document prefix |
| ChangeLog.PushEntry | crates/zydecodb-engine/src/change_log.rs:343-376 | the ordinal loop appends exactly the document changes after the token |
| ChangeLog.Archive.constructor | crates/zydecodb-engine/src/change_log.rs:46-53 | an empty archive is valid |
| ChangeLog.Archive.ArchiveSegment | crates/zydecodb-engine/src/change_log.rs:208-265 | recorded once in id order with the least bound on its sequences; a damaged segment is refused |
| ChangeLog.Archive.Prune | crates/zydecodb-engine/src/change_log.rs:273-300 | drops an oldest run of segments, each overdue when dropped, and stops when none is |
| ChangeLog.Archive.ChangesAfter | crates/zydecodb-engine/src/change_log.rs:332-409 | returns every recorded document change strictly after the token, once, in commit order; skipping by recorded maximum loses nothing |
| ChangeLog.ResumeIsSuffix | crates/zydecodb-engine/src/change_log.rs:332-409 | resuming at any delivered event returns exactly the rest of the stream |
| ChangeLog.PruneKeepsStream | crates/zydecodb-engine/src/change_log.rs:273-300 | dropping the oldest segments changes nothing for a token beyond their recorded maxima |

## Left out

- Query.PlannerExact: assumes that where `_id` is an indexed field the stored `_id` is the document id, because the filter reads the key and the index reads the body.
- Query.PlannerTransparent: the same assumption on an indexed `_id`.
- Consistency.QueriesExact: the same assumption on an indexed `_id`.
- Store.DocumentStore.ApplyToIds: the update itself is any function from a document to a document or an error.
- Store.DocumentStore.CommitBatches: one collection; batches that span collections, as bounded transactions build them, are not modelled.
- Store.DocumentStore.CounterUpdate: one collection and deltas that move its document and entry counts together, as document writes use; the separate deltas of the TTL sweep are not modelled.
- Session.DeleteMany: the same assumption on an indexed `_id`; no other write comes between selecting and deleting; the filter is checked again on each document either way.
- Session.UpdateMany: no other write comes between selecting and updating; the document an upsert inserts is given, not derived from the filter.
- Session.Perform: an index definition is attempted only on a store ready for it; `DefineIndex` and the failures beside it cover the others.
- Session.Serve: the same sessions.
- Backfill.DefineIndex: one clock for the whole definition; only references lie under an index prefix, as every writer there ensures; names, field lists and id assignment are checked by the catalog and not modelled.
- ReverseSort.ReverseExact: for fields that documents may fill independently, as distinct top-level ones; an index that names a field twice, or a field and one inside it, can come out sorted beyond that.
- Levels.Plan: takes the candidate levels in any order in place of floating-point scores.
- Levels.RunToIdle: read preservation is for runs with live snapshots and nothing expired; the other cases have their exact conditions per job.
- ZDocRefines.RoundTrip: strings are valid UTF-8, object members are in key order and the encoding is under 2^32 bytes; integers above the signed 64-bit range are not modelled.
- ChangeLog.Archive.ChangesAfter: a missing or damaged archived file, which the source reports as an error, is not modelled.
- Find.PaginationExact: bodies decode and fewer than 2^64 documents match.
- Join.ExecuteLookup: the outer matches are given; the bound on scanning for them, the post-join filter and the memory bound on joined documents are not modelled.
- Engine internals (log replay, tables, manifest, caches, tenancy) are an ordered map with atomic batches, sequence numbers and fixed snapshots; point reads there walk tables by id where the model takes the newest sequence.
- Files, fsync, threads and channels appear as atomic steps.
- JSON parsing, regular expressions (an arbitrary set of accepted strings), lossy UTF-8 conversion and projections are not modelled.
- How a TTL index derives an expiry from a document is an arbitrary function; the TTL sweep is not modelled.
- Aggregation accumulators, update operators, wire codecs, the counter record codec and client drivers are not modelled: each is a local computation no property here depends on.
- Decoding of index keys used by fuzzing, direct index scans and distinct values are not modelled.
