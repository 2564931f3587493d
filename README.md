# SimpleDB core, modelled in Dafny

This project models the core of SimpleDB, a teaching relational engine. It covers five parts:

- **The buffer pool.** This has four pieces:
  - per-page shared/exclusive locks (`PageLock`);
  - the wait-for graph and its deadlock search (`DependencyGraph`);
  - the insertion-ordered page cache with its no-steal eviction;
  - page fetch, tuple insertion and deletion, and transaction commit and abort.
- **Schema and value objects.** `TupleDesc`, `Tuple`, `HeapPageId` and `RecordId`.
- **The two aggregators.** `IntegerAggregator` computes MIN, MAX, COUNT, SUM and AVG per group. `StringAggregator` computes COUNT per group.
- **The integer part of `IntHistogram`.** Bucket sizing, bucket index, bucket widths and counting.
- **`HashEquiJoin`.** Building the hash table, probing it, and the cursor that `fetchNext` advances.

Each source file keeps its form:

- **Objects updated in place are classes.** These are `PageLock`, `DependencyGraph`, `BufferPool`, `Tuple`, the aggregators, `IntHistogram` and `HashEquiJoin`. Their methods carry `modifies` clauses.
- **Loops are methods with invariants.** This covers eviction, flushing, the completion loop, `merge`, `fieldNameToIndex`, `equals`, `hashCode`, `open` and `fetchNext`.
- **Each method is proved against a specification function.** Examples are `Acquire`, `Release`, `Holders`, `DfsAborts`, `Fold`, `CountFold`, `Build`, `JoinRows`, `MergedDesc` and `CompleteOne`. Lemmas then state what those functions mean.

Several proofs connect an implementation to the property it promises:

- `DfsAborts` holds exactly when a cycle can be reached from the transaction (`DeadlockIffCycle`).
- Folding tuples into the aggregator state keeps every group's entry equal to the MIN, MAX, COUNT or SUM of that group's values (`FoldConsistent`, `StoredMeaning`). SUM wraps at 32 bits as Java's `int` does.
- Probing the map that `open` builds yields exactly the join (`ProbeIsJoin`, `JoinRowsMembers`).

Java `int` arithmetic is written out explicitly wherever it matters:

- `Wrap32` gives 32-bit wrap-around.
- `JavaDiv` gives truncating division.

## Model

| member | source | states |
|---|---|---|
| JavaInt.Wrap32 | acmdb-lab1/acmdb-lab0/src/java/simpledb/HeapPageId.java:47-51 | The result is a 32-bit value congruent to the input modulo 2^32, and equals the input when it already fits, as Java `int` arithmetic does |
| JavaInt.WrapAddLeft | acmdb-lab5/src/java/simpledb/IntegerAggregator.java:91-96 | Wrapping an intermediate sum before adding more gives the same 32-bit result as wrapping once at the end |
| JavaInt.WrapShift | acmdb-lab1/acmdb-lab0/src/java/simpledb/HeapPageId.java:47-51 | Adding a multiple of 2^32 does not change the wrapped value |
| JavaInt.JavaDiv | acmdb-lab5/src/java/simpledb/IntegerAggregator.java:127-129 | Java's `/` rounds toward zero: a non-negative quotient times the divisor lies in `[a - b + 1, a]`, a negative one in `[a, a + b - 1]` |
| JavaInt.JavaDivInRange | acmdb-lab5/src/java/simpledb/IntegerAggregator.java:127-129 | Dividing a 32-bit value by a positive count stays a 32-bit value |
| JavaInt.TruncDiv | acmdb-lab5/src/java/simpledb/IntegerAggregator.java:127-129 | Bounds on the truncated quotient of a natural number, and negation of the quotient |
| Ids.PageIdEquals | acmdb-lab1/acmdb-lab0/src/java/simpledb/HeapPageId.java:60-65 | `equals` holds iff the other object is a page id with the same table id and page number; it is symmetric |
| Ids.PageIdHash | acmdb-lab1/acmdb-lab0/src/java/simpledb/HeapPageId.java:47-51 | The hash is `tableId * 2333 + pgNo` modulo 2^32, as a 32-bit value |
| Ids.PageIdHashConsistent | acmdb-lab1/acmdb-lab0/src/java/simpledb/HeapPageId.java:47-65 | Page ids that are `equals` have the same hash |
| Ids.Serialize | acmdb-lab1/acmdb-lab0/src/java/simpledb/HeapPageId.java:73-80 | `serialize` yields two ints, and rebuilding a page id from them gives one `equals` to the original |
| Ids.RecordIdEquals | acmdb-lab1/src/java/simpledb/RecordId.java:52-59 | `equals` is false for null or another class, and otherwise holds iff page ids and tuple numbers agree; it is symmetric |
| Ids.RecordIdHash | acmdb-lab1/src/java/simpledb/RecordId.java:67-72 | The hash is `pid.hashCode() * 2333 + tupleno` modulo 2^32 |
| Ids.RecordIdHashConsistent | acmdb-lab1/src/java/simpledb/RecordId.java:52-72 | Record ids that are `equals` have the same hash |
| Schema.Type.Len | acmdb-lab3/src/java/simpledb/TupleDesc.java:63-73 | Every field type occupies a positive number of bytes |
| Schema.TypesSizeAppend | acmdb-lab3/src/java/simpledb/TupleDesc.java:171-186 | The byte size of concatenated type lists is the sum of their sizes |
| Schema.Types | acmdb-lab3/src/java/simpledb/TupleDesc.java:127-131 | The type sequence has one entry per field, the i-th being field i's type |
| Schema.Make | acmdb-lab3/src/java/simpledb/TupleDesc.java:63-73 | The descriptor has `typeAr.length` fields, field i being `(typeAr[i], fieldAr[i])`, and its byte size is the sum of the type lengths |
| Schema.MakeAnonymous | acmdb-lab3/src/java/simpledb/TupleDesc.java:83-91 | As `Make`, with every field name null |
| Schema.GetFieldName | acmdb-lab3/src/java/simpledb/TupleDesc.java:111-115 | Fails with NoSuchElement iff `i < 0` or `i >= numFields`; otherwise returns field i's name |
| Schema.GetFieldType | acmdb-lab3/src/java/simpledb/TupleDesc.java:127-131 | Fails with NoSuchElement iff `i < 0` or `i >= numFields`; otherwise returns field i's type |
| Schema.FieldNameToIndex | acmdb-lab3/src/java/simpledb/TupleDesc.java:142-150 | A null name fails; otherwise the result is the smallest index whose name equals `name`, and failure means no field has that name |
| Schema.GetSize | acmdb-lab3/src/java/simpledb/TupleDesc.java:156-159 | The size is the sum of the field types' lengths, positive when there is a field |
| Schema.MergedDesc | acmdb-lab3/src/java/simpledb/TupleDesc.java:171-186 | The merged descriptor is well formed (byte size agrees with its types) |
| Schema.MergedDescShape | acmdb-lab3/src/java/simpledb/TupleDesc.java:171-186 | `merge` has `n1 + n2` fields and, for well-formed inputs, size `size1 + size2` |
| Schema.Merge | acmdb-lab3/src/java/simpledb/TupleDesc.java:171-186 | The first `n1` fields are td1's and the next `n2` are td2's, types and names alike |
| Schema.FillMerged | acmdb-lab3/src/java/simpledb/TupleDesc.java:172-183 | The two arrays hold td1's types and names followed by td2's |
| Schema.CopyFields | acmdb-lab3/src/java/simpledb/TupleDesc.java:176-183 | One copy loop writes td's types and names at the offset and leaves the other slots alone |
| Schema.MergedArrays | acmdb-lab3/src/java/simpledb/TupleDesc.java:172-185 | The filled arrays describe exactly the concatenated field list |
| Schema.MergedItems | acmdb-lab3/src/java/simpledb/TupleDesc.java:185 | Rebuilding from the filled arrays gives the concatenated field list |
| Schema.Equals | acmdb-lab3/src/java/simpledb/TupleDesc.java:197-206 | `equals` holds iff the other object is a descriptor with the same number of fields and pointwise equal types; names are ignored |
| Schema.HashCode | acmdb-lab3/src/java/simpledb/TupleDesc.java:208-216 | The hash depends on the type sequence only, so descriptors that are `equals` hash alike |
| Tuples.Tuple.Value | acmdb-lab1/src/java/simpledb/Tuple.java:87-90 | The tuple's value has one field per array slot |
| Tuples.Tuple.constructor | acmdb-lab1/src/java/simpledb/Tuple.java:30-37 | A new tuple has `numFields(td)` fields, all null, and a null record id |
| Tuples.Tuple.GetTupleDesc | acmdb-lab1/src/java/simpledb/Tuple.java:42-45 | Returns the current descriptor |
| Tuples.Tuple.GetRecordId | acmdb-lab1/src/java/simpledb/Tuple.java:51-54 | Returns the last record id set |
| Tuples.Tuple.SetRecordId | acmdb-lab1/src/java/simpledb/Tuple.java:62-65 | Sets only the record id; descriptor and fields are unchanged |
| Tuples.Tuple.SetField | acmdb-lab1/src/java/simpledb/Tuple.java:75-79 | Afterwards `getField(i)` is `f` and every other index is unchanged; the field count stays |
| Tuples.Tuple.GetField | acmdb-lab1/src/java/simpledb/Tuple.java:87-90 | Returns the value stored at index i |
| Tuples.Tuple.ResetTupleDesc | acmdb-lab1/src/java/simpledb/Tuple.java:125-129 | Replaces only the descriptor; field values and record id are untouched |
| Grouping.GroupSize | acmdb-lab3/src/java/simpledb/StringAggregator.java:49-57 | A group never has more tuples than were merged |
| Grouping.KeysInOrderSpec | acmdb-lab5/src/java/simpledb/IntegerAggregator.java:121-140 | The groups in first-seen order are distinct and are exactly the keys with at least one tuple |
| Grouping.AppendOne | acmdb-lab5/src/java/simpledb/IntegerAggregator.java:61-69 | Merging a tuple appends its key to the group order iff it is new, and grows only its own group |
| IntAgg.GroupValues | acmdb-lab5/src/java/simpledb/IntegerAggregator.java:61-69 | A group's aggregate values are one per tuple of the group |
| IntAgg.MinIsLeast | acmdb-lab5/src/java/simpledb/IntegerAggregator.java:73-78 | The minimum is one of the values and no value is smaller |
| IntAgg.MaxIsGreatest | acmdb-lab5/src/java/simpledb/IntegerAggregator.java:79-84 | The maximum is one of the values and no value is larger |
| IntAgg.Stored | acmdb-lab5/src/java/simpledb/IntegerAggregator.java:72-109 | The stored entry of a group of at most INT_MAX tuples is a 32-bit value |
| IntAgg.StoredMeaning | acmdb-lab5/src/java/simpledb/IntegerAggregator.java:72-106 | MIN stores the least value seen, MAX the greatest, COUNT the number of tuples, SUM and AVG the sum modulo 2^32 |
| IntAgg.StoredStep | acmdb-lab5/src/java/simpledb/IntegerAggregator.java:68-109 | Each case of the switch turns the aggregate of the previous values into the aggregate of the values plus the new one |
| IntAgg.Results | acmdb-lab5/src/java/simpledb/IntegerAggregator.java:121-140 | The iterator yields exactly one tuple per group |
| IntAgg.MergeKeepsConsistent | acmdb-lab5/src/java/simpledb/IntegerAggregator.java:61-111 | One merge keeps the maps consistent with the longer input: group order, per-group aggregate and, for AVG, per-group count |
| IntAgg.FoldConsistent | acmdb-lab5/src/java/simpledb/IntegerAggregator.java:61-111 | After any sequence of merges the maps hold, per group in first-seen order, the aggregate of the group's values |
| IntAgg.FoldKeys | acmdb-lab5/src/java/simpledb/IntegerAggregator.java:121-124 | The maps' key order is the groups' first-seen order |
| IntAgg.FoldEntry | acmdb-lab5/src/java/simpledb/IntegerAggregator.java:121-136 | The entry the iterator reads for a group is its aggregate; for AVG the reported value is the truncated quotient of sum by count |
| IntAgg.MergeKeepsValues | acmdb-lab5/src/java/simpledb/IntegerAggregator.java:68-109 | A merge changes only the tuple's own group in `_groupByValue` |
| IntAgg.MergeKeepsCounts | acmdb-lab5/src/java/simpledb/IntegerAggregator.java:102-103 | For AVG a merge adds one to the tuple's group count and leaves the others |
| IntAgg.GroupValuesAppend | acmdb-lab5/src/java/simpledb/IntegerAggregator.java:61-69 | A merged tuple's value joins its own group only |
| IntAgg.IntegerAggregator.constructor | acmdb-lab5/src/java/simpledb/IntegerAggregator.java:38-52 | Empty maps; output schema `(aggregateValue)` without grouping, otherwise `(groupValue, aggregateValue)` |
| IntAgg.IntegerAggregator.MergeTupleIntoGroup | acmdb-lab5/src/java/simpledb/IntegerAggregator.java:61-111 | The tuple's group entry is updated by the operator's step, for AVG its count grows by one, and every other group is unchanged |
| IntAgg.IntegerAggregator.Iterator | acmdb-lab5/src/java/simpledb/IntegerAggregator.java:121-140 | The result tuples are one per group in first-seen order, each `(value)` or `(group, value)`, with AVG truncated |
| StringAgg.CountFoldSpec | acmdb-lab3/src/java/simpledb/StringAggregator.java:49-59 | After any merges `_counts` has the groups in first-seen order, each mapped to its size |
| StringAgg.SumCountsUpdate | acmdb-lab3/src/java/simpledb/StringAggregator.java:56-57 | Replacing one listed count changes the total by the difference |
| StringAgg.SumCountsFrame | acmdb-lab3/src/java/simpledb/StringAggregator.java:56-57 | A count for an unlisted key does not change the total |
| StringAgg.CountsSumToSize | acmdb-lab3/src/java/simpledb/StringAggregator.java:56-57 | The counts of all groups add up to the number of merged tuples |
| StringAgg.StringAggregator.constructor | acmdb-lab3/src/java/simpledb/StringAggregator.java:30-43 | Empty counts and the output schema for grouping or not; the operator is stored without being checked |
| StringAgg.StringAggregator.MergeTupleIntoGroup | acmdb-lab3/src/java/simpledb/StringAggregator.java:49-59 | The tuple's group count grows by one (from 0 if new) and every other group is unchanged |
| StringAgg.StringAggregator.Iterator | acmdb-lab3/src/java/simpledb/StringAggregator.java:69-85 | One tuple per group in first-seen order, carrying the group's size |
| Histogram.TotalUpdate | acmdb-lab5/src/java/simpledb/IntHistogram.java:52-57 | Incrementing one bucket raises the total of the counts by one |
| Histogram.TotalZeros | acmdb-lab5/src/java/simpledb/IntHistogram.java:36-37 | Fresh zero buckets total zero |
| Histogram.QuotientUnique | acmdb-lab5/src/java/simpledb/IntHistogram.java:46-50 | A value in `[q*w, (q+1)*w)` has quotient q |
| Histogram.DivShape | acmdb-lab5/src/java/simpledb/IntHistogram.java:35 | The width is at least one and the buckets fit the range |
| Histogram.MulMonotone | acmdb-lab5/src/java/simpledb/IntHistogram.java:46-50 | Bucket boundaries increase with the bucket index |
| Histogram.IntHistogram.constructor | acmdb-lab5/src/java/simpledb/IntHistogram.java:30-39 | `bucketsNum = min(buckets, max-min+1)`, `width = (max-min+1)/bucketsNum >= 1`, that many empty buckets, no values |
| Histogram.IntHistogram.GetBucket | acmdb-lab5/src/java/simpledb/IntHistogram.java:46-50 | An in-range value lands in `[0, bucketsNum)`; bucket i below the last holds exactly `[min+i*width, min+(i+1)*width)`, the last holds everything from its lower bound up |
| Histogram.IntHistogram.BucketOfValue | acmdb-lab5/src/java/simpledb/IntHistogram.java:46-50 | Conversely a value inside bucket i's interval is sent to bucket i |
| Histogram.IntHistogram.GetBucketWidth | acmdb-lab5/src/java/simpledb/IntHistogram.java:71-76 | Every bucket but the last has width `width`; the last is at least as wide and ends at `max` |
| Histogram.IntHistogram.WidthSumPrefix | acmdb-lab5/src/java/simpledb/IntHistogram.java:71-76 | The first k buckets below the last span `k * width` values |
| Histogram.IntHistogram.WidthsCoverRange | acmdb-lab5/src/java/simpledb/IntHistogram.java:71-76 | The widths of all buckets add up to `max - min + 1` |
| Histogram.IntHistogram.AddValue | acmdb-lab5/src/java/simpledb/IntHistogram.java:52-57 | `tuplesNum` and the value's bucket are incremented as Java `int`s, wrapping at 2^31 - 1, and no other bucket changes; the ghost count of added values grows by one, `tuplesNum` equals it modulo 2^32, and so does the total of the buckets |
| Histogram.IntHistogram.CountsAddUp | acmdb-lab5/src/java/simpledb/IntHistogram.java:52-57 | Until more than 2^31 - 1 values are added, `tuplesNum` is exactly the number of values added and the total of the buckets, and each bucket lies between 0 and `tuplesNum` |
| Histogram.TotalAtLeast | acmdb-lab5/src/java/simpledb/IntHistogram.java:52-57 | With no negative counts, one bucket never exceeds the total |
| Histogram.TotalNonNegative | acmdb-lab5/src/java/simpledb/IntHistogram.java:52-57 | With no negative counts, the total is not negative |
| Histogram.SameMod32Add | acmdb-lab5/src/java/simpledb/IntHistogram.java:52-57 | Adding to both sides keeps two numbers congruent modulo 2^32, which is why a wrapped `++` keeps the counts in step |
| Join.BuildSpec | acmdb-lab3/acmdb-lab3/src/java/simpledb/HashEquiJoin.java:63-77 | The map built by `open` has a key iff some right tuple carries it, and sends it to those tuples in arrival order |
| Join.MatchesMembers | acmdb-lab3/acmdb-lab3/src/java/simpledb/HashEquiJoin.java:69-75 | A key's list holds exactly the right tuples whose join field has that value |
| Join.BuildWellFormed | acmdb-lab3/acmdb-lab3/src/java/simpledb/HashEquiJoin.java:63-77 | Every list in the map holds well-formed right tuples |
| Join.BuildLookup | acmdb-lab3/acmdb-lab3/src/java/simpledb/HashEquiJoin.java:127-131 | Looking a key up in the built map gives its matches, and a missing key means no right tuple matches |
| Join.JoinFromMembers | acmdb-lab3/acmdb-lab3/src/java/simpledb/HashEquiJoin.java:114-136 | The output from a left position on is exactly the concatenations of a later left tuple with a right tuple of equal key |
| Join.JoinRowsMembers | acmdb-lab3/acmdb-lab3/src/java/simpledb/HashEquiJoin.java:114-136 | The join output is exactly the set of `left ++ right` for pairs with equal join fields, each with `n1 + n2` fields |
| Join.UnmatchedLeftIsSkipped | acmdb-lab3/acmdb-lab3/src/java/simpledb/HashEquiJoin.java:129-130 | A left tuple without matches contributes no output |
| Join.ProbeIsJoin | acmdb-lab3/acmdb-lab3/src/java/simpledb/HashEquiJoin.java:114-136 | Probing the built map left tuple by left tuple yields the join, in order |
| Join.ListRestAdvance | acmdb-lab3/acmdb-lab3/src/java/simpledb/HashEquiJoin.java:115-122 | Taking the next right tuple from the list yields the first output due and leaves the rest |
| Join.ListRestDone | acmdb-lab3/acmdb-lab3/src/java/simpledb/HashEquiJoin.java:115 | An exhausted or absent list has nothing left to emit |
| Join.ListRestFresh | acmdb-lab3/acmdb-lab3/src/java/simpledb/HashEquiJoin.java:131 | A fresh iterator over a match list emits the left tuple joined with each match |
| Join.ConcatFields | acmdb-lab3/acmdb-lab3/src/java/simpledb/HashEquiJoin.java:117-121 | The output fields are the left tuple's followed by the right tuple's |
| Join.BuildMap | acmdb-lab3/acmdb-lab3/src/java/simpledb/HashEquiJoin.java:68-75 | The loop over the right input builds the map `Build` describes |
| Join.SkipUnmatched | acmdb-lab3/acmdb-lab3/src/java/simpledb/HashEquiJoin.java:125-131 | The loop stops at the first left tuple with a match (or the end), having skipped only unmatched ones, and the output due is unchanged |
| Join.HashEquiJoin.constructor | acmdb-lab3/acmdb-lab3/src/java/simpledb/HashEquiJoin.java:31-39 | Closed, with null left and right tuples, no list iterator and an empty map |
| Join.HashEquiJoin.GetTupleDesc | acmdb-lab3/acmdb-lab3/src/java/simpledb/HashEquiJoin.java:46-49 | The output schema is the merge of the children's, with `n1 + n2` fields |
| Join.HashEquiJoin.Open | acmdb-lab3/acmdb-lab3/src/java/simpledb/HashEquiJoin.java:63-77 | The map is rebuilt from the right input, `right` is its last tuple, and from a closed state the output due is the whole join |
| Join.HashEquiJoin.Close | acmdb-lab3/acmdb-lab3/src/java/simpledb/HashEquiJoin.java:79-86 | The map is emptied and the list iterator reset |
| Join.HashEquiJoin.Rewind | acmdb-lab3/acmdb-lab3/src/java/simpledb/HashEquiJoin.java:88-92 | Afterwards the output due is the whole join again |
| Join.HashEquiJoin.NextInList | acmdb-lab3/acmdb-lab3/src/java/simpledb/HashEquiJoin.java:115-122 | Returns the first output due and removes it from what is due |
| Join.HashEquiJoin.FetchNext | acmdb-lab3/acmdb-lab3/src/java/simpledb/HashEquiJoin.java:114-136 | Returns the next join tuple in order and removes it from what is due, or null once the join is exhausted |
| LockTable.Acquire | acmdb-lab5/src/java/simpledb/BufferPool.java:32-51 | Shared is granted iff no exclusive holder or the requester holds it; exclusive iff the requester holds it, or there is none and the shared set is within `{tid}`; the exclusive holder's own request is granted with the lock unchanged; a shared grant from a lock without an exclusive holder adds tid to the shared set, an exclusive one leaves tid the only holder; a refusal changes nothing, and the exclusive-excludes-shared invariant is preserved |
| LockTable.SoleHolder | acmdb-lab5/src/java/simpledb/BufferPool.java:41-42 | The upgrade test "no shared holder, or tid is the only one" means the shared set is within `{tid}` |
| LockTable.Release | acmdb-lab5/src/java/simpledb/BufferPool.java:53-56 | Releasing removes only tid, from whichever slot, and preserves the invariant |
| LockTable.Holders | acmdb-lab5/src/java/simpledb/BufferPool.java:67-72 | The holders are exactly the exclusive holder and the shared holders |
| LockTable.HoldsLockResult | acmdb-lab5/src/java/simpledb/BufferPool.java:59-61 | Fails (null dereference) iff no exclusive holder; otherwise answers whether tid holds the page, which is whether tid is the exclusive holder |
| LockTable.PageLock.constructor | acmdb-lab5/src/java/simpledb/BufferPool.java:26-30 | A new lock has no holders |
| LockTable.PageLock.AcquireLock | acmdb-lab5/src/java/simpledb/BufferPool.java:32-51 | The grant and the new lock state are those of `Acquire` |
| LockTable.PageLock.ReleaseLock | acmdb-lab5/src/java/simpledb/BufferPool.java:53-56 | The new lock state is that of `Release` |
| LockTable.PageLock.HoldsLock | acmdb-lab5/src/java/simpledb/BufferPool.java:59-61 | Answers as `HoldsLockResult`: true iff tid is the exclusive holder, failure when there is none |
| LockTable.PageLock.HasEx | acmdb-lab5/src/java/simpledb/BufferPool.java:63-65 | True means an exclusive holder and no shared holders; false means the holders are the shared set |
| LockTable.PageLock.GetHolders | acmdb-lab5/src/java/simpledb/BufferPool.java:67-72 | Returns exactly the transactions holding the page |
| WaitFor.DfsAbortsWalk | acmdb-lab5/src/java/simpledb/BufferPool.java:116-126 | The recursive search aborts iff some wait-for walk from the root revisits a node of the current path |
| WaitFor.JoinWalk | acmdb-lab5/src/java/simpledb/BufferPool.java:116-126 | Two walks meeting end to start join into one walk |
| WaitFor.RevisitGivesCycle | acmdb-lab5/src/java/simpledb/BufferPool.java:111-126 | A walk that revisits a node reaches a cycle |
| WaitFor.RevisitFromCycle | acmdb-lab5/src/java/simpledb/BufferPool.java:111-126 | A path to a cycle extends into a walk that revisits a node |
| WaitFor.CycleGivesRevisit | acmdb-lab5/src/java/simpledb/BufferPool.java:111-126 | A reachable cycle gives a revisiting walk from the root |
| WaitFor.RevisitIffCycle | acmdb-lab5/src/java/simpledb/BufferPool.java:111-126 | A revisiting walk exists iff a cycle is reachable |
| WaitFor.DeadlockIffCycle | acmdb-lab5/src/java/simpledb/BufferPool.java:111-126 | `checkDeadlock(tid)` aborts iff the wait-for graph has a cycle reachable from tid |
| WaitFor.SelfEdgeDeadlocks | acmdb-lab5/src/java/simpledb/BufferPool.java:111-126 | A transaction waiting on itself is a deadlock |
| WaitFor.DependencyGraph.constructor | acmdb-lab5/src/java/simpledb/BufferPool.java:100 | The graph starts empty |
| WaitFor.DependencyGraph.UpdateGraph | acmdb-lab5/src/java/simpledb/BufferPool.java:101-109 | tid's wait set is replaced wholesale by the page's holders, or emptied when none is given; other entries are unchanged |
| WaitFor.DependencyGraph.CheckDeadlock | acmdb-lab5/src/java/simpledb/BufferPool.java:111-113 | Aborts iff a cycle is reachable from tid |
| WaitFor.DependencyGraph.Dfs | acmdb-lab5/src/java/simpledb/BufferPool.java:116-126 | Aborts exactly as the recursive search specification does |
| PageCache.Put | acmdb-lab5/src/java/simpledb/BufferPool.java:338-340 | Putting a page maps its id to it, keeps the insertion order of an existing id, and grows the size only for a new id |
| PageCache.IndexOf | acmdb-lab5/src/java/simpledb/BufferPool.java:456-460 | The position of a resident id in the insertion order |
| PageCache.RemoveAtOk | acmdb-lab5/src/java/simpledb/BufferPool.java:407 | Removing one id from the order keeps it duplicate-free and drops only that id |
| PageCache.Remove | acmdb-lab5/src/java/simpledb/BufferPool.java:400-411 | Removing an id drops only its entry and shrinks the size by one if it was resident |
| PageCache.FirstClean | acmdb-lab5/src/java/simpledb/BufferPool.java:456-463 | Finds the first clean page in insertion order, or reports that all are dirty |
| PageCache.Evict | acmdb-lab5/src/java/simpledb/BufferPool.java:439-467 | Succeeds iff some resident page is clean, then removes exactly the first clean page in insertion order; dirty pages are never removed; on failure the cache is unchanged |
| PageCache.MakeRoom | acmdb-lab5/src/java/simpledb/BufferPool.java:337-340 | Making room keeps the cache well formed |
| PageCache.MakeRoomEvictsFirstClean | acmdb-lab5/src/java/simpledb/BufferPool.java:439-467 | Making room fails iff the cache is full and every page is dirty; below capacity nothing changes; otherwise exactly the first clean page in insertion order is removed, every page before it being dirty, and the size drops by one |
| PageCache.Admit | acmdb-lab5/src/java/simpledb/BufferPool.java:337-340 | Admitting a page leaves it resident under its id, keeps the cache well formed, and puts a new id last in insertion order |
| PageCache.FlushPage | acmdb-lab5/src/java/simpledb/BufferPool.java:417-426 | A resident dirty page is written to disk and marked clean; a clean or absent page changes nothing |
| PageCache.FlushStep | acmdb-lab5/src/java/simpledb/BufferPool.java:383-390 | Flushing one more page extends the flushed-so-far relation |
| PageCache.FlushAll | acmdb-lab5/src/java/simpledb/BufferPool.java:383-390 | Every resident page is cleaned and every dirty one written to disk, with the cache's key set and order kept |
| PageCache.BatchDirty | acmdb-lab5/src/java/simpledb/BufferPool.java:337-345 | Every page of the batch is marked dirty by tid |
| PageCache.BatchHolds | acmdb-lab5/src/java/simpledb/BufferPool.java:337-345 | Every returned page's id is in the batch, holding the last page returned with that id |
| PageCache.BatchOnlyIds | acmdb-lab5/src/java/simpledb/BufferPool.java:337-345 | The batch holds only ids of returned pages |
| PageCache.CacheStep | acmdb-lab5/src/java/simpledb/BufferPool.java:337-345 | Putting the next dirtied page keeps the cache equal to the old pages overwritten by the batch so far |
| PageCache.CacheOne | acmdb-lab5/src/java/simpledb/BufferPool.java:337-345 | One page is cached within capacity, evicting the first clean page first if the cache is full and the page is new, and the result is exactly `Admit` of the page dirtied by tid; it fails, unchanged, iff `Admit` finds no room, which means the cache is full of dirty pages |
| PageCache.CacheRunAt | acmdb-lab5/src/java/simpledb/BufferPool.java:337-345 | The run over the pages from i either stops at page i, when it cannot be admitted, or goes on from i + 1 over the cache that admits it |
| PageCache.CachePages | acmdb-lab5/src/java/simpledb/BufferPool.java:331-376 | The result is exactly `CacheRun` from the first page: each returned page, dirtied by tid, is admitted in order; within capacity, each ends resident and dirty by tid, overwriting any older copy; failure leaves a prefix cached and a full all-dirty cache |
| PageCache.CompleteOne | acmdb-lab5/src/java/simpledb/BufferPool.java:295-311 | One page is completed: commit writes a dirty page and re-baselines it, abort restores the before-image; only that page and its lock change |
| PageCache.CompleteCacheStep | acmdb-lab5/src/java/simpledb/BufferPool.java:296-311 | Completing one more page extends the cache part of the completed-so-far relation |
| PageCache.CompleteDiskStep | acmdb-lab5/src/java/simpledb/BufferPool.java:296-311 | Completing one more page extends the disk part of the completed-so-far relation |
| PageCache.DiskWrite | acmdb-lab5/src/java/simpledb/BufferPool.java:299-302 | Writing one more committed dirty page keeps the disk equal to the writes of the pages done so far |
| PageCache.CompleteStep | acmdb-lab5/src/java/simpledb/BufferPool.java:296-311 | Completing one more page extends the whole completed-so-far relation |
| PageCache.CompletePages | acmdb-lab5/src/java/simpledb/BufferPool.java:296-311 | All of tid's pages are completed: covered pages committed or restored, committed dirty pages written, tid's locks released |
| Buffers.LockOf | acmdb-lab5/src/java/simpledb/BufferPool.java:205-206 | A page without an entry has a lock with no holders |
| Buffers.PagesOf | acmdb-lab5/src/java/simpledb/BufferPool.java:218-219 | A transaction without an entry has no recorded pages |
| Buffers.RecordGrant | acmdb-lab5/src/java/simpledb/BufferPool.java:217-219 | Recording a granted page keeps `tidToPid` equal to the pages each transaction holds |
| Buffers.RecordRelease | acmdb-lab5/src/java/simpledb/BufferPool.java:254-261 | Releasing a page and unrecording it keeps that agreement |
| Buffers.RecordComplete | acmdb-lab5/src/java/simpledb/BufferPool.java:292-310 | After completion tid holds no lock, and dropping tid's entry keeps the agreement |
| Buffers.CoveredIffExclusive | acmdb-lab5/src/java/simpledb/BufferPool.java:295-297 | For a recorded page, the test "resident and some exclusive holder" holds iff the page is resident and tid is its exclusive holder |
| Buffers.RecordGrantless | acmdb-lab5/src/java/simpledb/BufferPool.java:205-206 | Adding an unheld lock entry keeps the agreement |
| Buffers.FetchPage | acmdb-lab5/src/java/simpledb/BufferPool.java:228-242 | A hit returns the cached page unchanged; a miss makes room (failing iff the cache is full and every page is dirty), then loads the page from disk with its before-image set; the new cache is exactly `Admit` of the loaded page, and for a page not on disk exactly `MakeRoom` of the old cache; no dirty page is lost and the size stays within capacity |
| Buffers.BufferPool.constructor | acmdb-lab5/src/java/simpledb/BufferPool.java:139-148 | An empty cache of the given capacity, no locks, no recorded pages, an empty wait-for graph |
| Buffers.BufferPool.AcquireLock | acmdb-lab5/src/java/simpledb/BufferPool.java:204-221 | One attempt: on grant tid's wait set is emptied and the page recorded; on refusal the wait set becomes the page's holders and the attempt aborts iff a cycle is reachable, which a failed upgrade always causes |
| Buffers.BufferPool.GetPage | acmdb-lab5/src/java/simpledb/BufferPool.java:223-243 | The lock is requested first, with the lock table, the recorded pages and the wait-for graph changed exactly as by `AcquireLock`; a refused request leaves the cache alone and answers TxAborted iff a cycle is then reachable from tid (always for a failed upgrade), Waiting otherwise. A granted hit returns the cached page with nothing else changed; a granted miss fails with CacheFull iff the cache is full and every page is dirty, with NoSuchPage iff otherwise the page is not on disk (leaving `MakeRoom` of the old cache), and else returns the page loaded from disk, the cache becoming exactly `Admit` of it; dirty pages and capacity are kept |
| Buffers.BufferPool.ReleasePage | acmdb-lab5/src/java/simpledb/BufferPool.java:254-261 | tid's lock on the page is released and the page unrecorded; for a page that never had a lock it fails without changing anything |
| Buffers.BufferPool.HoldsLock | acmdb-lab5/src/java/simpledb/BufferPool.java:275-281 | Answers from the page's lock, failing for an unknown page or no exclusive holder, and agrees with the recorded pages |
| Buffers.BufferPool.TransactionComplete | acmdb-lab5/src/java/simpledb/BufferPool.java:290-314 | Exactly the resident pages tid holds exclusively are committed or restored, tid releases every lock, and tid's entry is removed |
| Buffers.BufferPool.Commit | acmdb-lab5/src/java/simpledb/BufferPool.java:268-272 | Completes tid with commit, exactly as `TransactionComplete`: its exclusively held resident pages are re-baselined, the dirty ones among them are written to disk and no other page is, and its locks and entry are dropped |
| Buffers.BufferPool.InsertTuple | acmdb-lab5/src/java/simpledb/BufferPool.java:331-346 | The outcome and the new cache are exactly `CacheRun` over the pages returned by the table file: they end resident and dirty by tid, overwriting older copies, within capacity; locks and disk are unchanged |
| Buffers.BufferPool.DeleteTuple | acmdb-lab5/src/java/simpledb/BufferPool.java:361-376 | As `InsertTuple`, for the pages returned by the deletion: exactly `CacheRun` over them |
| Buffers.BufferPool.FlushAllPages | acmdb-lab5/src/java/simpledb/BufferPool.java:383-390 | Every resident page is flushed and cleaned; locks are unchanged |
| Buffers.BufferPool.DiscardPage | acmdb-lab5/src/java/simpledb/BufferPool.java:400-411 | The new cache is exactly `Remove` of the page: its entry and its place in the insertion order go, unwritten, and nothing else changes |

## Left out

- Threads, `synchronized` blocks and the concurrent collections of the buffer pool are not modelled. The busy-wait retry loop of `acquireLock` is one attempt, which returns Granted, Blocked or Aborted. `GetPage` reports a blocked attempt as `Waiting`.
- Page bytes, `HeapPage`, `DbFile` reads and writes, the `Catalog` and the `Database` singleton are not part of this model, because they are I/O:
  - the disk is a map from page id to page data;
  - `writePage` is a map update;
  - reading an id that is not on disk is the `NoSuchPage` outcome.
- Buffers.BufferPool.InsertTuple: the table file's `insertTuple` is not modelled. The pages it returns are a parameter.
- Buffers.BufferPool.DeleteTuple: the table file's `deleteTuple` is not modelled. The pages it returns are a parameter, and the table is not looked up from the record id.
- Page identity and aliasing are not modelled. Pages are values, so a caller that mutates a page it got from `getPage` is out of scope. Locks are held by value in `pidToLock`, not as shared `PageLock` objects.
- `flushPage` and `evictPage` are private helpers. They are modelled as `PageCache.FlushPage` and `PageCache.Evict`, which the pool's methods call.
- `findPage`, `LRU_update` and `flushPages` are not modelled:
  - `findPage` looks up a page-keyed map with an int;
  - `LRU_update` is never called;
  - `flushPages` is empty.
- `getPageSize`, `setPageSize` and `resetPageSize` are not modelled, because they only handle a static constant.
- Buffers.BufferPool.constructor: the capacity is a `nat`, so a negative `numPages` is not modelled.
- `PageLock.holdsLock` dereferences the exclusive holder before checking it for null. The model turns that failure into `None`. It is not a precondition.
- The code lets a failed lock upgrade put the requester into its own wait set, so the deadlock check aborts it at once. The model follows the code.
- The type lengths come from `Type.java`, which is not part of this model. The model uses SimpleDB's lengths: INT is 4 bytes and STRING is 132 bytes.
- Schema.Make: it requires at least as many names as types. In Java a shorter name array throws ArrayIndexOutOfBoundsException.
- Tuples.Tuple.SetField: it requires an index inside the tuple. In Java an index out of range throws ArrayIndexOutOfBoundsException.
- Tuples.Tuple.GetField: it requires an index inside the tuple, for the same reason.
- Schema.GetSize: `_byte_size` is an unbounded integer, so Java `int` overflow of the byte size is not modelled.
- Schema.HashCode: an enum's `hashCode` is identity-based in Java, so the per-type hash is a parameter. The 32-bit wrap-around of `* 7 +` is modelled.
- `TupleDesc.toString` and `Tuple.toString`, the field iterators and Java serialisation are not modelled, because they render strings.
- Transaction ids are integers, and `Object` arguments of `equals` are `Option` values. `None` stands for null or an object of another class.
- Ids.PageIdEquals: another class implementing `PageId` is folded into `None`, so it is never equal. The Java `equals` compares any `PageId` by table id and page number.
- IntAgg.IntegerAggregator.MergeTupleIntoGroup: it requires fewer than 2^31 - 1 merged tuples, so a COUNT or AVG counter never overflows. SUM and AVG sums wrap at 32 bits, as in Java.
- IntAgg.IntegerAggregator.MergeTupleIntoGroup: it requires `Mergeable`, an aggregate field that is set and holds an integer. In Java an unset field throws NullPointerException and a string field throws ClassCastException.
- IntAgg.IntegerAggregator.constructor: with grouping it requires a group-by type. In Java a null type makes the result `TupleDesc` throw NullPointerException.
- StringAgg.StringAggregator.constructor: with grouping it requires a group-by type, for the same reason.
- StringAgg.StringAggregator.MergeTupleIntoGroup: it requires fewer than 2^31 - 1 merged tuples, for the same reason.
- The aggregators' tuples are values. The `DbIterator` that `iterator()` returns is the sequence of result tuples.
- `IntHistogram.estimateSelectivity`, `avgSelectivity` and `toString` are not modelled, because they use floating point.
- Histogram.IntHistogram.GetBucket: a value below `min`, or one for which `value - min + 1` overflows, is excluded. The Java code then computes a wrong or negative index and `addValue` throws ArrayIndexOutOfBoundsException.
- Histogram.IntHistogram.AddValue: it requires what `GetBucket` requires, for the same reason.
- Histogram.IntHistogram.constructor: it requires `max - min + 1 <= 2^31 - 1`. For a wider range, such as `min = -2^31` and `max = 0`, the Java arithmetic wraps and the constructor divides by a wrong bucket count or allocates a negative-sized array.
- Join.HashEquiJoin.constructor: it requires each child's tuples to be well formed with the join field in range. In Java an out-of-range join field throws when the tuples are read.
- Join.HashEquiJoin.constructor: the join predicate's comparison operator is not consulted, because the join always matches on equality. `getJoinPredicate`, `getJoinField1Name` and `getJoinField2Name` are plain getters and are not modelled.
- The join's children are sequences of tuples. Operator open-state checks from the `Operator` base class are not modelled.
