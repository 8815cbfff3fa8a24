# Geo search core of bobo: query validation, hit queue, range scan

This project models three small pieces of the geo-search contribution to the
bobo faceted-search library, and proves their properties in Dafny.

- **GeoQuery** (module `GeoQueries`, `geo_query.dfy`): a query has a centroid
  latitude and longitude in degrees and a search radius in kilometres. The
  constructor takes them in that order and rejects bad input at once. The
  radius is a boxed `Float`, so it may be null; here it is an `Option<real>`.
  A null radius is unboxed when it is assigned to the primitive field, before
  the null test, so it ends in a NullPointerException. A negative radius is an
  illegal argument ("range must be positive"), and a radius of exactly zero is
  accepted. A latitude or a longitude that fails its validity test is then an
  illegal argument. No method of the query class writes its fields after
  construction, so here a query is an immutable datatype and its getters are
  stable.
- **GeoOnlyHitQueue** (module `GeoOnlyHitQueues`, `geo_only_hit_queue.dfy`): a
  priority queue of `(doc, score)` hits with a capacity fixed when it is
  created. Its comparator is `lessThan(a, b) <==> a.score > b.score`, a strict
  order under which equal scores are incomparable. The queue's least element,
  the one at its top, is therefore a hit with the highest score. The class holds
  its capacity and a sequence whose first element is always a least one. The
  operations inherited from Lucene's PriorityQueue (add, top, pop,
  insert-with-overflow) are given contracts based on Lucene's documentation,
  with the differences listed under "Left out". Add, top and pop all report
  the same top hit. Because the top is the highest score, a full queue that
  overflows gives back its highest-scoring hit (or the new hit, if that scores
  higher still): it keeps the lowest scores it has seen, not the best ones.
- **IGeoRecordIterator** (module `GeoRecordIterators`, `geo_record_iterator.dfy`):
  obtaining an iterator on `[minValue, maxValue]` yields exactly the stored
  records in that closed interval under the store's record comparator, in
  stored order, or ends in an I/O failure. On a store sorted by that
  comparator, the result is one contiguous run of the store.

`wrappers.dfy` holds the `Option` and `Result` types.

The validity tests on latitude and longitude belong to a utility class that is
not part of this model. They are parameters of the constructor
(`isValidLatitude`, `isValidLongitude`), so every property holds whatever
those tests are. Reading the store's storage is a parameter of `GetIterator`:
it either yields the stored records or ends in an I/O failure. Coordinates,
radius and scores are reals.

## Model

| member | source | states |
|---|---|---|
| GeoQueries.Construct | bobo-contrib/src/main/java/com/browseengine/bobo/geosearch/query/GeoQuery.java:64-98 | construction succeeds exactly when the radius is present and at least 0 and both coordinates pass their validity tests; on success the getters return latitude, longitude and radius exactly as given, unswapped, and the query is valid; the "please specify" illegal argument is never raised |
| GeoQueries.NullRangeRaisesNullPointer | bobo-contrib/src/main/java/com/browseengine/bobo/geosearch/query/GeoQuery.java:64-71 | a null radius always ends in a NullPointerException, whatever the coordinates, which differs from the intended illegal-argument failure |
| GeoQueries.ConstructIntended | bobo-contrib/src/main/java/com/browseengine/bobo/geosearch/query/GeoQuery.java:69-71 | a null radius is an illegal argument "please specify rangeInKilometers"; with a radius present it agrees with the constructor as written; it only ever fails with an illegal argument |
| GeoQueries.NegativeRangeRejected | bobo-contrib/src/main/java/com/browseengine/bobo/geosearch/query/GeoQuery.java:73-75 | a radius below 0 fails with "range must be positive", whatever the coordinates |
| GeoQueries.ZeroRangeAccepted | bobo-contrib/src/main/java/com/browseengine/bobo/geosearch/query/GeoQuery.java:51-74 | a radius of exactly 0 with valid coordinates builds the query, since the test against the minimum 0 is strict |
| GeoQueries.BadCoordinatesRejected | bobo-contrib/src/main/java/com/browseengine/bobo/geosearch/query/GeoQuery.java:77-79 | with an acceptable radius, a latitude or longitude failing its validity test fails with "bad latitude or longitude" carrying both coordinates |
| GeoQueries.RangeCheckedBeforeCoordinates | bobo-contrib/src/main/java/com/browseengine/bobo/geosearch/query/GeoQuery.java:67-79 | an input with a null or negative radius fails with the radius failure, never with the coordinate failure, even when its coordinates are bad too |
| GeoQueries.ConstructFromGetters | bobo-contrib/src/main/java/com/browseengine/bobo/geosearch/query/GeoQuery.java:64-98 | every valid query is what the constructor builds from the query's own getters, in latitude, longitude, radius order |
| GeoOnlyHitQueues.LessThan | bobo-contrib/src/main/java/com/browseengine/bobo/geosearch/solo/search/impl/GeoOnlyHitQueue.java:36-38 | the comparator as written, `a.score > b.score`; its contract says hits of equal score are never less than each other, and the lemmas below prove it a strict order |
| GeoOnlyHitQueues.LessThanIrreflexive | bobo-contrib/src/main/java/com/browseengine/bobo/geosearch/solo/search/impl/GeoOnlyHitQueue.java:37 | no hit is less than itself |
| GeoOnlyHitQueues.LessThanAsymmetric | bobo-contrib/src/main/java/com/browseengine/bobo/geosearch/solo/search/impl/GeoOnlyHitQueue.java:37 | if a is less than b then b is not less than a |
| GeoOnlyHitQueues.LessThanTransitive | bobo-contrib/src/main/java/com/browseengine/bobo/geosearch/solo/search/impl/GeoOnlyHitQueue.java:37 | lessThan is transitive, so with the two above it is a strict order |
| GeoOnlyHitQueues.EqualScoresIncomparable | bobo-contrib/src/main/java/com/browseengine/bobo/geosearch/solo/search/impl/GeoOnlyHitQueue.java:37 | two hits with equal scores are incomparable, whatever their documents |
| GeoOnlyHitQueues.LeastHasGreatestScore | bobo-contrib/src/main/java/com/browseengine/bobo/geosearch/solo/search/impl/GeoOnlyHitQueue.java:29-37 | a lessThan-least hit of a collection has the greatest score in it |
| GeoOnlyHitQueues.LeastExists | bobo-contrib/src/main/java/com/browseengine/bobo/geosearch/solo/search/impl/GeoOnlyHitQueue.java:29-37 | every non-empty set of hits has a lessThan-least element, so a queue top is always defined |
| GeoOnlyHitQueues.LeastIndex | bobo-contrib/src/main/java/com/browseengine/bobo/geosearch/solo/search/impl/GeoOnlyHitQueue.java:29-37 | finds a position in a non-empty sequence of hits that no other hit is less than (the step that restores the top after a removal) |
| GeoOnlyHitQueues.GeoOnlyHitQueue.constructor | bobo-contrib/src/main/java/com/browseengine/bobo/geosearch/solo/search/impl/GeoOnlyHitQueue.java:31-32 | the queue's capacity is the given size and it starts empty; the capacity is a constant, so no operation changes it |
| GeoOnlyHitQueues.GeoOnlyHitQueue.Size | bobo-contrib/src/main/java/com/browseengine/bobo/geosearch/solo/search/impl/GeoOnlyHitQueue.java:29 | the size is the number of hits held |
| GeoOnlyHitQueues.GeoOnlyHitQueue.Top | bobo-contrib/src/main/java/com/browseengine/bobo/geosearch/solo/search/impl/GeoOnlyHitQueue.java:29-37 | the top is absent exactly when the queue is empty; otherwise it is the queue's top hit, a held hit that no held hit is less than, so one with the highest score |
| GeoOnlyHitQueues.GeoOnlyHitQueue.Add | bobo-contrib/src/main/java/com/browseengine/bobo/geosearch/solo/search/impl/GeoOnlyHitQueue.java:29-32 | adding succeeds exactly when the queue is below capacity, adds the hit and returns the new top hit, which scores at least as high as every held hit; otherwise the contents are unchanged and no top is returned; the capacity bound and the top's order are kept |
| GeoOnlyHitQueues.GeoOnlyHitQueue.Pop | bobo-contrib/src/main/java/com/browseengine/bobo/geosearch/solo/search/impl/GeoOnlyHitQueue.java:29-37 | popping an empty queue returns nothing and changes nothing; otherwise it removes and returns the top hit, the same one top returns, whose score is the highest held, and a least hit is again at the top |
| GeoOnlyHitQueues.GeoOnlyHitQueue.InsertWithOverflow | bobo-contrib/src/main/java/com/browseengine/bobo/geosearch/solo/search/impl/GeoOnlyHitQueue.java:29-37 | below capacity the hit is added and nothing returned; at capacity a hit not less than the top (score not higher) replaces the top, which is returned; otherwise the hit itself is returned and the queue is unchanged; whatever is returned scores at least as high as every hit kept, so a full queue keeps the lowest scores |
| GeoRecordIterators.Matching | bobo-contrib/src/main/java/com/browseengine/bobo/geosearch/IGeoRecordIterator.java:35-43 | a record is produced exactly when it is stored and lies in [minValue, maxValue] under the comparator; no more records are produced than are stored |
| GeoRecordIterators.GetIterator | bobo-contrib/src/main/java/com/browseengine/bobo/geosearch/IGeoRecordIterator.java:35-43 | the result is an I/O failure exactly when reading the storage fails; otherwise it holds exactly the stored records in the closed interval, each as many times as it is stored, as a subsequence of the store in stored order |
| GeoRecordIterators.MatchingCounts | bobo-contrib/src/main/java/com/browseengine/bobo/geosearch/IGeoRecordIterator.java:35-37 | each stored record in the interval is produced as many times as it is stored, so none is missed; a record outside it is never produced |
| GeoRecordIterators.BoundsIncluded | bobo-contrib/src/main/java/com/browseengine/bobo/geosearch/IGeoRecordIterator.java:36-37 | the interval is closed: a stored record equal to minValue or to maxValue is produced, for any lawful comparator and minValue not above maxValue |
| GeoRecordIterators.MatchingInStoredOrder | bobo-contrib/src/main/java/com/browseengine/bobo/geosearch/IGeoRecordIterator.java:35-43 | for any store, the records produced are a subsequence of the store, in stored order |
| GeoRecordIterators.MatchingKeepsOrder | bobo-contrib/src/main/java/com/browseengine/bobo/geosearch/IGeoRecordIterator.java:35-43 | a sorted store yields a sorted scan |
| GeoRecordIterators.SortedScanIsContiguous | bobo-contrib/src/main/java/com/browseengine/bobo/geosearch/IGeoRecordIterator.java:35-43 | on a store sorted by a transitive comparator, the scan is the contiguous run from the first record not below minValue up to the first record above maxValue |

## Left out

- The validity tests on latitude and longitude are not modelled. Their utility class is not part of this model, so they are parameters and no property depends on their bounds.
- `createWeight`, the weight and scorer, the coordinate converter, the mile-to-kilometre conversion and the segment and index readers are not part of this model. Their bodies are not among the files modelled. This model invents no bounding cube, distance or binary search.
- `toString` is left out: it only formats numbers into text, and number formatting is not modelled.
- Floating point is not modelled: coordinates, radius and scores are reals. A NaN radius would pass the `<` test in the Java code, and this model cannot express that. Float and double precision are also left out.
- Lucene's PriorityQueue heap (sift-up, sift-down, the array store) is not part of this model. Its operations are given Lucene's documented contracts over a sequence whose first element is least. Only the top's order is kept, not the full heap order, and no running time is promised.
- GeoOnlyHitQueues.GeoOnlyHitQueue.constructor: the size is a `nat`; what Lucene does with a negative size is not modelled.
- GeoOnlyHitQueues.GeoOnlyHitQueue.Add: as Lucene documents, an add past capacity ends in an index-out-of-bounds failure; here that is a `false` result that leaves the queue unchanged. Lucene's add also returns the new top, and so does this one when it succeeds. Lucene's own storage details on this path are not modelled: a capacity-0 queue has spare slots, so its first add may succeed there, and the size is counted up before the failing store.
- The hit type's own source is not part of this model. It is a datatype of a document number and a score.
- The iterator's lazy, forward-only nature is left out: the scan is the finite sequence it yields. An I/O failure partway through the iteration is folded into the single failure outcome of obtaining it.
- Java serialization is left out.
- The query's fields are package-private and not final, so other classes of its package could write them. The weight built by `createWeight` receives the query, and it is not part of this model. The model promises only that the query's own methods do not write the fields.

## Findings

| source | as written | input that shows it | evidently intended | confidence | as-written member | corrected member |
|---|---|---|---|---|---|---|
| bobo-contrib/src/main/java/com/browseengine/bobo/geosearch/query/GeoQuery.java:67-71 | the boxed radius is unboxed into the float field before the null test, so a null radius throws NullPointerException and the null branch is dead | any latitude and longitude with a null radius | an IllegalArgumentException "please specify rangeInKilometers" for a null radius | high; not executed | GeoQueries.NullRangeRaisesNullPointer | GeoQueries.ConstructIntended |
