# RRO, verified model

RRO is an embedded retrieval engine: documents go into an *estate* and come back ranked by vector
similarity, by words, by sparse weights, by filters or by graph walks. Almost every answer has a fast form
that must agree with a simple one, and that agreement is what this project models and proves:

* the layered ANN graph (insert with diversity pruning, tombstones, greedy descent, beam search), its
  quantized vector stores, its binary format, and its paged vector file behind an LRU cache;
* the write path: one document map feeding postings, df counters, payload rows, sparse, named, token-vector
  and collection rows, counters and a changefeed, through atomic transactions;
* the pending set between a commit and the graph, the applier that drains it, and the persisted graph's tag;
* max-score BM25 against the full scan, filters over sorted byte keys against their meaning, Z-order box
  scans, sparse postings against the merge join, and bounded breadth-first traversal over mirrored edge rows;
* replication, quorum acknowledgement and election; connector sync across crashes;
* the TOON printer, with a decoder that undoes it; RFC 3339 instants (section 5.6 of RFC 3339); the decayed
  baseline.

Code that updates state is a class or a method with loops here, specified by functions; what the system
promises is proved about those functions, over all inputs, all runs or all reachable states. Floating point is
`real`, except where bits are the point (sortable keys, the graph's byte format). Distance, the logarithm,
text analysis, JSON parsing, the training of a codebook and the random level of a node are parameters.

`dafny verify dfyconfig.toml` checks the whole project.

## Modules

| part | files |
|---|---|
| helpers | Wrappers, Sets, Arith, ByteStrings |
| graph | Quant, VectorStore, GraphSearch, Diversity, GraphLinks, Ann, AnnRuns |
| graph on disk | Parsers, GraphBytes, GraphCodec, Paged, Sidecar |
| dense reads | Ranking, Pending, Applier, DenseSearch, DenseRead, Freshness |
| write path | Tables, Statements, WritePath, Transactions, Maintenance, Derived |
| search by words, weights, filters, edges | Pruning, Lexical, SparseSearch, Sortable, Json, Uuids, Geo, PayloadKeys, FilterScan, Filters, Equality, IdsWhere, Relations, Traversal, TokenVectors |
| cluster | Cluster, Replication, ConnectorSync |
| text and statistics | Toon, ToonText, ToonDecode, ToonSize, Calendar, Baseline |

`Derived` joins them: the hypotheses of freshness, lexical search, sparse search and the filter evaluator are
proved from the table image that the write path keeps.

## Model

| member | source | states |
|---|---|---|
| Ann.AnnIndex.Insert | crates/recall/src/ann.rs:717-780 | for a vector of the graph's dimension, an insert keeps the graph well formed (neighbours in range, owning the layer, never the node itself, never repeated, lists at most m or 2m, entry of maximal level, live counting untombstoned nodes, one live node per id, storage matching the node count), makes the live contents the old ones with the id mapped to the vector, adds links only to or from the new node, and links it: at every layer it shares with a graph that was not empty its list is the diversity selection from what the construction beam found there, started from the descent's end or the head of the list above; with m positive that list is not empty, its members owned the layer, its head is a nearest of all the beam visited, and each member's list is the old one with the node appended, or was at its cap and stays there re-selected; nothing else changes |
| Ann.AnnIndex.Remove | crates/recall/src/ann.rs:783-790 | a removal keeps the graph well formed and takes exactly that id out of the live contents |
| Ann.AnnIndex.Search | crates/recall/src/ann.rs:793-819 | the descent walks greedily at each layer from the entry node, which it returns when there is only layer 0; hits are live, distinct, at most k, best first with their own similarity, the first k of a beam as wide as the largest of ef, efSearch and k; an answer short of k, or a beam as wide as the graph, answers as brute force over what the descent's end reaches; the descent's end is itself a hit if live, or k hits are at least as near |
| Ann.AnnIndex.SearchFiltered | crates/recall/src/ann.rs:825-862 | the same from the same descent among the allowed ids only: with no more allowed ids than nodes, an answer short of k is brute force over the allowed ids the descent's end reaches, and an allowed live descent's end is a hit or k hits are at least as near; with a width of at least the number of allowed ids and a 4096th of the nodes it is brute force at any length |
| Ann.WidenedIff | crates/recall/src/ann.rs:846-852 | dividing the beam by the filter's selectivity leaves it at least as wide as asked, or as the graph, exactly when width times nodes exceeds allowed ids times one less than the smaller of width and nodes; with no more allowed ids than nodes it always does |
| Ann.DistMeaning | crates/recall/src/ann.rs:449-531 | over every store the three distances are one minus the dot of the stored vector with the query, with another node's stored vector, and with a node's own materialized vector |
| AnnRuns.Run | crates/recall/src/ann.rs:717-790 | after any sequence of inserts and removes the graph is well formed, its contents are the fold of the sequence, and its storage holds exactly one unit per node, before and after PQ trains |
| AnnRuns.LiveCountsIds | crates/recall/src/ann.rs:661-680 | the live count is the number of distinct live ids, so no id has two live nodes |
| AnnRuns.Rebuild | crates/connxism/src/estate.rs:1102-1122 | a rebuild from the vector table holds exactly its rows, one node each, without tombstones |
| GraphSearch.GreedyAt | crates/recall/src/ann.rs:866-888 | greedy descent terminates at a node reachable from the start, no farther than it, and no farther than any of its own neighbours |
| GraphSearch.BeamExhaustive | crates/recall/src/ann.rs:914-972 | with a beam at least as wide as the graph, the result is exactly the admitted nodes reachable at the layer |
| GraphSearch.ShortBeamSawAll | crates/recall/src/ann.rs:914-972 | a beam that returns fewer nodes than its width returns exactly the admitted nodes reachable at the layer |
| Diversity.SelectFills | crates/recall/src/ann.rs:976-1008 | the diversity selection returns exactly min(m, candidates) distinct candidates, the diverse ones first, led by the nearest |
| Diversity.SelectHeuristic | crates/recall/src/ann.rs:974-1008 | no two diverse picks are closer to each other than the later is to the query, a candidate is passed over only for a pick closer to it than the query or because m nearer ones were kept, and padding takes the nearest of what was passed over |
| GraphLinks.Prune | crates/recall/src/ann.rs:1012-1033 | pruning keeps exactly the maximum of a list's own members, the nearest among them, and they are the selection heuristic's choice from the members ranked by the node's own distances |
| GraphLinks.AttachedReads | crates/recall/src/ann.rs:755-776 | a node linked at a layer has neighbours there, led by a nearest of all the construction beam visited, and each of them takes it into its list, or its list was full and stays exactly at its cap |
| VectorStore.Push | crates/recall/src/ann.rs:416-443 | appending a vector keeps every earlier slot, across the moment PQ trains and re-encodes its warm-up |
| VectorStore.StoredVector | crates/recall/src/ann.rs:509-531 | what a store gives back for a node is its vector as pushed, its 256-step rounding, its signs, or block by block a nearest centroid, by the kind of store |
| VectorStore.StoredDotQuery | crates/recall/src/ann.rs:449-471 | every store's dot with a query is the plain dot of what it stores for the node |
| VectorStore.StoredDotNodes | crates/recall/src/ann.rs:474-506 | every store's dot of two nodes is the plain dot of what it stores for them, for byte codes up to 66051 dimensions |
| Quant.SqErrorBound | crates/recall/src/quant.rs:32-66 | a decoded component is within half a step of the input when the range exceeds epsilon, and within the range otherwise |
| Quant.SqDotQueryExact | crates/recall/src/quant.rs:71-77 | the asymmetric SQ8 dot is the dot of the decoded vector with the query |
| Quant.SqDotCodesExact | crates/recall/src/quant.rs:80-90 | up to 66051 dimensions the four-term symmetric SQ8 dot, its integer sum taken in 32 bits, is the dot of the two decoded vectors |
| Quant.AccumulatorExactIff | crates/recall/src/quant.rs:80-90 | the sum of code products stays below 2^32 for every pair of code strings of a length exactly when the length is at most 66051 |
| Quant.BqDotCodesExact | crates/recall/src/quant.rs:147-152 | the dimension minus twice the popcount of the xor is the dot of the two sign vectors, padding bits ignored |
| Quant.Nearest | crates/recall/src/quant.rs:281-293 | the chosen code is a nearest centroid of its subspace, the first of equals |
| Quant.PqDotQuery | crates/recall/src/quant.rs:305-313 | the asymmetric PQ dot is the dot of the decoded vector with the query |
| Quant.PqDotCodes | crates/recall/src/quant.rs:316-324 | the symmetric PQ dot is the dot of the two decoded vectors |
| GraphBytes.RoundTripIff | crates/recall/src/ann.rs:1041-1139 | a blob loads as the very graph it was written from exactly when the dimension is not zero, the quantizer is the configured one, and a PQ store is sealed or empty |
| GraphBytes.ReachableById | crates/recall/src/ann.rs:1419-1433 | in every graph that inserts and removes reach, the id map is the one a reader rebuilds from the ids |
| GraphBytes.PrefixRejected | crates/recall/src/ann.rs:1369-1416 | every strict prefix of a loadable blob is rejected |
| GraphBytes.WrongQuantizerRejected | crates/recall/src/ann.rs:1082-1139 | a blob of another quantizer is rejected |
| GraphBytes.TrailingIgnored | crates/recall/src/ann.rs:1082-1139 | bytes after a loadable blob do not change what it loads as |
| GraphCodec.Load | crates/recall/src/ann.rs:1082-1139 | the cursor-based reader never reads out of bounds and returns exactly the parser's answer on any bytes |
| GraphCodec.Save | crates/recall/src/ann.rs:1041-1077 | the writer emits exactly the format the parser is proved to invert |
| Paged.ResidentIsRecent | crates/recall/src/ann.rs:191-232 | after any history of accesses a cache of cap pages holds exactly the cap most recently used ones |
| Paged.Replay | crates/recall/src/ann.rs:124-150 | any sequence of reads under any cache budget answers each node's slice of the flat array, and changes no contents |
| Paged.MappedVec.StreamTo | crates/recall/src/ann.rs:330-337 | chunked streaming appends the same bytes as writing base and tail at once |
| Paged.MappedVec.NeedsFlush | crates/recall/src/ann.rs:340-343 | when no flush is asked for, the base file already holds every vector |
| Sidecar.PagedRoundTripIff | crates/recall/src/ann.rs:1153-1309 | structure and sidecar reload the graph with every vector exactly when the dimension is not zero, the quantizer is the configured one and the sidecar has one vector per node under a trained codebook, or there is no node and an empty store |
| Sidecar.SkewRejected | crates/recall/src/ann.rs:1222-1309 | over the structure of any fitting graph that holds one vector per node, a sidecar whose length differs from that of the graph's own vectors does not load, whatever its bytes; `OpenPaged` answers by the same function |
| Sidecar.OpenPaged | crates/recall/src/ann.rs:1222-1309 | opening with a paged base, vectors unread, gives every node the vector a full load would |
| PendingSet.ReadYourWrites | crates/connxism/src/pending.rs:60-197 | in every interleaving of pushes, applier phases and searches, the graph a lock-holding search sees, overridden by the overlay, is the fold of all pushes |
| PendingSet.QuiescentGraph | crates/connxism/src/pending.rs:109-158 | once settled, or once the backlog reads zero, the graph alone is the fold of all pushes |
| PendingSet.Pending.CollectBatch | crates/connxism/src/pending.rs:126-149 | a collected batch is exactly the latest operations on the ids of the queue entries it pops, each once, in the order of their first entries; they leave the waiting map and go in flight, entries are popped until 512 operations are collected or none is left, the queue shrinks, and something is collected whenever something waits; nothing happens on shutdown |
| PendingSet.Backpressure | crates/connxism/src/pending.rs:60-80 | a push can be taken exactly when it removes, or fewer than 200000 entries wait, or the set is stopping |
| PendingSet.CollectedIs | crates/connxism/src/pending.rs:126-149 | the same of the collection as a function of the state, which the interleavings use |
| PendingSet.CountsDown | crates/connxism/src/pending.rs:150-197 | once pushing stops, in any interleaving, the collections still to come are no more than the queued entries, and every applier step counts down |
| PendingSet.Drains | crates/connxism/src/pending.rs:116-197 | from any reachable state that is not stopping and has no search holding the graph, applier steps alone settle the backlog in at most one round a queued entry, and the graph is then the fold of all pushes |
| Applier.Round | crates/connxism/src/pending.rs:170-197 | one applier round puts the collected operations into the graph in order, leaves nothing in flight, and does not change what graph and overlay together show; once the queue is empty the graph alone shows it |
| DenseSearch.OverlayShowsTruth | crates/connxism/src/store.rs:1083-1096 | a merged answer shows nothing removed, nothing stale and no id twice, and every pending upsert unless as many answers at least as good crowd it out |
| DenseSearch.ExactIffCertified | crates/connxism/src/store.rs:1083-1096 | over every graph whose best hits these are, the merged answer is an exact best list exactly when the graph returned fewer hits than asked or enough of what survives the overlay scores no worse than the last hit |
| DenseRead.DenseBlocking | crates/connxism/src/store.rs:1049-1118 | a corpus below 1024 is scanned exactly; above it the graph is asked for topK hits, or 2, 8 or 6 times as many over byte, bit or product codes, through a beam of at least 64 or 200; the answer holds live ids only, is the best list of graph hits and overlay, is rescored exactly over a lossy store, and over the full-precision store with a beam wider than a graph fully reachable from the descent's end starts from the true best hits; it is as long as topK or as the pool, and short of topK it shows every pending upsert and every hit not pending, and with nothing pending every live id the search could reach |
| DenseRead.SearchReadsWrites | crates/connxism/src/store.rs:1072-1096 | in any run of the pending set, a merged search shows only what the pushes fold to and every pushed upsert not crowded out |
| Ranking.RankedOrder | crates/connxism/src/store.rs:1094-1096 | a ranking reads by falling score, and equal scores by id in byte order |
| Freshness.LoadedIsFresh | crates/connxism/src/estate.rs:1059-1272 | over every run of commits, pushes, applier steps, captures and later persists, lock-free rebuilds and swaps, second removals, crashes and reopens, the graph an open starts from holds exactly the vector table |
| Freshness.CompactionKeepsContents | crates/connxism/src/estate.rs:1128-1168 | a rebuild read while writers commit is swapped in only if the feed stands where it began, and then the graph holds exactly the vector table, even with a writer between its commit and its pushes |
| Freshness.PersistWithWriterIff | crates/connxism/src/estate.rs:1204-1272 | capturing with no backlog while a writer has committed and not pushed is right exactly when each id it queued already stands in the graph as its last queued operation leaves it |
| Freshness.RacingPersistIsStale | crates/connxism/src/txn.rs:109-132 | a reachable first commit for which that condition fails: the blob would be trusted and stale |
| Freshness.PushAgainIff | crates/connxism/src/estate.rs:762-787 | a removal pushed outside any commit keeps the graph on its way to the vector table exactly when the id has no row there or its writer has still to push it; otherwise a durable vector is masked from the graph |
| Statements.TransactionImage | crates/connxism/src/store.rs:720-1013 | a transaction over distinct ids turns the image of the old documents into the image of the new in every row, df counter and counter |
| Statements.KeepsImageIff | crates/connxism/src/store.rs:858-870 | a transaction keeps the image over every estate exactly when it edits no id twice |
| Statements.CountRightIff | crates/connxism/src/store.rs:858-880 | over a given estate, a transaction of upserts never counts too few documents, and counts right exactly when no new id appears twice |
| Statements.StalePostingIff | crates/connxism/src/store.rs:858-900 | over a given estate, any transaction leaves a stale posting exactly when some edit writes it, the committed text lacks it and the document ends without it |
| Tables.RetractionComplete | crates/connxism/src/store.rs:858-930 | a stored document names exactly the derived rows of its record, so a retraction leaves none behind |
| Tables.ImageUnique | crates/connxism/src/store.rs:720-1013 | the image determines the tables: equal documents and history give equal rows and counts |
| Tables.RowsDetermine | crates/connxism/src/store.rs:720-1013 | the tables determine the documents: two document maps with one image are equal, so nothing of a record is lost in its rows |
| Statements.EditsTell | crates/connxism/src/store.rs:987-1345 | however ids repeat in a transaction, an id is stored exactly when the feed's last entry for it is an upsert |
| WritePath.Estate.Write | crates/connxism/src/kv/fjall.rs:374-404 | a batch lands atomically, the last operation on a key winning and df deltas adding up |
| WritePath.Transaction.Commit | crates/connxism/src/txn.rs:109-132 | a commit lands the drafted rows and counters and only then queues the graph operations, in order |
| Transactions.Transact | crates/connxism/src/store.rs:149-181 | a transaction succeeds exactly when every statement is admitted; then the tables, documents, feed and queue are those of its edits, otherwise the error is that of the first refused statement, rows, counters and queue are untouched and only declarations may have grown |
| Transactions.TransactEach | crates/connxism/src/store.rs:149-181 | committing statements one at a time over distinct ids lands the same tables, counters, df and queue as one transaction |
| Transactions.TransactionDeclares | crates/connxism/src/store.rs:720-800 | every document a transaction leaves has the dimensions its spaces were fixed to and a registered collection |
| Transactions.OneRecordAccepted | crates/connxism/src/store.rs:725-860 | an upsert of one record is accepted exactly when its vector has the estate's dimension, its metadata the types its collection declares, its named vectors their spaces' dimensions, its token vectors one dimension, and its id and index keys at most 65536 characters |
| Transactions.WrittenFits | crates/connxism/src/store.rs:720-930 | every document a successful transaction leaves was there before or has the declared types, even token vectors and keys that fit |
| Maintenance.EditPayload | crates/connxism/src/store.rs:1400-1463 | a payload edit keeps the image, changes one document's metadata and adds one feed row, or reports that there is no such document |
| Maintenance.CreateIndex | crates/connxism/src/estate.rs:412-443 | registering a field and backfilling it in batches of 4096 keeps the image |
| Maintenance.RebuildIndex | crates/connxism/src/estate.rs:453-488 | a rebuild restores the image whatever the field's rows held before |
| Maintenance.DropCollection | crates/connxism/src/estate.rs:762-787 | dropping a collection keeps the image, removes exactly its members, and queues each member's graph removal twice |
| Maintenance.Run | crates/connxism/src/store.rs:720-1463 | after every run of transactions, payload edits, index creations and rebuilds and collection drops, failures included, every table is the image of the documents |
| Derived.LandedIsCommit | crates/connxism/src/txn.rs:109-132 | every landed transaction, whatever ids repeat, is a commit step of the freshness system: its graph operations do to the vectors what its rows do, and each has a feed row |
| Derived.SecondPushIff | crates/connxism/src/estate.rs:762-787 | over the tables: the second removal that dropping a collection pushes is right exactly when the id has no vector row when it is pushed |
| Derived.IndexConsistent | crates/connxism/src/store.rs:1156-1201 | over every image the df counters count the postings, which is what the max-score scorer relies on |
| Derived.PostingCounts | crates/connxism/src/store.rs:896-909 | over every image a posting holds the number of places its term has in the document's text, and the text's number of tokens |
| Derived.SparsePostingsOk | crates/connxism/src/store.rs:195-231 | over every image the sparse rows are the documents' sparse vectors |
| Derived.PayloadTableOk | crates/connxism/src/keys.rs:320-330 | over every image the sorted payload keys are exactly those of the documents' indexed fields |
| Pruning.PrunedScan | crates/connxism/src/store.rs:1203-1251 | the scan that stops early and completes candidates by lookups ranks exactly as the full scan of the deduplicated query |
| Lexical.LexicalTopK | crates/connxism/src/store.rs:1156-1251 | the fast scorer returns the exact top k of BM25 over the deduplicated query, and falls back to the full scan without df counters; of two documents a query matches alike but for length, it never shows the longer without the shorter before it |
| Lexical.PartBound | crates/connxism/src/store.rs:1139-1155 | a term contributes between zero and idf times k1 + 1 |
| Lexical.PartResponds | crates/connxism/src/store.rs:1138-1145 | with a positive idf a term's contribution falls strictly with the document's length, rises strictly with the term's frequency, and is idf times 2.2 tf over tf + 1.2 at the average length |
| Lexical.IdfFalls | crates/connxism/src/index.rs:55-58 | idf is the clamped logarithm of documents plus one over df plus a half, so under a growing logarithm a commoner term never has the larger one |
| Lexical.ShorterFirst | crates/connxism/src/store.rs:1253-1274 | in any top k of BM25, of two documents with equal postings of every query term but for length, the longer is never shown without the shorter before it |
| Lexical.PruningIsExact | crates/connxism/src/store.rs:1150-1251 | for a query of distinct terms fast and slow answers are equal: ids, order and scores |
| Lexical.AgreeIffDistinct | crates/connxism/src/store.rs:1150-1282 | fast and slow answers of a query agree over every consistent index and every cut exactly when no query term repeats |
| SparseSearch.MergeDot | crates/rro-core/src/types.rs:215-230 | the merge join is the sum of products over shared dimensions |
| SparseSearch.DotSymmetric | crates/rro-core/src/types.rs:215-230 | the sparse dot is the same summed over either vector |
| SparseSearch.Search | crates/connxism/src/store.rs:195-231 | accumulated posting scores are those dots, and the answer is the best k among documents sharing a dimension |
| Sortable.EncodeOrder | crates/connxism/src/keys.rs:249-268 | byte order of encoded floats is numeric order, the two zeros told apart |
| PayloadKeys.KeyInjective | crates/connxism/src/keys.rs:320-330 | distinct field, value encoding and id have distinct keys |
| Filters.RangeHitIff | crates/connxism/src/filter.rs:140-183 | a range scan takes exactly the matching values, integers converted to floats, except a stored -0.0 under an inclusive lower bound of +0.0 |
| Filters.FilterAlgebra | crates/rro-core/src/query.rs:300-309 | an empty filter takes everything; a condition added to must, must-not or should narrows or widens by exactly the documents it matches |
| Json.FloatOfValue | crates/connxism/src/keys.rs:271-278 | an integer converts to the float of its nearest 53-bit neighbour, ties to even, exactly below 2^53 |
| Json.IntegerConvertsIff | crates/connxism/src/keys.rs:271-278 | a float is some 64-bit integer's conversion exactly when it is +0.0 or has no fraction bits and lies from -2^63 to 2^64 |
| Uuids.ParseUuidBytes | crates/rro-core/src/time.rs:108-135 | the nibble-pairing loop reads exactly the 8-4-4-4-12 hex texts, to the bytes they spell |
| Equality.EncodedEqIff | crates/connxism/src/keys.rs:271-317 | two JSON values share an index key exactly when they convert to one float, denote one instant or UUID, are one text or flag, are points of one grid cell or print as one JSON text |
| Equality.EqExactIff | crates/rro-core/src/query.rs:189-200 | an equality condition answered by key takes exactly the values JSON-equal to its own just when its own is sharp: a float with a fraction or beyond the integers, a string that is no date-time and no UUID with a hex letter, a flag, null, or an array or object that is no point and holds no float zero |
| Calendar.OtherSeparator | crates/rro-core/src/time.rs:24-36 | every accepted date-time has another spelling with the same instant |
| IdsWhere.IdsWhere | crates/connxism/src/filter.rs:32-72 | the index answers, in byte order, exactly the documents the scans hit; outside radius conditions, bounds that are not numbers and the -0.0 case, exactly those whose metadata satisfies the filter with equality by key; and when the values compared for equality are sharp, exactly those the direct evaluation accepts |
| Geo.InterleavedMono | crates/rro-core/src/geo.rs:48-55 | growing either coordinate, or both, never shrinks the interleaved code |
| Geo.BoxCovered | crates/rro-core/src/geo.rs:38-60 | the single code range between a box's corners covers every point of the box |
| Geo.QuantizeClose | crates/rro-core/src/geo.rs:38-42 | a coordinate on its scale lies within half a grid step of its cell; beyond the scale it takes the end cell |
| Geo.SameCode | crates/rro-core/src/geo.rs:38-60 | two points share a code exactly when they share both cells; `SameCodeIsNear`: they are then at most one grid step apart each way |
| IdsWhere.ScanGeo | crates/connxism/src/filter.rs:235-282 | one code range with each candidate re-checked gives exactly the documents the condition hits |
| Relations.EdgeKeys | crates/connxism/src/keys.rs:174-213 | two edges sharing a row are one edge, and no row is both an out and an in copy |
| Relations.RelTable.Relate | crates/connxism/src/rels.rs:62-69 | both copies are put: the rows are the mirrored image of the old edges and the new one |
| Traversal.Traverse | crates/connxism/src/rels.rs:125-169 | the walk lists starts first, no id twice, by non-decreasing exact hop distance, within depth and limit, leaves out nothing nearer than an id it lists, and when the limit is not met lists exactly the ids within depth hops |
| Traversal.WithinStep | crates/connxism/src/rels.rs:125-169 | within one hop more is what was within reach, and the ends of edges of an allowed verb in an allowed direction from there |
| TokenVectors.MultiRoundTripIff | crates/connxism/src/keys.rs:420-458 | token vectors survive their row exactly when they all have the first one's dimension |
| Replication.Converges | crates/connxism/src/estate.rs:632-693 | in every reachable state the follower holds the leader's record of every id that no feed row at or above its cursor mentions |
| Replication.AtHeadEqual | crates/connxism/src/estate.rs:656-693 | at the head of the feed the follower equals the leader |
| ClusterQuorum.Cluster.Observe | crates/rro-engine/src/cluster.rs:65-76 | a poll raises the known cursor and never rewinds it, and wakes waiters exactly when it raised it |
| ClusterQuorum.CommittedStable | crates/rro-engine/src/cluster.rs:79-87 | commitment survives every later poll and holds for every lower target |
| ClusterQuorum.CountIff | crates/rro-engine/src/cluster.rs:79-87 | whatever a set of pollers reports, a committed target is held by a majority of the members exactly when all pollers are members, or they are too few to commit, or the leader is alone |
| ClusterQuorum.NoAckedWriteLost | crates/rro-engine/src/cluster.rs:57-179 | with polls delayed, duplicated or reordered, the member elected from any surviving majority holds every acknowledged target, as long as the strays among the pollers are tolerated |
| ClusterQuorum.LossIff | crates/rro-engine/src/cluster.rs:57-179 | an acked write is lost in some run exactly when pollers outside the membership number at least one in an odd cluster, two in an even one, of three or more members |
| ClusterQuorum.Elect | crates/rro-engine/src/cluster.rs:174-179 | the highest cursor wins, ties going to the highest id; none exactly without survivors |
| ClusterQuorum.WinnerUnique | crates/rro-engine/src/cluster.rs:174-179 | every survivor computes the same winner |
| ClusterQuorum.NoLostWakeup | crates/rro-engine/src/cluster.rs:106-126 | for a positive target every step keeps a waiter blocked without notification only while the quorum is missing, and finished only after it was met |
| ClusterQuorum.WakeupIff | crates/rro-engine/src/cluster.rs:65-126 | that holds of every step exactly when the target is positive or the leader alone is a quorum |
| ConnectorSync.RunInv | crates/connectors/src/lib.rs:110-237 | after any run, however often it crashed and however the gate changed its mind, everything before the saved cursor is dealt with, and a finished pass has ingested and mapped every document but those refused |
| ToonDecode.RoundTrip | crates/rro-core/src/toon.rs:152-396 | TOON is lossless: the decoder gives back every JSON value |
| ToonDecode.TextInjective | crates/rro-core/src/toon.rs:152-396 | two JSON values with one text are one value |
| ToonSize.TableIsCompact | crates/rro-core/src/toon.rs:292-396 | an array of objects with the same scalar fields prints as one line that declares the fields and one line for each object |
| ToonSize.ScalarsAreInline | crates/rro-core/src/toon.rs:292-341 | an array of scalars prints on one line |
| ToonSize.PlainStaysBare | crates/rro-core/src/toon.rs:195-254 | words of letters and digits that start and end in a letter are not quoted, unless they spell a literal |
| Toon.WriteValue | crates/rro-core/src/toon.rs:257-396 | the recursive writer appends exactly the text the decoder is proved to invert |
| ToonText.JsonNumberLooksNumeric | crates/rro-core/src/toon.rs:195-254 | every JSON number passes the numeric guard, so no string prints as a number |
| Calendar.CountsDays | crates/rro-core/src/time.rs:60-104 | the civil-day formula steps by one for each calendar day, leap years included |
| Calendar.DaysOrder | crates/rro-core/src/time.rs:60-104 | day numbers order as real dates do, and only equal dates share one |
| Calendar.OverlongIff | crates/rro-core/src/time.rs:8-104 | an accepted date shares its day number with no other real date exactly when its month has that day |
| Calendar.ParsesFormat | crates/rro-core/src/time.rs:8-104 | reading a formatted date-time gives its instant: its days, its time of day less its offset, and its first three fraction digits |
| Calendar.Rfc3339ToEpochMs | crates/rro-core/src/time.rs:8-104 | the scanning loop computes that reading on every input, malformed ones included |
| Baseline.ShapeBaseline.Observe | crates/rrd/src/baseline.rs:197-238 | growing-unit counting with rescaling keeps every distribution a positive multiple of the naively decayed one, and settles the prediction |
| Baseline.SameProbability | crates/rrd/src/baseline.rs:82-88 | probabilities are those of naive decay |
| Baseline.Recency | crates/rrd/src/baseline.rs:197-238 | an observation keeps 999 thousandths of every naive weight and adds one to the sliver seen in its scopes |
| Baseline.SumsToOne | crates/rrd/src/baseline.rs:62-88 | once something was seen in a scope, its probabilities are not negative and sum to one |
| Baseline.ShapeBaseline.Predict | crates/rrd/src/baseline.rs:191-195 | the prediction is a heaviest sliver of the naively decayed history with its probability |

## Findings

Properties the code or its documentation promises that the model shows to fail, each with the exact condition.

| promise | what happens | exact condition |
|---|---|---|
| a transaction keeps every index the image of the documents | statements look old documents up in the committed rows, not in the batch, so an id edited twice is retracted from its committed version only: postings stay behind and counters drift | holds over every estate exactly when no id repeats (`KeepsImageIff`); over a given estate see `CountRightIff` and `StalePostingIff` |
| under a filter the beam is widened (crates/recall/src/ann.rs:820-824) | with more allowed ids than nodes the selectivity exceeds one and narrows it: 100 nodes, 200 allowed ids and ten hits asked leave a beam of five (`NarrowedBelowAsked`) | at least as wide as asked, or as the graph, exactly when the allowed ids are not too many for it (`Ann.WidenedIff`); never a problem with no more ids than nodes |
| max-score search equals the full scan "by construction" (crates/connxism/src/store.rs:1150-1155) | the full scan counts a repeated query term every time, max-score once | exactly when no query term repeats (`AgreeIffDistinct`) |
| the overlaid dense answer is an exact top list | hits masked or replaced by the overlay are not refilled from below the last graph hit | exactly when the graph was exhausted or enough survivors reach the last hit's score (`ExactIffCertified`) |
| quorum-ack never acks what a quorum does not hold (crates/rro-engine/src/cluster.rs:10-17) | every poller is counted, members or not, and no membership is kept | `CountIff` for the count, `LossIff` for a lost write: even clusters carry one stray poller, odd ones none |
| no wakeup is lost | a first poll at cursor 0 completes target 0 and wakes nobody | exactly when the target is positive or the quorum is 1 (`WakeupIff`); real targets are positive |
| a range filter finds what matches | a stored -0.0 sorts below the seek point of an inclusive lower bound of +0.0 | the one exception (`RangeHitIff`) |
| an equality condition means JSON equality (crates/rro-core/src/query.rs:192) | the index compares keys: `1` takes `1.0` and 2^53 + 1 takes 2^53, `0.0` misses `-0.0`, a date-time or UUID takes its other spellings, a point its grid cell, and `[0.0]` misses `[-0.0]` | exactly when the query value is sharp (`Equality.EqExactIff`): a float with a fraction or outside the 64-bit integers, plain text, a flag, null, or an array or object without point and float zeros |
| dropping a collection touches its members only | the second removal is pushed outside the writer lock; an upsert of the id between the two pushes stays durable and is masked from the graph | exactly when the id has no vector row at the second push (`SecondPushIff`; with a writer still to push, `PushAgainIff`) |
| a date-time names a real day | a day past the month's end is accepted and read into the next month (`Calendar.OverlongDay`) | exactly when the month has that day (`OverlongIff`) |
| a persisted graph whose tag is current is fresh | a persist between a writer's commit and its pushes is tagged current and stale | exactly when the writer's queued operations already stand in the graph (`PersistWithWriterIff`) |
| a graph blob round-trips | an unsealed PQ graph loses its warm-up, and dimension 0 does not reload | `RoundTripIff`, `PagedRoundTripIff` |
| corrupt bytes are rejected | bytes after a loadable blob are ignored | always (`TrailingIgnored`); prefixes are rejected (`PrefixRejected`) |
| token vectors round-trip | rows of unequal dimension come back cut differently | exactly when all have the first one's dimension (`MultiRoundTripIff`) |

An upsert of no records indexes the first record and panics inside its worker; the model reports it as an
error with nothing written (`EmptyUpsert`). A filter bound that is not a number makes a range scan and direct
evaluation differ in ways the model excludes by name (`NumericBounds`).
The JSON printer is a parameter that prints different values differently.

## Left out

- Ann.AnnIndex.Insert: asks that a vector have the graph's dimension, which the source does not check there; the write path does, and `Transactions.TransactionDeclares` proves it of every stored document. Vectors arrive normalized: the square root is not modelled, nor is the level generator, whose result is a parameter.
- Ann.AnnIndex.Search: does not claim that every live node is reachable, because pruning can cut in-links; node numbers are unbounded where the source uses 32 bits.
- Quant.SqErrorBound: is over reals; float rounding is not modelled anywhere.
- VectorStore.Push: takes the result of k-means training as any codebook of the right shape; the clustering quality is not modelled.
- DenseRead.DenseBlocking: compares scores as reals, where the source's total order tells signed zeros and not-a-numbers apart; fetching payloads of the winners is not modelled.
- Freshness.LoadedIsFresh: a capture asks for no backlog and no write still to be pushed, which the source asks of its caller; the swap's check and the swap are one step; the crash window between the sidecar's rename and the blob write is not modelled.
- Maintenance.CreateIndex: runs without concurrent writers.
- Filters.RangeHitIff: requires bounds that are numbers; stored floats are finite because JSON has no others.
- IdsWhere.IdsWhere: claims soundness only for radius conditions (`Filters.RadiusSound`), because the bounding box is slightly smaller than the radius near its rim; fields, ids and string values hold no NUL.
- Relations.EdgeKeys: holds for ids and verbs without NUL, which is what the key layout assumes.
- TokenVectors.MultiRoundTripIff: counts and dimensions fit 32 bits.
- Lexical.AgreeIffDistinct: uses reals and any logarithm positive at 4/3.
- Baseline.ShapeBaseline.Observe: is one session; a restored snapshot starts its unit again and the decay with it.
- Replication.Converges: covers dense records; sparse, named and token vectors are not replicated by the source.
- ClusterQuorum.NoLostWakeup: models one waiter; timeouts and the lease are not modelled.
- ConnectorSync.RunInv: the gate is any choice per pull; stamping, embedding and counters of the report are not modelled.
- Calendar.ParsesFormat: formats years 0 to 9999.
- Tables.ImageUnique: keys are structured values; their byte layout is modelled for payload, relation and graph bytes only, and `Derived` states how payload, posting and sparse keys read as bytes.
- One handle per estate: each handle has its own writer lock in the source, so two handles are not modelled.
- Integer widths of counters and sequence numbers; saturating subtraction is modelled.
- `filter_aware_search`, which does not read the pending overlay, and the scoped, named, hybrid and max-sim searches above it.
- Weighted and score-distribution fusion, quotas, health, trends, tags, catalog records and schema editing: easy members over single rows.
- Query language, networking, authentication, model servers, classifiers and rendering: wrappers with no core of their own.
- The key-value store itself: column families are maps with ordered iteration and atomic batches.
