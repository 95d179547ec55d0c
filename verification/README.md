# FAISS searcher bookkeeping and virtual-shard partitioning, in Dafny

This project models two parts of a Jina executor collection.

The first part is the bookkeeping layer that `FaissSearcher` wraps around a
FAISS index. FAISS cannot delete vectors, so the searcher keeps three parallel
structures next to it:

- `_doc_ids`: the external id stored at every offset;
- `_doc_id_to_offset`: a dictionary from id to offset;
- `_is_deleted`: one tombstone flag per offset.

Vectors are only ever appended. A delete sets a flag. An update sets the flag
of the old offset and appends the new vector at a fresh offset. A search asks
FAISS for `top_k + deleted_count` hits, skips tombstoned offsets, converts the
distances into scores and stops each query at `top_k` matches.

The second part is `_vshards_to_get` of the PostgreSQL storage. It hands each
of `total_shards` real shards a contiguous run of the storage's virtual
shards.

Modules, one per file:

- `Common` (common.dfy) holds `Option`, `Result`, the error kinds, vectors and `Range`.
- `IdRegistry` (registry.dfy) holds the three lists, their invariant (`Valid`: the dictionary maps every id to its *last* offset), append, tombstone, `deleted_count`, `size`, `is_deleted` and the dictionary rebuild of `_load`.
- `Metric` (metric.dfy) holds `metric_type` and the score conversion.
- `SearcherState` (state.dfy) holds the abstract FAISS index (dimension, metric, trained flag, stored vectors, training sample), FAISS's checked `add`, and the searcher's state invariants.
- `Training` (training.dfy) holds the `_train` width check and the training-sample cap.
- `Build` (build.dfy) holds the build from a dump: id recording while streaming, the prefetch and training buffers, `_init_faiss_index` and batched insertion.
- `Deltas` (deltas.dfy) holds `_append_vecs_and_ids` and `_add_delta`.
- `Query` (query.dfy) holds the post-processing of `search`. FAISS's own search is a function parameter (an oracle).
- `VShards` (vshards.dfy) holds `_vshards_to_get`. Python's floor division, modulo and slicing are written out, negative indices included.

## Model

| member | source | states |
|---|---|---|
| IdRegistry.Append | jinahub/indexers/searcher/FaissSearcher/faiss_searcher.py:597-600 | appending an id puts it at offset = old length with a cleared flag, repoints the dictionary to that offset, leaves every other id's entry alone, and keeps the registry invariant |
| IdRegistry.AppendAll | jinahub/indexers/searcher/FaissSearcher/faiss_searcher.py:595-600 | the append loop extends the id list by exactly the given ids and the flag list by as many cleared flags, keeping the invariant (equal lengths, dictionary = last offsets) |
| IdRegistry.OffsetMap | jinahub/indexers/searcher/FaissSearcher/faiss_searcher.py:388 | every entry of the comprehension maps an id to a position of the id list that holds that id |
| IdRegistry.OffsetMapIsLastOffset | jinahub/indexers/searcher/FaissSearcher/faiss_searcher.py:388 | the comprehension `{v: i for i, v in enumerate(ids)}` knows exactly the stored ids and maps each one to its last position |
| IdRegistry.RebuiltMapAgrees | jinahub/indexers/searcher/FaissSearcher/faiss_searcher.py:386-391 | for lists of equal length, the registry invariant holds iff the dictionary equals the one `_load` rebuilds from the id list |
| IdRegistry.Restore | jinahub/indexers/searcher/FaissSearcher/faiss_searcher.py:386-391 | loading the pickled id and flag lists gives those lists back, and the rebuilt registry is valid when they have equal length |
| IdRegistry.RestoreRoundTrip | jinahub/indexers/searcher/FaissSearcher/faiss_searcher.py:376-391 | saving a valid registry's two lists and loading them back restores the same registry, dictionary included |
| IdRegistry.MarkDeleted | jinahub/indexers/searcher/FaissSearcher/faiss_searcher.py:619 | tombstoning sets exactly the one flag; ids, dictionary, lengths and every other flag are unchanged, and validity is kept |
| IdRegistry.DeletedCount | jinahub/indexers/searcher/FaissSearcher/faiss_searcher.py:574-576 | `sum(_is_deleted)` is at most the number of flags |
| IdRegistry.DeletedCountCountsTombstones | jinahub/indexers/searcher/FaissSearcher/faiss_searcher.py:569-576 | the counter equals the number of tombstoned offsets, and length minus counter equals the number of live offsets |
| IdRegistry.IsDeleted | jinahub/indexers/searcher/FaissSearcher/faiss_searcher.py:592-593 | `is_deleted(idx)` is true exactly for tombstoned offsets and false exactly for live ones |
| IdRegistry.Size | jinahub/indexers/searcher/FaissSearcher/faiss_searcher.py:569-572 | `size` is the number of live offsets |
| IdRegistry.DeletedCountMark | jinahub/indexers/searcher/FaissSearcher/faiss_searcher.py:574-576 | setting a flag raises `deleted_count` by one, or by nothing if it was already set |
| IdRegistry.DeletedCountAppendCleared | jinahub/indexers/searcher/FaissSearcher/faiss_searcher.py:600 | appending a cleared flag leaves `deleted_count` unchanged |
| SearcherState.AddChecked | jinahub/indexers/searcher/FaissSearcher/faiss_searcher.py:291-296 | FAISS `add` succeeds iff an index exists, every row has its width and it is trained; it then appends the rows in order, and otherwise raises the matching error |
| Metric.MetricTypeOf | jinahub/indexers/searcher/FaissSearcher/faiss_searcher.py:578-590 | "inner_product" selects the inner-product metric, and every other name, "l2" or unknown, selects L2 |
| Metric.Score | jinahub/indexers/searcher/FaissSearcher/faiss_searcher.py:335-336 | the stored score per metric and flag: L2 distance d or similarity 1/(1+d); inner product 1-d as a distance, or the raw d as a similarity because `1 -` is applied twice |
| Metric.L2SimilarityRange | jinahub/indexers/searcher/FaissSearcher/faiss_searcher.py:354 | an L2 similarity of a non-negative distance lies in (0, 1] and is 1 exactly at distance 0 |
| Metric.ScorePreservesRank | jinahub/indexers/searcher/FaissSearcher/faiss_searcher.py:335-354 | the conversion keeps FAISS's order: a better hit gets a similarity at least as large or a distance at least as small, and its score is defined |
| Training.Train | jinahub/indexers/searcher/FaissSearcher/faiss_searcher.py:470-485 | `_train` succeeds iff `num_dim` is unset or equals the sample's column count; it then adopts that width, marks the index trained and records the rows it was trained on, and otherwise raises with both widths |
| Training.Pick | jinahub/indexers/searcher/FaissSearcher/faiss_searcher.py:255 | row i of the picked array is the source row at the i-th drawn index |
| Training.PickDistinctIsSubMultiset | jinahub/indexers/searcher/FaissSearcher/faiss_searcher.py:250-255 | rows picked at distinct indices form a sub-multiset of the sample (no row is duplicated or invented) |
| Training.CapSample | jinahub/indexers/searcher/FaissSearcher/faiss_searcher.py:242-255 | when a positive cap is below the row count, exactly cap rows are kept and they are a sub-multiset of the sample; a negative cap raises; otherwise every row is kept |
| Training.CapSampleKeepsWidth | jinahub/indexers/searcher/FaissSearcher/faiss_searcher.py:242-255 | the kept rows keep the sample's column count |
| Build.RecordDumpIds | jinahub/indexers/searcher/FaissSearcher/faiss_searcher.py:160-167 | streaming the dump stores id i at offset i with a cleared flag, and the registry invariant holds |
| Build.StreamedMapIsRebuiltMap | jinahub/indexers/searcher/FaissSearcher/faiss_searcher.py:165 | the dictionary built while streaming equals the one `_load` rebuilds from the id list |
| Build.PrefetchLength | jinahub/indexers/searcher/FaissSearcher/faiss_searcher.py:146-154 | the prefetch buffer never exceeds the dump; it holds the whole dump unless a positive `prefetch_size` below the dump's length caps it, and then it holds exactly `prefetch_size` rows |
| Build.TrainingBufferLength | jinahub/indexers/searcher/FaissSearcher/faiss_searcher.py:226-237 | without a cap the buffer takes the whole dump; with a positive cap it grows to max(prefetched, min(cap, n)); a zero or negative cap adds nothing |
| Build.Batches | jinahub/indexers/searcher/FaissSearcher/faiss_searcher.py:281-287 | the batches are non-empty, hold at most `prefetch_size` rows each, and concatenate back to the remaining rows in order |
| Build.AddBlocks | jinahub/indexers/searcher/FaissSearcher/faiss_searcher.py:277-287 | adding the blocks one after another stores all their rows in order and keeps dimension, metric and trained flag |
| Build.InsertDump | jinahub/indexers/searcher/FaissSearcher/faiss_searcher.py:276-289 | buffered rows and then batches store exactly the dump's rows in stream order |
| Build.InitIndex | jinahub/indexers/searcher/FaissSearcher/faiss_searcher.py:202-214 | a pre-trained index is accepted iff it has the metric and dimension, is empty and is trained; a fresh index is empty with the configured dimension and metric |
| Build.TrainIfNeeded | jinahub/indexers/searcher/FaissSearcher/faiss_searcher.py:224-261 | training runs only when required and the index is untrained, and needs only the training buffer's rows to share a width; it fails only on a negative cap that applies, with that size; it leaves the index trained with its vectors, dimension and metric unchanged; the training rows come from the first `TrainingRows` rows of the dump, are a sub-multiset of them, number exactly the cap when it applies and are all of them otherwise, and under the cap row i is dump row `choice[i]` |
| Build.BuildWith | jinahub/indexers/searcher/FaissSearcher/faiss_searcher.py:216-296 | success iff every row has the first row's width, the index is or gets trained, and no negative cap applies; errors come in the program's order: a ragged first buffer (the training buffer when training runs), then the negative sample size, then `add` on an untrained index, and only then a later batch of another width; a success is a searcher built from the dump whose index, if training ran, was trained on the rows `TrainIfNeeded` describes |
| Build.Build | jinahub/indexers/searcher/FaissSearcher/faiss_searcher.py:144-296 | an empty dump fails (and only it fails that way), then a mismatched pre-trained index; past that the same success iff and error order as `BuildWith`, with the index trained iff it was read from a file or the factory made it trained; a success stores id i and vector i of the dump at offset i with every flag cleared, a consistent registry, a trained index, the first vector's width and the configured metric |
| Build.UntrainedBeforeWideRow | jinahub/indexers/searcher/FaissSearcher/faiss_searcher.py:272-296 | a two-row dump whose second row is wider, prefetched one row at a time into an untrained index that needs no training, fails with the not-trained error rather than the width error |
| Build.NegativeCapBeforeWideRow | jinahub/indexers/searcher/FaissSearcher/faiss_searcher.py:229-255 | the same dump with training required and a cap of -1 fails with the negative sample size -1 rather than the width error |
| Build.BuildFromDump | jinahub/indexers/searcher/FaissSearcher/faiss_searcher.py:122-142 | without `dump_path` or `dump_func` the searcher stays empty and without an index |
| Build.Assemble | jinahub/indexers/searcher/FaissSearcher/faiss_searcher.py:276-289 | the recorded registry next to the filled index is a searcher built from the dump, and the index keeps the sample it was trained on |
| Build.AssembledIsBuilt | jinahub/indexers/searcher/FaissSearcher/faiss_searcher.py:156-167 | the registry recorded from the dump, next to a trained index holding the dump's vectors, is consistent and is the searcher `_build_index` promises |
| Build.FreshLiveUniqueIffDistinct | jinahub/indexers/searcher/FaissSearcher/faiss_searcher.py:160-167 | with all flags cleared, every live offset is its id's current offset iff the dump's ids are pairwise distinct |
| Deltas.AppendVecsAndIds | jinahub/indexers/searcher/FaissSearcher/faiss_searcher.py:595-601 | unequal id and vector counts fail the assert; a missing index, rows of another width or an untrained index make `add` raise; a success appends the ids, cleared flags and vectors in order with index settings kept, and preserves consistency |
| Deltas.AppendedOffsetsAreFresh | jinahub/indexers/searcher/FaissSearcher/faiss_searcher.py:598 | each appended id maps to an offset past every old one, so offsets are never reused |
| Deltas.Tombstone | jinahub/indexers/searcher/FaissSearcher/faiss_searcher.py:609-622 | tombstoning the current offset keeps consistency, the index, the id list and the dictionary |
| Deltas.ApplyDelta | jinahub/indexers/searcher/FaissSearcher/faiss_searcher.py:608-628 | a record fails iff it carries a vector and either no index exists (IndexNotBuilt) or the vector's width differs from the index's (RaggedVectors); otherwise consistency is kept, exactly one offset is added iff the record has a vector, and whether an index exists and its dimension are kept |
| Deltas.DeleteCases | jinahub/indexers/searcher/FaissSearcher/faiss_searcher.py:608-619 | a delete of an unknown id changes nothing; a delete of a known id sets only the flag at its current offset |
| Deltas.UpdateKnown | jinahub/indexers/searcher/FaissSearcher/faiss_searcher.py:620-628 | an update of a known id tombstones the old offset, appends the id with a cleared flag, repoints the dictionary and hands FAISS the vector, and nothing else changes |
| Deltas.TombstoneEffect | jinahub/indexers/searcher/FaissSearcher/faiss_searcher.py:618-622 | the id becomes invisible, every other id keeps offset, flag and vector, no flag is cleared, and uniqueness of live ids is kept |
| Deltas.AppendOneEffect | jinahub/indexers/searcher/FaissSearcher/faiss_searcher.py:620-628 | the id becomes visible at the next offset with the new vector, other ids are untouched, and the lists only grow |
| Deltas.AppendOneKeepsLiveUnique | jinahub/indexers/searcher/FaissSearcher/faiss_searcher.py:597-600 | appending an id that was not visible keeps every live id visible through one offset only |
| Deltas.ApplyDeltaEffect | jinahub/indexers/searcher/FaissSearcher/faiss_searcher.py:608-628 | the record's id ends up as the record asks, other ids are untouched, the lists only grow, no flag is cleared, and uniqueness of live ids is kept |
| Deltas.DeleteIsIdempotent | jinahub/indexers/searcher/FaissSearcher/faiss_searcher.py:618-619 | deleting an id twice gives the same state as deleting it once |
| Deltas.SizeAfterDelta | jinahub/indexers/searcher/FaissSearcher/faiss_searcher.py:569-576 | after one record, `size` grows by one for a vector and shrinks by one if the id was visible before |
| Deltas.ApplyAll | jinahub/indexers/searcher/FaissSearcher/faiss_searcher.py:603-608 | applying the records in order keeps consistency, whether an index exists and its dimension; every failure is the missing-index or the width error, and a stream with no refused record does not fail |
| Deltas.ApplyAllFails | jinahub/indexers/searcher/FaissSearcher/faiss_searcher.py:603-628 | a run fails iff some record in the stream is refused (a vector with no index, or of another width) |
| Deltas.FirstRefused | jinahub/indexers/searcher/FaissSearcher/faiss_searcher.py:603-628 | the position of the first record FAISS refuses: every record before it is accepted and the record there is refused, or it is the stream's length when none is |
| Deltas.ApplyAllApplied | jinahub/indexers/searcher/FaissSearcher/faiss_searcher.py:603-628 | a successful run leaves every id named in the stream as its last record asks and every other id untouched, with no flag cleared |
| Deltas.ApplyDeltas | jinahub/indexers/searcher/FaissSearcher/faiss_searcher.py:603-628 | `_add_delta`'s loop: when no record is refused it computes the sequential application and every id is as its last record asks; otherwise the records before the first refused one stay applied and the refused one leaves the as-written partial state, with no rollback; it fails iff some record is refused, with the missing-index or width error |
| Deltas.AppendVecsAndIdsAsWritten | jinahub/indexers/searcher/FaissSearcher/faiss_searcher.py:595-601 | as written, a failed `add` leaves the appended ids, flags and dictionary entries behind with the index unchanged; on success it agrees with the corrected append |
| Deltas.ApplyDeltaAsWritten | jinahub/indexers/searcher/FaissSearcher/faiss_searcher.py:608-628 | as written, a refused record raises the error the corrected step raises, and leaves behind the tombstone of the id's old offset and the id appended with a cleared flag and a repointed dictionary, with the index unchanged; otherwise it agrees with the corrected step |
| Deltas.RefusedUpdateHidesDocument | jinahub/indexers/searcher/FaissSearcher/faiss_searcher.py:613-628 | a refused update of a known id leaves no stored vector searchable under that id, while the dictionary points the id at an offset that holds no vector |
| Deltas.FailedAddLeavesIdBehind | jinahub/indexers/searcher/FaissSearcher/faiss_searcher.py:595-617 | a three-wide vector for new id b, sent to a consistent two-wide searcher, is refused but leaves b at offset 1 without a vector; the next new id c's vector then lands at offset 1, which the id list names b, while the dictionary sends c to 2 |
| Deltas.ApplyDeltaAtomic | jinahub/indexers/searcher/FaissSearcher/faiss_searcher.py:603-628 | the corrected step keeps the searcher consistent; it fails iff the record is refused, a failure changes nothing, and a success leaves the id as the record asks and only grows the registry |
| Query.LiveCandidates | jinahub/indexers/searcher/FaissSearcher/faiss_searcher.py:339-346 | filtering never lengthens the hits and keeps them usable |
| Query.LiveCandidatesMembers | jinahub/indexers/searcher/FaissSearcher/faiss_searcher.py:345-346 | a hit survives the filter iff FAISS returned it and its offset is not tombstoned |
| Query.LiveCandidatesPrefix | jinahub/indexers/searcher/FaissSearcher/faiss_searcher.py:339-346 | filtering a prefix of the hits gives a prefix of the filtered hits |
| Query.ToMatch | jinahub/indexers/searcher/FaissSearcher/faiss_searcher.py:347-354 | a match names the id stored at the hit's offset under the metric's name; an L2 distance is passed through, and an L2 similarity of a non-negative distance lies in (0, 1] |
| Query.QueryMatches | jinahub/indexers/searcher/FaissSearcher/faiss_searcher.py:338-361 | one query never receives more than `Limit(top_k)` matches, nor more than FAISS returned hits |
| Query.Limit | jinahub/indexers/searcher/FaissSearcher/faiss_searcher.py:358-361 | the number of matches a query can get is `top_k` when `top_k` >= 1 and 1 otherwise, because the count is compared only after appending |
| Query.CollectMatches | jinahub/indexers/searcher/FaissSearcher/faiss_searcher.py:338-361 | one query's loop yields the first `Limit(top_k)` untombstoned hits, converted, in FAISS order |
| Query.FullPrefixAnswers | jinahub/indexers/searcher/FaissSearcher/faiss_searcher.py:359-361 | once a prefix of the hits yields `Limit(top_k)` matches, stopping there gives the full answer |
| Query.Search | jinahub/indexers/searcher/FaissSearcher/faiss_searcher.py:298-361 | without an index nothing is answered; otherwise FAISS is asked for `top_k + deleted_count` hits and each query receives the reference matches of its row |
| Query.TombstonesExcluded | jinahub/indexers/searcher/FaissSearcher/faiss_searcher.py:345-346 | every match names an id that is visible, through an offset FAISS returned |
| Query.LiveCandidatesRanked | jinahub/indexers/searcher/FaissSearcher/faiss_searcher.py:333-346 | filtering keeps FAISS's ranking order |
| Query.MatchesRanked | jinahub/indexers/searcher/FaissSearcher/faiss_searcher.py:333-354 | the match scores are ascending for distances and descending for similarities |
| Query.LiveCount | jinahub/indexers/searcher/FaissSearcher/faiss_searcher.py:345-346 | with distinct offsets, the number of surviving hits is the number of returned offsets that are live |
| Query.LiveHitBounds | jinahub/indexers/searcher/FaissSearcher/faiss_searcher.py:322 | at most `deleted_count` hits are filtered out, and a full scan leaves exactly `size` hits |
| Query.WideningFillsTopK | jinahub/indexers/searcher/FaissSearcher/faiss_searcher.py:320-322 | if FAISS returns min(`top_k + deleted_count`, ntotal) distinct offsets, each query gets min(`top_k`, `size`) matches |
| VShards.FloorDiv | jinahub/indexers/storage/PostgreSQLStorage/postgres_indexer.py:206-208 | Python's `//` rounds toward negative infinity |
| VShards.FloorMod | jinahub/indexers/storage/PostgreSQLStorage/postgres_indexer.py:209 | Python's `%` satisfies a == (a // b) * b + m with m taking the sign of b |
| VShards.Clamp | jinahub/indexers/storage/PostgreSQLStorage/postgres_indexer.py:210-218 | slice bounds count negative values from the end and are clamped to the list |
| VShards.Slice | jinahub/indexers/storage/PostgreSQLStorage/postgres_indexer.py:210-218 | a slice holds the elements from the clamped start up to the clamped end |
| VShards.VShardsToGet | jinahub/indexers/storage/PostgreSQLStorage/postgres_indexer.py:202-219 | `shard_id > total_shards - 1` raises, a zero `total_shards` raises, and otherwise the result is strictly ascending with every id in [0, numVShards) |
| VShards.VShardSlice | jinahub/indexers/storage/PostgreSQLStorage/postgres_indexer.py:205-218 | slicing `list(range(n))` gives the range between the clamped bounds |
| VShards.NonLastShard | jinahub/indexers/storage/PostgreSQLStorage/postgres_indexer.py:215-218 | a shard other than the last gets exactly `part` consecutive ids from `shard_id * part` |
| VShards.LastShard | jinahub/indexers/storage/PostgreSQLStorage/postgres_indexer.py:209-214 | the last shard gets the ids from `shard_id * part` to `(shard_id + 1) * part + part % total_shards`, cut off at numVShards |
| VShards.ShardsDisjoint | jinahub/indexers/storage/PostgreSQLStorage/postgres_indexer.py:210-218 | two different valid shard ids share no virtual shard |
| VShards.CoverageIff | jinahub/indexers/storage/PostgreSQLStorage/postgres_indexer.py:205-214 | every virtual shard is read by some shard iff `total_shards * part + part % total_shards` reaches numVShards |
| VShards.CoverageWhenDivisible | jinahub/indexers/storage/PostgreSQLStorage/postgres_indexer.py:205-218 | when `total_shards` divides numVShards, every virtual shard is read |
| VShards.DropsTail128Over3 | jinahub/indexers/storage/PostgreSQLStorage/postgres_indexer.py:209 | 128 virtual shards over 3 shards give 0..41, 42..83 and 84..125, so 126 and 127 are read by no shard |
| VShards.NegativeShardAccepted | jinahub/indexers/storage/PostgreSQLStorage/postgres_indexer.py:203-204 | shard id -2 of 3 passes the guard and reads 44..85, which overlaps shard 1 |
| VShards.VShardsToGetIntended | jinahub/indexers/storage/PostgreSQLStorage/postgres_indexer.py:202-219 | the corrected partition accepts exactly the ids in `range(total_shards)` and returns ascending ids in range |
| VShards.IntendedCovers | jinahub/indexers/storage/PostgreSQLStorage/postgres_indexer.py:205-218 | the corrected partition reads every virtual shard, whatever the divisibility |
| VShards.IntendedDisjoint | jinahub/indexers/storage/PostgreSQLStorage/postgres_indexer.py:210-218 | under the corrected partition, different shards share nothing |
| VShards.IntendedAgrees | jinahub/indexers/storage/PostgreSQLStorage/postgres_indexer.py:209-218 | the two versions agree on every shard but the last, and on all shards when the division is exact |

## Left out

- FAISS itself is not modelled: index factory, training numerics, `add`, `search`, `read_index` and `write_index`. An index is its dimension, metric, trained flag, stored vectors and the rows it was last trained on. Whether `index_factory` returns a trained index depends on the factory string, so it is a configuration flag. Its `add` is reduced to the three checks that make it raise (no index, a row of another width, an untrained index), and its search is an oracle parameter of `Query.Search`.
- GPU placement (`device`, `to_device`) is left out: it does not affect the bookkeeping.
- File I/O is left out: the snapshot pickles, `save`, and `_load` beyond the dictionary rebuild. So is `_load_training_data` / `_load_gzip` and the `train` endpoint. `IdRegistry.Restore` takes the two unpickled lists as arguments.
- The case where `_load` reads `doc_ids.bin` but finds no `delete_marks.bin` is left out. That load returns False after replacing `_doc_ids`, and the dump then appends on top. The model always builds from the constructor's empty lists.
- The dump iterator, the prefetch buffer and the batch iterator are taken as a finite sequence. Only their effect on the training rows and on the insertion blocks is kept.
- `normalize_L2` is left out: it changes vector values, not bookkeeping. Vector values are opaque to the model, and query vectors only reach the oracle.
- Floating point is modelled as real arithmetic. The `float32` conversions and `np.frombuffer` byte decoding are left out, and a delta's vector arrives already decoded.
- Metric.Score: requires `ScoreDefined`, i.e. no L2 distance of exactly -1 in similarity mode. There Python divides by zero, a case that FAISS's non-negative L2 distances never produce.
- FAISS `search` itself raises when a query's width differs from the index's and when `top_k + deleted_count` is not positive. The oracle is taken to answer in both cases, so `Query.Search` does not model these two errors.
- Query.Search: requires every hit to be a stored offset. FAISS pads short results with -1, which Python would read as the last id. This is the precondition `Fits` on the oracle's answer.
- The random draw of `np.random.choice` is a parameter: any sequence of distinct indices of the requested length.
- A delta's `last_updated` timestamp is not used by `_add_delta`, so it is left out.
- Deltas.ApplyAll: this is the reference run, which returns no searcher when a record is refused. The state the loop leaves then, with no rollback, is stated by `Deltas.ApplyDeltas`.
- Deltas.AppendVecsAndIds: this is the corrected append, which leaves the searcher unchanged when `add` raises. The ids that the code as written leaves behind are modelled separately by `Deltas.AppendVecsAndIdsAsWritten` (see Findings).
- `_init_faiss_index` reading a pre-trained index file is modelled as an optional index argument. The file system check is left out.
- Logging and warnings are left out, and so is Jina's `Document` / `DocumentArray` traversal: a query batch is a sequence of vectors, and the result is the matches per query.
- The rest of the PostgreSQL storage (handler, add, update, delete, search, dump, snapshot) is database plumbing over a handler that is not part of this model. The compound `FaissPostgresSearcher` only forwards calls, and is not part of this model either.

## Findings

| source | as written | input that shows it | evidently intended | confidence | as-written member | corrected member |
|---|---|---|---|---|---|---|
| jinahub/indexers/storage/PostgreSQLStorage/postgres_indexer.py:209 | the last shard's extra share is `vshard_part % total_shards` | 128 virtual shards over 3 shards: part 42, extra 42 % 3 = 0, so virtual shards 126 and 127 are never read | `self.total_shards % total_shards`, so the last shard takes the whole remainder | high; not executed | VShards.DropsTail128Over3 | VShards.IntendedCovers |
| jinahub/indexers/storage/PostgreSQLStorage/postgres_indexer.py:203-204 | the guard rejects only `shard_id > total_shards - 1` | shard id -2 of 3 over 128 virtual shards passes, and Python's negative slicing hands it 44..85, which overlaps shard 1 | also reject `shard_id < 0` | medium; not executed | VShards.NegativeShardAccepted | VShards.VShardsToGetIntended |
| jinahub/indexers/searcher/FaissSearcher/faiss_searcher.py:595-601 | `_append_vecs_and_ids` records the ids, flags and dictionary entries before `self._faiss_index.add` runs, so they stay behind when `add` raises | a searcher holding "a" in a trained two-wide index receives a three-wide vector for new id "b": `add` raises, but "b" keeps offset 1 with no vector; a later two-wide vector for new id "c" is stored at offset 1 while the dictionary sends "c" to offset 2, so a search hit on "c"'s vector reports "b" | call `_index` first, or undo the appended entries when it raises, so a refused record leaves the searcher as it was | medium; not executed | Deltas.FailedAddLeavesIdBehind | Deltas.ApplyDeltaAtomic |
