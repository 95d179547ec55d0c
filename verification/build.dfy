/** Building the searcher from a dump of (id, vector) pairs: `_load_dump`,
    `_iterate_vectors_and_save_ids`, `_init_faiss_index`, `_build_index` and
    `_build_partial_index`. The dump is taken as a finite sequence; the lazy
    iterator, the prefetch buffer and the batches only decide which rows are
    used for training and in which blocks the vectors reach FAISS. */
module Build {
  import opened Common
  import opened IdRegistry
  import opened Metric
  import opened SearcherState
  import opened Training

  /** The constructor options the build depends on. `factoryTrained` is FAISS's
      answer to whether `index_factory(num_dim, index_key, metric)` returns an
      index that needs no training (true for "Flat"). */
  datatype Config = Config(
    metric: string,
    requiresTraining: bool,
    maxTrainingPoints: Option<int>,
    prefetchSize: Option<int>,
    factoryTrained: bool)

  datatype Item = Item(id: DocId, vec: Vector)

  function Ids(items: seq<Item>): (ids: seq<DocId>)
    ensures |ids| == |items| && forall i :: 0 <= i < |items| ==> ids[i] == items[i].id
  {
    seq(|items|, i requires 0 <= i < |items| => items[i].id)
  }

  function Vecs(items: seq<Item>): (vs: seq<Vector>)
    ensures |vs| == |items| && forall i :: 0 <= i < |items| ==> vs[i] == items[i].vec
  {
    seq(|items|, i requires 0 <= i < |items| => items[i].vec)
  }

  /** `_iterate_vectors_and_save_ids` run over the whole dump on the fresh lists
      of the constructor: the i-th id is stored at offset i (its position in
      the stream), with a cleared flag, and the dictionary ends up mapping each
      id to its last position. */
  function RecordDumpIds(ids: seq<DocId>): (r: Registry)
    ensures r.docIds == ids && r.isDeleted == Cleared(|ids|)
    ensures Valid(r)
    decreases |ids|
  {
    if ids == [] then Empty
    else
      var position := |ids| - 1;
      var p := RecordDumpIds(ids[..position]);
      var r := Registry(p.docIds + [ids[position]], p.idToOffset[ids[position] := position], p.isDeleted + [false]);
      assert ids == ids[..position] + [ids[position]];
      AppendKeepsValid(p, ids[position]);
      r
  }

  /** The dictionary built while streaming is the one `_load` would rebuild. */
  lemma StreamedMapIsRebuiltMap(ids: seq<DocId>)
    ensures RecordDumpIds(ids).idToOffset == OffsetMap(ids)
  {
    RebuiltMapAgrees(RecordDumpIds(ids));
  }

  /** Number of items `_load_dump` pulls into `_prefetch_data`: `prefetch_size`
      of them when it is a positive number, otherwise the whole dump. */
  function PrefetchLength(prefetchSize: Option<int>, n: nat): (k: nat)
    ensures k <= n
    ensures k < n ==> prefetchSize.Some? && 0 < prefetchSize.value == k
    ensures prefetchSize.Some? && 0 < prefetchSize.value < n ==> k == prefetchSize.value
  {
    match prefetchSize
    case Some(p) => if p > 0 then Min(p, n) else n
    case None => n
  }

  /** Length of `_prefetch_data` once `_build_index` has collected the training
      points: without a cap it takes the whole dump; with a positive cap it
      pulls until the cap is reached or the dump is exhausted; a cap of 0 or
      below pulls nothing more. */
  function TrainingBufferLength(maxPoints: Option<int>, prefetched: nat, n: nat): (k: nat)
    requires prefetched <= n
    ensures prefetched <= k <= n
    ensures maxPoints.Some? && maxPoints.value > 0 ==> k == Max(prefetched, Min(maxPoints.value, n))
    ensures maxPoints.Some? && maxPoints.value <= 0 ==> k == prefetched
    ensures maxPoints.None? ==> k == n
  {
    match maxPoints
    case None => n
    case Some(m) => if m > 0 && prefetched < m then Min(m, n) else prefetched
  }

  /** All blocks in order, as one sequence of rows. */
  function Flatten(blocks: seq<seq<Vector>>): (rows: seq<Vector>)
    ensures blocks != [] ==> |blocks[0]| <= |rows| && rows[..|blocks[0]|] == blocks[0]
    ensures (forall i :: 0 <= i < |blocks| ==> blocks[i] == []) ==> rows == []
    decreases |blocks|
  {
    if blocks == [] then [] else blocks[0] + Flatten(blocks[1..])
  }

  /** `batch_iterator(vecs_iter, prefetch_size)`: consecutive non-empty
      batches of at most `size` rows that together are the rows in order. */
  function Batches(rows: seq<Vector>, size: nat): (bs: seq<seq<Vector>>)
    requires size > 0
    ensures Flatten(bs) == rows
    ensures forall i :: 0 <= i < |bs| ==> 0 < |bs[i]| <= size
    decreases |rows|
  {
    if rows == [] then []
    else if |rows| <= size then
      assert Flatten([rows]) == rows + Flatten([]);
      [rows]
    else
      var rest := Batches(rows[size..], size);
      FlattenCons(rows[..size], rest);
      assert rows == rows[..size] + rows[size..];
      [rows[..size]] + rest
  }

  lemma FlattenCons(block: seq<Vector>, blocks: seq<seq<Vector>>)
    ensures Flatten([block] + blocks) == block + Flatten(blocks)
  {
    assert ([block] + blocks)[1..] == blocks;
  }

  /** `_index` applied to every block in turn. */
  function AddBlocks(ix: FaissIndex, blocks: seq<seq<Vector>>): (ix': FaissIndex)
    ensures ix' == ix.(vectors := ix.vectors + Flatten(blocks))
    decreases |blocks|
  {
    if blocks == [] then ix
    else
      var ix' := AddBlocks(Add(ix, blocks[0]), blocks[1..]);
      assert ix.vectors + blocks[0] + Flatten(blocks[1..]) == ix.vectors + (blocks[0] + Flatten(blocks[1..]));
      ix'
  }

  /** `_build_partial_index`: the buffered rows go in as one block, then the
      rest of the stream in batches of `prefetch_size`. Insertion order is
      stream order, so row i of the dump lands at offset i. */
  function InsertDump(ix: FaissIndex, rows: seq<Vector>, buffered: nat, prefetchSize: Option<int>): (ix': FaissIndex)
    requires buffered <= |rows|
    requires buffered < |rows| ==> prefetchSize.Some? && prefetchSize.value > 0
    ensures ix' == ix.(vectors := ix.vectors + rows)
  {
    var head := if buffered > 0 then [rows[..buffered]] else [];
    var tail := if buffered < |rows| then Batches(rows[buffered..], prefetchSize.value) else [];
    assert Flatten(head) == rows[..buffered] by {
      if buffered > 0 { assert Flatten(head) == rows[..buffered] + Flatten([]); }
    }
    FlattenAppend(head, tail);
    assert rows == rows[..buffered] + rows[buffered..];
    AddBlocks(ix, head + tail)
  }

  lemma {:induction false} FlattenAppend(a: seq<seq<Vector>>, b: seq<seq<Vector>>)
    ensures Flatten(a + b) == Flatten(a) + Flatten(b)
    decreases |a|
  {
    if a == [] {
      assert a + b == b;
    } else {
      assert (a + b)[1..] == a[1..] + b;
      FlattenAppend(a[1..], b);
    }
  }

  /** Every dump vector has the width of the first one. */
  predicate SameWidth(items: seq<Item>, width: nat) {
    forall i :: 0 <= i < |items| ==> |items[i].vec| == width
  }

  /** The first `k` rows of a dump whose first `k` items share a width all
      have that width. */
  lemma VecsPrefixWidth(items: seq<Item>, k: nat, width: nat)
    requires k <= |items| && SameWidth(items[..k], width)
    ensures forall i :: 0 <= i < k ==> |Vecs(items)[i]| == width
  {
    forall i | 0 <= i < k
      ensures |Vecs(items)[i]| == width
    {
      assert items[..k][i] == items[i];
    }
  }

  /** `_init_faiss_index`: a pre-trained index file that exists must be empty,
      trained and of the configured metric and dimension (the asserts);
      otherwise `index_factory` makes a fresh empty index. */
  function InitIndex(cfg: Config, numDim: nat, pretrained: Option<FaissIndex>): (r: Result<FaissIndex, Error>)
    ensures r.Ok? ==> r.value.vectors == [] && r.value.dim == numDim && r.value.metric == MetricTypeOf(cfg.metric)
    ensures r.Ok? && pretrained.Some? ==> r.value == pretrained.value && r.value.trained
    ensures pretrained.None? ==> r.Ok? && r.value.trained == cfg.factoryTrained
    ensures r.Err? <==> pretrained.Some? && !PretrainedFits(cfg, numDim, pretrained.value)
    ensures r.Err? ==> r.error == PretrainedIndexMismatch
  {
    match pretrained
    case Some(ix) =>
      if PretrainedFits(cfg, numDim, ix) then Ok(ix) else Err(PretrainedIndexMismatch)
    case None => Ok(FaissIndex(numDim, MetricTypeOf(cfg.metric), cfg.factoryTrained, [], []))
  }

  predicate PretrainedFits(cfg: Config, numDim: nat, ix: FaissIndex) {
    ix.metric == MetricTypeOf(cfg.metric) && ix.vectors == [] && ix.dim == numDim && ix.trained
  }

  /** Number of rows that become the training sample before the cap. */
  function TrainingRows(cfg: Config, n: nat): (k: nat)
    ensures k <= n
  {
    TrainingBufferLength(cfg.maxTrainingPoints, PrefetchLength(cfg.prefetchSize, n), n)
  }

  /** The random draw fits the training sample whenever the cap will apply. */
  predicate DrawFits(cfg: Config, n: nat, choice: seq<nat>) {
    (cfg.requiresTraining && CapApplies(cfg.maxTrainingPoints, TrainingRows(cfg, n)) && cfg.maxTrainingPoints.value > 0)
    ==> IsDraw(choice, TrainingRows(cfg, n), cfg.maxTrainingPoints.value)
  }

  /** The whole build from a dump (`dump` is `None` when neither `dump_path`
      nor `dump_func` is given: the searcher stays without an index). */
  function BuildFromDump(cfg: Config, dump: Option<seq<Item>>, pretrained: Option<FaissIndex>, choice: seq<nat>)
    : (r: Result<Searcher, Error>)
    requires dump.Some? ==> DrawFits(cfg, |dump.value|, choice)
    ensures dump.None? ==> r == Ok(Searcher(Empty, None))
    ensures dump.Some? ==> r == Build(cfg, dump.value, pretrained, choice)
  {
    match dump
    case None => Ok(Searcher(Empty, None))
    case Some(items) => Build(cfg, items, pretrained, choice)
  }

  /** Ids are pairwise distinct. */
  predicate DistinctIds(ids: seq<DocId>) {
    forall i, j :: 0 <= i < j < |ids| ==> ids[i] != ids[j]
  }

  /** The searcher a successful build produces from the dump. */
  ghost predicate BuiltFrom(s: Searcher, cfg: Config, items: seq<Item>)
    requires items != []
  {
    && Consistent(s)
    && s.reg.docIds == Ids(items)
    && s.reg.isDeleted == Cleared(|items|)
    && s.index.Some?
    && s.index.value.vectors == Vecs(items)
    && s.index.value.dim == |items[0].vec|
    && s.index.value.metric == MetricTypeOf(cfg.metric)
    && s.index.value.trained
    && (LiveUnique(s.reg) <==> DistinctIds(s.reg.docIds))
  }

  /** `_build_index` trains exactly when training is required and the index
      is not trained yet. */
  predicate TrainingRuns(cfg: Config, trained: bool) {
    cfg.requiresTraining && !trained
  }

  /** The cap applies to the training rows of an `n`-row dump but is
      negative, so `np.random.choice` refuses the sample size. */
  predicate NegativeCap(cfg: Config, n: nat) {
    CapApplies(cfg.maxTrainingPoints, TrainingRows(cfg, n)) && cfg.maxTrainingPoints.value < 0
  }

  /** The first rows `np.stack` sees share the first row's width: the
      training buffer when training runs, otherwise the prefetch buffer that
      `_build_partial_index` adds first. */
  predicate FirstBlockFits(cfg: Config, trained: bool, items: seq<Item>)
    requires items != []
  {
    SameWidth(items[..BufferedRows(cfg, |items|, TrainingRuns(cfg, trained))], |items[0].vec|)
  }

  /** `_load_dump` with an iterator, then `_build_index`: the dump's i-th id
      and vector both end up at offset i, every flag cleared. An empty dump
      fails on `_prefetch_data[0]` and an unsuitable pre-trained index on
      the asserts of `_init_faiss_index`; after that the build fails where
      `BuildWith` says, with the index `_init_faiss_index` returns, which is
      trained when it was read from a file and as the factory made it
      otherwise. */
  function Build(cfg: Config, items: seq<Item>, pretrained: Option<FaissIndex>, choice: seq<nat>)
    : (r: Result<Searcher, Error>)
    requires DrawFits(cfg, |items|, choice)
    ensures items == [] <==> r == Err(EmptyDump)
    ensures r.Ok? ==> BuiltFrom(r.value, cfg, items)
    ensures items != [] && pretrained.Some? && !PretrainedFits(cfg, |items[0].vec|, pretrained.value)
      ==> r == Err(PretrainedIndexMismatch)
    ensures items != [] && (pretrained.None? || PretrainedFits(cfg, |items[0].vec|, pretrained.value)) ==>
      var trained := pretrained.Some? || cfg.factoryTrained;
      var width := |items[0].vec|;
      && (r.Ok? <==> SameWidth(items, width) && (trained || cfg.requiresTraining)
                     && !(TrainingRuns(cfg, trained) && NegativeCap(cfg, |items|)))
      && (!FirstBlockFits(cfg, trained, items) ==> r == Err(RaggedVectors))
      && (FirstBlockFits(cfg, trained, items) && TrainingRuns(cfg, trained) && NegativeCap(cfg, |items|)
          ==> r == Err(NegativeSampleSize(cfg.maxTrainingPoints.value)))
      && (FirstBlockFits(cfg, trained, items) && !cfg.requiresTraining && !trained ==> r == Err(IndexNotTrained))
      && (FirstBlockFits(cfg, trained, items) && (trained || cfg.requiresTraining)
          && !(TrainingRuns(cfg, trained) && NegativeCap(cfg, |items|)) && !SameWidth(items, width)
          ==> r == Err(RaggedVectors))
  {
    if items == [] then Err(EmptyDump)
    else
      var ix :- InitIndex(cfg, |items[0].vec|, pretrained);
      BuildWith(cfg, items, ix, choice)
  }

  /** `_build_index` once the FAISS index exists. It fails where the program
      first fails: stacking the first buffered rows, then drawing a negative
      number of training rows, then adding the first block to an untrained
      index, and only then stacking or adding a later batch of another
      width. */
  function BuildWith(cfg: Config, items: seq<Item>, ix: FaissIndex, choice: seq<nat>)
    : (r: Result<Searcher, Error>)
    requires items != [] && DrawFits(cfg, |items|, choice)
    requires ix.vectors == [] && ix.dim == |items[0].vec| && ix.metric == MetricTypeOf(cfg.metric)
    ensures r.Ok? <==> SameWidth(items, |items[0].vec|) && (ix.trained || cfg.requiresTraining)
                       && !(TrainingRuns(cfg, ix.trained) && NegativeCap(cfg, |items|))
    ensures !FirstBlockFits(cfg, ix.trained, items) ==> r == Err(RaggedVectors)
    ensures FirstBlockFits(cfg, ix.trained, items) && TrainingRuns(cfg, ix.trained) && NegativeCap(cfg, |items|)
      ==> r == Err(NegativeSampleSize(cfg.maxTrainingPoints.value))
    ensures FirstBlockFits(cfg, ix.trained, items) && !cfg.requiresTraining && !ix.trained ==> r == Err(IndexNotTrained)
    ensures FirstBlockFits(cfg, ix.trained, items) && (ix.trained || cfg.requiresTraining)
            && !(TrainingRuns(cfg, ix.trained) && NegativeCap(cfg, |items|)) && !SameWidth(items, |items[0].vec|)
      ==> r == Err(RaggedVectors)
    ensures r.Ok? ==> BuiltFrom(r.value, cfg, items)
    ensures r.Ok? && TrainingRuns(cfg, ix.trained) ==> TrainedOn(r.value.index.value, cfg, Vecs(items))
    ensures r != Err(EmptyDump)
  {
    var numDim := |items[0].vec|;
    var buffered := BufferedRows(cfg, |items|, TrainingRuns(cfg, ix.trained));
    if !SameWidth(items[..buffered], numDim) then Err(RaggedVectors)
    else
      var rows := Vecs(items);
      VecsPrefixWidth(items, buffered, numDim);
      var trained :- TrainIfNeeded(cfg, ix, numDim, rows, choice);
      if !trained.trained then Err(IndexNotTrained)
      else if !SameWidth(items, numDim) then Err(RaggedVectors)
      else
        var s := Assemble(cfg, items, trained, buffered);
        assert s.index.value.trainingSample == trained.trainingSample;
        Ok(s)
  }

  /** A dump whose second row is wider than its first. */
  const WideSecondRow: seq<Item> := [Item("a", [1.0, 0.0]), Item("b", [1.0, 0.0, 0.0])]

  /** Prefetching one row into an untrained index that needs no training:
      FAISS refuses the first block before the wide row is ever stacked. */
  lemma UntrainedBeforeWideRow()
    ensures Build(Config("l2", false, None, Some(1), false), WideSecondRow, None, []) == Err(IndexNotTrained)
  {
    var cfg := Config("l2", false, None, Some(1), false);
    assert BufferedRows(cfg, 2, false) == 1;
    assert FirstBlockFits(cfg, false, WideSecondRow);
  }

  /** With a negative cap, `np.random.choice` refuses the sample size before
      the wide row is ever stacked. */
  lemma NegativeCapBeforeWideRow()
    ensures Build(Config("l2", true, Some(-1), Some(1), false), WideSecondRow, None, []) == Err(NegativeSampleSize(-1))
  {
    var cfg := Config("l2", true, Some(-1), Some(1), false);
    assert TrainingRows(cfg, 2) == 1;
    assert FirstBlockFits(cfg, false, WideSecondRow);
  }

  /** The index was trained on what `_build_index` hands to `_train`: rows
      from the first `TrainingRows` of the dump, exactly the cap's number of
      them when the cap applies, and all of them otherwise. */
  predicate TrainedOn(ix: FaissIndex, cfg: Config, rows: seq<Vector>)
    requires TrainingRows(cfg, |rows|) <= |rows|
  {
    var n := TrainingRows(cfg, |rows|);
    && multiset(ix.trainingSample) <= multiset(rows[..n])
    && (if CapApplies(cfg.maxTrainingPoints, n) then |ix.trainingSample| == cfg.maxTrainingPoints.value
        else ix.trainingSample == rows[..n])
  }

  /** Rows held in `_prefetch_data` when `_build_partial_index` starts: the
      training buffer if training ran, the prefetched rows otherwise. */
  function BufferedRows(cfg: Config, n: nat, trainingRan: bool): (k: nat)
    ensures k <= n
    ensures k < n ==> cfg.prefetchSize.Some? && cfg.prefetchSize.value > 0
  {
    if trainingRan then TrainingRows(cfg, n) else PrefetchLength(cfg.prefetchSize, n)
  }

  /** The registry recorded while streaming, next to the filled index. */
  function Assemble(cfg: Config, items: seq<Item>, ix: FaissIndex, buffered: nat): (s: Searcher)
    requires items != [] && buffered <= |items|
    requires buffered < |items| ==> cfg.prefetchSize.Some? && cfg.prefetchSize.value > 0
    requires ix.vectors == [] && ix.dim == |items[0].vec| && ix.metric == MetricTypeOf(cfg.metric)
    requires ix.trained && SameWidth(items, ix.dim)
    ensures BuiltFrom(s, cfg, items)
    ensures s.index.value.trainingSample == ix.trainingSample
  {
    var ix' := InsertDump(ix, Vecs(items), buffered, cfg.prefetchSize);
    AssembledIsBuilt(cfg, items, ix');
    Searcher(RecordDumpIds(Ids(items)), Some(ix'))
  }

  /** The registry the dump records, with an index holding the dump's
      vectors, is the searcher `_build_index` promises. */
  lemma AssembledIsBuilt(cfg: Config, items: seq<Item>, ix: FaissIndex)
    requires items != [] && ix.vectors == Vecs(items) && ix.dim == |items[0].vec|
    requires ix.metric == MetricTypeOf(cfg.metric) && ix.trained && SameWidth(items, ix.dim)
    ensures BuiltFrom(Searcher(RecordDumpIds(Ids(items)), Some(ix)), cfg, items)
  {
    var reg := RecordDumpIds(Ids(items));
    FreshLiveUniqueIffDistinct(reg);
    var rows := Vecs(items);
    assert RowsFit(ix, rows) by {
      forall i | 0 <= i < |rows|
        ensures |rows[i]| == ix.dim
      {
        assert rows[i] == items[i].vec;
      }
    }
    BuiltFromIntro(Searcher(reg, Some(ix)), cfg, items);
  }

  /** The training step of `_build_index`: only when training is required and
      the index is not trained yet; the buffered rows, capped, train it. Only
      those rows need to share a width: `np.stack` has not seen the rest. */
  function TrainIfNeeded(cfg: Config, ix: FaissIndex, numDim: nat, rows: seq<Vector>, choice: seq<nat>)
    : (r: Result<FaissIndex, Error>)
    requires DrawFits(cfg, |rows|, choice)
    requires TrainingRuns(cfg, ix.trained) ==> forall i :: 0 <= i < TrainingRows(cfg, |rows|) ==> |rows[i]| == numDim
    ensures r.Ok? ==> r.value.vectors == ix.vectors && r.value.dim == ix.dim && r.value.metric == ix.metric
    ensures r.Ok? ==> r.value.trained == (ix.trained || cfg.requiresTraining)
    ensures !TrainingRuns(cfg, ix.trained) ==> r == Ok(ix)
    ensures r.Err? <==> TrainingRuns(cfg, ix.trained) && NegativeCap(cfg, |rows|)
    ensures r.Err? ==> r.error == NegativeSampleSize(cfg.maxTrainingPoints.value)
    ensures r.Ok? && TrainingRuns(cfg, ix.trained) ==> TrainedOn(r.value, cfg, rows)
    ensures r.Ok? && TrainingRuns(cfg, ix.trained) && CapApplies(cfg.maxTrainingPoints, TrainingRows(cfg, |rows|)) ==>
      forall i :: 0 <= i < |r.value.trainingSample| ==> i < |choice| && choice[i] < |rows| && r.value.trainingSample[i] == rows[choice[i]]
  {
    if !TrainingRuns(cfg, ix.trained) then Ok(ix)
    else
      var sample := rows[..TrainingRows(cfg, |rows|)];
      var kept :- CapSample(sample, cfg.maxTrainingPoints, choice);
      CapSampleKeepsWidth(sample, cfg.maxTrainingPoints, choice, numDim);
      Ok(Train(ix, numDim, Matrix(kept, numDim)).value.1)
  }

  /** With every flag cleared, each id is visible through one offset exactly
      when no id was stored twice: a dump with a repeated id leaves the
      earlier copy searchable. */
  lemma FreshLiveUniqueIffDistinct(r: Registry)
    requires Valid(r) && r.isDeleted == Cleared(|r.docIds|)
    ensures LiveUnique(r) <==> DistinctIds(r.docIds)
  {
    if LiveUnique(r) {
      forall i, j | 0 <= i < j < |r.docIds|
        ensures r.docIds[i] != r.docIds[j]
      {
        assert r.idToOffset[r.docIds[i]] == i;
        assert r.idToOffset[r.docIds[j]] == j;
      }
    }
    if DistinctIds(r.docIds) {
      forall i | 0 <= i < |r.docIds| && i < |r.isDeleted| && !r.isDeleted[i]
        ensures r.docIds[i] in r.idToOffset && r.idToOffset[r.docIds[i]] == i
      {
        var id := r.docIds[i];
        assert id in r.docIds;
        var k := r.idToOffset[id];
        assert IsLastOffset(r.docIds, id, k);
        DistinctSameIndex(r.docIds, i, k);
      }
    }
  }

  lemma DistinctSameIndex(ids: seq<DocId>, i: int, k: int)
    requires DistinctIds(ids) && 0 <= i < |ids| && 0 <= k < |ids| && ids[i] == ids[k]
    ensures i == k
  {
  }

  lemma BuiltFromIntro(s: Searcher, cfg: Config, items: seq<Item>)
    requires items != []
    requires Consistent(s) && s.index.Some?
    requires s.reg.docIds == Ids(items) && s.reg.isDeleted == Cleared(|items|)
    requires s.index.value.vectors == Vecs(items) && s.index.value.dim == |items[0].vec|
    requires s.index.value.metric == MetricTypeOf(cfg.metric)
    requires s.index.value.trained
    requires LiveUnique(s.reg) <==> DistinctIds(s.reg.docIds)
    ensures BuiltFrom(s, cfg, items)
  {
  }
}
