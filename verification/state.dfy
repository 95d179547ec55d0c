/** The state of one FAISS searcher: the registry kept by the Python class and
    the FAISS index it wraps. FAISS is abstract here: an index is its
    dimension, its metric, whether it is trained, the vectors stored at
    offsets 0, 1, 2, ... in insertion order, and the sample it was last
    trained on (what training learns is a function of that sample). */
module SearcherState {
  import opened Common
  import opened IdRegistry
  import opened Metric

  datatype FaissIndex = FaissIndex(dim: nat, metric: MetricType, trained: bool, vectors: seq<Vector>,
                                   trainingSample: seq<Vector>)

  /** FAISS `add` once it has accepted the rows: they are stored after the
      existing ones, in order. */
  function Add(ix: FaissIndex, vecs: seq<Vector>): (ix': FaissIndex)
    ensures |ix'.vectors| == |ix.vectors| + |vecs|
    ensures ix'.vectors[..|ix.vectors|] == ix.vectors && ix'.vectors[|ix.vectors|..] == vecs
    ensures ix'.(vectors := ix.vectors) == ix
  {
    ix.(vectors := ix.vectors + vecs)
  }

  /** Every row has the index's width. */
  predicate RowsFit(ix: FaissIndex, vecs: seq<Vector>) {
    forall i :: 0 <= i < |vecs| ==> |vecs[i]| == ix.dim
  }

  /** A single row fits exactly when it has the index's width. */
  lemma RowsFitOne(ix: FaissIndex, v: Vector)
    ensures RowsFit(ix, [v]) <==> |v| == ix.dim
  {
    assert [v][0] == v;
  }

  /** `_index`: `self._faiss_index.add(vecs)` raises when no index exists yet,
      when the rows do not have the index's width (the assert of FAISS's
      Python `add`), and when the index is not trained. */
  function AddChecked(index: Option<FaissIndex>, vecs: seq<Vector>): (r: Result<FaissIndex, Error>)
    ensures r.Ok? <==> index.Some? && RowsFit(index.value, vecs) && index.value.trained
    ensures index.None? ==> r == Err(IndexNotBuilt)
    ensures index.Some? && !RowsFit(index.value, vecs) ==> r == Err(RaggedVectors)
    ensures index.Some? && RowsFit(index.value, vecs) && !index.value.trained ==> r == Err(IndexNotTrained)
    ensures r.Ok? ==> r.value == index.value.(vectors := index.value.vectors + vecs)
  {
    match index
    case None => Err(IndexNotBuilt)
    case Some(ix) =>
      if !RowsFit(ix, vecs) then Err(RaggedVectors)
      else if !ix.trained then Err(IndexNotTrained)
      else Ok(Add(ix, vecs))
  }

  /** `index` is `None` while `self._faiss_index` does not exist. */
  datatype Searcher = Searcher(reg: Registry, index: Option<FaissIndex>)

  /** The registry is valid and has one entry per stored FAISS vector (none
      before the index exists); an existing index is trained (the build
      trains it or fails, and `_load` asserts it) and holds vectors of its
      own width only (FAISS `add` refuses others). */
  ghost predicate Consistent(s: Searcher) {
    && Valid(s.reg)
    && match s.index
       case None => s.reg.docIds == []
       case Some(ix) => |ix.vectors| == |s.reg.docIds| && ix.trained && RowsFit(ix, ix.vectors)
  }

  /** Every live offset is the current offset of its id: superseded and
      deleted offsets are all tombstoned, so an id is visible through at most
      one offset. */
  ghost predicate LiveUnique(r: Registry) {
    forall i :: 0 <= i < |r.docIds| && i < |r.isDeleted| && !r.isDeleted[i] ==>
      r.docIds[i] in r.idToOffset && r.idToOffset[r.docIds[i]] == i
  }

  /** The id is known and its current offset is not tombstoned. */
  ghost predicate IsLive(r: Registry, id: DocId) {
    id in r.idToOffset && r.idToOffset[id] < |r.isDeleted| && !r.isDeleted[r.idToOffset[id]]
  }

  /** Appending an id that is not live keeps every live offset current. */
  lemma AppendKeepsLiveUnique(r: Registry, id: DocId)
    requires Valid(r) && LiveUnique(r) && !IsLive(r, id)
    ensures LiveUnique(Append(r, id))
  {
    var r' := Append(r, id);
    var n := |r.docIds|;
    forall i | 0 <= i < |r'.docIds| && i < |r'.isDeleted| && !r'.isDeleted[i]
      ensures r'.docIds[i] in r'.idToOffset && r'.idToOffset[r'.docIds[i]] == i
    {
      if i < n {
        assert r.idToOffset[r.docIds[i]] == i;
      }
    }
  }
}
