/** Shared vocabulary of the model: optional values, results that carry the
    exceptions the searcher raises, and the vector type. */
module Common {

  /** A value that may be missing (Python's `None`). */
  datatype Option<+T> = None | Some(value: T)

  /** Either a value or the error the Python code would raise instead. */
  datatype Result<+T, +E> = Ok(value: T) | Err(error: E) {

    predicate IsFailure() {
      Err?
    }

    function PropagateFailure<U>(): Result<U, E>
      requires Err?
    {
      Err(error)
    }

    function Extract(): T
      requires Ok?
    {
      value
    }
  }

  /** The exceptions of the searcher core that the model keeps. */
  datatype Error =
    | EmptyDump                                  // `self._prefetch_data[0]` on an empty dump
    | RaggedVectors                              // `np.stack` or FAISS `add` on rows of another width
    | PretrainedIndexMismatch                    // one of the asserts on a pre-trained index file
    | DimensionMismatch(expected: nat, actual: nat)  // `_train` on a sample of the wrong width
    | NegativeSampleSize(size: int)              // `np.random.choice` with a negative size
    | IdsVectorsMismatch                         // the assert of `_append_vecs_and_ids`
    | IndexNotBuilt                              // `self._faiss_index` does not exist yet
    | IndexNotTrained                            // FAISS `add` on an index that still needs training

  /** An embedding; floating point is taken as real arithmetic. */
  type Vector = seq<real>

  /** `list(range(lo, hi))`. */
  function Range(lo: int, hi: int): (r: seq<int>)
    ensures |r| == if lo <= hi then hi - lo else 0
    ensures forall i :: 0 <= i < |r| ==> r[i] == lo + i
  {
    if lo < hi then seq(hi - lo, i => lo + i) else []
  }

  function Min(a: int, b: int): (m: int)
    ensures m <= a && m <= b && (m == a || m == b)
  {
    if a <= b then a else b
  }

  function Max(a: int, b: int): (m: int)
    ensures m >= a && m >= b && (m == a || m == b)
  {
    if a <= b then b else a
  }
}
