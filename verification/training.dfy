/** Training rules of the searcher: the width check of `_train` and the cap on
    the number of training points. The random draw of `np.random.choice` is a
    parameter: any sequence of distinct row indices of the requested length. */
module Training {
  import opened Common
  import opened SearcherState

  /** A stacked training array: `rows` of `cols` components each. */
  datatype Matrix = Matrix(rows: seq<Vector>, cols: nat)

  predicate WellFormed(m: Matrix) {
    forall i :: 0 <= i < |m.rows| ==> |m.rows[i]| == m.cols
  }

  /** `_train`: an unset dimension (`None` or 0, modelled as 0) is taken from
      the sample; a set one must equal the sample's column count. FAISS then
      trains the index on the sample. Returns the searcher's dimension and the
      trained index. */
  function Train(ix: FaissIndex, numDim: nat, data: Matrix): (r: Result<(nat, FaissIndex), Error>)
    ensures r.Ok? <==> numDim == 0 || numDim == data.cols
    ensures r.Ok? ==> r.value.0 == data.cols
    ensures r.Ok? ==> r.value.1 == ix.(trained := true, trainingSample := data.rows)
    ensures r.Err? ==> r.error == DimensionMismatch(numDim, data.cols)
  {
    var dim := if numDim == 0 then data.cols else numDim;
    if dim != data.cols then Err(DimensionMismatch(dim, data.cols))
    else Ok((dim, ix.(trained := true, trainingSample := data.rows)))
  }

  /** `max_num_training_points and max_num_training_points < n`: the cap is
      set (not `None`, not 0) and below the number of available rows. */
  predicate CapApplies(maxPoints: Option<int>, n: nat) {
    maxPoints.Some? && maxPoints.value != 0 && maxPoints.value < n
  }

  /** `choice` is a draw without replacement of `k` of the indices 0..n-1. */
  predicate IsDraw(choice: seq<nat>, n: nat, k: nat) {
    && |choice| == k
    && (forall i :: 0 <= i < k ==> choice[i] < n)
    && (forall i, j :: 0 <= i < j < k ==> choice[i] != choice[j])
  }

  /** `train_data[random_indices, :]`. */
  function Pick(rows: seq<Vector>, choice: seq<nat>): (p: seq<Vector>)
    requires forall i :: 0 <= i < |choice| ==> choice[i] < |rows|
    ensures |p| == |choice|
    ensures forall i :: 0 <= i < |choice| ==> p[i] == rows[choice[i]]
  {
    seq(|choice|, i requires 0 <= i < |choice| => rows[choice[i]])
  }

  /** Dropping one entry of a draw leaves a draw, from a smaller range if
      the dropped entry was the largest index. */
  lemma DrawWithout(choice: seq<nat>, n: nat, k: nat)
    requires IsDraw(choice, n + 1, |choice|) && k < |choice| && choice[k] == n
    ensures IsDraw(choice[..k] + choice[k + 1..], n, |choice| - 1)
  {
    var rest := choice[..k] + choice[k + 1..];
    forall i | 0 <= i < |rest|
      ensures rest[i] < n
    {
      if i < k { assert rest[i] == choice[i]; } else { assert rest[i] == choice[i + 1]; }
    }
    forall i, j | 0 <= i < j < |rest|
      ensures rest[i] != rest[j]
    {
      var i' := if i < k then i else i + 1;
      var j' := if j < k then j else j + 1;
      assert rest[i] == choice[i'] && rest[j] == choice[j'];
    }
  }

  /** Picking splits around any position of the draw. */
  lemma PickSplit(rows: seq<Vector>, choice: seq<nat>, k: nat)
    requires (forall i :: 0 <= i < |choice| ==> choice[i] < |rows|) && k < |choice|
    ensures Pick(rows, choice) == Pick(rows, choice[..k]) + [rows[choice[k]]] + Pick(rows, choice[k + 1..])
    ensures Pick(rows, choice[..k] + choice[k + 1..]) == Pick(rows, choice[..k]) + Pick(rows, choice[k + 1..])
  {
  }

  /** Picking with indices that all lie in a prefix of the rows reads only
      that prefix. */
  lemma PickFront(rows: seq<Vector>, choice: seq<nat>, n: nat)
    requires n <= |rows| && forall i :: 0 <= i < |choice| ==> choice[i] < n
    ensures Pick(rows, choice) == Pick(rows[..n], choice)
  {
  }

  /** Inserting the same element on both sides keeps a sub-multiset. */
  lemma InsertKeepsSub<T>(pre: seq<T>, post: seq<T>, x: T, front: seq<T>)
    requires multiset(pre + post) <= multiset(front)
    ensures multiset(pre + [x] + post) <= multiset(front + [x])
  {
    calc {
      multiset(pre + [x] + post);
      multiset(pre) + multiset{x} + multiset(post);
      multiset(pre + post) + multiset{x};
    }
  }

  /** Rows picked at distinct indices form a sub-multiset of the rows. */
  lemma {:induction false} PickDistinctIsSubMultiset(rows: seq<Vector>, choice: seq<nat>)
    requires IsDraw(choice, |rows|, |choice|)
    ensures multiset(Pick(rows, choice)) <= multiset(rows)
    decreases |rows|
  {
    if choice == [] {
      assert Pick(rows, choice) == [];
    } else {
      assert choice[0] < |rows|;
      var n := |rows| - 1;
      var front := rows[..n];
      assert rows == front + [rows[n]];
      if k :| 0 <= k < |choice| && choice[k] == n {
        DrawWithout(choice, n, k);
        var rest := choice[..k] + choice[k + 1..];
        PickDistinctIsSubMultiset(front, rest);
        PickFront(rows, rest, n);
        PickSplit(rows, choice, k);
        InsertKeepsSub(Pick(rows, choice[..k]), Pick(rows, choice[k + 1..]), rows[n], front);
      } else {
        PickFront(rows, choice, n);
        PickDistinctIsSubMultiset(front, choice);
      }
    }
  }

  /** The training-sample cap: when it applies, exactly `max_num_training_points`
      rows at distinct positions are kept (a negative cap makes
      `np.random.choice` raise); otherwise every row is kept. */
  function CapSample(rows: seq<Vector>, maxPoints: Option<int>, choice: seq<nat>): (r: Result<seq<Vector>, Error>)
    requires CapApplies(maxPoints, |rows|) && maxPoints.value > 0 ==> IsDraw(choice, |rows|, maxPoints.value)
    ensures !CapApplies(maxPoints, |rows|) ==> r == Ok(rows)
    ensures CapApplies(maxPoints, |rows|) && maxPoints.value < 0 ==> r == Err(NegativeSampleSize(maxPoints.value))
    ensures CapApplies(maxPoints, |rows|) && maxPoints.value > 0 ==>
      r.Ok? && |r.value| == maxPoints.value && multiset(r.value) <= multiset(rows)
  {
    if !CapApplies(maxPoints, |rows|) then Ok(rows)
    else if maxPoints.value < 0 then Err(NegativeSampleSize(maxPoints.value))
    else
      PickDistinctIsSubMultiset(rows, choice);
      Ok(Pick(rows, choice))
  }

  /** The kept rows still have the sample's width. */
  lemma CapSampleKeepsWidth(rows: seq<Vector>, maxPoints: Option<int>, choice: seq<nat>, cols: nat)
    requires CapApplies(maxPoints, |rows|) && maxPoints.value > 0 ==> IsDraw(choice, |rows|, maxPoints.value)
    requires WellFormed(Matrix(rows, cols))
    ensures CapSample(rows, maxPoints, choice).Ok? ==> WellFormed(Matrix(CapSample(rows, maxPoints, choice).value, cols))
  {
  }
}
