/** Applying a stream of deltas to a built searcher (`_add_delta`, with
    `_append_vecs_and_ids` underneath). FAISS cannot delete, so a delete
    only tombstones the id's offset, and an update tombstones it and appends
    the new vector at a fresh offset. */
module Deltas {
  import opened Common
  import opened IdRegistry
  import opened Metric
  import opened SearcherState

  /** One record `(id, vector bytes or None, last_updated)`; the timestamp is
      not used by `_add_delta`, so the model leaves it out. */
  datatype Delta = Delta(id: DocId, vec: Option<Vector>)

  /** What the searcher knows about one id: nothing, or its current offset,
      whether that offset is tombstoned, and the vector FAISS holds there. */
  datatype IdState = Unknown | Stored(offset: nat, deleted: bool, vec: Vector)

  ghost function StateOf(s: Searcher, id: DocId): IdState
    requires Consistent(s)
  {
    if id !in s.reg.idToOffset then Unknown
    else
      var o := s.reg.idToOffset[id];
      assert IsLastOffset(s.reg.docIds, id, o);
      Stored(o, s.reg.isDeleted[o], s.index.value.vectors[o])
  }

  /** The id is visible to search: known, and its offset not tombstoned. */
  ghost predicate Visible(st: IdState) {
    st.Stored? && !st.deleted
  }

  /** After a record has been applied, the id's state is what the record
      asked for: a delete leaves it invisible, an add or update leaves it
      visible with the record's vector. */
  ghost predicate Reflects(s: Searcher, d: Delta)
    requires Consistent(s)
  {
    match d.vec
    case None => !Visible(StateOf(s, d.id))
    case Some(v) => Visible(StateOf(s, d.id)) && StateOf(s, d.id).vec == v
  }

  /** `_append_vecs_and_ids`: one new offset per id, numbered from the current
      length, each with a cleared flag, and the vectors handed to FAISS. It
      fails on its assert, or when `_index` raises: no index yet, rows of
      another width, or an untrained index. A failure leaves the searcher as it
      was (the code as written does not; see `AppendVecsAndIdsAsWritten`). */
  function AppendVecsAndIds(s: Searcher, ids: seq<DocId>, vecs: seq<Vector>): (r: Result<Searcher, Error>)
    ensures r.Ok? <==> |ids| == |vecs| && s.index.Some? && RowsFit(s.index.value, vecs) && s.index.value.trained
    ensures |ids| != |vecs| ==> r == Err(IdsVectorsMismatch)
    ensures |ids| == |vecs| && s.index.None? ==> r == Err(IndexNotBuilt)
    ensures |ids| == |vecs| && s.index.Some? && !RowsFit(s.index.value, vecs) ==> r == Err(RaggedVectors)
    ensures |ids| == |vecs| && s.index.Some? && RowsFit(s.index.value, vecs) && !s.index.value.trained ==>
      r == Err(IndexNotTrained)
    ensures r.Ok? ==>
      && r.value.reg.docIds == s.reg.docIds + ids
      && r.value.reg.isDeleted == s.reg.isDeleted + Cleared(|ids|)
      && r.value.index == Some(s.index.value.(vectors := s.index.value.vectors + vecs))
    ensures r.Ok? && Consistent(s) ==> Consistent(r.value)
  {
    if |ids| != |vecs| then Err(IdsVectorsMismatch)
    else
      var ix :- AddChecked(s.index, vecs);
      Ok(Searcher(AppendAll(s.reg, ids), Some(ix)))
  }

  /** A freshly appended id is mapped to an offset past every old one: offsets
      are never reused. */
  lemma AppendedOffsetsAreFresh(s: Searcher, ids: seq<DocId>, vecs: seq<Vector>)
    requires Consistent(s) && AppendVecsAndIds(s, ids, vecs).Ok?
    ensures forall i :: 0 <= i < |ids| ==>
      var reg := AppendVecsAndIds(s, ids, vecs).value.reg;
      ids[i] in reg.idToOffset && reg.idToOffset[ids[i]] >= |s.reg.docIds| + i
  {
    var reg := AppendVecsAndIds(s, ids, vecs).value.reg;
    forall i | 0 <= i < |ids|
      ensures ids[i] in reg.idToOffset && reg.idToOffset[ids[i]] >= |s.reg.docIds| + i
    {
      var p := |s.reg.docIds| + i;
      assert reg.docIds[p] == ids[i];
      assert ids[i] in reg.docIds;
      assert IsLastOffset(reg.docIds, ids[i], reg.idToOffset[ids[i]]);
    }
  }

  /** The first half of `_add_delta`'s loop body: a known id has its current
      offset tombstoned; an unknown id changes nothing. */
  function Tombstone(s: Searcher, id: DocId): (t: Searcher)
    requires Consistent(s)
    ensures Consistent(t) && t.index == s.index
    ensures t.reg.docIds == s.reg.docIds && t.reg.idToOffset == s.reg.idToOffset
  {
    if id in s.reg.idToOffset then
      var o := s.reg.idToOffset[id];
      assert IsLastOffset(s.reg.docIds, id, o);
      s.(reg := MarkDeleted(s.reg, o))
    else s
  }

  /** A record FAISS's `add` refuses: it carries a vector, and either no
      index exists yet or the vector has another width than the index. */
  predicate Refused(index: Option<FaissIndex>, d: Delta) {
    d.vec.Some? && (index.None? || |d.vec.value| != index.value.dim)
  }

  /** One iteration of `_add_delta`: an unknown id without a vector is
      ignored, a known id without one is tombstoned, and a vector is appended
      at a fresh offset (after tombstoning the id's old offset, if any). It
      fails exactly on a refused record: a vector before the index exists,
      or a vector of another width. */
  function ApplyDelta(s: Searcher, d: Delta): (r: Result<Searcher, Error>)
    requires Consistent(s)
    ensures r.Err? <==> Refused(s.index, d)
    ensures r.Err? ==> r.error == if s.index.None? then IndexNotBuilt else RaggedVectors
    ensures r.Ok? ==> Consistent(r.value)
    ensures r.Ok? ==> |r.value.reg.docIds| == |s.reg.docIds| + (if d.vec.Some? then 1 else 0)
    ensures r.Ok? ==> r.value.index.None? == s.index.None?
    ensures r.Ok? && s.index.Some? ==> r.value.index.value.dim == s.index.value.dim
  {
    var t := Tombstone(s, d.id);
    match d.vec
    case None => Ok(t)
    case Some(v) =>
      assert t.index == s.index;
      if s.index.Some? then
        RowsFitOne(s.index.value, v);
        AppendVecsAndIds(t, [d.id], [v])
      else
        AppendVecsAndIds(t, [d.id], [v])
  }

  lemma ExtendsTransitive(a: Registry, b: Registry, c: Registry)
    requires Extends(a, b) && Extends(b, c)
    ensures Extends(a, c)
  {
    assert a.docIds == b.docIds[..|a.docIds|];
    assert b.docIds[..|a.docIds|] == c.docIds[..|b.docIds|][..|a.docIds|];
  }

  /** Tombstoning touches only the id's own entry, which becomes invisible. */
  lemma TombstoneEffect(s: Searcher, id: DocId)
    requires Consistent(s)
    ensures var t := Tombstone(s, id);
      && !Visible(StateOf(t, id))
      && (forall y :: y != id ==> StateOf(t, y) == StateOf(s, y))
      && Extends(s.reg, t.reg)
      && (LiveUnique(s.reg) ==> LiveUnique(t.reg))
  {
    var t := Tombstone(s, id);
    var m := s.reg.idToOffset;
    if id in m {
      var o := m[id];
      assert IsLastOffset(s.reg.docIds, id, o);
      forall y | y != id
        ensures StateOf(t, y) == StateOf(s, y)
      {
        if y in m {
          assert IsLastOffset(s.reg.docIds, y, m[y]);
        }
      }
    }
  }

  /** Appending one record's vector touches only that id, which becomes
      visible with the new vector at the next offset. */
  lemma AppendOneEffect(t: Searcher, id: DocId, v: Vector)
    requires Consistent(t) && t.index.Some? && |v| == t.index.value.dim
    ensures var t' := AppendVecsAndIds(t, [id], [v]).value;
      && StateOf(t', id) == Stored(|t.reg.docIds|, false, v)
      && (forall y :: y != id ==> StateOf(t', y) == StateOf(t, y))
      && Extends(t.reg, t'.reg)
  {
    RowsFitOne(t.index.value, v);
    var t' := AppendVecsAndIds(t, [id], [v]).value;
    assert t'.reg == Append(t.reg, id) by {
      assert AppendAll(t.reg, [id]) == AppendAll(Append(t.reg, id), []);
    }
    assert t'.index.value.vectors == t.index.value.vectors + [v];
    forall y | y != id
      ensures StateOf(t', y) == StateOf(t, y)
    {
      AppendLeavesOthers(t, t', id, v, y);
    }
    assert t'.index.value.vectors[|t.reg.docIds|] == v;
  }

  /** Another id keeps its offset, its flag and its vector across one append. */
  lemma AppendLeavesOthers(t: Searcher, t': Searcher, id: DocId, v: Vector, y: DocId)
    requires Consistent(t) && Consistent(t') && t.index.Some? && t'.index.Some?
    requires t'.reg == Append(t.reg, id) && t'.index.value.vectors == t.index.value.vectors + [v]
    requires y != id
    ensures StateOf(t', y) == StateOf(t, y)
  {
    var m := t.reg.idToOffset;
    if y in m {
      assert IsLastOffset(t.reg.docIds, y, m[y]);
      assert t'.index.value.vectors[m[y]] == t.index.value.vectors[m[y]];
    }
  }

  /** If the appended id was not visible before, no id is visible through two
      offsets afterwards. */
  lemma AppendOneKeepsLiveUnique(t: Searcher, id: DocId, v: Vector)
    requires Consistent(t) && t.index.Some? && |v| == t.index.value.dim
    requires LiveUnique(t.reg) && !Visible(StateOf(t, id))
    ensures LiveUnique(AppendVecsAndIds(t, [id], [v]).value.reg)
  {
    RowsFitOne(t.index.value, v);
    assert AppendVecsAndIds(t, [id], [v]).value.reg == Append(t.reg, id) by {
      assert AppendAll(t.reg, [id]) == AppendAll(Append(t.reg, id), []);
    }
    if id in t.reg.idToOffset {
      assert IsLastOffset(t.reg.docIds, id, t.reg.idToOffset[id]);
    }
    AppendKeepsLiveUnique(t.reg, id);
  }

  /** A record changes only its own id: every other id keeps its offset, its
      flag and its vector; the record's id ends up as the record asks; the
      registry only grows, no flag is cleared, and no id becomes visible
      through two offsets. */
  lemma ApplyDeltaEffect(s: Searcher, d: Delta)
    requires Consistent(s) && ApplyDelta(s, d).Ok?
    ensures var s' := ApplyDelta(s, d).value;
      && Reflects(s', d)
      && (forall y :: y != d.id ==> StateOf(s', y) == StateOf(s, y))
      && Extends(s.reg, s'.reg)
      && (LiveUnique(s.reg) ==> LiveUnique(s'.reg))
  {
    var t := Tombstone(s, d.id);
    TombstoneEffect(s, d.id);
    if d.vec.Some? {
      AppendOneEffect(t, d.id, d.vec.value);
      if LiveUnique(s.reg) {
        AppendOneKeepsLiveUnique(t, d.id, d.vec.value);
      }
      ExtendsTransitive(s.reg, t.reg, ApplyDelta(s, d).value.reg);
    }
  }

  /** The two delete cases field by field: an unknown id changes nothing; a
      known id gets its current offset tombstoned and nothing else changes,
      lengths included. */
  lemma DeleteCases(s: Searcher, id: DocId)
    requires Consistent(s)
    ensures id !in s.reg.idToOffset ==> ApplyDelta(s, Delta(id, None)) == Ok(s)
    ensures id in s.reg.idToOffset ==>
      var o := s.reg.idToOffset[id];
      o < |s.reg.isDeleted| &&
      ApplyDelta(s, Delta(id, None)) == Ok(s.(reg := s.reg.(isDeleted := s.reg.isDeleted[o := true])))
  {
    if id in s.reg.idToOffset {
      assert IsLastOffset(s.reg.docIds, id, s.reg.idToOffset[id]);
    }
  }

  /** An update of a known id field by field: the old offset is tombstoned,
      the id is appended at the next offset with a cleared flag, the
      dictionary is repointed to it, and FAISS receives the vector. */
  lemma UpdateKnown(s: Searcher, id: DocId, v: Vector)
    requires Consistent(s) && s.index.Some? && id in s.reg.idToOffset && |v| == s.index.value.dim
    ensures var o := s.reg.idToOffset[id];
      var n := |s.reg.docIds|;
      o < n &&
      ApplyDelta(s, Delta(id, Some(v))) ==
        Ok(Searcher(Registry(s.reg.docIds + [id], s.reg.idToOffset[id := n], s.reg.isDeleted[o := true] + [false]),
                    Some(Add(s.index.value, [v]))))
  {
    var o := s.reg.idToOffset[id];
    assert IsLastOffset(s.reg.docIds, id, o);
    var t := Tombstone(s, id);
    assert AppendAll(t.reg, [id]) == AppendAll(Append(t.reg, id), []);
  }

  /** Deleting an id twice is deleting it once. */
  lemma DeleteIsIdempotent(s: Searcher, id: DocId)
    requires Consistent(s)
    ensures var once := ApplyDelta(s, Delta(id, None));
      && once.Ok?
      && ApplyDelta(once.value, Delta(id, None)) == once
  {
    var once := ApplyDelta(s, Delta(id, None));
    if id in s.reg.idToOffset {
      var o := s.reg.idToOffset[id];
      assert once.value.reg.isDeleted[o := true] == once.value.reg.isDeleted;
    }
  }

  /** `size` after one record: an add raises it by one, a delete of a visible
      id lowers it by one, an update of a visible id leaves it, and an update
      of a deleted id brings it back. */
  lemma SizeAfterDelta(s: Searcher, d: Delta)
    requires Consistent(s) && ApplyDelta(s, d).Ok?
    ensures Size(ApplyDelta(s, d).value.reg) ==
      Size(s.reg) + (if d.vec.Some? then 1 else 0) - (if Visible(StateOf(s, d.id)) then 1 else 0)
  {
    var s' := ApplyDelta(s, d).value;
    if d.id in s.reg.idToOffset {
      var o := s.reg.idToOffset[d.id];
      DeletedCountMark(s.reg.isDeleted, o);
      if d.vec.Some? {
        DeletedCountAppendCleared(s.reg.isDeleted[o := true]);
      }
    } else if d.vec.Some? {
      DeletedCountAppendCleared(s.reg.isDeleted);
    }
  }

  /** The ids named by a sequence of records. */
  function DeltaIds(ds: seq<Delta>): (ids: set<DocId>)
    ensures forall j :: 0 <= j < |ds| ==> ds[j].id in ids
    ensures forall id :: id in ids ==> exists j :: 0 <= j < |ds| && ds[j].id == id
  {
    set j | 0 <= j < |ds| :: ds[j].id
  }

  lemma DeltaIdsAppend(ds: seq<Delta>, d: Delta)
    ensures DeltaIds(ds + [d]) == DeltaIds(ds) + {d.id}
  {
    var ds' := ds + [d];
    assert ds'[|ds|] == d;
    forall y | y in DeltaIds(ds)
      ensures y in DeltaIds(ds')
    {
      var j :| 0 <= j < |ds| && ds[j].id == y;
      assert ds'[j].id == y;
    }
  }

  /** `ds[j]` is the last record for its id. */
  predicate LastRecord(ds: seq<Delta>, j: int) {
    0 <= j < |ds| && forall k :: j < k < |ds| ==> ds[k].id != ds[j].id
  }

  /** `cur` is what applying the records `ds` to `s` leaves: the invariants
      hold, every id named in `ds` is as its last record asks, and every other
      id is as it was in `s`. */
  ghost predicate Applied(s: Searcher, cur: Searcher, ds: seq<Delta>) {
    && Consistent(s) && Consistent(cur)
    && Extends(s.reg, cur.reg)
    && (LiveUnique(s.reg) ==> LiveUnique(cur.reg))
    && (forall j :: LastRecord(ds, j) ==> Reflects(cur, ds[j]))
    && (forall y :: y !in DeltaIds(ds) ==> StateOf(cur, y) == StateOf(s, y))
  }

  lemma AppliedNothing(s: Searcher)
    requires Consistent(s)
    ensures Applied(s, s, [])
  {
    assert s.reg.docIds <= s.reg.docIds;
  }

  /** Applying one more record extends `Applied` by that record. */
  lemma AppliedStep(s: Searcher, cur: Searcher, ds: seq<Delta>, d: Delta)
    requires Applied(s, cur, ds) && ApplyDelta(cur, d).Ok?
    ensures Applied(s, ApplyDelta(cur, d).value, ds + [d])
  {
    var next := ApplyDelta(cur, d).value;
    var ds' := ds + [d];
    ApplyDeltaEffect(cur, d);
    ExtendsTransitive(s.reg, cur.reg, next.reg);
    forall j | LastRecord(ds', j)
      ensures Reflects(next, ds'[j])
    {
      LastRecordStep(ds, d, j);
    }
    DeltaIdsAppend(ds, d);
  }

  /** A last record of `ds + [d]` is `d` itself, or a last record of `ds`
      for another id. */
  lemma LastRecordStep(ds: seq<Delta>, d: Delta, j: int)
    requires LastRecord(ds + [d], j)
    ensures (ds + [d])[j] == if j == |ds| then d else ds[j]
    ensures j < |ds| ==> LastRecord(ds, j) && ds[j].id != d.id
  {
    var ds' := ds + [d];
    if j < |ds| {
      assert ds'[|ds|] == d;
      forall k | j < k < |ds|
        ensures ds[k].id != ds[j].id
      {
        assert ds'[k] == ds[k];
      }
    }
  }

  /** The records applied one after another, stopping at the first failure.
      No record changes whether an index exists or its width, so every
      failure is the same kind, and a stream without refused records does not
      fail. */
  function ApplyAll(s: Searcher, ds: seq<Delta>): (r: Result<Searcher, Error>)
    requires Consistent(s)
    ensures r.Ok? ==> Consistent(r.value) && r.value.index.None? == s.index.None?
    ensures r.Ok? && s.index.Some? ==> r.value.index.value.dim == s.index.value.dim
    ensures r.Err? ==> r.error == if s.index.None? then IndexNotBuilt else RaggedVectors
    ensures (forall j :: 0 <= j < |ds| ==> !Refused(s.index, ds[j])) ==> r.Ok?
    decreases |ds|
  {
    if ds == [] then Ok(s)
    else
      var t :- ApplyAll(s, ds[..|ds| - 1]);
      ApplyDelta(t, ds[|ds| - 1])
  }

  /** A run fails exactly when some record is refused. */
  lemma {:induction false} ApplyAllFails(s: Searcher, ds: seq<Delta>)
    requires Consistent(s)
    ensures ApplyAll(s, ds).Err? <==> exists j :: 0 <= j < |ds| && Refused(s.index, ds[j])
    decreases |ds|
  {
    if ds != [] {
      var n := |ds| - 1;
      var init := ds[..n];
      ApplyAllFails(s, init);
      if ApplyAll(s, init).Err? {
        var j :| 0 <= j < |init| && Refused(s.index, init[j]);
        assert ds[j] == init[j];
      } else if ApplyAll(s, ds).Err? {
        assert Refused(s.index, ds[n]);
      } else {
        forall j | 0 <= j < |ds|
          ensures !Refused(s.index, ds[j])
        {
          if j < n {
            assert ds[j] == init[j];
          }
        }
      }
    }
  }

  /** Whatever a successful run leaves is `Applied`: every id named in the
      stream as its last record asks, every other id untouched. */
  lemma {:induction false} ApplyAllApplied(s: Searcher, ds: seq<Delta>)
    requires Consistent(s)
    ensures ApplyAll(s, ds).Ok? ==> Applied(s, ApplyAll(s, ds).value, ds)
    decreases |ds|
  {
    if ds == [] {
      AppliedNothing(s);
    } else {
      var init, last := ds[..|ds| - 1], ds[|ds| - 1];
      assert init + [last] == ds;
      ApplyAllApplied(s, init);
      if ApplyAll(s, ds).Ok? {
        var t := ApplyAll(s, init).value;
        assert ApplyAll(s, ds) == ApplyDelta(t, last);
        AppliedStep(s, t, init, last);
      }
    }
  }

  /** The position of the first record FAISS refuses, or the stream's length
      when it refuses none. */
  function FirstRefused(index: Option<FaissIndex>, ds: seq<Delta>): (j: nat)
    ensures j <= |ds|
    ensures forall k :: 0 <= k < j ==> !Refused(index, ds[k])
    ensures j < |ds| ==> Refused(index, ds[j])
    decreases |ds|
  {
    if ds == [] then 0
    else if Refused(index, ds[0]) then 0
    else
      var j := FirstRefused(index, ds[1..]);
      assert forall k :: 1 <= k < 1 + j ==> ds[k] == ds[1..][k - 1];
      1 + j
  }

  /** `_add_delta`: the records in stream order, up to the first one FAISS
      refuses. When none is refused, every id named in the stream is in the
      state its LAST record asks for (the timestamp plays no part), every
      other id is untouched, and the registry invariants hold. Otherwise
      there is no rollback: the records before the refused one stay applied,
      and the refused one leaves what `ApplyDeltaAsWritten` says. */
  method ApplyDeltas(s: Searcher, deltas: seq<Delta>) returns (t: Searcher, err: Option<Error>)
    requires Consistent(s)
    ensures var j := FirstRefused(s.index, deltas);
      && ApplyAll(s, deltas[..j]).Ok?
      && (j == |deltas| ==> err.None? && ApplyAll(s, deltas) == Ok(t))
      && (j < |deltas| ==> (t, err) == ApplyDeltaAsWritten(ApplyAll(s, deltas[..j]).value, deltas[j]))
    ensures err.None? ==> Applied(s, t, deltas)
    ensures err.Some? <==> exists j :: 0 <= j < |deltas| && Refused(s.index, deltas[j])
    ensures err.Some? ==> err.value == if s.index.None? then IndexNotBuilt else RaggedVectors
  {
    var cur := s;
    var i := 0;
    assert deltas[..0] == [];
    while i < |deltas|
      invariant 0 <= i <= FirstRefused(s.index, deltas)
      invariant Consistent(cur) && ApplyAll(s, deltas[..i]) == Ok(cur)
    {
      var step := ApplyDeltaAsWritten(cur, deltas[i]);
      if step.1.Some? {
        StopsAtFirstRefused(s, deltas, i, cur);
        return step.0, step.1;
      }
      PassesAccepted(s, deltas, i, cur);
      cur := step.0;
      i := i + 1;
    }
    assert deltas[..i] == deltas;
    ApplyAllApplied(s, deltas);
    ApplyAllFails(s, deltas);
    return cur, None;
  }

  /** A refusal met after the records before it were applied is the first
      refusal of the stream, and raises the error the original index calls for. */
  lemma StopsAtFirstRefused(s: Searcher, ds: seq<Delta>, i: nat, cur: Searcher)
    requires Consistent(s) && i <= FirstRefused(s.index, ds) && i < |ds|
    requires ApplyAll(s, ds[..i]) == Ok(cur) && ApplyDeltaAsWritten(cur, ds[i]).1.Some?
    ensures i == FirstRefused(s.index, ds) && Refused(s.index, ds[i])
    ensures ApplyDeltaAsWritten(cur, ds[i]).1 == Some(if s.index.None? then IndexNotBuilt else RaggedVectors)
  {
    assert Refused(cur.index, ds[i]);
  }

  /** An accepted record extends the applied prefix by one. */
  lemma PassesAccepted(s: Searcher, ds: seq<Delta>, i: nat, cur: Searcher)
    requires Consistent(s) && i <= FirstRefused(s.index, ds) && i < |ds|
    requires ApplyAll(s, ds[..i]) == Ok(cur) && ApplyDeltaAsWritten(cur, ds[i]).1.None?
    ensures i + 1 <= FirstRefused(s.index, ds)
    ensures ApplyAll(s, ds[..i + 1]) == Ok(ApplyDeltaAsWritten(cur, ds[i]).0)
  {
    assert !Refused(cur.index, ds[i]);
    assert ds[..i + 1][..i] == ds[..i];
  }

  /* ---------- Failed appends, as written and as intended ---------- */

  /** `_append_vecs_and_ids` as written: the ids, the flags and the
      dictionary entries are recorded before `_index` runs, so when FAISS's
      `add` raises, the ids stay behind without vectors. The result is the
      searcher afterwards and the exception raised, if any. */
  function AppendVecsAndIdsAsWritten(s: Searcher, ids: seq<DocId>, vecs: seq<Vector>): (r: (Searcher, Option<Error>))
    ensures r.1.None? <==> AppendVecsAndIds(s, ids, vecs).Ok?
    ensures r.1.None? ==> r.0 == AppendVecsAndIds(s, ids, vecs).value
    ensures |ids| != |vecs| ==> r == (s, Some(IdsVectorsMismatch))
    ensures |ids| == |vecs| && r.1.Some? ==>
      && r.1 == Some(AppendVecsAndIds(s, ids, vecs).error)
      && r.0 == Searcher(AppendAll(s.reg, ids), s.index)
  {
    if |ids| != |vecs| then (s, Some(IdsVectorsMismatch))
    else
      var reg := AppendAll(s.reg, ids);
      match AddChecked(s.index, vecs)
      case Ok(ix) => (Searcher(reg, Some(ix)), None)
      case Err(e) => (Searcher(reg, s.index), Some(e))
  }

  /** One iteration of `_add_delta` as written: the tombstone and the
      recorded id survive a refused `add`. */
  function ApplyDeltaAsWritten(s: Searcher, d: Delta): (r: (Searcher, Option<Error>))
    requires Consistent(s)
    ensures r.1.None? <==> ApplyDelta(s, d).Ok?
    ensures r.1.None? ==> r.0 == ApplyDelta(s, d).value
    ensures r.1.Some? ==> ApplyDelta(s, d) == Err(r.1.value)
    ensures r.1.Some? ==> r.0.reg.docIds == s.reg.docIds + [d.id] && r.0.index == s.index
    ensures r.1.Some? ==> r.0 == Searcher(AppendAll(Tombstone(s, d.id).reg, [d.id]), s.index)
  {
    var t := Tombstone(s, d.id);
    match d.vec
    case None => (t, None)
    case Some(v) => AppendVecsAndIdsAsWritten(t, [d.id], [v])
  }

  /** A refused update of a visible id still tombstones its old offset, so
      no stored vector is searchable under the id any more, while the
      dictionary sends the id to an offset that holds no vector. */
  lemma RefusedUpdateHidesDocument(s: Searcher, d: Delta)
    requires Consistent(s) && LiveUnique(s.reg) && d.id in s.reg.idToOffset
    requires ApplyDeltaAsWritten(s, d).1.Some?
    ensures var t := ApplyDeltaAsWritten(s, d).0;
      && t.index.Some?
      && (forall o :: 0 <= o < |t.index.value.vectors| && t.reg.docIds[o] == d.id ==> t.reg.isDeleted[o])
      && d.id in t.reg.idToOffset && t.reg.idToOffset[d.id] == |t.index.value.vectors|
  {
    var t := ApplyDeltaAsWritten(s, d).0;
    var o0 := s.reg.idToOffset[d.id];
    assert IsLastOffset(s.reg.docIds, d.id, o0);
    var tomb := Tombstone(s, d.id);
    assert t.reg == Append(tomb.reg, d.id) by {
      assert AppendAll(tomb.reg, [d.id]) == AppendAll(Append(tomb.reg, d.id), []);
    }
    forall o | 0 <= o < |t.index.value.vectors| && t.reg.docIds[o] == d.id
      ensures t.reg.isDeleted[o]
    {
      assert s.reg.docIds[o] == d.id;
      if !s.reg.isDeleted[o] {
        assert s.reg.idToOffset[d.id] == o;
      }
    }
  }

  /** A searcher holding "a" in a trained two-wide index. */
  const OneDoc: Searcher :=
    Searcher(Registry(["a"], map["a" := 0], [false]), Some(FaissIndex(2, L2, true, [[1.0, 0.0]], [])))

  /** `OneDoc` after a refused record for "b": "b" holds offset 1, which no
      vector fills. */
  const AfterRefusedB: Searcher :=
    Searcher(Registry(["a", "b"], map["a" := 0, "b" := 1], [false, false]), OneDoc.index)

  /** A three-wide vector for the new id "b" is refused, but "b" keeps offset
      1 with no vector behind it. A two-wide vector for the next new id "c"
      is then accepted: FAISS stores it at offset 1, where the ids list names
      "b", while the dictionary sends "c" to offset 2. From then on a search
      that finds "c"'s vector reports "b". */
  lemma FailedAddLeavesIdBehind()
    ensures Consistent(OneDoc)
    ensures ApplyDeltaAsWritten(OneDoc, Delta("b", Some([1.0, 2.0, 3.0]))) == (AfterRefusedB, Some(RaggedVectors))
    ensures !Consistent(AfterRefusedB)
    ensures var r := AppendVecsAndIdsAsWritten(AfterRefusedB, ["c"], [[0.0, 1.0]]);
      && r.1.None?
      && r.0.index.value.vectors[1] == [0.0, 1.0]
      && r.0.reg.docIds[1] == "b"
      && r.0.reg.idToOffset["c"] == 2
  {
    OneDocRefusesB();
    assert |AfterRefusedB.index.value.vectors| != |AfterRefusedB.reg.docIds|;
    AfterRefusedBTakesC();
  }

  /** The second step of `FailedAddLeavesIdBehind`: the accepted record. */
  lemma AfterRefusedBTakesC()
    ensures var r := AppendVecsAndIdsAsWritten(AfterRefusedB, ["c"], [[0.0, 1.0]]);
      && r.1.None?
      && r.0.index.value.vectors[1] == [0.0, 1.0]
      && r.0.reg.docIds[1] == "b"
      && r.0.reg.idToOffset["c"] == 2
  {
    RowsFitOne(OneDoc.index.value, [0.0, 1.0]);
    var r := AppendVecsAndIdsAsWritten(AfterRefusedB, ["c"], [[0.0, 1.0]]);
    assert r.0.reg == AppendAll(AfterRefusedB.reg, ["c"]) == AppendAll(Append(AfterRefusedB.reg, "c"), []);
  }

  /** The first step of `FailedAddLeavesIdBehind`: the refused record. */
  lemma OneDocRefusesB()
    ensures Consistent(OneDoc)
    ensures ApplyDeltaAsWritten(OneDoc, Delta("b", Some([1.0, 2.0, 3.0]))) == (AfterRefusedB, Some(RaggedVectors))
  {
    assert IsLastOffset(OneDoc.reg.docIds, "a", 0);
    assert Tombstone(OneDoc, "b") == OneDoc;
    RowsFitOne(OneDoc.index.value, [1.0, 2.0, 3.0]);
    assert AppendAll(OneDoc.reg, ["b"]) == AppendAll(Append(OneDoc.reg, "b"), []);
    assert Append(OneDoc.reg, "b") == AfterRefusedB.reg;
  }

  /** One iteration of `_add_delta` as intended: a refused record leaves the
      searcher exactly as it was, so the searcher stays consistent whatever
      the stream holds. */
  function ApplyDeltaAtomic(s: Searcher, d: Delta): (r: (Searcher, Option<Error>))
    requires Consistent(s)
    ensures Consistent(r.0)
    ensures r.1.Some? <==> Refused(s.index, d)
    ensures r.1.Some? ==> r.0 == s
    ensures r.1.None? ==> Reflects(r.0, d) && Extends(s.reg, r.0.reg)
  {
    match ApplyDelta(s, d)
    case Ok(t) => ApplyDeltaEffect(s, d); (t, None)
    case Err(e) => (s, Some(e))
  }
}
