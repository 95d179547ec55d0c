/** The identifier registry and tombstone table of the FAISS searcher: the
    external id stored at every offset of the backing index (`_doc_ids`), the
    id -> offset dictionary (`_doc_id_to_offset`) and one deletion flag per
    offset (`_is_deleted`). All three only ever grow by appending; a flag,
    once set, is never cleared. */
module IdRegistry {

  type DocId = string

  datatype Registry = Registry(docIds: seq<DocId>, idToOffset: map<DocId, nat>, isDeleted: seq<bool>)

  /** The lists and dictionary as the constructor creates them. */
  const Empty: Registry := Registry([], map[], [])

  /** `i` is the last position at which `id` occurs in `ids`. */
  predicate IsLastOffset(ids: seq<DocId>, id: DocId, i: int) {
    0 <= i < |ids| && ids[i] == id && forall j :: i < j < |ids| ==> ids[j] != id
  }

  /** The registry invariant: the parallel lists have equal length, the
      dictionary knows exactly the ids that were ever stored, and it maps each
      of them to the LAST offset at which it was stored. */
  ghost predicate Valid(r: Registry) {
    && |r.docIds| == |r.isDeleted|
    && (forall id :: id in r.idToOffset <==> id in r.docIds)
    && (forall id :: id in r.idToOffset ==> IsLastOffset(r.docIds, id, r.idToOffset[id]))
  }

  /** `{v: i for i, v in enumerate(ids)}`: a later position overwrites an
      earlier one for the same id. */
  function OffsetMap(ids: seq<DocId>): (m: map<DocId, nat>)
    ensures forall id :: id in m ==> m[id] < |ids| && ids[m[id]] == id
    decreases |ids|
  {
    if ids == [] then map[] else OffsetMap(ids[..|ids| - 1])[ids[|ids| - 1] := |ids| - 1]
  }

  /** The dictionary comprehension keeps, for every id, its last offset. */
  lemma {:induction false} OffsetMapIsLastOffset(ids: seq<DocId>)
    ensures forall id :: id in OffsetMap(ids) <==> id in ids
    ensures forall id :: id in OffsetMap(ids) ==> IsLastOffset(ids, id, OffsetMap(ids)[id])
    decreases |ids|
  {
    if ids != [] {
      var n := |ids| - 1;
      var prefix, x := ids[..n], ids[n];
      assert ids == prefix + [x];
      OffsetMapIsLastOffset(prefix);
      forall id | id in OffsetMap(ids)
        ensures IsLastOffset(ids, id, OffsetMap(ids)[id])
      {
        if id != x {
          assert id in OffsetMap(prefix);
          var k := OffsetMap(prefix)[id];
          assert IsLastOffset(prefix, id, k);
        }
      }
      forall id | id in ids
        ensures id in OffsetMap(ids)
      {
        if id != x {
          var k :| 0 <= k < |ids| && ids[k] == id;
          assert prefix[k] == id;
        }
      }
    }
  }

  /** A last offset is unique. */
  lemma LastOffsetUnique(ids: seq<DocId>, id: DocId, i: int, j: int)
    requires IsLastOffset(ids, id, i) && IsLastOffset(ids, id, j)
    ensures i == j
  {
  }

  /** The dictionary that `_load` re-derives from the stored id list is the
      registry's own dictionary exactly when the registry is valid: keeping
      the dictionary incrementally and rebuilding it on load agree. */
  lemma {:induction false} RebuiltMapAgrees(r: Registry)
    requires |r.docIds| == |r.isDeleted|
    ensures Valid(r) <==> r.idToOffset == OffsetMap(r.docIds)
  {
    OffsetMapIsLastOffset(r.docIds);
    var m := OffsetMap(r.docIds);
    if Valid(r) {
      assert r.idToOffset.Keys == m.Keys;
      forall id | id in m
        ensures r.idToOffset[id] == m[id]
      {
        LastOffsetUnique(r.docIds, id, r.idToOffset[id], m[id]);
      }
    }
  }

  /** The registry `_load` rebuilds from the pickled id list and flag list. */
  function Restore(ids: seq<DocId>, flags: seq<bool>): (r: Registry)
    ensures r.docIds == ids && r.isDeleted == flags
    ensures |ids| == |flags| ==> Valid(r)
  {
    var r := Registry(ids, OffsetMap(ids), flags);
    if |ids| == |flags| then RebuiltMapAgrees(r); r else r
  }

  /** Saving the two lists and restoring them gives back every valid registry. */
  lemma RestoreRoundTrip(r: Registry)
    requires Valid(r)
    ensures Restore(r.docIds, r.isDeleted) == r
  {
    RebuiltMapAgrees(r);
  }

  /** One step of `_append_vecs_and_ids`: the id goes to the next free offset,
      its flag starts cleared, and the dictionary is repointed to it. */
  function Append(r: Registry, id: DocId): (r': Registry)
    ensures r'.docIds == r.docIds + [id]
    ensures r'.isDeleted == r.isDeleted + [false]
    ensures id in r'.idToOffset && r'.idToOffset[id] == |r.docIds|
    ensures forall other :: other != id ==>
      (other in r'.idToOffset <==> other in r.idToOffset) &&
      (other in r.idToOffset ==> r'.idToOffset[other] == r.idToOffset[other])
    ensures Valid(r) ==> Valid(r')
  {
    AppendKeepsValid(r, id);
    Registry(r.docIds + [id], r.idToOffset[id := |r.docIds|], r.isDeleted + [false])
  }

  lemma AppendKeepsValid(r: Registry, id: DocId)
    ensures Valid(r) ==> Valid(Registry(r.docIds + [id], r.idToOffset[id := |r.docIds|], r.isDeleted + [false]))
  {
    var r' := Registry(r.docIds + [id], r.idToOffset[id := |r.docIds|], r.isDeleted + [false]);
    if Valid(r) {
      forall other | other in r'.idToOffset
        ensures IsLastOffset(r'.docIds, other, r'.idToOffset[other])
      {
        if other != id {
          assert IsLastOffset(r.docIds, other, r.idToOffset[other]);
        }
      }
      forall other | other in r'.docIds
        ensures other in r'.idToOffset
      {
        if other != id {
          var k :| 0 <= k < |r'.docIds| && r'.docIds[k] == other;
          assert r.docIds[k] == other;
        }
      }
    }
  }

  /** `n` cleared flags. */
  function Cleared(n: nat): (f: seq<bool>)
    ensures |f| == n && forall i :: 0 <= i < n ==> !f[i]
  {
    seq(n, _ => false)
  }

  /** The loop of `_append_vecs_and_ids` over a whole list of ids. */
  function AppendAll(r: Registry, ids: seq<DocId>): (r': Registry)
    ensures r'.docIds == r.docIds + ids
    ensures r'.isDeleted == r.isDeleted + Cleared(|ids|)
    ensures Valid(r) ==> Valid(r')
    decreases |ids|
  {
    if ids == [] then
      assert r.isDeleted + Cleared(0) == r.isDeleted;
      r
    else
      var r1 := Append(r, ids[0]);
      var r' := AppendAll(r1, ids[1..]);
      assert r.docIds + ids == r.docIds + [ids[0]] + ids[1..];
      assert r.isDeleted + Cleared(|ids|) == r.isDeleted + [false] + Cleared(|ids| - 1);
      r'
  }

  /** `self._is_deleted[idx] = 1`. */
  function MarkDeleted(r: Registry, offset: nat): (r': Registry)
    requires offset < |r.isDeleted|
    ensures r'.docIds == r.docIds && r'.idToOffset == r.idToOffset
    ensures |r'.isDeleted| == |r.isDeleted| && r'.isDeleted[offset]
    ensures forall i :: 0 <= i < |r.isDeleted| && i != offset ==> r'.isDeleted[i] == r.isDeleted[i]
    ensures Valid(r) ==> Valid(r')
  {
    r.(isDeleted := r.isDeleted[offset := true])
  }

  /** `sum(self._is_deleted)`. */
  function DeletedCount(flags: seq<bool>): (n: nat)
    ensures n <= |flags|
    decreases |flags|
  {
    if flags == [] then 0
    else DeletedCount(flags[..|flags| - 1]) + (if flags[|flags| - 1] then 1 else 0)
  }

  /** The offsets whose flag is set. */
  function TombstonedOffsets(flags: seq<bool>): set<int> {
    set i | 0 <= i < |flags| && flags[i]
  }

  /** The offsets whose flag is clear. */
  function LiveOffsets(flags: seq<bool>): set<int> {
    set i | 0 <= i < |flags| && !flags[i]
  }

  /** The counter is the number of tombstoned offsets, and the remaining
      offsets are exactly the live ones. */
  lemma {:induction false} DeletedCountCountsTombstones(flags: seq<bool>)
    ensures DeletedCount(flags) == |TombstonedOffsets(flags)|
    ensures |flags| - DeletedCount(flags) == |LiveOffsets(flags)|
    decreases |flags|
  {
    if flags != [] {
      var n := |flags| - 1;
      var prefix := flags[..n];
      DeletedCountCountsTombstones(prefix);
      if flags[n] {
        assert TombstonedOffsets(flags) == TombstonedOffsets(prefix) + {n};
        assert LiveOffsets(flags) == LiveOffsets(prefix);
      } else {
        assert TombstonedOffsets(flags) == TombstonedOffsets(prefix);
        assert LiveOffsets(flags) == LiveOffsets(prefix) + {n};
      }
    }
  }

  /** `is_deleted(idx)`. */
  function IsDeleted(r: Registry, offset: nat): (b: bool)
    requires offset < |r.isDeleted|
    ensures b <==> offset in TombstonedOffsets(r.isDeleted)
    ensures !b <==> offset in LiveOffsets(r.isDeleted)
  {
    r.isDeleted[offset]
  }

  /** `size`: stored offsets minus tombstoned ones, i.e. the live offsets. */
  function Size(r: Registry): (n: int)
    ensures |r.docIds| == |r.isDeleted| ==> n == |LiveOffsets(r.isDeleted)|
  {
    DeletedCountCountsTombstones(r.isDeleted);
    |r.docIds| - DeletedCount(r.isDeleted)
  }

  /** Flags only ever go from cleared to set, and the list only grows. */
  ghost predicate TombstonesKept(before: seq<bool>, after: seq<bool>) {
    |before| <= |after| && forall i :: 0 <= i < |before| && before[i] ==> after[i]
  }

  /** `after` grew out of `before` by appending and tombstoning: no offset
      is reused and no flag is cleared. */
  ghost predicate Extends(before: Registry, after: Registry) {
    && before.docIds <= after.docIds
    && TombstonesKept(before.isDeleted, after.isDeleted)
  }

  /** Tombstoning one more offset adds one to the counter, unless it was
      already tombstoned. */
  lemma {:induction false} DeletedCountMark(flags: seq<bool>, offset: nat)
    requires offset < |flags|
    ensures DeletedCount(flags[offset := true]) == DeletedCount(flags) + (if flags[offset] then 0 else 1)
  {
    DeletedCountCountsTombstones(flags);
    DeletedCountCountsTombstones(flags[offset := true]);
    if flags[offset] {
      assert TombstonedOffsets(flags[offset := true]) == TombstonedOffsets(flags);
    } else {
      assert TombstonedOffsets(flags[offset := true]) == TombstonedOffsets(flags) + {offset as int};
    }
  }

  /** Appending cleared flags leaves the counter alone. */
  lemma {:induction false} DeletedCountAppendCleared(flags: seq<bool>)
    ensures DeletedCount(flags + [false]) == DeletedCount(flags)
  {
    assert (flags + [false])[..|flags|] == flags;
  }
}
