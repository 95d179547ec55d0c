/** Virtual-shard partitioning of the PostgreSQL storage (`_vshards_to_get`):
    the storage spreads its rows over `numVShards` virtual shards, and a
    snapshot for real shard `shardId` of `totalShards` reads a contiguous run
    of them. Python's floor division, modulo and list slicing (negative
    indices count from the end, out-of-range bounds are clamped) are written
    out. */
module VShards {
  import opened Common

  datatype VShardError =
    | ShardOutOfRange   // the `ValueError` of the guard
    | ZeroDivision      // `//` by a zero `total_shards`

  /** Python's `a // b`, rounding toward negative infinity. */
  function FloorDiv(a: int, b: int): (q: int)
    requires b != 0
    ensures b > 0 ==> q * b <= a < q * b + b
    ensures b < 0 ==> q * b >= a > q * b + b
  {
    if b > 0 then a / b else (-a) / (-b)
  }

  /** Python's `a % b`, which takes the sign of `b`. */
  function FloorMod(a: int, b: int): (m: int)
    requires b != 0
    ensures a == FloorDiv(a, b) * b + m
    ensures b > 0 ==> 0 <= m < b
    ensures b < 0 ==> b < m <= 0
  {
    a - FloorDiv(a, b) * b
  }

  /** Python's normalisation of a slice bound against a list of length `len`. */
  function Clamp(i: int, len: nat): (j: nat)
    ensures j <= len
    ensures 0 <= i <= len ==> j == i
    ensures i > len ==> j == len
    ensures i < 0 ==> j == Max(i + len, 0)
  {
    if i < 0 then (if i + len < 0 then 0 else i + len)
    else if i > len then len
    else i
  }

  /** Python's `xs[lo:hi]` (step 1). */
  function Slice<T>(xs: seq<T>, lo: int, hi: int): (r: seq<T>)
    ensures var a, b := Clamp(lo, |xs|), Clamp(hi, |xs|);
      |r| == if a < b then b - a else 0
    ensures forall k :: 0 <= k < |r| ==> r[k] == xs[Clamp(lo, |xs|) + k]
  {
    var a, b := Clamp(lo, |xs|), Clamp(hi, |xs|);
    if a < b then xs[a..b] else []
  }

  /** `_vshards_to_get` as written: the remainder handed to the last shard is
      `vshard_part % total_shards`. */
  function VShardsToGet(numVShards: int, shardId: int, totalShards: int): (r: Result<seq<int>, VShardError>)
    ensures shardId > totalShards - 1 ==> r == Err(ShardOutOfRange)
    ensures shardId <= totalShards - 1 && totalShards == 0 ==> r == Err(ZeroDivision)
    ensures r.Ok? <==> shardId <= totalShards - 1 && totalShards != 0
    ensures r.Ok? ==> Ascending(r.value) && forall k :: 0 <= k < |r.value| ==> 0 <= r.value[k] < numVShards
  {
    if shardId > totalShards - 1 then Err(ShardOutOfRange)
    else if totalShards == 0 then Err(ZeroDivision)
    else
      var part := FloorDiv(numVShards, totalShards);
      var remainder := FloorMod(part, totalShards);
      Ok(ShardSlice(numVShards, shardId, totalShards, part, remainder))
  }

  /** The slice a shard reads: `part` ids from `shardId * part`, and for the
      last shard `remainder` more. */
  function ShardSlice(numVShards: int, shardId: int, totalShards: int, part: int, remainder: int): (r: seq<int>)
    ensures Ascending(r)
    ensures forall k :: 0 <= k < |r| ==> 0 <= r[k] < numVShards
  {
    if shardId == totalShards - 1 then VShardSlice(numVShards, shardId * part, (shardId + 1) * part + remainder)
    else VShardSlice(numVShards, shardId * part, (shardId + 1) * part)
  }

  /** Strictly increasing. */
  predicate Ascending(xs: seq<int>) {
    forall i, j :: 0 <= i < j < |xs| ==> xs[i] < xs[j]
  }

  /** `list(range(numVShards))[lo:hi]`: the ids from the clamped `lo` up to
      the clamped `hi`. */
  function VShardSlice(numVShards: int, lo: int, hi: int): (r: seq<int>)
    ensures Ascending(r)
    ensures forall k :: 0 <= k < |r| ==> 0 <= r[k] < numVShards
    ensures numVShards >= 0 ==> r == Range(Clamp(lo, numVShards), Clamp(hi, numVShards))
  {
    var all := Range(0, numVShards);
    var r := Slice(all, lo, hi);
    assert forall k :: 0 <= k < |r| ==> r[k] == Clamp(lo, |all|) + k;
    r
  }

  lemma InRange(lo: int, hi: int, x: int)
    ensures x in Range(lo, hi) <==> lo <= x < hi
  {
    if lo <= x < hi {
      assert Range(lo, hi)[x - lo] == x;
    }
  }

  lemma MulMono(a: int, b: int, p: nat)
    requires a <= b
    ensures a * p <= b * p
  {
  }

  /** `totalShards` shares of `part` fit into `numVShards`. */
  lemma PartFits(numVShards: nat, totalShards: nat)
    requires totalShards > 0
    ensures totalShards * (numVShards / totalShards) + numVShards % totalShards == numVShards
    ensures FloorDiv(numVShards, totalShards) == numVShards / totalShards
    ensures FloorMod(numVShards / totalShards, totalShards) == (numVShards / totalShards) % totalShards
  {
  }

  /** A slice inside the bounds is the plain range. */
  lemma SliceInside(numVShards: nat, lo: int, hi: int)
    requires 0 <= lo <= numVShards && 0 <= hi
    ensures VShardSlice(numVShards, lo, hi) == Range(lo, Min(hi, numVShards))
  {
  }

  /** Where a valid shard's ids stop: `(shardId + 1) * part`, and for the
      last shard `remainder` more, cut off at `numVShards`. */
  function ShardEnd(numVShards: nat, shardId: nat, totalShards: nat, part: nat, remainder: nat): int {
    if shardId == totalShards - 1 then Min((shardId + 1) * part + remainder, numVShards)
    else (shardId + 1) * part
  }

  lemma ShardEndNonLast(numVShards: nat, shardId: nat, totalShards: nat, part: nat, remainder: nat)
    requires shardId < totalShards - 1
    ensures ShardEnd(numVShards, shardId, totalShards, part, remainder) == shardId * part + part
  {
    MulSucc(shardId, part);
  }

  /** For a valid shard id, and shares that fit, the slice is the plain range
      up to `ShardEnd`. */
  lemma ShardSliceIsRange(numVShards: nat, shardId: nat, totalShards: nat, part: nat, remainder: nat)
    requires shardId < totalShards && totalShards * part <= numVShards
    ensures ShardSlice(numVShards, shardId, totalShards, part, remainder) ==
      Range(shardId * part, ShardEnd(numVShards, shardId, totalShards, part, remainder))
  {
    var lo, hi := shardId * part, (shardId + 1) * part;
    MulMono(shardId, shardId + 1, part);
    MulMono(shardId + 1, totalShards, part);
    assert lo <= hi <= numVShards;
    if shardId == totalShards - 1 {
      SliceInside(numVShards, lo, hi + remainder);
    } else {
      SliceInside(numVShards, lo, hi);
    }
  }

  lemma ShardIsRange(numVShards: nat, shardId: nat, totalShards: nat)
    requires shardId < totalShards
    ensures var part := numVShards / totalShards;
      VShardsToGet(numVShards, shardId, totalShards) ==
        Ok(Range(shardId * part, ShardEnd(numVShards, shardId, totalShards, part, part % totalShards)))
  {
    PartFits(numVShards, totalShards);
    var part := numVShards / totalShards;
    ShardSliceIsRange(numVShards, shardId, totalShards, part, part % totalShards);
  }

  /** A shard other than the last receives exactly `part` consecutive ids
      starting at `shardId * part`. */
  lemma NonLastShard(numVShards: nat, shardId: nat, totalShards: nat)
    requires shardId < totalShards - 1
    ensures VShardsToGet(numVShards, shardId, totalShards) ==
      Ok(Range(shardId * (numVShards / totalShards), shardId * (numVShards / totalShards) + numVShards / totalShards))
    ensures |VShardsToGet(numVShards, shardId, totalShards).value| == numVShards / totalShards
  {
    var part := numVShards / totalShards;
    ShardEndNonLast(numVShards, shardId, totalShards, part, part % totalShards);
    RangeLength(shardId * part, part);
    ShardIsRange(numVShards, shardId, totalShards);
  }

  lemma RangeLength(lo: int, k: nat)
    ensures |Range(lo, lo + k)| == k
  {
  }

  /** The last shard receives the ids from `shardId * part` up to
      `(shardId + 1) * part + part % totalShards`, cut off at `numVShards`. */
  lemma LastShard(numVShards: nat, totalShards: nat)
    requires totalShards > 0
    ensures var part := numVShards / totalShards;
      var shardId := totalShards - 1;
      VShardsToGet(numVShards, shardId, totalShards) ==
        Ok(Range(shardId * part, Min((shardId + 1) * part + part % totalShards, numVShards)))
  {
    ShardIsRange(numVShards, totalShards - 1, totalShards);
  }

  /** Ranges of two different shards do not overlap. */
  lemma RangesDisjoint(numVShards: nat, totalShards: nat, part: nat, remainder: nat, a: nat, b: nat, x: int)
    requires a < b < totalShards
    ensures x in Range(a * part, ShardEnd(numVShards, a, totalShards, part, remainder)) ==>
      x !in Range(b * part, ShardEnd(numVShards, b, totalShards, part, remainder))
  {
    MulMono(a + 1, b, part);
    InRange(a * part, ShardEnd(numVShards, a, totalShards, part, remainder), x);
    InRange(b * part, ShardEnd(numVShards, b, totalShards, part, remainder), x);
  }

  /** Two different valid shards never share a virtual shard. */
  lemma ShardsDisjoint(numVShards: nat, a: nat, b: nat, totalShards: nat)
    requires a < b < totalShards
    ensures forall x :: x in VShardsToGet(numVShards, a, totalShards).value ==>
      x !in VShardsToGet(numVShards, b, totalShards).value
  {
    var part := numVShards / totalShards;
    ShardIsRange(numVShards, a, totalShards);
    ShardIsRange(numVShards, b, totalShards);
    forall x | x in VShardsToGet(numVShards, a, totalShards).value
      ensures x !in VShardsToGet(numVShards, b, totalShards).value
    {
      RangesDisjoint(numVShards, totalShards, part, part % totalShards, a, b, x);
    }
  }

  lemma MulSucc(a: int, p: int)
    ensures (a + 1) * p == a * p + p
  {
  }

  lemma DivBounds(x: nat, part: nat)
    requires part > 0
    ensures (x / part) * part <= x < (x / part) * part + part
  {
  }

  /** The shard whose range holds `x`, when the last range reaches `x`. */
  lemma CoveringShard(numVShards: nat, totalShards: nat, part: nat, remainder: nat, x: int) returns (s: nat)
    requires totalShards > 0 && 0 <= x < ShardEnd(numVShards, totalShards - 1, totalShards, part, remainder)
    ensures s < totalShards
    ensures x in Range(s * part, ShardEnd(numVShards, s, totalShards, part, remainder))
  {
    var last := totalShards - 1;
    if part == 0 {
      s := last;
      assert s * part == 0;
    } else {
      var q := x / part;
      DivBounds(x, part);
      if q >= last {
        s := last;
        MulMono(last, q, part);
      } else {
        s := q;
        ShardEndNonLast(numVShards, q, totalShards, part, remainder);
      }
    }
    InRange(s * part, ShardEnd(numVShards, s, totalShards, part, remainder), x);
  }

  /** `x` is read by some valid shard. */
  ghost predicate Assigned(numVShards: nat, totalShards: nat, x: int) {
    exists s :: 0 <= s < totalShards && VShardsToGet(numVShards, s, totalShards).Ok? &&
      x in VShardsToGet(numVShards, s, totalShards).value
  }

  /** If the last shard's end reaches `numVShards`, every virtual shard is
      read. */
  lemma CoveredWhenEndReaches(numVShards: nat, totalShards: nat)
    requires totalShards > 0
    requires var part := numVShards / totalShards;
      totalShards * part + part % totalShards >= numVShards
    ensures forall x :: 0 <= x < numVShards ==> Assigned(numVShards, totalShards, x)
  {
    var part := numVShards / totalShards;
    var rem := part % totalShards;
    MulSucc(totalShards - 1, part);
    assert ShardEnd(numVShards, totalShards - 1, totalShards, part, rem) == numVShards;
    forall x | 0 <= x < numVShards
      ensures Assigned(numVShards, totalShards, x)
    {
      var s := CoveringShard(numVShards, totalShards, part, rem, x);
      ShardIsRange(numVShards, s, totalShards);
    }
  }

  /** If the last shard's end falls short, the last virtual shard is read by
      no shard. */
  lemma LastUnassignedWhenShort(numVShards: nat, totalShards: nat)
    requires totalShards > 0
    requires var part := numVShards / totalShards;
      totalShards * part + part % totalShards < numVShards
    ensures !Assigned(numVShards, totalShards, numVShards - 1)
  {
    var part := numVShards / totalShards;
    var rem := part % totalShards;
    var x := numVShards - 1;
    forall s | 0 <= s < totalShards
      ensures x !in VShardsToGet(numVShards, s, totalShards).value
    {
      EndBelow(numVShards, totalShards, part, rem, s);
      InRange(s * part, ShardEnd(numVShards, s, totalShards, part, rem), x);
      ShardIsRange(numVShards, s, totalShards);
    }
  }

  /** No shard's range ends past the last shard's unclipped end. */
  lemma EndBelow(numVShards: nat, totalShards: nat, part: nat, remainder: nat, s: nat)
    requires s < totalShards && totalShards * part + remainder < numVShards
    ensures ShardEnd(numVShards, s, totalShards, part, remainder) <= totalShards * part + remainder
  {
    MulMono(s + 1, totalShards, part);
  }

  /** Every virtual shard is read by some shard exactly when the last shard's
      end, `totalShards * part + part % totalShards`, reaches `numVShards`. */
  lemma CoverageIff(numVShards: nat, totalShards: nat)
    requires totalShards > 0
    ensures var part := numVShards / totalShards;
      (forall x :: 0 <= x < numVShards ==> Assigned(numVShards, totalShards, x)) <==>
      totalShards * part + part % totalShards >= numVShards
  {
    var part := numVShards / totalShards;
    if totalShards * part + part % totalShards >= numVShards {
      CoveredWhenEndReaches(numVShards, totalShards);
    } else {
      LastUnassignedWhenShort(numVShards, totalShards);
    }
  }

  /** When `totalShards` divides `numVShards`, every virtual shard is read. */
  lemma CoverageWhenDivisible(numVShards: nat, totalShards: nat)
    requires totalShards > 0 && numVShards % totalShards == 0
    ensures forall x :: 0 <= x < numVShards ==> Assigned(numVShards, totalShards, x)
  {
    CoverageIff(numVShards, totalShards);
    PartFits(numVShards, totalShards);
  }

  /** The default 128 virtual shards over 3 shards: the last shard stops at
      126, so virtual shards 126 and 127 are read by no shard. */
  lemma DropsTail128Over3()
    ensures VShardsToGet(128, 0, 3) == Ok(Range(0, 42))
    ensures VShardsToGet(128, 1, 3) == Ok(Range(42, 84))
    ensures VShardsToGet(128, 2, 3) == Ok(Range(84, 126))
    ensures !Assigned(128, 3, 126) && !Assigned(128, 3, 127)
  {
    NonLastShard(128, 0, 3);
    NonLastShard(128, 1, 3);
    LastShard(128, 3);
    forall s, x | 0 <= s < 3 && 126 <= x < 128
      ensures x !in VShardsToGet(128, s, 3).value
    {
      InRange(42 * s, if s == 2 then 126 else 42 * (s + 1), x);
    }
  }

  /** The guard only checks the upper end: a negative shard id passes it, and
      Python's negative slicing hands it ids from the end of the range, among
      them ids that shard 1 reads too. */
  lemma NegativeShardAccepted()
    ensures VShardsToGet(128, -2, 3) == Ok(Range(44, 86))
    ensures 44 in VShardsToGet(128, -2, 3).value && 44 in VShardsToGet(128, 1, 3).value
  {
    NonLastShard(128, 1, 3);
    InRange(44, 86, 44);
    InRange(42, 84, 44);
  }

  /** The partition as evidently intended: shard ids outside
      `range(total_shards)` are refused, and the last shard takes the
      remainder of `numVShards` itself, `numVShards % totalShards`. */
  function VShardsToGetIntended(numVShards: nat, shardId: int, totalShards: int): (r: Result<seq<int>, VShardError>)
    ensures r.Ok? <==> 0 <= shardId < totalShards
    ensures r.Err? ==> r.error == ShardOutOfRange
    ensures r.Ok? ==> Ascending(r.value) && forall k :: 0 <= k < |r.value| ==> 0 <= r.value[k] < numVShards
  {
    if shardId < 0 || shardId > totalShards - 1 then Err(ShardOutOfRange)
    else Ok(ShardSlice(numVShards, shardId, totalShards, numVShards / totalShards, numVShards % totalShards))
  }

  /** `x` is read by some shard under the corrected partition. */
  ghost predicate AssignedIntended(numVShards: nat, totalShards: nat, x: int) {
    exists s :: 0 <= s < totalShards && VShardsToGetIntended(numVShards, s, totalShards).Ok? &&
      x in VShardsToGetIntended(numVShards, s, totalShards).value
  }

  /** The corrected partition reads every virtual shard, whatever the
      divisibility. */
  lemma IntendedCovers(numVShards: nat, totalShards: nat)
    requires totalShards > 0
    ensures forall x :: 0 <= x < numVShards ==> AssignedIntended(numVShards, totalShards, x)
  {
    var part := numVShards / totalShards;
    var rem := numVShards % totalShards;
    PartFits(numVShards, totalShards);
    MulSucc(totalShards - 1, part);
    assert ShardEnd(numVShards, totalShards - 1, totalShards, part, rem) == numVShards;
    forall x | 0 <= x < numVShards
      ensures AssignedIntended(numVShards, totalShards, x)
    {
      var s := CoveringShard(numVShards, totalShards, part, rem, x);
      ShardSliceIsRange(numVShards, s, totalShards, part, rem);
      assert VShardsToGetIntended(numVShards, s, totalShards) == Ok(ShardSlice(numVShards, s, totalShards, part, rem));
    }
  }

  /** Under the corrected partition two different shards share nothing. */
  lemma IntendedDisjoint(numVShards: nat, a: nat, b: nat, totalShards: nat)
    requires a < b < totalShards
    ensures forall x :: x in VShardsToGetIntended(numVShards, a, totalShards).value ==>
      x !in VShardsToGetIntended(numVShards, b, totalShards).value
  {
    var part := numVShards / totalShards;
    var rem := numVShards % totalShards;
    PartFits(numVShards, totalShards);
    ShardSliceIsRange(numVShards, a, totalShards, part, rem);
    ShardSliceIsRange(numVShards, b, totalShards, part, rem);
    forall x | x in VShardsToGetIntended(numVShards, a, totalShards).value
      ensures x !in VShardsToGetIntended(numVShards, b, totalShards).value
    {
      RangesDisjoint(numVShards, totalShards, part, rem, a, b, x);
    }
  }

  /** On valid shard ids the two versions differ only in the last shard, and
      not at all when `totalShards` divides `numVShards`. */
  lemma IntendedAgrees(numVShards: nat, shardId: nat, totalShards: nat)
    requires shardId < totalShards
    requires shardId < totalShards - 1 || numVShards % totalShards == 0
    ensures VShardsToGetIntended(numVShards, shardId, totalShards) == VShardsToGet(numVShards, shardId, totalShards)
  {
    var part := numVShards / totalShards;
    PartFits(numVShards, totalShards);
    if shardId == totalShards - 1 {
      ShardSliceIsRange(numVShards, shardId, totalShards, part, part % totalShards);
      ShardSliceIsRange(numVShards, shardId, totalShards, part, numVShards % totalShards);
      MulSucc(shardId, part);
      assert ShardEnd(numVShards, shardId, totalShards, part, part % totalShards) == numVShards;
      assert ShardEnd(numVShards, shardId, totalShards, part, numVShards % totalShards) == numVShards;
    }
  }
}
