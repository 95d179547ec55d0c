/** The query post-processing of `search`: FAISS is asked for `top_k` plus the
    number of tombstones, tombstoned offsets are skipped, the rest become
    matches with converted scores, and each query stops at `top_k` matches.
    FAISS's own search is an oracle passed in as a function. */
module Query {
  import opened Common
  import opened IdRegistry
  import opened Metric
  import opened SearcherState

  /** One FAISS hit: an offset into the index and its raw distance. */
  datatype Candidate = Candidate(offset: int, dist: real)

  /** A match document: the stored id and its score under the metric's name. */
  datatype Match = Match(id: DocId, scoreName: string, score: real)

  /** What `search` leaves behind: nothing when no index exists yet; otherwise
      the number of candidates requested from FAISS and the matches of each
      query. */
  datatype SearchResult = NotBuilt | Answered(requestedK: int, matches: seq<seq<Match>>)

  /** A hit FAISS may return for this registry: a stored offset whose score is
      defined. */
  predicate Usable(r: Registry, name: string, isDistance: bool, c: Candidate) {
    0 <= c.offset < |r.docIds| && c.offset < |r.isDeleted| && ScoreDefined(name, isDistance, c.dist)
  }

  predicate Fits(r: Registry, name: string, isDistance: bool, cs: seq<Candidate>) {
    forall i :: 0 <= i < |cs| ==> Usable(r, name, isDistance, cs[i])
  }

  /** The hits whose offset is not tombstoned, in FAISS order. */
  function LiveCandidates(r: Registry, name: string, isDistance: bool, cs: seq<Candidate>): (live: seq<Candidate>)
    requires Fits(r, name, isDistance, cs)
    ensures |live| <= |cs|
    ensures Fits(r, name, isDistance, live)
    decreases |cs|
  {
    if cs == [] then []
    else
      var c := cs[|cs| - 1];
      LiveCandidates(r, name, isDistance, cs[..|cs| - 1]) + (if r.isDeleted[c.offset] then [] else [c])
  }

  /** The match document built for one hit: the id stored at the hit's
      offset, scored under the metric's name. An L2 similarity of a
      non-negative distance lies in (0, 1]. */
  function ToMatch(r: Registry, name: string, isDistance: bool, c: Candidate): (m: Match)
    requires Usable(r, name, isDistance, c)
    ensures m.id == r.docIds[c.offset] && m.scoreName == name
    ensures MetricTypeOf(name) == L2 && !isDistance && c.dist >= 0.0 ==> 0.0 < m.score <= 1.0
    ensures MetricTypeOf(name) == L2 && isDistance ==> m.score == c.dist
  {
    if MetricTypeOf(name) == L2 && !isDistance && c.dist >= 0.0 then
      L2SimilarityRange(name, c.dist);
      Match(r.docIds[c.offset], name, Score(name, isDistance, c.dist))
    else
      Match(r.docIds[c.offset], name, Score(name, isDistance, c.dist))
  }

  function MatchesOf(r: Registry, name: string, isDistance: bool, cs: seq<Candidate>): (ms: seq<Match>)
    requires Fits(r, name, isDistance, cs)
    ensures |ms| == |cs|
  {
    seq(|cs|, i requires 0 <= i < |cs| => ToMatch(r, name, isDistance, cs[i]))
  }

  /** The loop appends before it compares the count with `top_k`, so a
      `top_k` below one still lets the first live hit through. */
  function Limit(topK: int): (k: nat)
    ensures k >= 1 && (topK >= 1 ==> k == topK)
  {
    if topK >= 1 then topK else 1
  }

  function Take<T>(s: seq<T>, k: nat): (t: seq<T>)
    ensures |t| == Min(|s|, k) && t <= s
  {
    if |s| <= k then s else s[..k]
  }

  /** Reference definition of one query's matches: the first `Limit(top_k)`
      live hits, converted. */
  function QueryMatches(r: Registry, name: string, isDistance: bool, cs: seq<Candidate>, topK: int): (ms: seq<Match>)
    requires Fits(r, name, isDistance, cs)
    ensures |ms| <= Limit(topK) && |ms| <= |cs|
  {
    Take(MatchesOf(r, name, isDistance, LiveCandidates(r, name, isDistance, cs)), Limit(topK))
  }

  /** A hit survives the filter exactly when it is among FAISS's hits and its
      offset is not tombstoned. */
  lemma {:induction false} LiveCandidatesMembers(r: Registry, name: string, isDistance: bool, cs: seq<Candidate>)
    requires Fits(r, name, isDistance, cs)
    ensures forall c :: c in LiveCandidates(r, name, isDistance, cs) <==>
      c in cs && 0 <= c.offset < |r.isDeleted| && !r.isDeleted[c.offset]
    decreases |cs|
  {
    if cs != [] {
      var init := cs[..|cs| - 1];
      LiveCandidatesMembers(r, name, isDistance, init);
      assert cs == init + [cs[|cs| - 1]];
    }
  }

  /** Filtering a prefix of the hits yields a prefix of the filtered hits. */
  lemma {:induction false} LiveCandidatesPrefix(r: Registry, name: string, isDistance: bool, cs: seq<Candidate>, j: nat)
    requires Fits(r, name, isDistance, cs) && j <= |cs|
    ensures LiveCandidates(r, name, isDistance, cs[..j]) <= LiveCandidates(r, name, isDistance, cs)
    decreases |cs| - j
  {
    if j < |cs| {
      LiveCandidatesPrefix(r, name, isDistance, cs, j + 1);
      assert cs[..j + 1][..j] == cs[..j];
    } else {
      assert cs[..j] == cs;
    }
  }

  /** Filtering one more hit appends it unless it is tombstoned. */
  lemma LiveStep(r: Registry, name: string, isDistance: bool, cs: seq<Candidate>, i: nat)
    requires Fits(r, name, isDistance, cs) && i < |cs|
    ensures LiveCandidates(r, name, isDistance, cs[..i + 1]) ==
      LiveCandidates(r, name, isDistance, cs[..i]) + (if r.isDeleted[cs[i].offset] then [] else [cs[i]])
  {
    assert cs[..i + 1][..i] == cs[..i];
  }

  lemma MatchesOfSnoc(r: Registry, name: string, isDistance: bool, cs: seq<Candidate>, c: Candidate)
    requires Fits(r, name, isDistance, cs) && Usable(r, name, isDistance, c)
    ensures Fits(r, name, isDistance, cs + [c])
    ensures MatchesOf(r, name, isDistance, cs + [c]) == MatchesOf(r, name, isDistance, cs) + [ToMatch(r, name, isDistance, c)]
  {
    var cs' := cs + [c];
    assert forall i :: 0 <= i < |cs| ==> cs'[i] == cs[i];
  }

  /** Once the first `j` hits give `Limit(top_k)` matches, they are the
      answer. */
  lemma FullPrefixAnswers(r: Registry, name: string, isDistance: bool, cs: seq<Candidate>, j: nat, topK: int)
    requires Fits(r, name, isDistance, cs) && j <= |cs|
    requires |LiveCandidates(r, name, isDistance, cs[..j])| == Limit(topK)
    ensures QueryMatches(r, name, isDistance, cs, topK) ==
      MatchesOf(r, name, isDistance, LiveCandidates(r, name, isDistance, cs[..j]))
  {
    var p := LiveCandidates(r, name, isDistance, cs[..j]);
    var full := LiveCandidates(r, name, isDistance, cs);
    LiveCandidatesPrefix(r, name, isDistance, cs, j);
    var mp, mf := MatchesOf(r, name, isDistance, p), MatchesOf(r, name, isDistance, full);
    assert forall k :: 0 <= k < |p| ==> p[k] == full[k];
    assert forall k :: 0 <= k < |p| ==> mp[k] == mf[k];
  }

  /** One iteration of the loop: the matches of the first `i + 1` hits are
      those of the first `i`, plus one for hit `i` unless it is tombstoned. */
  lemma CollectStep(r: Registry, name: string, isDistance: bool, cs: seq<Candidate>, i: nat)
    requires Fits(r, name, isDistance, cs) && i < |cs|
    ensures MatchesOf(r, name, isDistance, LiveCandidates(r, name, isDistance, cs[..i + 1])) ==
      MatchesOf(r, name, isDistance, LiveCandidates(r, name, isDistance, cs[..i])) +
      (if r.isDeleted[cs[i].offset] then [] else [ToMatch(r, name, isDistance, cs[i])])
  {
    LiveStep(r, name, isDistance, cs, i);
    var prev := LiveCandidates(r, name, isDistance, cs[..i]);
    if !r.isDeleted[cs[i].offset] {
      MatchesOfSnoc(r, name, isDistance, prev, cs[i]);
    }
  }

  /** When all hits give fewer than `Limit(top_k)` matches, they are all the
      answer. */
  lemma ShortAnswers(r: Registry, name: string, isDistance: bool, cs: seq<Candidate>, topK: int)
    requires Fits(r, name, isDistance, cs)
    requires |LiveCandidates(r, name, isDistance, cs[..|cs|])| < Limit(topK)
    ensures QueryMatches(r, name, isDistance, cs, topK) ==
      MatchesOf(r, name, isDistance, LiveCandidates(r, name, isDistance, cs[..|cs|]))
  {
    assert cs[..|cs|] == cs;
  }

  /** One query's loop in `search`: skip tombstoned hits, append a match for
      every other hit, and stop once `top_k` matches are collected. */
  method CollectMatches(r: Registry, name: string, isDistance: bool, cs: seq<Candidate>, topK: int)
    returns (ms: seq<Match>)
    requires Fits(r, name, isDistance, cs)
    ensures ms == QueryMatches(r, name, isDistance, cs, topK)
  {
    ms := [];
    var count := 0;
    var i := 0;
    assert cs[..0] == [];
    while i < |cs|
      invariant 0 <= i <= |cs|
      invariant ms == MatchesOf(r, name, isDistance, LiveCandidates(r, name, isDistance, cs[..i]))
      invariant count == |ms| < Limit(topK)
    {
      var c := cs[i];
      CollectStep(r, name, isDistance, cs, i);
      if IsDeleted(r, c.offset) {
        i := i + 1;
        continue;
      }
      ms := ms + [ToMatch(r, name, isDistance, c)];
      count := count + 1;
      if count >= topK {
        FullPrefixAnswers(r, name, isDistance, cs, i + 1, topK);
        return;
      }
      i := i + 1;
    }
    ShortAnswers(r, name, isDistance, cs, topK);
  }

  /** FAISS's answer for the whole batch: one row of usable hits per query. */
  predicate AnswerFits(r: Registry, name: string, isDistance: bool, rows: seq<seq<Candidate>>, queries: nat) {
    |rows| == queries && forall q :: 0 <= q < queries ==> Fits(r, name, isDistance, rows[q])
  }

  /** `search`: without an index nothing happens. Otherwise FAISS is asked
      for `top_k + deleted_count` hits per query, and each query receives the
      reference matches of its row. */
  method Search(s: Searcher, queries: seq<Vector>, topK: int, name: string, isDistance: bool,
                oracle: (seq<Vector>, int) -> seq<seq<Candidate>>)
    returns (res: SearchResult)
    requires Consistent(s)
    requires s.index.Some? ==>
      AnswerFits(s.reg, name, isDistance, oracle(queries, topK + DeletedCount(s.reg.isDeleted)), |queries|)
    ensures res.NotBuilt? <==> s.index.None?
    ensures res.Answered? ==>
      && res.requestedK == topK + DeletedCount(s.reg.isDeleted)
      && |res.matches| == |queries|
      && forall q :: 0 <= q < |queries| ==>
           res.matches[q] == QueryMatches(s.reg, name, isDistance, oracle(queries, res.requestedK)[q], topK)
  {
    if s.index.None? {
      return NotBuilt;
    }
    var expandTopK := topK + DeletedCount(s.reg.isDeleted);
    var rows := oracle(queries, expandTopK);
    var all: seq<seq<Match>> := [];
    var q := 0;
    while q < |queries|
      invariant 0 <= q <= |queries|
      invariant |all| == q
      invariant forall p :: 0 <= p < q ==> all[p] == QueryMatches(s.reg, name, isDistance, rows[p], topK)
    {
      var ms := CollectMatches(s.reg, name, isDistance, rows[q], topK);
      all := all + [ms];
      q := q + 1;
    }
    return Answered(expandTopK, all);
  }

  /** The offsets FAISS returned. */
  function OffsetsOf(cs: seq<Candidate>): set<int> {
    set c | c in cs :: c.offset
  }

  /** No tombstoned offset reaches the caller: every match names an id that
      is visible, through an offset FAISS returned. */
  lemma TombstonesExcluded(r: Registry, name: string, isDistance: bool, cs: seq<Candidate>, topK: int)
    requires Valid(r) && LiveUnique(r) && Fits(r, name, isDistance, cs)
    ensures forall m :: m in QueryMatches(r, name, isDistance, cs, topK) ==>
      IsLive(r, m.id) && r.idToOffset[m.id] in OffsetsOf(cs)
  {
    var live := LiveCandidates(r, name, isDistance, cs);
    LiveCandidatesMembers(r, name, isDistance, cs);
    forall m | m in QueryMatches(r, name, isDistance, cs, topK)
      ensures IsLive(r, m.id) && r.idToOffset[m.id] in OffsetsOf(cs)
    {
      var i :| 0 <= i < |MatchesOf(r, name, isDistance, live)| && MatchesOf(r, name, isDistance, live)[i] == m;
      var c := live[i];
      assert c in live;
      assert r.idToOffset[m.id] == c.offset;
    }
  }

  /** FAISS's order: each hit ranks at least as well as every later one. */
  predicate Ranked(m: MetricType, cs: seq<Candidate>) {
    forall i, j :: 0 <= i < j < |cs| ==> RanksBefore(m, cs[i].dist, cs[j].dist)
  }

  lemma {:induction false} LiveCandidatesRanked(r: Registry, name: string, isDistance: bool, cs: seq<Candidate>)
    requires Fits(r, name, isDistance, cs) && Ranked(MetricTypeOf(name), cs)
    ensures Ranked(MetricTypeOf(name), LiveCandidates(r, name, isDistance, cs))
    decreases |cs|
  {
    if cs != [] {
      var m := MetricTypeOf(name);
      var n := |cs| - 1;
      var init := cs[..n];
      LiveCandidatesRanked(r, name, isDistance, init);
      LiveCandidatesMembers(r, name, isDistance, init);
      var prev := LiveCandidates(r, name, isDistance, init);
      var live := LiveCandidates(r, name, isDistance, cs);
      assert live == prev + (if r.isDeleted[cs[n].offset] then [] else [cs[n]]);
      forall i, j | 0 <= i < j < |live|
        ensures RanksBefore(m, live[i].dist, live[j].dist)
      {
        if j >= |prev| {
          assert live[i] == prev[i] && prev[i] in init;
          var k :| 0 <= k < n && init[k] == prev[i];
          assert cs[k] == live[i] && live[j] == cs[n];
        } else {
          assert live[i] == prev[i] && live[j] == prev[j];
        }
      }
    }
  }

  /** Matches come out in FAISS's order, so their scores are monotone:
      ascending distances, or descending similarities. */
  lemma MatchesRanked(r: Registry, name: string, isDistance: bool, cs: seq<Candidate>, topK: int)
    requires Fits(r, name, isDistance, cs) && Ranked(MetricTypeOf(name), cs)
    ensures var ms := QueryMatches(r, name, isDistance, cs, topK);
      forall i, j :: 0 <= i < j < |ms| ==>
        (isDistance ==> ms[i].score <= ms[j].score) && (!isDistance ==> ms[i].score >= ms[j].score)
  {
    var live := LiveCandidates(r, name, isDistance, cs);
    LiveCandidatesRanked(r, name, isDistance, cs);
    var ms := QueryMatches(r, name, isDistance, cs, topK);
    forall i, j | 0 <= i < j < |ms|
      ensures (isDistance ==> ms[i].score <= ms[j].score) && (!isDistance ==> ms[i].score >= ms[j].score)
    {
      assert ms[i] == ToMatch(r, name, isDistance, live[i]);
      assert ms[j] == ToMatch(r, name, isDistance, live[j]);
      ScorePreservesRank(name, isDistance, live[i].dist, live[j].dist);
    }
  }

  /** FAISS returned each offset at most once. */
  predicate DistinctOffsets(cs: seq<Candidate>) {
    forall i, j :: 0 <= i < j < |cs| ==> cs[i].offset != cs[j].offset
  }

  lemma OffsetsOfAppend(cs: seq<Candidate>, c: Candidate)
    ensures OffsetsOf(cs + [c]) == OffsetsOf(cs) + {c.offset}
  {
    assert forall x :: x in cs + [c] <==> x in cs || x == c;
  }

  lemma IntersectStep(a: set<int>, live: set<int>, x: int)
    requires x !in a
    ensures |(a + {x}) * live| == |a * live| + (if x in live then 1 else 0)
  {
    if x in live {
      assert (a + {x}) * live == a * live + {x};
    } else {
      assert (a + {x}) * live == a * live;
    }
  }

  lemma DistinctFresh(cs: seq<Candidate>)
    requires cs != [] && DistinctOffsets(cs)
    ensures cs[|cs| - 1].offset !in OffsetsOf(cs[..|cs| - 1])
    ensures DistinctOffsets(cs[..|cs| - 1])
  {
    var n := |cs| - 1;
    forall x | x in cs[..n]
      ensures x.offset != cs[n].offset
    {
      var k :| 0 <= k < n && cs[..n][k] == x;
    }
  }

  /** With distinct offsets, the live hits are as many as the returned
      offsets that are live. */
  lemma {:induction false} LiveCount(r: Registry, name: string, isDistance: bool, cs: seq<Candidate>)
    requires Fits(r, name, isDistance, cs) && DistinctOffsets(cs)
    ensures |OffsetsOf(cs)| == |cs|
    ensures |LiveCandidates(r, name, isDistance, cs)| == |OffsetsOf(cs) * LiveOffsets(r.isDeleted)|
    decreases |cs|
  {
    if cs == [] {
      assert OffsetsOf(cs) == {};
    } else {
      var n := |cs| - 1;
      var init := cs[..n];
      var c := cs[n];
      DistinctFresh(cs);
      LiveCount(r, name, isDistance, init);
      assert cs == init + [c];
      OffsetsOfAppend(init, c);
      IntersectStep(OffsetsOf(init), LiveOffsets(r.isDeleted), c.offset);
      assert c.offset in LiveOffsets(r.isDeleted) <==> !r.isDeleted[c.offset];
    }
  }

  lemma SubsetSameCard<T>(a: set<T>, b: set<T>)
    requires a <= b && |a| == |b|
    ensures a == b
  {
    if x :| x in b && x !in a {
      SubsetCard(a, b - {x});
    }
  }

  lemma SubsetCard<T>(a: set<T>, b: set<T>)
    requires a <= b
    ensures |a| <= |b|
  {
    assert b == a + (b - a);
  }

  /** Every returned offset is a stored offset, live or tombstoned. */
  lemma OffsetsStored(r: Registry, name: string, isDistance: bool, cs: seq<Candidate>)
    requires Valid(r) && Fits(r, name, isDistance, cs)
    ensures OffsetsOf(cs) <= LiveOffsets(r.isDeleted) + TombstonedOffsets(r.isDeleted)
  {
    forall o | o in OffsetsOf(cs)
      ensures o in LiveOffsets(r.isDeleted) + TombstonedOffsets(r.isDeleted)
    {
      var c :| c in cs && c.offset == o;
    }
  }

  /** With distinct offsets at most `deleted_count` hits are filtered out,
      and when FAISS returns every stored offset exactly the live ones
      remain. */
  lemma LiveHitBounds(r: Registry, name: string, isDistance: bool, cs: seq<Candidate>)
    requires Valid(r) && Fits(r, name, isDistance, cs) && DistinctOffsets(cs)
    ensures |LiveCandidates(r, name, isDistance, cs)| >= |cs| - DeletedCount(r.isDeleted)
    ensures |cs| == |r.docIds| ==> |LiveCandidates(r, name, isDistance, cs)| == Size(r)
  {
    var live := LiveOffsets(r.isDeleted);
    var tomb := TombstonedOffsets(r.isDeleted);
    var all := live + tomb;
    var got := OffsetsOf(cs);
    DeletedCountCountsTombstones(r.isDeleted);
    LiveCount(r, name, isDistance, cs);
    OffsetsStored(r, name, isDistance, cs);
    assert live * tomb == {};
    assert |all| == |r.docIds|;
    SubsetCard(got + live, all);
    if |cs| == |r.docIds| {
      SubsetSameCard(got, all);
      assert got * live == live;
    }
  }

  /** With an exact FAISS that returns `min(top_k + deleted_count, ntotal)`
      distinct offsets, widening k by the tombstone count is enough: a query
      gets `min(top_k, size)` matches. */
  lemma WideningFillsTopK(r: Registry, name: string, isDistance: bool, cs: seq<Candidate>, topK: int)
    requires Valid(r) && Fits(r, name, isDistance, cs) && DistinctOffsets(cs) && topK >= 1
    requires |cs| == Min(topK + DeletedCount(r.isDeleted), |r.docIds|)
    ensures |QueryMatches(r, name, isDistance, cs, topK)| == Min(topK, Size(r))
  {
    LiveHitBounds(r, name, isDistance, cs);
  }
}
