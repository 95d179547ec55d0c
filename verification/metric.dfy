/** Distance metrics of the searcher: the mapping from the configured metric
    name to the FAISS metric, and the conversion of a FAISS distance into the
    score reported with a match. */
module Metric {

  datatype MetricType = L2 | InnerProduct

  const InnerProductName: string := "inner_product"

  /** `metric_type`: only "inner_product" selects the inner-product metric;
      "l2" and every unrecognised name fall back to L2 (with a warning). */
  function MetricTypeOf(name: string): (m: MetricType)
    ensures m == InnerProduct <==> name == InnerProductName
    ensures m == L2 <==> name != InnerProductName
  {
    if name == InnerProductName then InnerProduct else L2
  }

  /** The only conversion that can fail is the L2 similarity `1 / (1 + d)`. */
  predicate ScoreDefined(name: string, isDistance: bool, raw: real) {
    name == InnerProductName || isDistance || raw != -1.0
  }

  /** The score stored for a candidate whose FAISS distance is `raw`. For the
      inner-product metric `search` first replaces every distance `d` by
      `1 - d`, and the similarity branch subtracts from one again. */
  function Score(name: string, isDistance: bool, raw: real): (s: real)
    requires ScoreDefined(name, isDistance, raw)
    ensures MetricTypeOf(name) == L2 && isDistance ==> s == raw
    ensures MetricTypeOf(name) == L2 && !isDistance ==> s == 1.0 / (1.0 + raw)
    ensures MetricTypeOf(name) == InnerProduct && isDistance ==> s == 1.0 - raw
    ensures MetricTypeOf(name) == InnerProduct && !isDistance ==> s == raw
  {
    var dist := if name == InnerProductName then 1.0 - raw else raw;
    if isDistance then dist
    else if name == InnerProductName then 1.0 - dist
    else 1.0 / (1.0 + dist)
  }

  /** FAISS's result order for a metric: ascending squared distances for L2,
      descending inner products for the inner-product metric. */
  predicate RanksBefore(m: MetricType, a: real, b: real) {
    match m
    case L2 => 0.0 <= a <= b
    case InnerProduct => a >= b
  }

  /** An L2 similarity lies in (0, 1] and reaches 1 exactly at distance 0. */
  lemma L2SimilarityRange(name: string, raw: real)
    requires MetricTypeOf(name) == L2 && raw >= 0.0
    ensures 0.0 < Score(name, false, raw) <= 1.0
    ensures Score(name, false, raw) == 1.0 <==> raw == 0.0
  {
    var x := 1.0 + raw;
    var s := Score(name, false, raw);
    assert s == 1.0 / x;
    assert s * x == 1.0;
    assert s > 0.0;
    assert s * (x - 1.0) >= 0.0;
    assert s <= s * x;
    if s == 1.0 {
      assert x == 1.0;
    }
  }

  /** Converting preserves FAISS's ranking: a better-ranked candidate gets a
      similarity at least as large, or a distance at least as small. */
  lemma ScorePreservesRank(name: string, isDistance: bool, a: real, b: real)
    requires RanksBefore(MetricTypeOf(name), a, b)
    ensures ScoreDefined(name, isDistance, a) && ScoreDefined(name, isDistance, b)
    ensures isDistance ==> Score(name, isDistance, a) <= Score(name, isDistance, b)
    ensures !isDistance ==> Score(name, isDistance, a) >= Score(name, isDistance, b)
  {
    if MetricTypeOf(name) == L2 && !isDistance {
      assert 0.0 <= a <= b;
      ReciprocalAntitone(1.0 + a, 1.0 + b);
    }
  }

  lemma ReciprocalAntitone(x: real, y: real)
    requires 0.0 < x <= y
    ensures 1.0 / x >= 1.0 / y
  {
    var rx, ry := 1.0 / x, 1.0 / y;
    assert rx * x == 1.0 && ry * y == 1.0;
    assert ry > 0.0;
    assert ry * x <= ry * y;
    assert ry * x <= 1.0 == rx * x;
  }
}
