/** Category -> total maps as the source keeps them in plain objects: a
    missing key reads as 0 (`m[k] || 0`), and adding to a key writes the new
    total under that key. */
module Tally {

  type ScoreMap = map<string, int>

  /** `m[k] || 0` */
  function Get(m: ScoreMap, k: string): int {
    if k in m then m[k] else 0
  }

  /** `{ ...m, [k]: (m[k] || 0) + v }`: `v` more under `k`, nothing else changed. */
  function Accumulate(m: ScoreMap, k: string, v: int): (r: ScoreMap)
    ensures Get(r, k) == Get(m, k) + v
    ensures forall j :: j != k ==> Get(r, j) == Get(m, j)
    ensures r.Keys == m.Keys + {k}
  {
    m[k := Get(m, k) + v]
  }

  /** `v` less under `k`, nothing else changed. */
  function Retract(m: ScoreMap, k: string, v: int): (r: ScoreMap)
    ensures Get(r, k) == Get(m, k) - v
    ensures forall j :: j != k ==> Get(r, j) == Get(m, j)
  {
    m[k := Get(m, k) - v]
  }

  /** Two maps that read the same under every key (`m[k] || 0`). */
  ghost predicate SameTotals(a: ScoreMap, b: ScoreMap) {
    forall k :: Get(a, k) == Get(b, k)
  }

  lemma RetractUndoesAccumulate(m: ScoreMap, k: string, v: int)
    ensures SameTotals(Retract(Accumulate(m, k, v), k, v), m)
  {
  }

  /** One chosen answer: a key and the value added to it. */
  datatype Entry = Entry(key: string, value: int)

  /** Folding `Accumulate` over `es` in order, starting from `m`. */
  function AccumulateAll(m: ScoreMap, es: seq<Entry>): ScoreMap
  {
    if |es| == 0 then m
    else
      var last := es[|es| - 1];
      Accumulate(AccumulateAll(m, es[..|es| - 1]), last.key, last.value)
  }

  /** Sum of the values in `es` filed under `k`. */
  function SumFor(es: seq<Entry>, k: string): int
  {
    if |es| == 0 then 0
    else SumFor(es[..|es| - 1], k) + (if es[|es| - 1].key == k then es[|es| - 1].value else 0)
  }

  /** After answering `es` in order, each key's total is its starting total
      plus the values chosen for it; no other key is affected. */
  lemma {:induction false} AccumulateAllSums(m: ScoreMap, es: seq<Entry>, k: string)
    ensures Get(AccumulateAll(m, es), k) == Get(m, k) + SumFor(es, k)
    decreases |es|
  {
    if |es| > 0 {
      AccumulateAllSums(m, es[..|es| - 1], k);
    }
  }

  /** Folding distributes over concatenation. */
  lemma {:induction false} AccumulateAllAppend(m: ScoreMap, a: seq<Entry>, b: seq<Entry>)
    ensures AccumulateAll(m, a + b) == AccumulateAll(AccumulateAll(m, a), b)
    decreases |b|
  {
    if |b| == 0 {
      assert a + b == a;
    } else {
      assert (a + b)[..|a + b| - 1] == a + b[..|b| - 1];
      AccumulateAllAppend(m, a, b[..|b| - 1]);
    }
  }

  /** Starting from maps with the same totals gives results with the same totals. */
  lemma {:induction false} AccumulateAllSameTotals(a: ScoreMap, b: ScoreMap, es: seq<Entry>)
    requires SameTotals(a, b)
    ensures SameTotals(AccumulateAll(a, es), AccumulateAll(b, es))
  {
    forall k ensures Get(AccumulateAll(a, es), k) == Get(AccumulateAll(b, es), k) {
      AccumulateAllSums(a, es, k);
      AccumulateAllSums(b, es, k);
    }
  }
}
