/**
 * Catalog enrichment in `fetch_problems`: a dictionary from problem key to
 * solved count is built from the problem statistics, and every catalog
 * problem is then stamped with its solved count (0 when no statistic matches).
 */
module Enrichment {
  import opened Wrappers
  import opened Codeforces

  /** The solved count a statistic contributes: `stat.get('solvedCount', 0)`. */
  function CountOf(s: ProblemStatistic): int
  {
    s.solvedCount.GetOr(0)
  }

  /** The dictionary after inserting the statistics in order: a later key overwrites an earlier one. */
  function StatsMap(stats: seq<ProblemStatistic>): map<string, int>
    decreases |stats|
  {
    if stats == [] then map[]
    else
      var last := stats[|stats| - 1];
      StatsMap(stats[..|stats| - 1])[StatisticKey(last) := CountOf(last)]
  }

  /** Statistic `j` is the last one carrying its key. */
  ghost predicate LastWithKey(stats: seq<ProblemStatistic>, j: int)
  {
    0 <= j < |stats| &&
    forall j' :: j < j' < |stats| ==> StatisticKey(stats[j']) != StatisticKey(stats[j])
  }

  /** A key is in the dictionary exactly when some statistic carries it. */
  lemma {:induction false} StatsMapKeys(stats: seq<ProblemStatistic>)
    ensures forall k :: k in StatsMap(stats) <==> exists j :: 0 <= j < |stats| && StatisticKey(stats[j]) == k
    decreases |stats|
  {
    if stats != [] {
      var n := |stats|;
      var prefix := stats[..n - 1];
      var last := stats[n - 1];
      StatsMapKeys(prefix);
      assert StatsMap(stats) == StatsMap(prefix)[StatisticKey(last) := CountOf(last)];
      forall k
        ensures k in StatsMap(stats) <==> exists j :: 0 <= j < n && StatisticKey(stats[j]) == k
      {
        if k in StatsMap(prefix) {
          var j :| 0 <= j < n - 1 && StatisticKey(prefix[j]) == k;
          assert stats[j] == prefix[j];
        }
        if exists j :: 0 <= j < n && StatisticKey(stats[j]) == k {
          var j :| 0 <= j < n && StatisticKey(stats[j]) == k;
          if j < n - 1 {
            assert stats[j] == prefix[j];
          }
        }
      }
    }
  }

  /** Dropping a later statistic with another key keeps statistic `j` the last with its key. */
  lemma LastWithKeyInPrefix(stats: seq<ProblemStatistic>, j: int)
    requires LastWithKey(stats, j) && j < |stats| - 1
    ensures LastWithKey(stats[..|stats| - 1], j)
  {
    var prefix := stats[..|stats| - 1];
    forall j' | j < j' < |prefix|
      ensures StatisticKey(prefix[j']) != StatisticKey(prefix[j])
    {
      assert prefix[j'] == stats[j'] && prefix[j] == stats[j];
    }
  }

  /** The last statistic with a key still holds it once the later statistics are inserted. */
  lemma {:induction false} StatsMapValueAt(stats: seq<ProblemStatistic>, j: int)
    requires LastWithKey(stats, j)
    ensures StatisticKey(stats[j]) in StatsMap(stats)
    ensures StatsMap(stats)[StatisticKey(stats[j])] == CountOf(stats[j])
    decreases |stats|
  {
    var n := |stats|;
    var key := StatisticKey(stats[j]);
    var prefix := stats[..n - 1];
    var last := stats[n - 1];
    assert StatsMap(stats) == StatsMap(prefix)[StatisticKey(last) := CountOf(last)];
    if j < n - 1 {
      assert StatisticKey(last) != key;
      LastWithKeyInPrefix(stats, j);
      StatsMapValueAt(prefix, j);
      assert prefix[j] == stats[j];
      assert StatsMap(prefix)[key] == CountOf(stats[j]);
    }
  }

  /** The dictionary maps a statistic's key to the count of the last statistic with that key. */
  lemma StatsMapValues(stats: seq<ProblemStatistic>)
    ensures forall j :: LastWithKey(stats, j) ==>
      StatisticKey(stats[j]) in StatsMap(stats) && StatsMap(stats)[StatisticKey(stats[j])] == CountOf(stats[j])
  {
    forall j | LastWithKey(stats, j)
      ensures StatisticKey(stats[j]) in StatsMap(stats) && StatsMap(stats)[StatisticKey(stats[j])] == CountOf(stats[j])
    {
      StatsMapValueAt(stats, j);
    }
  }

  /**
   * The loop at the head of the enrichment: one dictionary assignment per
   * statistic, in order.
   */
  method BuildStatsDict(stats: seq<ProblemStatistic>) returns (d: map<string, int>)
    ensures d == StatsMap(stats)
    ensures forall k :: k in d <==> exists j :: 0 <= j < |stats| && StatisticKey(stats[j]) == k
    ensures forall j :: LastWithKey(stats, j) ==> d[StatisticKey(stats[j])] == CountOf(stats[j])
  {
    d := map[];
    for i := 0 to |stats|
      invariant d == StatsMap(stats[..i])
    {
      assert stats[..i + 1][..i] == stats[..i];
      d := d[StatisticKey(stats[i]) := CountOf(stats[i])];
    }
    assert stats[..|stats|] == stats;
    StatsMapKeys(stats);
    StatsMapValues(stats);
  }

  /** `stats_dict.get(key, 0)`. */
  function Lookup(d: map<string, int>, k: string): int
  {
    if k in d then d[k] else 0
  }

  /** The catalog after every problem has been stamped from `d`. */
  function Stamped(problems: seq<Problem>, d: map<string, int>): seq<Problem>
  {
    seq(|problems|, i requires 0 <= i < |problems| =>
      problems[i].(solvedCount := Lookup(d, ProblemKey(problems[i]))))
  }

  /**
   * The second loop of the enrichment: each problem record is updated in
   * place with `problem['solvedCount'] = stats_dict.get(key, 0)`.
   */
  method StampSolvedCounts(problems: array<Problem>, d: map<string, int>)
    modifies problems
    ensures problems[..] == Stamped(old(problems[..]), d)
  {
    for i := 0 to problems.Length
      invariant forall m :: 0 <= m < i ==>
        problems[m] == old(problems[m]).(solvedCount := Lookup(d, ProblemKey(old(problems[m]))))
      invariant forall m :: i <= m < problems.Length ==> problems[m] == old(problems[m])
    {
      problems[i] := problems[i].(solvedCount := Lookup(d, ProblemKey(problems[i])));
    }
  }

  /** The catalog produced by the whole enrichment step. */
  function Enriched(problems: seq<Problem>, stats: seq<ProblemStatistic>): seq<Problem>
  {
    Stamped(problems, StatsMap(stats))
  }

  /**
   * After enrichment each problem keeps every field but `solvedCount`, which
   * is the count of the last statistic with the same key, or 0 when none has it.
   */
  lemma EnrichedMeaning(problems: seq<Problem>, stats: seq<ProblemStatistic>)
    ensures |Enriched(problems, stats)| == |problems|
    ensures forall i :: 0 <= i < |problems| ==>
      Enriched(problems, stats)[i] == problems[i].(solvedCount := Enriched(problems, stats)[i].solvedCount)
    ensures forall i, j :: 0 <= i < |problems| && LastWithKey(stats, j) && StatisticKey(stats[j]) == ProblemKey(problems[i]) ==>
      Enriched(problems, stats)[i].solvedCount == CountOf(stats[j])
    ensures forall i :: 0 <= i < |problems| && (forall j :: 0 <= j < |stats| ==> StatisticKey(stats[j]) != ProblemKey(problems[i])) ==>
      Enriched(problems, stats)[i].solvedCount == 0
  {
    StatsMapKeys(stats);
    StatsMapValues(stats);
  }

  /** A statistic reporting no `solvedCount` stamps 0, like a missing statistic. */
  lemma MissingCountIsZero(problems: seq<Problem>, stats: seq<ProblemStatistic>, i: int, j: int)
    requires 0 <= i < |problems| && LastWithKey(stats, j)
    requires StatisticKey(stats[j]) == ProblemKey(problems[i]) && stats[j].solvedCount.None?
    ensures Enriched(problems, stats)[i].solvedCount == 0
  {
    EnrichedMeaning(problems, stats);
  }
}
