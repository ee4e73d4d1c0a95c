/**
 * Recommendation selection in `get_recommendations`: the catalog copy with a
 * similarity column is filtered (solved problems out, rating bounds, tag
 * overlap), sorted by similarity descending and cut to the first n rows.
 */
module Selection {
  import opened Wrappers
  import opened Codeforces
  import Seqs

  /** A similarity score; only its order matters to the selection. */
  type Score = int

  /** A row of the recommendation frame: a catalog problem with its `similarity` column. */
  datatype Row = Row(problem: Problem, similarity: Score)

  /** `problems_df.copy()` with `recommendations_df['similarity'] = similarity_scores`. */
  function WithScores(catalog: seq<Problem>, scores: seq<Score>): seq<Row>
    requires |scores| == |catalog|
  {
    seq(|catalog|, i requires 0 <= i < |catalog| => Row(catalog[i], scores[i]))
  }

  /** `rating >= lo`; a missing rating (NaN) compares false. */
  predicate RatedAtLeast(p: Problem, lo: int)
  {
    p.rating.Some? && p.rating.value >= lo
  }

  /** `rating <= hi`; a missing rating (NaN) compares false. */
  predicate RatedAtMost(p: Problem, hi: int)
  {
    p.rating.Some? && p.rating.value <= hi
  }

  /** `any(tag in x for tag in tags)` over the problem's tag list. */
  predicate SharesTag(p: Problem, tags: seq<string>)
  {
    exists j :: 0 <= j < |tags| && tags[j] in p.tags
  }

  /** `~problem_id.isin(solved)`: drops the rows whose key is solved. */
  function DropSolved(rows: seq<Row>, solved: set<string>): (r: seq<Row>)
    ensures forall x :: multiset(r)[x] == if ProblemKey(x.problem) !in solved then multiset(rows)[x] else 0
  {
    Seqs.Filter(rows, (y: Row) => ProblemKey(y.problem) !in solved)
  }

  /** `rating >= min_rating`, applied only when a bound is given. */
  function KeepAtLeast(rows: seq<Row>, minRating: Option<int>): (r: seq<Row>)
    ensures forall x :: multiset(r)[x] ==
                        (if minRating.None? || RatedAtLeast(x.problem, minRating.value) then multiset(rows)[x] else 0)
  {
    if minRating.None? then rows
    else Seqs.Filter(rows, (y: Row) => RatedAtLeast(y.problem, minRating.value))
  }

  /** `rating <= max_rating`, applied only when a bound is given. */
  function KeepAtMost(rows: seq<Row>, maxRating: Option<int>): (r: seq<Row>)
    ensures forall x :: multiset(r)[x] ==
                        (if maxRating.None? || RatedAtMost(x.problem, maxRating.value) then multiset(rows)[x] else 0)
  {
    if maxRating.None? then rows
    else Seqs.Filter(rows, (y: Row) => RatedAtMost(y.problem, maxRating.value))
  }

  /** The tag-overlap filter, applied only when a tag list is given. */
  function KeepTagged(rows: seq<Row>, tags: Option<seq<string>>): (r: seq<Row>)
    ensures forall x :: multiset(r)[x] ==
                        (if tags.None? || SharesTag(x.problem, tags.value) then multiset(rows)[x] else 0)
  {
    if tags.None? then rows
    else Seqs.Filter(rows, (y: Row) => SharesTag(y.problem, tags.value))
  }

  /** The frame the tag filter receives: the scored catalog after the solved and rating filters. */
  function Prefiltered(catalog: seq<Problem>, scores: seq<Score>, solved: set<string>,
                       minRating: Option<int>, maxRating: Option<int>): seq<Row>
    requires |scores| == |catalog|
  {
    KeepAtMost(KeepAtLeast(DropSolved(WithScores(catalog, scores), solved), minRating), maxRating)
  }

  /** The frame after the solved, rating and tag filters, in the order the source applies them. */
  function Candidates(catalog: seq<Problem>, scores: seq<Score>, solved: set<string>,
                      minRating: Option<int>, maxRating: Option<int>, tags: Option<seq<string>>): seq<Row>
    requires |scores| == |catalog|
  {
    KeepTagged(Prefiltered(catalog, scores, solved, minRating, maxRating), tags)
  }

  /** What a problem must satisfy to survive the solved and rating filters. */
  predicate Eligible(p: Problem, solved: set<string>, minRating: Option<int>, maxRating: Option<int>)
  {
    && ProblemKey(p) !in solved
    && (minRating.Some? ==> RatedAtLeast(p, minRating.value))
    && (maxRating.Some? ==> RatedAtMost(p, maxRating.value))
  }

  /** What a row must satisfy to survive all the filters. */
  predicate Passes(r: Row, solved: set<string>, minRating: Option<int>, maxRating: Option<int>, tags: Option<seq<string>>)
  {
    && Eligible(r.problem, solved, minRating, maxRating)
    && (tags.Some? ==> SharesTag(r.problem, tags.value))
  }

  /** A scored row survives the solved and rating filters exactly when its problem is eligible. */
  lemma PrefilteredMembers(catalog: seq<Problem>, scores: seq<Score>, solved: set<string>,
                           minRating: Option<int>, maxRating: Option<int>)
    requires |scores| == |catalog|
    ensures forall x :: x in Prefiltered(catalog, scores, solved, minRating, maxRating) <==>
      x in WithScores(catalog, scores) && Eligible(x.problem, solved, minRating, maxRating)
  {
    var rows := WithScores(catalog, scores);
    var s1 := DropSolved(rows, solved);
    var s2 := KeepAtLeast(s1, minRating);
    var s3 := KeepAtMost(s2, maxRating);
    forall x
      ensures x in s3 <==> x in rows && Eligible(x.problem, solved, minRating, maxRating)
    {
      assert multiset(s3)[x] == if Eligible(x.problem, solved, minRating, maxRating) then multiset(rows)[x] else 0;
      assert x in s3 <==> multiset(s3)[x] > 0;
      assert x in rows <==> multiset(rows)[x] > 0;
    }
  }

  /** The frame the tag filter receives is empty exactly when no catalog problem is eligible. */
  lemma PrefilteredEmpty(catalog: seq<Problem>, scores: seq<Score>, solved: set<string>,
                         minRating: Option<int>, maxRating: Option<int>)
    requires |scores| == |catalog|
    ensures Prefiltered(catalog, scores, solved, minRating, maxRating) == [] <==>
      forall i :: 0 <= i < |catalog| ==> !Eligible(catalog[i], solved, minRating, maxRating)
  {
    var rows := WithScores(catalog, scores);
    var s3 := Prefiltered(catalog, scores, solved, minRating, maxRating);
    PrefilteredMembers(catalog, scores, solved, minRating, maxRating);
    if s3 != [] {
      EligibleWitness(catalog, scores, s3[0], solved, minRating, maxRating);
    }
    forall i | 0 <= i < |catalog| && Eligible(catalog[i], solved, minRating, maxRating)
      ensures s3 != []
    {
      assert rows[i] in rows;
      assert rows[i] in s3;
    }
  }

  /** A scored row comes from some catalog position, whose problem then has the row's eligibility. */
  lemma EligibleWitness(catalog: seq<Problem>, scores: seq<Score>, x: Row, solved: set<string>,
                        minRating: Option<int>, maxRating: Option<int>)
    requires |scores| == |catalog|
    requires x in WithScores(catalog, scores) && Eligible(x.problem, solved, minRating, maxRating)
    ensures exists i :: 0 <= i < |catalog| && Eligible(catalog[i], solved, minRating, maxRating)
  {
    var rows := WithScores(catalog, scores);
    var i :| 0 <= i < |rows| && rows[i] == x;
    assert catalog[i] == x.problem;
  }

  /** How often one row is a candidate: as often as it is scored when it passes, else never. */
  lemma CandidateCount(catalog: seq<Problem>, scores: seq<Score>, solved: set<string>,
                       minRating: Option<int>, maxRating: Option<int>, tags: Option<seq<string>>, x: Row)
    requires |scores| == |catalog|
    ensures multiset(Candidates(catalog, scores, solved, minRating, maxRating, tags))[x] ==
            (if Passes(x, solved, minRating, maxRating, tags) then multiset(WithScores(catalog, scores))[x] else 0)
  {
    var rows := WithScores(catalog, scores);
    var s1 := DropSolved(rows, solved);
    var s2 := KeepAtLeast(s1, minRating);
    var s3 := KeepAtMost(s2, maxRating);
    var s4 := KeepTagged(s3, tags);
    assert multiset(s1)[x] == if ProblemKey(x.problem) !in solved then multiset(rows)[x] else 0;
    assert multiset(s2)[x] ==
      if minRating.None? || RatedAtLeast(x.problem, minRating.value) then multiset(s1)[x] else 0;
    assert multiset(s3)[x] ==
      if maxRating.None? || RatedAtMost(x.problem, maxRating.value) then multiset(s2)[x] else 0;
    assert multiset(s4)[x] ==
      if tags.None? || SharesTag(x.problem, tags.value) then multiset(s3)[x] else 0;
  }

  /**
   * The filters keep every copy of a passing row and drop every other row:
   * the candidate multiset is the catalog's restricted to `Passes`.
   */
  lemma CandidatesMeaning(catalog: seq<Problem>, scores: seq<Score>, solved: set<string>,
                          minRating: Option<int>, maxRating: Option<int>, tags: Option<seq<string>>)
    requires |scores| == |catalog|
    ensures forall x :: multiset(Candidates(catalog, scores, solved, minRating, maxRating, tags))[x] ==
                        (if Passes(x, solved, minRating, maxRating, tags) then multiset(WithScores(catalog, scores))[x] else 0)
    ensures forall x :: x in Candidates(catalog, scores, solved, minRating, maxRating, tags) <==>
      x in WithScores(catalog, scores) && Passes(x, solved, minRating, maxRating, tags)
  {
    var rows := WithScores(catalog, scores);
    var cands := Candidates(catalog, scores, solved, minRating, maxRating, tags);
    forall x
      ensures multiset(cands)[x] == if Passes(x, solved, minRating, maxRating, tags) then multiset(rows)[x] else 0
    {
      CandidateCount(catalog, scores, solved, minRating, maxRating, tags, x);
    }
    forall x
      ensures x in cands <==> x in rows && Passes(x, solved, minRating, maxRating, tags)
    {
      CandidateCount(catalog, scores, solved, minRating, maxRating, tags, x);
      assert x in cands <==> multiset(cands)[x] > 0;
      assert x in rows <==> multiset(rows)[x] > 0;
    }
  }

  /** Similarity never increases along the sequence. */
  predicate NonIncreasing(rows: seq<Row>)
  {
    forall i, j :: 0 <= i < j < |rows| ==> rows[i].similarity >= rows[j].similarity
  }

  /** The first row of a non-increasing sequence scores at least as high as every later one. */
  lemma FirstIsHighest(rows: seq<Row>)
    requires NonIncreasing(rows) && rows != []
    ensures forall y :: y in multiset(rows[1..]) ==> y.similarity <= rows[0].similarity
  {
    forall y | y in multiset(rows[1..])
      ensures y.similarity <= rows[0].similarity
    {
      var k :| 0 <= k < |rows[1..]| && rows[1..][k] == y;
      assert rows[k + 1] == y;
    }
  }

  /** A row scoring at least as high as everything after it keeps the order non-increasing. */
  lemma PrependHighest(top: Row, rest: seq<Row>)
    requires NonIncreasing(rest)
    requires forall y :: y in multiset(rest) ==> y.similarity <= top.similarity
    ensures NonIncreasing([top] + rest)
  {
    forall j | 0 <= j < |rest|
      ensures rest[j].similarity <= top.similarity
    {
      assert rest[j] in multiset(rest);
    }
  }

  /** Inserts `x` in front of the first row it is not below. */
  function Insert(x: Row, rows: seq<Row>): (r: seq<Row>)
    requires NonIncreasing(rows)
    ensures NonIncreasing(r)
    ensures multiset(r) == multiset(rows) + multiset{x}
  {
    if rows == [] then [x]
    else if x.similarity >= rows[0].similarity then [x] + rows
    else
      var rest := Insert(x, rows[1..]);
      assert rows == [rows[0]] + rows[1..];
      FirstIsHighest(rows);
      PrependHighest(rows[0], rest);
      [rows[0]] + rest
  }

  /**
   * `sort_values('similarity', ascending=False)`. The sort pandas uses is
   * not stable, so only the order by similarity and the permutation are
   * promised; this definition's placement of ties is one of the allowed ones.
   */
  function SortBySimilarity(rows: seq<Row>): (r: seq<Row>)
    ensures NonIncreasing(r)
    ensures multiset(r) == multiset(rows)
  {
    if rows == [] then []
    else
      assert rows == [rows[0]] + rows[1..];
      Insert(rows[0], SortBySimilarity(rows[1..]))
  }

  function Min(a: int, b: int): int { if a <= b then a else b }
  function Max(a: int, b: int): int { if a >= b then a else b }

  /**
   * `DataFrame.head(n)`: the first n rows, or for a negative n every row but
   * the last |n|.
   */
  function Head(rows: seq<Row>, n: int): (r: seq<Row>)
    ensures r <= rows
    ensures n >= 0 ==> |r| == Min(n, |rows|)
    ensures n < 0 ==> |r| == Max(0, |rows| + n)
  {
    if n >= 0 then rows[..Min(n, |rows|)] else rows[..Max(0, |rows| + n)]
  }

  /** The first n rows once sorted by similarity: `sort_values(...).head(n)`. */
  function Top(rows: seq<Row>, n: int): seq<Row>
  {
    Head(SortBySimilarity(rows), n)
  }

  /** The top rows are drawn from the rows: a sub-multiset, each one a row. */
  lemma TopFromRows(rows: seq<Row>, n: int)
    ensures multiset(Top(rows, n)) <= multiset(rows)
    ensures forall y :: y in Top(rows, n) ==> y in rows
  {
    var sorted := SortBySimilarity(rows);
    var top := Head(sorted, n);
    assert sorted == top + sorted[|top|..];
    assert multiset(sorted) == multiset(top) + multiset(sorted[|top|..]);
    forall y | y in top
      ensures y in rows
    {
      assert y in multiset(sorted);
    }
  }

  /**
   * The top rows are sorted by similarity, number min(n, |rows|) for a
   * non-negative n, and are all the rows when n covers them.
   */
  lemma TopShape(rows: seq<Row>, n: int)
    ensures NonIncreasing(Top(rows, n))
    ensures n >= 0 ==> |Top(rows, n)| == Min(n, |rows|)
    ensures n >= |rows| ==> multiset(Top(rows, n)) == multiset(rows)
  {
    var sorted := SortBySimilarity(rows);
    var top := Head(sorted, n);
    assert |sorted| == |multiset(sorted)| == |rows|;
    assert top == sorted[..|top|];
    forall i, j | 0 <= i < j < |top|
      ensures top[i].similarity >= top[j].similarity
    {
      assert top[i] == sorted[i] && top[j] == sorted[j];
    }
    if n >= |rows| {
      assert |top| == |sorted|;
      assert top == sorted;
    }
  }

  /** In a non-increasing sequence, a row from position k on scores no higher than one before k. */
  lemma SplitSorted(sorted: seq<Row>, k: nat)
    requires NonIncreasing(sorted) && k <= |sorted|
    ensures forall x, y :: x in sorted[k..] && y in sorted[..k] ==> x.similarity <= y.similarity
  {
    forall x: Row, y: Row | x in sorted[k..] && y in sorted[..k]
      ensures x.similarity <= y.similarity
    {
      var j :| 0 <= j < |sorted[k..]| && sorted[k..][j] == x;
      var i :| 0 <= i < k && sorted[..k][i] == y;
      assert sorted[i] == y && sorted[k + j] == x;
    }
  }

  /** A row left out of a sorted prefix, counting copies, scores no higher than any row in it. */
  lemma PrefixHoldsHighest(sorted: seq<Row>, k: nat)
    requires NonIncreasing(sorted) && k <= |sorted|
    ensures forall x, y :: y in sorted[..k] && multiset(sorted[..k])[x] < multiset(sorted)[x] ==>
      x.similarity <= y.similarity
  {
    assert sorted == sorted[..k] + sorted[k..];
    assert multiset(sorted) == multiset(sorted[..k]) + multiset(sorted[k..]);
    SplitSorted(sorted, k);
    forall x: Row | multiset(sorted[..k])[x] < multiset(sorted)[x]
      ensures x in sorted[k..]
    {
      assert x in multiset(sorted[k..]);
    }
  }

  /**
   * A row that occurs more often among the rows than among the top ones was
   * left out, and it scores no higher than any row kept.
   */
  lemma TopScoresHighest(rows: seq<Row>, n: int)
    ensures forall x, y :: y in Top(rows, n) && multiset(Top(rows, n))[x] < multiset(rows)[x] ==>
      x.similarity <= y.similarity
  {
    var sorted := SortBySimilarity(rows);
    var top := Head(sorted, n);
    assert top == sorted[..|top|];
    PrefixHoldsHighest(sorted, |top|);
  }

  /** The records `get_recommendations` returns for one set of inputs. */
  function Recommend(catalog: seq<Problem>, scores: seq<Score>, solved: set<string>, n: int,
                     minRating: Option<int>, maxRating: Option<int>, tags: Option<seq<string>>): seq<Row>
    requires |scores| == |catalog|
  {
    Top(Candidates(catalog, scores, solved, minRating, maxRating, tags), n)
  }

  /**
   * Whether line 254 raises. When tags are given and the frame reaching
   * line 250 is empty, `apply` returns an empty object-typed Series. Pandas
   * does not read that as a boolean mask, so the indexing selects no
   * columns and `sort_values('similarity')` raises KeyError.
   */
  predicate TagMaskRaises(catalog: seq<Problem>, scores: seq<Score>, solved: set<string>,
                          minRating: Option<int>, maxRating: Option<int>, tags: Option<seq<string>>)
    requires |scores| == |catalog|
  {
    tags.Some? && Prefiltered(catalog, scores, solved, minRating, maxRating) == []
  }

  /** What lines 232-258 give back: the records, or None where line 254 raises. */
  function Recommendations(catalog: seq<Problem>, scores: seq<Score>, solved: set<string>, n: int,
                           minRating: Option<int>, maxRating: Option<int>, tags: Option<seq<string>>): Option<seq<Row>>
    requires |scores| == |catalog|
  {
    if TagMaskRaises(catalog, scores, solved, minRating, maxRating, tags) then None
    else Some(Recommend(catalog, scores, solved, n, minRating, maxRating, tags))
  }

  /**
   * The selection raises exactly when a tag list is given and no catalog
   * problem survives the solved and rating filters. It raises only where
   * the records would have been empty, so every lemma about `Recommend`
   * describes the records whenever there are records.
   */
  lemma RecommendationsRaise(catalog: seq<Problem>, scores: seq<Score>, solved: set<string>, n: int,
                             minRating: Option<int>, maxRating: Option<int>, tags: Option<seq<string>>)
    requires |scores| == |catalog|
    ensures Recommendations(catalog, scores, solved, n, minRating, maxRating, tags).None? <==>
      tags.Some? && forall i :: 0 <= i < |catalog| ==> !Eligible(catalog[i], solved, minRating, maxRating)
    ensures Recommendations(catalog, scores, solved, n, minRating, maxRating, tags).None? ==>
      Recommend(catalog, scores, solved, n, minRating, maxRating, tags) == []
  {
    PrefilteredEmpty(catalog, scores, solved, minRating, maxRating);
    if TagMaskRaises(catalog, scores, solved, minRating, maxRating, tags) {
      var cands := Candidates(catalog, scores, solved, minRating, maxRating, tags);
      assert |cands| <= 0;
      TopShape(cands, n);
    }
  }

  /** Every recommended row is a catalog row that passes every filter, and no more often than it is a candidate. */
  lemma RecommendFromCandidates(catalog: seq<Problem>, scores: seq<Score>, solved: set<string>, n: int,
                                minRating: Option<int>, maxRating: Option<int>, tags: Option<seq<string>>)
    requires |scores| == |catalog|
    ensures multiset(Recommend(catalog, scores, solved, n, minRating, maxRating, tags)) <=
      multiset(Candidates(catalog, scores, solved, minRating, maxRating, tags))
    ensures forall y :: y in Recommend(catalog, scores, solved, n, minRating, maxRating, tags) ==>
      y in WithScores(catalog, scores) && Passes(y, solved, minRating, maxRating, tags)
  {
    TopFromRows(Candidates(catalog, scores, solved, minRating, maxRating, tags), n);
    CandidatesMeaning(catalog, scores, solved, minRating, maxRating, tags);
  }

  /** No recommended problem is in the solved set. */
  lemma RecommendUnsolved(catalog: seq<Problem>, scores: seq<Score>, solved: set<string>, n: int,
                          minRating: Option<int>, maxRating: Option<int>, tags: Option<seq<string>>)
    requires |scores| == |catalog|
    ensures forall y :: y in Recommend(catalog, scores, solved, n, minRating, maxRating, tags) ==>
      ProblemKey(y.problem) !in solved
  {
    RecommendFromCandidates(catalog, scores, solved, n, minRating, maxRating, tags);
  }

  /** Given bounds hold inclusively for every result, and an unrated problem never passes a bound. */
  lemma RecommendWithinRatings(catalog: seq<Problem>, scores: seq<Score>, solved: set<string>, n: int,
                               minRating: Option<int>, maxRating: Option<int>, tags: Option<seq<string>>)
    requires |scores| == |catalog|
    ensures forall y :: y in Recommend(catalog, scores, solved, n, minRating, maxRating, tags) && minRating.Some? ==>
      y.problem.rating.Some? && minRating.value <= y.problem.rating.value
    ensures forall y :: y in Recommend(catalog, scores, solved, n, minRating, maxRating, tags) && maxRating.Some? ==>
      y.problem.rating.Some? && y.problem.rating.value <= maxRating.value
  {
    RecommendFromCandidates(catalog, scores, solved, n, minRating, maxRating, tags);
  }

  /** With a tag list given, every result carries at least one of its tags. */
  lemma RecommendSharesTag(catalog: seq<Problem>, scores: seq<Score>, solved: set<string>, n: int,
                           minRating: Option<int>, maxRating: Option<int>, tags: Option<seq<string>>)
    requires |scores| == |catalog|
    ensures forall y :: y in Recommend(catalog, scores, solved, n, minRating, maxRating, tags) && tags.Some? ==>
      exists j :: 0 <= j < |tags.value| && tags.value[j] in y.problem.tags
  {
    RecommendFromCandidates(catalog, scores, solved, n, minRating, maxRating, tags);
  }

  /**
   * An empty tag list, unlike no tag list, lets nothing through: `any` over
   * no tags is false. The call then returns no records, or raises when no
   * row reaches the tag filter.
   */
  lemma EmptyTagsRecommendNothing(catalog: seq<Problem>, scores: seq<Score>, solved: set<string>, n: int,
                                  minRating: Option<int>, maxRating: Option<int>)
    requires |scores| == |catalog|
    ensures Recommend(catalog, scores, solved, n, minRating, maxRating, Some([])) == []
    ensures Recommendations(catalog, scores, solved, n, minRating, maxRating, Some([])) ==
      if Prefiltered(catalog, scores, solved, minRating, maxRating) == [] then None else Some([])
  {
    RecommendFromCandidates(catalog, scores, solved, n, minRating, maxRating, Some([]));
  }

  /** A row of the scored frame is a catalog problem with that row's score. */
  lemma WithScoresRows(catalog: seq<Problem>, scores: seq<Score>)
    requires |scores| == |catalog|
    ensures forall y :: y in WithScores(catalog, scores) ==>
      exists i :: 0 <= i < |catalog| && y == Row(catalog[i], scores[i])
  {
    var rows := WithScores(catalog, scores);
    forall y | y in rows
      ensures exists i :: 0 <= i < |catalog| && y == Row(catalog[i], scores[i])
    {
      var i :| 0 <= i < |rows| && rows[i] == y;
    }
  }

  /** Each recommended record is a catalog problem together with that row's own score. */
  lemma RecommendFromCatalog(catalog: seq<Problem>, scores: seq<Score>, solved: set<string>, n: int,
                             minRating: Option<int>, maxRating: Option<int>, tags: Option<seq<string>>)
    requires |scores| == |catalog|
    ensures forall y :: y in Recommend(catalog, scores, solved, n, minRating, maxRating, tags) ==>
      exists i :: 0 <= i < |catalog| && y == Row(catalog[i], scores[i])
  {
    RecommendFromCandidates(catalog, scores, solved, n, minRating, maxRating, tags);
    WithScoresRows(catalog, scores);
  }

  /**
   * The result is sorted by similarity, has min(n, candidates) rows for a
   * non-negative n, and holds every candidate when n covers them all.
   */
  lemma RecommendShape(catalog: seq<Problem>, scores: seq<Score>, solved: set<string>, n: int,
                       minRating: Option<int>, maxRating: Option<int>, tags: Option<seq<string>>)
    requires |scores| == |catalog|
    ensures NonIncreasing(Recommend(catalog, scores, solved, n, minRating, maxRating, tags))
    ensures n >= 0 ==>
      |Recommend(catalog, scores, solved, n, minRating, maxRating, tags)| ==
      Min(n, |Candidates(catalog, scores, solved, minRating, maxRating, tags)|)
    ensures n >= |Candidates(catalog, scores, solved, minRating, maxRating, tags)| ==>
      multiset(Recommend(catalog, scores, solved, n, minRating, maxRating, tags)) ==
      multiset(Candidates(catalog, scores, solved, minRating, maxRating, tags))
  {
    TopShape(Candidates(catalog, scores, solved, minRating, maxRating, tags), n);
  }

  /** Top n: a candidate left out of the result scores no higher than any recommended row. */
  lemma RecommendTopN(catalog: seq<Problem>, scores: seq<Score>, solved: set<string>, n: int,
                      minRating: Option<int>, maxRating: Option<int>, tags: Option<seq<string>>)
    requires |scores| == |catalog|
    ensures forall x, y ::
      && y in Recommend(catalog, scores, solved, n, minRating, maxRating, tags)
      && multiset(Recommend(catalog, scores, solved, n, minRating, maxRating, tags))[x] <
         multiset(Candidates(catalog, scores, solved, minRating, maxRating, tags))[x]
      ==> x.similarity <= y.similarity
  {
    TopScoresHighest(Candidates(catalog, scores, solved, minRating, maxRating, tags), n);
  }

  /**
   * With nothing solved, no bounds, no tags and n covering the catalog,
   * every catalog row is recommended: the solved filter excludes nothing.
   */
  lemma NothingSolvedExcludesNothing(catalog: seq<Problem>, scores: seq<Score>, n: int)
    requires |scores| == |catalog| && n >= |catalog|
    ensures multiset(Recommend(catalog, scores, {}, n, None, None, None)) == multiset(WithScores(catalog, scores))
  {
    var rows := WithScores(catalog, scores);
    var cands := Candidates(catalog, scores, {}, None, None, None);
    CandidatesMeaning(catalog, scores, {}, None, None, None);
    assert multiset(cands) == multiset(rows);
    TopShape(cands, n);
  }
}
