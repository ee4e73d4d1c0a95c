/**
 * The records the recommender reads from the Codeforces API: catalog problems,
 * per-problem statistics and a user's submissions. Only the fields the
 * pipeline looks at are modelled.
 */
module Codeforces {
  import opened Wrappers
  import ProblemKeys

  /**
   * A catalog row. `rating` is None where the API omits it (a NaN in the
   * DataFrame); `solvedCount` is the column the enrichment step writes.
   */
  datatype Problem = Problem(
    contestId: int,
    index: string,
    rating: Option<int>,
    tags: seq<string>,
    solvedCount: int)

  /** An entry of `problemStatistics`; its `solvedCount` may be missing. */
  datatype ProblemStatistic = ProblemStatistic(contestId: int, index: string, solvedCount: Option<int>)

  /** The `problem` object nested in a submission. */
  datatype ProblemRef = ProblemRef(contestId: int, index: string)

  /** A submission; `verdict` is absent while the submission is still being judged. */
  datatype Submission = Submission(problem: ProblemRef, verdict: Option<string>)

  /** The `result` of `problemset.problems`; `problemStatistics` may be missing. */
  datatype ProblemSet = ProblemSet(problems: seq<Problem>, problemStatistics: Option<seq<ProblemStatistic>>)

  /** The verdict string of an accepted submission. */
  const Accepted: string := "OK"

  function ProblemKey(p: Problem): string
  {
    ProblemKeys.Key(p.contestId, p.index)
  }

  function StatisticKey(s: ProblemStatistic): string
  {
    ProblemKeys.Key(s.contestId, s.index)
  }

  function SubmissionKey(s: Submission): string
  {
    ProblemKeys.Key(s.problem.contestId, s.problem.index)
  }
}
