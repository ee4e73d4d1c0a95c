/**
 * The `CodeforcesRecommender` object: its catalog (`problems_df`) and its
 * cache of user vectors, with the three operations that read and update them.
 * Requests to the Codeforces API arrive as parameters: None stands for a
 * request that raised or whose reply had a status other than 'OK'.
 */
module Recommender {
  import opened Wrappers
  import opened Codeforces
  import Enrichment
  import Solved
  import Selection

  /**
   * A user vector, kept as what it averages: the feature vectors of every
   * catalog row (the default) or of the listed rows.
   */
  datatype UserVector = MeanOfAll | MeanOfRows(rows: seq<nat>)

  /** The vector `create_user_vector` computes from a submissions reply, or None where it returns None. */
  function UserVectorFor(catalog: seq<Problem>, reply: Option<seq<Submission>>): Option<UserVector>
  {
    if reply.None? then None
    else
      match Solved.SolvedKeys(reply.value)
      case None => None
      case Some(solved) =>
        if solved == {} then Some(MeanOfAll)
        else
          var rows := Solved.RowsIn(catalog, solved);
          Some(if rows == [] then MeanOfAll else MeanOfRows(rows))
  }

  /**
   * No vector when the request fails or a submission has no verdict; the
   * default when no catalog row is solved; otherwise the mean over exactly
   * the solved rows, in ascending order.
   */
  lemma UserVectorMeaning(catalog: seq<Problem>, reply: Option<seq<Submission>>)
    ensures UserVectorFor(catalog, reply).None? <==> reply.None? || !Solved.AllJudged(reply.value)
    ensures UserVectorFor(catalog, reply) == Some(MeanOfAll) ==>
      forall r :: 0 <= r < |catalog| ==> ProblemKey(catalog[r]) !in Solved.SolvedKeys(reply.value).value
    ensures forall rows :: UserVectorFor(catalog, reply) == Some(MeanOfRows(rows)) ==>
      && rows != []
      && Solved.StrictlyAscending(rows)
      && forall r :: r in rows <==> 0 <= r < |catalog| && ProblemKey(catalog[r]) in Solved.SolvedKeys(reply.value).value
  {
    if reply.Some? {
      Solved.SolvedKeysMeaning(reply.value);
      if Solved.AllJudged(reply.value) {
        var solved := Solved.SolvedKeys(reply.value).value;
        Solved.RowsInMembers(catalog, solved);
        Solved.RowsInAscending(catalog, solved);
        if solved != {} && Solved.RowsIn(catalog, solved) == [] {
          forall r | 0 <= r < |catalog|
            ensures ProblemKey(catalog[r]) !in solved
          {
            assert r !in Solved.RowsIn(catalog, solved);
          }
        }
      }
    }
  }

  /** The solved set `get_recommendations` excludes: empty whenever its request or the extraction fails. */
  function ExcludedKeys(reply: Option<seq<Submission>>): set<string>
  {
    if reply.None? then {} else Solved.SolvedKeys(reply.value).GetOr({})
  }

  /**
   * A failed fetch excludes nothing instead of raising; otherwise the
   * excluded keys are those with an accepted submission.
   */
  lemma ExcludedKeysMeaning(reply: Option<seq<Submission>>)
    ensures reply.None? ==> ExcludedKeys(reply) == {}
    ensures reply.Some? && !Solved.AllJudged(reply.value) ==> ExcludedKeys(reply) == {}
    ensures reply.Some? && Solved.AllJudged(reply.value) ==> forall k :: k in ExcludedKeys(reply) <==>
      exists i :: 0 <= i < |reply.value| && reply.value[i].verdict == Some(Accepted) && SubmissionKey(reply.value[i]) == k
  {
    if reply.Some? {
      Solved.SolvedKeysMeaning(reply.value);
    }
  }

  /** The similarity of every catalog row to the user vector `v`. */
  function ScoresFor(v: UserVector, count: nat, similarity: (UserVector, nat) -> Selection.Score): seq<Selection.Score>
  {
    seq(count, (i: int) requires 0 <= i < count => similarity(v, i))
  }

  /**
   * What `create_user_vector` returns against the loaded catalog, if any.
   * Without a catalog the feature vectors are missing too: `np.mean` or
   * `iterrows` raises, the handler at line 195 catches it, and the result
   * is None.
   */
  function CreatedVector(catalog: Option<seq<Problem>>, reply: Option<seq<Submission>>): Option<UserVector>
  {
    if catalog.None? then None else UserVectorFor(catalog.value, reply)
  }

  /** The vector `get_recommendations` uses: the cached one, else a new one from `create_user_vector`. */
  function VectorInUse(cache: map<string, UserVector>, handle: string, catalog: Option<seq<Problem>>,
                       reply: Option<seq<Submission>>): Option<UserVector>
  {
    if handle in cache then Some(cache[handle]) else CreatedVector(catalog, reply)
  }

  /** What `get_recommendations` gives its caller: records, or an exception that escapes it. */
  datatype Outcome = Records(rows: seq<Selection.Row>) | Raised

  class CodeforcesRecommender {
    /** `problems_df`, one record per catalog row; None until a catalog is loaded. */
    var problems: Option<seq<Problem>>
    /** `user_vectors`, by user handle. */
    var userVectors: map<string, UserVector>

    /** The state before anything has been fetched or loaded. */
    constructor ()
      ensures problems == None && userVectors == map[]
    {
      problems := None;
      userVectors := map[];
    }

    /**
     * `fetch_problems`: on an 'OK' reply the catalog becomes the enriched
     * problem list (missing statistics read as an empty list); otherwise the
     * catalog is left as it was and the result is false.
     */
    method FetchProblems(reply: Option<ProblemSet>) returns (ok: bool)
      modifies this`problems
      ensures ok == reply.Some?
      ensures ok ==> problems == Some(Enrichment.Enriched(reply.value.problems, reply.value.problemStatistics.GetOr([])))
      ensures !ok ==> problems == old(problems)
    {
      if reply.None? {
        return false;
      }
      var result := reply.value;
      var stats := result.problemStatistics.GetOr([]);
      var statsDict := Enrichment.BuildStatsDict(stats);
      var raw := result.problems;
      var records := new Problem[|raw|](i requires 0 <= i < |raw| => raw[i]);
      assert records[..] == raw;
      Enrichment.StampSolvedCounts(records, statsDict);
      problems := Some(records[..]);
      ok := true;
    }

    /**
     * `create_user_vector`: computes the user's vector from the current
     * catalog and caches it under `handle`; a failed request, or no catalog,
     * caches nothing.
     */
    method CreateUserVector(handle: string, reply: Option<seq<Submission>>) returns (v: Option<UserVector>)
      modifies this`userVectors
      ensures v == CreatedVector(problems, reply)
      ensures problems.Some? ==> v == UserVectorFor(problems.value, reply)
      ensures problems.None? ==> v.None?
      ensures userVectors == if v.Some? then old(userVectors)[handle := v.value] else old(userVectors)
    {
      if reply.None? || problems.None? {
        return None;
      }
      var solved := Solved.CollectSolved(reply.value);
      if solved.None? {
        return None;
      }
      var vector: UserVector;
      if solved.value == {} {
        vector := MeanOfAll;
      } else {
        var rows := Solved.SolvedRows(problems.value, solved.value);
        if rows == [] {
          vector := MeanOfAll;
        } else {
          vector := MeanOfRows(rows);
        }
      }
      userVectors := userVectors[handle := vector];
      v := Some(vector);
    }

    /**
     * `get_recommendations`: no vector means no records. A cached vector
     * with no catalog raises at line 232, where `problems_df.copy()` meets
     * None. Otherwise the selection runs on the unchanged catalog with the
     * similarity of each row to the vector, excluding the solved set of the
     * second request, and raises at line 254 where the selection does.
     */
    method GetRecommendations(handle: string, n: int, minRating: Option<int>, maxRating: Option<int>,
                              tags: Option<seq<string>>, vectorReply: Option<seq<Submission>>,
                              solvedReply: Option<seq<Submission>>,
                              similarity: (UserVector, nat) -> Selection.Score)
      returns (outcome: Outcome)
      modifies this`userVectors
      ensures problems == old(problems)
      ensures var v := VectorInUse(old(userVectors), handle, problems, vectorReply);
        outcome ==
          if v.None? then Records([])
          else if problems.None? then Raised
          else match Selection.Recommendations(problems.value, ScoresFor(v.value, |problems.value|, similarity),
                                               ExcludedKeys(solvedReply), n, minRating, maxRating, tags)
               case None => Raised
               case Some(rows) => Records(rows)
      ensures userVectors ==
        if handle in old(userVectors) || CreatedVector(problems, vectorReply).None? then old(userVectors)
        else old(userVectors)[handle := CreatedVector(problems, vectorReply).value]
    {
      var v: UserVector;
      if handle in userVectors {
        v := userVectors[handle];
      } else {
        var created := CreateUserVector(handle, vectorReply);
        if created.None? {
          return Records([]);
        }
        v := created.value;
      }
      if problems.None? {
        return Raised;
      }
      var catalog := problems.value;
      var scores := ScoresFor(v, |catalog|, similarity);
      var excluded: set<string> := {};
      if solvedReply.Some? {
        var solved := Solved.CollectSolved(solvedReply.value);
        if solved.Some? {
          excluded := solved.value;
        }
      }
      var recs := Selection.Recommendations(catalog, scores, excluded, n, minRating, maxRating, tags);
      outcome := if recs.None? then Raised else Records(recs.value);
    }
  }
}
