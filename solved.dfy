/**
 * The solved set of a user (`create_user_vector` and `get_recommendations`
 * both compute it the same way) and the catalog rows that belong to it.
 */
module Solved {
  import opened Wrappers
  import opened Codeforces
  import Seqs

  /** Every submission carries a verdict, so reading `sub['verdict']` cannot fail. */
  predicate AllJudged(subs: seq<Submission>)
  {
    forall i :: 0 <= i < |subs| ==> subs[i].verdict.Some?
  }

  /**
   * `[sub for sub in submissions if sub['verdict'] == 'OK']`; None when some
   * submission has no verdict, where the comprehension raises.
   */
  function AcceptedSubmissions(subs: seq<Submission>): (r: Option<seq<Submission>>)
    ensures r.Some? <==> AllJudged(subs)
    ensures r.Some? ==> forall x :: x in r.value <==> x in subs && IsAccepted(x)
    ensures r.Some? ==> |r.value| <= |subs|
  {
    if AllJudged(subs) then Some(Seqs.Filter(subs, IsAccepted))
    else None
  }

  /** An accepted submission: its verdict is 'OK'. */
  predicate IsAccepted(s: Submission)
  {
    s.verdict == Some(Accepted)
  }

  /**
   * The solved set: the keys of the submissions with verdict 'OK', or None
   * where reading some verdict fails.
   */
  function SolvedKeys(subs: seq<Submission>): Option<set<string>>
  {
    if AllJudged(subs) then Some(set i | 0 <= i < |subs| && IsAccepted(subs[i]) :: SubmissionKey(subs[i]))
    else None
  }

  /** A key is solved exactly when some submission for that problem has verdict 'OK'. */
  lemma SolvedKeysMeaning(subs: seq<Submission>)
    ensures SolvedKeys(subs).Some? <==> AllJudged(subs)
    ensures SolvedKeys(subs).Some? ==> forall k :: k in SolvedKeys(subs).value <==>
      exists i :: 0 <= i < |subs| && IsAccepted(subs[i]) && SubmissionKey(subs[i]) == k
  {
  }

  /**
   * One more submission: one without a verdict spoils the whole set, an
   * accepted one adds its key (a repeat changes nothing), any other verdict
   * contributes nothing.
   */
  lemma SolvedKeysSnoc(subs: seq<Submission>, s: Submission)
    ensures s.verdict.None? ==> SolvedKeys(subs + [s]).None?
    ensures s.verdict.Some? ==> SolvedKeys(subs + [s]).Some? == SolvedKeys(subs).Some?
    ensures IsAccepted(s) && SolvedKeys(subs).Some? ==>
      SolvedKeys(subs + [s]).value == SolvedKeys(subs).value + {SubmissionKey(s)}
    ensures s.verdict.Some? && !IsAccepted(s) && SolvedKeys(subs).Some? ==>
      SolvedKeys(subs + [s]).value == SolvedKeys(subs).value
  {
    var t := subs + [s];
    assert t[|subs|] == s;
    assert forall i :: 0 <= i < |subs| ==> t[i] == subs[i];
    if s.verdict.Some? && AllJudged(subs) {
      var before := SolvedKeys(subs).value;
      var after := SolvedKeys(t).value;
      forall k | k in after
        ensures k in before || (IsAccepted(s) && k == SubmissionKey(s))
      {
        var i :| 0 <= i < |t| && IsAccepted(t[i]) && SubmissionKey(t[i]) == k;
        if i < |subs| {
          assert IsAccepted(subs[i]) && SubmissionKey(subs[i]) == k;
        }
      }
      forall k | k in before
        ensures k in after
      {
        var i :| 0 <= i < |subs| && IsAccepted(subs[i]) && SubmissionKey(subs[i]) == k;
        assert IsAccepted(t[i]) && SubmissionKey(t[i]) == k;
      }
      if IsAccepted(s) {
        assert SubmissionKey(t[|subs|]) in after;
      }
    }
  }

  /** The keys of the filtered accepted list are exactly the solved set. */
  lemma AcceptedKeys(subs: seq<Submission>)
    requires AllJudged(subs)
    ensures (set s | s in AcceptedSubmissions(subs).value :: SubmissionKey(s)) == SolvedKeys(subs).value
  {
    var acc := AcceptedSubmissions(subs).value;
    var fromList := set s | s in acc :: SubmissionKey(s);
    var solved := SolvedKeys(subs).value;
    forall k | k in fromList
      ensures k in solved
    {
      var s :| s in acc && SubmissionKey(s) == k;
      var i :| 0 <= i < |subs| && subs[i] == s;
    }
    forall k | k in solved
      ensures k in fromList
    {
      var i :| 0 <= i < |subs| && IsAccepted(subs[i]) && SubmissionKey(subs[i]) == k;
      assert subs[i] in acc;
    }
  }

  /** Adding one submission's key to the keys of a list gives the keys of the longer list. */
  lemma KeysSnoc(pre: seq<Submission>, s: Submission)
    ensures (set t | t in pre + [s] :: SubmissionKey(t)) == (set t | t in pre :: SubmissionKey(t)) + {SubmissionKey(s)}
  {
    var longer := set t | t in pre + [s] :: SubmissionKey(t);
    var shorter := set t | t in pre :: SubmissionKey(t);
    forall k | k in longer
      ensures k in shorter || k == SubmissionKey(s)
    {
      var t :| t in pre + [s] && SubmissionKey(t) == k;
      if t != s {
        assert t in pre;
      }
    }
    forall k | k in shorter
      ensures k in longer
    {
      var t :| t in pre && SubmissionKey(t) == k;
      assert t in pre + [s];
    }
    assert s in pre + [s];
  }

  /**
   * The loops at lines 161-167 and 222-226: filter the accepted submissions,
   * then add each one's key to a set.
   */
  method CollectSolved(subs: seq<Submission>) returns (solved: Option<set<string>>)
    ensures solved == SolvedKeys(subs)
    ensures solved.Some? <==> AllJudged(subs)
    ensures solved.Some? ==> forall k :: k in solved.value <==>
      exists i :: 0 <= i < |subs| && IsAccepted(subs[i]) && SubmissionKey(subs[i]) == k
  {
    var accepted := AcceptedSubmissions(subs);
    if accepted.None? {
      SolvedKeysMeaning(subs);
      return None;
    }
    var acc := accepted.value;
    var keys: set<string> := {};
    for i := 0 to |acc|
      invariant keys == set s | s in acc[..i] :: SubmissionKey(s)
    {
      assert acc[..i + 1] == acc[..i] + [acc[i]];
      KeysSnoc(acc[..i], acc[i]);
      keys := keys + {SubmissionKey(acc[i])};
    }
    assert acc[..|acc|] == acc;
    AcceptedKeys(subs);
    SolvedKeysMeaning(subs);
    solved := Some(keys);
  }

  /** Row positions in strictly increasing order. */
  predicate StrictlyAscending(rows: seq<nat>)
  {
    forall i, j :: 0 <= i < j < |rows| ==> rows[i] < rows[j]
  }

  /** The positions of the catalog rows whose key is in `solved`, in catalog order. */
  function RowsIn(catalog: seq<Problem>, solved: set<string>): seq<nat>
    decreases |catalog|
  {
    if catalog == [] then []
    else
      var n := |catalog| - 1;
      RowsIn(catalog[..n], solved) + (if ProblemKey(catalog[n]) in solved then [n] else [])
  }

  /** A position is a solved row exactly when its key is in the solved set. */
  lemma {:induction false} RowsInMembers(catalog: seq<Problem>, solved: set<string>)
    ensures forall r :: r in RowsIn(catalog, solved) <==> 0 <= r < |catalog| && ProblemKey(catalog[r]) in solved
    decreases |catalog|
  {
    if catalog != [] {
      var n := |catalog| - 1;
      var prefix := catalog[..n];
      RowsInMembers(prefix, solved);
      var tail := if ProblemKey(catalog[n]) in solved then [n] else [];
      assert RowsIn(catalog, solved) == RowsIn(prefix, solved) + tail;
      forall r
        ensures r in RowsIn(catalog, solved) <==> 0 <= r < |catalog| && ProblemKey(catalog[r]) in solved
      {
        if 0 <= r < n {
          assert prefix[r] == catalog[r];
        }
      }
    }
  }

  /** The solved rows come out in strictly increasing catalog order. */
  lemma {:induction false} RowsInAscending(catalog: seq<Problem>, solved: set<string>)
    ensures StrictlyAscending(RowsIn(catalog, solved))
    decreases |catalog|
  {
    if catalog != [] {
      var n := |catalog| - 1;
      var prefix := catalog[..n];
      RowsInAscending(prefix, solved);
      RowsInMembers(prefix, solved);
      var front := RowsIn(prefix, solved);
      assert forall i :: 0 <= i < |front| ==> front[i] in front;
    }
  }

  /** The `iterrows` loop at lines 175-179, appending each matching row index. */
  method SolvedRows(catalog: seq<Problem>, solved: set<string>) returns (rows: seq<nat>)
    ensures rows == RowsIn(catalog, solved)
    ensures StrictlyAscending(rows)
    ensures forall r :: r in rows <==> 0 <= r < |catalog| && ProblemKey(catalog[r]) in solved
  {
    rows := [];
    for i := 0 to |catalog|
      invariant rows == RowsIn(catalog[..i], solved)
    {
      assert catalog[..i + 1][..i] == catalog[..i];
      if ProblemKey(catalog[i]) in solved {
        rows := rows + [i];
      }
    }
    assert catalog[..|catalog|] == catalog;
    RowsInMembers(catalog, solved);
    RowsInAscending(catalog, solved);
  }
}
