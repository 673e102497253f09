/** What one `/unban_all` run does with a snapshot of a chat's tracked users,
    stated in closed form over the snapshot and the outcome of each user's
    step. The step for a user is: call `unban_chat_member`; on return count
    the user as unbanned, remove it from the ledger, save and edit the status
    message; if anything in that raises, count a failure, log it and edit the
    status message once more (that last edit is not guarded). */
module Unban {
  import opened Wrappers
  import opened Tracking
  import opened Render

  /** How one user's step went, as the gateway and the status message let it. */
  datatype Outcome =
      /** The unban call returned and the progress edit succeeded. */
    | UnbanOk
      /** The unban call raised `error`; the failure edit succeeded. */
    | UnbanFailed(error: string)
      /** The unban call returned, the user was removed and saved, then the
          progress edit raised `error`; the failure edit succeeded. */
    | UnbanOkButEditFailed(error: string)
      /** The failure edit itself raised (after an unban that returned, when
          `unbanned`): the exception leaves the handler and the run ends. */
    | ReportFailed(unbanned: bool)

  /** The unban call returned, so the user was removed from the ledger. */
  predicate Unbanned(o: Outcome) {
    o.UnbanOk? || o.UnbanOkButEditFailed? || (o.ReportFailed? && o.unbanned)
  }

  /** A failure was counted and logged for a run that went on. */
  predicate Failed(o: Outcome) {
    o.UnbanFailed? || o.UnbanOkButEditFailed?
  }

  /** No step ended the run. */
  predicate NoAbort(outs: seq<Outcome>) {
    forall j :: 0 <= j < |outs| ==> !outs[j].ReportFailed?
  }

  /** One line of the failure list: `User {id}: {str(e)[:50]}`. */
  datatype Failure = Failure(user: int, error: string)

  /** One successful edit of the live status message: the user just handled,
      the progress `index/total`, the two tallies, and the (cut) error text
      when the edit reports a failure. */
  datatype StatusEdit = StatusEdit(user: int, index: nat, total: nat,
                                   unbanned: nat, failed: nat, error: Option<string>)

  /** The final summary: totals and the first failures, with the count the
      "... and N more" line reports. */
  datatype Summary = Summary(total: nat, unbanned: nat, failed: nat, failures: Page<Failure>)

  /** Where the run stops: the index of the first step that ends it, or the
      length of the snapshot when none does. */
  function FirstAbort(outs: seq<Outcome>): (a: nat)
    ensures a <= |outs|
  {
    if outs == [] then 0
    else if outs[0].ReportFailed? then 0
    else 1 + FirstAbort(outs[1..])
  }

  /** No step before the stopping point ends the run, and the step at it
      does, if there is one. */
  lemma {:induction false} FirstAbortSpec(outs: seq<Outcome>)
    ensures forall j :: 0 <= j < FirstAbort(outs) ==> !outs[j].ReportFailed?
    ensures FirstAbort(outs) < |outs| ==> outs[FirstAbort(outs)].ReportFailed?
  {
    if outs != [] && !outs[0].ReportFailed? {
      FirstAbortSpec(outs[1..]);
      forall j | 0 < j < FirstAbort(outs)
        ensures !outs[j].ReportFailed?
      {
        assert outs[j] == outs[1..][j - 1];
      }
    }
  }

  /** `unbanned_count` after the given steps. */
  function CountUnbanned(outs: seq<Outcome>): (c: nat)
    ensures c <= |outs|
  {
    if outs == [] then 0
    else CountUnbanned(outs[..|outs| - 1]) + (if Unbanned(outs[|outs| - 1]) then 1 else 0)
  }

  /** `failed_count` after the given steps. */
  function CountFailed(outs: seq<Outcome>): (c: nat)
    ensures c <= |outs|
  {
    if outs == [] then 0
    else CountFailed(outs[..|outs| - 1]) + (if Failed(outs[|outs| - 1]) then 1 else 0)
  }

  /** Steps counted both as unbanned and as failed. */
  function CountDouble(outs: seq<Outcome>): nat {
    if outs == [] then 0
    else CountDouble(outs[..|outs| - 1]) + (if outs[|outs| - 1].UnbanOkButEditFailed? then 1 else 0)
  }

  /** The users whose unban call returned, in snapshot order. */
  function SucceededUsers(users: seq<int>, outs: seq<Outcome>): seq<int>
    requires |users| == |outs|
  {
    if users == [] then []
    else
      var n := |users| - 1;
      SucceededUsers(users[..n], outs[..n]) + (if Unbanned(outs[n]) then [users[n]] else [])
  }

  /** The users whose unban call raised, in snapshot order. */
  function KeptUsers(users: seq<int>, outs: seq<Outcome>): seq<int>
    requires |users| == |outs|
  {
    if users == [] then []
    else
      var n := |users| - 1;
      KeptUsers(users[..n], outs[..n]) + (if Unbanned(outs[n]) then [] else [users[n]])
  }

  /** `failed_users` after the given steps. */
  function FailureLog(users: seq<int>, outs: seq<Outcome>): (log: seq<Failure>)
    requires |users| == |outs|
    ensures |log| <= |users|
  {
    if users == [] then []
    else
      var n := |users| - 1;
      var prev := FailureLog(users[..n], outs[..n]);
      if Failed(outs[n]) then prev + [Failure(users[n], Clip(outs[n].error, ErrorTextLimit))]
      else prev
  }

  /** The edits of the status message that went through, one per step. */
  function ProgressLog(users: seq<int>, outs: seq<Outcome>, total: nat): (log: seq<StatusEdit>)
    requires |users| == |outs|
    ensures |log| <= |users|
  {
    if users == [] then []
    else
      var n := |users| - 1;
      var prev := ProgressLog(users[..n], outs[..n], total);
      var edit := StatusEdit(users[n], n + 1, total, CountUnbanned(outs), CountFailed(outs), None);
      match outs[n]
      case UnbanOk => prev + [edit]
      case UnbanFailed(e) => prev + [edit.(error := Some(Clip(e, ErrorTextLimit)))]
      case UnbanOkButEditFailed(e) => prev + [edit.(error := Some(Clip(e, ErrorTextLimit)))]
      case ReportFailed(_) => prev
  }

  /** One user is unbanned per step whose unban call returned, and one
      failure line is logged per failure counted. */
  lemma {:induction false} LogLengths(users: seq<int>, outs: seq<Outcome>)
    requires |users| == |outs|
    ensures |SucceededUsers(users, outs)| == CountUnbanned(outs)
    ensures |FailureLog(users, outs)| == CountFailed(outs)
  {
    if users != [] {
      var n := |users| - 1;
      LogLengths(users[..n], outs[..n]);
    }
  }

  /** The summary of a run over `users` that went to the end. */
  function FinalSummary(users: seq<int>, outs: seq<Outcome>): (s: Summary)
    requires |users| == |outs|
    ensures s.total == |users| && s.unbanned <= s.total && s.failed <= s.total
    ensures NoAbort(outs) ==> s.unbanned + s.failed == s.total + CountDouble(outs)
    ensures |s.failures.shown| <= FailureLimit
    ensures |s.failures.shown| + s.failures.more == s.failed
  {
    LogLengths(users, outs);
    var s := Summary(|users|, CountUnbanned(outs), CountFailed(outs),
                     Paginate(FailureLog(users, outs), FailureLimit));
    if NoAbort(outs) then TalliesAddUp(outs); s else s
  }

  /** Every user of the snapshot is either unbanned or kept, never both:
      the two lists split the snapshot. */
  lemma {:induction false} SnapshotSplits(users: seq<int>, outs: seq<Outcome>)
    requires |users| == |outs|
    ensures multiset(SucceededUsers(users, outs)) + multiset(KeptUsers(users, outs)) == multiset(users)
  {
    if users != [] {
      var n := |users| - 1;
      var u, o := users[..n], outs[..n];
      SnapshotSplits(u, o);
      var x := users[n];
      assert users == u + [x];
      if Unbanned(outs[n]) {
        assert SucceededUsers(users, outs) == SucceededUsers(u, o) + [x];
      } else {
        assert KeptUsers(users, outs) == KeptUsers(u, o) + [x];
      }
    }
  }

  /** The tallies add up: every step of a run that went to the end is
      counted once, except that a step whose unban returned but whose
      progress edit raised is counted both as unbanned and as failed. */
  lemma {:induction false} TalliesAddUp(outs: seq<Outcome>)
    requires NoAbort(outs)
    ensures CountUnbanned(outs) + CountFailed(outs) == |outs| + CountDouble(outs)
  {
    if outs != [] {
      TalliesAddUp(outs[..|outs| - 1]);
    }
  }

  /** So when every progress edit goes through, unbanned plus failed is the
      number of users processed. */
  lemma {:induction false} TalliesWhenEditsSucceed(outs: seq<Outcome>)
    requires forall j :: 0 <= j < |outs| ==> outs[j].UnbanOk? || outs[j].UnbanFailed?
    ensures CountUnbanned(outs) + CountFailed(outs) == |outs|
  {
    TalliesAddUp(outs);
    NoDoubles(outs);
  }

  lemma {:induction false} NoDoubles(outs: seq<Outcome>)
    requires forall j :: 0 <= j < |outs| ==> !outs[j].UnbanOkButEditFailed?
    ensures CountDouble(outs) == 0
  {
    if outs != [] {
      NoDoubles(outs[..|outs| - 1]);
    }
  }

  /** On a duplicate-free snapshot, removing the first occurrence of each
      unbanned user leaves exactly the kept users, in snapshot order, in
      front of the users not yet processed. */
  lemma {:induction false} RemainingAfter(users: seq<int>, outs: seq<Outcome>, i: nat)
    requires NoDup(users) && |users| == |outs| && i <= |users|
    ensures RemoveEach(users, SucceededUsers(users[..i], outs[..i]))
            == KeptUsers(users[..i], outs[..i]) + users[i..]
  {
    if i == 0 {
      assert users[..0] == [] && outs[..0] == [];
      assert users[0..] == users;
    } else {
      var j := i - 1;
      RemainingAfter(users, outs, j);
      NoDupPrefixExcludes(users, j);
      RemainingStep(users, outs, j);
      assert j + 1 == i;
    }
  }

  /** One more step of RemainingAfter. */
  lemma RemainingStep(users: seq<int>, outs: seq<Outcome>, j: nat)
    requires |users| == |outs| && j < |users| && users[j] !in users[..j]
    requires RemoveEach(users, SucceededUsers(users[..j], outs[..j]))
             == KeptUsers(users[..j], outs[..j]) + users[j..]
    ensures RemoveEach(users, SucceededUsers(users[..j + 1], outs[..j + 1]))
            == KeptUsers(users[..j + 1], outs[..j + 1]) + users[j + 1..]
  {
    PrefixSnoc(users, outs, j);
    var u, o := users[..j], outs[..j];
    var x, rest := users[j], users[j + 1..];
    assert users[j..] == [x] + rest;
    if Unbanned(outs[j]) {
      KeptExcludes(u, o, x);
      RemoveUnbanned(users, SucceededUsers(u, o), KeptUsers(u, o), x, rest);
    } else {
      assert (KeptUsers(u, o) + [x]) + rest == KeptUsers(u, o) + ([x] + rest);
    }
  }

  /** A user absent from the snapshot is not among the kept users. */
  lemma {:induction false} KeptExcludes(users: seq<int>, outs: seq<Outcome>, x: int)
    requires |users| == |outs| && x !in users
    ensures x !in KeptUsers(users, outs)
  {
    if users != [] {
      var n := |users| - 1;
      assert x !in users[..n] by {
        assert forall k :: 0 <= k < n ==> users[..n][k] == users[k];
      }
      KeptExcludes(users[..n], outs[..n], x);
    }
  }

  /** Removing the user just unbanned, who is not among the kept ones. */
  lemma {:induction false} RemoveUnbanned(users: seq<int>, succ: seq<int>, kept: seq<int>, x: int, rest: seq<int>)
    requires RemoveEach(users, succ) == kept + ([x] + rest)
    requires x !in kept
    ensures RemoveEach(users, succ + [x]) == kept + rest
  {
    assert (succ + [x])[..|succ|] == succ;
    RemoveFirstAppend(kept, [x] + rest, x);
  }

  /** The run stops at the first step that ends it. */
  lemma {:induction false} AbortAt(outs: seq<Outcome>, i: nat)
    requires i < |outs| && NoAbort(outs[..i]) && outs[i].ReportFailed?
    ensures FirstAbort(outs) == i
  {
    FirstAbortSpec(outs);
  }

  /** A run with no step that ends it goes to the end. */
  lemma {:induction false} NoAbortRunsThrough(outs: seq<Outcome>)
    requires NoAbort(outs)
    ensures FirstAbort(outs) == |outs|
  {
    FirstAbortSpec(outs);
  }

  /** The tallies one step further, and whether that step ends the run. */
  lemma {:induction false} CountStep(outs: seq<Outcome>, i: nat)
    requires i < |outs|
    ensures CountUnbanned(outs[..i + 1]) == CountUnbanned(outs[..i]) + (if Unbanned(outs[i]) then 1 else 0)
    ensures CountFailed(outs[..i + 1]) == CountFailed(outs[..i]) + (if Failed(outs[i]) then 1 else 0)
    ensures NoAbort(outs[..i + 1]) <==> NoAbort(outs[..i]) && !outs[i].ReportFailed?
  {
    assert outs[..i + 1][..i] == outs[..i];
    assert forall j :: 0 <= j < i ==> outs[..i + 1][j] == outs[..i][j];
  }

  /** The failure list and the status edits one step further. */
  lemma {:induction false} LogStep(users: seq<int>, outs: seq<Outcome>, total: nat, i: nat)
    requires |users| == |outs| && i < |users|
    ensures users[..i + 1] == users[..i] + [users[i]]
    ensures FailureLog(users[..i + 1], outs[..i + 1]) == FailureLog(users[..i], outs[..i]) +
      (if Failed(outs[i]) then [Failure(users[i], Clip(outs[i].error, ErrorTextLimit))] else [])
    ensures ProgressLog(users[..i + 1], outs[..i + 1], total) == ProgressLog(users[..i], outs[..i], total) +
      (if outs[i].ReportFailed? then []
       else [StatusEdit(users[i], i + 1, total, CountUnbanned(outs[..i + 1]), CountFailed(outs[..i + 1]),
                        if outs[i].UnbanOk? then None else Some(Clip(outs[i].error, ErrorTextLimit)))])
  {
    assert users[..i + 1][..i] == users[..i];
    assert outs[..i + 1][..i] == outs[..i];
  }

  /** The removals one step further: a user whose unban returned is removed
      from what the earlier steps left. */
  lemma {:induction false} RemovalStep(users: seq<int>, outs: seq<Outcome>, i: nat)
    requires |users| == |outs| && i < |users|
    ensures RemoveEach(users, SucceededUsers(users[..i + 1], outs[..i + 1])) ==
      (if Unbanned(outs[i]) then RemoveFirst(RemoveEach(users, SucceededUsers(users[..i], outs[..i])), users[i])
       else RemoveEach(users, SucceededUsers(users[..i], outs[..i])))
  {
    PrefixSnoc(users, outs, i);
    var succ := SucceededUsers(users[..i], outs[..i]);
    if Unbanned(outs[i]) {
      assert (succ + [users[i]])[..|succ|] == succ;
    }
  }

  /** The user a step handles is still in the ledger when its turn comes,
      so `list.remove` finds it: the removals so far took only users that
      come before it in the snapshot. */
  lemma {:induction false} StillTracked(users: seq<int>, outs: seq<Outcome>, i: nat)
    requires |users| == |outs| && i < |users|
    ensures users[i] in RemoveEach(users, SucceededUsers(users[..i], outs[..i]))
  {
    var succ := SucceededUsers(users[..i], outs[..i]);
    SnapshotSplits(users[..i], outs[..i]);
    PrefixBelow(users, succ, i);
    RemoveEachMultiset(users, succ);
    assert users[i] in multiset(RemoveEach(users, succ));
  }

  /** Taking away a part of the first `i` entries leaves entry `i` there. */
  lemma {:induction false} PrefixBelow(users: seq<int>, succ: seq<int>, i: nat)
    requires i < |users| && multiset(succ) <= multiset(users[..i])
    ensures multiset(succ) <= multiset(users)
    ensures users[i] in multiset(users) - multiset(succ)
  {
    assert users == users[..i] + users[i..];
    assert multiset(users) == multiset(users[..i]) + multiset(users[i..]);
    assert users[i] in multiset(users[i..]);
  }

  /** The succeeded and kept lists of a prefix one step longer. */
  lemma {:induction false} PrefixSnoc(users: seq<int>, outs: seq<Outcome>, j: nat)
    requires |users| == |outs| && j < |users|
    ensures Unbanned(outs[j]) ==>
      && SucceededUsers(users[..j + 1], outs[..j + 1]) == SucceededUsers(users[..j], outs[..j]) + [users[j]]
      && KeptUsers(users[..j + 1], outs[..j + 1]) == KeptUsers(users[..j], outs[..j])
    ensures !Unbanned(outs[j]) ==>
      && SucceededUsers(users[..j + 1], outs[..j + 1]) == SucceededUsers(users[..j], outs[..j])
      && KeptUsers(users[..j + 1], outs[..j + 1]) == KeptUsers(users[..j], outs[..j]) + [users[j]]
  {
    assert users[..j + 1][..j] == users[..j];
    assert outs[..j + 1][..j] == outs[..j];
  }

  lemma {:induction false} NoDupPrefixExcludes(s: seq<int>, j: nat)
    requires NoDup(s) && j < |s|
    ensures s[j] !in s[..j]
  {
    forall k | 0 <= k < j
      ensures s[..j][k] != s[j]
    {
      assert s[..j][k] == s[k];
    }
  }

  /** A whole run over a duplicate-free snapshot leaves exactly the users
      whose unban raised, in their original order. */
  lemma {:induction false} RunLeavesKept(users: seq<int>, outs: seq<Outcome>)
    requires NoDup(users) && |users| == |outs|
    ensures RemoveEach(users, SucceededUsers(users, outs)) == KeptUsers(users, outs)
  {
    RemainingAfter(users, outs, |users|);
    assert users[..|users|] == users && outs[..|outs|] == outs;
  }

  /** A kept user is one whose unban call raised. */
  lemma {:induction false} KeptAreFailures(users: seq<int>, outs: seq<Outcome>, y: int)
    requires |users| == |outs|
    ensures y in KeptUsers(users, outs) <==>
            exists j :: 0 <= j < |users| && users[j] == y && !Unbanned(outs[j])
  {
    if users != [] {
      var n := |users| - 1;
      KeptAreFailures(users[..n], outs[..n], y);
      if y in KeptUsers(users, outs) && y !in KeptUsers(users[..n], outs[..n]) {
        assert users[n] == y && !Unbanned(outs[n]);
      }
      if exists j :: 0 <= j < |users| && users[j] == y && !Unbanned(outs[j]) {
        var j :| 0 <= j < |users| && users[j] == y && !Unbanned(outs[j]);
        if j < n {
          assert users[..n][j] == y && outs[..n][j] == outs[j];
        }
      }
    }
  }

  /** Each failure line names a user of the snapshot whose unban raised or
      whose progress edit raised, with an error text of at most 50
      characters. */
  lemma {:induction false} FailureLogEntries(users: seq<int>, outs: seq<Outcome>)
    requires |users| == |outs|
    ensures forall j :: 0 <= j < |FailureLog(users, outs)| ==>
      && |FailureLog(users, outs)[j].error| <= ErrorTextLimit
      && exists k :: 0 <= k < |users| && users[k] == FailureLog(users, outs)[j].user && Failed(outs[k])
  {
    if users != [] {
      var n := |users| - 1;
      FailureLogEntries(users[..n], outs[..n]);
      var prev := FailureLog(users[..n], outs[..n]);
      var log := FailureLog(users, outs);
      assert log == if Failed(outs[n]) then prev + [Failure(users[n], Clip(outs[n].error, ErrorTextLimit))] else prev;
      forall j | 0 <= j < |log|
        ensures |log[j].error| <= ErrorTextLimit
        ensures exists k :: 0 <= k < |users| && users[k] == log[j].user && Failed(outs[k])
      {
        if j < |prev| {
          assert log[j] == prev[j];
          var k :| 0 <= k < n && users[..n][k] == prev[j].user && Failed(outs[..n][k]);
          assert users[k] == log[j].user && Failed(outs[k]);
        } else {
          assert users[n] == log[j].user && Failed(outs[n]);
        }
      }
    }
  }

  /** The status message is edited once per user, in snapshot order, with
      the progress `index/total` and a failure note exactly when the user's
      step raised. */
  lemma {:induction false} ProgressOnePerUser(users: seq<int>, outs: seq<Outcome>, total: nat)
    requires |users| == |outs| && NoAbort(outs)
    ensures var log := ProgressLog(users, outs, total);
      && |log| == |users|
      && forall j :: 0 <= j < |log| ==>
           && log[j].user == users[j]
           && log[j].index == j + 1
           && log[j].total == total
           && (log[j].error.None? <==> outs[j].UnbanOk?)
  {
    if users != [] {
      var n := |users| - 1;
      assert NoAbort(outs[..n]);
      ProgressOnePerUser(users[..n], outs[..n], total);
    }
  }

  /** The tallies an edit shows are those after that user's step. */
  lemma {:induction false} ProgressTallies(users: seq<int>, outs: seq<Outcome>, total: nat, j: nat)
    requires |users| == |outs| && NoAbort(outs) && j < |users|
    ensures j < |ProgressLog(users, outs, total)|
            && ProgressLog(users, outs, total)[j].unbanned == CountUnbanned(outs[..j + 1])
            && ProgressLog(users, outs, total)[j].failed == CountFailed(outs[..j + 1])
  {
    ProgressOnePerUser(users, outs, total);
    var n := |users| - 1;
    if j < n {
      assert NoAbort(outs[..n]);
      ProgressTallies(users[..n], outs[..n], total, j);
      ProgressOnePerUser(users[..n], outs[..n], total);
      assert outs[..n][..j + 1] == outs[..j + 1];
    } else {
      assert outs[..j + 1] == outs;
    }
  }

  /** A run in which every unban returns unbans everyone, fails no one and
      leaves the chat's list empty. */
  lemma {:induction false} AllSucceed(users: seq<int>, outs: seq<Outcome>)
    requires |users| == |outs|
    requires forall j :: 0 <= j < |outs| ==> outs[j].UnbanOk?
    ensures CountUnbanned(outs) == |users| && CountFailed(outs) == 0
    ensures KeptUsers(users, outs) == [] && FailureLog(users, outs) == []
  {
    if users != [] {
      var n := |users| - 1;
      AllSucceed(users[..n], outs[..n]);
    }
  }
}
