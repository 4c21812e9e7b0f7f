/**
 What the history fields of the registry runs record: the order in which the
 operations commit, and whether each did so on the file at the path.
 */
module RegistryHistory {
  import opened Common
  import opened Registry
  import opened RegistryRuns

  predicate IsPast(ph: Phase) {
    ph.Committed? || ph.Finished?
  }

  /** The commit order lists exactly the operations past their commit, each once. */
  ghost predicate ListsCommitted(s: State) {
    Distinct(s.commits) && forall p: nat :: p in s.commits <==> p < |s.phases| && IsPast(s.phases[p])
  }

  lemma {:induction false} Commits(s: State, s': State, p: nat, ph: Phase)
    requires ListsCommitted(s) && p < |s.phases| && !IsPast(s.phases[p]) && IsPast(ph)
    requires s'.phases == s.phases[p := ph] && s'.commits == s.commits + [p]
    ensures ListsCommitted(s')
  {
    assert p !in s.commits;
    DistinctSnoc(s.commits, p);
    forall q: nat ensures q in s'.commits <==> q < |s'.phases| && IsPast(s'.phases[q]) {
      assert q in s'.commits <==> q in s.commits || q == p;
    }
  }

  lemma {:induction false} Moves(s: State, s': State, p: nat, ph: Phase)
    requires ListsCommitted(s) && p < |s.phases| && (IsPast(ph) <==> IsPast(s.phases[p]))
    requires s'.phases == s.phases[p := ph] && s'.commits == s.commits
    ensures ListsCommitted(s')
  {
    forall q: nat ensures q in s'.commits <==> q < |s'.phases| && IsPast(s'.phases[q]) {
      assert q in s.commits <==> q < |s.phases| && IsPast(s.phases[q]);
    }
  }

  lemma {:induction false} StepListsCommitted(ops: seq<Op>, s: State, p: nat)
    requires ListsCommitted(s) && Enabled(ops, s, p)
    ensures ListsCommitted(Apply(ops, s, p))
  {
    var s' := Apply(ops, s, p);
    if IsPast(s'.phases[p]) && !IsPast(s.phases[p]) {
      Commits(s, s', p, s'.phases[p]);
    } else {
      Moves(s, s', p, s'.phases[p]);
    }
  }

  /** In every interleaving each operation commits at most once, and has when it is finished. */
  lemma {:induction false} EachCommitsOnce(ops: seq<Op>, initial: Option<Content>, schedule: seq<nat>)
    requires Exec(ops, initial, schedule).Some?
    ensures ListsCommitted(Exec(ops, initial, schedule).value)
  {
    if schedule != [] {
      var before, p := schedule[..|schedule| - 1], schedule[|schedule| - 1];
      EachCommitsOnce(ops, initial, before);
      StepListsCommitted(ops, Exec(ops, initial, before).value, p);
    }
  }

  /** If step `k` of the schedule is a commit, it is made while the handle, if any, is the file at the path. */
  ghost predicate OnCurrent(ops: seq<Op>, initial: Option<Content>, schedule: seq<nat>, k: nat)
    requires k < |schedule|
  {
    var now, then' := Exec(ops, initial, schedule[..k]), Exec(ops, initial, schedule[..k + 1]);
    now.Some? && then'.Some? && then'.value.commits != now.value.commits && HandleOf(now.value, schedule[k]).Some? ==>
      now.value.current == HandleOf(now.value, schedule[k])
  }

  lemma {:induction false} StepClean(ops: seq<Op>, s: State, p: nat)
    requires Enabled(ops, s, p)
    ensures var s' := Apply(ops, s, p);
            s'.clean
            <==> && s.clean
                 && (s'.commits != s.commits && HandleOf(s, p).Some? ==> s.current == HandleOf(s, p))
  {
  }

  lemma {:induction false} PrefixStep(ops: seq<Op>, initial: Option<Content>, schedule: seq<nat>, before: seq<nat>,
                                      k: nat)
    requires schedule != [] && before == schedule[..|schedule| - 1] && k < |before|
    ensures OnCurrent(ops, initial, before, k) <==> OnCurrent(ops, initial, schedule, k)
  {
    assert before[..k] == schedule[..k] && before[..k + 1] == schedule[..k + 1];
  }

  lemma {:induction false} LastStep(ops: seq<Op>, initial: Option<Content>, schedule: seq<nat>)
    requires schedule != [] && Exec(ops, initial, schedule).Some?
    ensures var before := schedule[..|schedule| - 1];
            Exec(ops, initial, schedule).value.clean
            <==> Exec(ops, initial, before).value.clean && OnCurrent(ops, initial, schedule, |schedule| - 1)
  {
    var n := |schedule| - 1;
    assert schedule[..n + 1] == schedule;
    StepClean(ops, Exec(ops, initial, schedule[..n]).value, schedule[n]);
  }

  /** A run counts as clean exactly if each of its commits was made on the file then at the path. */
  lemma {:induction false} CleanIff(ops: seq<Op>, initial: Option<Content>, schedule: seq<nat>)
    requires Exec(ops, initial, schedule).Some?
    ensures Exec(ops, initial, schedule).value.clean
        <==> forall k :: 0 <= k < |schedule| ==> OnCurrent(ops, initial, schedule, k)
  {
    if schedule != [] {
      var before, n := schedule[..|schedule| - 1], |schedule| - 1;
      CleanIff(ops, initial, before);
      LastStep(ops, initial, schedule);
      forall k | 0 <= k < n
        ensures OnCurrent(ops, initial, before, k) <==> OnCurrent(ops, initial, schedule, k)
      {
        PrefixStep(ops, initial, schedule, before, k);
      }
    }
  }
}
