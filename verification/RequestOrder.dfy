/**
 The order of replies in the concurrent request loop: which replies may come
 before the reply to an earlier line, with any number of threads and with one.
 */
module RequestOrder {
  import opened Common
  import opened RequestLoop

  /** The reply served at place `p` is to a later line than the one served after it at place `q`. */
  predicate Overtakes(served: seq<nat>, p: int, q: int) {
    0 <= p < q < |served| && served[p] > served[q]
  }

  /** Only requests are overtaken: nothing passes an error reply, and so errors keep their order. */
  ghost predicate OnlyRequestsWait(lines: seq<Line>, served: seq<nat>) {
    forall p, q :: Overtakes(served, p, q) ==> served[q] < |lines| && lines[served[q]].Request?
  }

  /** Only error replies overtake, and so requests keep their order. */
  ghost predicate OnlyErrorsPass(lines: seq<Line>, served: seq<nat>) {
    forall p, q :: Overtakes(served, p, q) ==> served[p] < |lines| && lines[served[p]].Malformed?
  }

  /** Every task before one that has left the queue is done. */
  ghost predicate OneAtATime(s: State) {
    forall i, j :: i in s.tasks && j in s.tasks && i < j && s.tasks[j] != Queued ==> s.tasks[i] == Done
  }

  lemma {:induction false} OvertakesSnoc(served: seq<nat>, i: nat, p: int, q: int)
    requires Overtakes(served + [i], p, q)
    ensures if q < |served| then Overtakes(served, p, q) else served[p] in served && served[p] > i
  {
  }

  /** An error reply is to the last line read, so it overtakes nothing and nothing it follows is later. */
  lemma {:induction false} ErrorServedLast(lines: seq<Line>, s: State, p: nat)
    requires ServedFacts(lines, s) && TaskFacts(lines, s) && s.reader.Writing? && p in s.served
    ensures p < s.pos - 1
  {
  }

  lemma {:induction false} StepKeepsRequestsWaiting(lines: seq<Line>, maxThreads: nat, s: State, a: Action)
    requires TaskFacts(lines, s) && ServedFacts(lines, s) && OnlyRequestsWait(lines, s.served)
    requires Enabled(lines, maxThreads, s, a)
    ensures OnlyRequestsWait(lines, Apply(lines, maxThreads, s, a).served)
  {
    var s' := Apply(lines, maxThreads, s, a);
    forall p, q | Overtakes(s'.served, p, q) ensures s'.served[q] < |lines| && lines[s'.served[q]].Request? {
      if a.ReaderRelease? || a.TaskRelease? {
        OvertakesSnoc(s.served, s'.served[|s.served|], p, q);
        if q == |s.served| && a.ReaderRelease? {
          ErrorServedLast(lines, s, s.served[p]);
        }
      }
    }
  }

  lemma {:induction false} NothingActive(s: State, i: nat)
    requires |Active(s)| < 1 && i in s.tasks
    ensures s.tasks[i] == Queued || s.tasks[i] == Done
  {
    assert Active(s) == {};
    assert i !in Active(s);
  }

  lemma {:induction false} StartKeepsOneAtATime(lines: seq<Line>, s: State, k: nat)
    requires OneAtATime(s) && Enabled(lines, 1, s, Start(k))
    ensures OneAtATime(Apply(lines, 1, s, Start(k)))
  {
    var s' := Apply(lines, 1, s, Start(k));
    forall i, j | i in s'.tasks && j in s'.tasks && i < j && s'.tasks[j] != Queued ensures s'.tasks[i] == Done {
      NothingActive(s, i);
      if j == k {
        assert s.tasks[i] != Queued;
      } else {
        assert s.tasks[j] != Queued;
      }
    }
  }

  lemma {:induction false} StepKeepsOneAtATime(lines: seq<Line>, s: State, a: Action)
    requires TaskFacts(lines, s) && OneAtATime(s) && Enabled(lines, 1, s, a)
    ensures OneAtATime(Apply(lines, 1, s, a))
  {
    if a.Start? {
      StartKeepsOneAtATime(lines, s, a.i);
    }
  }

  /** A request released by the only thread is later than every request served before. */
  lemma {:induction false} ReleasedIsNewest(lines: seq<Line>, s: State, i: nat, p: nat)
    requires TaskFacts(lines, s) && ServedFacts(lines, s) && OneAtATime(s)
    requires i in s.tasks && s.tasks[i].Emitting? && p in s.served && p > i
    ensures p < |lines| && lines[p].Malformed?
  {
    assert !IsServed(s, p);
  }

  lemma {:induction false} StepKeepsErrorsPassing(lines: seq<Line>, s: State, a: Action)
    requires TaskFacts(lines, s) && ServedFacts(lines, s) && OneAtATime(s) && OnlyErrorsPass(lines, s.served)
    requires Enabled(lines, 1, s, a)
    ensures OnlyErrorsPass(lines, Apply(lines, 1, s, a).served)
  {
    var s' := Apply(lines, 1, s, a);
    forall p, q | Overtakes(s'.served, p, q) ensures s'.served[p] < |lines| && lines[s'.served[p]].Malformed? {
      if a.ReaderRelease? || a.TaskRelease? {
        OvertakesSnoc(s.served, s'.served[|s.served|], p, q);
        if q == |s.served| && a.ReaderRelease? {
          ErrorServedLast(lines, s, s.served[p]);
        } else if q == |s.served| {
          ReleasedIsNewest(lines, s, a.i, s.served[p]);
        }
      }
    }
  }

  /** With any number of threads, no reply comes before the error reply to an earlier line. */
  lemma {:induction false} NothingOvertakesAnError(lines: seq<Line>, maxThreads: nat, schedule: seq<Action>)
    requires Exec(lines, maxThreads, schedule).Some?
    ensures OnlyRequestsWait(lines, Exec(lines, maxThreads, schedule).value.served)
  {
    if schedule != [] {
      var before, a := schedule[..|schedule| - 1], schedule[|schedule| - 1];
      NothingOvertakesAnError(lines, maxThreads, before);
      ExecKeepsInv(lines, maxThreads, before);
      StepKeepsRequestsWaiting(lines, maxThreads, Exec(lines, maxThreads, before).value, a);
    }
  }

  /**
   With one thread, requests are answered in input order, and only error replies
   come before the reply to an earlier request.
   */
  lemma {:induction false} OneThreadKeepsOrder(lines: seq<Line>, schedule: seq<Action>)
    requires Exec(lines, 1, schedule).Some?
    ensures OneAtATime(Exec(lines, 1, schedule).value)
    ensures OnlyErrorsPass(lines, Exec(lines, 1, schedule).value.served)
  {
    if schedule != [] {
      var before, a := schedule[..|schedule| - 1], schedule[|schedule| - 1];
      var s := Exec(lines, 1, before).value;
      OneThreadKeepsOrder(lines, before);
      ExecKeepsInv(lines, 1, before);
      StepKeepsOneAtATime(lines, s, a);
      StepKeepsErrorsPassing(lines, s, a);
    }
  }
}
