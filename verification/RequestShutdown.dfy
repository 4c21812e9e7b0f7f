/**
 Shutdown and thread limits of the concurrent request loop: what the flag stops,
 and how many requests are worked on at a time.
 */
module RequestShutdown {
  import opened Common
  import opened RequestLoop

  // --------------------------------------------------------------- once the flag is set

  /** The line the reader has let past the flag and not yet handled. */
  function InHand(s: State): set<nat> {
    if s.reader.Accepted? && s.pos > 0 then {s.pos - 1} else {}
  }

  /**
   `s` comes after `early`, in which the flag was already set: since then only the
   line in hand can have been submitted, at most one more line was read, and a
   line read since then has not been let past the flag.
   */
  ghost predicate WindsDown(early: State, s: State) {
    && s.shutdown
    && early.tasks.Keys <= s.tasks.Keys <= early.tasks.Keys + InHand(early)
    && (LeftLoop(early) ==> LeftLoop(s))
    && (if s.pos == early.pos
        then (s.reader.Accepted? ==> early.reader.Accepted?)
             && (early.reader.GotLine? ==> s.reader.GotLine? || LeftLoop(s))
             && (s.reader.GotLine? ==> early.reader.GotLine?)
        else s.pos == early.pos + 1 && !early.reader.GotLine? && (s.reader.GotLine? || LeftLoop(s)))
  }

  lemma {:induction false} StepWindsDown(lines: seq<Line>, maxThreads: nat, early: State, s: State, a: Action)
    requires WindsDown(early, s) && Enabled(lines, maxThreads, s, a)
    ensures WindsDown(early, Apply(lines, maxThreads, s, a))
  {
  }

  /**
   From the moment the flag is set, whatever the schedule: of all lines only the
   one the reader already holds past the flag can still be submitted, and the
   reader takes at most one more line, none if it holds one it has not checked.
   */
  lemma {:induction false} FlagStopsTheReader(lines: seq<Line>, maxThreads: nat, schedule: seq<Action>, m: nat)
    requires m <= |schedule| && Exec(lines, maxThreads, schedule).Some?
    requires Exec(lines, maxThreads, schedule[..m]).Some? && Exec(lines, maxThreads, schedule[..m]).value.shutdown
    ensures var early, late := Exec(lines, maxThreads, schedule[..m]).value, Exec(lines, maxThreads, schedule).value;
            && WindsDown(early, late)
            && (!early.reader.Accepted? ==> late.tasks.Keys == early.tasks.Keys)
            && late.pos <= early.pos + (if early.reader.GotLine? then 0 else 1)
    decreases |schedule|
  {
    if m < |schedule| {
      var before := schedule[..|schedule| - 1];
      assert before[..m] == schedule[..m];
      FlagStopsTheReader(lines, maxThreads, before, m);
      StepWindsDown(lines, maxThreads, Exec(lines, maxThreads, schedule[..m]).value,
                    Exec(lines, maxThreads, before).value, schedule[|schedule| - 1]);
    } else {
      assert schedule[..m] == schedule;
    }
  }

  lemma {:induction false} StepAfterDropping(lines: seq<Line>, maxThreads: nat, s: State, a: Action)
    requires Dropped(s.reader) && Enabled(lines, maxThreads, s, a)
    ensures var s' := Apply(lines, maxThreads, s, a);
            Dropped(s'.reader) && s'.pos == s.pos && s'.tasks.Keys == s.tasks.Keys
  {
  }

  lemma {:induction false} CheckDrops(lines: seq<Line>, maxThreads: nat, s: State)
    requires s.shutdown && Enabled(lines, maxThreads, s, CheckFlag)
    ensures var s' := Apply(lines, maxThreads, s, CheckFlag);
            Dropped(s'.reader) && s'.pos == s.pos && s'.tasks.Keys == s.tasks.Keys
  {
  }

  /** A reader that looks at a set flag discards its line and never comes back to the input. */
  lemma {:induction false} CheckedFlagEndsReading(lines: seq<Line>, maxThreads: nat, schedule: seq<Action>, m: nat)
    requires m < |schedule| && Exec(lines, maxThreads, schedule).Some? && schedule[m] == CheckFlag
    requires Exec(lines, maxThreads, schedule[..m]).Some? && Exec(lines, maxThreads, schedule[..m]).value.shutdown
    ensures var early, late := Exec(lines, maxThreads, schedule[..m]).value, Exec(lines, maxThreads, schedule).value;
            LeftLoop(late) && Dropped(late.reader) && late.pos == early.pos && late.tasks.Keys == early.tasks.Keys
    decreases |schedule|
  {
    var before, last := schedule[..|schedule| - 1], schedule[|schedule| - 1];
    if m < |before| {
      assert before[..m] == schedule[..m] && before[m] == schedule[m];
      CheckedFlagEndsReading(lines, maxThreads, before, m);
      StepAfterDropping(lines, maxThreads, Exec(lines, maxThreads, before).value, last);
    } else {
      assert before == schedule[..m];
      CheckDrops(lines, maxThreads, Exec(lines, maxThreads, before).value);
    }
  }

  /** Every line submitted was let past while the flag was clear. */
  lemma {:induction false} ClearFlagAccepts(lines: seq<Line>, maxThreads: nat, schedule: seq<Action>)
    requires schedule != [] && schedule[|schedule| - 1] == CheckFlag && Exec(lines, maxThreads, schedule).Some?
    ensures var before := Exec(lines, maxThreads, schedule[..|schedule| - 1]).value;
            var after := Exec(lines, maxThreads, schedule).value;
            (after.reader.Accepted? <==> !before.shutdown) && (Dropped(after.reader) <==> before.shutdown)
  {
  }

  // ------------------------------------------------------------------- the thread pool

  lemma {:induction false} SmallerSet(a: set<nat>, b: set<nat>)
    requires a <= b
    ensures |a| <= |b|
  {
    if a != {} {
      var x := Witness(a);
      SmallerSet(a - {x}, b - {x});
    }
  }

  lemma {:induction false} StepKeepsThreads(lines: seq<Line>, maxThreads: nat, s: State, a: Action)
    requires |Active(s)| <= maxThreads && Enabled(lines, maxThreads, s, a)
    ensures |Active(Apply(lines, maxThreads, s, a))| <= maxThreads
  {
    var s' := Apply(lines, maxThreads, s, a);
    if a.Start? {
      assert Active(s') == Active(s) + {a.i};
    } else {
      SmallerSet(Active(s'), Active(s));
    }
  }

  /** In no reachable state are more requests being worked on than the pool has threads. */
  lemma {:induction false} ThreadsAreLimited(lines: seq<Line>, maxThreads: nat, schedule: seq<Action>)
    requires Exec(lines, maxThreads, schedule).Some?
    ensures |Active(Exec(lines, maxThreads, schedule).value)| <= maxThreads
  {
    if schedule == [] {
      assert Active(INIT) == {};
    } else {
      var before := schedule[..|schedule| - 1];
      ThreadsAreLimited(lines, maxThreads, before);
      StepKeepsThreads(lines, maxThreads, Exec(lines, maxThreads, before).value, schedule[|schedule| - 1]);
    }
  }

  /** A free thread never has to wait: with fewer requests active than threads, the oldest queued one can start. */
  lemma {:induction false} FreeThreadTakesTheOldest(lines: seq<Line>, maxThreads: nat, s: State, i: nat)
    returns (j: nat)
    requires InPhase(s, i, Queued) && |Active(s)| < maxThreads
    ensures j <= i && InPhase(s, j, Queued) && Enabled(lines, maxThreads, s, Start(j))
    ensures forall k: nat :: Enabled(lines, maxThreads, s, Start(k)) ==> k == j
  {
    j := LeastQueued(s, i);
  }
}
