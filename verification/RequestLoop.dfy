/**
 The worker's request loops: the sequential one, and the concurrent one as a
 step relation over a reader, a thread pool, a stdout lock and a shutdown flag.
 */
module RequestLoop {
  import opened Common

  /**
   A raw input line with what becomes of it: blank lines are skipped, lines that
   are not JSON get an error reply, and requests get the reply their dispatch
   computes, which may also ask for shutdown.
   */
  datatype Line =
    | Blank
    | Malformed(reply: string)
    | Request(reply: string, shutdown: bool)

  /** Replies are single JSON lines. */
  ghost predicate OneLineReplies(lines: seq<Line>) {
    forall i :: 0 <= i < |lines| && !lines[i].Blank? ==> '\n' !in lines[i].reply
  }

  /** The characters written for line `i`. */
  function Text(lines: seq<Line>, i: nat): string
    requires i < |lines| && !lines[i].Blank?
  {
    lines[i].reply + "\n"
  }

  // ------------------------------------------------------------- the sequential loop

  predicate StopsAt(lines: seq<Line>, i: nat) {
    i < |lines| && lines[i].Request? && lines[i].shutdown
  }

  /** How many lines the sequential loop takes: through the first shutdown request, or all. */
  function SequentialStop(lines: seq<Line>, from: nat): (n: nat)
    requires from <= |lines|
    ensures from <= n <= |lines|
    ensures forall i :: from <= i < n - 1 ==> !StopsAt(lines, i)
    ensures n < |lines| || (n > from && StopsAt(lines, n - 1)) ==> n > from && StopsAt(lines, n - 1)
    decreases |lines| - from
  {
    if from == |lines| then from
    else if StopsAt(lines, from) then from + 1
    else SequentialStop(lines, from + 1)
  }

  /** The replies to the first `n` lines, in order. */
  function Replies(lines: seq<Line>, n: nat): seq<string>
    requires n <= |lines|
  {
    if n == 0 then []
    else Replies(lines, n - 1) + (if lines[n - 1].Blank? then [] else [lines[n - 1].reply])
  }

  function JoinLines(ls: seq<string>): string {
    if ls == [] then "" else JoinLines(ls[..|ls| - 1]) + ls[|ls| - 1] + "\n"
  }

  method ServeStdio(lines: seq<Line>) returns (out: string)
    ensures out == JoinLines(Replies(lines, SequentialStop(lines, 0)))
  {
    out := "";
    var i := 0;
    while i < |lines|
      invariant i <= |lines| && out == JoinLines(Replies(lines, i))
      invariant SequentialStop(lines, 0) == SequentialStop(lines, i)
    {
      var line := lines[i];
      i := i + 1;
      if line.Blank? {
        assert Replies(lines, i) == Replies(lines, i - 1);
      } else {
        ghost var before := Replies(lines, i - 1);
        ghost var more := before + [line.reply];
        assert more[..|more| - 1] == before;
        out := out + line.reply + "\n";
        if line.Request? && line.shutdown {
          break;
        }
      }
    }
  }

  // ------------------------------------------------------------ the concurrent loop

  datatype Reader =
    | AtRead                    // about to take the next line
    | GotLine                   // has a line, has not looked at the flag
    | Accepted                  // looked, the flag was clear
    | NeedLock                  // has an error reply to write
    | Writing(k: nat)           // holds the lock, k characters written
    | Draining(dropped: bool)   // left the loop; `dropped` if the flag made it discard its line
    | Returned(dropped: bool)

  datatype Phase = Queued | Running | Waiting | Emitting(k: nat) | Written | Done

  datatype Holder = ReaderHolds | TaskHolds(i: nat)

  /** `served` is a history: the lines whose replies are completely written, in order. */
  datatype State = State(
    pos: nat, reader: Reader, shutdown: bool, tasks: map<nat, Phase>,
    lock: Option<Holder>, out: string, served: seq<nat>)

  datatype Action =
    | ReadLine | ReachEnd | CheckFlag | Handle
    | ReaderLock | ReaderWrite | ReaderRelease | Return
    | Start(i: nat) | Dispatch(i: nat) | TaskLock(i: nat) | TaskWrite(i: nat) | TaskRelease(i: nat) | Finish(i: nat)

  const INIT := State(0, AtRead, false, map[], None, "", [])

  predicate InPhase(s: State, i: nat, p: Phase) {
    i in s.tasks && s.tasks[i] == p
  }

  function Active(s: State): set<nat> {
    set i | i in s.tasks && s.tasks[i] != Queued && s.tasks[i] != Done
  }

  predicate Enabled(lines: seq<Line>, maxThreads: nat, s: State, a: Action) {
    match a
    case ReadLine => s.reader.AtRead? && s.pos < |lines|
    case ReachEnd => s.reader.AtRead? && s.pos >= |lines|
    case CheckFlag => s.reader.GotLine?
    case Handle => s.reader.Accepted? && 0 < s.pos <= |lines|
    case ReaderLock => s.reader.NeedLock? && s.lock.None?
    case ReaderWrite => s.reader.Writing? && HasReply(lines, s.pos - 1) && s.reader.k < |Text(lines, s.pos - 1)|
    case ReaderRelease => s.reader.Writing? && HasReply(lines, s.pos - 1) && s.reader.k == |Text(lines, s.pos - 1)|
    case Return => s.reader.Draining? && forall i :: i in s.tasks ==> s.tasks[i] == Done
    case Start(i) => InPhase(s, i, Queued) && |Active(s)| < maxThreads
                     && forall j: nat :: j in s.tasks && j < i ==> s.tasks[j] != Queued
    case Dispatch(i) => InPhase(s, i, Running)
    case TaskLock(i) => InPhase(s, i, Waiting) && s.lock.None?
    case TaskWrite(i) => i in s.tasks && s.tasks[i].Emitting? && HasReply(lines, i) && s.tasks[i].k < |Text(lines, i)|
    case TaskRelease(i) => i in s.tasks && s.tasks[i].Emitting? && HasReply(lines, i)
                           && s.tasks[i].k == |Text(lines, i)|
    case Finish(i) => InPhase(s, i, Written) && HasReply(lines, i)
  }

  predicate HasReply(lines: seq<Line>, i: int) {
    0 <= i < |lines| && !lines[i].Blank?
  }

  function Apply(lines: seq<Line>, maxThreads: nat, s: State, a: Action): State
    requires Enabled(lines, maxThreads, s, a)
  {
    match a
    case ReadLine => s.(pos := s.pos + 1, reader := GotLine)
    case ReachEnd => s.(reader := Draining(false))
    case CheckFlag => s.(reader := if s.shutdown then Draining(true) else Accepted)
    case Handle =>
      (match lines[s.pos - 1]
       case Blank => s.(reader := AtRead)
       case Malformed(_) => s.(reader := NeedLock)
       case Request(_, _) => s.(reader := AtRead, tasks := s.tasks[s.pos - 1 := Queued]))
    case ReaderLock => s.(reader := Writing(0), lock := Some(ReaderHolds))
    case ReaderWrite => s.(reader := Writing(s.reader.k + 1), out := s.out + [Text(lines, s.pos - 1)[s.reader.k]])
    case ReaderRelease => s.(reader := AtRead, lock := None, served := s.served + [s.pos - 1])
    case Return => s.(reader := Returned(s.reader.dropped))
    case Start(i) => s.(tasks := s.tasks[i := Running])
    case Dispatch(i) => s.(tasks := s.tasks[i := Waiting])
    case TaskLock(i) => s.(tasks := s.tasks[i := Emitting(0)], lock := Some(TaskHolds(i)))
    case TaskWrite(i) =>
      s.(tasks := s.tasks[i := Emitting(s.tasks[i].k + 1)], out := s.out + [Text(lines, i)[s.tasks[i].k]])
    case TaskRelease(i) => s.(tasks := s.tasks[i := Written], lock := None, served := s.served + [i])
    case Finish(i) => s.(tasks := s.tasks[i := Done], shutdown := s.shutdown || StopsAt(lines, i))
  }

  /** The state after a schedule, if every step of it was enabled. */
  function Exec(lines: seq<Line>, maxThreads: nat, schedule: seq<Action>): Option<State> {
    if schedule == [] then Some(INIT)
    else
      var before := Exec(lines, maxThreads, schedule[..|schedule| - 1]);
      var a := schedule[|schedule| - 1];
      if before.Some? && Enabled(lines, maxThreads, before.value, a)
      then Some(Apply(lines, maxThreads, before.value, a)) else None
  }

  // ------------------------------------------------------------------- the invariant

  predicate MidLine(r: Reader) {
    r.GotLine? || r.Accepted? || r.NeedLock? || r.Writing?
  }

  predicate Dropped(r: Reader) {
    (r.Draining? || r.Returned?) && r.dropped
  }

  /** Lines completely dealt with by the reader. */
  function HandledCount(s: State): int {
    if MidLine(s.reader) || Dropped(s.reader) then s.pos - 1 else s.pos
  }

  predicate IsServed(s: State, i: nat) {
    i in s.tasks && (s.tasks[i] == Written || s.tasks[i] == Done)
  }

  ghost predicate TaskFacts(lines: seq<Line>, s: State) {
    && s.pos <= |lines|
    && HandledCount(s) >= 0
    && forall i: nat :: i in s.tasks <==> i < HandledCount(s) && lines[i].Request?
  }

  ghost predicate ServedFacts(lines: seq<Line>, s: State) {
    && s.pos <= |lines|
    && Distinct(s.served)
    && forall i: nat :: i in s.served <==> IsServed(s, i) || (i < HandledCount(s) && lines[i].Malformed?)
  }

  ghost predicate ReaderFacts(lines: seq<Line>, s: State) {
    && s.pos <= |lines|
    && HandledCount(s) >= 0
    && (s.reader.NeedLock? || s.reader.Writing? ==> lines[s.pos - 1].Malformed?)
    && ((s.reader.Draining? || s.reader.Returned?) ==> if s.reader.dropped then s.shutdown else s.pos == |lines|)
    && (s.reader.Returned? ==> forall i :: i in s.tasks ==> s.tasks[i] == Done)
  }

  ghost predicate FlagFacts(lines: seq<Line>, s: State) {
    s.shutdown <==> exists i :: i in s.tasks && s.tasks[i] == Done && StopsAt(lines, i)
  }

  ghost predicate LockFacts(lines: seq<Line>, s: State) {
    && (s.lock == Some(ReaderHolds) <==> s.reader.Writing?)
    && (forall i :: s.lock == Some(TaskHolds(i)) <==> i in s.tasks && s.tasks[i].Emitting?)
    && (s.reader.Writing? ==> HasReply(lines, s.pos - 1) && s.reader.k <= |Text(lines, s.pos - 1)|)
    && (forall i :: i in s.tasks && s.tasks[i].Emitting? ==> HasReply(lines, i) && s.tasks[i].k <= |Text(lines, i)|)
  }

  function ReplyOf(lines: seq<Line>, i: nat): string {
    if HasReply(lines, i) then lines[i].reply else ""
  }

  function ServedReplies(lines: seq<Line>, served: seq<nat>): seq<string> {
    seq(|served|, k requires 0 <= k < |served| => ReplyOf(lines, served[k]))
  }

  /** What the lock holder has written of its line so far. */
  ghost function Partial(lines: seq<Line>, s: State): string
    requires LockFacts(lines, s)
  {
    match s.lock
    case None => ""
    case Some(ReaderHolds) => Text(lines, s.pos - 1)[..s.reader.k]
    case Some(TaskHolds(i)) => Text(lines, i)[..s.tasks[i].k]
  }

  ghost predicate OutFacts(lines: seq<Line>, s: State) {
    LockFacts(lines, s) && s.out == JoinLines(ServedReplies(lines, s.served)) + Partial(lines, s)
  }

  ghost predicate Inv(lines: seq<Line>, s: State) {
    && TaskFacts(lines, s) && ServedFacts(lines, s) && ReaderFacts(lines, s)
    && FlagFacts(lines, s) && LockFacts(lines, s) && OutFacts(lines, s)
  }

  lemma StepKeepsTaskFacts(lines: seq<Line>, maxThreads: nat, s: State, a: Action)
    requires TaskFacts(lines, s) && ReaderFacts(lines, s) && Enabled(lines, maxThreads, s, a)
    ensures TaskFacts(lines, Apply(lines, maxThreads, s, a))
  {
  }

  predicate IsTaskAction(a: Action) {
    a.Start? || a.Dispatch? || a.TaskLock? || a.TaskWrite? || a.TaskRelease? || a.Finish?
  }

  lemma {:induction false} AppendServed(served: seq<nat>, i: nat)
    requires Distinct(served) && i !in served
    ensures Distinct(served + [i]) && forall j: nat :: j in served + [i] <==> j in served || j == i
  {
    assert forall k :: 0 <= k < |served| ==> served[k] in served;
  }

  lemma ReaderKeepsServedFacts(lines: seq<Line>, maxThreads: nat, s: State, a: Action)
    requires TaskFacts(lines, s) && ServedFacts(lines, s) && ReaderFacts(lines, s)
    requires Enabled(lines, maxThreads, s, a) && !IsTaskAction(a)
    ensures ServedFacts(lines, Apply(lines, maxThreads, s, a))
  {
    if a.ReaderRelease? {
      AppendServed(s.served, s.pos - 1);
    }
  }

  lemma TaskKeepsServedFacts(lines: seq<Line>, maxThreads: nat, s: State, a: Action)
    requires TaskFacts(lines, s) && ServedFacts(lines, s) && ReaderFacts(lines, s)
    requires Enabled(lines, maxThreads, s, a) && IsTaskAction(a)
    ensures ServedFacts(lines, Apply(lines, maxThreads, s, a))
  {
    if a.TaskRelease? {
      AppendServed(s.served, a.i);
    }
  }

  lemma StepKeepsReaderFacts(lines: seq<Line>, maxThreads: nat, s: State, a: Action)
    requires TaskFacts(lines, s) && ReaderFacts(lines, s) && Enabled(lines, maxThreads, s, a)
    ensures ReaderFacts(lines, Apply(lines, maxThreads, s, a))
  {
  }

  lemma ReaderKeepsFlagFacts(lines: seq<Line>, maxThreads: nat, s: State, a: Action)
    requires TaskFacts(lines, s) && FlagFacts(lines, s) && Enabled(lines, maxThreads, s, a) && !IsTaskAction(a)
    ensures FlagFacts(lines, Apply(lines, maxThreads, s, a))
  {
    var s' := Apply(lines, maxThreads, s, a);
    assert forall i :: i in s.tasks && s.tasks[i] == Done ==> i in s'.tasks && s'.tasks[i] == Done;
  }

  lemma TaskKeepsFlagFacts(lines: seq<Line>, maxThreads: nat, s: State, a: Action)
    requires FlagFacts(lines, s) && Enabled(lines, maxThreads, s, a) && IsTaskAction(a)
    ensures FlagFacts(lines, Apply(lines, maxThreads, s, a))
  {
    var s' := Apply(lines, maxThreads, s, a);
    assert forall i :: i in s.tasks && s.tasks[i] == Done ==> i in s'.tasks && s'.tasks[i] == Done;
  }

  lemma ReaderKeepsLockFacts(lines: seq<Line>, maxThreads: nat, s: State, a: Action)
    requires TaskFacts(lines, s) && ReaderFacts(lines, s) && LockFacts(lines, s)
    requires Enabled(lines, maxThreads, s, a) && !IsTaskAction(a)
    ensures LockFacts(lines, Apply(lines, maxThreads, s, a))
  {
  }

  lemma TaskKeepsLockFacts(lines: seq<Line>, maxThreads: nat, s: State, a: Action)
    requires TaskFacts(lines, s) && ReaderFacts(lines, s) && LockFacts(lines, s)
    requires Enabled(lines, maxThreads, s, a) && IsTaskAction(a)
    ensures LockFacts(lines, Apply(lines, maxThreads, s, a))
  {
  }

  lemma JoinSnoc(lines: seq<Line>, served: seq<nat>, i: nat)
    requires HasReply(lines, i)
    ensures JoinLines(ServedReplies(lines, served + [i])) == JoinLines(ServedReplies(lines, served)) + Text(lines, i)
  {
    var more := ServedReplies(lines, served + [i]);
    assert more[..|more| - 1] == ServedReplies(lines, served);
  }

  /** A writer adds the next character of its line. */
  lemma {:induction false} OneMoreCharacter(lines: seq<Line>, s: State, s': State, i: nat, k: nat)
    requires OutFacts(lines, s) && LockFacts(lines, s') && HasReply(lines, i) && k < |Text(lines, i)|
    requires Partial(lines, s) == Text(lines, i)[..k] && Partial(lines, s') == Text(lines, i)[..k + 1]
    requires s'.served == s.served && s'.out == s.out + [Text(lines, i)[k]]
    ensures OutFacts(lines, s')
  {
  }

  /** A writer that has written its whole line is recorded as served and lets go of the lock. */
  lemma {:induction false} WholeLine(lines: seq<Line>, s: State, s': State, i: nat)
    requires OutFacts(lines, s) && LockFacts(lines, s') && HasReply(lines, i)
    requires Partial(lines, s) == Text(lines, i) && s'.lock.None?
    requires s'.served == s.served + [i] && s'.out == s.out
    ensures OutFacts(lines, s')
  {
    JoinSnoc(lines, s.served, i);
  }

  lemma {:induction false} ReaderKeepsOutFacts(lines: seq<Line>, maxThreads: nat, s: State, a: Action)
    requires OutFacts(lines, s) && Enabled(lines, maxThreads, s, a) && !IsTaskAction(a)
    requires LockFacts(lines, Apply(lines, maxThreads, s, a))
    ensures OutFacts(lines, Apply(lines, maxThreads, s, a))
  {
    var s' := Apply(lines, maxThreads, s, a);
    if a.ReaderRelease? {
      WholeLine(lines, s, s', s.pos - 1);
    } else if a.ReaderWrite? {
      OneMoreCharacter(lines, s, s', s.pos - 1, s.reader.k);
    } else {
      assert Partial(lines, s') == Partial(lines, s);
    }
  }

  lemma {:induction false} TaskKeepsOutFacts(lines: seq<Line>, maxThreads: nat, s: State, a: Action)
    requires OutFacts(lines, s) && Enabled(lines, maxThreads, s, a) && IsTaskAction(a)
    requires LockFacts(lines, Apply(lines, maxThreads, s, a))
    ensures OutFacts(lines, Apply(lines, maxThreads, s, a))
  {
    var s' := Apply(lines, maxThreads, s, a);
    if a.TaskRelease? {
      WholeLine(lines, s, s', a.i);
    } else if a.TaskWrite? {
      OneMoreCharacter(lines, s, s', a.i, s.tasks[a.i].k);
    } else {
      assert Partial(lines, s') == Partial(lines, s);
    }
  }

  /** Every schedule keeps the invariant. */
  lemma {:induction false} ExecKeepsInv(lines: seq<Line>, maxThreads: nat, schedule: seq<Action>)
    requires Exec(lines, maxThreads, schedule).Some?
    ensures Inv(lines, Exec(lines, maxThreads, schedule).value)
  {
    if schedule != [] {
      ExecKeepsInv(lines, maxThreads, schedule[..|schedule| - 1]);
      var s, a := Exec(lines, maxThreads, schedule[..|schedule| - 1]).value, schedule[|schedule| - 1];
      StepKeepsTaskFacts(lines, maxThreads, s, a);
      StepKeepsReaderFacts(lines, maxThreads, s, a);
      if IsTaskAction(a) {
        TaskKeepsFlagFacts(lines, maxThreads, s, a);
        TaskKeepsServedFacts(lines, maxThreads, s, a);
        TaskKeepsLockFacts(lines, maxThreads, s, a);
        TaskKeepsOutFacts(lines, maxThreads, s, a);
      } else {
        ReaderKeepsFlagFacts(lines, maxThreads, s, a);
        ReaderKeepsServedFacts(lines, maxThreads, s, a);
        ReaderKeepsLockFacts(lines, maxThreads, s, a);
        ReaderKeepsOutFacts(lines, maxThreads, s, a);
      }
    }
  }

  // ---------------------------------------------------------- reading the output back

  /** The complete lines of a text and what follows the last newline. */
  function Split(t: string): (seq<string>, string) {
    if t == "" then ([], "")
    else
      var (ls, rest) := Split(t[..|t| - 1]);
      if t[|t| - 1] == '\n' then (ls + [rest], "") else (ls, rest + [t[|t| - 1]])
  }

  lemma {:induction false} SplitAppend(t: string, r: string)
    requires '\n' !in r
    ensures Split(t + r) == (Split(t).0, Split(t).1 + r)
  {
    if r == "" {
      assert t + r == t && Split(t).1 + r == Split(t).1;
    } else {
      var init, c := r[..|r| - 1], r[|r| - 1];
      assert (t + r)[..|t + r| - 1] == t + init;
      SplitAppend(t, init);
      assert c in r;
      assert Split(t).1 + init + [c] == Split(t).1 + r;
    }
  }

  /** Joining single-line replies and splitting the text again gives the replies back. */
  lemma {:induction false} SplitJoin(ls: seq<string>)
    requires forall i :: 0 <= i < |ls| ==> '\n' !in ls[i]
    ensures Split(JoinLines(ls)) == (ls, "")
  {
    if ls != [] {
      var init, r := ls[..|ls| - 1], ls[|ls| - 1];
      SplitJoin(init);
      SplitAppend(JoinLines(init), r);
      var t := JoinLines(init) + r;
      assert (t + "\n")[..|t|] == t;
      assert "" + r == r && init + [r] == ls;
    }
  }

  ghost predicate WholeLinesAndAPrefix(lines: seq<Line>, s: State) {
    && LockFacts(lines, s)
    && s.out == JoinLines(ServedReplies(lines, s.served)) + Partial(lines, s)
    && match s.lock
       case None => Partial(lines, s) == ""
       case Some(ReaderHolds) => Partial(lines, s) <= Text(lines, s.pos - 1)
       case Some(TaskHolds(i)) => Partial(lines, s) <= Text(lines, i)
  }

  lemma {:induction false} PartialIsPrefix(lines: seq<Line>, s: State)
    requires OutFacts(lines, s)
    ensures WholeLinesAndAPrefix(lines, s)
  {
  }

  /**
   In every reachable state the output is the served replies as whole lines,
   followed by a prefix of the one line whose writer holds the lock.
   */
  lemma {:induction false} OutputIsWholeLines(lines: seq<Line>, maxThreads: nat, schedule: seq<Action>)
    requires Exec(lines, maxThreads, schedule).Some?
    ensures WholeLinesAndAPrefix(lines, Exec(lines, maxThreads, schedule).value)
  {
    ExecKeepsInv(lines, maxThreads, schedule);
    PartialIsPrefix(lines, Exec(lines, maxThreads, schedule).value);
  }

  // ------------------------------------------------------ refinement of the sequential loop

  /** The indices of the first `n` lines that get a reply, in order. */
  function ReplyIndices(lines: seq<Line>, n: nat): seq<nat>
    requires n <= |lines|
  {
    if n == 0 then [] else ReplyIndices(lines, n - 1) + (if lines[n - 1].Blank? then [] else [n - 1])
  }

  lemma {:induction false} ReplyIndicesFacts(lines: seq<Line>, n: nat)
    requires n <= |lines|
    ensures forall i: nat :: i in ReplyIndices(lines, n) <==> i < n && !lines[i].Blank?
    ensures Distinct(ReplyIndices(lines, n))
    ensures ServedReplies(lines, ReplyIndices(lines, n)) == Replies(lines, n)
  {
    if n > 0 {
      ReplyIndicesFacts(lines, n - 1);
      var init := ReplyIndices(lines, n - 1);
      assert forall k :: 0 <= k < |init| ==> init[k] in init;
      assert ServedReplies(lines, init + [n - 1]) == ServedReplies(lines, init) + [ReplyOf(lines, n - 1)];
    }
  }

  lemma {:induction false} DistinctSameMultiset(a: seq<nat>, b: seq<nat>)
    requires Distinct(a) && Distinct(b)
    requires forall i :: i in a <==> i in b
    ensures multiset(a) == multiset(b)
  {
    forall i ensures multiset(a)[i] == multiset(b)[i] {
      DistinctCount(a, i);
      DistinctCount(b, i);
    }
  }

  lemma {:induction false} DistinctCount(a: seq<nat>, i: nat)
    requires Distinct(a)
    ensures multiset(a)[i] == if i in a then 1 else 0
  {
    if a != [] {
      DistinctCount(a[1..], i);
      assert a == [a[0]] + a[1..];
    }
  }

  /** `b'` is `b` without its `k`-th element. */
  predicate Without<T(==)>(b: seq<T>, k: nat, b': seq<T>) {
    k < |b| && b' == b[..k] + b[k + 1..]
  }

  lemma {:induction false} WithoutBag<T>(b: seq<T>, k: nat, b': seq<T>)
    requires Without(b, k, b')
    ensures multiset(b) == multiset(b') + multiset{b[k]}
  {
    assert b == b[..k] + [b[k]] + b[k + 1..];
  }

  lemma {:induction false} WithoutSameBag<T>(a: seq<T>, j: nat, a': seq<T>, b: seq<T>, k: nat, b': seq<T>)
    requires Without(a, j, a') && Without(b, k, b') && a[j] == b[k]
    ensures multiset(a) == multiset(b) <==> multiset(a') == multiset(b')
  {
    WithoutBag(a, j, a');
    WithoutBag(b, k, b');
    assert multiset(a') == multiset(a) - multiset{a[j]};
    assert multiset(b') == multiset(b) - multiset{b[k]};
  }

  lemma {:induction false} WithoutReplies(lines: seq<Line>, b: seq<nat>, k: nat, b': seq<nat>)
    requires Without(b, k, b')
    ensures Without(ServedReplies(lines, b), k, ServedReplies(lines, b'))
    ensures ServedReplies(lines, b)[k] == ReplyOf(lines, b[k])
  {
  }

  lemma {:induction false} SameElement<T>(a: seq<T>, b: seq<T>) returns (k: nat)
    requires multiset(a) == multiset(b) && a != []
    ensures k < |b| && b[k] == a[0]
  {
    assert a[0] in multiset(b);
    k :| 0 <= k < |b| && b[k] == a[0];
  }

  lemma {:induction false} SameLength<T>(a: seq<T>, b: seq<T>)
    requires multiset(a) == multiset(b)
    ensures |a| == |b|
  {
    assert |a| == |multiset(a)| == |multiset(b)| == |b|;
  }

  lemma {:induction false} RepliesFollowIndices(lines: seq<Line>, a: seq<nat>, b: seq<nat>)
    requires multiset(a) == multiset(b)
    ensures multiset(ServedReplies(lines, a)) == multiset(ServedReplies(lines, b))
    decreases |a|
  {
    SameLength(a, b);
    if a != [] {
      var k := SameElement(a, b);
      var a', b' := a[..0] + a[0 + 1..], b[..k] + b[k + 1..];
      WithoutSameBag(a, 0, a', b, k, b');
      RepliesFollowIndices(lines, a', b');
      WithoutReplies(lines, a, 0, a');
      WithoutReplies(lines, b, k, b');
      WithoutSameBag(ServedReplies(lines, a), 0, ServedReplies(lines, a'), ServedReplies(lines, b), k,
        ServedReplies(lines, b'));
    }
  }

  lemma {:induction false} NoStopTakesAll(lines: seq<Line>, from: nat)
    requires from <= |lines| && forall i :: 0 <= i < |lines| ==> !StopsAt(lines, i)
    ensures SequentialStop(lines, from) == |lines|
    decreases |lines| - from
  {
    if from < |lines| {
      NoStopTakesAll(lines, from + 1);
    }
  }

  lemma {:induction false} PrefixBag<T>(a: seq<T>, b: seq<T>)
    requires a <= b
    ensures multiset(a) <= multiset(b)
  {
    assert b == a + b[|a|..];
    assert multiset(b) == multiset(a) + multiset(b[|a|..]);
  }

  lemma {:induction false} RepliesGrow(lines: seq<Line>, m: nat, n: nat)
    requires m <= n <= |lines|
    ensures Replies(lines, m) <= Replies(lines, n)
    decreases n
  {
    if m < n {
      RepliesGrow(lines, m, n - 1);
    }
  }

  lemma {:induction false} MoreLinesMoreReplies(lines: seq<Line>, m: nat, n: nat)
    requires m <= n <= |lines|
    ensures multiset(Replies(lines, m)) <= multiset(Replies(lines, n))
  {
    RepliesGrow(lines, m, n);
    PrefixBag(Replies(lines, m), Replies(lines, n));
  }

  lemma ReturnedServesAll(lines: seq<Line>, s: State)
    requires Inv(lines, s) && s.reader.Returned?
    ensures 0 <= HandledCount(s) <= |lines|
    ensures forall i: nat :: i in s.served <==> i < HandledCount(s) && !lines[i].Blank?
    ensures forall i :: i in s.tasks ==> i in s.served
    ensures s.out == JoinLines(ServedReplies(lines, s.served))
  {
    forall h ensures s.lock != Some(h) {
      match h
      case ReaderHolds =>
      case TaskHolds(i) =>
    }
  }

  /**
   When the concurrent loop returns, every accepted request is answered and the
   output is, up to order, the replies to the first `n` lines, where `n` takes in
   at least the lines the sequential loop answers, and all lines if none asks for
   shutdown.
   */
  lemma ConcurrentAnswersAPrefix(lines: seq<Line>, maxThreads: nat, schedule: seq<Action>) returns (n: nat)
    requires Exec(lines, maxThreads, schedule).Some? && Exec(lines, maxThreads, schedule).value.reader.Returned?
    requires OneLineReplies(lines)
    ensures SequentialStop(lines, 0) <= n <= |lines|
    ensures (forall i :: 0 <= i < |lines| ==> !StopsAt(lines, i)) ==> n == |lines|
    ensures Split(Exec(lines, maxThreads, schedule).value.out).1 == ""
    ensures multiset(Split(Exec(lines, maxThreads, schedule).value.out).0) == multiset(Replies(lines, n))
    ensures forall i :: i in Exec(lines, maxThreads, schedule).value.tasks
              ==> i in Exec(lines, maxThreads, schedule).value.served
  {
    var s := Exec(lines, maxThreads, schedule).value;
    ExecKeepsInv(lines, maxThreads, schedule);
    ReturnedServesAll(lines, s);
    n := HandledCount(s);
    SplitJoin(ServedReplies(lines, s.served));
    ReplyIndicesFacts(lines, n);
    DistinctSameMultiset(s.served, ReplyIndices(lines, n));
    RepliesFollowIndices(lines, s.served, ReplyIndices(lines, n));
    if Dropped(s.reader) {
      var i :| i in s.tasks && s.tasks[i] == Done && StopsAt(lines, i);
    }
  }

  /**
   Without a shutdown request the two loops write the same lines up to order; with
   one, the concurrent loop writes them all.
   */
  lemma ConcurrentRefinesSequential(lines: seq<Line>, maxThreads: nat, schedule: seq<Action>)
    requires Exec(lines, maxThreads, schedule).Some? && Exec(lines, maxThreads, schedule).value.reader.Returned?
    requires OneLineReplies(lines)
    ensures var sequential := Replies(lines, SequentialStop(lines, 0));
            var concurrent := Split(Exec(lines, maxThreads, schedule).value.out).0;
            && multiset(sequential) <= multiset(concurrent)
            && ((forall i :: 0 <= i < |lines| ==> !StopsAt(lines, i)) ==> multiset(concurrent) == multiset(sequential))
  {
    var n := ConcurrentAnswersAPrefix(lines, maxThreads, schedule);
    MoreLinesMoreReplies(lines, SequentialStop(lines, 0), n);
    if forall i :: 0 <= i < |lines| ==> !StopsAt(lines, i) {
      NoStopTakesAll(lines, 0);
    }
  }

  predicate LeftLoop(s: State) {
    s.reader.Draining? || s.reader.Returned?
  }

  lemma {:induction false} StepAfterLeaving(lines: seq<Line>, maxThreads: nat, s: State, a: Action)
    requires LeftLoop(s) && Enabled(lines, maxThreads, s, a)
    ensures var s' := Apply(lines, maxThreads, s, a);
            LeftLoop(s') && s'.pos == s.pos && s'.tasks.Keys == s.tasks.Keys
  {
  }

  /** Once the reader has left its loop, whether at the end of input or on the flag, no line is taken or submitted. */
  lemma {:induction false} NothingAcceptedAfterLeaving(lines: seq<Line>, maxThreads: nat, schedule: seq<Action>, m: nat)
    requires m <= |schedule| && Exec(lines, maxThreads, schedule).Some?
    requires Exec(lines, maxThreads, schedule[..m]).Some? && LeftLoop(Exec(lines, maxThreads, schedule[..m]).value)
    ensures var early, late := Exec(lines, maxThreads, schedule[..m]).value, Exec(lines, maxThreads, schedule).value;
            LeftLoop(late) && late.pos == early.pos && late.tasks.Keys == early.tasks.Keys
    decreases |schedule|
  {
    if m < |schedule| {
      var before := schedule[..|schedule| - 1];
      assert before[..m] == schedule[..m];
      NothingAcceptedAfterLeaving(lines, maxThreads, before, m);
      StepAfterLeaving(lines, maxThreads, Exec(lines, maxThreads, before).value, schedule[|schedule| - 1]);
    } else {
      assert schedule[..m] == schedule;
    }
  }

  // --------------------------------------------------------- every schedule finishes

  lemma LeastQueued(s: State, i: nat) returns (j: nat)
    requires InPhase(s, i, Queued)
    ensures InPhase(s, j, Queued) && forall k: nat :: k in s.tasks && k < j ==> s.tasks[k] != Queued
  {
    j := i;
    while exists k: nat :: k < j && InPhase(s, k, Queued)
      invariant InPhase(s, j, Queued)
      decreases j
    {
      var k: nat :| k < j && InPhase(s, k, Queued);
      j := k;
    }
    forall k: nat | k in s.tasks && k < j ensures s.tasks[k] != Queued {
      assert !InPhase(s, k, Queued);
    }
  }

  lemma BusyTaskCanStep(lines: seq<Line>, maxThreads: nat, s: State, i: nat) returns (a: Action)
    requires Inv(lines, s) && i in s.tasks && s.tasks[i] != Queued && s.tasks[i] != Done
    requires s.lock.None? || s.lock == Some(TaskHolds(i))
    ensures Enabled(lines, maxThreads, s, a)
  {
    assert HasReply(lines, i);
    match s.tasks[i]
    case Running => a := Dispatch(i);
    case Waiting => a := TaskLock(i);
    case Emitting(k) => a := if k < |Text(lines, i)| then TaskWrite(i) else TaskRelease(i);
    case Written => a := Finish(i);
  }

  lemma SomeTaskCanStep(lines: seq<Line>, maxThreads: nat, s: State, i: nat) returns (a: Action)
    requires Inv(lines, s) && maxThreads >= 1
    requires i in s.tasks && s.tasks[i] != Done && !s.reader.Writing?
    ensures Enabled(lines, maxThreads, s, a)
  {
    if s.lock.Some? {
      assert s.lock == Some(TaskHolds(s.lock.value.i));
      a := BusyTaskCanStep(lines, maxThreads, s, s.lock.value.i);
    } else if Active(s) == {} {
      assert s.tasks[i] == Queued by {
        assert i !in Active(s);
      }
      var j := LeastQueued(s, i);
      a := Start(j);
    } else {
      var j := Witness(Active(s));
      a := BusyTaskCanStep(lines, maxThreads, s, j);
    }
  }

  /** No deadlock: until the loop has returned, some step is possible. */
  lemma SomeStepIsEnabled(lines: seq<Line>, maxThreads: nat, schedule: seq<Action>) returns (a: Action)
    requires maxThreads >= 1 && Exec(lines, maxThreads, schedule).Some?
    requires !Exec(lines, maxThreads, schedule).value.reader.Returned?
    ensures Enabled(lines, maxThreads, Exec(lines, maxThreads, schedule).value, a)
  {
    ExecKeepsInv(lines, maxThreads, schedule);
    var s := Exec(lines, maxThreads, schedule).value;
    match s.reader
    case AtRead => a := if s.pos < |lines| then ReadLine else ReachEnd;
    case GotLine => a := CheckFlag;
    case Accepted => a := Handle;
    case NeedLock =>
      if s.lock.None? {
        a := ReaderLock;
      } else {
        assert s.lock == Some(TaskHolds(s.lock.value.i));
        a := BusyTaskCanStep(lines, maxThreads, s, s.lock.value.i);
      }
    case Writing(k) => a := if k < |Text(lines, s.pos - 1)| then ReaderWrite else ReaderRelease;
    case Draining(_) =>
      if i :| i in s.tasks && s.tasks[i] != Done {
        a := SomeTaskCanStep(lines, maxThreads, s, i);
      } else {
        a := Return;
      }
  }

  /** Characters to write for line `i`, counting a blank line as one unit of work. */
  function Work(lines: seq<Line>, i: nat): nat {
    if HasReply(lines, i) then |Text(lines, i)| else 1
  }

  /** An upper bound on the steps line `i` can still cause. */
  function LineCost(lines: seq<Line>, s: State, i: nat): nat {
    var w := Work(lines, i);
    if i >= s.pos then w + 10
    else if i == s.pos - 1 && MidLine(s.reader) then
      match s.reader
      case GotLine => w + 9
      case Accepted => w + 8
      case NeedLock => w + 7
      case Writing(k) => Max(w - k, 0) + 4
      case _ => 0
    else if i in s.tasks then
      match s.tasks[i]
      case Queued => w + 7
      case Running => w + 6
      case Waiting => w + 5
      case Emitting(k) => Max(w - k, 0) + 4
      case Written => 3
      case Done => 0
    else 0
  }

  function TotalCost(lines: seq<Line>, s: State, n: nat): nat {
    if n == 0 then 0 else TotalCost(lines, s, n - 1) + LineCost(lines, s, n - 1)
  }

  function Remaining(lines: seq<Line>, s: State): nat {
    TotalCost(lines, s, |lines|) + (if s.reader.Returned? then 0 else if s.reader.Draining? then 1 else 2)
  }

  lemma {:induction false} TotalCostDrops(lines: seq<Line>, s: State, s': State, n: nat)
    requires forall i: nat :: i < n ==> LineCost(lines, s', i) <= LineCost(lines, s, i)
    ensures TotalCost(lines, s', n) <= TotalCost(lines, s, n)
    ensures (exists i: nat :: i < n && LineCost(lines, s', i) < LineCost(lines, s, i)) ==>
              TotalCost(lines, s', n) < TotalCost(lines, s, n)
  {
    if n > 0 {
      TotalCostDrops(lines, s, s', n - 1);
    }
  }

  lemma ReaderLineCost(lines: seq<Line>, maxThreads: nat, s: State, a: Action, i: nat)
    requires TaskFacts(lines, s) && ReaderFacts(lines, s) && LockFacts(lines, s)
    requires Enabled(lines, maxThreads, s, a) && !IsTaskAction(a)
    ensures LineCost(lines, Apply(lines, maxThreads, s, a), i) <= LineCost(lines, s, i)
    ensures !a.ReachEnd? && !a.Return? && i == (if a.ReadLine? then s.pos else s.pos - 1) ==>
              LineCost(lines, Apply(lines, maxThreads, s, a), i) < LineCost(lines, s, i)
  {
  }

  lemma ReaderStepCosts(lines: seq<Line>, maxThreads: nat, s: State, a: Action)
    requires Inv(lines, s) && Enabled(lines, maxThreads, s, a) && !IsTaskAction(a)
    ensures Remaining(lines, Apply(lines, maxThreads, s, a)) < Remaining(lines, s)
  {
    var s' := Apply(lines, maxThreads, s, a);
    forall i: nat | i < |lines| ensures LineCost(lines, s', i) <= LineCost(lines, s, i) {
      ReaderLineCost(lines, maxThreads, s, a, i);
    }
    if !a.ReachEnd? && !a.Return? {
      ReaderLineCost(lines, maxThreads, s, a, if a.ReadLine? then s.pos else s.pos - 1);
    }
    TotalCostDrops(lines, s, s', |lines|);
  }

  lemma TaskLineCost(lines: seq<Line>, maxThreads: nat, s: State, a: Action, i: nat)
    requires TaskFacts(lines, s) && LockFacts(lines, s)
    requires Enabled(lines, maxThreads, s, a) && IsTaskAction(a)
    ensures i != a.i ==> LineCost(lines, Apply(lines, maxThreads, s, a), i) == LineCost(lines, s, i)
    ensures i == a.i ==> LineCost(lines, Apply(lines, maxThreads, s, a), i) < LineCost(lines, s, i)
  {
  }

  lemma TaskStepCosts(lines: seq<Line>, maxThreads: nat, s: State, a: Action)
    requires Inv(lines, s) && Enabled(lines, maxThreads, s, a) && IsTaskAction(a)
    ensures Remaining(lines, Apply(lines, maxThreads, s, a)) < Remaining(lines, s)
  {
    var s' := Apply(lines, maxThreads, s, a);
    forall i: nat | i < |lines| ensures LineCost(lines, s', i) <= LineCost(lines, s, i) {
      TaskLineCost(lines, maxThreads, s, a, i);
    }
    TaskLineCost(lines, maxThreads, s, a, a.i);
    assert s'.reader == s.reader;
    TotalCostDrops(lines, s, s', |lines|);
  }

  /** Every schedule is bounded by the work in its input, so with no deadlock every run returns. */
  lemma {:induction false} SchedulesAreBounded(lines: seq<Line>, maxThreads: nat, schedule: seq<Action>)
    requires Exec(lines, maxThreads, schedule).Some?
    ensures |schedule| + Remaining(lines, Exec(lines, maxThreads, schedule).value) <= Remaining(lines, INIT)
  {
    if schedule != [] {
      var before := schedule[..|schedule| - 1];
      var s, a := Exec(lines, maxThreads, before).value, schedule[|schedule| - 1];
      SchedulesAreBounded(lines, maxThreads, before);
      ExecKeepsInv(lines, maxThreads, before);
      if IsTaskAction(a) {
        TaskStepCosts(lines, maxThreads, s, a);
      } else {
        ReaderStepCosts(lines, maxThreads, s, a);
      }
    }
  }
}
