/**
 Interleaved registry operations. Each process opens the file at the path, locks
 what it opened, reads it, replaces the path by a new file, and unlocks. A
 handle keeps pointing at the file version it opened; versions never change.
 */
module RegistryRuns {
  import opened Common
  import opened Registry

  datatype Phase =
    | Idle
    | Checked                           // saw that the path exists
    | Opened(v: nat)                    // has a handle on version v
    | Locked(v: nat)
    | Seen(v: nat, content: Content)    // has read version v and will replace
    | Committed(v: nat, result: bool)   // replaced the file, or decided not to
    | Finished(result: bool)

  /**
   `files` are the versions in order of creation, `current` the one at the path.
   History: `commits` lists the processes in the order they replaced the file or
   decided not to; `clean` says each then still held the file at the path.
   */
  datatype State = State(
    files: seq<Content>, current: Option<nat>, locks: map<nat, nat>, phases: seq<Phase>,
    commits: seq<nat>, clean: bool)

  function Init(initial: Option<Content>, processes: nat): State {
    State(if initial.Some? then [initial.value] else [], if initial.Some? then Some(0) else None,
          map[], seq(processes, _ => Idle), [], true)
  }

  predicate Enabled(ops: seq<Op>, s: State, p: nat) {
    && p < |ops| == |s.phases|
    && match s.phases[p]
       case Opened(v) => v !in s.locks
       case Locked(v) => v < |s.files|
       case Seen(_, c) => Rewrite(ops[p], c).Some?
       case Finished(_) => false
       case _ => true
  }

  function Open(s: State, p: nat): State
    requires p < |s.phases|
  {
    if s.current.Some? then s.(phases := s.phases[p := Opened(s.current.value)])
    else s.(files := s.files + [Blank], current := Some(|s.files|), phases := s.phases[p := Opened(|s.files|)])
  }

  /** The next step of process `p`. */
  function Apply(ops: seq<Op>, s: State, p: nat): State
    requires Enabled(ops, s, p)
  {
    match s.phases[p]
    case Idle =>
      if ops[p].Register? then Open(s, p)
      else if s.current.None? then s.(phases := s.phases[p := Finished(false)], commits := s.commits + [p])
      else s.(phases := s.phases[p := Checked])
    case Checked => Open(s, p)
    case Opened(v) => s.(locks := s.locks[v := p], phases := s.phases[p := Locked(v)])
    case Locked(v) =>
      if Rewrite(ops[p], s.files[v]).Some? then s.(phases := s.phases[p := Seen(v, s.files[v])])
      else s.(phases := s.phases[p := Committed(v, false)], commits := s.commits + [p],
              clean := s.clean && s.current == Some(v))
    case Seen(v, c) =>
      s.(files := s.files + [Serialized(Rewrite(ops[p], c).value)], current := Some(|s.files|),
         phases := s.phases[p := Committed(v, true)], commits := s.commits + [p],
         clean := s.clean && s.current == Some(v))
    case Committed(v, result) => s.(locks := s.locks - {v}, phases := s.phases[p := Finished(result)])
    case Finished(_) => s
  }

  /** The state after letting the scheduled processes step, if each could. */
  function Exec(ops: seq<Op>, initial: Option<Content>, schedule: seq<nat>): Option<State> {
    if schedule == [] then Some(Init(initial, |ops|))
    else
      var before := Exec(ops, initial, schedule[..|schedule| - 1]);
      var p := schedule[|schedule| - 1];
      if before.Some? && Enabled(ops, before.value, p) then Some(Apply(ops, before.value, p)) else None
  }

  /** What is registered at the path. */
  function Registered(s: State): seq<Entry> {
    if s.current.Some? && s.current.value < |s.files| then Entries(s.files[s.current.value]) else []
  }

  ghost function Fold(ops: seq<Op>, m: map<Key, Entry>, commits: seq<nat>): map<Key, Entry> {
    if commits == [] then m
    else
      var before := Fold(ops, m, commits[..|commits| - 1]);
      var p := commits[|commits| - 1];
      if p < |ops| then OnMap(ops[p], before) else before
  }

  // ------------------------------------------------------------------- the invariant

  function Handle(ph: Phase): Option<nat> {
    if ph.Opened? || ph.Locked? || ph.Seen? || ph.Committed? then Some(ph.v) else None
  }

  function HandleOf(s: State, p: nat): Option<nat> {
    if p < |s.phases| then Handle(s.phases[p]) else None
  }

  predicate Holds(ph: Phase, v: nat) {
    (ph.Locked? || ph.Seen? || ph.Committed?) && ph.v == v
  }

  ghost predicate KeysOk(c: Content) {
    UniqueKeys(Entries(c))
  }

  ghost predicate FilesOk(s: State) {
    && (forall i :: 0 <= i < |s.files| ==> KeysOk(s.files[i]))
    && if s.current.None? then s.files == [] else s.current.value == |s.files| - 1
  }

  ghost predicate HandlesOk(s: State) {
    && (forall p :: 0 <= p < |s.phases| && Handle(s.phases[p]).Some? ==> s.phases[p].v < |s.files|)
    && forall p :: 0 <= p < |s.phases| && s.phases[p].Seen? ==> s.phases[p].content == s.files[s.phases[p].v]
  }

  /** Each locked version is held by exactly the process recorded. */
  ghost predicate LockOk(s: State, p: nat, v: nat)
    requires p < |s.phases|
  {
    Holds(s.phases[p], v) <==> v in s.locks && s.locks[v] == p
  }

  ghost predicate LocksOk(s: State) {
    && (forall v :: v in s.locks ==> s.locks[v] < |s.phases|)
    && forall p, v :: 0 <= p < |s.phases| ==> LockOk(s, p, v)
  }

  ghost predicate Inv(ops: seq<Op>, s: State) {
    |s.phases| == |ops| && FilesOk(s) && HandlesOk(s) && LocksOk(s)
  }

  lemma {:induction false} WrittenFileOk(op: Op, c: Content)
    requires KeysOk(c) && Rewrite(op, c).Some?
    ensures KeysOk(Serialized(Rewrite(op, c).value))
  {
    RewriteKeepsKeysUnique(op, c);
    SerializedEntries(Rewrite(op, c).value);
  }

  lemma {:induction false} NewFileKeepsFiles(s: State, s': State, c: Content)
    requires FilesOk(s) && KeysOk(c)
    requires s'.files == s.files + [c] && s'.current == Some(|s.files|)
    ensures FilesOk(s')
  {
  }

  lemma {:induction false} StepKeepsFiles(ops: seq<Op>, s: State, p: nat)
    requires FilesOk(s) && HandlesOk(s) && Enabled(ops, s, p)
    ensures FilesOk(Apply(ops, s, p))
  {
    var s' := Apply(ops, s, p);
    if s.phases[p].Seen? {
      var c := s.phases[p].content;
      assert KeysOk(c);
      WrittenFileOk(ops[p], c);
      NewFileKeepsFiles(s, s', Serialized(Rewrite(ops[p], c).value));
    } else if s'.files != s.files {
      NewFileKeepsFiles(s, s', Blank);
    }
  }

  lemma {:induction false} HandleMoves(s: State, s': State, p: nat, ph: Phase)
    requires HandlesOk(s) && p < |s.phases| && s'.phases == s.phases[p := ph] && s.files <= s'.files
    requires Handle(ph).Some? ==> ph.v < |s'.files|
    requires ph.Seen? ==> ph.content == s'.files[ph.v]
    ensures HandlesOk(s')
  {
  }

  lemma {:induction false} StepKeepsHandles(ops: seq<Op>, s: State, p: nat)
    requires FilesOk(s) && HandlesOk(s) && Enabled(ops, s, p)
    ensures HandlesOk(Apply(ops, s, p))
  {
    var s' := Apply(ops, s, p);
    if !s.phases[p].Finished? {
      HandleMoves(s, s', p, s'.phases[p]);
    }
  }

  lemma {:induction false} SameLocks(s: State, s': State, p: nat, ph: Phase)
    requires LocksOk(s) && p < |s.phases| && s'.locks == s.locks && s'.phases == s.phases[p := ph]
    requires forall v :: Holds(ph, v) <==> Holds(s.phases[p], v)
    ensures LocksOk(s')
  {
    forall q: nat, v: nat | q < |s'.phases| ensures LockOk(s', q, v) {
      assert LockOk(s, q, v);
    }
  }

  lemma {:induction false} TakesLock(s: State, s': State, p: nat, v: nat)
    requires LocksOk(s) && p < |s.phases| && s.phases[p] == Opened(v) && v !in s.locks
    requires s'.locks == s.locks[v := p] && s'.phases == s.phases[p := Locked(v)]
    ensures LocksOk(s')
  {
    forall q: nat, u: nat | q < |s'.phases| ensures LockOk(s', q, u) {
      assert LockOk(s, q, u);
    }
  }

  lemma {:induction false} DropsLock(s: State, s': State, p: nat, v: nat, result: bool)
    requires LocksOk(s) && p < |s.phases| && s.phases[p] == Committed(v, result)
    requires s'.locks == s.locks - {v} && s'.phases == s.phases[p := Finished(result)]
    ensures LocksOk(s')
  {
    assert LockOk(s, p, v);
    forall q: nat, u: nat | q < |s'.phases| ensures LockOk(s', q, u) {
      assert LockOk(s, q, u);
      assert q == p ==> (Holds(s.phases[p], u) <==> u == v);
    }
  }

  lemma {:induction false} StepKeepsLocks(ops: seq<Op>, s: State, p: nat)
    requires LocksOk(s) && Enabled(ops, s, p)
    ensures LocksOk(Apply(ops, s, p))
  {
    var s' := Apply(ops, s, p);
    match s.phases[p]
    case Opened(v) => TakesLock(s, s', p, v);
    case Committed(v, result) => DropsLock(s, s', p, v, result);
    case Finished(_) =>
    case _ => SameLocks(s, s', p, s'.phases[p]);
  }

  lemma StepKeepsInv(ops: seq<Op>, s: State, p: nat)
    requires Inv(ops, s) && Enabled(ops, s, p)
    ensures Inv(ops, Apply(ops, s, p))
  {
    StepKeepsFiles(ops, s, p);
    StepKeepsHandles(ops, s, p);
    StepKeepsLocks(ops, s, p);
  }

  /** For every interleaving: no file ever lists an address twice, and no two processes hold one version's lock. */
  lemma {:induction false} RunsKeepInv(ops: seq<Op>, initial: Option<Content>, schedule: seq<nat>)
    requires initial.Some? ==> UniqueKeys(Entries(initial.value))
    requires Exec(ops, initial, schedule).Some?
    ensures Inv(ops, Exec(ops, initial, schedule).value)
  {
    if schedule != [] {
      RunsKeepInv(ops, initial, schedule[..|schedule| - 1]);
      StepKeepsInv(ops, Exec(ops, initial, schedule[..|schedule| - 1]).value, schedule[|schedule| - 1]);
    }
  }

  lemma EveryReachableFileHasUniqueKeys(ops: seq<Op>, initial: Option<Content>, schedule: seq<nat>)
    requires initial.Some? ==> UniqueKeys(Entries(initial.value))
    requires Exec(ops, initial, schedule).Some?
    ensures var s := Exec(ops, initial, schedule).value;
            UniqueKeys(Registered(s)) && forall i :: 0 <= i < |s.files| ==> UniqueKeys(Entries(s.files[i]))
  {
    RunsKeepInv(ops, initial, schedule);
    var s := Exec(ops, initial, schedule).value;
    assert forall i :: 0 <= i < |s.files| ==> KeysOk(s.files[i]);
  }

  // ------------------------------------------------------------- when an update is safe

  lemma {:induction false} SameRestSameResult(op: Op, a: map<Key, Entry>, b: map<Key, Entry>, wa: map<Key, Entry>,
                                              wb: map<Key, Entry>)
    requires op.Register? ==>
        wa == Untouched(op, a)[KeyOf(op.entry) := op.entry] && wb == Untouched(op, b)[KeyOf(op.entry) := op.entry]
    requires !op.Register? ==> wa == Untouched(op, a) && wb == Untouched(op, b)
    requires op.Register? ==> KeyOf(op.entry) !in Untouched(op, a) && KeyOf(op.entry) !in Untouched(op, b)
    ensures wa == wb <==> Untouched(op, a) == Untouched(op, b)
  {
    if op.Register? && wa == wb {
      var k := KeyOf(op.entry);
      assert Untouched(op, a) == wa - {k};
      assert Untouched(op, b) == wb - {k};
    }
  }

  /**
   A replacement changes the registry by exactly the process's own entries if
   and only if the version it read and the file at the path agree on all other
   entries; in particular when its handle is still the file at the path.
   */
  lemma ReplaceIsExactIff(ops: seq<Op>, s: State, p: nat)
    requires Inv(ops, s) && Enabled(ops, s, p) && s.phases[p].Seen?
    ensures var own, read, now := ops[p], AsMap(Entries(s.files[s.phases[p].v])), AsMap(Registered(s));
            && (AsMap(Registered(Apply(ops, s, p))) == OnMap(own, now) <==> Untouched(own, read) == Untouched(own, now))
            && (s.current == Some(s.phases[p].v) ==> AsMap(Registered(Apply(ops, s, p))) == OnMap(own, now))
  {
    var op, c := ops[p], s.phases[p].content;
    SerializedEntries(Rewrite(op, c).value);
    RewriteIsMapOperation(op, c);
    UntouchedOnMap(op, Entries(c));
    UntouchedOnMap(op, Registered(s));
    AsMapMembers(Entries(c));
    AsMapMembers(Registered(s));
    SameRestSameResult(op, AsMap(Entries(c)), AsMap(Registered(s)), OnMap(op, AsMap(Entries(c))),
      OnMap(op, AsMap(Registered(s))));
  }

  /** As right after its open step, the process's handle is the file at the path. */
  predicate JustOpened(s: State, p: nat) {
    p < |s.phases| && s.phases[p].Opened? && s.current == Some(s.phases[p].v)
  }

  lemma {:induction false} NewestHandleIff(early: State, late: State, p: nat)
    requires FilesOk(early) && FilesOk(late) && JustOpened(early, p) && HandleOf(late, p) == HandleOf(early, p)
    ensures late.current == HandleOf(late, p) <==> |late.files| == |early.files|
  {
  }

  /** A handle is still the file at the path exactly if no file was created since it was opened. */
  lemma {:induction false} HandleIsCurrentIffNothingNew(ops: seq<Op>, initial: Option<Content>, schedule: seq<nat>,
                                                        m: nat, p: nat)
    requires initial.Some? ==> UniqueKeys(Entries(initial.value))
    requires m <= |schedule| && Exec(ops, initial, schedule).Some? && Exec(ops, initial, schedule[..m]).Some?
    requires JustOpened(Exec(ops, initial, schedule[..m]).value, p)
    requires HandleOf(Exec(ops, initial, schedule).value, p) == HandleOf(Exec(ops, initial, schedule[..m]).value, p)
    ensures var early, late := Exec(ops, initial, schedule[..m]).value, Exec(ops, initial, schedule).value;
            late.current == HandleOf(late, p) <==> |late.files| == |early.files|
  {
    var early, late := schedule[..m], schedule;
    RunsKeepInv(ops, initial, early);
    RunsKeepInv(ops, initial, late);
    NewestHandleIff(Exec(ops, initial, early).value, Exec(ops, initial, late).value, p);
  }

  // -------------------------------------------------------------- runs without lost updates

  /**
   From `s` to `s'` the registry moves as the map operation says, if the step
   commits while clean, and else not at all.
   */
  ghost predicate MovesAsMap(op: Op, s: State, s': State, p: nat) {
    && (s'.commits == s.commits ==> AsMap(Registered(s')) == AsMap(Registered(s)) && s'.clean == s.clean)
    && (s'.commits != s.commits ==> s'.commits == s.commits + [p])
    && (s'.commits != s.commits && s'.clean ==> s.clean && AsMap(Registered(s')) == OnMap(op, AsMap(Registered(s))))
  }

  lemma {:induction false} OpenRegistersNothing(s: State, p: nat)
    requires p < |s.phases| && FilesOk(s)
    ensures Registered(Open(s, p)) == Registered(s)
  {
  }

  lemma {:induction false} IdleOnMap(ops: seq<Op>, s: State, p: nat)
    requires FilesOk(s) && Enabled(ops, s, p) && s.phases[p].Idle?
    ensures MovesAsMap(ops[p], s, Apply(ops, s, p), p)
  {
    OpenRegistersNothing(s, p);
    if s.current.None? && !ops[p].Register? {
      assert OnMap(ops[p], map[]) == map[];
    }
  }

  lemma {:induction false} LockedOnMap(ops: seq<Op>, s: State, p: nat, v: nat)
    requires FilesOk(s) && Enabled(ops, s, p) && s.phases[p] == Locked(v)
    ensures MovesAsMap(ops[p], s, Apply(ops, s, p), p)
  {
    if Rewrite(ops[p], s.files[v]).None? {
      assert KeysOk(s.files[v]);
      RewriteIsMapOperation(ops[p], s.files[v]);
    }
  }

  lemma {:induction false} SeenOnMap(ops: seq<Op>, s: State, p: nat)
    requires Inv(ops, s) && Enabled(ops, s, p) && s.phases[p].Seen?
    ensures MovesAsMap(ops[p], s, Apply(ops, s, p), p)
  {
    ReplaceIsExactIff(ops, s, p);
  }

  lemma {:induction false} StepOnMap(ops: seq<Op>, s: State, p: nat)
    requires Inv(ops, s) && Enabled(ops, s, p)
    ensures MovesAsMap(ops[p], s, Apply(ops, s, p), p)
  {
    match s.phases[p]
    case Seen(_, _) => SeenOnMap(ops, s, p);
    case Locked(v) => LockedOnMap(ops, s, p, v);
    case Idle => IdleOnMap(ops, s, p);
    case Checked => OpenRegistersNothing(s, p);
    case _ =>
  }

  /**
   Every interleaving in which each process still held the file at the path when
   it committed leaves the registry that applying the operations one after
   another, in commit order, to the initial map leaves.
   */
  lemma {:induction false} CleanRunsAreSerial(ops: seq<Op>, initial: Option<Content>, schedule: seq<nat>)
    requires initial.Some? ==> UniqueKeys(Entries(initial.value))
    requires Exec(ops, initial, schedule).Some? && Exec(ops, initial, schedule).value.clean
    ensures var s := Exec(ops, initial, schedule).value;
            AsMap(Registered(s)) == Fold(ops, AsMap(Registered(Init(initial, |ops|))), s.commits)
  {
    if schedule != [] {
      var before := schedule[..|schedule| - 1];
      var s, p := Exec(ops, initial, before).value, schedule[|schedule| - 1];
      RunsKeepInv(ops, initial, before);
      StepOnMap(ops, s, p);
      assert s.clean;
      CleanRunsAreSerial(ops, initial, before);
      var s' := Apply(ops, s, p);
      if s'.commits != s.commits {
        assert s'.commits[..|s'.commits| - 1] == s.commits;
      }
    }
  }

  /** Let process `p` step `n` times, as far as it can. */
  function RunAlone(ops: seq<Op>, s: State, p: nat, n: nat): State
    decreases n
  {
    if n == 0 || !Enabled(ops, s, p) then s else RunAlone(ops, Apply(ops, s, p), p, n - 1)
  }

  lemma {:induction false} RunAloneKeepsInv(ops: seq<Op>, s: State, p: nat, n: nat)
    requires Inv(ops, s)
    ensures Inv(ops, RunAlone(ops, s, p, n))
    decreases n
  {
    if n > 0 && Enabled(ops, s, p) {
      StepKeepsInv(ops, s, p);
      RunAloneKeepsInv(ops, Apply(ops, s, p), p, n - 1);
    }
  }

  /** `s'` is `s` after process `p` alone has gone from its start to its end. */
  ghost predicate DidAlone(ops: seq<Op>, s: State, s': State, p: nat)
    requires p < |ops|
  {
    && |s'.phases| == |s.phases| == |ops|
    && s'.locks == map[]
    && (forall q :: 0 <= q < |ops| && q != p ==> s'.phases[q] == s.phases[q])
    && s'.phases[p] == Finished(ops[p].Register? || exists e :: e in Registered(s) && Owns(ops[p], e))
    && AsMap(Registered(s')) == OnMap(ops[p], AsMap(Registered(s)))
  }

  lemma CommittedFinishes(ops: seq<Op>, s: State, p: nat, n: nat)
    requires p < |ops| == |s.phases| && n >= 1 && s.phases[p].Committed? && s.locks == map[s.phases[p].v := p]
    ensures RunAlone(ops, s, p, n) == s.(locks := map[], phases := s.phases[p := Finished(s.phases[p].result)])
  {
    var s1 := Apply(ops, s, p);
    assert map[s.phases[p].v := p] - {s.phases[p].v} == map[];
    assert RunAlone(ops, s1, p, n - 1) == s1;
  }

  lemma {:induction false} LeavingCompletes(ops: seq<Op>, s: State, s': State, p: nat, v: nat, result: bool)
    requires p < |ops| == |s.phases| && s'.phases == s.phases[p := Committed(v, result)]
    requires result <==> ops[p].Register? || exists e :: e in Registered(s) && Owns(ops[p], e)
    requires AsMap(Registered(s')) == OnMap(ops[p], AsMap(Registered(s)))
    ensures DidAlone(ops, s, s'.(locks := map[], phases := s'.phases[p := Finished(result)]), p)
  {
    assert Registered(s'.(locks := map[], phases := s'.phases[p := Finished(result)])) == Registered(s');
  }

  lemma {:induction false} StartedEarlier(ops: seq<Op>, s: State, s1: State, s2: State, p: nat, ph: Phase)
    requires p < |ops| == |s.phases| && s1.phases == s.phases[p := ph] && Registered(s1) == Registered(s)
    requires DidAlone(ops, s1, s2, p)
    ensures DidAlone(ops, s, s2, p)
  {
  }

  lemma {:induction false} SeenFinishes(ops: seq<Op>, s: State, p: nat, n: nat)
    requires Inv(ops, s) && Enabled(ops, s, p) && n >= 2 && s.phases[p].Seen? && s.current == Some(s.phases[p].v)
    requires s.locks == map[s.phases[p].v := p]
    ensures DidAlone(ops, s, RunAlone(ops, s, p, n), p)
  {
    var s1 := Apply(ops, s, p);
    assert ops[p].Register? || exists e :: e in Registered(s) && Owns(ops[p], e) by {
      RewriteIsMapOperation(ops[p], s.phases[p].content);
    }
    assert AsMap(Registered(s1)) == OnMap(ops[p], AsMap(Registered(s))) by {
      ReplaceIsExactIff(ops, s, p);
    }
    LeavingCompletes(ops, s, s1, p, s.phases[p].v, true);
    CommittedFinishes(ops, s1, p, n - 1);
  }

  lemma {:induction false} DeclinedFinishes(ops: seq<Op>, s: State, p: nat, n: nat)
    requires Inv(ops, s) && p < |ops| && n >= 2 && s.phases[p].Locked? && s.current == Some(s.phases[p].v)
    requires s.locks == map[s.phases[p].v := p] && Rewrite(ops[p], s.files[s.phases[p].v]).None?
    ensures DidAlone(ops, s, RunAlone(ops, s, p, n), p)
  {
    RewriteIsMapOperation(ops[p], s.files[s.phases[p].v]);
    var s1 := Apply(ops, s, p);
    assert RunAlone(ops, s, p, n) == RunAlone(ops, s1, p, n - 1);
    CommittedFinishes(ops, s1, p, n - 1);
  }

  lemma {:induction false} LockedFinishes(ops: seq<Op>, s: State, p: nat, n: nat)
    requires Inv(ops, s) && p < |ops| && n >= 3 && s.phases[p].Locked? && s.current == Some(s.phases[p].v)
    requires s.locks == map[s.phases[p].v := p]
    ensures DidAlone(ops, s, RunAlone(ops, s, p, n), p)
  {
    if Rewrite(ops[p], s.files[s.phases[p].v]).Some? {
      var s1 := Apply(ops, s, p);
      StepKeepsInv(ops, s, p);
      SeenFinishes(ops, s1, p, n - 1);
      StartedEarlier(ops, s, s1, RunAlone(ops, s1, p, n - 1), p, s1.phases[p]);
    } else {
      DeclinedFinishes(ops, s, p, n);
    }
  }

  lemma {:induction false} OpenedFinishes(ops: seq<Op>, s: State, p: nat, n: nat)
    requires Inv(ops, s) && s.locks == map[] && p < |ops| && n >= 4
    requires s.phases[p].Opened? && s.current == Some(s.phases[p].v)
    ensures DidAlone(ops, s, RunAlone(ops, s, p, n), p)
  {
    var s1 := Apply(ops, s, p);
    StepKeepsInv(ops, s, p);
    assert map[][s.phases[p].v := p] == map[s.phases[p].v := p];
    LockedFinishes(ops, s1, p, n - 1);
    StartedEarlier(ops, s, s1, RunAlone(ops, s1, p, n - 1), p, s1.phases[p]);
  }

  /** Running by itself, an operation finishes, performs its map operation, and reports whether it removed anything. */
  lemma {:induction false} AloneIsTheMapOperation(ops: seq<Op>, s: State, p: nat, n: nat)
    requires Inv(ops, s) && s.locks == map[] && p < |ops| && s.phases[p] == Idle && n >= 6
    ensures DidAlone(ops, s, RunAlone(ops, s, p, n), p)
  {
    var s1 := Apply(ops, s, p);
    StepKeepsInv(ops, s, p);
    StepOnMap(ops, s, p);
    if !ops[p].Register? && s.current.None? {
      assert RunAlone(ops, s1, p, n - 1) == s1;
    } else if ops[p].Register? {
      OpenedFinishes(ops, s1, p, n - 1);
    } else {
      var s2 := Apply(ops, s1, p);
      StepKeepsInv(ops, s1, p);
      OpenedFinishes(ops, s2, p, n - 2);
    }
  }

  /** Run the first `n` processes one after another, each for up to `k` steps. */
  function RunSerially(ops: seq<Op>, initial: Option<Content>, n: nat, k: nat): State
    requires n <= |ops|
    decreases n
  {
    if n == 0 then Init(initial, |ops|) else RunAlone(ops, RunSerially(ops, initial, n - 1, k), n - 1, k)
  }

  ghost function Upto(n: nat): seq<nat> {
    if n == 0 then [] else Upto(n - 1) + [n - 1]
  }

  ghost predicate RanSerially(ops: seq<Op>, m: map<Key, Entry>, n: nat, s: State) {
    && n <= |ops| == |s.phases|
    && s.locks == map[]
    && (forall q :: n <= q < |ops| ==> s.phases[q] == Idle)
    && (forall q :: 0 <= q < n ==> s.phases[q].Finished?)
    && AsMap(Registered(s)) == Fold(ops, m, Upto(n))
  }

  lemma FoldSnoc(ops: seq<Op>, m: map<Key, Entry>, n: nat)
    requires n < |ops|
    ensures Fold(ops, m, Upto(n + 1)) == OnMap(ops[n], Fold(ops, m, Upto(n)))
  {
    assert Upto(n + 1)[..|Upto(n)|] == Upto(n);
  }

  lemma {:induction false} OneMoreSerially(ops: seq<Op>, m: map<Key, Entry>, n: nat, s: State, s': State)
    requires n < |ops| && RanSerially(ops, m, n, s) && DidAlone(ops, s, s', n)
    ensures RanSerially(ops, m, n + 1, s')
  {
    FoldSnoc(ops, m, n);
  }

  lemma {:induction false} NextProcess(ops: seq<Op>, m: map<Key, Entry>, n: nat, s: State, k: nat)
    requires n < |ops| && k >= 6 && Inv(ops, s) && RanSerially(ops, m, n, s)
    ensures RanSerially(ops, m, n + 1, RunAlone(ops, s, n, k))
  {
    AloneIsTheMapOperation(ops, s, n, k);
    OneMoreSerially(ops, m, n, s, RunAlone(ops, s, n, k));
  }

  lemma {:induction false} SerialRunsKeepInv(ops: seq<Op>, initial: Option<Content>, n: nat, k: nat)
    requires n <= |ops| && (initial.Some? ==> UniqueKeys(Entries(initial.value)))
    ensures Inv(ops, RunSerially(ops, initial, n, k))
    decreases n
  {
    if n > 0 {
      SerialRunsKeepInv(ops, initial, n - 1, k);
      RunAloneKeepsInv(ops, RunSerially(ops, initial, n - 1, k), n - 1, k);
    }
  }

  lemma {:induction false} NextSerial(ops: seq<Op>, initial: Option<Content>, n: nat, k: nat)
    requires n < |ops| && k >= 6 && (initial.Some? ==> UniqueKeys(Entries(initial.value)))
    requires RanSerially(ops, AsMap(Registered(Init(initial, |ops|))), n, RunSerially(ops, initial, n, k))
    ensures RanSerially(ops, AsMap(Registered(Init(initial, |ops|))), n + 1, RunSerially(ops, initial, n + 1, k))
  {
    var m, s := AsMap(Registered(Init(initial, |ops|))), RunSerially(ops, initial, n, k);
    SerialRunsKeepInv(ops, initial, n, k);
    NextProcess(ops, m, n, s, k);
    assert RunSerially(ops, initial, n + 1, k) == RunAlone(ops, s, n, k);
  }

  /** Serial runs implement a map with put, delete and delete-by-pid. */
  lemma {:induction false} SerialRunsImplementTheMap(ops: seq<Op>, initial: Option<Content>, n: nat, k: nat)
    requires n <= |ops| && k >= 6 && (initial.Some? ==> UniqueKeys(Entries(initial.value)))
    ensures RanSerially(ops, AsMap(Registered(Init(initial, |ops|))), n, RunSerially(ops, initial, n, k))
    decreases n
  {
    if n > 0 {
      SerialRunsImplementTheMap(ops, initial, n - 1, k);
      NextSerial(ops, initial, n - 1, k);
    }
  }

  // --------------------------------------------------------------------- a lost update

  predicate TwoWorkers(ops: seq<Op>, first: Entry, second: Entry) {
    |ops| == 2 && ops[0] == Register(first) && ops[1] == Register(second)
  }

  lemma {:induction false} ExecSnoc(ops: seq<Op>, initial: Option<Content>, schedule: seq<nat>, s: State, p: nat,
                                    s': State)
    requires Exec(ops, initial, schedule) == Some(s) && Enabled(ops, s, p) && Apply(ops, s, p) == s'
    ensures Exec(ops, initial, schedule + [p]) == Some(s')
  {
    assert (schedule + [p])[..|schedule|] == schedule;
  }

  /** Both have opened the file the first of them created, and the first has locked it. */
  lemma {:induction false} BothOpen(ops: seq<Op>, first: Entry, second: Entry, t: seq<nat>)
    requires TwoWorkers(ops, first, second) && t == [0, 1, 0]
    ensures Exec(ops, None, t) == Some(State([Blank], Some(0), map[0 := 0], [Locked(0), Opened(0)], [], true))
  {
    var s0 := State([], None, map[], [Idle, Idle], [], true);
    var s1 := State([Blank], Some(0), map[], [Opened(0), Idle], [], true);
    var s2 := State([Blank], Some(0), map[], [Opened(0), Opened(0)], [], true);
    var s3 := State([Blank], Some(0), map[0 := 0], [Locked(0), Opened(0)], [], true);
    var t0: seq<nat> := [];
    var t1 := t0 + [0];
    var t2 := t1 + [1];
    assert Init(None, 2) == s0;
    ExecSnoc(ops, None, t0, s0, 0, s1);
    ExecSnoc(ops, None, t1, s1, 1, s2);
    ExecSnoc(ops, None, t2, s2, 0, s3);
    assert t2 + [0] == t;
  }

  lemma {:induction false} WriteStep(ops: seq<Op>, s: State, p: nat, e: Entry)
    requires p < |ops| == |s.phases| && ops[p] == Register(e) && s.phases[p] == Seen(0, Blank)
    ensures Enabled(ops, s, p)
    ensures Apply(ops, s, p)
         == State(s.files + [Serialized([e])], Some(|s.files|), s.locks, s.phases[p := Committed(0, true)],
                  s.commits + [p], s.clean && s.current == Some(0))
  {
    assert Others(Register(e), []) + [e] == [e];
  }

  lemma {:induction false} UnlockStep(ops: seq<Op>, s: State, p: nat)
    requires p < |ops| == |s.phases| && s.phases[p] == Committed(0, true) && s.locks == map[0 := p]
    ensures Enabled(ops, s, p) && Apply(ops, s, p) == s.(locks := map[], phases := s.phases[p := Finished(true)])
  {
    assert map[0 := p] - {0} == map[];
  }

  /** A process that has locked the blank file, which every handle still points at, writes its entry and leaves. */
  lemma {:induction false} Writes(ops: seq<Op>, t: seq<nat>, s: State, p: nat, e: Entry, t': seq<nat>)
    requires p < |ops| == |s.phases| && ops[p] == Register(e) && s.phases[p] == Locked(0)
    requires |s.files| > 0 && s.files[0] == Blank
    requires Exec(ops, None, t) == Some(s) && s.locks == map[0 := p] && t' == t + [p, p, p]
    ensures Exec(ops, None, t')
         == Some(State(s.files + [Serialized([e])], Some(|s.files|), map[], s.phases[p := Finished(true)],
                       s.commits + [p], s.clean && s.current == Some(0)))
  {
    var s1 := s.(phases := s.phases[p := Seen(0, Blank)]);
    var s2 := State(s.files + [Serialized([e])], Some(|s.files|), s.locks, s.phases[p := Committed(0, true)],
                    s.commits + [p], s.clean && s.current == Some(0));
    var s3 := s2.(locks := map[], phases := s.phases[p := Finished(true)]);
    WriteStep(ops, s1, p, e);
    UnlockStep(ops, s2, p);
    assert s1.phases[p := Committed(0, true)] == s2.phases;
    assert s2.phases[p := Finished(true)] == s3.phases;
    ExecSnoc(ops, None, t, s, p, s1);
    ExecSnoc(ops, None, t + [p], s1, p, s2);
    ExecSnoc(ops, None, t + [p] + [p], s2, p, s3);
    assert t + [p] + [p] + [p] == t';
  }

  /**
   Two workers open the same file; the second locks its handle only after the
   first has replaced the file at the path. Both finish, and only the second is
   registered.
   */
  lemma {:induction false} LostUpdate(ops: seq<Op>, first: Entry, second: Entry, schedule: seq<nat>)
    requires TwoWorkers(ops, first, second) && KeyOf(first) != KeyOf(second)
    requires schedule == [0, 1, 0, 0, 0, 0, 1, 1, 1, 1]
    ensures var end := Exec(ops, None, schedule);
            && end.Some? && end.value.phases == [Finished(true), Finished(true)] && !end.value.clean
            && Registered(end.value) == [second]
  {
    var one, two := Serialized([first]), Serialized([second]);
    var t3, t6: seq<nat> := [0, 1, 0], [0, 1, 0, 0, 0, 0];
    var s3 := State([Blank], Some(0), map[0 := 0], [Locked(0), Opened(0)], [], true);
    var s6 := State([Blank, one], Some(1), map[], [Finished(true), Opened(0)], [0], true);
    var s7 := State([Blank, one], Some(1), map[0 := 1], [Finished(true), Locked(0)], [0], true);
    BothOpen(ops, first, second, t3);
    assert s3.phases[0 := Finished(true)] == s6.phases;
    assert s3.files + [one] == s6.files;
    assert s3.commits + [0] == s6.commits;
    assert s6.phases[1 := Locked(0)] == s7.phases;
    assert s6.locks[0 := 1] == s7.locks;
    assert s7.phases[1 := Finished(true)] == [Finished(true), Finished(true)];
    Writes(ops, t3, s3, 0, first, t6);
    ExecSnoc(ops, None, t6, s6, 1, s7);
    Writes(ops, t6 + [1], s7, 1, second, schedule);
    SerializedEntries([second]);
  }
}
