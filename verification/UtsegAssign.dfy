/**
 Turning word labels into utterance groups: consecutive equal labels form runs,
 runs of fewer than three words join the next long run (or the last one).
 */
module UtsegAssign {
  import opened Common

  // ------------------------------------------------- the assignment, run by run

  /** A run of at least three equal labels ends just before position `e`. */
  predicate LongRunEndsAt<T(==)>(l: seq<T>, e: nat) {
    3 <= e <= |l| && l[e - 1] == l[e - 2] == l[e - 3] && (e < |l| ==> l[e] != l[e - 1])
  }

  /** Number of long runs that end at or before position `i`. */
  function LongRunsBy<T(==)>(l: seq<T>, i: nat): nat {
    if i == 0 then 0 else LongRunsBy(l, i - 1) + (if LongRunEndsAt(l, i) then 1 else 0)
  }

  function GroupCount<T(==)>(l: seq<T>): nat {
    Max(1, LongRunsBy(l, |l|))
  }

  /** The group of word `i`: one per long run already finished, capped at the last group. */
  function GroupAt<T(==)>(l: seq<T>, i: nat): nat {
    Min(LongRunsBy(l, i), GroupCount(l) - 1)
  }

  function Assignments<T(==)>(l: seq<T>): seq<nat> {
    seq(|l|, i requires 0 <= i < |l| => GroupAt(l, i))
  }

  // ------------------------------------------------------------ what it promises

  lemma {:induction false} LongRunsMonotone<T>(l: seq<T>, i: nat, j: nat)
    requires i <= j
    ensures LongRunsBy(l, i) <= LongRunsBy(l, j) <= LongRunsBy(l, i) + (j - i)
    decreases j
  {
    if i < j {
      LongRunsMonotone(l, i, j - 1);
    }
  }

  /** Group numbers start at 0, never decrease and rise by at most one; the last word is in the last group. */
  lemma AssignmentsAreSteps<T>(l: seq<T>)
    ensures l != [] ==> Assignments(l)[0] == 0 && Assignments(l)[|l| - 1] == GroupCount(l) - 1
    ensures forall i :: 0 < i < |l| ==> Assignments(l)[i - 1] <= Assignments(l)[i] <= Assignments(l)[i - 1] + 1
  {
    forall i | 0 < i < |l|
      ensures Assignments(l)[i - 1] <= Assignments(l)[i] <= Assignments(l)[i - 1] + 1
    {
      LongRunsMonotone(l, i - 1, i);
    }
    if l != [] {
      assert LongRunsBy(l, |l|) <= LongRunsBy(l, |l| - 1) + 1;
      LongRunsMonotone(l, |l| - 1, |l|);
    }
  }

  lemma {:induction false} LongRunNumbered<T>(l: seq<T>, n: nat, g: nat) returns (e: nat)
    requires n <= |l| && g < LongRunsBy(l, n)
    ensures 3 <= e <= n && LongRunEndsAt(l, e) && LongRunsBy(l, e) == g + 1
    decreases n
  {
    if LongRunsBy(l, n - 1) <= g {
      e := n;
    } else {
      e := LongRunNumbered(l, n - 1, g);
    }
  }

  /** More long runs are counted by `j` than by `i` exactly if one ends in between. */
  lemma {:induction false} LongRunBetween<T>(l: seq<T>, i: nat, j: nat)
    requires i <= j <= |l|
    ensures LongRunsBy(l, i) < LongRunsBy(l, j) <==> exists e :: i < e <= j && LongRunEndsAt(l, e)
  {
    if LongRunsBy(l, i) < LongRunsBy(l, j) {
      var e := LongRunNumbered(l, j, LongRunsBy(l, i));
      if e <= i {
        LongRunsMonotone(l, e, i);
      }
    }
    if e :| i < e <= j && LongRunEndsAt(l, e) {
      LongRunsMonotone(l, i, e - 1);
      LongRunsMonotone(l, e, j);
    }
  }

  /**
   An utterance boundary falls exactly where at least three equal labels end,
   except after the last such run.
   */
  lemma {:induction false} BoundaryIffLongRunEnds<T>(l: seq<T>, i: nat)
    requires 0 < i < |l|
    ensures Assignments(l)[i - 1] != Assignments(l)[i]
        <==> && i >= 3 && l[i - 3] == l[i - 2] == l[i - 1] != l[i]
             && exists e :: i < e <= |l| && LongRunEndsAt(l, e)
  {
    LongRunsMonotone(l, i, |l|);
    LongRunBetween(l, i, |l|);
  }

  /** Every group holds three consecutive words unless it is the only group. */
  lemma GroupsHaveThreeWords<T>(l: seq<T>, g: nat) returns (s: nat)
    requires 1 < GroupCount(l) && g < GroupCount(l)
    ensures s + 3 <= |l|
    ensures Assignments(l)[s] == Assignments(l)[s + 1] == Assignments(l)[s + 2] == g
  {
    var e := LongRunNumbered(l, |l|, g);
    s := e - 3;
    assert !LongRunEndsAt(l, e - 1) && !LongRunEndsAt(l, e - 2);
    assert LongRunsBy(l, e) == LongRunsBy(l, e - 1) + 1;
    assert LongRunsBy(l, e - 1) == LongRunsBy(l, e - 2);
    assert LongRunsBy(l, e - 2) == LongRunsBy(l, e - 3);
  }

  /** Only the partition into equal labels matters, not the labels. */
  lemma {:induction false} LongRunsRelabel<T, U>(l: seq<T>, m: seq<U>, i: nat)
    requires |l| == |m|
    requires forall i, j :: 0 <= i < |l| && 0 <= j < |l| ==> (l[i] == l[j] <==> m[i] == m[j])
    ensures LongRunsBy(l, i) == LongRunsBy(m, i)
  {
    if i > 0 {
      LongRunsRelabel(l, m, i - 1);
      assert LongRunEndsAt(l, i) <==> LongRunEndsAt(m, i);
    }
  }

  lemma AssignmentsRelabel<T, U>(l: seq<T>, m: seq<U>)
    requires |l| == |m|
    requires forall i, j :: 0 <= i < |l| && 0 <= j < |l| ==> (l[i] == l[j] <==> m[i] == m[j])
    ensures Assignments(l) == Assignments(m)
  {
    LongRunsRelabel(l, m, |l|);
    forall i | 0 <= i < |l| ensures GroupAt(l, i) == GroupAt(m, i) {
      LongRunsRelabel(l, m, i);
    }
  }

  // --------------------------------------------------------------- the code's loops

  function Range(lo: nat, hi: nat): seq<nat> {
    if lo <= hi then seq(hi - lo, i => lo + i) else []
  }

  /** `ranges[k]` lists the positions `bounds[k] .. bounds[k + 1] - 1`. */
  ghost predicate Tiles(ranges: seq<seq<nat>>, bounds: seq<nat>) {
    && |bounds| == |ranges| + 1
    && bounds[0] == 0
    && forall k :: 0 <= k < |ranges| ==> bounds[k] < bounds[k + 1] && ranges[k] == Range(bounds[k], bounds[k + 1])
  }

  /** Each tile is one maximal run of equal labels. */
  ghost predicate AreRuns(l: seq<int>, bounds: seq<nat>) {
    Within(l, bounds) && EqualBetween(l, bounds) && DifferentAt(l, bounds)
  }

  ghost predicate Within(l: seq<int>, bounds: seq<nat>) {
    forall k :: 0 <= k < |bounds| ==> bounds[k] <= |l|
  }

  ghost predicate EqualBetween(l: seq<int>, bounds: seq<nat>)
    requires Within(l, bounds)
  {
    forall k, i :: 0 <= k < |bounds| - 1 && bounds[k] <= i < bounds[k + 1] ==> l[i] == l[bounds[k]]
  }

  ghost predicate DifferentAt(l: seq<int>, bounds: seq<nat>)
    requires Within(l, bounds)
  {
    forall k :: 0 < k < |bounds| && 0 < bounds[k] < |l| ==> l[bounds[k]] != l[bounds[k] - 1]
  }

  /** The maximal run of equal labels starting at `start`. */
  method TakeRun(l: seq<int>, start: nat) returns (grp: seq<nat>, end: nat)
    requires start < |l|
    ensures start < end <= |l| && grp == Range(start, end)
    ensures forall k :: start <= k < end ==> l[k] == l[start]
    ensures end < |l| ==> l[end] != l[start]
  {
    grp := [start];
    end := start + 1;
    while end < |l| && l[end] == l[start]
      invariant start < end <= |l| && grp == Range(start, end)
      invariant forall k :: start <= k < end ==> l[k] == l[start]
    {
      grp := grp + [end];
      end := end + 1;
    }
  }

  lemma {:induction false} OneMoreTile(groups: seq<seq<nat>>, bounds: seq<nat>, grp: seq<nat>, end: nat)
    requires Tiles(groups, bounds) && bounds[|groups|] < end && grp == Range(bounds[|groups|], end)
    ensures Tiles(groups + [grp], bounds + [end])
  {
    var groups', bounds' := groups + [grp], bounds + [end];
    forall k | 0 <= k < |groups'|
      ensures bounds'[k] < bounds'[k + 1] && groups'[k] == Range(bounds'[k], bounds'[k + 1])
    {
      if k < |groups| {
        assert groups'[k] == groups[k] && bounds'[k] == bounds[k] && bounds'[k + 1] == bounds[k + 1];
      }
    }
  }

  lemma {:induction false} OneMoreEqual(l: seq<int>, bounds: seq<nat>, start: nat, end: nat)
    requires Within(l, bounds) && EqualBetween(l, bounds) && bounds != [] && start == bounds[|bounds| - 1]
    requires start < end <= |l| && forall i :: start <= i < end ==> l[i] == l[start]
    ensures Within(l, bounds + [end]) && EqualBetween(l, bounds + [end])
  {
    var bounds' := bounds + [end];
    forall k, i | 0 <= k < |bounds'| - 1 && bounds'[k] <= i < bounds'[k + 1] ensures l[i] == l[bounds'[k]] {
      if k < |bounds| - 1 {
        assert bounds'[k] == bounds[k] && bounds'[k + 1] == bounds[k + 1];
      }
    }
  }

  lemma {:induction false} OneMoreDifferent(l: seq<int>, bounds: seq<nat>, start: nat, end: nat)
    requires Within(l, bounds) && DifferentAt(l, bounds)
    requires start < end <= |l| && l[end - 1] == l[start] && (end < |l| ==> l[end] != l[start])
    ensures Within(l, bounds + [end]) && DifferentAt(l, bounds + [end])
  {
    var bounds' := bounds + [end];
    assert forall k :: 0 <= k < |bounds| ==> bounds'[k] == bounds[k];
  }

  lemma {:induction false} OneMoreRun(l: seq<int>, groups: seq<seq<nat>>, bounds: seq<nat>, grp: seq<nat>, end: nat)
    requires Tiles(groups, bounds) && AreRuns(l, bounds) && bounds[|groups|] < end <= |l|
    requires grp == Range(bounds[|groups|], end)
    requires forall k :: bounds[|groups|] <= k < end ==> l[k] == l[bounds[|groups|]]
    requires end < |l| ==> l[end] != l[bounds[|groups|]]
    ensures Tiles(groups + [grp], bounds + [end]) && AreRuns(l, bounds + [end])
  {
    OneMoreTile(groups, bounds, grp, end);
    OneMoreEqual(l, bounds, bounds[|groups|], end);
    OneMoreDifferent(l, bounds, bounds[|groups|], end);
  }

  /** `itertools.groupby` over the positions, keyed by label. */
  method GroupRuns(l: seq<int>) returns (groups: seq<seq<nat>>, ghost bounds: seq<nat>)
    ensures Tiles(groups, bounds) && AreRuns(l, bounds) && bounds[|groups|] == |l|
  {
    groups, bounds := [], [0];
    var start := 0;
    while start < |l|
      invariant start <= |l| && Tiles(groups, bounds) && AreRuns(l, bounds) && bounds[|groups|] == start
    {
      var grp, end := TakeRun(l, start);
      OneMoreRun(l, groups, bounds, grp, end);
      groups, bounds := groups + [grp], bounds + [end];
      start := end;
    }
  }

  /** Within a run no long run ends; at its end one does exactly if it has three words. */
  lemma {:induction false} CountOverRun<T>(l: seq<T>, b: nat, e: nat, x: nat)
    requires b < e <= |l| && b <= x <= e
    requires forall i :: b <= i < e ==> l[i] == l[b]
    requires 0 < b ==> l[b] != l[b - 1]
    requires e < |l| ==> l[e] != l[e - 1]
    ensures LongRunsBy(l, x) == LongRunsBy(l, b) + (if x == e && e - b >= 3 then 1 else 0)
    decreases x
  {
    if b < x {
      CountOverRun(l, b, e, x - 1);
    }
  }

  ghost predicate InTile(cuts: seq<nat>, m: nat, x: nat) {
    m + 1 < |cuts| && cuts[m] <= x < cuts[m + 1]
  }

  /** The positions before the last cut sit in the group numbered by the long runs finished before them. */
  ghost predicate Collected(l: seq<int>, merged: seq<seq<nat>>, cuts: seq<nat>) {
    Tiles(merged, cuts) && forall x :: 0 <= x < cuts[|merged|] ==> InTile(cuts, LongRunsBy(l, x), x)
  }

  lemma CollectMore(l: seq<int>, merged: seq<seq<nat>>, cuts: seq<nat>, grp: seq<nat>, end: nat)
    requires Collected(l, merged, cuts)
    requires cuts[|merged|] < end && grp == Range(cuts[|merged|], end)
    requires forall x :: cuts[|merged|] <= x < end ==> LongRunsBy(l, x) == |merged|
    ensures Collected(l, merged + [grp], cuts + [end])
  {
    var cuts' := cuts + [end];
    forall x | 0 <= x < end ensures InTile(cuts', LongRunsBy(l, x), x) {
      if x < cuts[|merged|] {
        assert InTile(cuts, LongRunsBy(l, x), x);
      }
    }
  }

  lemma CountOverTile(l: seq<int>, groups: seq<seq<nat>>, bounds: seq<nat>, k: nat)
    requires Tiles(groups, bounds) && AreRuns(l, bounds) && k < |groups|
    ensures |groups[k]| == bounds[k + 1] - bounds[k]
    ensures forall x :: bounds[k] <= x <= bounds[k + 1] ==>
              LongRunsBy(l, x) == LongRunsBy(l, bounds[k]) + (if x == bounds[k + 1] && |groups[k]| >= 3 then 1 else 0)
  {
    forall x | bounds[k] <= x <= bounds[k + 1]
      ensures LongRunsBy(l, x) == LongRunsBy(l, bounds[k]) + (if x == bounds[k + 1] && |groups[k]| >= 3 then 1 else 0)
    {
      CountOverRun(l, bounds[k], bounds[k + 1], x);
    }
  }

  /** `pending` lists the words after the last cut, at all of which the same number of long runs is finished. */
  ghost predicate Waiting(l: seq<int>, count: nat, cut: nat, pending: seq<nat>, upto: nat) {
    && cut <= upto
    && pending == Range(cut, upto)
    && forall x :: cut <= x <= upto ==> LongRunsBy(l, x) == count
  }

  lemma {:induction false} PendingGrows(l: seq<int>, groups: seq<seq<nat>>, bounds: seq<nat>, k: nat, count: nat,
                                        cut: nat, pending: seq<nat>)
    requires Tiles(groups, bounds) && AreRuns(l, bounds) && k < |groups|
    requires Waiting(l, count, cut, pending, bounds[k])
    ensures cut < bounds[k + 1] && pending + groups[k] == Range(cut, bounds[k + 1])
    ensures forall x :: cut <= x < bounds[k + 1] ==> LongRunsBy(l, x) == count
    ensures |groups[k]| < 3 ==> Waiting(l, count, cut, pending + groups[k], bounds[k + 1])
    ensures |groups[k]| >= 3 ==> Waiting(l, count + 1, bounds[k + 1], [], bounds[k + 1])
  {
    CountOverTile(l, groups, bounds, k);
  }

  /** Short runs wait in `pending` for the next long run. */
  method CollectLongRuns(l: seq<int>, groups: seq<seq<nat>>, ghost bounds: seq<nat>)
    returns (merged: seq<seq<nat>>, pending: seq<nat>, ghost cuts: seq<nat>)
    requires Tiles(groups, bounds) && AreRuns(l, bounds)
    ensures Collected(l, merged, cuts)
    ensures Waiting(l, |merged|, cuts[|merged|], pending, bounds[|groups|])
  {
    merged, pending, cuts := [], [], [0];
    for k := 0 to |groups|
      invariant Collected(l, merged, cuts)
      invariant Waiting(l, |merged|, cuts[|merged|], pending, bounds[k])
    {
      var grp := groups[k];
      PendingGrows(l, groups, bounds, k, |merged|, cuts[|merged|], pending);
      if |grp| < 3 {
        pending := pending + grp;
      } else {
        CollectMore(l, merged, cuts, pending + grp, bounds[k + 1]);
        merged, cuts := merged + [pending + grp], cuts + [bounds[k + 1]];
        pending := [];
      }
    }
  }

  lemma JoinLast(l: seq<int>, merged: seq<seq<nat>>, cuts: seq<nat>, pending: seq<nat>)
    requires Collected(l, merged, cuts) && merged != []
    requires Waiting(l, |merged|, cuts[|merged|], pending, |l|) && pending != []
    ensures Tiles(merged[..|merged| - 1] + [merged[|merged| - 1] + pending], cuts[..|merged|] + [|l|])
    ensures forall x :: 0 <= x < |l| ==> InTile(cuts[..|merged|] + [|l|], GroupAt(l, x), x)
  {
    forall x | 0 <= x < |l| ensures InTile(cuts[..|merged|] + [|l|], GroupAt(l, x), x) {
      if x < cuts[|merged|] {
        assert InTile(cuts, LongRunsBy(l, x), x);
      }
    }
  }

  /** Trailing short runs join the last group, or are the only one. */
  method MergeShortRuns(l: seq<int>, groups: seq<seq<nat>>, ghost bounds: seq<nat>)
    returns (merged: seq<seq<nat>>, ghost cuts: seq<nat>)
    requires Tiles(groups, bounds) && AreRuns(l, bounds) && bounds[|groups|] == |l|
    ensures Tiles(merged, cuts) && cuts[|merged|] == |l|
    ensures forall x :: 0 <= x < |l| ==> InTile(cuts, GroupAt(l, x), x)
  {
    var pending;
    merged, pending, cuts := CollectLongRuns(l, groups, bounds);
    if pending == [] {
      assert forall x :: 0 <= x < |l| ==> InTile(cuts, LongRunsBy(l, x), x);
    } else if merged != [] {
      JoinLast(l, merged, cuts, pending);
      var last := |merged| - 1;
      merged, cuts := merged[..last] + [merged[last] + pending], cuts[..|merged|] + [|l|];
    } else {
      merged, cuts := [pending], [0, |l|];
    }
  }

  /** Number the words by the merged group that lists them. */
  method Scatter(merged: seq<seq<nat>>, ghost cuts: seq<nat>, n: nat) returns (assignments: seq<nat>)
    requires Tiles(merged, cuts) && cuts[|merged|] == n
    ensures |assignments| == n
    ensures forall x :: 0 <= x < n ==> InTile(cuts, assignments[x], x)
  {
    var a := new nat[n](_ => 0);
    for m := 0 to |merged|
      invariant cuts[m] <= n
      invariant forall x :: 0 <= x < cuts[m] ==> InTile(cuts, a[x], x)
    {
      CutsOrdered(merged, cuts, m + 1, |merged|);
      for j := 0 to |merged[m]|
        invariant forall x :: 0 <= x < cuts[m] + j ==> InTile(cuts, a[x], x)
      {
        a[merged[m][j]] := m;
      }
    }
    assignments := a[..];
  }

  lemma {:induction false} CutsOrdered(ranges: seq<seq<nat>>, cuts: seq<nat>, i: nat, j: nat)
    requires Tiles(ranges, cuts) && i <= j <= |ranges|
    ensures cuts[i] <= cuts[j]
    decreases j
  {
    if i < j {
      CutsOrdered(ranges, cuts, i, j - 1);
    }
  }

  lemma OneTilePerPosition(ranges: seq<seq<nat>>, cuts: seq<nat>, m: nat, k: nat, x: nat)
    requires Tiles(ranges, cuts) && InTile(cuts, m, x) && InTile(cuts, k, x)
    ensures m == k
  {
    if m < k {
      CutsOrdered(ranges, cuts, m + 1, k);
    } else if k < m {
      CutsOrdered(ranges, cuts, k + 1, m);
    }
  }

  /** Grouping, merging and numbering compute the declarative assignment: no word is lost or moved. */
  method AssignGroups(l: seq<int>) returns (assignments: seq<nat>)
    ensures assignments == Assignments(l)
  {
    var groups, bounds := GroupRuns(l);
    var merged, cuts := MergeShortRuns(l, groups, bounds);
    assignments := Scatter(merged, cuts, |l|);
    forall x | 0 <= x < |l| ensures assignments[x] == GroupAt(l, x) {
      OneTilePerPosition(merged, cuts, assignments[x], GroupAt(l, x), x);
    }
  }
}
