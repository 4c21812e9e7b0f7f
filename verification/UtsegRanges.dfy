/**
 Largest-first subtraction of phrase ranges: the ranges kept are the maximal
 ranges of the tree walk together with the words no range covers.
 */
module UtsegRanges {
  import opened Common
  import opened UtsegTree
  import S = StableSort

  ghost function SetOf(l: seq<nat>): set<nat> {
    set x | x in l
  }

  ghost function SetsOf(ls: seq<seq<nat>>): seq<set<nat>> {
    seq(|ls|, i requires 0 <= i < |ls| => SetOf(ls[i]))
  }

  ghost function UnionOf(ss: seq<set<nat>>): set<nat> {
    set i, x | 0 <= i < |ss| && x in ss[i] :: x
  }

  ghost predicate PairwiseDisjoint(ss: seq<set<nat>>) {
    forall i, j :: 0 <= i < j < |ss| ==> ss[i] !! ss[j]
  }

  /** What subtracting the earlier survivors from each set in turn leaves. */
  ghost function Greedy(order: seq<set<nat>>): seq<set<nat>> {
    if order == [] then []
    else
      var kept := Greedy(order[..|order| - 1]);
      var rest := order[|order| - 1] - UnionOf(kept);
      if rest == {} then kept else kept + [rest]
  }

  lemma UnionOfSnoc(ss: seq<set<nat>>, s: set<nat>)
    ensures UnionOf(ss + [s]) == UnionOf(ss) + s
  {
    var all := ss + [s];
    forall x ensures x in UnionOf(all) <==> x in UnionOf(ss) + s {
      if x in s {
        assert x in all[|ss|];
      }
      if x in UnionOf(ss) {
        var i :| 0 <= i < |ss| && x in ss[i];
        assert x in all[i];
      }
      if x in UnionOf(all) {
        var i :| 0 <= i < |all| && x in all[i];
        assert i < |ss| ==> x in ss[i];
      }
    }
  }

  /** For any input order: survivors are nonempty, pairwise disjoint, and cover what the input covers. */
  lemma {:induction false} GreedyPartitions(order: seq<set<nat>>)
    ensures PairwiseDisjoint(Greedy(order))
    ensures UnionOf(Greedy(order)) == UnionOf(order)
    ensures forall i :: 0 <= i < |Greedy(order)| ==> Greedy(order)[i] != {}
  {
    if order != [] {
      var init, last := order[..|order| - 1], order[|order| - 1];
      GreedyPartitions(init);
      assert order == init + [last];
      UnionOfSnoc(init, last);
      UnionOfSnoc(Greedy(init), last - UnionOf(Greedy(init)));
    }
  }

  // ------------------------------------------------------------ the code's loop

  method MinOf(s: set<nat>) returns (m: nat)
    requires s != {}
    ensures m in s && forall y :: y in s ==> m <= y
  {
    m :| m in s;
    var others := s - {m};
    while others != {}
      invariant m in s && others <= s
      invariant forall y :: y in s && y !in others ==> m <= y
      decreases others
    {
      var y :| y in others;
      others := others - {y};
      if y < m {
        m := y;
      }
    }
  }

  /** Strictly increasing listing of a finite set, as Python's `sorted(set)`. */
  method SortInts(s: set<nat>) returns (r: seq<nat>)
    ensures SetOf(r) == s && |r| == |s|
    ensures forall i, j :: 0 <= i < j < |r| ==> r[i] < r[j]
  {
    r := [];
    var left := s;
    while left != {}
      invariant left <= s && |r| + |left| == |s|
      invariant forall x :: x in s <==> x in r || x in left
      invariant forall i, j :: 0 <= i < j < |r| ==> r[i] < r[j]
      invariant forall i, y :: 0 <= i < |r| && y in left ==> r[i] < y
      decreases left
    {
      var m := MinOf(left);
      r := r + [m];
      left := left - {m};
    }
  }

  function LenOf(l: seq<nat>): int {
    |l|
  }

  function SizeOf(r: Interval): int {
    |Positions(r)|
  }

  function Reverse<T>(s: seq<T>): seq<T> {
    seq(|s|, i requires 0 <= i < |s| => s[|s| - 1 - i])
  }

  /** `list(range(n))`. */
  function Indices(n: nat): seq<nat> {
    seq(n, i => i)
  }

  /** Nothing kept shares an element with what is left, so the subset test never succeeds. */
  lemma RestIsNeverSubsumed(kept: seq<set<nat>>, rest: set<nat>)
    requires rest !! UnionOf(kept) && rest != {}
    ensures forall i :: 0 <= i < |kept| ==> !(rest <= kept[i])
  {
    var x := Witness(rest);
    forall i | 0 <= i < |kept| ensures !(rest <= kept[i]) {
      assert x in kept[i] ==> x in UnionOf(kept);
    }
  }

  lemma GreedySnoc(ls: seq<seq<nat>>, k: nat)
    requires k < |ls|
    ensures Greedy(SetsOf(ls[..k + 1]))
         == Greedy(SetsOf(ls[..k]))
            + var rest := SetOf(ls[k]) - UnionOf(Greedy(SetsOf(ls[..k]))); if rest == {} then [] else [rest]
  {
    assert SetsOf(ls[..k + 1])[..k] == SetsOf(ls[..k]);
  }

  /** What is left of one list after removing the elements of every kept list. */
  method SubtractKept(rng: seq<nat>, kept: seq<seq<nat>>) returns (rest: set<nat>)
    ensures rest == SetOf(rng) - UnionOf(SetsOf(kept))
  {
    rest := set x | x in rng;
    for i := 0 to |kept|
      invariant rest == SetOf(rng) - UnionOf(SetsOf(kept[..i]))
    {
      assert SetsOf(kept[..i + 1]) == SetsOf(kept[..i]) + [SetOf(kept[i])];
      UnionOfSnoc(SetsOf(kept[..i]), SetOf(kept[i]));
      rest := rest - set x | x in kept[i];
    }
    assert kept[..|kept|] == kept;
  }

  ghost predicate NoRepeats(ls: seq<seq<nat>>) {
    forall i :: 0 <= i < |ls| ==> |ls[i]| == |SetOf(ls[i])|
  }

  /** Append what is left unless it is empty or a subset of something kept. */
  method KeepRest(kept: seq<seq<nat>>, rest: set<nat>) returns (kept': seq<seq<nat>>)
    requires rest !! UnionOf(SetsOf(kept)) && NoRepeats(kept)
    ensures SetsOf(kept') == if rest == {} then SetsOf(kept) else SetsOf(kept) + [rest]
    ensures NoRepeats(kept')
  {
    kept' := kept;
    if rest != {} {
      RestIsNeverSubsumed(SetsOf(kept), rest);
      var subsumed := exists i :: 0 <= i < |kept| && rest <= set x | x in kept[i];
      assert forall i :: 0 <= i < |kept| ==> SetsOf(kept)[i] == set x | x in kept[i];
      if !subsumed {
        var sorted := SortInts(rest);
        assert SetsOf(kept + [sorted]) == SetsOf(kept) + [rest];
        kept' := kept + [sorted];
      }
    }
  }

  /** Every list, longest first, then the full word range, each less what was kept before it. */
  method SubtractLargestFirst(phraseRanges: seq<seq<nat>>, n: nat) returns (kept: seq<seq<nat>>)
    ensures SetsOf(kept) == Greedy(SetsOf(Reverse(S.Sort(phraseRanges, LenOf)) + [Indices(n)]))
    ensures NoRepeats(kept)
  {
    var order: seq<seq<nat>> := Reverse(S.Sort(phraseRanges, LenOf)) + [Indices(n)];
    kept := [];
    for k := 0 to |order|
      invariant SetsOf(kept) == Greedy(SetsOf(order[..k])) && NoRepeats(kept)
    {
      var rngSet := SubtractKept(order[k], kept);
      GreedySnoc(order, k);
      kept := KeepRest(kept, rngSet);
    }
    assert order[..|order|] == order;
  }

  // --------------------------------------------------- what survives, declaratively

  ghost function IntervalSet(r: Interval): (s: set<nat>)
    ensures forall x: nat :: x in s <==> r.lo <= x < r.hi
  {
    var s := SetOf(Positions(r));
    forall x: nat | r.lo <= x < r.hi ensures x in s {
      assert Positions(r)[x - r.lo] == x;
    }
    s
  }

  ghost function IntervalSets(rs: seq<Interval>): seq<set<nat>> {
    seq(|rs|, i requires 0 <= i < |rs| => IntervalSet(rs[i]))
  }

  ghost predicate Laminar(rs: seq<Interval>) {
    && (forall a :: a in rs ==> a.lo < a.hi)
    && forall a, b :: a in rs && b in rs ==> Inside(a, b) || Inside(b, a) || Apart(a, b)
  }

  /** No other range contains `r`. */
  ghost predicate IsMaximal(rs: seq<Interval>, r: Interval) {
    r in rs && forall q :: q in rs && Inside(r, q) ==> q == r
  }

  ghost function Words(n: nat): (s: set<nat>)
    ensures forall x: nat :: x in s <==> x < n
  {
    var s := SetOf(Indices(n));
    forall x: nat | x < n ensures x in s {
      assert Indices(n)[x] == x;
    }
    s
  }

  ghost function Leftover(rs: seq<Interval>, n: nat): set<nat> {
    Words(n) - UnionOf(IntervalSets(rs))
  }

  ghost predicate LongestFirst(rs: seq<Interval>) {
    forall i, j :: 0 <= i < j < |rs| ==> rs[j].hi - rs[j].lo <= rs[i].hi - rs[i].lo
  }

  ghost predicate IsMaximalSet(rs: seq<Interval>, s: set<nat>) {
    exists r :: IsMaximal(rs, r) && s == IntervalSet(r)
  }

  lemma IntervalGreedySnoc(init: seq<Interval>, r: Interval)
    ensures Greedy(IntervalSets(init + [r]))
         == Greedy(IntervalSets(init))
            + var rest := IntervalSet(r) - UnionOf(IntervalSets(init)); if rest == {} then [] else [rest]
  {
    assert IntervalSets(init + [r])[..|init|] == IntervalSets(init);
    GreedyPartitions(IntervalSets(init));
  }

  /** The last range is subtracted away if covered, and else left whole. */
  lemma {:induction false} LastRange(init: seq<Interval>, r: Interval)
    requires Laminar(init + [r]) && LongestFirst(init + [r])
    ensures var rest := IntervalSet(r) - UnionOf(IntervalSets(init));
            if forall q :: q in init ==> !Inside(r, q) then rest == IntervalSet(r) != {} else rest == {}
  {
    if q :| q in init && Inside(r, q) {
      CoveredRange(init, r, q);
    } else {
      LastIsApart(init, r);
      UncoveredRange(init, r);
      assert r in init + [r];
      assert r.lo in IntervalSet(r);
    }
  }

  /** Longest first, a laminar family keeps exactly its maximal members, each of them whole. */
  lemma {:induction false} GreedyKeepsMaximal(rs: seq<Interval>)
    requires Laminar(rs) && LongestFirst(rs)
    ensures forall s :: s in Greedy(IntervalSets(rs)) <==> IsMaximalSet(rs, s)
  {
    if rs != [] {
      var init, r := rs[..|rs| - 1], rs[|rs| - 1];
      assert rs == init + [r];
      GreedyKeepsMaximal(init);
      IntervalGreedySnoc(init, r);
      MaximalSnoc(init, r);
      LastRange(init, r);
    }
  }

  /** A new smallest range contains nothing else: it is maximal unless covered, and changes no other range's status. */
  lemma MaximalSnoc(init: seq<Interval>, r: Interval)
    requires Laminar(init + [r]) && LongestFirst(init + [r])
    ensures forall s :: IsMaximalSet(init + [r], s)
                   <==> IsMaximalSet(init, s) || (s == IntervalSet(r) && forall q :: q in init ==> !Inside(r, q))
  {
    var rs := init + [r];
    forall q | q in init ensures r.hi - r.lo <= q.hi - q.lo {
      var i :| 0 <= i < |init| && init[i] == q;
      assert rs[i] == q && rs[|init|] == r;
    }
    assert forall q :: q in rs <==> q in init || q == r;
    assert forall q :: q in init ==> (IsMaximal(rs, q) <==> IsMaximal(init, q));
    assert (forall q :: q in init ==> !Inside(r, q)) ==> IsMaximal(rs, r);
    assert IsMaximal(rs, r) && r !in init ==> forall q :: q in init ==> !Inside(r, q);
    forall s ensures IsMaximalSet(rs, s)
                <==> IsMaximalSet(init, s) || (s == IntervalSet(r) && forall q :: q in init ==> !Inside(r, q))
    {
      if m :| IsMaximal(rs, m) && s == IntervalSet(m) {
        assert m in init ==> IsMaximal(init, m);
      }
      if m :| IsMaximal(init, m) && s == IntervalSet(m) {
        assert IsMaximal(rs, m);
      }
    }
  }

  lemma LastIsApart(init: seq<Interval>, r: Interval)
    requires Laminar(init + [r]) && LongestFirst(init + [r])
    requires forall q :: q in init ==> !Inside(r, q)
    ensures forall q :: q in init ==> Apart(r, q)
  {
    var rs := init + [r];
    forall q | q in init ensures Apart(r, q) {
      var i :| 0 <= i < |init| && init[i] == q;
      assert rs[i] == q && rs[|init|] == r;
    }
  }

  lemma CoveredRange(rs: seq<Interval>, r: Interval, q: Interval)
    requires q in rs && Inside(r, q)
    ensures IntervalSet(r) - UnionOf(IntervalSets(rs)) == {}
  {
    var i :| 0 <= i < |rs| && rs[i] == q;
    forall x | x in IntervalSet(r) ensures x in UnionOf(IntervalSets(rs)) {
      assert x in IntervalSets(rs)[i];
    }
  }

  lemma UncoveredRange(rs: seq<Interval>, r: Interval)
    requires forall q :: q in rs ==> Apart(r, q)
    ensures IntervalSet(r) - UnionOf(IntervalSets(rs)) == IntervalSet(r)
  {
    forall x | x in UnionOf(IntervalSets(rs)) ensures x !in IntervalSet(r) {
      var i :| 0 <= i < |rs| && x in IntervalSets(rs)[i];
      assert Apart(r, rs[i]);
    }
  }

  // ------------------------------------------------------------- the whole stage

  /** The sets surviving the subtraction of the walk's ranges, before short ones are dropped. */
  ghost function KeptSets(rs: seq<Interval>, n: nat): seq<set<nat>> {
    Greedy(SetsOf(Reverse(S.Sort(PositionLists(rs), LenOf)) + [Indices(n)]))
  }

  lemma {:induction false} InsertPositions(r: Interval, rs: seq<Interval>)
    ensures S.Insert(Positions(r), PositionLists(rs), LenOf) == PositionLists(S.Insert(r, rs, SizeOf))
  {
    if rs != [] && SizeOf(r) > SizeOf(rs[0]) {
      assert PositionLists(rs)[1..] == PositionLists(rs[1..]);
      InsertPositions(r, rs[1..]);
      PositionListsAppend([rs[0]], S.Insert(r, rs[1..], SizeOf));
    } else {
      PositionListsAppend([r], rs);
    }
  }

  /** Sorting the emitted lists by length is sorting the intervals by width. */
  lemma {:induction false} SortPositions(rs: seq<Interval>)
    ensures S.Sort(PositionLists(rs), LenOf) == PositionLists(S.Sort(rs, SizeOf))
  {
    if rs != [] {
      assert PositionLists(rs)[1..] == PositionLists(rs[1..]);
      SortPositions(rs[1..]);
      InsertPositions(rs[0], S.Sort(rs[1..], SizeOf));
    }
  }

  lemma {:induction false} SameMembersSameMaximal(a: seq<Interval>, b: seq<Interval>)
    requires forall r :: r in a <==> r in b
    ensures forall s :: IsMaximalSet(a, s) <==> IsMaximalSet(b, s)
    ensures UnionOf(IntervalSets(a)) == UnionOf(IntervalSets(b))
  {
    assert forall r :: IsMaximal(a, r) <==> IsMaximal(b, r);
    forall s ensures IsMaximalSet(a, s) <==> IsMaximalSet(b, s) {
      if r :| IsMaximal(a, r) && s == IntervalSet(r) {
        assert IsMaximal(b, r);
      }
      if r :| IsMaximal(b, r) && s == IntervalSet(r) {
        assert IsMaximal(a, r);
      }
    }
    UnionWithin(a, b);
    UnionWithin(b, a);
  }

  lemma {:induction false} UnionWithin(a: seq<Interval>, b: seq<Interval>)
    requires forall r :: r in a ==> r in b
    ensures UnionOf(IntervalSets(a)) <= UnionOf(IntervalSets(b))
  {
    forall x | x in UnionOf(IntervalSets(a)) ensures x in UnionOf(IntervalSets(b)) {
      var i :| 0 <= i < |a| && x in IntervalSets(a)[i];
      assert a[i] in b;
      var j :| 0 <= j < |b| && b[j] == a[i];
      assert x in IntervalSets(b)[j];
    }
  }

  lemma {:induction false} ReverseMembers<T>(t: seq<T>, x: T)
    ensures x in Reverse(t) <==> x in t
  {
    if x in t {
      var i :| 0 <= i < |t| && t[i] == x;
      assert Reverse(t)[|t| - 1 - i] == x;
    }
  }

  lemma {:induction false} ReversedIsLongestFirst(t: seq<Interval>)
    requires S.SortedBy(t, SizeOf) && forall r :: r in t ==> r.lo < r.hi
    ensures LongestFirst(Reverse(t))
  {
    forall i, j | 0 <= i < j < |t| ensures Reverse(t)[j].hi - Reverse(t)[j].lo <= Reverse(t)[i].hi - Reverse(t)[i].lo {
      var a, b := t[|t| - 1 - j], t[|t| - 1 - i];
      assert a in t && b in t;
      assert SizeOf(a) <= SizeOf(b);
    }
  }

  /** Sorted by width and reversed: the same ranges, longest first. */
  lemma {:induction false} LongestFirstOrder(rs: seq<Interval>)
    requires Laminar(rs)
    ensures forall r :: r in Reverse(S.Sort(rs, SizeOf)) <==> r in rs
    ensures LongestFirst(Reverse(S.Sort(rs, SizeOf))) && Laminar(Reverse(S.Sort(rs, SizeOf)))
  {
    var t := S.Sort(rs, SizeOf);
    S.SortIsStable(rs, SizeOf);
    S.SortMembers(rs, SizeOf);
    forall r ensures r in Reverse(t) <==> r in rs {
      ReverseMembers(t, r);
    }
    ReversedIsLongestFirst(t);
  }

  lemma SetsOfPositions(o: seq<Interval>, n: nat)
    ensures SetsOf(PositionLists(o) + [Indices(n)]) == IntervalSets(o) + [Words(n)]
  {
  }

  lemma ReversePositions(t: seq<Interval>)
    ensures Reverse(PositionLists(t)) == PositionLists(Reverse(t))
  {
  }

  lemma {:induction false} KeptSetsOrder(rs: seq<Interval>, n: nat)
    ensures KeptSets(rs, n) == Greedy(IntervalSets(Reverse(S.Sort(rs, SizeOf))) + [Words(n)])
  {
    SortPositions(rs);
    ReversePositions(S.Sort(rs, SizeOf));
    SetsOfPositions(Reverse(S.Sort(rs, SizeOf)), n);
  }

  lemma {:induction false} GreedyWithWords(o: seq<Interval>, n: nat)
    ensures Greedy(IntervalSets(o) + [Words(n)])
         == Greedy(IntervalSets(o)) + (if Leftover(o, n) == {} then [] else [Leftover(o, n)])
  {
    assert (IntervalSets(o) + [Words(n)])[..|o|] == IntervalSets(o);
    GreedyPartitions(IntervalSets(o));
  }

  /**
   The survivors are exactly the maximal ranges and the uncovered words, they
   are pairwise disjoint, and together they cover the ranges and all the words.
   */
  lemma {:induction false} KeptSetsAreMaximalPlusLeftover(rs: seq<Interval>, n: nat)
    requires Laminar(rs)
    ensures forall s :: s in KeptSets(rs, n) <==> IsMaximalSet(rs, s) || (s != {} && s == Leftover(rs, n))
    ensures PairwiseDisjoint(KeptSets(rs, n))
    ensures UnionOf(KeptSets(rs, n)) == UnionOf(IntervalSets(rs)) + Words(n)
  {
    var o := Reverse(S.Sort(rs, SizeOf));
    LongestFirstOrder(rs);
    SameMembersSameMaximal(o, rs);
    KeptSetsOrder(rs, n);
    UnionOfSnoc(IntervalSets(o), Words(n));
    GreedyPartitions(IntervalSets(o) + [Words(n)]);
    GreedyWithWords(o, n);
    GreedyKeepsMaximal(o);
  }

  // ---------------------------------------------------- the block a word belongs to

  /** The maximal range around word `i`, or else all the words no range covers. */
  ghost function Block(rs: seq<Interval>, n: nat, i: nat): set<nat> {
    if exists r :: IsMaximal(rs, r) && r.lo <= i < r.hi
    then var r :| IsMaximal(rs, r) && r.lo <= i < r.hi; IntervalSet(r)
    else Leftover(rs, n)
  }

  lemma {:induction false} OneSetPerElement(ss: seq<set<nat>>, a: set<nat>, b: set<nat>, x: nat)
    requires PairwiseDisjoint(ss) && a in ss && b in ss && x in a && x in b
    ensures a == b
  {
    var i :| 0 <= i < |ss| && ss[i] == a;
    var j :| 0 <= j < |ss| && ss[j] == b;
    assert i == j;
  }

  lemma {:induction false} BlockIsKept(rs: seq<Interval>, n: nat, i: nat)
    requires Laminar(rs) && i < n
    ensures Block(rs, n, i) in KeptSets(rs, n) && i in Block(rs, n, i)
  {
    KeptSetsAreMaximalPlusLeftover(rs, n);
    if r :| IsMaximal(rs, r) && r.lo <= i < r.hi {
      assert IsMaximalSet(rs, Block(rs, n, i));
    } else {
      assert i in UnionOf(KeptSets(rs, n));
      var k :| 0 <= k < |KeptSets(rs, n)| && i in KeptSets(rs, n)[k];
      assert !IsMaximalSet(rs, KeptSets(rs, n)[k]);
    }
  }

  /** Word `i` is in exactly one surviving set, its block. */
  lemma {:induction false} BlockOfWord(rs: seq<Interval>, n: nat, i: nat)
    requires Laminar(rs) && i < n
    ensures Block(rs, n, i) in KeptSets(rs, n)
    ensures forall s :: s in KeptSets(rs, n) ==> (i in s <==> s == Block(rs, n, i))
  {
    BlockIsKept(rs, n, i);
    KeptSetsAreMaximalPlusLeftover(rs, n);
    forall s | s in KeptSets(rs, n) && i in s ensures s == Block(rs, n, i) {
      OneSetPerElement(KeptSets(rs, n), s, Block(rs, n, i), i);
    }
  }
}
