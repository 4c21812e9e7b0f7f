/**
 The constituency-tree walk of utterance segmentation: which leaf ranges it
 emits, and why they form a strictly laminar family.
 */
module UtsegTree {
  import opened Common

  /** A constituency node; a leaf is a node without children. */
  datatype Tree = Tree(tag: Option<string>, children: seq<Tree>) {
    predicate IsLeaf() { children == [] }
  }

  /** The leaf positions `lo .. hi - 1`. */
  datatype Interval = Interval(lo: nat, hi: nat)

  // ------------------------------------------------------------- leaf counts

  /** Leaves contributed by a list of siblings (a leaf contributes itself). */
  function LeavesOf(cs: seq<Tree>): nat {
    if cs == [] then 0
    else (if cs[0].IsLeaf() then 1 else LeavesOf(cs[0].children)) + LeavesOf(cs[1..])
  }

  /** Width of one child in leaf positions. */
  function Width(c: Tree): (w: nat)
    ensures w >= 1
  {
    if c.IsLeaf() then 1 else (WidthPositive(c.children); LeavesOf(c.children))
  }

  lemma {:induction false} WidthPositive(cs: seq<Tree>)
    ensures cs != [] ==> LeavesOf(cs) >= 1
  {
    if cs != [] && !cs[0].IsLeaf() {
      WidthPositive(cs[0].children);
    }
  }

  lemma {:induction false} LeavesOfAppend(a: seq<Tree>, b: seq<Tree>)
    ensures LeavesOf(a + b) == LeavesOf(a) + LeavesOf(b)
  {
    if a == [] {
      assert a + b == b;
    } else {
      assert (a + b)[1..] == a[1..] + b;
      LeavesOfAppend(a[1..], b);
    }
  }

  lemma LeavesOfSnoc(cs: seq<Tree>, i: nat)
    requires i < |cs|
    ensures LeavesOf(cs[..i + 1]) == LeavesOf(cs[..i]) + Width(cs[i])
  {
    assert cs[..i + 1] == cs[..i] + [cs[i]];
    LeavesOfAppend(cs[..i], [cs[i]]);
  }

  method LeafCount(tree: Option<Tree>) returns (count: nat)
    ensures tree.None? ==> count == 0
    ensures tree.Some? ==> count == LeavesOf(tree.value.children)
    decreases if tree.Some? then tree.value.children else []
  {
    if tree.None? {
      return 0;
    }
    var children := tree.value.children;
    count := 0;
    for i := 0 to |children|
      invariant count == LeavesOf(children[..i])
    {
      LeavesOfSnoc(children, i);
      if children[i].IsLeaf() {
        count := count + 1;
      } else {
        var n := LeafCount(Some(children[i]));
        count := count + n;
      }
    }
    assert children[..|children|] == children;
  }

  // -------------------------------------------------------------- coordination

  function LowerAscii(s: string): string {
    seq(|s|, i requires 0 <= i < |s| =>
      if 'A' <= s[i] <= 'Z' then (s[i] as int + 32) as char else s[i])
  }

  function LoweredLabel(c: Tree): string {
    if c.tag.Some? then LowerAscii(c.tag.value) else ""
  }

  predicate IsCoordinator(c: Tree) {
    LoweredLabel(c) == "cc" || LoweredLabel(c) == "conj"
  }

  predicate IsClause(c: Tree) {
    !c.IsLeaf() && c.tag == Some("S")
  }

  predicate HasCoordination(cs: seq<Tree>) {
    exists i :: 0 <= i < |cs| && IsCoordinator(cs[i])
  }

  // ----------------------------------------------- what the walk should emit

  /** The subtree reached by following child positions from the root. */
  ghost predicate ValidPath(t: Tree, path: seq<nat>) {
    path != [] ==> path[0] < |t.children| && ValidPath(t.children[path[0]], path[1..])
  }

  ghost function NodeAt(t: Tree, path: seq<nat>): Tree
    requires ValidPath(t, path)
  {
    if path == [] then t else NodeAt(t.children[path[0]], path[1..])
  }

  /** Leaf position at which the node at `path` starts, the root starting at `offset`. */
  ghost function StartOf(t: Tree, path: seq<nat>, offset: nat): nat
    requires ValidPath(t, path)
  {
    if path == [] then offset
    else StartOf(t.children[path[0]], path[1..], offset + LeavesOf(t.children[..path[0]]))
  }

  /** `r` covers an S node that has a coordinator among its siblings. */
  ghost predicate IsPhrase(t: Tree, offset: nat, path: seq<nat>, i: nat, r: Interval) {
    && ValidPath(t, path)
    && var p := NodeAt(t, path);
    && i < |p.children|
    && HasCoordination(p.children)
    && IsClause(p.children[i])
    && r.lo == StartOf(t, path, offset) + LeavesOf(p.children[..i])
    && r.hi == r.lo + LeavesOf(p.children[i].children)
  }

  // ------------------------------------------------------- the walk as a function

  /** Ranges emitted for the siblings `cs`, the first of which starts at `offset`. */
  function PhrasesOf(cs: seq<Tree>, coordinated: bool, offset: nat): seq<Interval>
    decreases cs, 0
  {
    if cs == [] then []
    else
      PhrasesOfChild(cs[0], coordinated, offset)
      + PhrasesOf(cs[1..], coordinated, offset + Width(cs[0]))
  }

  function PhrasesOfChild(c: Tree, coordinated: bool, offset: nat): seq<Interval>
    decreases c, 1
  {
    if c.IsLeaf() then []
    else
      (if coordinated && c.tag == Some("S") then [Interval(offset, offset + LeavesOf(c.children))] else [])
      + Phrases(c, offset)
  }

  function Phrases(t: Tree, offset: nat): seq<Interval>
    decreases t, 0
  {
    PhrasesOf(t.children, HasCoordination(t.children), offset)
  }

  lemma {:induction false} PhrasesOfAppend(a: seq<Tree>, b: seq<Tree>, coordinated: bool, offset: nat)
    ensures PhrasesOf(a + b, coordinated, offset)
         == PhrasesOf(a, coordinated, offset) + PhrasesOf(b, coordinated, offset + LeavesOf(a))
  {
    if a == [] {
      assert a + b == b;
    } else {
      assert (a + b)[1..] == a[1..] + b;
      PhrasesOfAppend(a[1..], b, coordinated, offset + Width(a[0]));
    }
  }

  lemma PhrasesOfSnoc(cs: seq<Tree>, coordinated: bool, offset: nat, i: nat)
    requires i < |cs|
    ensures PhrasesOf(cs[..i + 1], coordinated, offset)
         == PhrasesOf(cs[..i], coordinated, offset)
            + PhrasesOfChild(cs[i], coordinated, offset + LeavesOf(cs[..i]))
  {
    assert cs[..i + 1] == cs[..i] + [cs[i]];
    PhrasesOfAppend(cs[..i], [cs[i]], coordinated, offset);
  }

  /** The list of positions of an interval, as `list(range(lo, hi))`. */
  function Positions(r: Interval): seq<nat> {
    if r.lo <= r.hi then seq(r.hi - r.lo, k => r.lo + k) else []
  }

  function PositionLists(rs: seq<Interval>): seq<seq<nat>> {
    seq(|rs|, i requires 0 <= i < |rs| => Positions(rs[i]))
  }

  lemma PositionListsAppend(a: seq<Interval>, b: seq<Interval>)
    ensures PositionLists(a + b) == PositionLists(a) + PositionLists(b)
  {
  }

  lemma WalkStep(cs: seq<Tree>, coordinated: bool, offset: nat, i: nat)
    requires i < |cs|
    ensures PositionLists(PhrasesOf(cs[..i + 1], coordinated, offset))
         == PositionLists(PhrasesOf(cs[..i], coordinated, offset))
            + PositionLists(PhrasesOfChild(cs[i], coordinated, offset + LeavesOf(cs[..i])))
  {
    PhrasesOfSnoc(cs, coordinated, offset, i);
    PositionListsAppend(PhrasesOf(cs[..i], coordinated, offset),
                        PhrasesOfChild(cs[i], coordinated, offset + LeavesOf(cs[..i])));
  }

  lemma ChildLists(c: Tree, coordinated: bool, offset: nat)
    requires !c.IsLeaf()
    ensures PositionLists(PhrasesOfChild(c, coordinated, offset))
         == (if coordinated && c.tag == Some("S") then [seq(LeavesOf(c.children), k => offset + k)] else [])
            + PositionLists(Phrases(c, offset))
  {
    var r := Interval(offset, offset + LeavesOf(c.children));
    assert Positions(r) == seq(LeavesOf(c.children), k => offset + k);
    PositionListsAppend(if coordinated && c.tag == Some("S") then [r] else [], Phrases(c, offset));
  }

  /** The walk itself; a missing parse has no children attribute and yields nothing. */
  method ParseTreeIndices(subtree: Option<Tree>, offset: nat) returns (result: seq<seq<nat>>)
    ensures subtree.None? ==> result == []
    ensures subtree.Some? ==> result == PositionLists(Phrases(subtree.value, offset))
    decreases if subtree.Some? then subtree.value.children else []
  {
    result := [];
    if subtree.None? {
      return;
    }
    var children := subtree.value.children;
    var coordinated := HasCoordination(children);
    var childOffset := offset;
    for i := 0 to |children|
      invariant childOffset == offset + LeavesOf(children[..i])
      invariant result == PositionLists(PhrasesOf(children[..i], coordinated, offset))
    {
      var child := children[i];
      LeavesOfSnoc(children, i);
      WalkStep(children, coordinated, offset, i);
      if child.IsLeaf() {
        childOffset := childOffset + 1;
      } else {
        ChildLists(child, coordinated, childOffset);
        var nLeaves := LeafCount(Some(child));
        var childStart := childOffset;
        var own: seq<seq<nat>> := [];
        if coordinated && child.tag == Some("S") {
          own := [seq(nLeaves, k => childStart + k)];
        }
        var inner := ParseTreeIndices(Some(child), childStart);
        result := result + (own + inner);
        childOffset := childStart + nLeaves;
      }
    }
    assert children[..|children|] == children;
  }

  // ----------------------------------------------------- soundness and completeness

  ghost predicate FromChild(cs: seq<Tree>, coordinated: bool, offset: nat, i: int, r: Interval) {
    0 <= i < |cs| && r in PhrasesOfChild(cs[i], coordinated, offset + LeavesOf(cs[..i]))
  }

  /** What a child emits its siblings' walk emits. */
  lemma {:induction false} ChildIsEmitted(cs: seq<Tree>, coordinated: bool, offset: nat, n: nat, i: nat, r: Interval)
    requires i < n <= |cs| && FromChild(cs, coordinated, offset, i, r)
    ensures r in PhrasesOf(cs[..n], coordinated, offset)
    decreases n
  {
    PhrasesOfSnoc(cs, coordinated, offset, n - 1);
    if i < n - 1 {
      ChildIsEmitted(cs, coordinated, offset, n - 1, i, r);
    }
  }

  /** Everything the siblings' walk emits some child emits. */
  lemma {:induction false} EmittedByChild(cs: seq<Tree>, coordinated: bool, offset: nat, n: nat, r: Interval)
    returns (i: nat)
    requires n <= |cs| && r in PhrasesOf(cs[..n], coordinated, offset)
    ensures i < n && FromChild(cs, coordinated, offset, i, r)
    decreases n
  {
    PhrasesOfSnoc(cs, coordinated, offset, n - 1);
    if r in PhrasesOf(cs[..n - 1], coordinated, offset) {
      i := EmittedByChild(cs, coordinated, offset, n - 1, r);
    } else {
      i := n - 1;
    }
  }

  lemma PhraseBelow(t: Tree, offset: nat, k: nat, below: seq<nat>, i: nat, r: Interval)
    requires k < |t.children|
    requires IsPhrase(t.children[k], offset + LeavesOf(t.children[..k]), below, i, r)
    ensures IsPhrase(t, offset, [k] + below, i, r)
  {
    assert ([k] + below)[1..] == below;
  }

  /** Every emitted range is a coordinated S node of the tree. */
  lemma {:induction false} PhrasesSound(t: Tree, offset: nat, r: Interval) returns (path: seq<nat>, i: nat)
    requires r in Phrases(t, offset)
    ensures IsPhrase(t, offset, path, i, r)
    decreases t
  {
    var cs := t.children;
    assert cs[..|cs|] == cs;
    var k := EmittedByChild(cs, HasCoordination(cs), offset, |cs|, r);
    var start := offset + LeavesOf(cs[..k]);
    if r in Phrases(cs[k], start) {
      var below, j := PhrasesSound(cs[k], start, r);
      PhraseBelow(t, offset, k, below, j, r);
      path, i := [k] + below, j;
    } else {
      path, i := [], k;
    }
  }

  /** Every coordinated S node of the tree is emitted. */
  lemma {:induction false} PhrasesComplete(t: Tree, offset: nat, path: seq<nat>, i: nat, r: Interval)
    requires IsPhrase(t, offset, path, i, r)
    ensures r in Phrases(t, offset)
    decreases path
  {
    var cs := t.children;
    assert cs[..|cs|] == cs;
    if path == [] {
      ChildIsEmitted(cs, HasCoordination(cs), offset, |cs|, i, r);
    } else {
      var k, start := path[0], offset + LeavesOf(cs[..path[0]]);
      PhrasesComplete(cs[k], start, path[1..], i, r);
      ChildIsEmitted(cs, HasCoordination(cs), offset, |cs|, k, r);
    }
  }

  /** The walk emits exactly the coordinated S nodes. */
  lemma WalkEmitsExactlyThePhrases(t: Tree, offset: nat, r: Interval)
    ensures r in Phrases(t, offset) <==> exists path, i :: IsPhrase(t, offset, path, i, r)
  {
    if r in Phrases(t, offset) {
      var path, i := PhrasesSound(t, offset, r);
    }
    if path, i :| IsPhrase(t, offset, path, i, r) {
      PhrasesComplete(t, offset, path, i, r);
    }
  }

  // ------------------------------------------------------------------ laminarity

  ghost predicate Inside(a: Interval, b: Interval) {
    b.lo <= a.lo && a.hi <= b.hi
  }

  ghost predicate StrictlyInside(a: Interval, b: Interval) {
    Inside(a, b) && a.hi - a.lo < b.hi - b.lo
  }

  ghost predicate Apart(a: Interval, b: Interval) {
    a.hi <= b.lo || b.hi <= a.lo
  }

  /** Nonempty intervals, any two of them properly nested or disjoint. */
  ghost predicate StrictlyLaminar(rs: seq<Interval>) {
    && (forall i :: 0 <= i < |rs| ==> rs[i].lo < rs[i].hi)
    && forall i, j :: 0 <= i < |rs| && 0 <= j < |rs| && i != j ==>
         StrictlyInside(rs[i], rs[j]) || StrictlyInside(rs[j], rs[i]) || Apart(rs[i], rs[j])
  }

  lemma {:induction false} LeavesOfSplit(cs: seq<Tree>, i: nat)
    requires i < |cs|
    ensures LeavesOf(cs) == LeavesOf(cs[..i]) + Width(cs[i]) + LeavesOf(cs[i + 1..])
  {
    LeavesOfSnoc(cs, i);
    assert cs == cs[..i + 1] + cs[i + 1..];
    LeavesOfAppend(cs[..i + 1], cs[i + 1..]);
  }

  lemma {:induction false} LeavesOfTwo(cs: seq<Tree>, i: nat, j: nat)
    requires i < j < |cs|
    ensures Width(cs[i]) + Width(cs[j]) <= LeavesOf(cs)
  {
    var rest := cs[i + 1..];
    LeavesOfSplit(cs, i);
    LeavesOfSplit(rest, j - i - 1);
    assert rest[j - i - 1] == cs[j];
  }

  /** A coordinator sibling occupies at least one leaf, so a coordinated clause is narrower than its parent. */
  lemma {:induction false} CoordinatedClauseIsNarrower(cs: seq<Tree>, i: nat)
    requires i < |cs| && IsClause(cs[i]) && HasCoordination(cs)
    ensures Width(cs[i]) < LeavesOf(cs)
  {
    var k :| 0 <= k < |cs| && IsCoordinator(cs[k]);
    assert LoweredLabel(cs[i]) == "s";
    LeavesOfTwo(cs, if i < k then i else k, if i < k then k else i);
  }

  lemma {:induction false} PhrasesWithin(t: Tree, offset: nat, path: seq<nat>, i: nat, r: Interval)
    requires IsPhrase(t, offset, path, i, r)
    ensures StrictlyInside(r, Interval(offset, offset + LeavesOf(t.children))) && r.lo < r.hi
    decreases path
  {
    if path == [] {
      CoordinatedClauseIsNarrower(t.children, i);
      LeavesOfSplit(t.children, i);
      WidthPositive(t.children[i].children);
    } else {
      var c := t.children[path[0]];
      PhrasesWithin(c, offset + LeavesOf(t.children[..path[0]]), path[1..], i, r);
      LeavesOfSplit(t.children, path[0]);
    }
  }

  /** Every emitted range is nonempty, lies in the leaf interval of the tree and is narrower than it. */
  lemma {:induction false} PhraseBounds(t: Tree, offset: nat, r: Interval)
    requires r in Phrases(t, offset)
    ensures StrictlyInside(r, Interval(offset, offset + LeavesOf(t.children))) && r.lo < r.hi
  {
    var path, i := PhrasesSound(t, offset, r);
    PhrasesWithin(t, offset, path, i, r);
  }

  lemma {:induction false} PhrasesOfBounds(cs: seq<Tree>, coordinated: bool, offset: nat, r: Interval)
    requires r in PhrasesOf(cs, coordinated, offset)
    ensures Inside(r, Interval(offset, offset + LeavesOf(cs))) && r.lo < r.hi
  {
    assert cs[..|cs|] == cs;
    var i := EmittedByChild(cs, coordinated, offset, |cs|, r);
    LeavesOfSplit(cs, i);
    WidthPositive(cs[i].children);
    if r in Phrases(cs[i], offset + LeavesOf(cs[..i])) {
      PhraseBounds(cs[i], offset + LeavesOf(cs[..i]), r);
    }
  }

  lemma LaminarConcat(a: seq<Interval>, b: seq<Interval>)
    requires StrictlyLaminar(a) && StrictlyLaminar(b)
    requires forall x, y :: x in a && y in b ==> StrictlyInside(y, x) || Apart(x, y)
    ensures StrictlyLaminar(a + b)
  {
    var rs := a + b;
    forall i, j | 0 <= i < |rs| && 0 <= j < |rs| && i != j
      ensures StrictlyInside(rs[i], rs[j]) || StrictlyInside(rs[j], rs[i]) || Apart(rs[i], rs[j])
    {
      if i < |a| && j >= |a| {
        assert rs[i] in a && rs[j] in b;
      } else if i >= |a| && j < |a| {
        assert rs[j] in a && rs[i] in b;
      }
    }
  }

  lemma {:induction false} ChildLaminar(c: Tree, coordinated: bool, offset: nat)
    requires StrictlyLaminar(Phrases(c, offset))
    ensures StrictlyLaminar(PhrasesOfChild(c, coordinated, offset))
    ensures forall x :: x in PhrasesOfChild(c, coordinated, offset) ==> x.hi <= offset + Width(c)
  {
    WidthPositive(c.children);
    forall y | y in Phrases(c, offset)
      ensures StrictlyInside(y, Interval(offset, offset + LeavesOf(c.children)))
    {
      PhraseBounds(c, offset, y);
    }
    var own := if coordinated && IsClause(c) then [Interval(offset, offset + LeavesOf(c.children))] else [];
    LaminarConcat(own, Phrases(c, offset));
    assert c.IsLeaf() ==> Phrases(c, offset) == [];
    assert own + Phrases(c, offset) == PhrasesOfChild(c, coordinated, offset);
  }

  lemma {:induction false} PhrasesOfLaminar(cs: seq<Tree>, coordinated: bool, offset: nat)
    ensures StrictlyLaminar(PhrasesOf(cs, coordinated, offset))
    decreases cs
  {
    if cs != [] {
      var c := cs[0];
      var rest := PhrasesOf(cs[1..], coordinated, offset + Width(c));
      PhrasesOfLaminar(cs[1..], coordinated, offset + Width(c));
      PhrasesOfLaminar(c.children, HasCoordination(c.children), offset);
      ChildLaminar(c, coordinated, offset);
      forall y | y in rest ensures offset + Width(c) <= y.lo {
        PhrasesOfBounds(cs[1..], coordinated, offset + Width(c), y);
      }
      LaminarConcat(PhrasesOfChild(c, coordinated, offset), rest);
    }
  }

  /** Any two emitted ranges are properly nested or disjoint; in particular no range is emitted twice. */
  lemma PhrasesLaminar(t: Tree, offset: nat)
    ensures StrictlyLaminar(Phrases(t, offset))
  {
    PhrasesOfLaminar(t.children, HasCoordination(t.children), offset);
  }
}
