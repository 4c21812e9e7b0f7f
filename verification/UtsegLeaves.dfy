/**
 The leaves of a constituency tree, read off its paths: what the walk's counts
 and offsets mean, and the emitted ranges as sets of leaves.
 */
module UtsegLeaves {
  import opened Common
  import opened UtsegTree

  // ------------------------------------------------------------- leaf paths in order

  /** The path leads to a node without children. */
  ghost predicate LeafAt(t: Tree, path: seq<nat>) {
    ValidPath(t, path) && NodeAt(t, path).children == []
  }

  /** The first path branches off to the left of the second. */
  ghost predicate LeftOf(p: seq<nat>, q: seq<nat>) {
    p != [] && q != [] && (p[0] < q[0] || (p[0] == q[0] && LeftOf(p[1..], q[1..])))
  }

  /** `paths` lists every leaf below the root once, from left to right. */
  ghost predicate ListsLeaves(t: Tree, paths: seq<seq<nat>>) {
    && (forall p :: p in paths <==> p != [] && LeafAt(t, p))
    && forall j, k :: 0 <= j < k < |paths| ==> LeftOf(paths[j], paths[k])
  }

  ghost function Prefixed(i: nat, paths: seq<seq<nat>>): seq<seq<nat>> {
    seq(|paths|, k requires 0 <= k < |paths| => [i] + paths[k])
  }

  /** Paths of the leaves under the first `n` of some siblings, or the siblings that are leaves. */
  ghost function PathsBelow(cs: seq<Tree>, n: nat): seq<seq<nat>>
    requires n <= |cs|
    decreases cs, n
  {
    if n == 0 then [] else PathsBelow(cs, n - 1) + Prefixed(n - 1, PathsIn(cs[n - 1]))
  }

  /** A leaf is its own only leaf. */
  ghost function PathsIn(t: Tree): seq<seq<nat>>
    decreases t, 0
  {
    if t.children == [] then [[]] else PathsBelow(t.children, |t.children|)
  }

  ghost function LeafPaths(t: Tree): seq<seq<nat>> {
    PathsBelow(t.children, |t.children|)
  }

  /** Child `j` holds leaf `k`, as its own leaf number `k` less the leaves before it. */
  ghost predicate HoldsLeaf(cs: seq<Tree>, j: nat, k: int) {
    j < |cs| && LeavesOf(cs[..j]) <= k < LeavesOf(cs[..j]) + Width(cs[j])
  }

  lemma {:induction false} CountsBelow(cs: seq<Tree>, n: nat)
    requires n <= |cs|
    ensures |PathsBelow(cs, n)| == LeavesOf(cs[..n])
    decreases cs, n
  {
    if n > 0 {
      CountsBelow(cs, n - 1);
      CountsIn(cs[n - 1]);
      LeavesOfSnoc(cs, n - 1);
    }
  }

  lemma {:induction false} CountsIn(t: Tree)
    ensures |PathsIn(t)| == Width(t)
    decreases t, 0
  {
    if t.children != [] {
      CountsBelow(t.children, |t.children|);
      assert t.children[..|t.children|] == t.children;
    }
  }

  /** Every listed path runs through the child that holds it. */
  lemma {:induction false} HolderOf(cs: seq<Tree>, n: nat, k: nat) returns (j: nat)
    requires n <= |cs| && k < |PathsBelow(cs, n)|
    ensures j < n && HoldsLeaf(cs, j, k)
    ensures k - LeavesOf(cs[..j]) < |PathsIn(cs[j])|
    ensures PathsBelow(cs, n)[k] == [j] + PathsIn(cs[j])[k - LeavesOf(cs[..j])]
    decreases n
  {
    CountsBelow(cs, n - 1);
    CountsIn(cs[n - 1]);
    if k < |PathsBelow(cs, n - 1)| {
      j := HolderOf(cs, n - 1, k);
    } else {
      j := n - 1;
    }
  }

  lemma {:induction false} LeavesBeforeGrow(cs: seq<Tree>, i: nat, j: nat)
    requires i < j <= |cs|
    ensures LeavesOf(cs[..i]) + Width(cs[i]) <= LeavesOf(cs[..j])
    decreases j
  {
    LeavesOfSnoc(cs, j - 1);
    if i < j - 1 {
      LeavesBeforeGrow(cs, i, j - 1);
    }
  }

  lemma {:induction false} OneHolder(cs: seq<Tree>, i: nat, j: nat, k: int)
    requires HoldsLeaf(cs, i, k) && HoldsLeaf(cs, j, k)
    ensures i == j
  {
    if i < j {
      LeavesBeforeGrow(cs, i, j);
    } else if j < i {
      LeavesBeforeGrow(cs, j, i);
    }
  }

  /** Each child's leaves are listed, behind its number, where its siblings' leaf counts put them. */
  lemma {:induction false} ChildLeaf(cs: seq<Tree>, j: nat, k: nat)
    requires HoldsLeaf(cs, j, k)
    ensures k < |PathsBelow(cs, |cs|)| && k - LeavesOf(cs[..j]) < |PathsIn(cs[j])|
    ensures PathsBelow(cs, |cs|)[k] == [j] + PathsIn(cs[j])[k - LeavesOf(cs[..j])]
  {
    CountsBelow(cs, |cs|);
    LeavesBeforeGrow(cs, j, |cs|);
    var i := HolderOf(cs, |cs|, k);
    OneHolder(cs, i, j, k);
  }

  // ----------------------------------------------------------- the list is the leaves

  lemma {:induction false} ListedIsLeaf(t: Tree, k: nat)
    requires k < |PathsIn(t)|
    ensures LeafAt(t, PathsIn(t)[k])
    decreases t
  {
    if t.children != [] {
      var j := HolderOf(t.children, |t.children|, k);
      var below := PathsIn(t.children[j])[k - LeavesOf(t.children[..j])];
      ListedIsLeaf(t.children[j], k - LeavesOf(t.children[..j]));
      assert ([j] + below)[1..] == below;
    }
  }

  lemma {:induction false} LeafIsListed(t: Tree, path: seq<nat>) returns (k: nat)
    requires LeafAt(t, path)
    ensures k < |PathsIn(t)| && PathsIn(t)[k] == path
    decreases path
  {
    if path == [] {
      k := 0;
    } else {
      var j := path[0];
      var below := LeafIsListed(t.children[j], path[1..]);
      k := LeavesOf(t.children[..j]) + below;
      CountsIn(t.children[j]);
      ChildLeaf(t.children, j, k);
      assert path == [j] + path[1..];
    }
  }

  lemma {:induction false} LeftOfBelow(i: nat, p: seq<nat>, q: seq<nat>)
    requires LeftOf(p, q)
    ensures LeftOf([i] + p, [i] + q)
  {
    assert ([i] + p)[1..] == p && ([i] + q)[1..] == q;
  }

  lemma {:induction false} ListedInOrder(t: Tree, j: nat, k: nat)
    requires j < k < |PathsIn(t)|
    ensures LeftOf(PathsIn(t)[j], PathsIn(t)[k])
    decreases t
  {
    var cs := t.children;
    var a := HolderOf(cs, |cs|, j);
    var b := HolderOf(cs, |cs|, k);
    if a == b {
      ListedInOrder(cs[a], j - LeavesOf(cs[..a]), k - LeavesOf(cs[..a]));
      LeftOfBelow(a, PathsIn(cs[a])[j - LeavesOf(cs[..a])], PathsIn(cs[a])[k - LeavesOf(cs[..a])]);
    } else if b < a {
      LeavesBeforeGrow(cs, b, a);
      assert false;
    }
  }

  /** The leaves below a node, listed from left to right, are as many as the count says. */
  lemma {:induction false} LeavesAreCounted(t: Tree)
    ensures ListsLeaves(t, LeafPaths(t)) && |LeafPaths(t)| == LeavesOf(t.children)
  {
    var cs, paths := t.children, LeafPaths(t);
    CountsBelow(cs, |cs|);
    assert cs[..|cs|] == cs;
    if cs != [] {
      forall p ensures p in paths <==> p != [] && LeafAt(t, p) {
        if p in paths {
          var k :| 0 <= k < |paths| && paths[k] == p;
          ListedIsLeaf(t, k);
        }
        if p != [] && LeafAt(t, p) {
          var k := LeafIsListed(t, p);
        }
      }
      forall j, k | 0 <= j < k < |paths| ensures LeftOf(paths[j], paths[k]) {
        ListedInOrder(t, j, k);
      }
    }
  }

  // ------------------------------------------------------- a node's range is its leaves

  /** The leaves under the node at `path` are those from its start on, as many as it is wide. */
  lemma {:induction false} RangeIsLeaves(t: Tree, path: seq<nat>, k: nat)
    requires ValidPath(t, path) && k < |PathsIn(t)|
    ensures path <= PathsIn(t)[k] <==> StartOf(t, path, 0) <= k < StartOf(t, path, 0) + Width(NodeAt(t, path))
    decreases path
  {
    if path == [] {
      CountsIn(t);
    } else {
      var cs, j := t.children, path[0];
      var before := LeavesOf(cs[..j]);
      StartMoves(cs[j], path[1..], before);
      NodeInside(cs[j], path[1..]);
      var i := HolderOf(cs, |cs|, k);
      var p := PathsIn(t)[k];
      if i == j {
        RangeIsLeaves(cs[j], path[1..], k - before);
        assert p[1..] == PathsIn(cs[j])[k - before] && path == [j] + path[1..];
        assert path <= p <==> path[1..] <= p[1..];
      } else if HoldsLeaf(cs, j, k) {
        OneHolder(cs, i, j, k);
      }
    }
  }

  lemma {:induction false} StartMoves(t: Tree, path: seq<nat>, offset: nat)
    requires ValidPath(t, path)
    ensures StartOf(t, path, offset) == offset + StartOf(t, path, 0)
    decreases path
  {
    if path != [] {
      var j := path[0];
      StartMoves(t.children[j], path[1..], offset + LeavesOf(t.children[..j]));
      StartMoves(t.children[j], path[1..], LeavesOf(t.children[..j]));
    }
  }

  /** A node lies within the leaves of every node above it. */
  lemma {:induction false} NodeInside(t: Tree, path: seq<nat>)
    requires ValidPath(t, path)
    ensures StartOf(t, path, 0) + Width(NodeAt(t, path)) <= Width(t)
    decreases path
  {
    if path != [] {
      var cs, j := t.children, path[0];
      NodeInside(cs[j], path[1..]);
      StartMoves(cs[j], path[1..], LeavesOf(cs[..j]));
      LeavesOfSplit(cs, j);
    }
  }

  lemma {:induction false} ChildPath(t: Tree, path: seq<nat>, i: nat)
    requires ValidPath(t, path) && i < |NodeAt(t, path).children|
    ensures ValidPath(t, path + [i]) && NodeAt(t, path + [i]) == NodeAt(t, path).children[i]
    ensures StartOf(t, path + [i], 0) == StartOf(t, path, 0) + LeavesOf(NodeAt(t, path).children[..i])
    decreases path
  {
    if path == [] {
      assert [i][1..] == [];
    } else {
      var c, before := t.children[path[0]], LeavesOf(t.children[..path[0]]);
      assert (path + [i])[1..] == path[1..] + [i];
      ChildPath(c, path[1..], i);
      StartMoves(c, path[1..] + [i], before);
      StartMoves(c, path[1..], before);
    }
  }

  // ------------------------------------------------------------------ what is emitted

  /** A label that is `cc` or `conj` in upper, lower or mixed case. */
  predicate NamesCoordinator(tag: string) {
    || (|tag| == 2 && tag[0] in "cC" && tag[1] in "cC")
    || (|tag| == 4 && tag[0] in "cC" && tag[1] in "oO" && tag[2] in "nN" && tag[3] in "jJ")
  }

  /** Exactly these labels make a coordinator, whatever their case; a missing label does not. */
  lemma CoordinatorLabels(c: Tree)
    ensures IsCoordinator(c) <==> c.tag.Some? && NamesCoordinator(c.tag.value)
  {
    if c.tag.Some? {
      var s := c.tag.value;
      assert LoweredLabel(c) == LowerAscii(s);
      if |s| == 2 {
        assert LowerAscii(s) == [LowerAscii(s)[0], LowerAscii(s)[1]];
      } else if |s| == 4 {
        assert LowerAscii(s) == [LowerAscii(s)[0], LowerAscii(s)[1], LowerAscii(s)[2], LowerAscii(s)[3]];
      }
    }
  }

  /** Child `i` of the node at `path` is an S node with a coordinator among its siblings, or itself. */
  ghost predicate IsCoordinatedClause(t: Tree, path: seq<nat>, i: nat) {
    && ValidPath(t, path)
    && var siblings := NodeAt(t, path).children;
    && i < |siblings| && siblings[i].tag == Some("S") && siblings[i].children != []
    && exists k :: 0 <= k < |siblings| && siblings[k].tag.Some? && NamesCoordinator(siblings[k].tag.value)
  }

  ghost predicate Has(r: Interval, k: int) {
    r.lo <= k < r.hi
  }

  /** `r` holds exactly the positions, among all leaves from left to right, of the leaves under that child. */
  ghost predicate HoldsItsLeaves(t: Tree, path: seq<nat>, i: nat, r: Interval) {
    && r.lo < r.hi <= |LeafPaths(t)|
    && forall k :: 0 <= k < |LeafPaths(t)| ==> (Has(r, k) <==> path + [i] <= LeafPaths(t)[k])
  }

  lemma {:induction false} SameMembersSameRange(r: Interval, s: Interval, n: nat)
    requires r.lo < r.hi <= n && s.lo < s.hi <= n
    requires forall k :: 0 <= k < n ==> (Has(r, k) <==> Has(s, k))
    ensures r == s
  {
    assert Has(r, r.lo) && Has(r, r.hi - 1);
    assert Has(s, s.lo) && Has(s, s.hi - 1);
  }

  lemma {:induction false} PhraseIffItsLeaves(t: Tree, path: seq<nat>, i: nat, r: Interval)
    ensures IsPhrase(t, 0, path, i, r) <==> IsCoordinatedClause(t, path, i) && HoldsItsLeaves(t, path, i, r)
  {
    if ValidPath(t, path) && i < |NodeAt(t, path).children| {
      var siblings := NodeAt(t, path).children;
      forall k | 0 <= k < |siblings|
        ensures IsCoordinator(siblings[k]) <==> siblings[k].tag.Some? && NamesCoordinator(siblings[k].tag.value)
      {
        CoordinatorLabels(siblings[k]);
      }
      if IsClause(siblings[i]) {
        RangeOfChild(t, path, i, r);
      }
    }
  }

  lemma {:induction false} RangeOfChild(t: Tree, path: seq<nat>, i: nat, r: Interval)
    requires ValidPath(t, path) && i < |NodeAt(t, path).children|
    ensures var lo := StartOf(t, path, 0) + LeavesOf(NodeAt(t, path).children[..i]);
            HoldsItsLeaves(t, path, i, r) <==> r == Interval(lo, lo + Width(NodeAt(t, path).children[i]))
  {
    var paths, q := LeafPaths(t), path + [i];
    ChildPath(t, path, i);
    assert t.children != [] by {
      assert q[0] < |t.children|;
    }
    var own := Interval(StartOf(t, q, 0), StartOf(t, q, 0) + Width(NodeAt(t, q)));
    CountsIn(t);
    NodeInside(t, q);
    forall k | 0 <= k < |paths| ensures Has(own, k) <==> q <= paths[k] {
      RangeIsLeaves(t, q, k);
    }
    if HoldsItsLeaves(t, path, i, r) {
      SameMembersSameRange(r, own, |paths|);
    }
  }

  /**
   The walk emits exactly the ranges of the S nodes with a coordinator among
   their siblings, each as the positions of its own leaves among all the leaves.
   */
  lemma {:induction false} WalkEmitsClauseLeaves(t: Tree, r: Interval)
    ensures r in Phrases(t, 0)
        <==> exists path, i :: IsCoordinatedClause(t, path, i) && HoldsItsLeaves(t, path, i, r)
  {
    WalkEmitsExactlyThePhrases(t, 0, r);
    if path, i :| IsPhrase(t, 0, path, i, r) {
      PhraseIffItsLeaves(t, path, i, r);
    }
    if path, i :| IsCoordinatedClause(t, path, i) && HoldsItsLeaves(t, path, i, r) {
      PhraseIffItsLeaves(t, path, i, r);
    }
  }

  /** A tree over `n` words emits ranges of those words only. */
  lemma RangesAreOfTheWords(t: Tree, n: nat, r: Interval)
    requires |LeafPaths(t)| == n && r in Phrases(t, 0)
    ensures r.lo < r.hi <= n
  {
    LeavesAreCounted(t);
    PhraseBounds(t, 0, r);
  }
}
