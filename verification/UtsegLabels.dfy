/**
 Labelling words by phrase and filling the gaps: the in-place fill against its
 declarative reading on the labels it started from.
 */
module UtsegLabels {

  const UNLABELLED := -1

  /** First labelled position at or after `i`, or the length. */
  function Next<T(==)>(w: seq<T>, blank: T, i: nat): (j: nat)
    requires i <= |w|
    ensures i <= j <= |w|
    ensures j < |w| ==> w[j] != blank
    ensures forall k :: i <= k < j ==> w[k] == blank
    decreases |w| - i
  {
    if i == |w| || w[i] != blank then i else Next(w, blank, i + 1)
  }

  /** Last labelled position before `i`, or -1. */
  function Prev<T(==)>(w: seq<T>, blank: T, i: nat): (j: int)
    requires i <= |w|
    ensures -1 <= j < i
    ensures j >= 0 ==> w[j] != blank
    ensures forall k :: j < k < i ==> w[k] == blank
  {
    if i == 0 then -1 else if w[i - 1] != blank then i - 1 else Prev(w, blank, i - 1)
  }

  /** A word's own label, else the nearest to its right, else the nearest to its left. */
  function FillAt<T(==)>(w: seq<T>, blank: T, i: nat): T
    requires i < |w|
  {
    if Next(w, blank, i) < |w| then w[Next(w, blank, i)]
    else if Prev(w, blank, i) >= 0 then w[Prev(w, blank, i)]
    else blank
  }

  function Fill<T(==)>(w: seq<T>, blank: T): seq<T> {
    seq(|w|, i requires 0 <= i < |w| => FillAt(w, blank, i))
  }

  /** No label from `i` up to, and without, `j`. */
  ghost predicate BlankBetween<T>(w: seq<T>, blank: T, i: int, j: int) {
    forall k :: 0 <= k < |w| && i <= k < j ==> w[k] == blank
  }

  /**
   A labelled word keeps its label; a gap takes the label on its right; a gap
   that reaches to the end takes the label on its left; all others stay blank.
   */
  lemma {:induction false} FillRule<T>(w: seq<T>, blank: T, i: nat, j: nat)
    requires i < |w| && j < |w|
    ensures w[i] != blank ==> Fill(w, blank)[i] == w[i]
    ensures i <= j && w[j] != blank && BlankBetween(w, blank, i, j) ==> Fill(w, blank)[i] == w[j]
    ensures j < i && w[j] != blank && BlankBetween(w, blank, j + 1, |w|) ==> Fill(w, blank)[i] == w[j]
    ensures BlankBetween(w, blank, 0, |w|) ==> Fill(w, blank)[i] == blank
  {
    var right, left := Next(w, blank, i), Prev(w, blank, i);
    if i <= j && w[j] != blank && BlankBetween(w, blank, i, j) {
      assert right == j;
    }
    if j < i && w[j] != blank && BlankBetween(w, blank, j + 1, |w|) {
      assert right == |w| && left == j;
    }
  }

  /** After the fill either every word is labelled or none ever was. */
  lemma FillLeavesBlankOnlyIfAllBlank<T>(w: seq<T>, blank: T)
    ensures (exists i :: 0 <= i < |w| && Fill(w, blank)[i] == blank)
        <==> w != [] && forall i :: 0 <= i < |w| ==> w[i] == blank
  {
    if w != [] {
      if forall i :: 0 <= i < |w| ==> w[i] == blank {
        assert Fill(w, blank)[0] == blank;
      }
    }
  }

  /** The fill depends only on which words share a label. */
  lemma FillRelabel<T, U>(w: seq<T>, blank: T, v: seq<U>, empty: U)
    requires |w| == |v|
    requires forall i :: 0 <= i < |w| ==> (w[i] == blank <==> v[i] == empty)
    requires forall i, j :: 0 <= i < |w| && 0 <= j < |w| ==> (w[i] == w[j] <==> v[i] == v[j])
    ensures forall i, j :: 0 <= i < |w| && 0 <= j < |w| ==>
              (Fill(w, blank)[i] == Fill(w, blank)[j] <==> Fill(v, empty)[i] == Fill(v, empty)[j])
    ensures forall i :: 0 <= i < |w| ==> (Fill(w, blank)[i] == blank <==> Fill(v, empty)[i] == empty)
  {
    forall i | 0 <= i < |w| ensures SourceOf(w, blank, i) == SourceOf(v, empty, i) {
    }
  }

  /** The position whose label word `i` ends up with. */
  function SourceOf<T(==)>(w: seq<T>, blank: T, i: nat): (s: nat)
    requires i < |w|
    ensures s < |w| && FillAt(w, blank, i) == w[s]
  {
    if Next(w, blank, i) < |w| then Next(w, blank, i)
    else if Prev(w, blank, i) >= 0 then Prev(w, blank, i)
    else i
  }

  /** `word_to_phrase`: the phrase each word was listed in, or -1. */
  method LabelWords(phrases: seq<seq<nat>>, n: nat) returns (labels: array<int>)
    ensures fresh(labels) && labels.Length == n
    ensures forall i :: 0 <= i < n ==>
              if forall p :: 0 <= p < |phrases| ==> i !in phrases[p] then labels[i] == UNLABELLED
              else 0 <= labels[i] < |phrases| && i in phrases[labels[i]]
  {
    labels := new int[n](_ => UNLABELLED);
    for p := 0 to |phrases|
      invariant forall i :: 0 <= i < n ==>
                  if forall q :: 0 <= q < p ==> i !in phrases[q] then labels[i] == UNLABELLED
                  else 0 <= labels[i] < p && i in phrases[labels[i]]
    {
      ghost var before := labels[..];
      for k := 0 to |phrases[p]|
        invariant forall i :: 0 <= i < n ==>
                    labels[i] == if i in phrases[p][..k] then p else before[i]
      {
        var idx := phrases[p][k];
        assert forall i :: i in phrases[p][..k + 1] <==> i in phrases[p][..k] || i == idx;
        if 0 <= idx < n {
          labels[idx] := p;
        }
      }
      assert phrases[p][..|phrases[p]|] == phrases[p];
    }
  }

  /** The in-place loop gives every word the label the original labels dictate. */
  method FillGaps(a: array<int>)
    modifies a
    ensures a[..] == Fill(old(a[..]), UNLABELLED)
  {
    ghost var w := a[..];
    var n := a.Length;
    for i := 0 to n
      invariant forall k :: 0 <= k < i ==> a[k] == FillAt(w, UNLABELLED, k)
      invariant forall k :: i <= k < n ==> a[k] == w[k]
    {
      if a[i] == UNLABELLED {
        var j := i + 1;
        while j < n && a[j] == UNLABELLED
          invariant i < j <= n
          invariant forall k :: i < k < j ==> a[k] == UNLABELLED
        {
          j := j + 1;
        }
        if j < n {
          assert j == Next(w, UNLABELLED, i);
          a[i] := a[j];
        } else {
          assert Next(w, UNLABELLED, i) == n;
          ghost var p := Prev(w, UNLABELLED, i);
          j := i - 1;
          while j >= 0 && a[j] == UNLABELLED
            invariant -1 <= j < i
            invariant p >= 0 ==> j == i - 1
          {
            j := j - 1;
          }
          if j >= 0 {
            a[i] := a[j];
          }
        }
      }
    }
  }
}
