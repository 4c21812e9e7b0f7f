/**
 Utterance segmentation end to end: from the constituency parse of the joined
 words to one group number per word.
 */
module Utseg {
  import opened Common
  import opened UtsegTree
  import opened UtsegRanges
  import opened UtsegLabels
  import opened UtsegAssign

  datatype ParseError = NoSentence

  /** Each word's block when it has several words, else nothing. */
  ghost function WordBlocks(rs: seq<Interval>, n: nat): seq<set<nat>> {
    seq(n, i requires 0 <= i < n => if |Block(rs, n, i)| > 1 then Block(rs, n, i) else {})
  }

  /** Reverse, and keep the lists with more than one element. */
  method DropSingletons(kept: seq<seq<nat>>) returns (phrases: seq<seq<nat>>)
    requires NoRepeats(kept) && PairwiseDisjoint(SetsOf(kept))
    ensures PairwiseDisjoint(SetsOf(phrases)) && NoRepeats(phrases)
    ensures forall s :: s in SetsOf(phrases) <==> s in SetsOf(kept) && |s| > 1
  {
    var unique: seq<seq<nat>> := Reverse(kept);
    phrases := [];
    for k := 0 to |unique|
      invariant NoRepeats(phrases) && PairwiseDisjoint(SetsOf(phrases))
      invariant forall s :: s in SetsOf(phrases) <==> s in SetsOf(unique[..k]) && |s| > 1
    {
      assert SetsOf(unique[..k + 1]) == SetsOf(unique[..k]) + [SetOf(unique[k])];
      assert SetsOf(phrases + [unique[k]]) == SetsOf(phrases) + [SetOf(unique[k])];
      EarlierIsDisjoint(kept, unique, k);
      if |unique[k]| > 1 {
        forall i | 0 <= i < |phrases| ensures SetsOf(phrases)[i] !! SetOf(unique[k]) {
          assert SetsOf(phrases)[i] in SetsOf(phrases);
        }
        phrases := phrases + [unique[k]];
      }
    }
    assert unique[..|unique|] == unique;
    SameSets(kept, unique);
  }

  lemma EarlierIsDisjoint(kept: seq<seq<nat>>, unique: seq<seq<nat>>, k: nat)
    requires PairwiseDisjoint(SetsOf(kept)) && unique == Reverse(kept) && k < |unique|
    ensures forall s :: s in SetsOf(unique[..k]) ==> s !! SetOf(unique[k])
  {
    forall s | s in SetsOf(unique[..k]) ensures s !! SetOf(unique[k]) {
      var i :| 0 <= i < k && SetsOf(unique[..k])[i] == s;
      assert SetsOf(kept)[|kept| - 1 - k] !! SetsOf(kept)[|kept| - 1 - i];
    }
  }

  lemma SameSets(kept: seq<seq<nat>>, unique: seq<seq<nat>>)
    requires unique == Reverse(kept)
    ensures forall s :: s in SetsOf(unique) <==> s in SetsOf(kept)
  {
    forall s ensures s in SetsOf(unique) <==> s in SetsOf(kept) {
      if s in SetsOf(kept) {
        var i :| 0 <= i < |kept| && SetsOf(kept)[i] == s;
        assert SetsOf(unique)[|kept| - 1 - i] == s;
      }
      if s in SetsOf(unique) {
        var i :| 0 <= i < |kept| && SetsOf(unique)[i] == s;
        assert SetsOf(kept)[|kept| - 1 - i] == s;
      }
    }
  }

  /** `phrases` lists exactly the surviving sets of several words. */
  ghost predicate ListsBlocks(rs: seq<Interval>, n: nat, phrases: seq<seq<nat>>) {
    && PairwiseDisjoint(SetsOf(phrases))
    && forall s :: s in SetsOf(phrases) <==> s in KeptSets(rs, n) && |s| > 1
  }

  lemma ListedWords(rs: seq<Interval>, n: nat, phrases: seq<seq<nat>>, i: nat)
    requires Laminar(rs) && ListsBlocks(rs, n, phrases) && i < n
    ensures (exists p :: 0 <= p < |phrases| && i in phrases[p]) <==> WordBlocks(rs, n)[i] != {}
    ensures forall p :: 0 <= p < |phrases| && i in phrases[p] ==> SetsOf(phrases)[p] == WordBlocks(rs, n)[i]
  {
    BlockIsKept(rs, n, i);
    BlockOfWord(rs, n, i);
    if |Block(rs, n, i)| > 1 {
      var p :| 0 <= p < |phrases| && SetsOf(phrases)[p] == Block(rs, n, i);
      assert i in phrases[p];
    }
    forall p | 0 <= p < |phrases| && i in phrases[p]
      ensures SetsOf(phrases)[p] == WordBlocks(rs, n)[i] && WordBlocks(rs, n)[i] != {}
    {
      assert SetsOf(phrases)[p] in SetsOf(phrases);
      assert SetsOf(phrases)[p] == Block(rs, n, i) && |Block(rs, n, i)| > 1;
    }
  }

  /** Labels name blocks: blank for one-word blocks, equal exactly for equal blocks. */
  ghost predicate NameBlocks(labels: seq<int>, blocks: seq<set<nat>>) {
    && |labels| == |blocks|
    && (forall i :: 0 <= i < |labels| ==> (labels[i] == UNLABELLED <==> blocks[i] == {}))
    && forall i, j :: 0 <= i < |labels| && 0 <= j < |labels| ==> (labels[i] == labels[j] <==> blocks[i] == blocks[j])
  }

  lemma LabelsNameBlocks(rs: seq<Interval>, n: nat, phrases: seq<seq<nat>>, labels: seq<int>)
    requires Laminar(rs) && ListsBlocks(rs, n, phrases) && |labels| == n
    requires forall i :: 0 <= i < n ==>
               if forall p :: 0 <= p < |phrases| ==> i !in phrases[p] then labels[i] == UNLABELLED
               else 0 <= labels[i] < |phrases| && i in phrases[labels[i]]
    ensures NameBlocks(labels, WordBlocks(rs, n))
  {
    var blocks := WordBlocks(rs, n);
    forall i | 0 <= i < n
      ensures labels[i] == UNLABELLED <==> blocks[i] == {}
      ensures labels[i] != UNLABELLED ==> 0 <= labels[i] < |phrases| && SetsOf(phrases)[labels[i]] == blocks[i]
    {
      ListedWords(rs, n, phrases, i);
    }
    EqualLabelsEqualBlocks(phrases, blocks, labels);
  }

  lemma EqualLabelsEqualBlocks(phrases: seq<seq<nat>>, blocks: seq<set<nat>>, labels: seq<int>)
    requires |labels| == |blocks| && PairwiseDisjoint(SetsOf(phrases))
    requires forall i :: 0 <= i < |labels| ==> (labels[i] == UNLABELLED <==> blocks[i] == {})
    requires forall i :: 0 <= i < |labels| && labels[i] != UNLABELLED ==>
               0 <= labels[i] < |phrases| && SetsOf(phrases)[labels[i]] == blocks[i]
    ensures forall i, j :: 0 <= i < |labels| && 0 <= j < |labels| ==>
              (labels[i] == labels[j] <==> blocks[i] == blocks[j])
  {
  }

  lemma {:induction false} NoBoundaryNoGroup<T>(l: seq<T>, i: nat)
    requires forall k :: 0 < k < |l| ==> l[k] == l[k - 1]
    requires i < |l|
    ensures LongRunsBy(l, i) == 0
  {
    if i > 0 {
      NoBoundaryNoGroup(l, i - 1);
    }
  }

  /** When all words share a label they all get group 0. */
  lemma OneLabelOneGroup<T>(l: seq<T>, x: T)
    requires forall k :: 0 <= k < |l| ==> l[k] == x
    ensures Assignments(l) == seq(|l|, _ => 0)
  {
    forall i | 0 <= i < |l| ensures GroupAt(l, i) == 0 {
      NoBoundaryNoGroup(l, i);
    }
  }

  /**
   For every parse the groups are those of the tree's maximal clauses: each word
   takes its block, gaps take the nearest block, and runs of fewer than three
   words join a neighbour. No order or numbering inside the code shows through.
   */
  method ComputeAssignments(n: nat, parse: seq<Option<Tree>>) returns (r: Result<seq<nat>, ParseError>)
    ensures r.Err? <==> n > 1 && parse == []
    ensures n <= 1 ==> r == Ok(seq(n, _ => 0))
    ensures n > 1 && parse != [] ==>
              var rs := if parse[0].Some? then Phrases(parse[0].value, 0) else [];
              r == Ok(Assignments(Fill(WordBlocks(rs, n), {})))
  {
    if n <= 1 {
      return Ok(seq(n, _ => 0));
    }
    if parse == [] {
      return Err(NoSentence);
    }
    ghost var rs := if parse[0].Some? then Phrases(parse[0].value, 0) else [];
    var phraseRanges := ParseTreeIndices(parse[0], 0);
    assert phraseRanges == PositionLists(rs);
    if parse[0].Some? {
      PhrasesLaminar(parse[0].value, 0);
    }
    var kept := SubtractLargestFirst(phraseRanges, n);
    KeptSetsAreMaximalPlusLeftover(rs, n);
    var phrases := DropSingletons(kept);
    var assignments := AssignFromPhrases(rs, n, phrases);
    return Ok(assignments);
  }

  /** Fill, check and group, given labels that name the blocks. */
  method AssignFromLabels(labels: array<int>, ghost blocks: seq<set<nat>>) returns (assignments: seq<nat>)
    requires NameBlocks(labels[..], blocks)
    modifies labels
    ensures assignments == Assignments(Fill(blocks, {}))
  {
    ghost var original := labels[..];
    FillRelabel(original, UNLABELLED, blocks, {});
    FillGaps(labels);
    if exists i :: 0 <= i < labels.Length && labels[i] == UNLABELLED {
      FillLeavesBlankOnlyIfAllBlank(original, UNLABELLED);
      OneLabelOneGroup(Fill(blocks, {}), {});
      return seq(labels.Length, _ => 0);
    }
    assignments := AssignGroups(labels[..]);
    AssignmentsRelabel(Fill(original, UNLABELLED), Fill(blocks, {}));
  }

  /** Label, fill and group, given the phrases that survived. */
  method AssignFromPhrases(ghost rs: seq<Interval>, n: nat, phrases: seq<seq<nat>>) returns (assignments: seq<nat>)
    requires Laminar(rs) && ListsBlocks(rs, n, phrases)
    ensures assignments == Assignments(Fill(WordBlocks(rs, n), {}))
  {
    if phrases == [] {
      forall i | 0 <= i < n ensures WordBlocks(rs, n)[i] == {} {
        ListedWords(rs, n, phrases, i);
      }
      OneLabelOneGroup(Fill(WordBlocks(rs, n), {}), {});
      return seq(n, _ => 0);
    }
    var labels := LabelWords(phrases, n);
    LabelsNameBlocks(rs, n, phrases, labels[..]);
    assignments := AssignFromLabels(labels, WordBlocks(rs, n));
  }
}
