/**
 The boundary classifier's word-level logic: normalising words, reading one
 action per word from sub-word classes, suppressing adjacent actions, and
 turning boundary actions into utterance groups. The tokenizer and the network
 are parameters.
 */
module UtteranceModel {
  import opened Common
  import opened Strip

  // ------------------------------------------------------------ word normalisation

  /** Character operations supplied by the host language. */
  datatype Text = Text(lower: string -> string, isSpace: char -> bool)

  /** A period, question mark, exclamation mark or comma. */
  predicate IsMark(c: char) {
    c == '.' || c == '?' || c == '!' || c == ','
  }

  function WithoutPunctuation(s: string): string {
    if s == "" then ""
    else (if IsMark(s[0]) then "" else [s[0]]) + WithoutPunctuation(s[1..])
  }

  function Clean(word: string, text: Text): string {
    WithoutPunctuation(Stripped(text.lower(word), text.isSpace))
  }

  lemma {:induction false} WithoutPunctuationSnoc(s: string, c: char)
    ensures WithoutPunctuation(s + [c]) == WithoutPunctuation(s) + (if IsMark(c) then "" else [c])
  {
    var last := if IsMark(c) then "" else [c];
    if s == "" {
      assert s + [c] == [c] && [c][1..] == "";
      assert last + "" == "" + last;
    } else {
      assert (s + [c])[0] == s[0] && (s + [c])[1..] == s[1..] + [c];
      WithoutPunctuationSnoc(s[1..], c);
      ConcatAssociates(if IsMark(s[0]) then "" else [s[0]], WithoutPunctuation(s[1..]), last);
    }
  }

  /** Character `k` of the text left is that at `kept[k]`, which is none of the four marks. */
  ghost predicate IsKept(s: string, left: string, kept: seq<nat>, k: int)
    requires 0 <= k < |kept| == |left|
  {
    && kept[k] < |s| && left[k] == s[kept[k]]
    && left[k] != '.' && left[k] != '?' && left[k] != '!' && left[k] != ','
  }

  /** The text left has exactly the characters of `s` at `kept`, those that are none of the four marks. */
  ghost predicate LeavesUnmarked(s: string, left: string, kept: seq<nat>) {
    && |kept| == |left| && StrictlyIncreasing(kept)
    && (forall k :: 0 <= k < |kept| ==> IsKept(s, left, kept, k))
    && forall i :: 0 <= i < |s| && s[i] != '.' && s[i] != '?' && s[i] != '!' && s[i] != ',' ==> i in kept
  }

  lemma {:induction false} OneMoreCharacter(s: string, c: char, left: string, kept: seq<nat>)
    requires LeavesUnmarked(s, left, kept)
    ensures IsMark(c) ==> LeavesUnmarked(s + [c], left, kept)
    ensures !IsMark(c) ==> LeavesUnmarked(s + [c], left + [c], kept + [|s|])
  {
    forall k | 0 <= k < |kept| ensures IsKept(s + [c], left, kept, k) && kept[k] < |s| {
      assert IsKept(s, left, kept, k);
    }
    IncreasingSnoc(kept, |s|);
    if !IsMark(c) {
      var kept' := kept + [|s|];
      forall k | 0 <= k < |kept'| ensures IsKept(s + [c], left + [c], kept', k) {
        assert k < |kept| ==> IsKept(s, left, kept, k);
      }
      assert kept'[|kept|] == |s| && forall i :: i in kept ==> i in kept';
    }
  }

  /** Cleaning removes the four marks and keeps all other characters in order. */
  lemma {:induction false} OnlyMarksGo(s: string) returns (kept: seq<nat>)
    ensures LeavesUnmarked(s, WithoutPunctuation(s), kept)
  {
    kept := [];
    if s != "" {
      var init, c := s[..|s| - 1], s[|s| - 1];
      assert s == init + [c];
      kept := OnlyMarksGo(init);
      WithoutPunctuationSnoc(init, c);
      OneMoreCharacter(init, c, WithoutPunctuation(init), kept);
      assert WithoutPunctuation(init) + "" == WithoutPunctuation(init);
      if !IsMark(c) {
        kept := kept + [|init|];
      }
    }
  }

  /** `indices` lists, in order, exactly the words that survive cleaning. */
  ghost predicate IsMapping(words: seq<string>, text: Text, normalized: seq<string>, indices: seq<nat>) {
    && |normalized| == |indices|
    && StrictlyIncreasing(indices)
    && (forall k :: 0 <= k < |indices| ==> indices[k] < |words| && normalized[k] == Clean(words[indices[k]], text))
    && forall i :: 0 <= i < |words| ==> (i in indices <==> Clean(words[i], text) != "")
  }

  lemma {:induction false} OneMoreWord(words: seq<string>, text: Text, n: seq<string>, m: seq<nat>, i: nat)
    requires i < |words| && IsMapping(words[..i], text, n, m)
    ensures Clean(words[i], text) == "" ==> IsMapping(words[..i + 1], text, n, m)
    ensures Clean(words[i], text) != "" ==> IsMapping(words[..i + 1], text, n + [Clean(words[i], text)], m + [i])
  {
    var c := Clean(words[i], text);
    assert forall k :: k in m ==> k < i;
    if c != "" {
      forall k ensures k in m + [i] <==> k in m || k == i {
      }
    }
  }

  method NormalizeWordMapping(words: seq<string>, text: Text)
    returns (normalized: seq<string>, indices: seq<nat>)
    ensures IsMapping(words, text, normalized, indices)
  {
    normalized, indices := [], [];
    for i := 0 to |words|
      invariant IsMapping(words[..i], text, normalized, indices)
    {
      ghost var n, m := normalized, indices;
      var lowered := Stripped(text.lower(words[i]), text.isSpace);
      if lowered != "" {
        var cleaned := WithoutPunctuation(lowered);
        if cleaned != "" {
          normalized, indices := normalized + [cleaned], indices + [i];
        }
      }
      OneMoreWord(words, text, n, m, i);
    }
    assert words[..|words|] == words;
  }

  /** There is only one such mapping. */
  lemma {:induction false} MappingIsUnique(words: seq<string>, text: Text, n1: seq<string>, i1: seq<nat>,
                                           n2: seq<string>, i2: seq<nat>)
    requires IsMapping(words, text, n1, i1) && IsMapping(words, text, n2, i2)
    ensures n1 == n2 && i1 == i2
  {
    assert forall k :: k in i1 <==> k in i2;
    IncreasingListsAgree(i1, i2);
  }

  lemma {:induction false} IncreasingListsAgree(a: seq<nat>, b: seq<nat>)
    requires StrictlyIncreasing(a) && StrictlyIncreasing(b)
    requires forall x :: x in a <==> x in b
    ensures a == b
    decreases |a|
  {
    assert b != [] ==> b[0] in b;
    if a != [] {
      assert a[0] in b && b != [] && b[0] in a;
      assert a[0] == b[0];
      forall x ensures x in a[1..] <==> x in b[1..] {
        assert x in a <==> x == a[0] || x in a[1..];
        assert x in b <==> x == b[0] || x in b[1..];
      }
      IncreasingListsAgree(a[1..], b[1..]);
    }
  }

  // ------------------------------------------------------- one action per word

  /** The word of the last sub-word token before `t` that belongs to a word. */
  ghost function WordBefore(ids: seq<Option<nat>>, t: nat): Option<nat>
    requires t <= |ids|
  {
    if t == 0 then None else if ids[t - 1].Some? then ids[t - 1] else WordBefore(ids, t - 1)
  }

  /** Token `t` opens a stretch of tokens of word `w`. */
  ghost predicate OpensWord(ids: seq<Option<nat>>, t: nat, w: nat) {
    t < |ids| && ids[t] == Some(w) && WordBefore(ids, t) != Some(w)
  }

  ghost predicate ReadsFirstPieces(ids: seq<Option<nat>>, classes: seq<nat>, upto: nat, raw: seq<nat>)
    requires upto <= |ids| == |classes|
  {
    forall w :: 0 <= w < |raw| ==>
      if forall t :: 0 <= t < upto ==> !OpensWord(ids, t, w) then raw[w] == 0
      else exists t :: 0 <= t < upto && OpensWord(ids, t, w) && raw[w] == classes[t]
                       && forall u :: t < u < upto ==> !OpensWord(ids, u, w)
  }

  method RawActions(ids: seq<Option<nat>>, classes: seq<nat>, m: nat) returns (raw: seq<nat>)
    requires |ids| == |classes|
    requires forall t :: 0 <= t < |ids| && ids[t].Some? ==> ids[t].value < m
    ensures |raw| == m && ReadsFirstPieces(ids, classes, |ids|, raw)
  {
    raw := seq(m, _ => 0);
    var previous: Option<nat> := None;
    for t := 0 to |ids|
      invariant |raw| == m && previous == WordBefore(ids, t)
      invariant ReadsFirstPieces(ids, classes, t, raw)
    {
      ghost var before := raw;
      if ids[t].Some? && ids[t] != previous {
        previous := ids[t];
        raw := raw[ids[t].value := classes[t]];
        assert OpensWord(ids, t, ids[t].value);
      }
    }
  }

  /** When tokens come in word order, each word is read at its first token. */
  lemma InOrderTokensOpenOnce(ids: seq<Option<nat>>, t: nat, w: nat)
    requires forall a, b :: 0 <= a < b < |ids| && ids[a].Some? && ids[b].Some? ==> ids[a].value <= ids[b].value
    requires t < |ids| && ids[t] == Some(w)
    ensures OpensWord(ids, t, w) <==> forall u :: 0 <= u < t ==> ids[u] != Some(w)
  {
    var p := LastWordPosition(ids, t);
  }

  lemma {:induction false} LastWordPosition(ids: seq<Option<nat>>, t: nat) returns (p: int)
    requires t <= |ids|
    ensures -1 <= p < t && (p == -1 <==> WordBefore(ids, t) == None)
    ensures p >= 0 ==> ids[p].Some? && WordBefore(ids, t) == ids[p]
    ensures forall u :: p < u < t ==> ids[u] == None
  {
    if t == 0 {
      p := -1;
    } else if ids[t - 1].Some? {
      p := t - 1;
    } else {
      p := LastWordPosition(ids, t - 1);
    }
  }

  // --------------------------------------------------------- adjacent suppression

  /** Position `i` holds the last of a maximal run of positive actions. */
  predicate EndsActionRun(raw: seq<nat>, i: nat) {
    i < |raw| && raw[i] > 0 && (i + 1 < |raw| ==> raw[i + 1] == 0)
  }

  method Suppress(raw: seq<nat>) returns (actions: seq<nat>)
    ensures |actions| == |raw|
    ensures forall i :: 0 <= i < |raw| ==> actions[i] == if EndsActionRun(raw, i) then raw[i] else 0
  {
    var a := new nat[|raw|](i requires 0 <= i < |raw| => raw[i]);
    if |raw| > 0 {
      for i := 0 to |raw| - 1
        invariant forall k :: 0 <= k < i ==> a[k] == if EndsActionRun(raw, k) then raw[k] else 0
        invariant forall k :: i <= k < |raw| ==> a[k] == raw[k]
      {
        if raw[i] > 0 && raw[i + 1] > 0 {
          a[i] := 0;
        }
      }
    }
    actions := a[..];
  }

  /** Word `indices[k]` carries action k and every other word none. */
  ghost predicate AreExpanded(actions: seq<nat>, indices: seq<nat>, expanded: seq<nat>) {
    && |actions| == |indices|
    && (forall k :: 0 <= k < |indices| ==> indices[k] < |expanded| && expanded[indices[k]] == actions[k])
    && forall i :: 0 <= i < |expanded| && i !in indices ==> expanded[i] == 0
  }

  /** Put each normalised word's action back at its original position. */
  method Expand(actions: seq<nat>, indices: seq<nat>, n: nat) returns (expanded: seq<nat>)
    requires |actions| == |indices| && StrictlyIncreasing(indices)
    requires forall k :: 0 <= k < |indices| ==> indices[k] < n
    ensures |expanded| == n && AreExpanded(actions, indices, expanded)
  {
    var a := new nat[n](_ => 0);
    for k := 0 to |indices|
      invariant forall j :: 0 <= j < k ==> a[indices[j]] == actions[j]
      invariant forall i :: 0 <= i < n && i !in indices[..k] ==> a[i] == 0
    {
      a[indices[k]] := actions[k];
      assert indices[..k + 1] == indices[..k] + [indices[k]];
    }
    assert indices[..|indices|] == indices;
    expanded := a[..];
  }

  ghost predicate NoAdjacentActions(actions: seq<nat>) {
    forall i :: 0 < i < |actions| ==> actions[i - 1] == 0 || actions[i] == 0
  }

  /**
   Words next to each other in the original are next to each other after
   normalisation, so suppression carries over.
   */
  lemma {:induction false} ExpansionKeepsActionsApart(raw: seq<nat>, actions: seq<nat>, indices: seq<nat>,
                                                      expanded: seq<nat>)
    requires |actions| == |raw| == |indices| && StrictlyIncreasing(indices)
    requires forall k :: 0 <= k < |raw| ==> actions[k] == if EndsActionRun(raw, k) then raw[k] else 0
    requires AreExpanded(actions, indices, expanded)
    ensures NoAdjacentActions(expanded)
  {
  }

  // ------------------------------------------------------------------- the model

  /** Sub-word word ids and per-token classes for a word list. */
  type Classifier = seq<string> -> (seq<Option<nat>>, seq<nat>)

  /** What the tokenizer guarantees: one class per token, word ids within the input. */
  ghost predicate WellFormed(classify: Classifier) {
    forall ws :: |classify(ws).0| == |classify(ws).1|
                 && forall t :: 0 <= t < |classify(ws).0| && classify(ws).0[t].Some? ==> classify(ws).0[t].value < |ws|
  }

  /** Word `indices[k]` carries `raw[k]` when `k` ends its run of positive actions, else nothing. */
  ghost predicate AreSuppressed(raw: seq<nat>, indices: seq<nat>, actions: seq<nat>) {
    |raw| == |indices| && forall k :: 0 <= k < |indices| ==>
      indices[k] < |actions| && actions[indices[k]] == if EndsActionRun(raw, k) then raw[k] else 0
  }

  ghost predicate PredictedFrom(words: seq<string>, classify: Classifier, normalized: seq<string>,
                                indices: seq<nat>, actions: seq<nat>)
    requires WellFormed(classify)
  {
    && |actions| == |words|
    && (forall i :: 0 <= i < |words| && (i !in indices || |normalized| <= 1) ==> actions[i] == 0)
    && (|normalized| > 1 ==>
          exists raw :: |raw| == |normalized|
            && ReadsFirstPieces(classify(normalized).0, classify(normalized).1, |classify(normalized).0|, raw)
            && AreSuppressed(raw, indices, actions))
  }

  /** The action list a word list must receive. */
  ghost predicate ArePredicted(words: seq<string>, text: Text, classify: Classifier, actions: seq<nat>)
    requires WellFormed(classify)
  {
    exists normalized, indices ::
      IsMapping(words, text, normalized, indices) && PredictedFrom(words, classify, normalized, indices, actions)
  }

  lemma {:induction false} FirstPieceIsUnique(ids: seq<Option<nat>>, classes: seq<nat>, r1: seq<nat>, r2: seq<nat>,
                                              w: nat)
    requires |ids| == |classes| && w < |r1| && w < |r2|
    requires ReadsFirstPieces(ids, classes, |ids|, r1) && ReadsFirstPieces(ids, classes, |ids|, r2)
    ensures r1[w] == r2[w]
  {
    if t :| 0 <= t < |ids| && OpensWord(ids, t, w) {
      var a :| 0 <= a < |ids| && OpensWord(ids, a, w) && r1[w] == classes[a]
               && forall u :: a < u < |ids| ==> !OpensWord(ids, u, w);
      var b :| 0 <= b < |ids| && OpensWord(ids, b, w) && r2[w] == classes[b]
               && forall u :: b < u < |ids| ==> !OpensWord(ids, u, w);
      assert a == b;
    }
  }

  lemma {:induction false} FirstPiecesDetermineActions(ids: seq<Option<nat>>, classes: seq<nat>, r1: seq<nat>,
                                                       r2: seq<nat>)
    requires |ids| == |classes| && |r1| == |r2|
    requires ReadsFirstPieces(ids, classes, |ids|, r1) && ReadsFirstPieces(ids, classes, |ids|, r2)
    ensures r1 == r2
  {
    forall w | 0 <= w < |r1| ensures r1[w] == r2[w] {
      FirstPieceIsUnique(ids, classes, r1, r2, w);
    }
  }

  lemma {:induction false} SameRawSameActions(raw: seq<nat>, indices: seq<nat>, a: seq<nat>, b: seq<nat>)
    requires AreSuppressed(raw, indices, a) && AreSuppressed(raw, indices, b) && |a| == |b|
    requires forall i :: 0 <= i < |a| && i !in indices ==> a[i] == 0 && b[i] == 0
    ensures a == b
  {
    forall i | 0 <= i < |a| ensures a[i] == b[i] {
      if i in indices {
        var k :| 0 <= k < |indices| && indices[k] == i;
        assert a[indices[k]] == b[indices[k]];
      }
    }
  }

  /** For one mapping there is one action list. */
  lemma {:induction false} PredictedFromIsUnique(words: seq<string>, classify: Classifier, normalized: seq<string>,
                                                 indices: seq<nat>, a: seq<nat>, b: seq<nat>)
    requires WellFormed(classify)
    requires PredictedFrom(words, classify, normalized, indices, a)
    requires PredictedFrom(words, classify, normalized, indices, b)
    ensures a == b
  {
    if |normalized| > 1 {
      var (ids, classes) := classify(normalized);
      var r1 :| |r1| == |normalized| && ReadsFirstPieces(ids, classes, |ids|, r1) && AreSuppressed(r1, indices, a);
      var r2 :| |r2| == |normalized| && ReadsFirstPieces(ids, classes, |ids|, r2) && AreSuppressed(r2, indices, b);
      FirstPiecesDetermineActions(ids, classes, r1, r2);
      SameRawSameActions(r1, indices, a, b);
    }
  }

  /** The required action list is unique. */
  lemma {:induction false} PredictionIsUnique(words: seq<string>, text: Text, classify: Classifier, a: seq<nat>,
                                              b: seq<nat>)
    requires WellFormed(classify)
    requires ArePredicted(words, text, classify, a) && ArePredicted(words, text, classify, b)
    ensures a == b
  {
    var n1, i1 :| IsMapping(words, text, n1, i1) && PredictedFrom(words, classify, n1, i1, a);
    var n2, i2 :| IsMapping(words, text, n2, i2) && PredictedFrom(words, classify, n2, i2, b);
    MappingIsUnique(words, text, n1, i1, n2, i2);
    PredictedFromIsUnique(words, classify, n1, i1, a, b);
  }

  method PredictActions(words: seq<string>, text: Text, classify: Classifier) returns (actions: seq<nat>)
    requires WellFormed(classify)
    ensures ArePredicted(words, text, classify, actions)
    ensures NoAdjacentActions(actions)
  {
    var normalized, indices := NormalizeWordMapping(words, text);
    if |normalized| <= 1 {
      actions := seq(|words|, _ => 0);
      assert PredictedFrom(words, classify, normalized, indices, actions);
      return;
    }
    var (ids, classes) := classify(normalized);
    var raw := RawActions(ids, classes, |normalized|);
    var suppressed := Suppress(raw);
    actions := Expand(suppressed, indices, |words|);
    ExpansionKeepsActionsApart(raw, suppressed, indices, actions);
    assert AreSuppressed(raw, indices, actions);
    assert PredictedFrom(words, classify, normalized, indices, actions);
  }

  /** Classes 2, 3 and 4: period, question mark, exclamation mark. */
  predicate IsBoundary(action: nat) {
    2 <= action <= 4
  }

  function BoundariesIn(actions: seq<nat>): nat {
    if actions == [] then 0
    else BoundariesIn(actions[..|actions| - 1]) + (if IsBoundary(actions[|actions| - 1]) then 1 else 0)
  }

  /** Each word's group counts the boundaries strictly before it. */
  ghost predicate NumberByBoundaries(assignments: seq<nat>, actions: seq<nat>) {
    |assignments| == |actions| && forall i :: 0 <= i < |actions| ==> assignments[i] == BoundariesIn(actions[..i])
  }

  method NumberGroups(actions: seq<nat>) returns (assignments: seq<nat>)
    ensures NumberByBoundaries(assignments, actions)
  {
    assignments := [];
    var currentGroup := 0;
    for i := 0 to |actions|
      invariant |assignments| == i && currentGroup == BoundariesIn(actions[..i])
      invariant forall k :: 0 <= k < i ==> assignments[k] == BoundariesIn(actions[..k])
    {
      assert actions[..i + 1][..i] == actions[..i];
      assignments := assignments + [currentGroup];
      if IsBoundary(actions[i]) {
        currentGroup := currentGroup + 1;
      }
    }
  }

  method PredictAssignments(words: seq<string>, text: Text, classify: Classifier)
    returns (assignments: seq<nat>, ghost actions: seq<nat>)
    requires WellFormed(classify)
    ensures |words| <= 1 ==> assignments == seq(|words|, _ => 0)
    ensures |words| > 1 ==> ArePredicted(words, text, classify, actions) && NoAdjacentActions(actions)
    ensures |words| > 1 ==> NumberByBoundaries(assignments, actions)
  {
    if |words| <= 1 {
      assignments, actions := seq(|words|, _ => 0), [];
    } else {
      var predicted := PredictActions(words, text, classify);
      assignments := NumberGroups(predicted);
      actions := predicted;
    }
  }

  /** A new group starts exactly after a boundary word. */
  lemma GroupChangesAfterBoundary(assignments: seq<nat>, actions: seq<nat>, i: nat)
    requires NumberByBoundaries(assignments, actions) && 0 < i < |actions|
    ensures assignments[0] == 0
    ensures assignments[i] == assignments[i - 1] + (if IsBoundary(actions[i - 1]) then 1 else 0)
    ensures assignments[i] != assignments[i - 1] <==> actions[i - 1] == 2 || actions[i - 1] == 3 || actions[i - 1] == 4
  {
    assert actions[..i][..i - 1] == actions[..i - 1];
  }

  /** No interior word forms a group by itself: every group but the first and the last has two words. */
  lemma InteriorGroupsHaveTwoWords(assignments: seq<nat>, actions: seq<nat>, i: nat)
    requires NumberByBoundaries(assignments, actions) && NoAdjacentActions(actions)
    requires 0 < i < |actions| - 1
    ensures assignments[i - 1] == assignments[i] || assignments[i] == assignments[i + 1]
  {
    GroupChangesAfterBoundary(assignments, actions, i);
    GroupChangesAfterBoundary(assignments, actions, i + 1);
  }

  /** The number of groups is one more than the boundaries before the last word. */
  lemma GroupsAreBoundariesPlusOne(assignments: seq<nat>, actions: seq<nat>, g: nat)
    requires NumberByBoundaries(assignments, actions) && actions != []
    ensures g in assignments <==> g < 1 + BoundariesIn(actions[..|actions| - 1])
  {
    GroupsReached(assignments, actions, |actions|, g);
  }

  lemma {:induction false} GroupsReached(assignments: seq<nat>, actions: seq<nat>, n: nat, g: nat)
    requires NumberByBoundaries(assignments, actions) && 0 < n <= |actions|
    ensures g in assignments[..n] <==> g < 1 + BoundariesIn(actions[..n - 1])
    ensures n == |actions| ==> assignments[..n] == assignments
  {
    assert assignments[..n] == assignments[..n - 1] + [assignments[n - 1]];
    if n > 1 {
      GroupsReached(assignments, actions, n - 1, g);
      GroupChangesAfterBoundary(assignments, actions, n - 1);
    }
  }
}
