/**
 Laws of the transcript cleaner on joined texts: what a tag, a bracket, a mark of
 punctuation and a space do to the text around them.
 */
module CleanerLaws {
  import opened Common
  import opened TagCleaner

  // ------------------------------------------------------------------ words and spaces

  lemma {:induction false} WordEndBefore(a: string, c: char, b: string, s: string)
    requires IsSpace(c) && s == a + [c] + b && a != "" && !IsSpace(a[0])
    ensures 0 < WordEnd(a, 0) == WordEnd(s, 0) <= |a|
    ensures s[..WordEnd(s, 0)] == a[..WordEnd(a, 0)] && s[WordEnd(s, 0)..] == a[WordEnd(a, 0)..] + [c] + b
  {
    var e, f := WordEnd(a, 0), WordEnd(s, 0);
    assert forall k :: 0 <= k < |a| ==> s[k] == a[k];
    assert s[|a|] == c;
    assert e < |a| ==> IsSpace(s[e]);
  }

  /** A space separates words and is in none. */
  lemma {:induction false} SpaceSeparates(a: string, c: char, b: string, s: string)
    requires IsSpace(c) && s == a + [c] + b
    ensures Words(s) == Words(a) + Words(b)
    decreases |a|
  {
    if a == "" {
      assert s[0] == c && s[1..] == b;
    } else if IsSpace(a[0]) {
      assert s[0] == a[0] && s[1..] == a[1..] + [c] + b;
      SpaceSeparates(a[1..], c, b, s[1..]);
    } else {
      assert s[0] == a[0];
      WordEndBefore(a, c, b, s);
      SpaceSeparates(a[WordEnd(a, 0)..], c, b, s[WordEnd(s, 0)..]);
    }
  }

  /** A stretch without spaces is one word. */
  lemma {:induction false} OneWord(w: string)
    requires IsWord(w)
    ensures Words(w) == [w]
  {
    assert WordEnd(w, 0) == |w|;
    assert w[..|w|] == w && w[|w|..] == "";
  }

  /** Words separated by single spaces, with none at either end. */
  ghost predicate SingleSpaced(t: string) {
    forall k :: 0 <= k < |t| && IsSpace(t[k]) ==>
      t[k] == ' ' && 0 < k < |t| - 1 && !IsSpace(t[k - 1]) && !IsSpace(t[k + 1])
  }

  lemma {:induction false} OneMoreInFront(w: string, rest: string, t: string)
    requires IsWord(w) && SingleSpaced(rest) && rest != "" && t == w + " " + rest
    ensures SingleSpaced(t)
  {
    forall k | 0 <= k < |t| && IsSpace(t[k])
      ensures t[k] == ' ' && 0 < k < |t| - 1 && !IsSpace(t[k - 1]) && !IsSpace(t[k + 1])
    {
      var n := |w| + 1;
      if k == |w| {
        assert t[k + 1] == rest[0] && t[k - 1] == w[|w| - 1];
      } else if k > |w| {
        assert t[k] == rest[k - n];
        assert t[k - 1] == rest[k - n - 1] && t[k + 1] == rest[k - n + 1];
      }
    }
  }

  lemma {:induction false} JoinedSingly(ws: seq<string>)
    requires forall k :: 0 <= k < |ws| ==> IsWord(ws[k])
    ensures SingleSpaced(JoinWords(ws)) && (ws != [] ==> JoinWords(ws) != "")
  {
    if |ws| > 1 {
      JoinedSingly(ws[1..]);
      OneMoreInFront(ws[0], JoinWords(ws[1..]), JoinWords(ws));
    }
  }

  /** Squeezed text has the same words, with one space between two and none around them. */
  lemma {:induction false} SqueezedIsSingleSpaced(s: string)
    ensures SingleSpaced(Squeeze(s)) && Words(Squeeze(s)) == Words(s)
  {
    WordsAreWords(s);
    JoinedSingly(Words(s));
    WordsOfJoin(Words(s));
  }

  // ---------------------------------------------------------- brackets and punctuation

  lemma {:induction false} ShownCharacter(c: char)
    ensures ShownText([c]) == Shown(c)
  {
    assert [c][..0] == "";
  }

  lemma {:induction false} ShownAround(a: string, c: char, b: string)
    ensures ShownText(a + [c] + b) == ShownText(a) + Shown(c) + ShownText(b)
  {
    ShownAppend(a + [c], b);
    ShownAppend(a, [c]);
    ShownCharacter(c);
  }

  /** Quotation brackets vanish without a gap. */
  lemma {:induction false} BracketsVanish(a: string, c: char, b: string)
    requires IsBracket(c)
    ensures ShownText(a + [c] + b) == ShownText(a + b)
  {
    ShownAround(a, c, b);
    ShownAppend(a, b);
    assert ShownText(a) + "" == ShownText(a);
  }

  /** All other characters but punctuation are shown as they are. */
  lemma {:induction false} OthersStay(a: string, c: char, b: string)
    requires !IsBracket(c) && !IsPunctuation(c)
    ensures ShownText(a + [c] + b) == ShownText(a) + [c] + ShownText(b)
  {
    ShownAround(a, c, b);
  }

  /** Sentence punctuation separates words, as a space does. */
  lemma {:induction false} PunctuationSeparates(a: string, c: char, b: string)
    requires IsPunctuation(c)
    ensures Words(ShownText(a + [c] + b)) == Words(ShownText(a)) + Words(ShownText(b))
  {
    ShownAround(a, c, b);
    SpaceSeparates(ShownText(a), ' ', ShownText(b), ShownText(a + [c] + b));
  }

  lemma {:induction false} SameWords(s: string)
    ensures Words(Cleaned(s)) == Words(ShownText(WithoutTags(s, 0)))
  {
    WordsAreWords(ShownText(WithoutTags(s, 0)));
    WordsOfJoin(Words(ShownText(WithoutTags(s, 0))));
  }

  predicate NoOpener(s: string) {
    forall k :: 0 <= k < |s| ==> !PairAt(s, '<', '|', k)
  }

  /** In a text without tags the cleaned words on both sides of a mark are cleaned by themselves. */
  lemma {:induction false} CleanedAroundPunctuation(a: string, c: char, b: string, s: string)
    requires IsPunctuation(c) && s == a + [c] + b && NoOpener(s)
    ensures Words(Cleaned(s)) == Words(Cleaned(a)) + Words(Cleaned(b))
  {
    forall k | 0 <= k < |a| ensures !PairAt(a, '<', '|', k) {
      assert !PairAt(s, '<', '|', k);
    }
    forall k | 0 <= k < |b| ensures !PairAt(b, '<', '|', k) {
      assert !PairAt(s, '<', '|', |a| + 1 + k);
    }
    NoOpenerCutsNothing(s);
    NoOpenerCutsNothing(a);
    NoOpenerCutsNothing(b);
    SameWords(s);
    SameWords(a);
    SameWords(b);
    PunctuationSeparates(a, c, b);
  }

  // ------------------------------------------------------------------------------ tags

  lemma {:induction false} FirstPair(s: string, x: char, y: char, i: nat, p: nat)
    requires i <= p < |s| && PairAt(s, x, y, p) && forall k :: i <= k < p ==> !PairAt(s, x, y, k)
    ensures FindPair(s, x, y, i) == p
  {
  }

  lemma {:induction false} NoPair(s: string, x: char, y: char, i: nat)
    requires i <= |s| && forall k :: i <= k < |s| ==> !PairAt(s, x, y, k)
    ensures FindPair(s, x, y, i) == |s|
  {
  }

  lemma {:induction false} CutAt(s: string, i: nat, open: nat, rest: string)
    requires i <= |s| && open == FindPair(s, '<', '|', i) < |s| && WithoutTags(s, open) == rest
    ensures WithoutTags(s, i) == s[i..open] + rest
  {
    assert s[open..open] == "";
  }

  /**
   The first opener and the nearest closer behind it are cut out with all that is
   between them, and nothing else.
   */
  lemma {:induction false} TagIsCut(s: string, i: nat, open: nat, close: nat)
    requires i <= open && PairAt(s, '<', '|', open) && forall k :: i <= k < open ==> !PairAt(s, '<', '|', k)
    requires open + 2 <= close && PairAt(s, '|', '>', close)
    requires forall k :: open + 2 <= k < close ==> !PairAt(s, '|', '>', k)
    ensures WithoutTags(s, i) == s[i..open] + WithoutTags(s, close + 2)
  {
    FirstPair(s, '<', '|', i, open);
    FirstPair(s, '|', '>', open + 2, close);
    AtOpener(s, open);
    CutAt(s, i, open, WithoutTags(s, close + 2));
  }

  /** An opener that is never closed stays, as two characters, and everything after it is lost. */
  lemma {:induction false} OpenTagIsLost(s: string, i: nat, open: nat)
    requires i <= open && PairAt(s, '<', '|', open) && forall k :: i <= k < open ==> !PairAt(s, '<', '|', k)
    requires forall k :: open + 2 <= k < |s| ==> !PairAt(s, '|', '>', k)
    ensures WithoutTags(s, i) == s[i..open] + "<|"
  {
    FirstPair(s, '<', '|', i, open);
    NoPair(s, '|', '>', open + 2);
    AtOpener(s, open);
    CutAt(s, i, open, "<|");
  }
}
