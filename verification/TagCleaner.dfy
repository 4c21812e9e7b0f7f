/**
 Cleaning of FunASR segment text: `<|...|>` tags are cut out, quotation brackets
 dropped, sentence punctuation turned into spaces, and whitespace squeezed. The
 one-pass scanner is compared with a specification that searches for tags.
 */
module TagCleaner {
  import opened Common

  /** The Unicode White_Space characters. */
  predicate IsSpace(c: char) {
    '\U{0009}' <= c <= '\U{000D}' || c == ' ' || c == '\U{0085}' || c == '\U{00A0}' || c == '\U{1680}'
    || '\U{2000}' <= c <= '\U{200A}' || c == '\U{2028}' || c == '\U{2029}' || c == '\U{202F}'
    || c == '\U{205F}' || c == '\U{3000}'
  }

  const OPEN_BRACKET := '\U{300C}'
  const CLOSE_BRACKET := '\U{300D}'
  const FULL_STOP := '\U{3002}'
  const COMMA := '\U{FF0C}'
  const EXCLAMATION := '\U{FF01}'
  const QUESTION := '\U{FF1F}'

  predicate IsBracket(c: char) {
    c == OPEN_BRACKET || c == CLOSE_BRACKET
  }

  predicate IsPunctuation(c: char) {
    c == FULL_STOP || c == COMMA || c == EXCLAMATION || c == QUESTION
  }

  function Shown(c: char): string {
    if IsBracket(c) then "" else if IsPunctuation(c) then " " else [c]
  }

  function ShownText(s: string): string {
    if s == "" then "" else ShownText(s[..|s| - 1]) + Shown(s[|s| - 1])
  }

  // ------------------------------------------------------------------ words and spaces

  /** Where the non-space stretch starting at `i` ends. */
  function WordEnd(s: string, i: nat): (n: nat)
    requires i <= |s|
    ensures i <= n <= |s|
    ensures forall k :: i <= k < n ==> !IsSpace(s[k])
    ensures n < |s| ==> IsSpace(s[n])
    decreases |s| - i
  {
    if i == |s| || IsSpace(s[i]) then i else WordEnd(s, i + 1)
  }

  /** `split_whitespace`. */
  function Words(s: string): seq<string>
    decreases |s|
  {
    if s == "" then []
    else if IsSpace(s[0]) then Words(s[1..])
    else [s[..WordEnd(s, 0)]] + Words(s[WordEnd(s, 0)..])
  }

  function JoinWords(ws: seq<string>): string {
    if ws == [] then "" else if |ws| == 1 then ws[0] else ws[0] + " " + JoinWords(ws[1..])
  }

  function Squeeze(s: string): string {
    JoinWords(Words(s))
  }

  // --------------------------------------------------------------------- specification

  predicate PairAt(s: string, a: char, b: char, k: int) {
    0 <= k && k + 1 < |s| && s[k] == a && s[k + 1] == b
  }

  /** First position at or after `i` where `a` is followed by `b`, or the length. */
  function FindPair(s: string, a: char, b: char, i: nat): (p: nat)
    requires i <= |s|
    ensures i <= p <= |s|
    ensures p < |s| ==> PairAt(s, a, b, p)
    ensures forall k :: i <= k < p ==> !PairAt(s, a, b, k)
    decreases |s| - i
  {
    if i == |s| then i else if PairAt(s, a, b, i) then i else FindPair(s, a, b, i + 1)
  }

  /**
   The text from `i` on without its tags: each leftmost `<|` is cut through the
   nearest `|>` after it; an opener that is never closed stays as two characters
   and takes the rest of the text with it.
   */
  function WithoutTags(s: string, i: nat): string
    requires i <= |s|
    decreases |s| - i, 1
  {
    var open := FindPair(s, '<', '|', i);
    s[i..open] + FromOpener(s, open)
  }

  /** From a tag opener on, or nothing at the end. */
  function FromOpener(s: string, open: nat): string
    requires open == |s| || PairAt(s, '<', '|', open)
    decreases |s| - open, 0
  {
    if open == |s| then ""
    else
      var close := FindPair(s, '|', '>', open + 2);
      if close == |s| then "<|" else WithoutTags(s, close + 2)
  }

  function Cleaned(s: string): string {
    Squeeze(ShownText(WithoutTags(s, 0)))
  }

  // ------------------------------------------------------------------------ the scanner

  lemma {:induction false} ShownAppend(a: string, b: string)
    ensures ShownText(a + b) == ShownText(a) + ShownText(b)
  {
    if b == "" {
      assert a + b == a;
    } else {
      assert (a + b)[..|a + b| - 1] == a + b[..|b| - 1];
      ShownAppend(a, b[..|b| - 1]);
    }
  }

  lemma {:induction false} PlainCharacter(s: string, i: nat)
    requires i < |s| && !PairAt(s, '<', '|', i)
    ensures WithoutTags(s, i) == [s[i]] + WithoutTags(s, i + 1)
  {
    var open := FindPair(s, '<', '|', i + 1);
    assert FindPair(s, '<', '|', i) == open;
    assert s[i..open] == [s[i]] + s[i + 1..open];
  }

  lemma {:induction false} ShowPlain(s: string, i: nat)
    requires i < |s| && !PairAt(s, '<', '|', i)
    ensures ShownText(WithoutTags(s, i)) == Shown(s[i]) + ShownText(WithoutTags(s, i + 1))
  {
    PlainCharacter(s, i);
    ShownAppend([s[i]], WithoutTags(s, i + 1));
  }

  lemma {:induction false} AtOpener(s: string, open: nat)
    requires PairAt(s, '<', '|', open)
    ensures var close := FindPair(s, '|', '>', open + 2);
            WithoutTags(s, open) == if close == |s| then "<|" else WithoutTags(s, close + 2)
  {
    assert s[open..open] == "";
  }

  lemma ShownOpener()
    ensures ShownText("<|") == "<|" && ShownText("") == ""
  {
    ShownAppend("<", "|");
    assert "<" + "|" == "<|";
  }

  /** What is still to be shown from `i` on. */
  ghost function Rest(s: string, i: nat): string
    requires i <= |s|
  {
    ShownText(WithoutTags(s, i))
  }

  lemma {:induction false} StepPlain(s: string, i: nat, cleaned: string)
    requires i < |s| && !PairAt(s, '<', '|', i)
    ensures cleaned + Rest(s, i) == (cleaned + Shown(s[i])) + Rest(s, i + 1)
  {
    ShowPlain(s, i);
  }

  lemma {:induction false} StepTag(s: string, i: nat, cleaned: string, next: nat, foundEnd: bool)
    requires PairAt(s, '<', '|', i)
    requires foundEnd <==> FindPair(s, '|', '>', i + 2) < |s|
    requires next == if foundEnd then FindPair(s, '|', '>', i + 2) + 2 else |s|
    ensures next <= |s|
    ensures cleaned + Rest(s, i) == (if foundEnd then cleaned else cleaned + "<|") + Rest(s, next)
  {
    AtOpener(s, i);
    NothingLeft(s, cleaned + "<|");
    ShownOpener();
  }

  lemma NothingLeft(s: string, cleaned: string)
    ensures cleaned + Rest(s, |s|) == cleaned
  {
    assert WithoutTags(s, |s|) == "";
    ShownOpener();
  }

  /** The inner loop: past the nearest closer, or to the end. */
  method SkipTag(text: string, from: nat) returns (i: nat, foundEnd: bool)
    requires from <= |text|
    ensures foundEnd <==> FindPair(text, '|', '>', from) < |text|
    ensures i == if foundEnd then FindPair(text, '|', '>', from) + 2 else |text|
  {
    i, foundEnd := from, false;
    while i < |text|
      invariant from <= i <= |text|
      invariant FindPair(text, '|', '>', from) == FindPair(text, '|', '>', i)
    {
      if PairAt(text, '|', '>', i) {
        return i + 2, true;
      }
      i := i + 1;
    }
  }

  method Clean(text: string) returns (r: string)
    ensures r == Cleaned(text)
  {
    var cleaned := "";
    var i := 0;
    while i < |text|
      invariant i <= |text|
      invariant cleaned + Rest(text, i) == Rest(text, 0)
    {
      if PairAt(text, '<', '|', i) {
        var next, foundEnd := SkipTag(text, i + 2);
        StepTag(text, i, cleaned, next, foundEnd);
        i := next;
        if !foundEnd {
          cleaned := cleaned + "<|";
        }
      } else {
        StepPlain(text, i, cleaned);
        cleaned := cleaned + Shown(text[i]);
        i := i + 1;
      }
    }
    NothingLeft(text, cleaned);
    r := Squeeze(cleaned);
  }

  // ------------------------------------------------------------------------ fixed points

  predicate IsWord(w: string) {
    w != "" && forall k :: 0 <= k < |w| ==> !IsSpace(w[k])
  }

  lemma {:induction false} WordsAreWords(s: string)
    ensures forall k :: 0 <= k < |Words(s)| ==> IsWord(Words(s)[k])
    decreases |s|
  {
    if s != "" {
      WordsAreWords(if IsSpace(s[0]) then s[1..] else s[WordEnd(s, 0)..]);
    }
  }

  lemma {:induction false} WordsOfJoin(ws: seq<string>)
    requires forall k :: 0 <= k < |ws| ==> IsWord(ws[k])
    ensures Words(JoinWords(ws)) == ws
  {
    if |ws| == 1 {
      var s := ws[0];
      assert WordEnd(s, 0) == |s|;
      assert s[..|s|] == s && s[|s|..] == "";
    } else if |ws| > 1 {
      var w, rest := ws[0], JoinWords(ws[1..]);
      var s := JoinWords(ws);
      assert s == w + " " + rest;
      assert forall k :: 0 <= k < |w| ==> s[k] == w[k];
      assert s[|w|] == ' ' && IsSpace(s[|w|]);
      assert WordEnd(s, 0) == |w|;
      assert s[..|w|] == w && s[|w|..] == " " + rest && (" " + rest)[1..] == rest;
      WordsOfJoin(ws[1..]);
    }
  }

  /** Squeezing is idempotent. */
  lemma {:induction false} SqueezeTwice(s: string)
    ensures Squeeze(Squeeze(s)) == Squeeze(s)
  {
    WordsAreWords(s);
    WordsOfJoin(Words(s));
  }

  lemma {:induction false} SqueezeShortens(s: string)
    ensures |Squeeze(s)| <= |s|
    ensures s != "" && IsSpace(s[0]) && Words(s) != [] ==> |Squeeze(s)| < |s|
    decreases |s|
  {
    if s != "" {
      if IsSpace(s[0]) {
        SqueezeShortens(s[1..]);
      } else {
        SqueezeShortens(s[WordEnd(s, 0)..]);
      }
    }
  }

  lemma {:induction false} JoinedCharacters(ws: seq<string>, c: char)
    requires c in JoinWords(ws) && c != ' '
    ensures exists k :: 0 <= k < |ws| && c in ws[k]
  {
    if |ws| > 1 && c !in ws[0] {
      JoinedCharacters(ws[1..], c);
      var k :| 0 <= k < |ws[1..]| && c in ws[1..][k];
      assert c in ws[k + 1];
    }
  }

  lemma {:induction false} WordCharacters(s: string, k: nat, c: char)
    requires k < |Words(s)| && c in Words(s)[k]
    ensures c in s
    decreases |s|
  {
    if IsSpace(s[0]) {
      WordCharacters(s[1..], k, c);
    } else if k > 0 {
      WordCharacters(s[WordEnd(s, 0)..], k - 1, c);
    }
  }

  predicate Plain(s: string) {
    forall k :: 0 <= k < |s| ==> !IsBracket(s[k]) && !IsPunctuation(s[k])
  }

  lemma {:induction false} ShownIsPlain(s: string)
    ensures Plain(ShownText(s)) && |ShownText(s)| <= |s|
  {
    if s != "" {
      ShownIsPlain(s[..|s| - 1]);
    }
  }

  lemma {:induction false} PlainIsShown(s: string)
    requires Plain(s)
    ensures ShownText(s) == s
  {
    if s != "" {
      var init, c := s[..|s| - 1], s[|s| - 1];
      assert !IsBracket(c) && !IsPunctuation(c);
      PlainIsShown(init);
      assert s == init + [c];
    }
  }

  /** Cleaned text has no brackets or punctuation and is already squeezed. */
  lemma {:induction false} CleanedIsTidy(s: string)
    ensures Plain(Cleaned(s)) && Squeeze(Cleaned(s)) == Cleaned(s)
  {
    var t := ShownText(WithoutTags(s, 0));
    ShownIsPlain(WithoutTags(s, 0));
    SqueezeTwice(t);
    forall k | 0 <= k < |Squeeze(t)| ensures !IsBracket(Squeeze(t)[k]) && !IsPunctuation(Squeeze(t)[k]) {
      var c := Squeeze(t)[k];
      if c != ' ' {
        JoinedCharacters(Words(t), c);
        var j :| 0 <= j < |Words(t)| && c in Words(t)[j];
        WordCharacters(t, j, c);
      }
    }
  }

  lemma {:induction false} WithoutTagsShortens(s: string, i: nat)
    requires i <= |s|
    ensures |WithoutTags(s, i)| <= |s| - i
    decreases |s| - i
  {
    var open := FindPair(s, '<', '|', i);
    if open < |s| {
      var close := FindPair(s, '|', '>', open + 2);
      if close < |s| {
        WithoutTagsShortens(s, close + 2);
      }
    }
  }

  lemma {:induction false} NothingToCut(r: string)
    requires Plain(r) && Squeeze(r) == r
    requires FindPair(r, '<', '|', 0) == |r| || FindPair(r, '<', '|', 0) + 2 == |r|
    ensures Cleaned(r) == r
  {
    var open := FindPair(r, '<', '|', 0);
    if open < |r| {
      assert FindPair(r, '|', '>', open + 2) == |r|;
      assert r[..open] + "<|" == r;
    }
    assert WithoutTags(r, 0) == r;
    PlainIsShown(r);
  }

  lemma {:induction false} CutShortens(r: string)
    requires FindPair(r, '<', '|', 0) + 2 < |r|
    ensures |Cleaned(r)| < |r|
  {
    var t, open := WithoutTags(r, 0), FindPair(r, '<', '|', 0);
    var close := FindPair(r, '|', '>', open + 2);
    if close < |r| {
      WithoutTagsShortens(r, close + 2);
    }
    assert |t| == open + |FromOpener(r, open)|;
    assert |t| < |r|;
    ShownIsPlain(t);
    SqueezeShortens(ShownText(t));
  }

  /**
   A text is its own cleaned form exactly when it has no brackets or punctuation,
   its whitespace is squeezed, and it has no tag opener but perhaps as its last
   two characters.
   */
  lemma {:induction false} CleanedIsSameIff(r: string)
    ensures Cleaned(r) == r
        <==> Plain(r) && Squeeze(r) == r
             && (FindPair(r, '<', '|', 0) == |r| || FindPair(r, '<', '|', 0) + 2 == |r|)
  {
    CleanedIsTidy(r);
    if FindPair(r, '<', '|', 0) + 2 < |r| {
      CutShortens(r);
    } else if Plain(r) && Squeeze(r) == r {
      NothingToCut(r);
    }
  }

  /** So cleaning again changes nothing exactly when the cleaned text has no opener before its last two characters. */
  lemma {:induction false} CleanAgainIff(s: string)
    ensures Cleaned(Cleaned(s)) == Cleaned(s)
        <==> FindPair(Cleaned(s), '<', '|', 0) == |Cleaned(s)| || FindPair(Cleaned(s), '<', '|', 0) + 2 == |Cleaned(s)|
  {
    CleanedIsTidy(s);
    CleanedIsSameIff(Cleaned(s));
  }

  lemma {:induction false} NoOpenerCutsNothing(s: string)
    requires forall k :: 0 <= k < |s| ==> !PairAt(s, '<', '|', k)
    ensures WithoutTags(s, 0) == s
  {
    assert FindPair(s, '<', '|', 0) == |s|;
    assert s[0..|s|] + "" == s;
  }

  lemma {:induction false} ShownSnoc(t: string, c: char)
    ensures ShownText(t + [c]) == ShownText(t) + Shown(c)
  {
    assert (t + [c])[..|t|] == t;
  }

  lemma {:induction false} BracketVanishes(s: string)
    requires s == ['<', OPEN_BRACKET, '|', 'x']
    ensures ShownText(s) == "<|x"
  {
    var t1, t2, t3 := s[..1], s[..2], s[..3];
    assert t1 == "" + ['<'] && t2 == t1 + [OPEN_BRACKET] && t3 == t2 + ['|'] && s == t3 + ['x'];
    ShownSnoc("", '<');
    ShownSnoc(t1, OPEN_BRACKET);
    ShownSnoc(t2, '|');
    ShownSnoc(t3, 'x');
  }

  lemma {:induction false} OpenerInside(r: string)
    requires r == "<|x"
    ensures Squeeze(r) == r && Cleaned(r) != r
  {
    OneWordIsSqueezed(r);
    assert PairAt(r, '<', '|', 0);
    CutShortens(r);
  }

  /** Dropping a bracket can form a new opener: the cleaned text then loses what follows it. */
  lemma {:induction false} BracketHidesOpener(s: string, r: string)
    requires s == ['<', OPEN_BRACKET, '|', 'x'] && r == "<|x"
    ensures Cleaned(s) == r && Cleaned(r) != r
  {
    NoOpenerCutsNothing(s);
    BracketVanishes(s);
    OpenerInside(r);
  }

  lemma {:induction false} OneWordIsSqueezed(w: string)
    requires IsWord(w)
    ensures Squeeze(w) == w
  {
    WordsOfJoin([w]);
  }
}
