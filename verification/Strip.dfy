/** Stripping characters from both ends of a string, and what is left. */
module Strip {

  function StripLeft(s: string, isSpace: char -> bool): string {
    if s != "" && isSpace(s[0]) then StripLeft(s[1..], isSpace) else s
  }

  function StripRight(s: string, isSpace: char -> bool): string {
    if s != "" && isSpace(s[|s| - 1]) then StripRight(s[..|s| - 1], isSpace) else s
  }

  function Stripped(s: string, isSpace: char -> bool): string {
    StripRight(StripLeft(s, isSpace), isSpace)
  }

  predicate AllSpace(s: string, isSpace: char -> bool) {
    forall k :: 0 <= k < |s| ==> isSpace(s[k])
  }

  /** `t` is `s` without its leading and trailing spaces. */
  ghost predicate IsCore(s: string, t: string, isSpace: char -> bool) {
    && (t != "" ==> !isSpace(t[0]) && !isSpace(t[|t| - 1]))
    && exists before, after :: s == before + t + after && AllSpace(before, isSpace) && AllSpace(after, isSpace)
  }

  lemma {:induction false} StripLeftLaw(s: string, isSpace: char -> bool) returns (before: string)
    ensures s == before + StripLeft(s, isSpace) && AllSpace(before, isSpace)
    ensures StripLeft(s, isSpace) != "" ==> !isSpace(StripLeft(s, isSpace)[0])
  {
    if s != "" && isSpace(s[0]) {
      var rest := StripLeftLaw(s[1..], isSpace);
      before := [s[0]] + rest;
      assert s == [s[0]] + s[1..];
    } else {
      before := "";
    }
  }

  lemma {:induction false} StripRightLaw(s: string, isSpace: char -> bool) returns (after: string)
    ensures s == StripRight(s, isSpace) + after && AllSpace(after, isSpace)
    ensures StripRight(s, isSpace) != "" ==> !isSpace(StripRight(s, isSpace)[|StripRight(s, isSpace)| - 1])
  {
    if s != "" && isSpace(s[|s| - 1]) {
      var rest := StripRightLaw(s[..|s| - 1], isSpace);
      after := rest + [s[|s| - 1]];
      assert s == s[..|s| - 1] + [s[|s| - 1]];
    } else {
      after := "";
    }
  }

  /** Stripping takes away exactly the spaces at the ends. */
  lemma {:induction false} StrippedIsCore(s: string, isSpace: char -> bool)
    ensures IsCore(s, Stripped(s, isSpace), isSpace)
  {
    var left, t := StripLeft(s, isSpace), Stripped(s, isSpace);
    var before := StripLeftLaw(s, isSpace);
    var after := StripRightLaw(left, isSpace);
    assert s == before + t + after;
    assert t != "" ==> t[0] == left[0];
  }

  /** Nothing is left of a string of spaces, and of no other. */
  lemma {:induction false} EmptyIffAllSpace(s: string, isSpace: char -> bool)
    ensures Stripped(s, isSpace) == "" <==> AllSpace(s, isSpace)
  {
    StrippedIsCore(s, isSpace);
    var t := Stripped(s, isSpace);
    var before, after :| s == before + t + after && AllSpace(before, isSpace) && AllSpace(after, isSpace);
    if t == "" {
      assert forall k :: 0 <= k < |s| ==> s[k] == if k < |before| then before[k] else after[k - |before|];
    } else {
      assert s[|before|] == t[0];
    }
  }
}
