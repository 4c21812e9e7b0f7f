/**
 The elements of the projections read off the providers' records: which words
 they come from, in which order, and at which times.
 */
module ProviderElements {
  import opened Common
  import opened Strip
  import opened TagCleaner
  import opened ProviderProjection

  // ------------------------------------------------------------------ rounded times

  /** `m` is within half of `x`, and further from zero than `x` when it is exactly half off. */
  ghost predicate IsRounded(x: real, m: int) {
    var off := 2.0 * (m as real - x);
    -1.0 <= off <= 1.0 && (off == 1.0 ==> x > 0.0) && (off == -1.0 ==> x < 0.0)
  }

  lemma {:induction false} FloorBounds(x: real)
    ensures x.Floor as real <= x < x.Floor as real + 1.0
  {
  }

  /** Timestamps become the nearest whole millisecond, halves away from zero. */
  lemma {:induction false} RoundIsNearest(x: real, m: int)
    ensures m == Round(x) <==> IsRounded(x, m)
  {
    var r := Round(x);
    FloorBounds(x + 0.5);
    FloorBounds(-x + 0.5);
    assert IsRounded(x, r);
    if IsRounded(x, m) {
      assert -1.0 <= m as real - r as real <= 1.0;
      assert m == r - 1 || m == r || m == r + 1;
    }
  }

  // --------------------------------------------------------------- FunASR timestamps

  /** A timestamp entry gives times if it is an array that begins with two numbers. */
  ghost predicate GivesTimes(j: Json, start: real, end: real) {
    j.Array? && |j.items| >= 2 && j.items[0] == Number(start) && j.items[1] == Number(end)
  }

  /** Token `k` of the cleaned text is timed by entry `k`, if there is one that gives times, and else untimed. */
  lemma {:induction false} TokenTimes(s: FunaudioSegment, host: Host, k: nat)
    requires k < |FunaudioTokens(s, host)|
    ensures var t := FunaudioTokens(s, host)[k];
            && t.value == (if host.lang == "yue" then host.charTokens(Cleaned(s.text)) else Words(Cleaned(s.text)))[k]
            && (t.startMs.Some? <==> t.endMs.Some?)
            && (t.startMs.Some? <==> k < |s.timestamp| && exists a, b :: GivesTimes(s.timestamp[k], a, b))
            && forall a, b :: k < |s.timestamp| && GivesTimes(s.timestamp[k], a, b) ==>
                 t.startMs.Some? && t.endMs.Some? && IsRounded(a, t.startMs.value) && IsRounded(b, t.endMs.value)
  {
    if k < |s.timestamp| {
      var j := s.timestamp[k];
      if j.Array? && |j.items| >= 2 && j.items[0].Number? && j.items[1].Number? {
        var a, b := j.items[0].value, j.items[1].value;
        assert GivesTimes(j, a, b);
        RoundIsNearest(a, Round(a));
        RoundIsNearest(b, Round(b));
      }
    }
  }

  // -------------------------------------------------------------- words with offsets

  /** A provider word that is not just whitespace. */
  predicate HasText(w: Word) {
    !AllSpace(w.text, IsSpace)
  }

  /** The text without surrounding spaces, normalised for Cantonese. */
  ghost predicate IsTextOf(value: string, text: string, host: Host) {
    exists core :: IsCore(text, core, IsSpace) && value == if host.lang == "yue" then host.normalize(core) else core
  }

  ghost predicate IsTokenOf(t: Token, w: Word, offset: int, host: Host) {
    t.startMs == Some(offset + w.startMs) && t.endMs == Some(offset + w.endMs) && IsTextOf(t.value, w.text, host)
  }

  /** Token `k` is made of the word at `places[k]`, one of the first `n` with text. */
  ghost predicate MadeOf(tokens: seq<Token>, places: seq<nat>, words: seq<Word>, n: nat, offset: int, host: Host,
                         k: int)
    requires n <= |words| && 0 <= k < |places| == |tokens|
  {
    places[k] < n && HasText(words[places[k]]) && IsTokenOf(tokens[k], words[places[k]], offset, host)
  }

  ghost predicate Covers(places: seq<nat>, words: seq<Word>, n: nat)
    requires n <= |words|
  {
    forall i :: 0 <= i < n && HasText(words[i]) ==> i in places
  }

  /** `places` lists in order the words with text among the first `n`, and the tokens are made of these. */
  ghost predicate AreTokensOf(tokens: seq<Token>, places: seq<nat>, words: seq<Word>, n: nat, offset: int, host: Host) {
    && n <= |words| && |places| == |tokens|
    && StrictlyIncreasing(places)
    && (forall k :: 0 <= k < |places| ==> MadeOf(tokens, places, words, n, offset, host, k))
    && Covers(places, words, n)
  }

  function TokenFor(w: Word, host: Host): Token {
    Token(NormalizeToken(Trim(w.text), host), Some(w.startMs), Some(w.endMs))
  }

  lemma {:induction false} TokenOfWord(w: Word, host: Host)
    ensures IsTokenOf(TokenFor(w, host), w, 0, host)
  {
    StrippedIsCore(w.text, IsSpace);
    assert IsTextOf(NormalizeToken(Trim(w.text), host), w.text, host);
  }

  lemma {:induction false} WordTokensSnoc(words: seq<Word>, host: Host, n: nat)
    requires n < |words|
    ensures WordTokens(words, host, n + 1)
         == if HasText(words[n]) then WordTokens(words, host, n) + [TokenFor(words[n], host)]
            else WordTokens(words, host, n)
  {
    EmptyIffAllSpace(words[n].text, IsSpace);
    assert WordTokens(words, host, n) + [] == WordTokens(words, host, n);
  }

  lemma {:induction false} SkipWord(tokens: seq<Token>, places: seq<nat>, words: seq<Word>, n: nat, m: nat,
                                    host: Host)
    requires n < |words| && m == n + 1 && AreTokensOf(tokens, places, words, n, 0, host) && !HasText(words[n])
    ensures AreTokensOf(tokens, places, words, m, 0, host)
  {
    forall k | 0 <= k < |places| ensures MadeOf(tokens, places, words, m, 0, host, k) {
      assert MadeOf(tokens, places, words, n, 0, host, k);
    }
  }

  lemma {:induction false} AddToken(tokens: seq<Token>, places: seq<nat>, words: seq<Word>, n: nat, m: nat, t: Token,
                                    host: Host)
    requires n < |words| && m == n + 1 && AreTokensOf(tokens, places, words, n, 0, host)
    requires HasText(words[n]) && IsTokenOf(t, words[n], 0, host)
    ensures AreTokensOf(tokens + [t], places + [n], words, m, 0, host)
  {
    var tokens', places' := tokens + [t], places + [n];
    forall k | 0 <= k < |places'| ensures MadeOf(tokens', places', words, m, 0, host, k) {
      if k < |places| {
        assert MadeOf(tokens, places, words, n, 0, host, k);
      }
    }
    forall j, k | 0 <= j < k < |places'| ensures places'[j] < places'[k] {
      assert MadeOf(tokens, places, words, n, 0, host, j);
    }
    assert n in places' && forall i :: i in places ==> i in places';
  }

  lemma {:induction false} OneMoreWord(tokens: seq<Token>, places: seq<nat>, words: seq<Word>, n: nat, m: nat,
                                       host: Host, tokens': seq<Token>)
    returns (places': seq<nat>)
    requires n < |words| && m == n + 1 && AreTokensOf(tokens, places, words, n, 0, host)
    requires tokens' == if HasText(words[n]) then tokens + [TokenFor(words[n], host)] else tokens
    ensures AreTokensOf(tokens', places', words, m, 0, host)
  {
    if HasText(words[n]) {
      TokenOfWord(words[n], host);
      AddToken(tokens, places, words, n, m, TokenFor(words[n], host), host);
      places' := places + [n];
    } else {
      SkipWord(tokens, places, words, n, m, host);
      places' := places;
    }
  }

  lemma {:induction false} NoTokens(words: seq<Word>, host: Host)
    ensures AreTokensOf(WordTokens(words, host, 0), [], words, 0, 0, host)
  {
  }

  lemma {:induction false} TokensSoFar(words: seq<Word>, host: Host, n: nat, m: nat, before: seq<nat>)
    returns (places: seq<nat>)
    requires n < |words| && m == n + 1
    requires AreTokensOf(WordTokens(words, host, n), before, words, n, 0, host)
    ensures AreTokensOf(WordTokens(words, host, m), places, words, m, 0, host)
  {
    WordTokensSnoc(words, host, n);
    places := OneMoreWord(WordTokens(words, host, n), before, words, n, m, host, WordTokens(words, host, m));
  }

  /** The words with text, in order, give the tokens. */
  lemma {:induction false} TokensOfWords(words: seq<Word>, host: Host, n: nat) returns (places: seq<nat>)
    requires n <= |words|
    ensures AreTokensOf(WordTokens(words, host, n), places, words, n, 0, host)
  {
    if n == 0 {
      NoTokens(words, host);
      places := [];
    } else {
      var before := TokensOfWords(words, host, n - 1);
      places := TokensSoFar(words, host, n - 1, n, before);
    }
  }

  lemma {:induction false} SameWordMoved(t: Token, moved: Word, w: Word, offset: int, host: Host)
    requires moved == Word(w.text, offset + w.startMs, offset + w.endMs)
    requires HasText(moved) && IsTokenOf(t, moved, 0, host)
    ensures HasText(w) && IsTokenOf(t, w, offset, host)
  {
  }

  lemma {:induction false} TokensAtOffset(s: TencentSegment, host: Host) returns (places: seq<nat>)
    ensures AreTokensOf(WordTokens(Absolute(s), host, |s.words|), places, s.words, |s.words|, s.startMs, host)
  {
    var words, tokens := Absolute(s), WordTokens(Absolute(s), host, |s.words|);
    places := TokensOfWords(words, host, |words|);
    forall k | 0 <= k < |places| ensures MadeOf(tokens, places, s.words, |s.words|, s.startMs, host, k) {
      assert MadeOf(tokens, places, words, |words|, 0, host, k);
      SameWordMoved(tokens[k], words[places[k]], s.words[places[k]], s.startMs, host);
    }
    forall i | 0 <= i < |s.words| && HasText(s.words[i]) ensures i in places {
      assert HasText(words[i]);
    }
  }

  /** A Tencent segment's tokens are its words with text, at their offsets from the segment's start. */
  lemma {:induction false} TencentTokens(segments: seq<TencentSegment>, host: Host, i: nat) returns (places: seq<nat>)
    requires i < |segments|
    ensures |TencentSegments(segments, host)| == |segments|
    ensures var s, segment := segments[i], TencentSegments(segments, host)[i];
            && segment.speaker == s.speaker
            && AreTokensOf(segment.tokens, places, s.words, |s.words|, s.startMs, host)
  {
    places := TokensAtOffset(segments[i], host);
  }

  /** An Aliyun sentence's tokens are its words with text at their own times, or untimed pieces of its text. */
  lemma {:induction false} SentenceTokens(s: AliyunSentence, host: Host) returns (places: seq<nat>)
    ensures s.words != [] ==> AreTokensOf(AliyunTokens(s, host), places, s.words, |s.words|, 0, host)
    ensures s.words == [] ==>
              var pieces := if host.lang == "yue" then host.charTokens(s.text) else Words(s.text);
              && |AliyunTokens(s, host)| == |pieces|
              && forall k :: 0 <= k < |pieces| ==> AliyunTokens(s, host)[k] == Token(pieces[k], None, None)
  {
    places := TokensOfWords(s.words, host, |s.words|);
  }

  // ------------------------------------------------------- monologues and timed words

  /** Milliseconds in seconds, where known. */
  ghost predicate SameTime(seconds: Option<real>, ms: Option<int>) {
    if ms.None? then seconds.None? else seconds.Some? && seconds.value * 1000.0 == ms.value as real
  }

  ghost predicate IsElementOf(e: Element, t: Token) {
    e.value == t.value && SameTime(e.ts, t.startMs) && SameTime(e.endTs, t.endMs)
  }

  ghost predicate IsMonologueOf(m: Monologue, s: Segment) {
    && m.speaker == s.speaker
    && |m.elements| == |s.tokens|
    && forall k :: 0 <= k < |s.tokens| ==> IsElementOf(m.elements[k], s.tokens[k])
  }

  lemma {:induction false} SegmentGivesMonologue(s: Segment)
    ensures IsMonologueOf(Monologue(s.speaker, ElementsOf(s.tokens)), s)
  {
  }

  /** Monologue `k` is made of segment `places[k]`, one of the first `n` with tokens. */
  ghost predicate ComesFrom(ms: seq<Monologue>, places: seq<nat>, segments: seq<Segment>, n: nat, k: int)
    requires n <= |segments| && 0 <= k < |places| == |ms|
  {
    places[k] < n && segments[places[k]].tokens != [] && IsMonologueOf(ms[k], segments[places[k]])
  }

  /** `places` lists in order the segments with tokens among the first `n`, and these give the monologues. */
  ghost predicate AreMonologuesOf(ms: seq<Monologue>, places: seq<nat>, segments: seq<Segment>, n: nat) {
    && n <= |segments| && |places| == |ms|
    && StrictlyIncreasing(places)
    && (forall k :: 0 <= k < |places| ==> ComesFrom(ms, places, segments, n, k))
    && forall i :: 0 <= i < n && segments[i].tokens != [] ==> i in places
  }

  lemma {:induction false} OneMoreSegment(ms: seq<Monologue>, places: seq<nat>, segments: seq<Segment>, n: nat, m: nat,
                                          added: seq<Monologue>, place: seq<nat>)
    requires n < |segments| && m == n + 1 && AreMonologuesOf(ms, places, segments, n)
    requires if segments[n].tokens == [] then added == [] && place == []
             else |added| == 1 && place == [n] && IsMonologueOf(added[0], segments[n])
    ensures AreMonologuesOf(ms + added, places + place, segments, m)
  {
    var ms', places' := ms + added, places + place;
    forall k | 0 <= k < |places'| ensures ComesFrom(ms', places', segments, m, k) {
      if k < |places| {
        assert ComesFrom(ms, places, segments, n, k);
      }
    }
    forall j, k | 0 <= j < k < |places'| ensures places'[j] < places'[k] {
      assert ComesFrom(ms, places, segments, n, j);
    }
    assert forall i :: i in places || i in place ==> i in places';
  }

  /** The segments with tokens, in order, give the monologues, token by token. */
  lemma {:induction false} MonologuesOfSegments(segments: seq<Segment>, n: nat) returns (places: seq<nat>)
    requires n <= |segments|
    ensures AreMonologuesOf(MonologuesOf(segments, n), places, segments, n)
  {
    places := [];
    if n > 0 {
      var s := segments[n - 1];
      var before := MonologuesOfSegments(segments, n - 1);
      var place: seq<nat> := if s.tokens == [] then [] else [n - 1];
      SegmentGivesMonologue(s);
      OneMoreSegment(MonologuesOf(segments, n - 1), before, segments, n - 1, n,
                     if s.tokens == [] then [] else [Monologue(s.speaker, ElementsOf(s.tokens))], place);
      places := before + place;
    }
  }

  /** Both times are known and the end is later. */
  ghost predicate HasDuration(t: Token) {
    t.startMs.Some? && t.endMs.Some? && t.startMs.value < t.endMs.value
  }

  ghost predicate IsTimedWordAt(ts: seq<Token>, timed: seq<TimedWord>, places: seq<nat>, k: int)
    requires 0 <= k < |places| == |timed|
  {
    && places[k] < |ts| && HasDuration(ts[places[k]])
    && timed[k] == TimedWord(ts[places[k]].value, ts[places[k]].startMs.value, ts[places[k]].endMs.value)
  }

  /** `places` lists in order the tokens with a duration, and these give the timed words at their own milliseconds. */
  ghost predicate AreTimedWordsOf(ts: seq<Token>, timed: seq<TimedWord>, places: seq<nat>) {
    && |places| == |timed| && StrictlyIncreasing(places)
    && (forall k :: 0 <= k < |places| ==> IsTimedWordAt(ts, timed, places, k))
    && forall i :: 0 <= i < |ts| && HasDuration(ts[i]) ==> i in places
  }

  lemma {:induction false} OneMoreTimed(ts: seq<Token>, t: Token, timed: seq<TimedWord>, places: seq<nat>)
    requires AreTimedWordsOf(ts, timed, places)
    ensures !HasDuration(t) ==> AreTimedWordsOf(ts + [t], timed, places)
    ensures HasDuration(t) ==>
              AreTimedWordsOf(ts + [t], timed + [TimedWord(t.value, t.startMs.value, t.endMs.value)], places + [|ts|])
  {
    forall k | 0 <= k < |places| ensures IsTimedWordAt(ts + [t], timed, places, k) && places[k] < |ts| {
      assert IsTimedWordAt(ts, timed, places, k);
    }
    IncreasingSnoc(places, |ts|);
    if HasDuration(t) {
      var timed', places' := timed + [TimedWord(t.value, t.startMs.value, t.endMs.value)], places + [|ts|];
      forall k | 0 <= k < |places'| ensures IsTimedWordAt(ts + [t], timed', places', k) {
        assert k < |places| ==> IsTimedWordAt(ts, timed, places, k);
      }
      assert places'[|places|] == |ts| && forall i :: i in places ==> i in places';
    }
  }

  lemma {:induction false} TimedElement(t: Token)
    ensures IsTimed(ElementOf(t)) <==> HasDuration(t)
    ensures HasDuration(t) ==>
              Millis(ElementOf(t).ts.value) == t.startMs.value && Millis(ElementOf(t).endTs.value) == t.endMs.value
  {
  }

  lemma {:induction false} TimedOfSnoc(es: seq<Element>, e: Element, all: seq<Element>)
    requires all == es + [e]
    ensures TimedOf(all)
         == TimedOf(es) + if IsTimed(e) then [TimedWord(e.value, Millis(e.ts.value), Millis(e.endTs.value))] else []
  {
    assert all[..|all| - 1] == es && all[|all| - 1] == e;
  }

  lemma {:induction false} TimedSnoc(ts: seq<Token>, t: Token)
    ensures TimedOf(ElementsOf(ts + [t]))
         == TimedOf(ElementsOf(ts))
            + if HasDuration(t) then [TimedWord(t.value, t.startMs.value, t.endMs.value)] else []
  {
    assert ElementsOf(ts + [t]) == ElementsOf(ts) + [ElementOf(t)];
    TimedElement(t);
    TimedOfSnoc(ElementsOf(ts), ElementOf(t), ElementsOf(ts + [t]));
  }

  /** The tokens with a duration, in order, give a monologue's timed words, at the tokens' own milliseconds. */
  lemma {:induction false} TimedWordsOfTokens(ts: seq<Token>) returns (places: seq<nat>)
    ensures AreTimedWordsOf(ts, TimedOf(ElementsOf(ts)), places)
  {
    places := [];
    if ts != [] {
      var init, t := ts[..|ts| - 1], ts[|ts| - 1];
      var timed := TimedOf(ElementsOf(init));
      assert ts == init + [t];
      places := TimedWordsOfTokens(init);
      OneMoreTimed(init, t, timed, places);
      TimedSnoc(init, t);
      assert timed + [] == timed;
      if HasDuration(t) {
        places := places + [|init|];
      }
    }
  }
}
