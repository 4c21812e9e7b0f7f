/**
 Forced alignment in whole numbers: the millisecond a frame falls in, and the
 tokens of a word read off its characters.
 */
module AlignmentTimes {
  import opened Common
  import opened ForcedAlignment

  // ------------------------------------------------------------------ milliseconds

  /** `m` is the whole number of milliseconds in `n / d` seconds. */
  ghost predicate MillisIn(m: int, n: int, d: nat) {
    m * d <= 1000 * n < (m + 1) * d
  }

  lemma {:induction false} FloorIff(x: real, m: int)
    ensures x.Floor == m <==> m as real <= x < m as real + 1.0
  {
    assert x.Floor as real <= x < x.Floor as real + 1.0;
  }

  lemma {:induction false} ScaleUp(a: real, b: real, d: real)
    requires d > 0.0
    ensures a <= b <==> a * d <= b * d
  {
    if a <= b {
      assert (b - a) * d >= 0.0;
    } else {
      assert (a - b) * d > 0.0;
    }
  }

  lemma {:induction false} ScaledBound(x: real, m: int, d: nat, n: int)
    requires d > 0 && x * d as real == n as real
    ensures m as real <= x <==> m * d <= n
  {
    ScaleUp(m as real, x, d as real);
    assert m as real * d as real == (m * d) as real;
  }

  /** A quotient's floor in whole numbers. */
  lemma {:induction false} FloorOfQuotient(x: real, n: int, d: nat, m: int)
    requires d > 0 && x * d as real == (1000 * n) as real
    ensures x.Floor == m <==> MillisIn(m, n, d)
  {
    FloorIff(x, m);
    ScaledBound(x, m, d, 1000 * n);
    ScaledBound(x, m + 1, d, 1000 * n);
  }

  lemma {:induction false} SecondsTimes(samples: real, rate: nat)
    requires rate > 0
    ensures (samples / rate as real * 1000.0) * rate as real == 1000.0 * samples
  {
    var r := rate as real;
    var seconds := samples / r;
    assert seconds * r == samples;
    assert (seconds * 1000.0) * r == 1000.0 * (seconds * r);
  }

  lemma {:induction false} SampleTimes(frame: int, audio: nat, frames: nat)
    requires frames > 0
    ensures SampleAt(frame, audio, frames) * frames as real == (frame * audio) as real
  {
    var f, n := frame as real, frames as real;
    var ratio := audio as real / n;
    assert ratio * n == audio as real;
    assert (f * ratio) * n == f * (ratio * n);
    assert f * audio as real == (frame * audio) as real;
  }

  /** The audio's length in whole milliseconds. */
  lemma {:induction false} AudioMillisAre(audio: nat, rate: nat, m: int)
    requires rate > 0
    ensures AudioMillis(audio, rate) == m <==> MillisIn(m, audio, rate)
  {
    SecondsTimes(audio as real, rate);
    FloorOfQuotient(audio as real / rate as real * 1000.0, audio, rate, m);
  }

  /**
   Frame `frame` of `frames`, spread evenly over the samples, falls in that many
   whole milliseconds.
   */
  lemma {:induction false} FrameMillisAre(frame: int, audio: nat, frames: nat, rate: nat, m: int)
    requires frames > 0 && rate > 0
    ensures Millis(frame, audio, frames, rate) == m <==> MillisIn(m, frame * audio, frames * rate)
  {
    var samples, n, r := SampleAt(frame, audio, frames), frames as real, rate as real;
    var x := samples / r * 1000.0;
    SampleTimes(frame, audio, frames);
    SecondsTimes(samples, rate);
    assert x * (n * r) == (x * r) * n;
    assert (1000.0 * samples) * n == 1000.0 * (samples * n);
    assert n * r == (frames * rate) as real;
    assert frames * rate > 0;
    FloorOfQuotient(x, frame * audio, frames * rate, m);
  }

  lemma {:induction false} EndOfAudio(audio: nat, frames: nat, rate: nat)
    requires frames > 0 && rate > 0
    ensures Millis(0, audio, frames, rate) == 0
    ensures Millis(frames, audio, frames, rate) == AudioMillis(audio, rate)
  {
    SampleTimes(0, audio, frames);
    FrameMillisAre(0, audio, frames, rate, 0);
    assert frames * rate > 0;
    assert SampleAt(frames, audio, frames) == audio as real;
  }

  // -------------------------------------------------------------------------- tokens

  /** The dictionary's token of a character, or the wildcard when it has none, is not the blank. */
  predicate IsSpoken(c: char, dictionary: map<char, int>, wildcard: int) {
    if c in dictionary then dictionary[c] != 0 else wildcard != 0
  }

  /** Token `k` is that of the character at `places[k]`. */
  ghost predicate IsTokenAt(s: string, dictionary: map<char, int>, wildcard: int, tokens: seq<int>, places: seq<nat>,
                            k: int)
    requires 0 <= k < |places| == |tokens|
  {
    && places[k] < |s| && IsSpoken(s[places[k]], dictionary, wildcard)
    && tokens[k] == if s[places[k]] in dictionary then dictionary[s[places[k]]] else wildcard
  }

  /** The tokens are those of the characters at `places`, which lists in order all that are not blank. */
  ghost predicate AreTokensAt(s: string, dictionary: map<char, int>, wildcard: int, tokens: seq<int>,
                              places: seq<nat>) {
    && |places| == |tokens| && StrictlyIncreasing(places)
    && (forall k :: 0 <= k < |places| ==> IsTokenAt(s, dictionary, wildcard, tokens, places, k))
    && forall i :: 0 <= i < |s| && IsSpoken(s[i], dictionary, wildcard) ==> i in places
  }

  lemma {:induction false} OneMoreCharacter(s: string, c: char, dictionary: map<char, int>, wildcard: int,
                                            tokens: seq<int>, places: seq<nat>)
    requires AreTokensAt(s, dictionary, wildcard, tokens, places)
    ensures !IsSpoken(c, dictionary, wildcard) ==> AreTokensAt(s + [c], dictionary, wildcard, tokens, places)
    ensures IsSpoken(c, dictionary, wildcard) ==>
              AreTokensAt(s + [c], dictionary, wildcard,
                          tokens + [if c in dictionary then dictionary[c] else wildcard], places + [|s|])
  {
    forall k | 0 <= k < |places|
      ensures IsTokenAt(s + [c], dictionary, wildcard, tokens, places, k) && places[k] < |s|
    {
      assert IsTokenAt(s, dictionary, wildcard, tokens, places, k);
    }
    IncreasingSnoc(places, |s|);
    if IsSpoken(c, dictionary, wildcard) {
      var tokens', places' := tokens + [if c in dictionary then dictionary[c] else wildcard], places + [|s|];
      forall k | 0 <= k < |places'| ensures IsTokenAt(s + [c], dictionary, wildcard, tokens', places', k) {
        assert k < |places| ==> IsTokenAt(s, dictionary, wildcard, tokens, places, k);
      }
      assert places'[|places|] == |s| && forall i :: i in places ==> i in places';
    }
  }

  lemma {:induction false} CharTokensSnoc(init: string, c: char, s: string, dictionary: map<char, int>, wildcard: int)
    requires s == init + [c]
    ensures CharTokens(s, dictionary, wildcard)
         == CharTokens(init, dictionary, wildcard)
            + if IsSpoken(c, dictionary, wildcard) then [if c in dictionary then dictionary[c] else wildcard] else []
  {
    assert s[..|s| - 1] == init;
  }

  /** A word's tokens are those of its characters, in order, the blank ones left out. */
  lemma {:induction false} TokensOfCharacters(s: string, dictionary: map<char, int>, wildcard: int)
    returns (places: seq<nat>)
    ensures AreTokensAt(s, dictionary, wildcard, CharTokens(s, dictionary, wildcard), places)
  {
    places := [];
    if s != "" {
      var init, c := s[..|s| - 1], s[|s| - 1];
      var tokens := CharTokens(init, dictionary, wildcard);
      assert s == init + [c];
      places := TokensOfCharacters(init, dictionary, wildcard);
      OneMoreCharacter(init, c, dictionary, wildcard, tokens, places);
      CharTokensSnoc(init, c, s, dictionary, wildcard);
      assert tokens + [] == tokens;
      if IsSpoken(c, dictionary, wildcard) {
        places := places + [|init|];
      }
    }
  }

  /** A word is aligned by those tokens, or by the wildcard when it has none. */
  lemma {:induction false} TokensOfWord(lowered: string, dictionary: map<char, int>, wildcard: int)
    ensures WordTokens(lowered, dictionary, wildcard)
         == if exists i :: 0 <= i < |lowered| && IsSpoken(lowered[i], dictionary, wildcard)
            then CharTokens(lowered, dictionary, wildcard) else [wildcard]
  {
    CharTokensNotBlank(lowered, dictionary, wildcard);
  }
}
