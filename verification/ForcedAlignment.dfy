/**
 Forced alignment around the aligner: target tokens per word, spans back to
 words, frames to milliseconds, the host-side timing check, and token onsets
 from an alignment path. The acoustic model and the aligner are parameters with
 a stated contract; arithmetic is over the reals.
 */
module ForcedAlignment {
  import opened Common

  // ------------------------------------------------------------------ target tokens

  const BLANK := 0

  datatype FaError = MissingWildcard | AlignerRefused | InvalidHostOutput

  function TokenOf(c: char, dictionary: map<char, int>, wildcard: int): int {
    if c in dictionary then dictionary[c] else wildcard
  }

  /** Tokens of the characters, without blanks. */
  function CharTokens(s: string, dictionary: map<char, int>, wildcard: int): seq<int> {
    if s == "" then []
    else CharTokens(s[..|s| - 1], dictionary, wildcard)
         + var t := TokenOf(s[|s| - 1], dictionary, wildcard); if t == BLANK then [] else [t]
  }

  /** A word that would lose all its tokens is aligned as the wildcard. */
  function WordTokens(lowered: string, dictionary: map<char, int>, wildcard: int): (ts: seq<int>)
    ensures ts != []
  {
    var ts := CharTokens(lowered, dictionary, wildcard);
    if ts == [] then [wildcard] else ts
  }

  function Total(lengths: seq<nat>, n: nat): nat
    requires n <= |lengths|
  {
    if n == 0 then 0 else Total(lengths, n - 1) + lengths[n - 1]
  }

  function Flatten<T>(ls: seq<seq<T>>): seq<T> {
    if ls == [] then [] else Flatten(ls[..|ls| - 1]) + ls[|ls| - 1]
  }

  ghost function TokensPerWord(words: seq<string>, dictionary: map<char, int>, lower: string -> string,
                               wildcard: int): seq<seq<int>> {
    seq(|words|, i requires 0 <= i < |words| => WordTokens(lower(words[i]), dictionary, wildcard))
  }

  /** The tokens of all words in order, and how many each word has. */
  ghost predicate AreTargets(perWord: seq<seq<int>>, tokens: seq<int>, lengths: seq<nat>) {
    && tokens == Flatten(perWord)
    && |lengths| == |perWord|
    && forall i :: 0 <= i < |perWord| ==> lengths[i] == |perWord[i]|
  }

  method BuildTargetTokens(words: seq<string>, dictionary: map<char, int>, lower: string -> string)
    returns (r: Result<(seq<int>, seq<nat>), FaError>)
    ensures r.Err? <==> '*' !in dictionary
    ensures r.Ok? ==> AreTargets(TokensPerWord(words, dictionary, lower, dictionary['*']), r.value.0, r.value.1)
  {
    if '*' !in dictionary {
      return Err(MissingWildcard);
    }
    var wildcard := dictionary['*'];
    ghost var perWord := TokensPerWord(words, dictionary, lower, wildcard);
    var tokens: seq<int> := [];
    var lengths: seq<nat> := [];
    for i := 0 to |words|
      invariant tokens == Flatten(perWord[..i])
      invariant |lengths| == i && forall k :: 0 <= k < i ==> lengths[k] == |perWord[k]|
    {
      var lowered := lower(words[i]);
      var wordTokens: seq<int> := [];
      for j := 0 to |lowered|
        invariant wordTokens == CharTokens(lowered[..j], dictionary, wildcard)
      {
        assert lowered[..j + 1][..j] == lowered[..j];
        var token := TokenOf(lowered[j], dictionary, wildcard);
        if token != BLANK {
          wordTokens := wordTokens + [token];
        }
      }
      assert lowered[..|lowered|] == lowered;
      if wordTokens == [] {
        wordTokens := [wildcard];
      }
      assert perWord[..i + 1][..i] == perWord[..i];
      tokens := tokens + wordTokens;
      lengths := lengths + [|wordTokens|];
    }
    assert perWord[..|words|] == perWord;
    return Ok((tokens, lengths));
  }

  lemma {:induction false} CharTokensNotBlank(s: string, dictionary: map<char, int>, wildcard: int)
    ensures BLANK !in CharTokens(s, dictionary, wildcard)
    ensures CharTokens(s, dictionary, wildcard) == []
        <==> OnlyBlanks(s, dictionary, wildcard)
  {
    if s != "" {
      CharTokensNotBlank(s[..|s| - 1], dictionary, wildcard);
    }
  }

  lemma {:induction false} FlattenMembers<T>(ls: seq<seq<T>>, x: T)
    ensures x in Flatten(ls) <==> exists i :: 0 <= i < |ls| && x in ls[i]
  {
    if ls != [] {
      FlattenMembers(ls[..|ls| - 1], x);
    }
  }

  predicate OnlyBlanks(s: string, dictionary: map<char, int>, wildcard: int) {
    forall k :: 0 <= k < |s| ==> TokenOf(s[k], dictionary, wildcard) == BLANK
  }

  /** A target token is the blank exactly when the wildcard is, and some word has only blank characters. */
  lemma BlankTargetIff(words: seq<string>, dictionary: map<char, int>, lower: string -> string, wildcard: int)
    ensures BLANK in Flatten(TokensPerWord(words, dictionary, lower, wildcard))
        <==> wildcard == BLANK && exists i :: 0 <= i < |words| && OnlyBlanks(lower(words[i]), dictionary, wildcard)
  {
    var perWord := TokensPerWord(words, dictionary, lower, wildcard);
    FlattenMembers(perWord, BLANK);
    forall i | 0 <= i < |words|
      ensures BLANK in perWord[i] <==> wildcard == BLANK && OnlyBlanks(lower(words[i]), dictionary, wildcard)
    {
      CharTokensNotBlank(lower(words[i]), dictionary, wildcard);
    }
  }

  // ------------------------------------------------------------------- spans per word

  /** Python's `list[i:j]` for non-negative bounds. */
  function Cut<T>(list: seq<T>, i: nat, j: nat): seq<T>
    requires i <= j
  {
    list[Min(i, |list|)..Min(j, |list|)]
  }

  method Unflatten<T>(list: seq<T>, lengths: seq<nat>) returns (ret: seq<seq<T>>)
    ensures |ret| == |lengths|
    ensures forall k :: 0 <= k < |ret| ==> ret[k] == Cut(list, Total(lengths, k), Total(lengths, k + 1))
  {
    var i := 0;
    ret := [];
    for k := 0 to |lengths|
      invariant i == Total(lengths, k) && |ret| == k
      invariant forall m :: 0 <= m < k ==> ret[m] == Cut(list, Total(lengths, m), Total(lengths, m + 1))
    {
      ret := ret + [Cut(list, i, i + lengths[k])];
      i := i + lengths[k];
    }
  }

  lemma {:induction false} TotalIsMonotone(lengths: seq<nat>, i: nat, j: nat)
    requires i <= j <= |lengths|
    ensures Total(lengths, i) <= Total(lengths, j)
    decreases j
  {
    if i < j {
      TotalIsMonotone(lengths, i, j - 1);
    }
  }

  lemma {:induction false} FlattenCuts<T>(list: seq<T>, lengths: seq<nat>, ret: seq<seq<T>>, n: nat)
    requires n <= |lengths| == |ret| && Total(lengths, |lengths|) == |list|
    requires forall k :: 0 <= k < |ret| ==> ret[k] == Cut(list, Total(lengths, k), Total(lengths, k + 1))
    ensures Total(lengths, n) <= |list| && Flatten(ret[..n]) == list[..Total(lengths, n)]
    ensures forall k :: 0 <= k < n ==> |ret[k]| == lengths[k]
  {
    TotalIsMonotone(lengths, n, |lengths|);
    if n > 0 {
      FlattenCuts(list, lengths, ret, n - 1);
      var i, j := Total(lengths, n - 1), Total(lengths, n);
      assert ret[..n][..n - 1] == ret[..n - 1];
      assert ret[n - 1] == list[i..j];
      assert list[..j] == list[..i] + list[i..j];
    }
  }

  /**
   With one span per target token, unflattening loses nothing: every word gets its
   spans, and flattening them gives the list back.
   */
  lemma UnflattenRoundTrip<T>(list: seq<T>, lengths: seq<nat>, ret: seq<seq<T>>)
    requires |ret| == |lengths| && Total(lengths, |lengths|) == |list|
    requires forall k :: 0 <= k < |ret| ==> ret[k] == Cut(list, Total(lengths, k), Total(lengths, k + 1))
    ensures Flatten(ret) == list && forall k :: 0 <= k < |ret| ==> |ret[k]| == lengths[k]
  {
    FlattenCuts(list, lengths, ret, |ret|);
    assert ret[..|ret|] == ret && list[..|list|] == list;
  }

  lemma {:induction false} FlattenLength<T>(ls: seq<seq<T>>, lengths: seq<nat>, n: nat)
    requires n <= |ls| == |lengths| && forall k :: 0 <= k < |ls| ==> lengths[k] == |ls[k]|
    ensures |Flatten(ls[..n])| == Total(lengths, n)
  {
    if n > 0 {
      FlattenLength(ls, lengths, n - 1);
      assert ls[..n][..n - 1] == ls[..n - 1];
    }
  }

  // --------------------------------------------------------------- frames to milliseconds

  datatype Span = Span(start: int, end: int)

  /** What the aligner guarantees: nonempty spans in order, without overlap, within the emission. */
  ghost predicate OrderedSpans(spans: seq<Span>, frames: nat) {
    && (forall i :: 0 <= i < |spans| ==> 0 <= spans[i].start < spans[i].end <= frames)
    && forall i, j :: 0 <= i < j < |spans| ==> spans[i].end <= spans[j].start
  }

  /** One span per target token, whenever the aligner accepts the target. */
  ghost predicate Aligns(align: seq<int> -> Option<seq<Span>>, frames: nat) {
    forall tokens: seq<int> :: align(tokens).Some? ==>
      |align(tokens).value| == |tokens| && OrderedSpans(align(tokens).value, frames)
  }

  /** `frame * ratio`, the sample position of an emission frame. */
  function SampleAt(frame: int, audio: nat, frames: nat): real
    requires frames > 0
  {
    frame as real * (audio as real / frames as real)
  }

  /** `int((samples / rate) * 1000)` for non-negative positions. */
  function MillisOf(samples: real, rate: nat): int
    requires rate > 0
  {
    (samples / rate as real * 1000.0).Floor
  }

  function Millis(frame: int, audio: nat, frames: nat, rate: nat): int
    requires frames > 0 && rate > 0
  {
    MillisOf(SampleAt(frame, audio, frames), rate)
  }

  function AudioMillis(audio: nat, rate: nat): int
    requires rate > 0
  {
    MillisOf(audio as real, rate)
  }

  lemma SampleMonotone(f: int, g: int, audio: nat, frames: nat)
    requires frames > 0 && 0 <= f <= g <= frames
    ensures 0.0 <= SampleAt(f, audio, frames) <= SampleAt(g, audio, frames) <= audio as real
  {
  }

  lemma MillisMonotone(f: int, g: int, audio: nat, frames: nat, rate: nat)
    requires frames > 0 && rate > 0 && 0 <= f <= g <= frames
    ensures 0 <= Millis(f, audio, frames, rate) <= Millis(g, audio, frames, rate) <= AudioMillis(audio, rate)
  {
    SampleMonotone(f, g, audio, frames);
    MillisOfMonotone(0.0, SampleAt(f, audio, frames), rate);
    MillisOfMonotone(SampleAt(f, audio, frames), SampleAt(g, audio, frames), rate);
    MillisOfMonotone(SampleAt(g, audio, frames), audio as real, rate);
  }

  lemma MillisOfMonotone(x: real, y: real, rate: nat)
    requires x <= y && rate > 0
    ensures MillisOf(x, rate) <= MillisOf(y, rate)
    ensures x == 0.0 ==> MillisOf(x, rate) == 0
  {
    DivideMonotone(x, y, rate as real);
  }

  lemma DivideMonotone(x: real, y: real, d: real)
    requires x <= y && d > 0.0
    ensures x / d <= y / d
  {
  }

  type Timing = (string, (int, int))

  /** A word runs from the start of its first span to the end of its last. */
  function TimingOf(word: string, spans: seq<Span>, audio: nat, frames: nat, rate: nat): Timing
    requires frames > 0 && rate > 0 && spans != []
  {
    (word, (Millis(spans[0].start, audio, frames, rate), Millis(spans[|spans| - 1].end, audio, frames, rate)))
  }

  /** Each word ends no earlier than it starts, the next starts no earlier than that, and all lie within the audio. */
  ghost predicate OrderedTimings(r: seq<Timing>, audio: nat, rate: nat)
    requires rate > 0
  {
    && (forall k :: 0 <= k < |r| ==> 0 <= r[k].1.0 <= r[k].1.1 <= AudioMillis(audio, rate))
    && forall j, k :: 0 <= j < k < |r| ==> r[j].1.1 <= r[k].1.0
  }

  /** The numbers decode as unsigned, and the first `n` spans do not run backwards. */
  ghost predicate Acceptable(spans: seq<Timing>, n: nat) {
    && (forall i :: 0 <= i < |spans| ==> 0 <= spans[i].1.0 && 0 <= spans[i].1.1)
    && forall i :: 0 <= i < |spans| && i < n ==> spans[i].1.0 <= spans[i].1.1
  }

  /** Every word has spans, cut in order from the flat list. */
  ghost predicate CutIntoWords(spans: seq<Span>, lengths: seq<nat>, wordSpans: seq<seq<Span>>) {
    && |wordSpans| == |lengths| && Total(lengths, |lengths|) == |spans|
    && forall k :: 0 <= k < |lengths| ==>
         lengths[k] > 0 && wordSpans[k] == Cut(spans, Total(lengths, k), Total(lengths, k + 1))
  }

  /** First and last span of word `k` in the flat list. */
  lemma {:induction false} WordSpanBounds(spans: seq<Span>, lengths: seq<nat>, wordSpans: seq<seq<Span>>, k: nat)
    requires CutIntoWords(spans, lengths, wordSpans) && k < |lengths|
    ensures wordSpans[k] != []
    ensures Total(lengths, k) < Total(lengths, k + 1) <= |spans|
    ensures wordSpans[k][0] == spans[Total(lengths, k)]
    ensures wordSpans[k][|wordSpans[k]| - 1] == spans[Total(lengths, k + 1) - 1]
  {
    TotalIsMonotone(lengths, k + 1, |lengths|);
    var i, j := Total(lengths, k), Total(lengths, k + 1);
    assert j == i + lengths[k];
    assert wordSpans[k] == spans[i..j];
  }

  lemma {:induction false} WordTimingOrdered(spans: seq<Span>, lengths: seq<nat>, wordSpans: seq<seq<Span>>, k: nat,
                                             audio: nat, frames: nat, rate: nat)
    requires frames > 0 && rate > 0 && OrderedSpans(spans, frames)
    requires CutIntoWords(spans, lengths, wordSpans) && k < |lengths| && wordSpans[k] != []
    ensures 0 <= Millis(wordSpans[k][0].start, audio, frames, rate)
              <= Millis(wordSpans[k][|wordSpans[k]| - 1].end, audio, frames, rate) <= AudioMillis(audio, rate)
  {
    WordSpanBounds(spans, lengths, wordSpans, k);
    var first, last := Total(lengths, k), Total(lengths, k + 1) - 1;
    assert first < last ==> spans[first].end <= spans[last].start;
    MillisMonotone(spans[first].start, spans[last].end, audio, frames, rate);
  }

  lemma NextWordTimingOrdered(spans: seq<Span>, lengths: seq<nat>, wordSpans: seq<seq<Span>>, j: nat, k: nat,
                              audio: nat, frames: nat, rate: nat)
    requires frames > 0 && rate > 0 && OrderedSpans(spans, frames)
    requires CutIntoWords(spans, lengths, wordSpans) && j < k < |lengths| && wordSpans[j] != [] && wordSpans[k] != []
    ensures Millis(wordSpans[j][|wordSpans[j]| - 1].end, audio, frames, rate)
         <= Millis(wordSpans[k][0].start, audio, frames, rate)
  {
    WordSpanBounds(spans, lengths, wordSpans, j);
    WordSpanBounds(spans, lengths, wordSpans, k);
    TotalIsMonotone(lengths, j + 1, k);
    MillisMonotone(spans[Total(lengths, j + 1) - 1].end, spans[Total(lengths, k)].start, audio, frames, rate);
  }

  lemma TimingsAreOrdered(spans: seq<Span>, lengths: seq<nat>, wordSpans: seq<seq<Span>>, r: seq<Timing>,
                          audio: nat, frames: nat, rate: nat)
    requires frames > 0 && rate > 0 && OrderedSpans(spans, frames)
    requires CutIntoWords(spans, lengths, wordSpans) && |r| == |wordSpans|
    requires forall k :: 0 <= k < |wordSpans| ==> wordSpans[k] != []
    requires forall k :: 0 <= k < |r| ==>
               r[k].1 == (Millis(wordSpans[k][0].start, audio, frames, rate),
                          Millis(wordSpans[k][|wordSpans[k]| - 1].end, audio, frames, rate))
    ensures OrderedTimings(r, audio, rate) && Acceptable(r, |r|)
  {
    forall k | 0 <= k < |r| ensures 0 <= r[k].1.0 <= r[k].1.1 <= AudioMillis(audio, rate) {
      WordTimingOrdered(spans, lengths, wordSpans, k, audio, frames, rate);
    }
    forall j, k | 0 <= j < k < |r| ensures r[j].1.1 <= r[k].1.0 {
      NextWordTimingOrdered(spans, lengths, wordSpans, j, k, audio, frames, rate);
    }
  }

  /** Tokens of the first `k` words. */
  ghost function TokensBefore(perWord: seq<seq<int>>, k: nat): nat
    requires k <= |perWord|
  {
    |Flatten(perWord[..k])|
  }

  /** Word `k` is timed by the spans of its own tokens: those after the tokens of the words before it. */
  ghost predicate TimedByOwnTokens(word: string, perWord: seq<seq<int>>, spans: seq<Span>, k: nat, timing: Timing,
                                   audio: nat, frames: nat, rate: nat)
    requires frames > 0 && rate > 0 && k < |perWord|
  {
    var first, past := TokensBefore(perWord, k), TokensBefore(perWord, k + 1);
    && first < past <= |spans|
    && timing == (word,
      (Millis(spans[first].start, audio, frames, rate), Millis(spans[past - 1].end, audio, frames, rate)))
  }

  lemma {:induction false} OwnTokens(perWord: seq<seq<int>>, spans: seq<Span>, lengths: seq<nat>,
                                     wordSpans: seq<seq<Span>>, k: nat)
    requires |perWord| == |lengths| && k < |lengths|
    requires forall k :: 0 <= k < |perWord| ==> lengths[k] == |perWord[k]|
    requires CutIntoWords(spans, lengths, wordSpans)
    ensures wordSpans[k] != []
    ensures TokensBefore(perWord, k) < TokensBefore(perWord, k + 1) <= |spans|
    ensures wordSpans[k][0] == spans[TokensBefore(perWord, k)]
    ensures wordSpans[k][|wordSpans[k]| - 1] == spans[TokensBefore(perWord, k + 1) - 1]
  {
    FlattenLength(perWord, lengths, k);
    FlattenLength(perWord, lengths, k + 1);
    WordSpanBounds(spans, lengths, wordSpans, k);
  }

  /** Every word, in order, is timed by the aligner's spans for its own tokens. */
  ghost predicate AllTimed(words: seq<string>, perWord: seq<seq<int>>, align: seq<int> -> Option<seq<Span>>,
                           r: seq<Timing>, audio: nat, frames: nat, rate: nat)
    requires frames > 0 && rate > 0
  {
    && |r| == |words| == |perWord|
    && align(Flatten(perWord)).Some?
    && forall k :: 0 <= k < |words| ==>
         TimedByOwnTokens(words[k], perWord, align(Flatten(perWord)).value, k, r[k], audio, frames, rate)
  }

  /** Cut the spans into words and time each word by its own. */
  method TimeWords(words: seq<string>, ghost perWord: seq<seq<int>>, spans: seq<Span>, lengths: seq<nat>,
                   audio: nat, frames: nat, rate: nat) returns (r: seq<Timing>)
    requires frames > 0 && rate > 0 && OrderedSpans(spans, frames)
    requires |perWord| == |words| && AreTargets(perWord, Flatten(perWord), lengths) && |spans| == |Flatten(perWord)|
    requires forall k :: 0 <= k < |perWord| ==> perWord[k] != []
    ensures |r| == |words|
    ensures forall k :: 0 <= k < |words| ==> TimedByOwnTokens(words[k], perWord, spans, k, r[k], audio, frames, rate)
    ensures OrderedTimings(r, audio, rate) && Acceptable(r, |words|)
  {
    FlattenLength(perWord, lengths, |words|);
    assert perWord[..|words|] == perWord;
    var wordSpans: seq<seq<Span>> := Unflatten(spans, lengths);
    assert CutIntoWords(spans, lengths, wordSpans);
    forall k | 0 <= k < |words|
      ensures wordSpans[k] != []
      ensures TimedByOwnTokens(words[k], perWord, spans, k, TimingOf(words[k], wordSpans[k], audio, frames, rate),
          audio, frames, rate)
    {
      OwnTokens(perWord, spans, lengths, wordSpans, k);
    }
    r := seq(|words|, k requires 0 <= k < |words| && wordSpans[k] != [] =>
      TimingOf(words[k], wordSpans[k], audio, frames, rate));
    TimingsAreOrdered(spans, lengths, wordSpans, r, audio, frames, rate);
  }

  /** Forced alignment of one chunk, given the aligner, which may refuse a target. */
  method InferTimings(words: seq<string>, dictionary: map<char, int>, lower: string -> string,
                      align: seq<int> -> Option<seq<Span>>, audio: nat, frames: nat, rate: nat)
    returns (r: Result<seq<Timing>, FaError>)
    requires frames > 0 && rate > 0 && Aligns(align, frames)
    ensures r.Err?
        <==> '*' !in dictionary || align(Flatten(TokensPerWord(words, dictionary, lower, dictionary['*']))).None?
    ensures r.Ok? ==>
        AllTimed(words, TokensPerWord(words, dictionary, lower, dictionary['*']), align, r.value, audio, frames, rate)
    ensures r.Ok? ==> OrderedTimings(r.value, audio, rate) && Acceptable(r.value, |words|)
  {
    var built := BuildTargetTokens(words, dictionary, lower);
    if built.Err? {
      return Err(built.error);
    }
    var (tokens, lengths) := built.value;
    var aligned := align(tokens);
    if aligned.None? {
      return Err(AlignerRefused);
    }
    var timings := TimeWords(words, TokensPerWord(words, dictionary, lower, dictionary['*']), aligned.value, lengths,
                             audio, frames, rate);
    return Ok(timings);
  }

  // ------------------------------------------------------------- the consumer's check

  method ParseIndexedTimings(spans: seq<Timing>, expectedWords: nat)
    returns (r: Result<seq<Option<(int, int)>>, FaError>)
    ensures r.Ok? <==> Acceptable(spans, expectedWords)
    ensures r.Ok? ==> |r.value| == expectedWords
                      && forall i :: 0 <= i < expectedWords ==>
                        r.value[i] == if i < |spans| then Some(spans[i].1) else None
  {
    if exists i :: 0 <= i < |spans| && (spans[i].1.0 < 0 || spans[i].1.1 < 0) {
      return Err(InvalidHostOutput);
    }
    var timings: seq<Option<(int, int)>> := seq(expectedWords, _ => None);
    for i := 0 to Min(|spans|, expectedWords)
      invariant |timings| == expectedWords
      invariant forall k :: 0 <= k < i ==> spans[k].1.0 <= spans[k].1.1
      invariant forall k :: 0 <= k < expectedWords ==> timings[k] == if k < i then Some(spans[k].1) else None
    {
      if spans[i].1.1 < spans[i].1.0 {
        return Err(InvalidHostOutput);
      }
      timings := timings[i := Some(spans[i].1)];
    }
    return Ok(timings);
  }

  // ---------------------------------------------------------------- onsets from a path

  /** Positions at which the token index differs from the one before, counting the first. */
  function Jumps(textIdx: seq<int>, n: nat): seq<nat>
    requires n <= |textIdx|
  {
    if n == 0 then []
    else Jumps(textIdx, n - 1) + (if n == 1 || textIdx[n - 1] != textIdx[n - 2] then [n - 1] else [])
  }

  /** `time_idx[jumps] * 0.02`. */
  function Onsets(textIdx: seq<int>, timeIdx: seq<int>): seq<real>
    requires |textIdx| == |timeIdx| > 0
  {
    JumpsInRange(textIdx, |textIdx|);
    var js := Jumps(textIdx, |textIdx|);
    seq(|js|, k requires 0 <= k < |js| => timeIdx[js[k]] as real * 0.02)
  }

  lemma {:induction false} JumpsInRange(textIdx: seq<int>, n: nat)
    requires n <= |textIdx|
    ensures forall k :: 0 <= k < |Jumps(textIdx, n)| ==> Jumps(textIdx, n)[k] < n
    ensures forall j, k :: 0 <= j < k < |Jumps(textIdx, n)| ==> Jumps(textIdx, n)[j] < Jumps(textIdx, n)[k]
  {
    if n > 0 {
      JumpsInRange(textIdx, n - 1);
    }
  }

  /** A path through tokens 0 to `count - 1` in unit steps. */
  ghost predicate CoversTokens(textIdx: seq<int>, count: nat) {
    && textIdx != [] && textIdx[0] == 0 && textIdx[|textIdx| - 1] == count - 1
    && forall i :: 0 < i < |textIdx| ==> textIdx[i] == textIdx[i - 1] || textIdx[i] == textIdx[i - 1] + 1
  }

  ghost predicate IsFirstFrame(textIdx: seq<int>, i: int, k: int) {
    0 <= i < |textIdx| && textIdx[i] == k && forall j :: 0 <= j < i ==> textIdx[j] != k
  }

  lemma {:induction false} JumpsAreFirstFrames(textIdx: seq<int>, n: nat)
    requires 0 < n <= |textIdx| && textIdx[0] == 0
    requires forall i :: 0 < i < |textIdx| ==> textIdx[i] == textIdx[i - 1] || textIdx[i] == textIdx[i - 1] + 1
    ensures |Jumps(textIdx, n)| == textIdx[n - 1] + 1
    ensures forall k :: 0 <= k < |Jumps(textIdx, n)| ==> IsFirstFrame(textIdx, Jumps(textIdx, n)[k], k)
    ensures forall i :: 0 <= i < n ==> 0 <= textIdx[i] <= textIdx[n - 1]
  {
    if n > 1 {
      JumpsAreFirstFrames(textIdx, n - 1);
    }
  }

  ghost predicate OneOnsetEach(textIdx: seq<int>, timeIdx: seq<int>, jumps: seq<nat>, onsets: seq<real>, count: nat) {
    && |onsets| == |jumps| == count
    && (forall k :: 0 <= k < count ==> jumps[k] < |timeIdx| && IsFirstFrame(textIdx, jumps[k], k)
                                       && onsets[k] == timeIdx[jumps[k]] as real * 0.02)
    && forall j, k :: 0 <= j < k < count ==> onsets[j] <= onsets[k]
  }

  /** There are as many onsets as tokens, the k-th at the first frame of token k, and they never go back in time. */
  lemma OneOnsetPerToken(textIdx: seq<int>, timeIdx: seq<int>, count: nat)
    requires |textIdx| == |timeIdx| && CoversTokens(textIdx, count)
    requires forall i, j :: 0 <= i < j < |timeIdx| ==> timeIdx[i] <= timeIdx[j]
    ensures OneOnsetEach(textIdx, timeIdx, Jumps(textIdx, |textIdx|), Onsets(textIdx, timeIdx), count)
  {
    JumpsAreFirstFrames(textIdx, |textIdx|);
    JumpsInRange(textIdx, |textIdx|);
    var js := Jumps(textIdx, |textIdx|);
    forall j, k | 0 <= j < k < count ensures Onsets(textIdx, timeIdx)[j] <= Onsets(textIdx, timeIdx)[k] {
      assert timeIdx[js[j]] <= timeIdx[js[k]];
    }
  }
}
