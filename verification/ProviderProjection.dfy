/**
 Projection of three providers' results into monologues and timed words.
 Cantonese normalisation and tokenisation are parameters.
 */
module ProviderProjection {
  import opened Common
  import opened Strip
  import opened TagCleaner
  import S = StableSort

  // --------------------------------------------------------------------- the output shape

  /** Times in seconds, when known. */
  datatype Element = Element(ts: Option<real>, endTs: Option<real>, value: string)

  datatype Monologue = Monologue(speaker: nat, elements: seq<Element>)

  datatype TimedWord = TimedWord(word: string, startMs: int, endMs: int)

  datatype Projection = Projection(monologues: seq<Monologue>, timedWords: seq<TimedWord>)

  /** A token with its millisecond times, and one provider segment. */
  datatype Token = Token(value: string, startMs: Option<int>, endMs: Option<int>)

  datatype Segment = Segment(speaker: nat, tokens: seq<Token>)

  function Seconds(ms: Option<int>): Option<real> {
    if ms.Some? then Some(ms.value as real / 1000.0) else None
  }

  function ElementOf(t: Token): Element {
    Element(Seconds(t.startMs), Seconds(t.endMs), t.value)
  }

  function ElementsOf(ts: seq<Token>): seq<Element> {
    seq(|ts|, k requires 0 <= k < |ts| => ElementOf(ts[k]))
  }

  // -------------------------------------------------- timed words, read off the monologues

  function Millis(seconds: real): int {
    (seconds * 1000.0).Floor
  }

  /** Both times known and the end after the start. */
  predicate IsTimed(e: Element) {
    e.ts.Some? && e.endTs.Some? && e.endTs.value > e.ts.value
  }

  function TimedOf(es: seq<Element>): seq<TimedWord> {
    if es == [] then []
    else TimedOf(es[..|es| - 1])
         + (var e := es[|es| - 1];
            if IsTimed(e) then [TimedWord(e.value, Millis(e.ts.value), Millis(e.endTs.value))] else [])
  }

  function TimedIn(ms: seq<Monologue>): seq<TimedWord> {
    if ms == [] then [] else TimedIn(ms[..|ms| - 1]) + TimedOf(ms[|ms| - 1].elements)
  }

  function StartOf(w: TimedWord): int {
    w.startMs
  }

  /**
   The timed words are the stable sort by start time of exactly the elements,
   across all monologues in order, that have both times and a positive duration.
   */
  ghost predicate IsProjection(segments: seq<Segment>, p: Projection) {
    && p.monologues == MonologuesOf(segments, |segments|)
    && p.timedWords == S.Sort(TimedIn(p.monologues), StartOf)
  }

  /** One monologue per segment that has tokens, in order. */
  function MonologuesOf(segments: seq<Segment>, n: nat): (ms: seq<Monologue>)
    requires n <= |segments|
    ensures forall k :: 0 <= k < |ms| ==> ms[k].elements != []
  {
    if n == 0 then []
    else MonologuesOf(segments, n - 1)
         + (if segments[n - 1].tokens == [] then []
            else [Monologue(segments[n - 1].speaker, ElementsOf(segments[n - 1].tokens))])
  }

  /** The sorted words are ordered, keep the order of equal starts, and are exactly the timed elements. */
  lemma ProjectionIsStableSort(segments: seq<Segment>, p: Projection)
    requires IsProjection(segments, p)
    ensures S.SortedBy(p.timedWords, StartOf)
    ensures S.SameByKey(p.timedWords, TimedIn(p.monologues), StartOf)
    ensures multiset(p.timedWords) == multiset(TimedIn(p.monologues))
    ensures forall k :: 0 <= k < |p.monologues| ==> p.monologues[k].elements != []
  {
    S.SortIsStable(TimedIn(p.monologues), StartOf);
    S.SortBag(TimedIn(p.monologues), StartOf);
  }

  /** No other word list is ordered by start and keeps the order of equal starts. */
  lemma TimedWordsAreDetermined(segments: seq<Segment>, p: Projection, words: seq<TimedWord>)
    requires IsProjection(segments, p) && S.SortedBy(words, StartOf)
    requires S.SameByKey(words, TimedIn(p.monologues), StartOf)
    ensures words == p.timedWords
  {
    S.SortIsStable(TimedIn(p.monologues), StartOf);
    S.StableSortIsUnique(words, p.timedWords, StartOf);
  }

  // ------------------------------------------------------------- what the loops push

  /** Push one token's element, and its timed word if it has a positive duration. */
  method PushToken(elements: seq<Element>, timed: seq<TimedWord>, token: Token)
    returns (elements': seq<Element>, timed': seq<TimedWord>)
    requires timed == TimedOf(elements)
    ensures elements' == elements + [ElementOf(token)] && timed' == TimedOf(elements')
  {
    elements', timed' := elements + [Element(Seconds(token.startMs), Seconds(token.endMs), token.value)], timed;
    if token.startMs.Some? && token.endMs.Some? && token.endMs.value > token.startMs.value {
      timed' := timed' + [TimedWord(token.value, token.startMs.value, token.endMs.value)];
    }
  }

  /** The loop over the segments has taken in the first `i`. */
  ghost predicate Gathered(segments: seq<Segment>, i: nat, p: Projection)
    requires i <= |segments|
  {
    p.monologues == MonologuesOf(segments, i) && p.timedWords == TimedIn(p.monologues)
  }

  /** A segment becomes a monologue unless it has no elements; its timed words follow those before. */
  method PushSegment(ghost segments: seq<Segment>, ghost i: nat, p: Projection, speaker: nat,
                     elements: seq<Element>, timed: seq<TimedWord>)
    returns (p': Projection)
    requires i < |segments| && segments[i].speaker == speaker && elements == ElementsOf(segments[i].tokens)
    requires timed == TimedOf(elements)
    requires Gathered(segments, i, p)
    ensures Gathered(segments, i + 1, p')
  {
    if elements != [] {
      p' := Projection(p.monologues + [Monologue(speaker, elements)], p.timedWords + timed);
      assert p'.monologues[..|p.monologues|] == p.monologues;
    } else {
      p' := p;
    }
  }

  // --------------------------------------------------------------------- FunASR segments

  datatype Json = Number(value: real) | Array(items: seq<Json>) | OtherJson

  /** Rust's `round`: halves away from zero. */
  function Round(x: real): int {
    if x >= 0.0 then (x + 0.5).Floor else -((-x + 0.5).Floor)
  }

  function TimestampPair(j: Json): (Option<int>, Option<int>) {
    if j.Array? && |j.items| >= 2 && j.items[0].Number? && j.items[1].Number?
    then (Some(Round(j.items[0].value)), Some(Round(j.items[1].value)))
    else (None, None)
  }

  /** The language-dependent text functions. */
  datatype Host = Host(lang: string, charTokens: string -> seq<string>, normalize: string -> string)

  function Tokenize(text: string, host: Host): seq<string> {
    if host.lang == "yue" then host.charTokens(text) else Words(text)
  }

  datatype FunaudioSegment = FunaudioSegment(text: string, timestamp: seq<Json>)

  /** Token k carries timestamp k, where there is one. */
  function FunaudioTokens(s: FunaudioSegment, host: Host): (ts: seq<Token>)
  {
    var values := Tokenize(Cleaned(s.text), host);
    seq(|values|, k requires 0 <= k < |values| =>
      var (start, end) := if k < |s.timestamp| then TimestampPair(s.timestamp[k]) else (None, None);
      Token(values[k], start, end))
  }

  function FunaudioSegments(segments: seq<FunaudioSegment>, host: Host): seq<Segment> {
    seq(|segments|, i requires 0 <= i < |segments| => Segment(0, FunaudioTokens(segments[i], host)))
  }

  lemma ElementsSnoc(ts: seq<Token>, k: nat)
    requires k < |ts|
    ensures ElementsOf(ts[..k + 1]) == ElementsOf(ts[..k]) + [ElementOf(ts[k])]
  {
  }

  method FunaudioElements(segment: FunaudioSegment, host: Host) returns (elements: seq<Element>, timed: seq<TimedWord>)
    ensures elements == ElementsOf(FunaudioTokens(segment, host)) && timed == TimedOf(elements)
  {
    var cleaned := Clean(segment.text);
    var values := Tokenize(cleaned, host);
    ghost var tokens := FunaudioTokens(segment, host);
    elements, timed := [], [];
    for k := 0 to |values|
      invariant elements == ElementsOf(tokens[..k]) && timed == TimedOf(elements)
    {
      var (start, end) := if k < |segment.timestamp| then TimestampPair(segment.timestamp[k]) else (None, None);
      ElementsSnoc(tokens, k);
      elements, timed := PushToken(elements, timed, Token(values[k], start, end));
    }
    assert tokens[..|values|] == tokens;
  }

  method PushFunaudio(segments: seq<FunaudioSegment>, host: Host, i: nat, p: Projection) returns (p': Projection)
    requires i < |segments| && Gathered(FunaudioSegments(segments, host), i, p)
    ensures Gathered(FunaudioSegments(segments, host), i + 1, p')
  {
    var elements, timed := FunaudioElements(segments[i], host);
    p' := PushSegment(FunaudioSegments(segments, host), i, p, 0, elements, timed);
  }

  method ProjectFunaudio(segments: seq<FunaudioSegment>, host: Host) returns (p: Projection)
    ensures IsProjection(FunaudioSegments(segments, host), p)
  {
    p := Projection([], []);
    for i := 0 to |segments|
      invariant Gathered(FunaudioSegments(segments, host), i, p)
    {
      p := PushFunaudio(segments, host, i, p);
    }
    p := Projection(p.monologues, S.Sort(p.timedWords, StartOf));
  }

  // ------------------------------------------------------------ Tencent and Aliyun words

  function Trim(s: string): string {
    Stripped(s, IsSpace)
  }

  function NormalizeToken(token: string, host: Host): string {
    if host.lang == "yue" then host.normalize(token) else token
  }

  /** A provider word with absolute times. */
  datatype Word = Word(text: string, startMs: int, endMs: int)

  /** Words that are not just whitespace, normalised, with their times. */
  function WordTokens(words: seq<Word>, host: Host, n: nat): seq<Token>
    requires n <= |words|
  {
    if n == 0 then []
    else WordTokens(words, host, n - 1)
         + (if Trim(words[n - 1].text) == "" then []
            else [Token(NormalizeToken(Trim(words[n - 1].text), host),
                        Some(words[n - 1].startMs), Some(words[n - 1].endMs))])
  }

  method WordElements(words: seq<Word>, host: Host) returns (elements: seq<Element>, timed: seq<TimedWord>)
    ensures elements == ElementsOf(WordTokens(words, host, |words|)) && timed == TimedOf(elements)
  {
    elements, timed := [], [];
    for k := 0 to |words|
      invariant elements == ElementsOf(WordTokens(words, host, k)) && timed == TimedOf(elements)
    {
      var raw := Trim(words[k].text);
      if raw != "" {
        elements, timed := PushToken(elements, timed,
                                     Token(NormalizeToken(raw, host), Some(words[k].startMs), Some(words[k].endMs)));
      }
    }
  }

  datatype TencentSegment = TencentSegment(startMs: int, speaker: nat, words: seq<Word>)

  /** Word times are offsets from the segment start. */
  function Absolute(s: TencentSegment): seq<Word> {
    seq(|s.words|, k requires 0 <= k < |s.words| =>
      Word(s.words[k].text, s.startMs + s.words[k].startMs, s.startMs + s.words[k].endMs))
  }

  function TencentSegments(segments: seq<TencentSegment>, host: Host): seq<Segment> {
    seq(|segments|, i requires 0 <= i < |segments| =>
      Segment(segments[i].speaker, WordTokens(Absolute(segments[i]), host, |segments[i].words|)))
  }

  method PushTencent(segments: seq<TencentSegment>, host: Host, i: nat, p: Projection) returns (p': Projection)
    requires i < |segments| && Gathered(TencentSegments(segments, host), i, p)
    ensures Gathered(TencentSegments(segments, host), i + 1, p')
  {
    var elements, timed := WordElements(Absolute(segments[i]), host);
    p' := PushSegment(TencentSegments(segments, host), i, p, segments[i].speaker, elements, timed);
  }

  method ProjectTencent(segments: seq<TencentSegment>, host: Host) returns (p: Projection)
    ensures IsProjection(TencentSegments(segments, host), p)
  {
    p := Projection([], []);
    for i := 0 to |segments|
      invariant Gathered(TencentSegments(segments, host), i, p)
    {
      p := PushTencent(segments, host, i, p);
    }
    p := Projection(p.monologues, S.Sort(p.timedWords, StartOf));
  }

  datatype AliyunSentence = AliyunSentence(words: seq<Word>, text: string)

  /** Without word entries, untimed tokens of the sentence text. */
  function AliyunTokens(s: AliyunSentence, host: Host): seq<Token> {
    if s.words != [] then WordTokens(s.words, host, |s.words|)
    else
      var values := Tokenize(s.text, host);
      seq(|values|, k requires 0 <= k < |values| => Token(values[k], None, None))
  }

  function AliyunSegments(sentences: seq<AliyunSentence>, host: Host): seq<Segment> {
    seq(|sentences|, i requires 0 <= i < |sentences| => Segment(0, AliyunTokens(sentences[i], host)))
  }

  method AliyunElements(sentence: AliyunSentence, host: Host) returns (elements: seq<Element>, timed: seq<TimedWord>)
    ensures elements == ElementsOf(AliyunTokens(sentence, host)) && timed == TimedOf(elements)
  {
    if sentence.words != [] {
      elements, timed := WordElements(sentence.words, host);
    } else {
      var values := Tokenize(sentence.text, host);
      ghost var tokens := AliyunTokens(sentence, host);
      elements, timed := [], [];
      for k := 0 to |values|
        invariant elements == ElementsOf(tokens[..k]) && timed == TimedOf(elements)
      {
        ElementsSnoc(tokens, k);
        elements, timed := PushToken(elements, timed, Token(values[k], None, None));
      }
      assert tokens[..|values|] == tokens;
    }
  }

  method PushAliyun(sentences: seq<AliyunSentence>, host: Host, i: nat, p: Projection) returns (p': Projection)
    requires i < |sentences| && Gathered(AliyunSegments(sentences, host), i, p)
    ensures Gathered(AliyunSegments(sentences, host), i + 1, p')
  {
    var elements, timed := AliyunElements(sentences[i], host);
    p' := PushSegment(AliyunSegments(sentences, host), i, p, 0, elements, timed);
  }

  method ProjectAliyun(sentences: seq<AliyunSentence>, host: Host) returns (p: Projection)
    ensures IsProjection(AliyunSegments(sentences, host), p)
  {
    p := Projection([], []);
    for i := 0 to |sentences|
      invariant Gathered(AliyunSegments(sentences, host), i, p)
    {
      p := PushAliyun(sentences, host, i, p);
    }
    p := Projection(p.monologues, S.Sort(p.timedWords, StartOf));
  }
}
