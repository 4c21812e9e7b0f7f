/**
 The lazy audio container: chunk reads through a bounded first-in-first-out
 cache with a full-load fallback, against plain slicing of the mono waveform.
 */
module AudioFile {
  import opened Common

  // --------------------------------------------------------------- frames and time

  /** Python's `round`: nearest integer, ties to even. */
  function RoundHalfEven(x: real): int {
    var d := x - x.Floor as real;
    if d < 0.5 || (d == 0.5 && x.Floor % 2 == 0) then x.Floor else x.Floor + 1
  }

  function FrameAt(ms: real, rate: nat): int {
    RoundHalfEven(ms / 1000.0 * rate as real)
  }

  lemma RoundIsMonotone(x: real, y: real)
    requires x <= y
    ensures RoundHalfEven(x) <= RoundHalfEven(y)
  {
    assert x.Floor <= y.Floor;
  }

  lemma FrameAtIsMonotone(a: real, b: real, rate: nat)
    requires a <= b
    ensures FrameAt(a, rate) <= FrameAt(b, rate)
    ensures a >= 0.0 ==> FrameAt(a, rate) >= 0
  {
    assert a / 1000.0 * rate as real <= b / 1000.0 * rate as real;
    RoundIsMonotone(a / 1000.0 * rate as real, b / 1000.0 * rate as real);
    if a >= 0.0 {
      assert a / 1000.0 * rate as real >= 0.0;
    }
  }

  // --------------------------------------------------------------- the sound file

  /** One sample per channel. */
  type Frame = f: seq<real> | f != [] witness [0.0]

  function Sum(f: seq<real>): real {
    if f == [] then 0.0 else Sum(f[..|f| - 1]) + f[|f| - 1]
  }

  function Mean(f: Frame): real {
    Sum(f) / |f| as real
  }

  function Mono(frames: seq<Frame>): seq<real> {
    seq(|frames|, i requires 0 <= i < |frames| => Mean(frames[i]))
  }

  /** `load_audio`: offsets below 0 read from 0, counts that are not positive read to the end. */
  function LoadAudio(frames: seq<Frame>, frameOffset: int, numFrames: int): seq<Frame> {
    var start := Max(frameOffset, 0);
    if start >= |frames| then []
    else if numFrames > 0 then frames[start..Min(start + numFrames, |frames|)]
    else frames[start..]
  }

  function ReadFrames(frames: seq<Frame>, frameOffset: int, numFrames: int): seq<real> {
    Mono(if numFrames < 0 then LoadAudio(frames, 0, -1) else LoadAudio(frames, frameOffset, numFrames))
  }

  /** A Python slice bound on a sequence of length `n`. */
  function Bound(i: int, n: nat): nat {
    if i < 0 then Max(i + n, 0) else Min(i, n)
  }

  /** `t[b:e]`. */
  function Slice(t: seq<real>, b: int, e: int): seq<real> {
    if Bound(b, |t|) <= Bound(e, |t|) then t[Bound(b, |t|)..Bound(e, |t|)] else []
  }

  /** What the eager container returns. */
  function EagerChunk(mono: seq<real>, rate: nat, beginMs: real, endMs: real): seq<real> {
    if FrameAt(endMs, rate) <= FrameAt(beginMs, rate) then []
    else Slice(mono, FrameAt(beginMs, rate), FrameAt(endMs, rate))
  }

  /** Reading a chunk and averaging its channels is slicing the averaged whole. */
  lemma {:induction false} MonoOfSlice(frames: seq<Frame>, i: nat, j: nat)
    requires i <= j <= |frames|
    ensures Mono(frames[i..j]) == Mono(frames)[i..j]
  {
    forall k | 0 <= k < j - i ensures Mono(frames[i..j])[k] == Mono(frames)[i..j][k] {
      assert frames[i..j][k] == frames[i + k];
    }
  }

  lemma {:induction false} ReadIsSlice(frames: seq<Frame>, b: int, e: int)
    requires 0 <= b < e
    ensures ReadFrames(frames, b, e - b) == Slice(Mono(frames), b, e)
  {
    if b < |frames| {
      MonoOfSlice(frames, b, Min(e, |frames|));
    }
  }

  lemma {:induction false} ReadAllIsMono(frames: seq<Frame>)
    ensures ReadFrames(frames, 0, -1) == Mono(frames)
  {
    assert frames[0..] == frames;
  }

  /** Adjacent chunks tile. */
  lemma ChunksTile(mono: seq<real>, rate: nat, a: real, b: real, c: real)
    requires 0.0 <= a <= b <= c
    ensures EagerChunk(mono, rate, a, b) + EagerChunk(mono, rate, b, c) == EagerChunk(mono, rate, a, c)
  {
    FrameAtIsMonotone(a, b, rate);
    FrameAtIsMonotone(b, c, rate);
  }

  /** One-channel frames numbered from 0, so that every sample is different. */
  function Numbered(n: nat): (frames: seq<Frame>)
    ensures |frames| == n && forall i :: 0 <= i < n ==> Mono(frames)[i] == i as real
  {
    var frames: seq<Frame> := seq(n, i => [i as real]);
    assert forall i :: 0 <= i < n ==> Sum(frames[i]) == Sum(frames[i][..0]) + i as real;
    frames
  }

  /** The cases in which a read from below 0 and a slice from the end pick the same positions. */
  predicate BelowZeroAgrees(n: nat, b: int, e: int) {
    n == 0 || (b + n <= 0 && n <= e) || (b + n == 0 && e < 0)
  }

  /**
   A begin frame below 0 separates the two modes: the loader reads from 0 where a
   slice counts from the end. They agree on every waveform of length `n` exactly
   in the cases listed.
   */
  lemma NegativeBeginAgreement(n: nat, b: int, e: int)
    requires b < 0 && b < e
    ensures (forall frames: seq<Frame> :: |frames| == n ==> ReadFrames(frames, b, e - b) == Slice(Mono(frames), b, e))
        <==> BelowZeroAgrees(n, b, e)
  {
    if !BelowZeroAgrees(n, b, e) {
      var frames := Numbered(n);
      var read, cut := Mono(frames)[..Min(e - b, n)], Slice(Mono(frames), b, e);
      assert read[0] == 0.0;
      assert cut != [] ==> cut[0] == Bound(b, n) as real;
      assert read != cut;
    }
  }

  // --------------------------------------------------------------- state and steps

  type Key = (int, int)

  datatype AudioState = AudioState(tensor: seq<real>, lazy: bool, cache: map<Key, seq<real>>, order: seq<Key>)

  datatype LoadError = FullLoadFailed

  /** One call, with the outcomes the loader will have if it is asked. */
  datatype Call =
    | Chunk(beginMs: real, endMs: real, readOk: bool, fullOk: bool)
    | All(fullOk: bool)

  function Remember(s: AudioState, limit: int, key: Key, data: seq<real>): AudioState {
    var order := s.order + [key];
    if |order| > limit
    then s.(cache := s.cache[key := data] - {order[0]}, order := order[1..])
    else s.(cache := s.cache[key := data], order := order)
  }

  /** Read one chunk, or on failure slice the whole, loading it first if it is not there. */
  function Fetch(s: AudioState, frames: seq<Frame>, key: Key, readOk: bool, fullOk: bool)
    : (AudioState, Option<seq<real>>)
  {
    if readOk then (s, Some(ReadFrames(frames, key.0, key.1 - key.0)))
    else if s.tensor != [] then (s, Some(Slice(s.tensor, key.0, key.1)))
    else if fullOk then
      var whole := ReadFrames(frames, 0, -1);
      (s.(tensor := whole, lazy := false), Some(Slice(whole, key.0, key.1)))
    else (s, None)
  }

  function ChunkStep(s: AudioState, frames: seq<Frame>, limit: int, key: Key, readOk: bool, fullOk: bool)
    : (AudioState, Result<seq<real>, LoadError>)
  {
    if key.1 <= key.0 then (s, Ok([]))
    else if !s.lazy then (s, Ok(Slice(s.tensor, key.0, key.1)))
    else if key in s.cache then (s, Ok(s.cache[key]))
    else
      var (fetched, data) := Fetch(s, frames, key, readOk, fullOk);
      if data.None? then (fetched, Err(FullLoadFailed))
      else (Remember(fetched, limit, key, data.value), Ok(data.value))
  }

  function AllStep(s: AudioState, frames: seq<Frame>, fullOk: bool): (AudioState, seq<real>) {
    if !s.lazy || s.tensor != [] then (s, s.tensor)
    else if fullOk then (s.(tensor := ReadFrames(frames, 0, -1), lazy := false), ReadFrames(frames, 0, -1))
    else (s, [])
  }

  // --------------------------------------------------------------- the invariant

  /** The cache map and the order list hold the same keys without repeats, at most the limit. */
  ghost predicate CacheShape(s: AudioState, limit: int) {
    && Distinct(s.order)
    && (forall k :: k in s.order <==> k in s.cache)
    && |s.order| <= Max(limit, 0)
  }

  /** Every cached value is the slice its key names. */
  ghost predicate CacheTrue(s: AudioState, frames: seq<Frame>) {
    forall k :: k in s.cache ==> k.0 < k.1 && (k.0 >= 0 ==> s.cache[k] == Slice(Mono(frames), k.0, k.1))
  }

  /** Tensor and cache tell the truth about the recording, and the cache is within its limit. */
  ghost predicate Consistent(s: AudioState, frames: seq<Frame>, limit: int) {
    s.tensor == (if s.lazy then [] else Mono(frames)) && CacheShape(s, limit) && CacheTrue(s, frames)
  }

  lemma {:induction false} RememberKeepsShape(s: AudioState, limit: int, key: Key, data: seq<real>)
    requires CacheShape(s, limit) && key !in s.cache
    ensures CacheShape(Remember(s, limit, key, data), limit)
  {
    var order, s' := s.order + [key], Remember(s, limit, key, data);
    assert key !in s.order;
    forall k ensures k in s'.order <==> k in s'.cache {
      assert k in order <==> k in s.cache[key := data];
    }
  }

  lemma {:induction false} RememberKeepsConsistent(s: AudioState, frames: seq<Frame>, limit: int, key: Key,
                                                   data: seq<real>)
    requires Consistent(s, frames, limit) && key !in s.cache && key.0 < key.1
    requires key.0 >= 0 ==> data == Slice(Mono(frames), key.0, key.1)
    ensures Consistent(Remember(s, limit, key, data), frames, limit)
  {
    RememberKeepsShape(s, limit, key, data);
  }

  lemma {:induction false} FetchAgrees(s: AudioState, frames: seq<Frame>, key: Key, readOk: bool, fullOk: bool)
    requires s.lazy && s.tensor == [] && key.0 < key.1
    ensures var (f, data) := Fetch(s, frames, key, readOk, fullOk);
            && f.cache == s.cache && f.order == s.order
            && f.tensor == (if f.lazy then [] else Mono(frames))
            && (data.None? <==> !readOk && !fullOk)
            && (data.None? ==> f == s)
            && (data.Some? && key.0 >= 0 ==> data.value == Slice(Mono(frames), key.0, key.1))
  {
    if key.0 >= 0 {
      ReadIsSlice(frames, key.0, key.1);
    }
    ReadAllIsMono(frames);
  }

  lemma {:induction false} ChunkStepAgrees(s: AudioState, frames: seq<Frame>, limit: int, key: Key, readOk: bool,
                                           fullOk: bool)
    requires Consistent(s, frames, limit)
    ensures Consistent(ChunkStep(s, frames, limit, key, readOk, fullOk).0, frames, limit)
    ensures ChunkAnswers(s, frames, limit, key, readOk, fullOk)
  {
    if key.0 < key.1 && s.lazy && key !in s.cache {
      FetchAgrees(s, frames, key, readOk, fullOk);
      var (f, data) := Fetch(s, frames, key, readOk, fullOk);
      assert Consistent(f, frames, limit);
      if data.Some? {
        RememberKeepsConsistent(f, frames, limit, key, data.value);
      }
    }
  }

  ghost predicate ChunkAnswers(s: AudioState, frames: seq<Frame>, limit: int, key: Key, readOk: bool, fullOk: bool) {
    var (s', r) := ChunkStep(s, frames, limit, key, readOk, fullOk);
    && (r.Err? ==> s.lazy && !readOk && !fullOk && s' == s)
    && (r.Ok? && key.0 >= 0 ==> r.value == if key.1 <= key.0 then [] else Slice(Mono(frames), key.0, key.1))
  }

  /** Every call keeps the container consistent and answers as the eager container would. */
  lemma StepAgrees(s: AudioState, frames: seq<Frame>, limit: int, rate: nat, call: Call)
    requires Consistent(s, frames, limit)
    ensures Consistent(Step(s, frames, limit, rate, call).0, frames, limit)
    ensures Answers(s, frames, rate, call, Step(s, frames, limit, rate, call).1)
  {
    if call.Chunk? {
      ChunkStepAgrees(s, frames, limit, KeyOf(call, rate), call.readOk, call.fullOk);
      if call.beginMs >= 0.0 {
        FrameAtIsMonotone(call.beginMs, call.beginMs, rate);
      }
    } else {
      ReadAllIsMono(frames);
    }
  }

  lemma {:induction false} MissStep(s: AudioState, frames: seq<Frame>, limit: int, key: Key, readOk: bool, fullOk: bool)
    requires Consistent(s, frames, limit) && s.lazy && key.0 < key.1 && key !in s.cache
    ensures ChunkStep(s, frames, limit, key, readOk, fullOk)
         == if !readOk && !fullOk then (s, Err(FullLoadFailed))
            else
              var data := if readOk then ReadFrames(frames, key.0, key.1 - key.0)
                          else Slice(Mono(frames), key.0, key.1);
              (Remember(s.(tensor := if readOk then [] else Mono(frames), lazy := readOk), limit, key, data), Ok(data))
  {
    ReadAllIsMono(frames);
  }

  lemma {:induction false} ReadAgrees(s: AudioState, frames: seq<Frame>, limit: int, rate: nat, call: Call)
    requires Consistent(s, frames, limit) && call.Chunk?
    ensures Consistent(Step(s, frames, limit, rate, call).0, frames, limit)
    ensures Answers(s, frames, rate, call, Step(s, frames, limit, rate, call).1)
    ensures Step(s, frames, limit, rate, call).1.Err? ==> Step(s, frames, limit, rate, call).0 == s
  {
    StepAgrees(s, frames, limit, rate, call);
    ChunkStepAgrees(s, frames, limit, KeyOf(call, rate), call.readOk, call.fullOk);
  }

  function Step(s: AudioState, frames: seq<Frame>, limit: int, rate: nat, call: Call)
    : (AudioState, Result<seq<real>, LoadError>)
  {
    match call
    case Chunk(beginMs, endMs, readOk, fullOk) =>
      ChunkStep(s, frames, limit, (FrameAt(beginMs, rate), FrameAt(endMs, rate)), readOk, fullOk)
    case All(fullOk) =>
      (AllStep(s, frames, fullOk).0, Ok(AllStep(s, frames, fullOk).1))
  }

  /**
   A chunk from time 0 on is the eager slice, and fails only when lazy with both
   reads failing; the whole is the whole waveform, or empty when lazy and the
   load fails.
   */
  ghost predicate Answers(s: AudioState, frames: seq<Frame>, rate: nat, call: Call, r: Result<seq<real>, LoadError>) {
    match call
    case Chunk(beginMs, endMs, readOk, fullOk) =>
      && (r.Err? ==> s.lazy && !readOk && !fullOk)
      && (r.Ok? && beginMs >= 0.0 ==> r.value == EagerChunk(Mono(frames), rate, beginMs, endMs))
    case All(fullOk) =>
      r == Ok(if s.lazy && !fullOk then [] else Mono(frames))
  }

  // --------------------------------------------------------------------- whole runs

  const FRESH_LAZY := AudioState([], true, map[], [])

  /** The state after the first `n` calls of a run. */
  function After(frames: seq<Frame>, limit: int, rate: nat, calls: seq<Call>, n: nat): AudioState
    requires n <= |calls|
  {
    if n == 0 then FRESH_LAZY else Step(After(frames, limit, rate, calls, n - 1), frames, limit, rate, calls[n - 1]).0
  }

  function Output(frames: seq<Frame>, limit: int, rate: nat, calls: seq<Call>, n: nat): Result<seq<real>, LoadError>
    requires n < |calls|
  {
    Step(After(frames, limit, rate, calls, n), frames, limit, rate, calls[n]).1
  }

  lemma {:induction false} RunsStayConsistent(frames: seq<Frame>, limit: int, rate: nat, calls: seq<Call>, n: nat)
    requires n <= |calls|
    ensures Consistent(After(frames, limit, rate, calls, n), frames, limit)
  {
    if n > 0 {
      RunsStayConsistent(frames, limit, rate, calls, n - 1);
      StepAgrees(After(frames, limit, rate, calls, n - 1), frames, limit, rate, calls[n - 1]);
    }
  }

  /** On every run in which full loads succeed, every call answers as the eager container does. */
  lemma LazyRunsMatchEager(frames: seq<Frame>, limit: int, rate: nat, calls: seq<Call>, n: nat)
    requires n < |calls| && calls[n].fullOk
    ensures calls[n].Chunk? && calls[n].beginMs >= 0.0 ==>
              Output(frames, limit, rate, calls, n)
                == Ok(EagerChunk(Mono(frames), rate, calls[n].beginMs, calls[n].endMs))
    ensures calls[n].All? ==> Output(frames, limit, rate, calls, n) == Ok(Mono(frames))
  {
    RunsStayConsistent(frames, limit, rate, calls, n);
    StepAgrees(After(frames, limit, rate, calls, n), frames, limit, rate, calls[n]);
  }

  // ----------------------------------------------------------- eviction by insertion

  function KeyOf(call: Call, rate: nat): Key
    requires call.Chunk?
  {
    (FrameAt(call.beginMs, rate), FrameAt(call.endMs, rate))
  }

  /** Did this call put its key into the cache? */
  predicate Inserts(s: AudioState, rate: nat, call: Call) {
    && call.Chunk?
    && KeyOf(call, rate).0 < KeyOf(call, rate).1
    && s.lazy
    && KeyOf(call, rate) !in s.cache
    && (call.readOk || call.fullOk)
  }

  /** The keys inserted by the first `n` calls, oldest first. */
  function Inserted(frames: seq<Frame>, limit: int, rate: nat, calls: seq<Call>, n: nat): seq<Key>
    requires n <= |calls|
  {
    if n == 0 then []
    else Inserted(frames, limit, rate, calls, n - 1)
         + if Inserts(After(frames, limit, rate, calls, n - 1), rate, calls[n - 1])
           then [KeyOf(calls[n - 1], rate)] else []
  }

  /** The last `limit` elements. */
  function LastOf(keys: seq<Key>, limit: int): seq<Key> {
    keys[|keys| - Min(|keys|, Max(limit, 0))..]
  }

  lemma {:induction false} OrderAfterRemember(s: AudioState, limit: int, key: Key, data: seq<real>)
    requires |s.order| <= Max(limit, 0)
    ensures Remember(s, limit, key, data).order == LastOf(s.order + [key], limit)
  {
    var order := s.order + [key];
    if |order| <= limit {
      assert order[0..] == order;
    }
  }

  lemma {:induction false} RememberedValue(s: AudioState, limit: int, key: Key, data: seq<real>, k: Key)
    requires k in Remember(s, limit, key, data).cache
    ensures k == key || k in s.cache
    ensures Remember(s, limit, key, data).cache[k] == if k == key then data else s.cache[k]
  {
  }

  /**
   From `s` to `s'` one key was stored: the newest keys up to the limit remain,
   each with the value it had, and the cache is in shape.
   */
  ghost predicate Stored(s: AudioState, s': AudioState, limit: int, key: Key, data: seq<real>) {
    && s'.tensor == s.tensor && s'.lazy == s.lazy
    && CacheShape(s', limit)
    && s'.order == LastOf(s.order + [key], limit)
    && (forall k :: k in s'.cache && k != key ==> k in s.cache && s'.cache[k] == s.cache[k])
    && (key in s'.cache ==> s'.cache[key] == data)
  }

  lemma {:induction false} RememberFacts(s: AudioState, limit: int, key: Key, data: seq<real>)
    requires CacheShape(s, limit) && key !in s.cache
    ensures Stored(s, Remember(s, limit, key, data), limit, key, data)
  {
    RememberKeepsShape(s, limit, key, data);
    OrderAfterRemember(s, limit, key, data);
  }

  lemma {:induction false} SameMap(a: map<Key, seq<real>>, b: map<Key, seq<real>>)
    requires a.Keys == b.Keys && forall k :: k in b ==> a[k] == b[k]
    ensures a == b
  {
  }

  lemma {:induction false} SameKeys(a: AudioState, b: AudioState, limit: int)
    requires CacheShape(a, limit) && CacheShape(b, limit) && a.order == b.order
    ensures a.cache.Keys == b.cache.Keys
  {
    forall k ensures k in a.cache <==> k in b.cache {
      assert k in a.order <==> k in b.order;
    }
  }

  /** Shape, order and values leave no choice: storing a key is remembering it. */
  lemma {:induction false} StoredIsRemembered(s: AudioState, s': AudioState, limit: int, key: Key, data: seq<real>)
    requires CacheShape(s, limit) && key !in s.cache && Stored(s, s', limit, key, data)
    ensures s' == Remember(s, limit, key, data)
  {
    var r := Remember(s, limit, key, data);
    OrderAfterRemember(s, limit, key, data);
    RememberKeepsShape(s, limit, key, data);
    SameKeys(s', r, limit);
    forall k | k in r.cache ensures k in s'.cache && s'.cache[k] == r.cache[k] {
      RememberedValue(s, limit, key, data, k);
    }
    SameMap(s'.cache, r.cache);
  }

  lemma {:induction false} OrderAfterStep(s: AudioState, frames: seq<Frame>, limit: int, rate: nat, call: Call)
    requires Consistent(s, frames, limit)
    ensures Step(s, frames, limit, rate, call).0.order
         == if Inserts(s, rate, call) then LastOf(s.order + [KeyOf(call, rate)], limit) else s.order
  {
    if Inserts(s, rate, call) {
      var key := KeyOf(call, rate);
      var (fetched, data) := Fetch(s, frames, key, call.readOk, call.fullOk);
      OrderAfterRemember(fetched, limit, key, data.value);
    }
  }

  lemma {:induction false} LastOfSnoc(keys: seq<Key>, key: Key, limit: int)
    ensures LastOf(LastOf(keys, limit) + [key], limit) == LastOf(keys + [key], limit)
  {
  }

  lemma {:induction false} OneMoreCall(s: AudioState, s': AudioState, frames: seq<Frame>, limit: int, rate: nat,
                                       call: Call, keys: seq<Key>, keys': seq<Key>)
    requires Consistent(s, frames, limit) && s' == Step(s, frames, limit, rate, call).0
    requires keys' == keys + if Inserts(s, rate, call) then [KeyOf(call, rate)] else []
    requires s.order == LastOf(keys, limit)
    ensures s'.order == LastOf(keys', limit)
  {
    OrderAfterStep(s, frames, limit, rate, call);
    if Inserts(s, rate, call) {
      LastOfSnoc(keys, KeyOf(call, rate), limit);
    } else {
      assert keys + [] == keys;
    }
  }

  /** The cache always holds the most recently inserted keys, in insertion order: eviction is first in, first out. */
  lemma {:induction false} CacheHoldsLastInserted(frames: seq<Frame>, limit: int, rate: nat, calls: seq<Call>, n: nat)
    requires n <= |calls|
    ensures After(frames, limit, rate, calls, n).order == LastOf(Inserted(frames, limit, rate, calls, n), limit)
  {
    if n > 0 {
      CacheHoldsLastInserted(frames, limit, rate, calls, n - 1);
      RunsStayConsistent(frames, limit, rate, calls, n - 1);
      OneMoreCall(After(frames, limit, rate, calls, n - 1), After(frames, limit, rate, calls, n),
                  frames, limit, rate, calls[n - 1],
                  Inserted(frames, limit, rate, calls, n - 1), Inserted(frames, limit, rate, calls, n));
    }
  }

  // --------------------------------------------------- against a cache that refreshes

  /** The call is answered from the cache. */
  predicate IsHit(s: AudioState, rate: nat, call: Call) {
    && call.Chunk?
    && KeyOf(call, rate).0 < KeyOf(call, rate).1
    && s.lazy
    && KeyOf(call, rate) in s.cache
  }

  /** `keys` with `key` taken out. */
  function Without(keys: seq<Key>, key: Key): seq<Key> {
    if keys == [] then []
    else Without(keys[..|keys| - 1], key) + if keys[|keys| - 1] == key then [] else [keys[|keys| - 1]]
  }

  /** What a least-recently-used cache does: the same, but a hit makes its key the newest. */
  function RefreshingStep(s: AudioState, frames: seq<Frame>, limit: int, rate: nat, call: Call): AudioState {
    var s' := Step(s, frames, limit, rate, call).0;
    if IsHit(s, rate, call) then s'.(order := Without(s'.order, KeyOf(call, rate)) + [KeyOf(call, rate)]) else s'
  }

  /** The call does not hit, or hits the newest key. */
  predicate HitsNewestOnly(s: AudioState, rate: nat, call: Call) {
    IsHit(s, rate, call) ==> s.order != [] && s.order[|s.order| - 1] == KeyOf(call, rate)
  }

  lemma {:induction false} WithoutAbsent(keys: seq<Key>, key: Key)
    requires key !in keys
    ensures Without(keys, key) == keys
  {
    if keys != [] {
      var init, last := keys[..|keys| - 1], keys[|keys| - 1];
      assert keys == init + [last];
      WithoutAbsent(init, key);
    }
  }

  lemma {:induction false} LastOfSnocIs(init: seq<Key>, key: Key, keys: seq<Key>)
    requires init + [key] == keys
    ensures keys[|keys| - 1] == key
  {
  }

  /** Moving a key to the end changes a list without repeats exactly if it was not there already. */
  lemma {:induction false} MovedToEndIff(keys: seq<Key>, key: Key)
    requires Distinct(keys) && keys != []
    ensures Without(keys, key) + [key] == keys <==> keys[|keys| - 1] == key
  {
    if Without(keys, key) + [key] == keys {
      LastOfSnocIs(Without(keys, key), key, keys);
    }
    if keys[|keys| - 1] == key {
      var init := keys[..|keys| - 1];
      assert key !in init;
      WithoutAbsent(init, key);
      assert init + [] == init && init + [key] == keys;
    }
  }

  /**
   The cache behaves on a call as a least-recently-used one exactly when the call
   does not hit, or hits the newest key.
   */
  lemma {:induction false} RefreshesIff(s: AudioState, frames: seq<Frame>, limit: int, rate: nat, call: Call)
    requires Consistent(s, frames, limit)
    ensures RefreshingStep(s, frames, limit, rate, call) == Step(s, frames, limit, rate, call).0
        <==> HitsNewestOnly(s, rate, call)
    ensures RefreshingStep(s, frames, limit, rate, call).order == Step(s, frames, limit, rate, call).0.order
        <==> HitsNewestOnly(s, rate, call)
  {
    if IsHit(s, rate, call) {
      assert KeyOf(call, rate) in s.order;
      MovedToEndIff(s.order, KeyOf(call, rate));
    }
  }

  /** The state of a least-recently-used cache after the first `n` calls. */
  function AfterRefreshing(frames: seq<Frame>, limit: int, rate: nat, calls: seq<Call>, n: nat): AudioState
    requires n <= |calls|
  {
    if n == 0 then FRESH_LAZY
    else RefreshingStep(AfterRefreshing(frames, limit, rate, calls, n - 1), frames, limit, rate, calls[n - 1])
  }

  ghost predicate SameOrderAt(frames: seq<Frame>, limit: int, rate: nat, calls: seq<Call>, m: nat)
    requires m <= |calls|
  {
    AfterRefreshing(frames, limit, rate, calls, m).order == After(frames, limit, rate, calls, m).order
  }

  ghost predicate HitsNewestAt(frames: seq<Frame>, limit: int, rate: nat, calls: seq<Call>, m: nat)
    requires m < |calls|
  {
    HitsNewestOnly(After(frames, limit, rate, calls, m), rate, calls[m])
  }

  lemma {:induction false} NewestHitsRefresh(frames: seq<Frame>, limit: int, rate: nat, calls: seq<Call>, n: nat)
    requires n <= |calls| && forall m :: 0 <= m < n ==> HitsNewestAt(frames, limit, rate, calls, m)
    ensures AfterRefreshing(frames, limit, rate, calls, n) == After(frames, limit, rate, calls, n)
  {
    if n > 0 {
      NewestHitsRefresh(frames, limit, rate, calls, n - 1);
      RunsStayConsistent(frames, limit, rate, calls, n - 1);
      assert HitsNewestAt(frames, limit, rate, calls, n - 1);
      RefreshesIff(After(frames, limit, rate, calls, n - 1), frames, limit, rate, calls[n - 1]);
    }
  }

  lemma {:induction false} SameOrderHitsNewest(frames: seq<Frame>, limit: int, rate: nat, calls: seq<Call>, m: nat)
    requires m < |calls| && SameOrderAt(frames, limit, rate, calls, m + 1)
    requires AfterRefreshing(frames, limit, rate, calls, m) == After(frames, limit, rate, calls, m)
    ensures HitsNewestAt(frames, limit, rate, calls, m)
  {
    RunsStayConsistent(frames, limit, rate, calls, m);
    RefreshesIff(After(frames, limit, rate, calls, m), frames, limit, rate, calls[m]);
  }

  lemma {:induction false} SameOrdersHitNewest(frames: seq<Frame>, limit: int, rate: nat, calls: seq<Call>, n: nat,
                                               m: nat)
    requires m < n <= |calls| && forall j :: 0 <= j <= n ==> SameOrderAt(frames, limit, rate, calls, j)
    ensures HitsNewestAt(frames, limit, rate, calls, m)
    decreases m
  {
    forall j | 0 <= j < m ensures HitsNewestAt(frames, limit, rate, calls, j) {
      SameOrdersHitNewest(frames, limit, rate, calls, n, j);
    }
    NewestHitsRefresh(frames, limit, rate, calls, m);
    SameOrderHitsNewest(frames, limit, rate, calls, m);
  }

  /**
   Over a run the cache keeps its keys in the order of a least-recently-used one,
   at every point, exactly when every hit is on the key that is newest then.
   */
  lemma {:induction false} RunRefreshesIff(frames: seq<Frame>, limit: int, rate: nat, calls: seq<Call>, n: nat)
    requires n <= |calls|
    ensures (forall m :: 0 <= m <= n ==> SameOrderAt(frames, limit, rate, calls, m))
        <==> forall m :: 0 <= m < n ==> HitsNewestAt(frames, limit, rate, calls, m)
  {
    if forall m :: 0 <= m <= n ==> SameOrderAt(frames, limit, rate, calls, m) {
      forall m | 0 <= m < n ensures HitsNewestAt(frames, limit, rate, calls, m) {
        SameOrdersHitNewest(frames, limit, rate, calls, n, m);
      }
    }
    if forall m :: 0 <= m < n ==> HitsNewestAt(frames, limit, rate, calls, m) {
      forall m | 0 <= m <= n ensures SameOrderAt(frames, limit, rate, calls, m) {
        NewestHitsRefresh(frames, limit, rate, calls, m);
      }
    }
  }

  /** A hit does not refresh its key: with room for two, a chunk used again just before is the one evicted. */
  lemma HitDoesNotRefresh(frames: seq<Frame>)
    ensures var calls := [Chunk(0.0, 1000.0, true, true), Chunk(1000.0, 2000.0, true, true),
                          Chunk(0.0, 1000.0, true, true), Chunk(2000.0, 3000.0, true, true)];
            After(frames, 2, 1, calls, 4).order == [(1, 2), (2, 3)]
  {
    var calls := [Chunk(0.0, 1000.0, true, true), Chunk(1000.0, 2000.0, true, true),
                  Chunk(0.0, 1000.0, true, true), Chunk(2000.0, 3000.0, true, true)];
    assert FrameAt(0.0, 1) == 0 && FrameAt(1000.0, 1) == 1 && FrameAt(2000.0, 1) == 2 && FrameAt(3000.0, 1) == 3;
    assert After(frames, 2, 1, calls, 1).order == [(0, 1)];
    assert After(frames, 2, 1, calls, 2).order == [(0, 1), (1, 2)];
    assert After(frames, 2, 1, calls, 3).order == [(0, 1), (1, 2)];
  }

  // -------------------------------------------------------------------- the container

  class ASRAudioFile {
    const frames: seq<Frame>
    const rate: nat
    const cacheLimit: int
    var tensor: seq<real>
    var lazy: bool
    var cache: map<Key, seq<real>>
    var cacheOrder: seq<Key>

    ghost function State(): AudioState
      reads this
    {
      AudioState(tensor, lazy, cache, cacheOrder)
    }

    ghost predicate Valid()
      reads this
    {
      Consistent(State(), frames, cacheLimit)
    }

    constructor Lazy(frames: seq<Frame>, rate: nat, cacheLimit: int)
      ensures Valid() && State() == FRESH_LAZY
      ensures this.frames == frames && this.rate == rate && this.cacheLimit == cacheLimit
    {
      this.frames, this.rate, this.cacheLimit := frames, rate, cacheLimit;
      tensor, lazy, cache, cacheOrder := [], true, map[], [];
    }

    /** The part of `chunk` that reads the file, with its fallback to a full load. */
    method FetchData(key: Key, readOk: bool, fullOk: bool) returns (data: Option<seq<real>>)
      requires Valid() && lazy && key.0 < key.1
      modifies this`tensor, this`lazy
      ensures Valid() && lazy == (readOk || !fullOk)
      ensures data == if readOk then Some(ReadFrames(frames, key.0, key.1 - key.0))
                      else if fullOk then Some(Slice(Mono(frames), key.0, key.1)) else None
      ensures data.Some? && key.0 >= 0 ==> data.value == Slice(Mono(frames), key.0, key.1)
    {
      ReadAllIsMono(frames);
      if key.0 >= 0 {
        ReadIsSlice(frames, key.0, key.1);
      }
      if readOk {
        return Some(ReadFrames(frames, key.0, key.1 - key.0));
      }
      if tensor == [] {
        if !fullOk {
          return None;
        }
        tensor := ReadFrames(frames, 0, -1);
        lazy := false;
      }
      return Some(Slice(tensor, key.0, key.1));
    }

    /** The part of `chunk` that fills the cache and drops the oldest key. */
    method Store(key: Key, data: seq<real>)
      requires CacheShape(State(), cacheLimit) && key !in cache
      modifies this`cache, this`cacheOrder
      ensures Stored(old(State()), State(), cacheLimit, key, data)
    {
      RememberFacts(State(), cacheLimit, key, data);
      ghost var remembered := Remember(State(), cacheLimit, key, data);
      cache := cache[key := data];
      cacheOrder := cacheOrder + [key];
      if |cacheOrder| > cacheLimit {
        var oldKey := cacheOrder[0];
        cacheOrder := cacheOrder[1..];
        cache := cache - {oldKey};
      }
      assert State() == remembered;
    }

    /** The part of `chunk` behind a cache miss. */
    method ReadAndStore(key: Key, readOk: bool, fullOk: bool) returns (r: Result<seq<real>, LoadError>)
      requires Valid() && lazy && key.0 < key.1 && key !in cache
      modifies this
      ensures r == if !readOk && !fullOk then Err(FullLoadFailed)
                   else Ok(if readOk then ReadFrames(frames, key.0, key.1 - key.0)
                           else Slice(Mono(frames), key.0, key.1))
      ensures r.Err? ==> State() == old(State())
      ensures r.Ok? ==>
                State() == Remember(old(State()).(tensor := if readOk then [] else Mono(frames), lazy := readOk),
                                    cacheLimit, key, r.value)
    {
      var data := FetchData(key, readOk, fullOk);
      if data.None? {
        return Err(FullLoadFailed);
      }
      ghost var fetched := State();
      Store(key, data.value);
      StoredIsRemembered(fetched, State(), cacheLimit, key, data.value);
      return Ok(data.value);
    }

    /** `readOk` and `fullOk` are the outcomes of the chunk read and of the full load, when made. */
    method ReadChunk(beginMs: real, endMs: real, readOk: bool, fullOk: bool) returns (r: Result<seq<real>, LoadError>)
      requires Valid()
      modifies this
      ensures Valid()
      ensures (State(), r) == Step(old(State()), frames, cacheLimit, rate, Chunk(beginMs, endMs, readOk, fullOk))
      ensures r.Ok? && beginMs >= 0.0 ==> r.value == EagerChunk(Mono(frames), rate, beginMs, endMs)
      ensures r.Err? ==> old(lazy) && !readOk && !fullOk && State() == old(State())
    {
      ReadAgrees(State(), frames, cacheLimit, rate, Chunk(beginMs, endMs, readOk, fullOk));
      var key := (FrameAt(beginMs, rate), FrameAt(endMs, rate));
      if key.1 <= key.0 {
        r := Ok([]);
      } else if !lazy {
        r := Ok(Slice(tensor, key.0, key.1));
      } else if key in cache {
        r := Ok(cache[key]);
      } else {
        MissStep(State(), frames, cacheLimit, key, readOk, fullOk);
        r := ReadAndStore(key, readOk, fullOk);
      }
    }

    method ReadAll(fullOk: bool) returns (r: seq<real>)
      requires Valid()
      modifies this
      ensures Valid()
      ensures (State(), Ok(r)) == Step(old(State()), frames, cacheLimit, rate, All(fullOk))
      ensures r == if old(lazy) && !fullOk then [] else Mono(frames)
    {
      StepAgrees(State(), frames, cacheLimit, rate, All(fullOk));
      if !lazy {
        return tensor;
      }
      if tensor == [] {
        if !fullOk {
          return [];
        }
        tensor := ReadFrames(frames, 0, -1);
        lazy := false;
      }
      return tensor;
    }
  }
}
