/**
 What a chunk holds: which frames a time range names, which samples they are, and
 what one sample of the mono waveform is.
 */
module AudioFrames {
  import opened Common
  import opened AudioFile

  // ---------------------------------------------------------------- times to frames

  lemma {:induction false} RoundIsNearest(x: real)
    ensures -1.0 <= 2.0 * (RoundHalfEven(x) as real - x) <= 1.0
    ensures 2.0 * (RoundHalfEven(x) as real - x) in {-1.0, 1.0} ==> RoundHalfEven(x) % 2 == 0
  {
    var low := x.Floor;
    assert low as real <= x < low as real + 1.0;
  }

  lemma {:induction false} ScaledTime(ms: real, rate: nat)
    ensures 1000.0 * (ms / 1000.0 * rate as real) == ms * rate as real
  {
    var seconds, r := ms / 1000.0, rate as real;
    assert ms == 1000.0 * seconds;
    assert ms * r == (1000.0 * seconds) * r == 1000.0 * (seconds * r);
  }

  /** Frame `f` is within half a frame of the time, and even when it is exactly half a frame off. */
  ghost predicate IsNearest(f: int, ms: real, rate: nat) {
    var off := 2000.0 * f as real - 2.0 * (ms * rate as real);
    -1000.0 <= off <= 1000.0 && (off == 1000.0 || off == -1000.0 ==> f % 2 == 0)
  }

  /** A time names the nearest frame, ties going to the even one, and no other. */
  lemma {:induction false} FrameIsNearest(ms: real, rate: nat, f: int)
    ensures f == FrameAt(ms, rate) <==> IsNearest(f, ms, rate)
  {
    var g := FrameAt(ms, rate);
    RoundIsNearest(ms / 1000.0 * rate as real);
    ScaledTime(ms, rate);
    assert IsNearest(g, ms, rate);
    if IsNearest(f, ms, rate) {
      assert -1.0 <= f as real - g as real <= 1.0;
      assert f == g + 1 || f == g || f == g - 1;
    }
  }

  /** At 16 kHz a whole number of milliseconds is 16 frames each. */
  lemma {:induction false} WholeMillisAtSixteenKilohertz(m: int)
    ensures FrameAt(m as real, 16000) == 16 * m
  {
    assert m as real * 16000.0 == 1000.0 * (16 * m) as real;
    FrameIsNearest(m as real, 16000, 16 * m);
  }

  // -------------------------------------------------------------- frames to samples

  /**
   From time 0 on, a chunk holds the samples from the begin frame up to, and
   without, the end frame, as far as the waveform goes.
   */
  lemma {:induction false} ChunkSamples(mono: seq<real>, rate: nat, beginMs: real, endMs: real)
    requires beginMs >= 0.0
    ensures var b, e, chunk := FrameAt(beginMs, rate), FrameAt(endMs, rate), EagerChunk(mono, rate, beginMs, endMs);
            && |chunk| == Max(Min(e, |mono|) - b, 0)
            && forall k :: 0 <= k < |chunk| ==> b + k < |mono| && chunk[k] == mono[b + k]
  {
    FrameAtIsMonotone(beginMs, beginMs, rate);
  }

  // ------------------------------------------------------------- channels to samples

  lemma {:induction false} SumAppend(a: seq<real>, b: seq<real>)
    ensures Sum(a + b) == Sum(a) + Sum(b)
  {
    if b == [] {
      assert a + b == a;
    } else {
      assert (a + b)[..|a + b| - 1] == a + b[..|b| - 1];
      SumAppend(a, b[..|b| - 1]);
    }
  }

  function Deviations(f: seq<real>, m: real): seq<real> {
    seq(|f|, i requires 0 <= i < |f| => f[i] - m)
  }

  lemma {:induction false} SumOfDeviations(f: seq<real>, m: real)
    ensures Sum(Deviations(f, m)) == Sum(f) - |f| as real * m
  {
    if f != [] {
      var init := f[..|f| - 1];
      assert Deviations(f, m)[..|f| - 1] == Deviations(init, m);
      SumOfDeviations(init, m);
    }
  }

  /** The sample of a frame is the one value the channels lie around evenly. */
  lemma {:induction false} MeanBalances(f: Frame, m: real)
    ensures Sum(Deviations(f, m)) == 0.0 <==> m == Mean(f)
  {
    SumOfDeviations(f, m);
    var n := |f| as real;
    assert Mean(f) * n == Sum(f);
    if n * m == Sum(f) {
      assert n * m == n * Mean(f);
    }
  }

  /** A one-channel frame is its own sample, and two channels meet halfway. */
  lemma {:induction false} FewChannels(x: real, y: real)
    ensures Mean([x]) == x && Sum([x, y]) == x + y && Mean([x, y]) == (x + y) / 2.0
  {
    assert Sum([]) == 0.0;
    SumAppend([], [x]);
    SumAppend([x], [y]);
    assert [x] + [y] == [x, y] && [] + [x] == [x];
    assert [x][..0] == [];
    assert Sum([x]) == x;
  }
}
