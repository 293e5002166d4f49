/** Downmixing and resampling to 16 kHz mono on a rational clock (crates/vt-audio/src/canonical.rs:13-82). */
module Resampler {
  import opened IntegerMath

  const CANONICAL_RATE: nat := 16_000

  /** A stored sample; anything that is not a finite number counts as silence. */
  datatype Sample = Finite(v: real) | NotFinite

  datatype Outcome = Canonical(pcm: seq<real>) | NoRate | NoChannels | Misaligned

  // ----- the downmix

  function Clamped(s: Sample): real {
    if s.NotFinite? then 0.0 else if s.v < -1.0 then -1.0 else if s.v > 1.0 then 1.0 else s.v
  }

  function Sum(frame: seq<Sample>): real {
    if frame == [] then 0.0 else Sum(frame[..|frame| - 1]) + Clamped(frame[|frame| - 1])
  }

  function Frame(samples: seq<Sample>, channels: nat, i: nat): seq<Sample>
    requires channels > 0 && i < |samples| / channels
  {
    FrameFits(|samples|, channels, i);
    samples[i * channels..(i + 1) * channels]
  }

  lemma FrameFits(n: nat, channels: nat, i: nat)
    requires channels > 0 && i < n / channels
    ensures i * channels <= (i + 1) * channels <= n && i * channels + channels == (i + 1) * channels
  {
    ProductOrder(i, i + 1, channels);
    ProductOrder(i + 1, n / channels, channels);
    DivMod(n, channels);
  }

  function Mono(samples: seq<Sample>, channels: nat): (mono: seq<real>)
    requires channels > 0
    ensures |mono| == |samples| / channels
  {
    seq(|samples| / channels, i requires 0 <= i < |samples| / channels => Sum(Frame(samples, channels, i)) / (channels as real))
  }

  lemma {:induction false} SumIsBounded(frame: seq<Sample>)
    ensures -(|frame| as real) <= Sum(frame) <= |frame| as real
  {
    if frame != [] {
      SumIsBounded(frame[..|frame| - 1]);
    }
  }

  lemma SignOfProduct(a: real, n: real)
    requires n > 0.0 && a * n >= 0.0
    ensures a >= 0.0
  {
    assert a < 0.0 ==> a * n < 0.0;
  }

  lemma QuotientIsBounded(sum: real, n: real)
    requires n > 0.0 && -n <= sum <= n
    ensures -1.0 <= sum / n <= 1.0
  {
    var q := sum / n;
    assert q * n == sum;
    assert (1.0 - q) * n == n - q * n && (1.0 + q) * n == n + q * n;
    SignOfProduct(1.0 - q, n);
    SignOfProduct(1.0 + q, n);
  }

  /** Every mixed sample is within full scale. */
  lemma MonoIsBounded(samples: seq<Sample>, channels: nat, i: nat)
    requires channels > 0 && i < |samples| / channels
    ensures -1.0 <= Mono(samples, channels)[i] <= 1.0
  {
    FrameFits(|samples|, channels, i);
    assert |Frame(samples, channels, i)| == channels by {
      assert (i + 1) * channels == i * channels + channels;
    }
    SumIsBounded(Frame(samples, channels, i));
    QuotientIsBounded(Sum(Frame(samples, channels, i)), channels as real);
  }

  /** A channel's part in the mix: silence for what is not a number, else the value, cut off at full scale. */
  predicate IsPart(s: Sample, part: real) {
    match s
    case NotFinite => part == 0.0
    case Finite(v) => (-1.0 <= v <= 1.0 ==> part == v) && (v < -1.0 ==> part == -1.0) && (v > 1.0 ==> part == 1.0)
  }

  /** `running[c]` is what the first `c` channels of frame `i` add up to. */
  ghost predicate AddsUp(samples: seq<Sample>, channels: nat, i: nat, running: seq<real>)
    requires channels > 0 && i < |samples| / channels
  {
    FrameFits(|samples|, channels, i);
    var frame := samples[i * channels..i * channels + channels];
    && |running| == channels + 1 && running[0] == 0.0
    && forall c: nat | c < channels :: IsPart(frame[c], running[c + 1] - running[c])
  }

  lemma {:induction false} SumAddsUp(frame: seq<Sample>, running: seq<real>)
    requires |running| == |frame| + 1 && running[0] == 0.0
    requires forall c: nat | c < |frame| :: IsPart(frame[c], running[c + 1] - running[c])
    ensures Sum(frame) == running[|frame|]
  {
    if frame != [] {
      SumAddsUp(frame[..|frame| - 1], running[..|frame|]);
    }
  }

  /** A mixed sample is the mean of its frame's channels. */
  lemma MixIsMean(samples: seq<Sample>, channels: nat, i: nat, running: seq<real>)
    requires channels > 0 && i < |samples| / channels && AddsUp(samples, channels, i, running)
    ensures Mono(samples, channels)[i] * channels as real == running[channels]
  {
    FrameFits(|samples|, channels, i);
    var frame := Frame(samples, channels, i);
    assert |frame| == channels by {
      assert (i + 1) * channels == i * channels + channels;
    }
    assert frame == samples[i * channels..i * channels + channels];
    SumAddsUp(frame, running);
  }

  // ----- the clock

  function OutputFrames(n: nat, rate: nat): nat
    requires rate > 0
  {
    var rounded := (n * CANONICAL_RATE + rate / 2) / rate;
    if rounded < 1 then 1 else rounded
  }

  /** The sample before the output frame's moment. */
  function LeftIndex(i: nat, rate: nat): nat {
    i * rate / CANONICAL_RATE
  }

  function Fraction(i: nat, rate: nat): real {
    (i * rate % CANONICAL_RATE) as real / CANONICAL_RATE as real
  }

  /** The sample after, or the last one again. */
  function RightOf(mono: seq<real>, left: nat): real
    requires left < |mono|
  {
    if left + 1 < |mono| then mono[left + 1] else mono[left]
  }

  /** The recording as a line through its samples, held at the last one. */
  function Wave(mono: seq<real>, left: nat, fraction: real): real
    requires left < |mono|
  {
    mono[left] + (RightOf(mono, left) - mono[left]) * fraction
  }

  /** The count is within half a source period of the exact length, unless a lone frame was forced. */
  lemma CountIsRounded(n: nat, rate: nat)
    requires rate > 0
    ensures n * CANONICAL_RATE + rate / 2 >= rate ==>
      2 * (OutputFrames(n, rate) * rate - n * CANONICAL_RATE) <= rate && 2 * (n * CANONICAL_RATE - OutputFrames(n, rate) * rate) <= rate
    ensures n * CANONICAL_RATE + rate / 2 < rate ==> OutputFrames(n, rate) == 1
  {
    var a := n * CANONICAL_RATE + rate / 2;
    DivMod(a, rate);
    if a >= rate {
      QuotientOrder(rate, a, rate);
      QuotientIs(rate, rate, 1);
    } else {
      QuotientIs(a, rate, 0);
    }
  }

  /** Every output frame's left neighbour is a sample, without the code's clamp. */
  lemma LeftIsInside(n: nat, rate: nat, i: nat)
    requires rate > 0 && n > 0 && i < OutputFrames(n, rate)
    ensures LeftIndex(i, rate) < n
  {
    if i == 0 {
      QuotientIs(0, CANONICAL_RATE, 0);
    } else {
      var a := n * CANONICAL_RATE + rate / 2;
      DivMod(a, rate);
      ProductGap(i, a / rate, rate);
      QuotientBelow(i * rate, n, CANONICAL_RATE);
    }
  }

  lemma FractionIsProper(i: nat, rate: nat)
    ensures 0.0 <= Fraction(i, rate) < 1.0
  {
    var r := i * rate % CANONICAL_RATE;
    assert 0 <= r < CANONICAL_RATE;
    assert r as real < CANONICAL_RATE as real;
  }

  /** The clock has no drift: left neighbour and fraction together are the exact moment. */
  lemma ClockIsExact(i: nat, rate: nat)
    ensures LeftIndex(i, rate) as real + Fraction(i, rate) == (i * rate) as real / CANONICAL_RATE as real
  {
    DivMod(i * rate, CANONICAL_RATE);
    var q, r := i * rate / CANONICAL_RATE, i * rate % CANONICAL_RATE;
    assert (i * rate) as real == q as real * 16_000.0 + r as real;
  }

  /** Part of a step, in its direction. */
  predicate IsShare(part: real, step: real) {
    if 0.0 <= step then 0.0 <= part <= step else step <= part <= 0.0
  }

  lemma Share(a: real, fraction: real)
    requires 0.0 <= fraction <= 1.0
    ensures IsShare(a * fraction, a)
  {
    var rest := a * (1.0 - fraction);
    assert rest == a - a * fraction;
    SignsAgree(a, fraction);
    SignsAgree(a, 1.0 - fraction);
  }

  lemma SignsAgree(a: real, f: real)
    requires f >= 0.0
    ensures (a >= 0.0 ==> a * f >= 0.0) && (a <= 0.0 ==> a * f <= 0.0)
  {
  }

  predicate IsBetween(y: real, a: real, b: real) {
    a <= y <= b || b <= y <= a
  }

  /** A point on the line lies between its two neighbours. */
  lemma WaveIsBetween(a: real, b: real, fraction: real)
    requires 0.0 <= fraction <= 1.0
    ensures IsBetween(a + (b - a) * fraction, a, b)
  {
    Offset(a, b, b - a, fraction);
  }

  lemma Offset(a: real, b: real, d: real, fraction: real)
    requires b == a + d && 0.0 <= fraction <= 1.0
    ensures IsBetween(a + d * fraction, a, b)
  {
    Share(d, fraction);
    StepIsBetween(a, b, d, d * fraction);
  }

  lemma StepIsBetween(a: real, b: real, d: real, step: real)
    requires b == a + d && IsShare(step, d)
    ensures IsBetween(a + step, a, b)
  {
  }

  // ----- the conversion

  function Resampled(mono: seq<real>, rate: nat): (pcm: seq<real>)
    requires rate > 0 && mono != []
    ensures |pcm| == OutputFrames(|mono|, rate)
  {
    seq(OutputFrames(|mono|, rate), i requires 0 <= i < OutputFrames(|mono|, rate) =>
      LeftIsInside(|mono|, rate, i);
      Wave(mono, LeftIndex(i, rate), Fraction(i, rate)))
  }

  method CanonicalizeForSoniox(samples: seq<Sample>, rate: nat, channels: nat) returns (r: Outcome)
    ensures r.NoRate? <==> rate == 0
    ensures r.NoChannels? <==> rate > 0 && channels == 0
    ensures r.Misaligned? <==> rate > 0 && channels > 0 && |samples| % channels != 0
    ensures r.Canonical? && samples == [] ==> r.pcm == []
    ensures r.Canonical? && samples != [] ==> Mono(samples, channels) != [] && r.pcm == Resampled(Mono(samples, channels), rate)
  {
    if rate == 0 {
      return NoRate;
    }
    if channels == 0 {
      return NoChannels;
    }
    if |samples| % channels != 0 {
      return Misaligned;
    }
    if |samples| == 0 {
      return Canonical([]);
    }
    var mono := Mono(samples, channels);
    assert mono != [] by {
      DivMod(|samples|, channels);
    }
    if rate == CANONICAL_RATE {
      SameRateIsIdentity(mono);
      return Canonical(mono);
    }
    var pcm := Interpolate(mono, rate);
    r := Canonical(pcm);
  }

  lemma PointOf(mono: seq<real>, rate: nat, i: nat)
    requires rate > 0 && mono != [] && i < OutputFrames(|mono|, rate)
    ensures LeftIndex(i, rate) < |mono| && Resampled(mono, rate)[i] == Wave(mono, LeftIndex(i, rate), Fraction(i, rate))
    ensures Resampled(mono, rate)[..i + 1] == Resampled(mono, rate)[..i] + [Wave(mono, LeftIndex(i, rate), Fraction(i, rate))]
  {
    LeftIsInside(|mono|, rate, i);
  }

  method Interpolate(mono: seq<real>, rate: nat) returns (output: seq<real>)
    requires rate > 0 && mono != []
    ensures output == Resampled(mono, rate)
  {
    var outputFrames := OutputFrames(|mono|, rate);
    output := [];
    for i := 0 to outputFrames
      invariant output == Resampled(mono, rate)[..i]
    {
      PointOf(mono, rate, i);
      var position := i * rate;
      var left := if position / CANONICAL_RATE < |mono| - 1 then position / CANONICAL_RATE else |mono| - 1;
      var fraction := (position % CANONICAL_RATE) as real / CANONICAL_RATE as real;
      var right := if left + 1 < |mono| then mono[left + 1] else mono[left];
      var sample := mono[left] + (right - mono[left]) * fraction;
      assert left == LeftIndex(i, rate) && sample == Wave(mono, left, fraction);
      output := output + [sample];
    }
  }

  /** At the canonical rate the general rule gives the samples themselves, so passing them through agrees with it. */
  lemma SameRateIsIdentity(mono: seq<real>)
    requires mono != []
    ensures Resampled(mono, CANONICAL_RATE) == mono
  {
    var n := |mono|;
    QuotientIs(n * CANONICAL_RATE + CANONICAL_RATE / 2, CANONICAL_RATE, n);
    forall i | 0 <= i < n
      ensures Resampled(mono, CANONICAL_RATE)[i] == mono[i]
    {
      ExactQuotient(i, CANONICAL_RATE);
      DivMod(i * CANONICAL_RATE, CANONICAL_RATE);
      LeftIsInside(n, CANONICAL_RATE, i);
      assert Fraction(i, CANONICAL_RATE) == 0.0;
    }
  }

  /** Each output frame lies between the two samples around its moment. */
  lemma OutputIsBetween(mono: seq<real>, rate: nat, i: nat)
    requires rate > 0 && mono != [] && i < OutputFrames(|mono|, rate)
    ensures LeftIndex(i, rate) < |mono|
    ensures IsBetween(Resampled(mono, rate)[i], mono[LeftIndex(i, rate)], RightOf(mono, LeftIndex(i, rate)))
  {
    PointOf(mono, rate, i);
    FractionIsProper(i, rate);
    WaveIsBetween(mono[LeftIndex(i, rate)], RightOf(mono, LeftIndex(i, rate)), Fraction(i, rate));
  }

  /** So it is within full scale whatever was stored. */
  lemma OutputIsBounded(samples: seq<Sample>, rate: nat, channels: nat, i: nat)
    requires rate > 0 && channels > 0 && Mono(samples, channels) != []
    requires i < OutputFrames(|Mono(samples, channels)|, rate)
    ensures -1.0 <= Resampled(Mono(samples, channels), rate)[i] <= 1.0
  {
    var mono, left := Mono(samples, channels), LeftIndex(i, rate);
    OutputIsBetween(mono, rate, i);
    MonoIsBounded(samples, channels, left);
    if left + 1 < |mono| {
      MonoIsBounded(samples, channels, left + 1);
    }
  }

  /** An output frame is the mean of the two samples around its moment, each weighted by the other's distance from it;
      past the last sample it is that sample. */
  lemma OutputIsWeighted(mono: seq<real>, rate: nat, i: nat, left: nat, past: nat)
    requires rate > 0 && mono != [] && i < OutputFrames(|mono|, rate)
    requires i * rate == left * 16_000 + past && past < 16_000
    ensures left < |mono|
    ensures left + 1 < |mono| ==> Resampled(mono, rate)[i] * 16_000.0 == mono[left] * (16_000 - past) as real + mono[left + 1] * past as real
    ensures left + 1 == |mono| ==> Resampled(mono, rate)[i] == mono[left]
  {
    PointOf(mono, rate, i);
    QuotientIs(i * rate, 16_000, left);
    DivMod(i * rate, 16_000);
    assert Fraction(i, rate) * 16_000.0 == past as real;
    if left + 1 < |mono| {
      Weighted(mono[left], mono[left + 1], Fraction(i, rate), past as real);
    }
  }

  lemma Weighted(a: real, b: real, fraction: real, past: real)
    requires fraction * 16_000.0 == past
    ensures (a + (b - a) * fraction) * 16_000.0 == a * (16_000.0 - past) + b * past
  {
    assert (b - a) * fraction * 16_000.0 == (b - a) * past;
  }

  /** Output frames whose moment is a sample's are that sample. */
  lemma SamplesAreKept(mono: seq<real>, rate: nat, i: nat, k: nat)
    requires rate > 0 && k < |mono| && i * rate == k * CANONICAL_RATE && i < OutputFrames(|mono|, rate)
    ensures Resampled(mono, rate)[i] == mono[k]
  {
    ExactQuotient(k, CANONICAL_RATE);
    DivMod(i * rate, CANONICAL_RATE);
    LeftIsInside(|mono|, rate, i);
    assert Fraction(i, rate) == 0.0;
  }
}
