/** `AudioProcessor`: the staged preprocessing pipeline (load, finite check, silence
    removal, low-pass filter, fixed-length normalisation, mel features) and `add_noise`.
    The signal-processing library calls are oracles collected in `Oracles`. */
module AudioProcessing {
  import opened Base

  /** The fixed buffer length after normalisation: 30 seconds at 44.1 kHz, whatever the
      file's own sample rate. */
  const MaxAudioLength: nat := 44100 * 30

  /** One float64 sample, by IEEE class. */
  datatype Sample = Finite(x: real) | NaN | PosInf | NegInf

  /** The padding value of `np.pad(..., 'constant')`. */
  const Zero: Sample := Finite(0.0)

  /** `np.isfinite(audio).all()` */
  predicate AllFinite(a: seq<Sample>) {
    forall i :: 0 <= i < |a| ==> a[i].Finite?
  }

  /** The processor's mutable attributes `self.audio` and `self.sr`. */
  datatype Processor = Processor(audio: Option<seq<Sample>>, sr: Option<nat>)

  const FreshProcessor := Processor(None, None)

  /** What `librosa.load(path, sr=None)` returns: samples at the file's native rate. */
  datatype Loaded = Loaded(samples: seq<Sample>, sr: nat)

  /** A non-silent interval `[start, end)` as returned by `librosa.effects.split`. */
  datatype Interval = Interval(start: nat, end: nat)

  /** The stage whose failure made `preprocess_audio` return `None` (the stage its message names). */
  datatype Stage = LoadStage | FiniteStage | SilenceStage | FilterStage | FeatureStage

  /** The result of `preprocess_audio`: `None` (tagged with the failing stage) or the feature tensor. */
  datatype Outcome<F> = Failed(stage: Stage) | Features(tensor: F)

  /** The library calls the pipeline makes:
      - `load(path)`: `librosa.load`, `None` when it raises;
      - `split(audio)`: `librosa.effects.split(audio, top_db=20)`;
      - `lowpass(wn, audio)`: `lfilter` with the coefficients of `butter(5, wn)`, for an
        accepted normalised cutoff `wn`;
      - `mel(audio, sr)`: mel-spectrogram, dB conversion and channel dimension, `None` when
        one of them raises. */
  datatype Oracles<F> = Oracles(
    load: string -> Option<Loaded>,
    split: seq<Sample> -> seq<Interval>,
    lowpass: (real, seq<Sample>) -> seq<Sample>,
    mel: (seq<Sample>, nat) -> Option<F>)

  // ---------------------------------------------------------------------------
  // Silence removal

  /** `audio[start:end]` with Python's clamping of out-of-range bounds. */
  function Slice(a: seq<Sample>, iv: Interval): seq<Sample> {
    var lo := Min(iv.start, |a|);
    var hi := Max(lo, Min(iv.end, |a|));
    a[lo..hi]
  }

  predicate WellFormed(ivs: seq<Interval>, n: nat) {
    forall k :: 0 <= k < |ivs| ==> ivs[k].start <= ivs[k].end <= n
  }

  /** The number of samples the intervals cover. */
  function TotalLength(ivs: seq<Interval>): int {
    if ivs == [] then 0 else (ivs[0].end - ivs[0].start) + TotalLength(ivs[1..])
  }

  /** `np.concatenate([audio[s:e] for s, e in intervals])` for a non-empty list: the kept
      spans in interval order. */
  function ConcatSlices(a: seq<Sample>, ivs: seq<Interval>): (r: seq<Sample>)
    ensures WellFormed(ivs, |a|) ==> |r| == TotalLength(ivs)
  {
    if ivs == [] then [] else Slice(a, ivs[0]) + ConcatSlices(a, ivs[1..])
  }

  /** Concatenating the slices of two interval lists one after the other is concatenating
      the two results: every span lands in interval order. */
  lemma {:induction false} ConcatSlicesAppend(a: seq<Sample>, xs: seq<Interval>, ys: seq<Interval>)
    ensures ConcatSlices(a, xs + ys) == ConcatSlices(a, xs) + ConcatSlices(a, ys)
  {
    if xs == [] {
      assert xs + ys == ys;
    } else {
      assert (xs + ys)[0] == xs[0];
      assert (xs + ys)[1..] == xs[1..] + ys;
      ConcatSlicesAppend(a, xs[1..], ys);
    }
  }

  /** The span of interval `k` sits in the result right after the spans of the intervals
      before it. */
  lemma ConcatSlicesPlacesSpan(a: seq<Sample>, ivs: seq<Interval>, k: nat)
    requires k < |ivs|
    ensures var before := |ConcatSlices(a, ivs[..k])|;
            var r := ConcatSlices(a, ivs);
            before + |Slice(a, ivs[k])| <= |r| &&
            r[before..before + |Slice(a, ivs[k])|] == Slice(a, ivs[k])
  {
    assert ivs == ivs[..k] + ([ivs[k]] + ivs[k + 1..]);
    ConcatSlicesAppend(a, ivs[..k], [ivs[k]] + ivs[k + 1..]);
    assert ([ivs[k]] + ivs[k + 1..])[1..] == ivs[k + 1..];
  }

  /** `remove_silence`: an empty interval list makes `np.concatenate` raise. */
  function RemoveSilence(a: seq<Sample>, ivs: seq<Interval>): (r: Option<seq<Sample>>)
    ensures r.None? <==> ivs == []
    ensures r.Some? && WellFormed(ivs, |a|) ==> |r.value| == TotalLength(ivs)
    ensures r.Some? ==> r.value == ConcatSlices(a, ivs)
  {
    if ivs == [] then None else Some(ConcatSlices(a, ivs))
  }

  // ---------------------------------------------------------------------------
  // Low-pass cutoff

  /** Half the sampling rate. */
  function Nyquist(sr: nat): real {
    sr as real / 2.0
  }

  function RMin(a: real, b: real): real { if a <= b then a else b }

  /** The normalised cutoff handed to `butter`: `lpf` already divides 8000 Hz by the
      Nyquist rate (capped at 1), and `butter_lowpass` divides by the Nyquist rate again. */
  function NormalCutoff(sr: nat): real
    requires sr > 0
  {
    RMin(8000.0 / Nyquist(sr), 1.0) / (0.5 * sr as real)
  }

  /** The cutoff the low-pass stage is meant to have: `min(8000 Hz, Nyquist)`, divided once
      by the Nyquist rate. */
  function SingleNormalCutoff(sr: nat): real
    requires sr > 0
  {
    RMin(8000.0, Nyquist(sr)) / Nyquist(sr)
  }

  /** The cutoff reaching `butter` is the once-normalised cutoff divided by the Nyquist
      rate a second time, so it is far below the intended one for any rate above 2 Hz. */
  lemma CutoffNormalisedTwice(sr: nat)
    requires sr > 0
    ensures NormalCutoff(sr) == SingleNormalCutoff(sr) / Nyquist(sr)
    ensures sr > 2 ==> NormalCutoff(sr) < SingleNormalCutoff(sr)
  {
    var nyq := Nyquist(sr);
    assert 0.5 * sr as real == nyq;
    if 8000.0 <= nyq {
      assert 8000.0 / nyq <= 1.0;
      assert RMin(8000.0 / nyq, 1.0) == 8000.0 / nyq;
      assert SingleNormalCutoff(sr) == 8000.0 / nyq;
    } else {
      assert 8000.0 / nyq > 1.0;
      assert SingleNormalCutoff(sr) == nyq / nyq == 1.0;
    }
    if sr > 2 {
      assert nyq > 1.0;
      DivideByMoreThanOne(SingleNormalCutoff(sr), nyq);
    }
  }

  lemma DivideByMoreThanOne(x: real, d: real)
    requires x > 0.0 && d > 1.0
    ensures x / d < x
  {
    var q := x / d;
    assert q * d == x;
    assert q > 0.0;
    assert q * d - q == q * (d - 1.0);
    assert q * (d - 1.0) > 0.0;
  }

  /** `scipy.signal.butter` accepts a digital cutoff only strictly between 0 and 1. */
  predicate ButterAccepts(wn: real) {
    0.0 < wn < 1.0
  }

  /** The filter stage fails (a zero rate divides by zero, `butter` rejects the cutoff)
      exactly for sampling rates of at most 2 Hz. */
  lemma {:induction false} FilterStageAccepts(sr: nat)
    ensures (sr > 0 && ButterAccepts(NormalCutoff(sr))) <==> sr > 2
  {
    if sr > 0 {
      var nyq := Nyquist(sr);
      assert 0.5 * sr as real == nyq;
      if 8000.0 <= nyq {
        assert 8000.0 / nyq <= 1.0;
        var c := 8000.0 / nyq;
        assert NormalCutoff(sr) == c / nyq;
        assert c > 0.0;
        DivideByMoreThanOne(c, nyq);
        assert c / nyq > 0.0;
      } else {
        assert 8000.0 / nyq > 1.0;
        assert NormalCutoff(sr) == 1.0 / nyq;
        if sr > 2 {
          assert nyq > 1.0;
          DivideByMoreThanOne(1.0, nyq);
        } else {
          assert nyq <= 1.0;
          assert 1.0 / nyq * nyq == 1.0;
        }
      }
    }
  }

  /** `lpf`: `None` when the division or `butter` raises. */
  function LowPass<F>(o: Oracles<F>, a: seq<Sample>, sr: nat): (r: Option<seq<Sample>>)
    ensures r.Some? <==> sr > 2
  {
    FilterStageAccepts(sr);
    if sr > 0 && ButterAccepts(NormalCutoff(sr)) then Some(o.lowpass(NormalCutoff(sr), a)) else None
  }

  // ---------------------------------------------------------------------------
  // Fixed-length normalisation

  /** Truncate to the first `MaxAudioLength` samples, or pad with zeros on the right. */
  function NormalizeLength(a: seq<Sample>): (r: seq<Sample>)
    ensures |r| == MaxAudioLength
    ensures |a| > MaxAudioLength ==> r == a[..MaxAudioLength]
    ensures |a| <= MaxAudioLength ==> r[..|a|] == a
    ensures |a| <= MaxAudioLength ==> forall i :: |a| <= i < MaxAudioLength ==> r[i] == Zero
  {
    if |a| > MaxAudioLength then a[..MaxAudioLength]
    else a + seq(MaxAudioLength - |a|, _ => Zero)
  }

  /** A buffer of exactly the canonical length is left alone, so normalising twice is
      normalising once. */
  lemma NormalizeLengthIdempotent(a: seq<Sample>)
    ensures |a| == MaxAudioLength ==> NormalizeLength(a) == a
    ensures NormalizeLength(NormalizeLength(a)) == NormalizeLength(a)
  {
    var r := NormalizeLength(a);
    assert r[..|r|] == r;
  }

  // ---------------------------------------------------------------------------
  // The pipeline

  /** `preprocess_audio(path)`: the processor's attributes afterwards and the returned tensor
      or `None`. Each stage runs only when every earlier one succeeded. */
  function Preprocess<F>(p: Processor, o: Oracles<F>, path: string): (res: (Processor, Outcome<F>))
    ensures o.load(path).None? ==> res == (p, Failed(LoadStage))
    ensures o.load(path).Some? ==> res.0.sr == Some(o.load(path).value.sr)
    ensures o.load(path).Some? && !AllFinite(o.load(path).value.samples) ==>
              res == (Processor(Some(o.load(path).value.samples), Some(o.load(path).value.sr)), Failed(FiniteStage))
    ensures (o.load(path).Some? && AllFinite(o.load(path).value.samples) &&
             o.split(o.load(path).value.samples) == []) ==> res.1 == Failed(SilenceStage)
    ensures res.1.Features? ==> o.load(path).Some? && o.load(path).value.sr > 2
    ensures res.1.Features? || res.1 == Failed(FeatureStage) ==>
              res.0.audio.Some? && |res.0.audio.value| == MaxAudioLength
    ensures res.1.Features? ==> o.mel(res.0.audio.value, res.0.sr.value) == Some(res.1.tensor)
  {
    match o.load(path)
    case None => (p, Failed(LoadStage))
    case Some(l) =>
      if !AllFinite(l.samples) then (Processor(Some(l.samples), Some(l.sr)), Failed(FiniteStage))
      else match RemoveSilence(l.samples, o.split(l.samples))
      case None => (Processor(Some(l.samples), Some(l.sr)), Failed(SilenceStage))
      case Some(trimmed) =>
        match LowPass(o, trimmed, l.sr)
        case None => (Processor(Some(trimmed), Some(l.sr)), Failed(FilterStage))
        case Some(filtered) =>
          var fixed := NormalizeLength(filtered);
          var q := Processor(Some(fixed), Some(l.sr));
          match o.mel(fixed, l.sr)
          case None => (q, Failed(FeatureStage))
          case Some(t) => (q, Features(t))
  }

  /** Two oracle sets that agree on `load` and `split`. */
  predicate SameFront<F>(o1: Oracles<F>, o2: Oracles<F>, path: string) {
    o1.load(path) == o2.load(path) &&
    (o1.load(path).Some? ==> o1.split(o1.load(path).value.samples) == o2.split(o1.load(path).value.samples))
  }

  /** When a loaded sample is not finite, silence removal, filtering and feature extraction
      never run: the outcome is the same whatever those three oracles do. */
  lemma NonFiniteStopsBeforeSilence<F>(p: Processor, o1: Oracles<F>, o2: Oracles<F>, path: string)
    requires o1.load(path) == o2.load(path)
    requires o1.load(path).Some? && !AllFinite(o1.load(path).value.samples)
    ensures Preprocess(p, o1, path) == Preprocess(p, o2, path)
    ensures Preprocess(p, o1, path).1 == Failed(FiniteStage)
  {
  }

  /** An empty interval list from the splitter ends the pipeline before filtering, whatever
      the filter and feature oracles do. */
  lemma NoIntervalsStopsBeforeFilter<F>(p: Processor, o1: Oracles<F>, o2: Oracles<F>, path: string)
    requires SameFront(o1, o2, path)
    requires o1.load(path).Some? && AllFinite(o1.load(path).value.samples)
    requires o1.split(o1.load(path).value.samples) == []
    ensures Preprocess(p, o1, path) == Preprocess(p, o2, path)
    ensures Preprocess(p, o1, path).1 == Failed(SilenceStage)
  {
  }

  /** The returned outcome never depends on what the processor held before the call. */
  lemma OutcomeIgnoresState<F>(p1: Processor, p2: Processor, o: Oracles<F>, path: string)
    ensures Preprocess(p1, o, path).1 == Preprocess(p2, o, path).1
  {
  }

  /** A successful run on a finite, non-silent, sufficiently sampled file leaves in
      `self.audio` the filtered kept spans cut or padded to the canonical length. */
  lemma PreprocessBuffer<F>(p: Processor, o: Oracles<F>, path: string)
    requires o.load(path).Some?
    requires AllFinite(o.load(path).value.samples)
    requires o.split(o.load(path).value.samples) != []
    requires o.load(path).value.sr > 2
    ensures var l := o.load(path).value;
            var trimmed := ConcatSlices(l.samples, o.split(l.samples));
            Preprocess(p, o, path).0 ==
              Processor(Some(NormalizeLength(o.lowpass(NormalCutoff(l.sr), trimmed))), Some(l.sr))
  {
  }

  /** A finite, non-silent file sampled at no more than 2 Hz fails at the filter stage,
      with the kept spans left in `self.audio`. */
  lemma PreprocessLowRate<F>(p: Processor, o: Oracles<F>, path: string)
    requires o.load(path).Some?
    requires AllFinite(o.load(path).value.samples)
    requires o.split(o.load(path).value.samples) != []
    requires o.load(path).value.sr <= 2
    ensures var l := o.load(path).value;
            Preprocess(p, o, path) ==
              (Processor(Some(ConcatSlices(l.samples, o.split(l.samples))), Some(l.sr)), Failed(FilterStage))
  {
  }

  /** A finite, non-silent file sampled above 2 Hz reaches the feature stage: the result is
      the mel-spectrogram of the normalised filtered spans, or a feature-stage failure when
      that call raises. */
  lemma PreprocessSucceeds<F>(p: Processor, o: Oracles<F>, path: string)
    requires o.load(path).Some?
    requires AllFinite(o.load(path).value.samples)
    requires o.split(o.load(path).value.samples) != []
    requires o.load(path).value.sr > 2
    ensures var l := o.load(path).value;
            var fixed := NormalizeLength(o.lowpass(NormalCutoff(l.sr), ConcatSlices(l.samples, o.split(l.samples))));
            Preprocess(p, o, path).1 ==
              match o.mel(fixed, l.sr)
              case Some(t) => Features(t)
              case None => Failed(FeatureStage)
  {
  }

  // ---------------------------------------------------------------------------
  // Augmentation

  /** One sample plus a finite offset, with float semantics for the non-finite classes. */
  function AddOffset(s: Sample, d: real): Sample {
    match s
    case Finite(x) => Finite(x + d)
    case _ => s
  }

  /** Sample `i` of `a + level * noise`. */
  function Noisy(a: seq<Sample>, level: real, noise: seq<real>, i: nat): Sample
    requires i < |a| && |noise| == |a|
  {
    AddOffset(a[i], level * noise[i])
  }

  /** `a + level * noise`, element by element. */
  function AddScaled(a: seq<Sample>, level: real, noise: seq<real>): (r: seq<Sample>)
    requires |noise| == |a|
    ensures |r| == |a|
    ensures forall i :: 0 <= i < |a| ==> r[i] == Noisy(a, level, noise, i)
  {
    seq(|a|, i requires 0 <= i < |a| && |noise| == |a| => Noisy(a, level, noise, i))
  }

  /** `add_noise(level)` with the standard-normal draw `noise` of length `len(self.audio)`
      as a parameter; `None` when no audio is loaded (`len(None)` raises). The processor is
      not changed. */
  function AddNoise(p: Processor, level: real, noise: seq<real>): (r: Option<seq<Sample>>)
    requires p.audio.Some? ==> |noise| == |p.audio.value|
    ensures r.Some? <==> p.audio.Some?
    ensures r.Some? ==> |r.value| == |p.audio.value|
    ensures r.Some? ==> forall i :: 0 <= i < |r.value| && p.audio.value[i].Finite? ==>
              r.value[i] == Finite(p.audio.value[i].x + level * noise[i])
    ensures r.Some? ==> forall i :: 0 <= i < |r.value| && !p.audio.value[i].Finite? ==>
              r.value[i] == p.audio.value[i]
  {
    match p.audio
    case None => None
    case Some(a) => Some(AddScaled(a, level, noise))
  }

  /** Noise of level zero gives back the loaded buffer. */
  lemma ZeroNoiseIsIdentity(p: Processor, noise: seq<real>)
    requires p.audio.Some? && |noise| == |p.audio.value|
    ensures AddNoise(p, 0.0, noise) == Some(p.audio.value)
  {
    var a := p.audio.value;
    var r := AddScaled(a, 0.0, noise);
    assert |r| == |a|;
    forall i | 0 <= i < |a| ensures r[i] == a[i] {
      assert r[i] == AddOffset(a[i], 0.0 * noise[i]);
      assert 0.0 * noise[i] == 0.0;
    }
    assert r == a;
  }
}
