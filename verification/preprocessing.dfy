/** `Preprocessor`: the `.wav` file list of a directory, the parallel list of base names,
    the optional random subsample and the per-file preprocessing loop. */
module Preprocessing {
  import opened Base
  import opened PyStr
  import opened PyPath
  import AP = AudioProcessing

  /** The attributes `audio_dir`, `num_files`, `audio_files` and `filenames`. */
  datatype Preprocessor = Preprocessor(
    audioDir: string,
    numFiles: Option<int>,
    audioFiles: seq<string>,
    filenames: seq<string>)

  predicate IsWav(name: string) {
    EndsWith(name, ".wav")
  }

  /** `[os.path.join(dir, f) for f in listing if f.endswith('.wav')]` */
  function WavPaths(dir: string, listing: seq<string>): (r: seq<string>)
    ensures |r| <= |listing|
    ensures forall p :: p in r <==> exists f :: f in listing && IsWav(f) && p == PathJoin(dir, f)
  {
    if listing == [] then []
    else
      var rest := WavPaths(dir, listing[1..]);
      assert forall f :: f in listing <==> f == listing[0] || f in listing[1..];
      (if IsWav(listing[0]) then [PathJoin(dir, listing[0])] else []) + rest
  }

  /** The filter keeps listing order: the paths of a listing `a + b` are those of `a`
      followed by those of `b`, and a single entry contributes its own path or nothing. */
  lemma {:induction false} WavPathsAppend(dir: string, a: seq<string>, b: seq<string>)
    ensures WavPaths(dir, a + b) == WavPaths(dir, a) + WavPaths(dir, b)
  {
    if a == [] {
      assert a + b == b;
    } else {
      var head := if IsWav(a[0]) then [PathJoin(dir, a[0])] else [];
      assert (a + b)[0] == a[0];
      assert (a + b)[1..] == a[1..] + b;
      assert WavPaths(dir, a + b) == head + WavPaths(dir, a[1..] + b);
      assert WavPaths(dir, a) == head + WavPaths(dir, a[1..]);
      WavPathsAppend(dir, a[1..], b);
    }
  }

  lemma WavPathsSingle(dir: string, f: string)
    ensures WavPaths(dir, [f]) == if IsWav(f) then [PathJoin(dir, f)] else []
  {
    assert [f][1..] == [];
  }

  /** `[os.path.splitext(os.path.basename(f))[0] for f in files]` */
  function Stems(files: seq<string>): (r: seq<string>)
    ensures |r| == |files|
    ensures forall i :: 0 <= i < |files| ==> r[i] == Stem(files[i])
  {
    seq(|files|, i requires 0 <= i < |files| => Stem(files[i]))
  }

  /** `Preprocessor(audio_dir, num_files)` over the directory listing `listing`. */
  function NewPreprocessor(dir: string, numFiles: Option<int>, listing: seq<string>): (p: Preprocessor)
    ensures p.audioDir == dir && p.numFiles == numFiles
    ensures p.audioFiles == WavPaths(dir, listing)
    ensures |p.filenames| == |p.audioFiles|
    ensures forall i :: 0 <= i < |p.filenames| ==> p.filenames[i] == Stem(p.audioFiles[i])
  {
    var files := WavPaths(dir, listing);
    Preprocessor(dir, numFiles, files, Stems(files))
  }

  /** A listing entry `x.wav` (directory entries contain no `/`) is named `x` in
      `filenames` when `x` has a character other than a dot; otherwise it keeps `.wav`. */
  lemma FilenameOfEntry(dir: string, x: string)
    requires forall i :: 0 <= i < |x| ==> x[i] != '/'
    ensures (exists i :: 0 <= i < |x| && x[i] != '.') ==> Stem(PathJoin(dir, x + ".wav")) == x
    ensures (forall i :: 0 <= i < |x| ==> x[i] == '.') ==> Stem(PathJoin(dir, x + ".wav")) == x + ".wav"
  {
    var name := x + ".wav";
    assert forall i :: 0 <= i < |name| ==> name[i] != '/' by {
      assert forall i :: |x| <= i < |name| ==> name[i] == ".wav"[i - |x|];
    }
    BasenameOfJoin(dir, name);
    StemOfWavName(x);
  }

  /** `random.sample(range(n), k)`: `k` distinct positions below `n`. */
  predicate IsSample(draw: seq<nat>, n: nat, k: nat) {
    && |draw| == k
    && (forall i :: 0 <= i < k ==> draw[i] < n)
    && (forall i, j :: 0 <= i < j < k ==> draw[i] != draw[j])
  }

  /** `random.sample` raises ValueError for a negative or too large sample size. */
  datatype SampleError = SampleLargerThanPopulationOrNegative

  /** The files `preprocess_directory` visits: all of them for `num_files=None`, otherwise a
      sample without replacement given by the draw `draw`. */
  function SelectFiles(files: seq<string>, numFiles: Option<int>, draw: seq<nat>): (r: Result<seq<string>, SampleError>)
    requires numFiles.Some? && 0 <= numFiles.value <= |files| ==> IsSample(draw, |files|, numFiles.value)
    ensures numFiles.None? ==> r == Ok(files)
    ensures numFiles.Some? ==> (r.Ok? <==> 0 <= numFiles.value <= |files|)
    ensures numFiles.Some? && r.Ok? ==>
              |r.value| == numFiles.value &&
              forall i :: 0 <= i < |r.value| ==> r.value[i] == files[draw[i]]
  {
    match numFiles
    case None => Ok(files)
    case Some(k) =>
      if k < 0 || k > |files| then Err(SampleLargerThanPopulationOrNegative)
      else Ok(seq(k, i requires 0 <= i < k => files[draw[i]]))
  }

  /** A sample of a duplicate-free file list is duplicate-free and drawn from the list. */
  lemma SelectionDistinct(files: seq<string>, numFiles: Option<int>, draw: seq<nat>)
    requires numFiles.Some? && 0 <= numFiles.value <= |files| ==> IsSample(draw, |files|, numFiles.value)
    requires forall i, j :: 0 <= i < j < |files| ==> files[i] != files[j]
    requires SelectFiles(files, numFiles, draw).Ok?
    ensures var sel := SelectFiles(files, numFiles, draw).value;
            (forall i, j :: 0 <= i < j < |sel| ==> sel[i] != sel[j]) &&
            (forall f :: f in sel ==> f in files)
  {
    var sel := SelectFiles(files, numFiles, draw).value;
    if numFiles.Some? {
      forall i, j | 0 <= i < j < |sel| ensures sel[i] != sel[j] {
        assert draw[i] != draw[j];
        if draw[i] < draw[j] {
          assert files[draw[i]] != files[draw[j]];
        } else {
          assert files[draw[j]] != files[draw[i]];
        }
      }
    }
  }

  /** `preprocess_directory()`: one outcome per selected file, in selection order, threading
      the shared `AudioProcessor` through the calls; a failed file does not stop the loop. */
  method PreprocessDirectory<F>(pre: Preprocessor, proc: AP.Processor, o: AP.Oracles<F>, draw: seq<nat>)
    returns (out: Result<seq<AP.Outcome<F>>, SampleError>, proc': AP.Processor)
    requires pre.numFiles.Some? && 0 <= pre.numFiles.value <= |pre.audioFiles| ==>
               IsSample(draw, |pre.audioFiles|, pre.numFiles.value)
    ensures out.Ok? <==> SelectFiles(pre.audioFiles, pre.numFiles, draw).Ok?
    ensures out.Ok? ==>
              var sel := SelectFiles(pre.audioFiles, pre.numFiles, draw).value;
              |out.value| == |sel| &&
              forall i :: 0 <= i < |sel| ==> out.value[i] == AP.Preprocess(AP.FreshProcessor, o, sel[i]).1
  {
    proc' := proc;
    var selected := SelectFiles(pre.audioFiles, pre.numFiles, draw);
    if selected.Err? {
      return Err(selected.error), proc';
    }
    var sel := selected.value;
    var data: seq<AP.Outcome<F>> := [];
    var i := 0;
    while i < |sel|
      invariant 0 <= i <= |sel|
      invariant |data| == i
      invariant forall j :: 0 <= j < i ==> data[j] == AP.Preprocess(AP.FreshProcessor, o, sel[j]).1
    {
      var step := AP.Preprocess(proc', o, sel[i]);
      AP.OutcomeIgnoresState(proc', AP.FreshProcessor, o, sel[i]);
      data := data + [step.1];
      proc' := step.0;
      i := i + 1;
    }
    out := Ok(data);
  }
}
