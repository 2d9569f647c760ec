/** `TranscriptionWorker`: transcribe the selected files one after another, restore
    punctuation and capitalisation, and collect `(basename, text)` pairs; the first exception
    ends the batch with one error entry. `run` is called synchronously by the controller, so
    the signal it emits is its return value here. */
module GuiTranscriber {
  import opened Base
  import opened PyPath
  import CF = ChunkFeed

  /** The worker's collaborators:
      - `open(path)`: the wave file, or the message of the exception that
        `transcribe_audio_vosk(path)` raises anywhere (opening the file, creating the
        recognizer, feeding a chunk, decoding a JSON result);
      - `rec`: the vosk recognizer, for a file whose transcription does not raise;
      - `post(text)`: `post_processing`, the punctuation model, or the message of its exception. */
  datatype WorkerEnv<!S, !Fr> = WorkerEnv(
    open: string -> Result<CF.Wave<Fr>, string>,
    rec: CF.Recognizer<S, Fr>,
    post: string -> Result<string, string>)

  /** The worker's state: the files to transcribe and the results collected so far
      (`results` is set once in the constructor and never cleared). */
  datatype Worker = Worker(audioFiles: seq<string>, results: seq<(string, string)>)

  const ErrorName := "Error"

  /** `TranscriptionWorker(audio_files, model)` */
  function NewWorker(files: seq<string>): (w: Worker)
    ensures w.audioFiles == files && w.results == []
  {
    Worker(files, [])
  }

  /** `post_processing(transcribe_audio_vosk(f))` for one file: the enhanced transcript or
      the message of the exception raised on the way. */
  function TranscribeFile<S, Fr>(env: WorkerEnv<S, Fr>, f: string): Result<string, string> {
    match env.open(f)
    case Err(m) => Err(m)
    case Ok(w) => env.post(CF.Transcript(env.rec, w))
  }

  /** The entry `run` appends for an exception with message `m`. */
  function ErrorEntry(m: string): (string, string) {
    (ErrorName, "Error: " + m)
  }

  /** The outcome of one file, as a function of its path. */
  type FileStep = string -> Result<string, string>

  /** What one `run` appends for `files` when `one` transcribes a file: a
      `(basename, text)` pair per file until the first failure, which appends one error entry
      and ends the batch. */
  function Added(one: FileStep, files: seq<string>): (r: seq<(string, string)>)
    ensures |r| <= |files|
    ensures files != [] ==> r != []
  {
    if files == [] then []
    else match one(files[0])
      case Err(m) => [ErrorEntry(m)]
      case Ok(t) => [(Basename(files[0]), t)] + Added(one, files[1..])
  }

  /** `run()`: the worker after the batch and the list emitted through `result_ready`. */
  method Run<S, Fr>(w: Worker, env: WorkerEnv<S, Fr>) returns (w': Worker, emitted: seq<(string, string)>)
    ensures w'.audioFiles == w.audioFiles
    ensures w'.results == w.results + Added(f => TranscribeFile(env, f), w.audioFiles)
    ensures emitted == w'.results
  {
    var one: FileStep := f => TranscribeFile(env, f);
    var files := w.audioFiles;
    var results := w.results;
    var i := 0;
    while i < |files|
      invariant 0 <= i <= |files|
      invariant w.results + Added(one, files) == results + Added(one, files[i..])
    {
      assert files[i..][0] == files[i] && files[i..][1..] == files[i + 1..];
      var wav := env.open(files[i]);
      if wav.Err? {
        results := results + [ErrorEntry(wav.error)];
        break;
      }
      var text := CF.TranscribeAudio(env.rec, wav.value);
      var post := env.post(text);
      assert one(files[i]) == post;
      if post.Err? {
        results := results + [ErrorEntry(post.error)];
        break;
      }
      results := results + [(Basename(files[i]), post.value)];
      i := i + 1;
    }
    assert Added(one, files[|files|..]) == [];
    w' := Worker(files, results);
    emitted := results;
  }

  /** `get_results()` */
  function GetResults(w: Worker): seq<(string, string)> {
    w.results
  }

  /** With no exception, the batch appends one pair per file, in file order. */
  lemma {:induction false} AllSucceed(one: FileStep, files: seq<string>)
    requires forall i :: 0 <= i < |files| ==> one(files[i]).Ok?
    ensures |Added(one, files)| == |files|
    ensures forall i :: 0 <= i < |files| ==>
              Added(one, files)[i] == (Basename(files[i]), one(files[i]).value)
  {
    if files != [] {
      var rest := files[1..];
      assert forall i :: 0 <= i < |rest| ==> rest[i] == files[i + 1];
      AllSucceed(one, rest);
      var r := Added(one, files);
      assert r == [(Basename(files[0]), one(files[0]).value)] + Added(one, rest);
      forall i | 0 <= i < |files|
        ensures r[i] == (Basename(files[i]), one(files[i]).value)
      {
        if i > 0 {
          assert r[i] == Added(one, rest)[i - 1];
        }
      }
    }
  }

  /** The first exception, at file `k`, keeps the `k` earlier pairs and adds exactly one error
      entry after them; the files after `k` are never opened. */
  lemma {:induction false} FirstFailure(one: FileStep, files: seq<string>, k: nat)
    requires k < |files| && one(files[k]).Err?
    requires forall i :: 0 <= i < k ==> one(files[i]).Ok?
    ensures |Added(one, files)| == k + 1
    ensures forall i :: 0 <= i < k ==>
              Added(one, files)[i] == (Basename(files[i]), one(files[i]).value)
    ensures Added(one, files)[k] == ErrorEntry(one(files[k]).error)
    ensures Added(one, files) == Added(one, files[..k + 1])
  {
    var r := Added(one, files);
    if k > 0 {
      var rest := files[1..];
      assert forall i :: 0 <= i < |rest| ==> rest[i] == files[i + 1];
      FirstFailure(one, rest, k - 1);
      assert r == [(Basename(files[0]), one(files[0]).value)] + Added(one, rest);
      forall i | 0 <= i < k
        ensures r[i] == (Basename(files[i]), one(files[i]).value)
      {
        if i > 0 {
          assert r[i] == Added(one, rest)[i - 1];
        }
      }
      assert files[..k + 1][0] == files[0];
      assert files[..k + 1][1..] == rest[..k];
    } else {
      assert files[..1][0] == files[0];
    }
  }
}
