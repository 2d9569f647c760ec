/** `transcribe_audio_vosk` (the same code in the batch evaluator and in the GUI worker):
    read the wave file 100 ms at a time, feed every chunk to the recognizer, keep the
    utterance-final fragments and the final flush, and join them with single spaces. */
module ChunkFeed {
  import opened Base
  import opened PyStr

  /** An opened wave file: its frame rate and its frames in file order. */
  datatype Wave<Fr> = Wave(frameRate: nat, frames: seq<Fr>)

  /** What one `AcceptWaveform(chunk)` does: the recognizer's next state, whether it signalled
      an utterance boundary, and the `text` field of the `Result()` read in that case. */
  datatype Decode<S> = Decode(next: S, utteranceEnd: bool, text: string)

  /** The recognizer as an oracle: `open(rate)` is `KaldiRecognizer(model, rate)`, `accept`
      feeds one chunk, `finalResult` is `FinalResult()` — `None` for an empty result string,
      otherwise its `text` field. */
  datatype Recognizer<!S, !Fr> = Recognizer(
    open: nat -> S,
    accept: (S, seq<Fr>) -> Decode<S>,
    finalResult: S -> Option<string>)

  /** `int(sample_rate * 0.1)`: the frames in 100 ms, rounded down. */
  function ChunkSize(rate: nat): (n: nat)
    ensures 10 * n <= rate < 10 * (n + 1)
  {
    rate / 10
  }

  function Flatten<Fr>(cs: seq<seq<Fr>>): seq<Fr> {
    if cs == [] then [] else cs[0] + Flatten(cs[1..])
  }

  /** The successive `readframes(n)` results up to the first empty one: consecutive pieces of
      `n` frames, the last possibly shorter; none at all when `n` is 0. */
  function Chunks<Fr>(frames: seq<Fr>, n: nat): (cs: seq<seq<Fr>>)
    ensures n == 0 || frames == [] ==> cs == []
    ensures forall k :: 0 <= k < |cs| ==> 0 < |cs[k]| <= n
    ensures forall k :: 0 <= k < |cs| - 1 ==> |cs[k]| == n
    decreases |frames|
  {
    if n == 0 || frames == [] then []
    else if |frames| <= n then [frames]
    else [frames[..n]] + Chunks(frames[n..], n)
  }

  /** Every frame is fed exactly once and in order: the chunks put back together are the
      file's frames. */
  lemma {:induction false} ChunksCoverFrames<Fr>(frames: seq<Fr>, n: nat)
    requires n > 0
    ensures Flatten(Chunks(frames, n)) == frames
    decreases |frames|
  {
    if frames != [] && |frames| > n {
      var cs := Chunks(frames, n);
      assert cs[1..] == Chunks(frames[n..], n);
      ChunksCoverFrames(frames[n..], n);
      assert frames == frames[..n] + frames[n..];
    } else if frames != [] {
      assert Chunks(frames, n)[1..] == [];
      assert frames + [] == frames;
    }
  }

  /** The recognizer fed the chunks in order, collecting the boundary fragments after `acc`. */
  function Feed<S, Fr>(rec: Recognizer<S, Fr>, s: S, chunks: seq<seq<Fr>>, acc: seq<string>): (S, seq<string>)
  {
    if chunks == [] then (s, acc)
    else
      var d := rec.accept(s, chunks[0]);
      Feed(rec, d.next, chunks[1..], if d.utteranceEnd then acc + [d.text] else acc)
  }

  /** Feeding never drops a fragment already collected and adds at most one per chunk. */
  lemma {:induction false} FeedExtends<S, Fr>(rec: Recognizer<S, Fr>, s: S, chunks: seq<seq<Fr>>, acc: seq<string>)
    ensures var out := Feed(rec, s, chunks, acc).1;
            |acc| <= |out| <= |acc| + |chunks| && out[..|acc|] == acc
  {
    if chunks != [] {
      var d := rec.accept(s, chunks[0]);
      var acc' := if d.utteranceEnd then acc + [d.text] else acc;
      FeedExtends(rec, d.next, chunks[1..], acc');
      var out := Feed(rec, s, chunks, acc).1;
      assert out[..|acc|] == out[..|acc'|][..|acc|];
    }
  }

  /** All kept fragments: the boundary fragments, then the final flush when it is non-empty. */
  function Fragments<S, Fr>(rec: Recognizer<S, Fr>, w: Wave<Fr>): seq<string> {
    var fed := Feed(rec, rec.open(w.frameRate), Chunks(w.frames, ChunkSize(w.frameRate)), []);
    match rec.finalResult(fed.0)
    case None => fed.1
    case Some(t) => fed.1 + [t]
  }

  /** The transcript: the fragments joined by single spaces. */
  function Transcript<S, Fr>(rec: Recognizer<S, Fr>, w: Wave<Fr>): string {
    Join(" ", Fragments(rec, w))
  }

  /** One `readframes(n)` at position `pos`: the chunk read and the chunks after it. */
  lemma ChunksStep<Fr>(frames: seq<Fr>, pos: nat, n: nat)
    requires 0 < n && pos < |frames|
    ensures var data := frames[pos..Min(pos + n, |frames|)];
            Chunks(frames[pos..], n) == [data] + Chunks(frames[pos + |data|..], n)
  {
    var rest := frames[pos..];
    if |rest| > n {
      assert rest[..n] == frames[pos..pos + n];
      assert rest[n..] == frames[pos + n..];
    } else {
      assert frames[pos..Min(pos + n, |frames|)] == rest;
      assert frames[pos + |rest|..] == [];
    }
  }

  /** The read loop itself: read up to `n` frames, stop at the first empty read, feed the
      chunk, keep the fragment on an utterance boundary; then flush and join. */
  method TranscribeAudio<S, Fr>(rec: Recognizer<S, Fr>, w: Wave<Fr>) returns (text: string)
    ensures text == Join(" ", Fragments(rec, w))
  {
    var n := ChunkSize(w.frameRate);
    var s := rec.open(w.frameRate);
    var results: seq<string> := [];
    var pos := 0;
    while true
      invariant 0 <= pos <= |w.frames|
      invariant n > 0 || pos == 0
      invariant Feed(rec, s, Chunks(w.frames[pos..], n), results) ==
                Feed(rec, rec.open(w.frameRate), Chunks(w.frames, n), [])
      decreases |w.frames| - pos
    {
      var data := w.frames[pos..Min(pos + n, |w.frames|)];
      if |data| == 0 {
        break;
      }
      ChunksStep(w.frames, pos, n);
      var d := rec.accept(s, data);
      s := d.next;
      if d.utteranceEnd {
        results := results + [d.text];
      }
      pos := pos + |data|;
    }
    assert n == 0 || pos == |w.frames|;
    assert Chunks(w.frames[pos..], n) == [];
    var final := rec.finalResult(s);
    if final.Some? {
      results := results + [final.value];
    }
    text := Join(" ", results);
  }

  function TotalLength(xs: seq<string>): nat {
    if xs == [] then 0 else |xs[0]| + TotalLength(xs[1..])
  }

  /** `k` fragments joined with single spaces carry exactly `k - 1` separators, empty
      fragments included. */
  lemma {:induction false} JoinLength(xs: seq<string>)
    requires xs != []
    ensures |Join(" ", xs)| == TotalLength(xs) + |xs| - 1
  {
    if |xs| > 1 {
      JoinLength(xs[1..]);
    }
  }

  /** A file with no frames (or a rate under 10 Hz, which makes every read empty) feeds no
      chunk: the transcript is the final flush's text, or empty. */
  lemma NoChunksTranscript<S, Fr>(rec: Recognizer<S, Fr>, w: Wave<Fr>)
    requires w.frames == [] || w.frameRate < 10
    ensures Transcript(rec, w) == match rec.finalResult(rec.open(w.frameRate))
                                  case None => ""
                                  case Some(t) => t
  {
    assert Chunks(w.frames, ChunkSize(w.frameRate)) == [];
  }

  /** Only boundary fragments and the flush are kept: there are never more fragments than
      chunks plus one. */
  lemma FragmentBound<S, Fr>(rec: Recognizer<S, Fr>, w: Wave<Fr>)
    ensures |Fragments(rec, w)| <= |Chunks(w.frames, ChunkSize(w.frameRate))| + 1
  {
    FeedExtends(rec, rec.open(w.frameRate), Chunks(w.frames, ChunkSize(w.frameRate)), []);
  }
}
