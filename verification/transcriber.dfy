/** `TranscriptionEvaluator`: reference lookup in `metadata.csv`, the character index, and
    the transcribe-and-score loop over a dataset. Word and character error rates, the text
    enhancement model and float formatting are oracles. */
module Transcriber {
  import opened Base
  import opened PyStr
  import opened PyPath
  import CF = ChunkFeed
  import DL = DatasetLoader

  const EmptyTranscription := "<EMPTY_TRANSCRIPTION>"
  const TranscriptionNotFound := "<TRANSCRIPTION_NOT_FOUND>"

  /** `file_name, transcription = row.strip().split('|')` raises ValueError unless the
      stripped line has exactly two `|` fields. */
  datatype LookupError = NotTwoFields(line: string)

  /** One well-formed metadata line: the id and the transcription. */
  datatype Row = Row(id: string, text: string)

  /** The fields of one metadata line. */
  function Fields(line: string): (r: seq<string>)
    ensures |r| >= 1
  {
    Split(Strip(line), "|")
  }

  /** The unpacking of one line: a row exactly when the stripped line has one `|`, which
      then separates the id from the transcription. */
  function ParseLine(line: string): (r: Option<Row>)
    ensures r.Some? <==> |Fields(line)| == 2
    ensures r.Some? ==> Strip(line) == r.value.id + "|" + r.value.text
    ensures r.Some? ==> !Contains(r.value.id, "|") && !Contains(r.value.text, "|")
  {
    var f := Fields(line);
    if |f| == 2 then
      SplitJoin(Strip(line), "|");
      SplitPiecesFree(Strip(line), "|");
      assert f[1..] == [f[1]];
      Some(Row(f[0], f[1]))
    else None
  }

  /** Every line of `metadata.csv`, unpacked. */
  function ParseAll(lines: seq<string>): (rows: seq<Option<Row>>)
    ensures |rows| == |lines|
    ensures forall j :: 0 <= j < |lines| ==> rows[j] == ParseLine(lines[j])
  {
    seq(|lines|, j requires 0 <= j < |lines| => ParseLine(lines[j]))
  }

  /** The scan of `get_ground_truth_transcription` over unpacked lines (`None` for a line
      that does not unpack): stop at the first match or the first malformed line. */
  function Lookup(rows: seq<Option<Row>>, name: string): (r: Result<string, nat>)
    ensures r.Ok? ==> r.value != ""
    ensures r.Err? ==> r.error < |rows| && rows[r.error].None?
  {
    if rows == [] then Ok(TranscriptionNotFound)
    else match rows[0]
      case None => Err(0)
      case Some(row) =>
        if row.id == name then (if row.text == "" then Ok(EmptyTranscription) else Ok(row.text))
        else match Lookup(rows[1..], name)
          case Ok(t) => Ok(t)
          case Err(k) => Err(k + 1)
  }

  /** `get_ground_truth_transcription(name)` over the lines of `metadata.csv`: the text of the
      first line whose id is `name` (an empty one replaced by the empty sentinel), the
      not-found sentinel when no line matches, and the ValueError of the first malformed line
      met before a match. The result is never empty. */
  function GroundTruth(lines: seq<string>, name: string): (r: Result<string, LookupError>)
    ensures r.Ok? ==> r.value != ""
    ensures lines == [] ==> r == Ok(TranscriptionNotFound)
    ensures r.Err? ==> exists k :: 0 <= k < |lines| && ParseLine(lines[k]).None? && r.error == NotTwoFields(lines[k])
  {
    match Lookup(ParseAll(lines), name)
    case Ok(t) => Ok(t)
    case Err(k) => Err(NotTwoFields(lines[k]))
  }

  /** Line `k` is the first match and every line before it is a well-formed non-match. */
  predicate FirstMatchAt(rows: seq<Option<Row>>, name: string, k: nat) {
    && k < |rows|
    && (forall j :: 0 <= j < k ==> rows[j].Some? && rows[j].value.id != name)
    && rows[k].Some? && rows[k].value.id == name
  }

  /** The lookup returns the first match's text, the empty sentinel for an empty text. */
  lemma {:induction false} LookupFirstMatch(rows: seq<Option<Row>>, name: string, k: nat)
    requires FirstMatchAt(rows, name, k)
    ensures Lookup(rows, name) ==
              Ok(if rows[k].value.text == "" then EmptyTranscription else rows[k].value.text)
  {
    if k > 0 {
      assert FirstMatchAt(rows[1..], name, k - 1);
      LookupFirstMatch(rows[1..], name, k - 1);
    }
  }

  /** With every line well-formed and none matching, the result is the not-found sentinel. */
  lemma {:induction false} LookupNotFound(rows: seq<Option<Row>>, name: string)
    requires forall j :: 0 <= j < |rows| ==> rows[j].Some? && rows[j].value.id != name
    ensures Lookup(rows, name) == Ok(TranscriptionNotFound)
  {
    if rows != [] {
      LookupNotFound(rows[1..], name);
    }
  }

  /** A malformed line met before any match raises, naming that line. */
  lemma {:induction false} LookupMalformed(rows: seq<Option<Row>>, name: string, k: nat)
    requires k < |rows| && rows[k].None?
    requires forall j :: 0 <= j < k ==> rows[j].Some? && rows[j].value.id != name
    ensures Lookup(rows, name) == Err(k)
  {
    if k > 0 {
      LookupMalformed(rows[1..], name, k - 1);
    }
  }

  /** Lines after a decided lookup (a match or an error) are never examined. */
  lemma {:induction false} LookupStopsEarly(pre: seq<Option<Row>>, rest: seq<Option<Row>>, name: string)
    requires Lookup(pre, name) != Ok(TranscriptionNotFound)
    ensures Lookup(pre + rest, name) == Lookup(pre, name)
  {
    var all := pre + rest;
    assert all[0] == pre[0];
    if pre[0].Some? && pre[0].value.id != name {
      assert all[1..] == pre[1..] + rest;
      LookupStopsEarly(pre[1..], rest, name);
    }
  }

  // ---------------------------------------------------------------------------
  // Character index

  /** The transcription of every line, or the index of the first malformed one. */
  function Texts(rows: seq<Option<Row>>): (r: Result<seq<string>, nat>)
    ensures r.Ok? <==> forall j :: 0 <= j < |rows| ==> rows[j].Some?
    ensures r.Ok? ==> |r.value| == |rows|
    ensures r.Ok? ==> forall j :: 0 <= j < |rows| ==> r.value[j] == rows[j].value.text
    ensures r.Err? ==> r.error < |rows| && rows[r.error].None?
  {
    if rows == [] then Ok([])
    else match rows[0]
      case None => Err(0)
      case Some(row) =>
        match Texts(rows[1..])
        case Err(k) => Err(k + 1)
        case Ok(ts) => Ok([row.text] + ts)
  }

  function Concat(ts: seq<string>): (r: string)
    ensures forall c :: c in r <==> exists t :: t in ts && c in t
  {
    if ts == [] then []
    else
      var rest := Concat(ts[1..]);
      assert forall t :: t in ts <==> t == ts[0] || t in ts[1..];
      ts[0] + rest
  }

  predicate StrictlySorted(xs: seq<char>) {
    forall i, j :: 0 <= i < j < |xs| ==> xs[i] < xs[j]
  }

  /** Insert `c` into a strictly sorted sequence unless it is already there. */
  function Insert(xs: seq<char>, c: char): (r: seq<char>)
    requires StrictlySorted(xs)
    ensures StrictlySorted(r)
    ensures forall d :: d in r <==> d in xs || d == c
  {
    if xs == [] then [c]
    else if c < xs[0] then [c] + xs
    else if c == xs[0] then xs
    else
      var rest := Insert(xs[1..], c);
      assert forall d :: d in rest ==> xs[0] < d;
      [xs[0]] + rest
  }

  /** `sorted(set(s))` */
  function SortedDistinct(s: string): (r: seq<char>)
    ensures StrictlySorted(r)
    ensures forall c :: c in r <==> c in s
  {
    if s == [] then [] else Insert(SortedDistinct(s[..|s| - 1]), s[|s| - 1])
  }

  function IndexOf(xs: seq<char>, c: char): (i: nat)
    requires c in xs
    ensures i < |xs| && xs[i] == c
  {
    if xs[0] == c then 0 else 1 + IndexOf(xs[1..], c)
  }

  /** The distinct elements of a strictly sorted sequence are as many as its length. */
  lemma {:induction false} SortedCard(xs: seq<char>)
    requires StrictlySorted(xs)
    ensures |set c | c in xs| == |xs|
  {
    if xs != [] {
      SortedCard(xs[1..]);
      assert (set c | c in xs) == {xs[0]} + (set c | c in xs[1..]);
      assert xs[0] !in xs[1..];
    }
  }

  /** Positions in a strictly sorted sequence, as a map: ranks in code-point order. */
  function RankMap(xs: seq<char>): (m: map<char, nat>)
    requires StrictlySorted(xs)
    ensures forall c :: c in m <==> c in xs
    ensures forall c :: c in m ==> m[c] < |m|
    ensures forall c, d :: c in m && d in m && c < d ==> m[c] < m[d]
  {
    var m := map c | c in xs :: IndexOf(xs, c);
    SortedCard(xs);
    assert m.Keys == set c | c in xs;
    forall c, d | c in m && d in m && c < d ensures m[c] < m[d] {
      var i, j := IndexOf(xs, c), IndexOf(xs, d);
      assert i != j;
    }
    m
  }

  /** The characters of the transcriptions are the characters of the well-formed rows. */
  lemma TextsChars(rows: seq<Option<Row>>)
    requires Texts(rows).Ok?
    ensures forall c :: c in Concat(Texts(rows).value) <==>
              exists j :: 0 <= j < |rows| && c in rows[j].value.text
  {
    var ts := Texts(rows).value;
    forall c ensures c in Concat(ts) <==> exists j :: 0 <= j < |rows| && c in rows[j].value.text {
      if c in Concat(ts) {
        var t :| t in ts && c in t;
        var j :| 0 <= j < |ts| && ts[j] == t;
        assert c in rows[j].value.text;
      }
      if exists j :: 0 <= j < |rows| && c in rows[j].value.text {
        var j :| 0 <= j < |rows| && c in rows[j].value.text;
        assert ts[j] in ts;
      }
    }
  }

  /** `prepare_char_to_index()`: every character of every transcription mapped to its rank in
      code-point order; ValueError for any malformed line, in which case nothing is stored. */
  function CharToIndex(lines: seq<string>): (r: Result<map<char, nat>, LookupError>)
    ensures r.Ok? <==> forall j :: 0 <= j < |lines| ==> ParseAll(lines)[j].Some?
    ensures r.Err? ==> exists k :: 0 <= k < |lines| && ParseLine(lines[k]).None? && r.error == NotTwoFields(lines[k])
    ensures r.Ok? ==> forall c :: c in r.value <==>
              exists j :: 0 <= j < |lines| && c in ParseAll(lines)[j].value.text
    ensures r.Ok? ==> forall c :: c in r.value ==> r.value[c] < |r.value|
    ensures r.Ok? ==> forall c, d :: c in r.value && d in r.value && c < d ==> r.value[c] < r.value[d]
  {
    var rows := ParseAll(lines);
    match Texts(rows)
    case Err(k) => Err(NotTwoFields(lines[k]))
    case Ok(ts) =>
      TextsChars(rows);
      Ok(RankMap(SortedDistinct(Concat(ts))))
  }

  /** The character index is injective: distinct characters get distinct indices. */
  lemma CharToIndexInjective(lines: seq<string>, c: char, d: char)
    ensures CharToIndex(lines).Ok? && c in CharToIndex(lines).value && d in CharToIndex(lines).value && c != d ==>
              CharToIndex(lines).value[c] != CharToIndex(lines).value[d]
  {
    if c != d && !(d < c) {
      assert c < d;
    }
  }

  // ---------------------------------------------------------------------------
  // Transcribe and evaluate

  /** The evaluator's directories and collaborators:
      - `open(path)`: `wave.open`, `None` when transcription raises;
      - `restore(text)`: the German punctuation and capitalisation model;
      - `wer(reference, hypothesis)`: `jiwer.wer`;
      - `cer(preds, target)`: torchmetrics `CharErrorRate`, called as `cer(reference, hypothesis)`;
      - `show(x)`: `str(x)` of a float;
      - `size(item)`: `len(spectrograms)`, `None` when it raises (a `None` entry). */
  datatype EvalEnv<!S, !Fr, !D> = EvalEnv(
    audioDir: string,
    metadata: seq<string>,
    open: string -> Option<CF.Wave<Fr>>,
    rec: CF.Recognizer<S, Fr>,
    restore: string -> string,
    wer: (string, string) -> real,
    cer: (string, string) -> real,
    show: real -> string,
    size: D -> Option<nat>)

  /** One `(filename, WER, CER)` tuple of the returned list. */
  datatype EvalRecord = EvalRecord(id: string, wer: real, cer: real)

  /** What ends `transcribe_and_evaluate` with an exception. */
  datatype EvalAbort = Unsized | BadReference(error: LookupError)

  /** The hypothesis for one file: the enhanced transcript, or "" when transcription raises. */
  function Hypothesis<S, Fr, D>(env: EvalEnv<S, Fr, D>, name: string): string {
    match env.open(PathJoin(env.audioDir, name + ".wav"))
    case None => ""
    case Some(w) => env.restore(CF.Transcript(env.rec, w))
  }

  /** `{id}: '{hyp}' | '{ref}'. WER = {w}` */
  function ReportLine(id: string, hyp: string, ref: string, wer: string): string {
    id + ": '" + hyp + "' | '" + ref + "'. WER = " + wer
  }

  /** One inner iteration: the report line and the tuple, or the lookup's ValueError. */
  function EvalOne<S, Fr, D>(env: EvalEnv<S, Fr, D>, name: string): (r: Result<(string, EvalRecord), LookupError>)
    ensures r.Ok? <==> GroundTruth(env.metadata, name).Ok?
    ensures r.Ok? ==>
              var ref := GroundTruth(env.metadata, name).value;
              var hyp := Hypothesis(env, name);
              r.value.1 == EvalRecord(name, env.wer(ref, hyp), env.cer(ref, hyp)) &&
              r.value.0 == ReportLine(name, hyp, ref, env.show(r.value.1.wer))
  {
    var hyp := Hypothesis(env, name);
    match GroundTruth(env.metadata, name)
    case Err(e) => Err(e)
    case Ok(ref) =>
      var w := env.wer(ref, hyp);
      Ok((ReportLine(name, hyp, ref, env.show(w)), EvalRecord(name, w, env.cer(ref, hyp))))
  }

  /** Lines written and tuples collected, and the exception that ended the loop, if any. */
  datatype EvalTrace = EvalTrace(lines: seq<string>, records: seq<EvalRecord>, abort: Option<EvalAbort>)

  /** `lines` and `records` written before the run `t`. */
  function After(lines: seq<string>, records: seq<EvalRecord>, t: EvalTrace): EvalTrace {
    EvalTrace(lines + t.lines, records + t.records, t.abort)
  }

  /** One inner iteration, as a function of the file name. */
  type Step = string -> Result<(string, EvalRecord), LookupError>

  /** The reference run over the dataset pairs, given `len` of an item and the outcome of one
      inner iteration: item `i` is evaluated `len(item)` times and the first exception ends the
      run, everything written before it kept in the report. */
  function Evaluate<D>(size: D -> Option<nat>, one: Step, pairs: seq<(D, string)>): EvalTrace
    decreases |pairs|, 0
  {
    if pairs == [] then EvalTrace([], [], None)
    else match size(pairs[0].0)
      case None => EvalTrace([], [], Some(Unsized))
      case Some(k) => Remaining(size, one, pairs[0].1, k, pairs[1..])
  }

  /** The run from the point where `m` inner iterations for `name` are still due. */
  function Remaining<D>(size: D -> Option<nat>, one: Step, name: string, m: nat, rest: seq<(D, string)>): EvalTrace
    decreases |rest|, m + 1
  {
    if m == 0 then Evaluate(size, one, rest)
    else match one(name)
      case Err(e) => EvalTrace([], [], Some(BadReference(e)))
      case Ok(r) => After([r.0], [r.1], Remaining(size, one, name, m - 1, rest))
  }

  /** A report line opens with its id and closes with its printed WER. */
  predicate LineFor(line: string, id: string, wer: string) {
    StartsWith(line, id + ": '") && EndsWith(line, "'. WER = " + wer)
  }

  lemma ReportLineFor(id: string, hyp: string, ref: string, wer: string)
    ensures LineFor(ReportLine(id, hyp, ref, wer), id, wer)
  {
    var line := ReportLine(id, hyp, ref, wer);
    assert line == (id + ": '") + (hyp + "' | '" + ref) + ("'. WER = " + wer);
  }

  /** Every successful inner iteration writes the line of the tuple it returns. */
  ghost predicate StepWritesOwnLine(one: Step, show: real -> string) {
    forall n :: one(n).Ok? ==> LineFor(one(n).value.0, one(n).value.1.id, show(one(n).value.1.wer))
  }

  /** The evaluator's inner iteration has that property. */
  lemma EvalOneWritesOwnLine<S, Fr, D>(env: EvalEnv<S, Fr, D>)
    ensures StepWritesOwnLine(n => EvalOne(env, n), env.show)
  {
    forall n | EvalOne(env, n).Ok?
      ensures LineFor(EvalOne(env, n).value.0, EvalOne(env, n).value.1.id, env.show(EvalOne(env, n).value.1.wer))
    {
      var r := EvalOne(env, n).value;
      ReportLineFor(n, Hypothesis(env, n), GroundTruth(env.metadata, n).value, env.show(r.1.wer));
    }
  }

  /** Line `j` of the report is written for tuple `j`: same id, same WER. */
  predicate Aligned(show: real -> string, t: EvalTrace) {
    && |t.lines| == |t.records|
    && forall j :: 0 <= j < |t.lines| ==> LineFor(t.lines[j], t.records[j].id, show(t.records[j].wer))
  }

  /** Every report line belongs to the tuple at the same position. */
  lemma {:induction false} EvaluateAligned<D>(size: D -> Option<nat>, one: Step, show: real -> string, pairs: seq<(D, string)>)
    requires StepWritesOwnLine(one, show)
    ensures Aligned(show, Evaluate(size, one, pairs))
    decreases |pairs|, 0
  {
    if pairs != [] && size(pairs[0].0).Some? {
      RemainingAligned(size, one, show, pairs[0].1, size(pairs[0].0).value, pairs[1..]);
    }
  }

  lemma {:induction false} RemainingAligned<D>(size: D -> Option<nat>, one: Step, show: real -> string,
                                               name: string, m: nat, rest: seq<(D, string)>)
    requires StepWritesOwnLine(one, show)
    ensures Aligned(show, Remaining(size, one, name, m, rest))
    decreases |rest|, m + 1
  {
    if m == 0 {
      EvaluateAligned(size, one, show, rest);
    } else if one(name).Ok? {
      RemainingAligned(size, one, show, name, m - 1, rest);
      var tail := Remaining(size, one, name, m - 1, rest);
      var t := Remaining(size, one, name, m, rest);
      forall j | 0 <= j < |t.lines|
        ensures LineFor(t.lines[j], t.records[j].id, show(t.records[j].wer))
      {
        if j > 0 {
          assert t.lines[j] == tail.lines[j - 1] && t.records[j] == tail.records[j - 1];
        }
      }
    }
  }

  /** With one channel per tensor and every inner iteration succeeding with a tuple for its
      own file, the run writes one tuple per item, in dataset order, and ends normally. */
  lemma {:induction false} OneRecordPerItem<D>(size: D -> Option<nat>, one: Step, pairs: seq<(D, string)>)
    requires forall i :: 0 <= i < |pairs| ==> size(pairs[i].0) == Some(1)
    requires forall i :: 0 <= i < |pairs| ==> one(pairs[i].1).Ok? && one(pairs[i].1).value.1.id == pairs[i].1
    ensures Evaluate(size, one, pairs).abort.None?
    ensures |Evaluate(size, one, pairs).records| == |pairs|
    ensures forall i :: 0 <= i < |pairs| ==> Evaluate(size, one, pairs).records[i].id == pairs[i].1
  {
    if pairs != [] {
      var rest := pairs[1..];
      assert forall i :: 0 <= i < |rest| ==> rest[i] == pairs[i + 1];
      OneRecordPerItem(size, one, rest);
      var t := Evaluate(size, one, pairs);
      var tail := Evaluate(size, one, rest);
      var r := one(pairs[0].1).value;
      assert Remaining(size, one, pairs[0].1, 0, rest) == tail;
      assert Remaining(size, one, pairs[0].1, 1, rest) == After([r.0], [r.1], tail);
      assert t == After([r.0], [r.1], tail);
      forall i | 0 <= i < |pairs| ensures t.records[i].id == pairs[i].1 {
        if i > 0 {
          assert t.records[i] == tail.records[i - 1];
        }
      }
    }
  }

  /** The evaluator's inner iteration returns the tuple of the file it was given, and fails
      only on a malformed reference line. */
  lemma EvalOneRecordsOwnFile<S, Fr, D>(env: EvalEnv<S, Fr, D>, n: string)
    ensures EvalOne(env, n).Ok? ==> EvalOne(env, n).value.1.id == n
    ensures EvalOne(env, n).Err? ==> GroundTruth(env.metadata, n).Err?
  {
  }

  /** The loop of `transcribe_and_evaluate` with the inner iteration given as `one`: the
      report lines written and the returned tuples, or the exception that escaped (the lines
      written before it stay in the file). */
  method RunEvaluation<D>(size: D -> Option<nat>, one: Step, ds: DL.SpeechDataset<D>)
    returns (lines: seq<string>, out: Result<seq<EvalRecord>, EvalAbort>)
    ensures var t := Evaluate(size, one, DL.Pairs(ds));
            lines == t.lines &&
            out == (if t.abort.Some? then Err(t.abort.value) else Ok(t.records))
  {
    var pairs := DL.Iterate(ds);
    assert pairs == DL.Pairs(ds);
    lines := [];
    var results: seq<EvalRecord> := [];
    var i := 0;
    while i < |pairs|
      invariant 0 <= i <= |pairs|
      invariant Evaluate(size, one, pairs) == After(lines, results, Evaluate(size, one, pairs[i..]))
    {
      var (spectrograms, name) := pairs[i];
      assert pairs[i..][1..] == pairs[i + 1..];
      var k := size(spectrograms);
      if k.None? {
        return lines, Err(Unsized);
      }
      var j := 0;
      while j < k.value
        invariant 0 <= j <= k.value
        invariant Evaluate(size, one, pairs) ==
                  After(lines, results, Remaining(size, one, name, k.value - j, pairs[i + 1..]))
      {
        var r := one(name);
        if r.Err? {
          return lines, Err(BadReference(r.error));
        }
        var tail := Remaining(size, one, name, k.value - j - 1, pairs[i + 1..]);
        assert lines + [r.value.0] + tail.lines == lines + ([r.value.0] + tail.lines);
        assert results + [r.value.1] + tail.records == results + ([r.value.1] + tail.records);
        lines := lines + [r.value.0];
        results := results + [r.value.1];
        j := j + 1;
      }
      i := i + 1;
    }
    assert lines + [] == lines && results + [] == results;
    out := Ok(results);
  }

  /** `transcribe_and_evaluate(model, dataset)` */
  method TranscribeAndEvaluate<S, Fr, D>(env: EvalEnv<S, Fr, D>, ds: DL.SpeechDataset<D>)
    returns (lines: seq<string>, out: Result<seq<EvalRecord>, EvalAbort>)
    ensures var t := Evaluate(env.size, n => EvalOne(env, n), DL.Pairs(ds));
            lines == t.lines &&
            out == (if t.abort.Some? then Err(t.abort.value) else Ok(t.records))
  {
    lines, out := RunEvaluation(env.size, n => EvalOne(env, n), ds);
  }
}
