/** The Kaldi data-directory export of `Dataset_dirs.py`: every gender folder, every speaker
    folder in it and every readable subfolder's `metadata.csv` row become one utterance with
    a global consecutive id, written to `wav.scp`, `text`, `utt2spk`, `corpus.txt` and
    `segments`; `spk2gender` gets a line per speaker folder and `spk2utt` groups the
    utterances by speaker once every folder has been read. The directory tree, the csv rows
    and the wav durations are inputs. */
module KaldiExport {
  import opened Base
  import opened PyStr
  import opened PyPath

  /** A subfolder of a speaker folder: its path, whether it is a directory, and the rows of
      its `metadata.csv` (`None` when there is no such file). Each row is the list of its
      `|`-separated fields as `csv.reader` yields it (an empty line is an empty row). */
  datatype Subfolder = Subfolder(path: string, isDir: bool, metadata: Option<seq<seq<string>>>)

  datatype SpeakerFolder = SpeakerFolder(path: string, subfolders: seq<Subfolder>)

  datatype GenderFolder = GenderFolder(path: string, speakers: seq<SpeakerFolder>)

  /** The walk over the tree, in visiting order: a speaker folder is announced with the
      gender of its parent, then each readable row of it follows; an empty gender folder path
      makes `gender_folder[-1]` raise. */
  datatype Event =
    | SpeakerSeen(speaker: string, gender: char)
    | RowSeen(speaker: string, subfolder: string, row: seq<string>)
    | GenderUnreadable

  function SubfolderEvents(speaker: string, subs: seq<Subfolder>): seq<Event> {
    if subs == [] then []
    else
      var sub := subs[0];
      var here := if sub.isDir && sub.metadata.Some?
                  then seq(|sub.metadata.value|, k requires 0 <= k < |sub.metadata.value| =>
                         RowSeen(speaker, sub.path, sub.metadata.value[k]))
                  else [];
      here + SubfolderEvents(speaker, subs[1..])
  }

  function SpeakerEvents(gender: char, speakers: seq<SpeakerFolder>): seq<Event> {
    if speakers == [] then []
    else
      var id := Basename(speakers[0].path);
      [SpeakerSeen(id, gender)] + SubfolderEvents(id, speakers[0].subfolders) + SpeakerEvents(gender, speakers[1..])
  }

  /** One gender folder: its gender is the last character of its path. */
  function FolderEvents(g: GenderFolder): seq<Event> {
    if g.path == [] then [GenderUnreadable] else SpeakerEvents(g.path[|g.path| - 1], g.speakers)
  }

  /** The events of every element of `xs` in turn. */
  function FlatMap<T>(f: T -> seq<Event>, xs: seq<T>): seq<Event> {
    if xs == [] then [] else f(xs[0]) + FlatMap(f, xs[1..])
  }

  /** The three nested loops of the export, flattened. */
  function Events(genders: seq<GenderFolder>): seq<Event> {
    FlatMap(FolderEvents, genders)
  }

  /** One utterance written: its new name, speaker, wav path, transcription, the printed end
      time and its id. */
  datatype Record = Record(name: string, speaker: string, wavPath: string, transcription: string,
                           endTime: string, id: nat)

  /** The export so far: the lines of each output file, the `spk2utt` dictionary as its
      insertion-ordered items, the next utterance id, the records written, and whether an
      exception has ended the walk. */
  datatype Export = Export(
    wavScp: seq<string>,
    text: seq<string>,
    utt2spk: seq<string>,
    spk2gender: seq<string>,
    corpus: seq<string>,
    segments: seq<string>,
    spk2utt: seq<(string, seq<string>)>,
    nextId: nat,
    records: seq<Record>,
    failed: bool)

  /** `utterance_id = 1` and every output empty. */
  const Start := Export([], [], [], [], [], [], [], 1, [], false)

  /** `f'{speaker_id}_{utterance_id}'` */
  function UttName(speaker: string, id: nat): string {
    speaker + "_" + NatToString(id)
  }

  /** `spk2utt_dict[speaker].append(name)`, creating the entry at the end when it is new. */
  function AddUtt(assoc: seq<(string, seq<string>)>, speaker: string, name: string): (r: seq<(string, seq<string>)>)
    ensures |r| == |assoc| || r == assoc + [(speaker, [name])]
    ensures forall i :: 0 <= i < |assoc| ==> r[i].0 == assoc[i].0
  {
    if assoc == [] then [(speaker, [name])]
    else if assoc[0].0 == speaker then [(speaker, assoc[0].1 + [name])] + assoc[1..]
    else [assoc[0]] + AddUtt(assoc[1..], speaker, name)
  }

  /** The names of `speaker`'s records, in write order. */
  function NamesOf(records: seq<Record>, speaker: string): seq<string> {
    if records == [] then []
    else
      var last := records[|records| - 1];
      NamesOf(records[..|records| - 1], speaker) + if last.speaker == speaker then [last.name] else []
  }

  /** The `spk2utt` items agree with the records: each speaker once, with exactly its
      records' names in write order (so never an empty list), and every speaker with a
      record present. */
  ghost predicate GroupsAgree(assoc: seq<(string, seq<string>)>, records: seq<Record>) {
    && (forall i, j :: 0 <= i < j < |assoc| ==> assoc[i].0 != assoc[j].0)
    && (forall i :: 0 <= i < |assoc| ==> assoc[i].1 == NamesOf(records, assoc[i].0) && assoc[i].1 != [])
    && (forall s :: NamesOf(records, s) != [] ==> exists i :: 0 <= i < |assoc| && assoc[i].0 == s)
  }

  /** Record `k` (counting from 0) has id `k + 1`, is named after its speaker and id, and
      its lines in the five per-record files sit at position `k`. */
  ghost predicate RecordsWritten(e: Export) {
    && |e.records| + 1 == e.nextId
    && |e.wavScp| == |e.records| && |e.text| == |e.records| && |e.utt2spk| == |e.records|
    && |e.segments| == |e.records| && e.corpus == e.text
    && forall k :: 0 <= k < |e.records| ==>
         var r := e.records[k];
         && r.id == k + 1 && r.name == UttName(r.speaker, k + 1)
         && e.wavScp[k] == r.name + " " + r.wavPath
         && e.text[k] == r.name + " " + r.transcription
         && e.utt2spk[k] == r.name + " " + r.speaker
         && e.segments[k] == r.name + " " + r.name + " 0.00 " + r.endTime
  }

  ghost predicate Consistent(e: Export) {
    RecordsWritten(e) && GroupsAgree(e.spk2utt, e.records)
  }

  /** The lines of one record appended to the export. */
  function Write(e: Export, r: Record): Export {
    e.(wavScp := e.wavScp + [r.name + " " + r.wavPath],
       text := e.text + [r.name + " " + r.transcription],
       utt2spk := e.utt2spk + [r.name + " " + r.speaker],
       corpus := e.corpus + [r.name + " " + r.transcription],
       segments := e.segments + [r.name + " " + r.name + " 0.00 " + r.endTime],
       spk2utt := AddUtt(e.spk2utt, r.speaker, r.name),
       nextId := e.nextId + 1,
       records := e.records + [r])
  }

  /** One event of the walk, given `duration(path)` (`None` when `sf.SoundFile` raises) and
      `show(x)`, the `%.2f` formatting. A row with fewer than two fields raises IndexError and
      ends the walk; a wav that cannot be read skips the row without using an id. */
  function Step(e: Export, ev: Event, duration: string -> Option<real>, show: real -> string): Export {
    if e.failed then e
    else match ev
      case GenderUnreadable => e.(failed := true)
      case SpeakerSeen(s, g) => e.(spk2gender := e.spk2gender + [s + " " + [g]])
      case RowSeen(s, sub, row) =>
        if |row| < 2 then e.(failed := true)
        else
          var wav := PathJoin(PathJoin(sub, "wavs"), row[0] + ".wav");
          match duration(wav)
          case None => e
          case Some(d) => Write(e, Record(UttName(s, e.nextId), s, wav, row[1], show(d), e.nextId))
  }

  /** The walk over `events` from the start. */
  function Run(events: seq<Event>, duration: string -> Option<real>, show: real -> string): Export {
    if events == [] then Start
    else Step(Run(events[..|events| - 1], duration, show), events[|events| - 1], duration, show)
  }

  /** `f'{speaker_id} {" ".join(utt_ids)}'` for every `spk2utt` item. */
  function Spk2UttLines(assoc: seq<(string, seq<string>)>): (r: seq<string>)
    ensures |r| == |assoc|
  {
    if assoc == [] then [] else [assoc[0].0 + " " + Join(" ", assoc[0].1)] + Spk2UttLines(assoc[1..])
  }

  // ---------------------------------------------------------------------------
  // The spk2utt grouping

  lemma NamesOfSnoc(records: seq<Record>, r: Record, s: string)
    ensures NamesOf(records + [r], s) == NamesOf(records, s) + if r.speaker == s then [r.name] else []
  {
    assert (records + [r])[..|records|] == records;
  }

  /** Adding a record to the group of its speaker keeps the groups in agreement. */
  lemma AddUttAgrees(assoc: seq<(string, seq<string>)>, records: seq<Record>, r: Record)
    requires GroupsAgree(assoc, records)
    ensures GroupsAgree(AddUtt(assoc, r.speaker, r.name), records + [r])
  {
    if i :| 0 <= i < |assoc| && assoc[i].0 == r.speaker {
      AddUttKnown(assoc, r.speaker, r.name, i);
      AgreeExisting(assoc, records, r, i);
    } else {
      AddUttUnknown(assoc, r.speaker, r.name);
      AgreeNew(assoc, records, r);
    }
  }

  /** The record's speaker already has a group: that group grows by the record's name. */
  lemma AgreeExisting(assoc: seq<(string, seq<string>)>, records: seq<Record>, r: Record, i: nat)
    requires GroupsAgree(assoc, records)
    requires i < |assoc| && assoc[i].0 == r.speaker
    ensures GroupsAgree(assoc[i := (r.speaker, assoc[i].1 + [r.name])], records + [r])
  {
    var all := records + [r];
    var out := assoc[i := (r.speaker, assoc[i].1 + [r.name])];
    forall j | 0 <= j < |out| ensures out[j].1 == NamesOf(all, out[j].0) {
      NamesOfSnoc(records, r, out[j].0);
    }
    forall t | NamesOf(all, t) != [] ensures exists k :: 0 <= k < |out| && out[k].0 == t {
      NamesOfSnoc(records, r, t);
      if t == r.speaker {
        assert out[i].0 == t;
      } else {
        var k :| 0 <= k < |assoc| && assoc[k].0 == t;
        assert out[k].0 == t;
      }
    }
  }

  /** The record's speaker has no group yet: a new group holding only its name comes last. */
  lemma AgreeNew(assoc: seq<(string, seq<string>)>, records: seq<Record>, r: Record)
    requires GroupsAgree(assoc, records)
    requires forall i :: 0 <= i < |assoc| ==> assoc[i].0 != r.speaker
    ensures GroupsAgree(assoc + [(r.speaker, [r.name])], records + [r])
  {
    var all := records + [r];
    var out := assoc + [(r.speaker, [r.name])];
    NamesOfSnoc(records, r, r.speaker);
    forall j | 0 <= j < |out| ensures out[j].1 == NamesOf(all, out[j].0) {
      NamesOfSnoc(records, r, out[j].0);
    }
    forall t | NamesOf(all, t) != [] ensures exists k :: 0 <= k < |out| && out[k].0 == t {
      NamesOfSnoc(records, r, t);
      if t == r.speaker {
        assert out[|assoc|].0 == t;
      } else {
        var k :| 0 <= k < |assoc| && assoc[k].0 == t;
        assert out[k].0 == t;
      }
    }
  }

  /** `AddUtt` appends the name to the speaker's own entry when there is one, leaving every
      other entry untouched. */
  lemma {:induction false} AddUttKnown(assoc: seq<(string, seq<string>)>, speaker: string, name: string, i: nat)
    requires forall j, k :: 0 <= j < k < |assoc| ==> assoc[j].0 != assoc[k].0
    requires i < |assoc| && assoc[i].0 == speaker
    ensures AddUtt(assoc, speaker, name) == assoc[i := (speaker, assoc[i].1 + [name])]
  {
    if i > 0 {
      assert assoc[0].0 != assoc[i].0;
      var rest := assoc[1..];
      assert forall j, k :: 0 <= j < k < |rest| ==> rest[j].0 != rest[k].0 by {
        forall j, k | 0 <= j < k < |rest| ensures rest[j].0 != rest[k].0 {
          assert rest[j] == assoc[j + 1] && rest[k] == assoc[k + 1];
        }
      }
      AddUttKnown(rest, speaker, name, i - 1);
      var r := AddUtt(assoc, speaker, name);
      var t := AddUtt(rest, speaker, name);
      var u := assoc[i := (speaker, assoc[i].1 + [name])];
      assert r == [assoc[0]] + t;
      assert t == rest[i - 1 := (speaker, rest[i - 1].1 + [name])];
      forall j | 0 <= j < |u| ensures u[j] == r[j] {
        if j > 0 {
          assert r[j] == t[j - 1];
          assert rest[j - 1] == assoc[j];
        }
      }
      assert u == r;
    }
  }

  /** A speaker without an entry gets a new one-name entry at the end. */
  lemma {:induction false} AddUttUnknown(assoc: seq<(string, seq<string>)>, speaker: string, name: string)
    requires forall j :: 0 <= j < |assoc| ==> assoc[j].0 != speaker
    ensures AddUtt(assoc, speaker, name) == assoc + [(speaker, [name])]
  {
    if assoc != [] {
      var rest := assoc[1..];
      assert forall j :: 0 <= j < |rest| ==> rest[j].0 != speaker by {
        forall j | 0 <= j < |rest| ensures rest[j].0 != speaker {
          assert rest[j] == assoc[j + 1];
        }
      }
      AddUttUnknown(rest, speaker, name);
      assert [assoc[0]] + (rest + [(speaker, [name])]) == assoc + [(speaker, [name])];
    }
  }

  // ---------------------------------------------------------------------------
  // The export invariant

  /** Writing the record with the next id keeps the export consistent. */
  lemma WriteConsistent(e: Export, r: Record)
    requires Consistent(e)
    requires r.id == e.nextId && r.name == UttName(r.speaker, r.id)
    ensures Consistent(Write(e, r))
  {
    AddUttAgrees(e.spk2utt, e.records, r);
    var e' := Write(e, r);
    forall k | 0 <= k < |e'.records|
      ensures var q := e'.records[k];
              && q.id == k + 1 && q.name == UttName(q.speaker, k + 1)
              && e'.wavScp[k] == q.name + " " + q.wavPath
              && e'.text[k] == q.name + " " + q.transcription
              && e'.utt2spk[k] == q.name + " " + q.speaker
              && e'.segments[k] == q.name + " " + q.name + " 0.00 " + q.endTime
    {
      if k < |e.records| {
        assert e'.records[k] == e.records[k];
      }
    }
  }

  lemma StepConsistent(e: Export, ev: Event, duration: string -> Option<real>, show: real -> string)
    requires Consistent(e)
    ensures Consistent(Step(e, ev, duration, show))
  {
    if !e.failed && ev.RowSeen? && |ev.row| >= 2 {
      var wav := PathJoin(PathJoin(ev.subfolder, "wavs"), ev.row[0] + ".wav");
      if duration(wav).Some? {
        WriteConsistent(e, Record(UttName(ev.speaker, e.nextId), ev.speaker, wav, ev.row[1],
                                  show(duration(wav).value), e.nextId));
      }
    }
  }

  /** Whatever the tree, the export is consistent after every event: ids run 1, 2, ... with
      no gap, the five per-record files stay aligned, and `spk2utt` agrees with `utt2spk`. */
  lemma {:induction false} RunConsistent(events: seq<Event>, duration: string -> Option<real>, show: real -> string)
    ensures Consistent(Run(events, duration, show))
  {
    if events != [] {
      RunConsistent(events[..|events| - 1], duration, show);
      StepConsistent(Run(events[..|events| - 1], duration, show), events[|events| - 1], duration, show);
    }
  }

  /** An exception is final: once the walk has failed, later events change nothing. */
  lemma {:induction false} FailedStays(events: seq<Event>, k: nat, duration: string -> Option<real>, show: real -> string)
    requires k <= |events| && Run(events[..k], duration, show).failed
    ensures Run(events, duration, show) == Run(events[..k], duration, show)
    decreases |events| - k
  {
    if k < |events| {
      assert events[..k + 1][..k] == events[..k];
      FailedStays(events, k + 1, duration, show);
    } else {
      assert events[..k] == events;
    }
  }

  /** A metadata row with fewer than two fields ends the walk: nothing after it is written
      and `spk2utt` is never written. */
  lemma ShortRowAborts(events: seq<Event>, k: nat, duration: string -> Option<real>, show: real -> string)
    requires k < |events| && events[k].RowSeen? && |events[k].row| < 2
    ensures Run(events, duration, show).failed
    ensures !Run(events[..k], duration, show).failed ==>
              Run(events, duration, show) == Run(events[..k], duration, show).(failed := true)
  {
    assert events[..k + 1][..k] == events[..k];
    FailedStays(events, k + 1, duration, show);
  }

  // ---------------------------------------------------------------------------
  // Record names

  /** The text after the last `_` of a record name is its id: distinct (speaker, id) pairs
      give distinct names, even for speakers whose names hold `_` or digits. */
  lemma UttNameInjective(s1: string, i1: nat, s2: string, i2: nat)
    requires UttName(s1, i1) == UttName(s2, i2)
    ensures s1 == s2 && i1 == i2
  {
    var x := UttName(s1, i1);
    LastUnderscore(s1, i1);
    LastUnderscore(s2, i2);
    assert |s1| == |s2|;
    assert s1 == x[..|s1|] && s2 == x[..|s2|];
    assert NatToString(i1) == x[|s1| + 1..] == NatToString(i2);
    NatToStringInjective(i1, i2);
  }

  /** The last `_` of a record name is the one after the speaker. */
  lemma LastUnderscore(s: string, i: nat)
    ensures LastIndexOf(UttName(s, i), '_') == Some(|s|)
  {
    var x := UttName(s, i);
    var d := NatToString(i);
    assert x[|s|] == '_';
    forall j | |s| < j < |x| ensures x[j] != '_' {
      assert x[j] == d[j - |s| - 1];
    }
  }

  /** Every record of a consistent export has its own name. */
  lemma NamesDistinct(e: Export)
    requires Consistent(e)
    ensures forall j, k :: 0 <= j < k < |e.records| ==> e.records[j].name != e.records[k].name
  {
    forall j, k | 0 <= j < k < |e.records| ensures e.records[j].name != e.records[k].name {
      if e.records[j].name == e.records[k].name {
        UttNameInjective(e.records[j].speaker, j + 1, e.records[k].speaker, k + 1);
      }
    }
  }

  // ---------------------------------------------------------------------------
  // Speaker lines

  function SpeakersSeen(events: seq<Event>): nat {
    if events == [] then 0
    else SpeakersSeen(events[..|events| - 1]) + if events[|events| - 1].SpeakerSeen? then 1 else 0
  }

  lemma {:induction false} SpeakersSeenAppend(a: seq<Event>, b: seq<Event>)
    ensures SpeakersSeen(a + b) == SpeakersSeen(a) + SpeakersSeen(b)
    decreases |b|
  {
    if b == [] {
      assert a + b == a;
    } else {
      assert (a + b)[..|a + b| - 1] == a + b[..|b| - 1];
      assert (a + b)[|a + b| - 1] == b[|b| - 1];
      SpeakersSeenAppend(a, b[..|b| - 1]);
    }
  }

  lemma {:induction false} SpeakersSeenNone(events: seq<Event>)
    requires forall i :: 0 <= i < |events| ==> !events[i].SpeakerSeen?
    ensures SpeakersSeen(events) == 0
  {
    if events != [] {
      SpeakersSeenNone(events[..|events| - 1]);
    }
  }

  /** Only subfolders that are directories and hold a `metadata.csv` are read, and their
      rows are attributed to the speaker folder they sit in. */
  lemma {:induction false} SubfolderRowsFrom(speaker: string, subs: seq<Subfolder>)
    ensures forall ev :: ev in SubfolderEvents(speaker, subs) ==>
              && ev.RowSeen? && ev.speaker == speaker
              && exists k :: 0 <= k < |subs| && subs[k].isDir && subs[k].metadata.Some? &&
                             ev.subfolder == subs[k].path && ev.row in subs[k].metadata.value
  {
    if subs != [] {
      SubfolderRowsFrom(speaker, subs[1..]);
      var sub := subs[0];
      var rest := SubfolderEvents(speaker, subs[1..]);
      var here := if sub.isDir && sub.metadata.Some?
                  then seq(|sub.metadata.value|, k requires 0 <= k < |sub.metadata.value| =>
                         RowSeen(speaker, sub.path, sub.metadata.value[k]))
                  else [];
      assert SubfolderEvents(speaker, subs) == here + rest;
      forall ev | ev in SubfolderEvents(speaker, subs)
        ensures && ev.RowSeen? && ev.speaker == speaker
                && exists k :: 0 <= k < |subs| && subs[k].isDir && subs[k].metadata.Some? &&
                               ev.subfolder == subs[k].path && ev.row in subs[k].metadata.value
      {
        if ev in rest {
          var k :| 0 <= k < |subs[1..]| && subs[1..][k].isDir && subs[1..][k].metadata.Some? &&
                   ev.subfolder == subs[1..][k].path && ev.row in subs[1..][k].metadata.value;
          assert subs[k + 1] == subs[1..][k];
        } else {
          var j :| 0 <= j < |here| && here[j] == ev;
          assert sub.metadata.value[j] in sub.metadata.value;
        }
      }
    }
  }

  /** Every row of every readable subfolder is read. */
  lemma {:induction false} SubfolderRowsRead(speaker: string, subs: seq<Subfolder>)
    ensures forall k, row :: (0 <= k < |subs| && subs[k].isDir && subs[k].metadata.Some? &&
                              row in subs[k].metadata.value) ==>
              RowSeen(speaker, subs[k].path, row) in SubfolderEvents(speaker, subs)
  {
    if subs != [] {
      SubfolderRowsRead(speaker, subs[1..]);
      var sub := subs[0];
      var rest := SubfolderEvents(speaker, subs[1..]);
      var here := if sub.isDir && sub.metadata.Some?
                  then seq(|sub.metadata.value|, k requires 0 <= k < |sub.metadata.value| =>
                         RowSeen(speaker, sub.path, sub.metadata.value[k]))
                  else [];
      assert SubfolderEvents(speaker, subs) == here + rest;
      forall k, row | 0 <= k < |subs| && subs[k].isDir && subs[k].metadata.Some? && row in subs[k].metadata.value
        ensures RowSeen(speaker, subs[k].path, row) in SubfolderEvents(speaker, subs)
      {
        if k > 0 {
          assert subs[1..][k - 1] == subs[k];
        } else {
          var j :| 0 <= j < |sub.metadata.value| && sub.metadata.value[j] == row;
          assert here[j] == RowSeen(speaker, sub.path, row);
        }
      }
    }
  }

  /** Each speaker folder is announced exactly once. */
  lemma {:induction false} SpeakerFoldersCounted(gender: char, speakers: seq<SpeakerFolder>)
    ensures SpeakersSeen(SpeakerEvents(gender, speakers)) == |speakers|
  {
    if speakers != [] {
      var id := Basename(speakers[0].path);
      var rows := SubfolderEvents(id, speakers[0].subfolders);
      var rest := SpeakerEvents(gender, speakers[1..]);
      SpeakerFoldersCounted(gender, speakers[1..]);
      SubfolderRowsFrom(id, speakers[0].subfolders);
      assert forall i :: 0 <= i < |rows| ==> rows[i] in rows;
      SpeakersSeenNone(rows);
      var head: seq<Event> := [SpeakerSeen(id, gender)];
      assert head[..0] == [];
      SpeakersSeenAppend(head, rows);
      SpeakersSeenAppend(head + rows, rest);
      assert SpeakerEvents(gender, speakers) == head + rows + rest;
    }
  }

  /** Every speaker folder is announced with the gender of its parent folder and its base
      name as the speaker id, and no other gender is announced. */
  lemma {:induction false} SpeakerFoldersAnnounced(gender: char, speakers: seq<SpeakerFolder>)
    ensures forall ev :: ev in SpeakerEvents(gender, speakers) && ev.SpeakerSeen? ==> ev.gender == gender
    ensures forall i :: 0 <= i < |speakers| ==>
              SpeakerSeen(Basename(speakers[i].path), gender) in SpeakerEvents(gender, speakers)
  {
    if speakers != [] {
      var id := Basename(speakers[0].path);
      var rows := SubfolderEvents(id, speakers[0].subfolders);
      var rest := SpeakerEvents(gender, speakers[1..]);
      SpeakerFoldersAnnounced(gender, speakers[1..]);
      SubfolderRowsFrom(id, speakers[0].subfolders);
      assert SpeakerEvents(gender, speakers) == [SpeakerSeen(id, gender)] + rows + rest;
      forall i | 0 <= i < |speakers|
        ensures SpeakerSeen(Basename(speakers[i].path), gender) in SpeakerEvents(gender, speakers)
      {
        if i > 0 {
          assert speakers[1..][i - 1] == speakers[i];
          assert SpeakerSeen(Basename(speakers[i].path), gender) in rest;
        }
      }
    }
  }

  /** Every event of element `k` occurs in the flattened walk. */
  lemma {:induction false} FlatMapIncludes<T>(f: T -> seq<Event>, xs: seq<T>, k: nat)
    requires k < |xs|
    ensures forall ev :: ev in f(xs[k]) ==> ev in FlatMap(f, xs)
  {
    assert FlatMap(f, xs) == f(xs[0]) + FlatMap(f, xs[1..]);
    if k > 0 {
      FlatMapIncludes(f, xs[1..], k - 1);
      assert xs[1..][k - 1] == xs[k];
    }
  }

  /** The gender of a speaker is the last character of its gender folder's path; an empty
      path makes the walk raise. */
  lemma GenderFromFolder(genders: seq<GenderFolder>, k: nat)
    requires k < |genders|
    ensures genders[k].path == [] ==> GenderUnreadable in Events(genders)
    ensures genders[k].path != [] ==>
              forall i :: 0 <= i < |genders[k].speakers| ==>
                SpeakerSeen(Basename(genders[k].speakers[i].path), genders[k].path[|genders[k].path| - 1]) in Events(genders)
  {
    var g := genders[k];
    FlatMapIncludes(FolderEvents, genders, k);
    if g.path != [] {
      var gender := g.path[|g.path| - 1];
      assert FolderEvents(g) == SpeakerEvents(gender, g.speakers);
      forall i | 0 <= i < |g.speakers|
        ensures SpeakerSeen(Basename(g.speakers[i].path), gender) in Events(genders)
      {
        SpeakerFoldersAnnounced(gender, g.speakers);
        assert SpeakerSeen(Basename(g.speakers[i].path), gender) in FolderEvents(g);
      }
    } else {
      assert GenderUnreadable in FolderEvents(g);
    }
  }

  /** An unreadable gender folder ends the walk like a short row does. */
  lemma UnreadableGenderAborts(events: seq<Event>, k: nat, duration: string -> Option<real>, show: real -> string)
    requires k < |events| && events[k].GenderUnreadable?
    ensures Run(events, duration, show).failed
  {
    assert events[..k + 1][..k] == events[..k];
    FailedStays(events, k + 1, duration, show);
  }

  /** A walk that ends normally writes one `spk2gender` line per speaker folder, records or
      not. */
  lemma {:induction false} OneGenderLinePerSpeaker(events: seq<Event>, duration: string -> Option<real>, show: real -> string)
    requires !Run(events, duration, show).failed
    ensures |Run(events, duration, show).spk2gender| == SpeakersSeen(events)
  {
    if events != [] {
      var pre := events[..|events| - 1];
      OneGenderLinePerSpeaker(pre, duration, show);
    }
  }

  // ---------------------------------------------------------------------------
  // The export itself

  /** One iteration of the export loop, on an export that has not failed. */
  method Handle(e: Export, ev: Event, duration: string -> Option<real>, show: real -> string) returns (e': Export)
    requires !e.failed
    ensures e' == Step(e, ev, duration, show)
  {
    e' := e;
    match ev {
    case GenderUnreadable =>
      e' := e.(failed := true);
    case SpeakerSeen(s, g) =>
      e' := e.(spk2gender := e.spk2gender + [s + " " + [g]]);
    case RowSeen(s, sub, row) =>
      if |row| < 2 {
        e' := e.(failed := true);
      } else {
        var name := UttName(s, e.nextId);
        var wav := PathJoin(PathJoin(sub, "wavs"), row[0] + ".wav");
        var d := duration(wav);
        if d.Some? {
          e' := Write(e, Record(name, s, wav, row[1], show(d.value), e.nextId));
        }
      }
    }
  }

  /** The export loop over the walk's events, then the `spk2utt` file, written only when the
      walk ended without an exception. */
  method ExportEvents(events: seq<Event>, duration: string -> Option<real>, show: real -> string)
    returns (e: Export, spk2utt: Option<seq<string>>)
    ensures e == Run(events, duration, show)
    ensures spk2utt.Some? <==> !e.failed
    ensures spk2utt.Some? ==> spk2utt.value == Spk2UttLines(e.spk2utt)
  {
    e := Start;
    var i := 0;
    while i < |events|
      invariant 0 <= i <= |events|
      invariant e == Run(events[..i], duration, show) && !e.failed
    {
      assert events[..i + 1][..i] == events[..i];
      assert Run(events[..i + 1], duration, show) == Step(e, events[i], duration, show);
      e := Handle(e, events[i], duration, show);
      if e.failed {
        FailedStays(events, i + 1, duration, show);
        return e, None;
      }
      i := i + 1;
    }
    assert events[..|events|] == events;
    spk2utt := Some(Spk2UttLines(e.spk2utt));
  }

  /** `Dataset_dirs.py` over a directory tree. */
  method ExportDataset(genders: seq<GenderFolder>, duration: string -> Option<real>, show: real -> string)
    returns (e: Export, spk2utt: Option<seq<string>>)
    ensures e == Run(Events(genders), duration, show)
    ensures Consistent(e)
    ensures spk2utt.Some? <==> !e.failed
    ensures spk2utt.Some? ==> spk2utt.value == Spk2UttLines(e.spk2utt)
  {
    e, spk2utt := ExportEvents(Events(genders), duration, show);
    RunConsistent(Events(genders), duration, show);
  }
}
