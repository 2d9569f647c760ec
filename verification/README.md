# STT_Deutsch core, modelled in Dafny

STT_Deutsch is a German speech-to-text toolkit. It has four parts:
- a batch pipeline: preprocessing of audio files, a dataset of the results, and a vosk transcription run scored against the `metadata.csv` references;
- a PyQt GUI that transcribes files, highlights named entities and saves the transcriptions per base name;
- a script that exports a recorded corpus as a Kaldi data directory;
- glue around signal-processing and machine-learning libraries.

This project models the sequential logic between those library calls. Every library call is an oracle: a function-valued field of a small datatype, or a function parameter.

| Dafny module | models |
|---|---|
| `Base` | `Option`, `Result`, `Min`, `Max` |
| `PyStr` | the Python `str` operations the code relies on: `strip`, `split`, `join`, `startswith`/`endswith`, `isdigit` (ASCII), `str(int)` |
| `PyPath` | POSIX `os.path.join`, `basename` and `splitext` |
| `AudioProcessing` | `AudioProcessor`: the staged `preprocess_audio` pipeline, `remove_silence`, the low-pass cutoff, length normalisation, `add_noise` |
| `Preprocessing` | `Preprocessor`: the `.wav` file list, the stems, the sample of files, `preprocess_directory` |
| `DatasetLoader` | `SpeechDataset`: `__len__`, `__getitem__` and iteration through the sequence protocol |
| `ChunkFeed` | `transcribe_audio_vosk`, identical in `Transcriber.py` and `GUI_Transcriber.py`: 100 ms chunks, utterance fragments, final flush, space join |
| `Transcriber` | `TranscriptionEvaluator`: reference lookup, the character index, `transcribe_and_evaluate` |
| `GuiTranscriber` | `TranscriptionWorker.run` and `get_results` |
| `GuiController` | `highlight_entities`, the result item text, `save_file_transcription` |
| `KaldiExport` | the export script `Dataset_dirs.py`: the directory walk, utterance ids and names, the six output files |

Each operation has a partner property:
- Silence removal places every kept span in interval order.
- Length normalisation is idempotent.
- `split`/`join` round-trip, and `str(int)` parses back.
- The iterated dataset agrees with `__getitem__`.
- The chunk reader covers every frame exactly once.
- The reference lookup is characterised by its first match.
- The evaluation loop and the save loop agree with reference folds.
- The Kaldi export keeps one invariant after every event: ids 1..N, the five per-record files aligned, `spk2utt` agreeing with `utt2spk`.

## Where the code and its documentation differ

The model follows the code:
- The canonical length is always `44100 * 30` samples (`Audioprocessing.py:7`). It is not 30 seconds at the file's own rate.
- A file with no non-silent interval makes `np.concatenate([])` raise. `preprocess_audio` then returns `None` from the silence stage; there is no separate "silent" outcome.
- The low-pass cutoff is normalised twice: `lpf` divides 8000 Hz by the Nyquist rate, then `butter_lowpass` divides by it again. `CutoffNormalisedTwice` states the relation to the once-normalised cutoff. `FilterStageAccepts` shows that `butter` rejects the result only for rates of at most 2 Hz.
- A malformed `metadata.csv` line is not skipped. It raises `ValueError` in the lookup and in the character index, and that ends `transcribe_and_evaluate`.
- `len(None)` on a failed preprocessing entry raises `TypeError` and ends the evaluation. Each item is evaluated `len(item)` times.
- Character error rate is called as `cer(reference, hypothesis)`, the argument order the code uses.
- The gender of a Kaldi speaker is `gender_folder[-1]`. An empty folder path raises `IndexError`, and the model ends the walk there.

## Model

| member | source | states |
|---|---|---|
| AudioProcessing.NormalizeLength | code/PreProcess/Audioprocessing.py:54-57 | The result has exactly `MAX_AUDIO_LENGTH` = 44100*30 samples whatever the rate. A longer buffer becomes its first `MAX_AUDIO_LENGTH` samples. A shorter one is kept as a prefix followed by zeros. |
| AudioProcessing.NormalizeLengthIdempotent | code/PreProcess/Audioprocessing.py:54-57 | An exact-length buffer is unchanged, so normalising twice is normalising once. |
| AudioProcessing.ConcatSlices | code/PreProcess/Audioprocessing.py:113-115 | For in-range intervals the concatenation has the summed length of the intervals. |
| AudioProcessing.ConcatSlicesAppend | code/PreProcess/Audioprocessing.py:114 | Concatenating over two interval lists in turn is the concatenation of the two results. |
| AudioProcessing.ConcatSlicesPlacesSpan | code/PreProcess/Audioprocessing.py:114 | The span of interval k appears in the result right after the spans of the intervals before it. |
| AudioProcessing.RemoveSilence | code/PreProcess/Audioprocessing.py:113-115 | It fails exactly when the splitter returns no interval. Otherwise the result is the concatenation of the kept spans, with the summed length. |
| AudioProcessing.CutoffNormalisedTwice | code/PreProcess/Audioprocessing.py:80-98 | The cutoff given to `butter` is `min(8000/nyq, 1)/nyq`: the once-normalised cutoff divided by the Nyquist rate again, so strictly smaller above 2 Hz. |
| AudioProcessing.FilterStageAccepts | code/PreProcess/Audioprocessing.py:96-98 | The cutoff is strictly between 0 and 1, as `butter` requires, exactly when the rate exceeds 2 Hz. |
| AudioProcessing.LowPass | code/PreProcess/Audioprocessing.py:85-100 | The filter stage succeeds exactly for rates above 2 Hz. |
| AudioProcessing.Preprocess | code/PreProcess/Audioprocessing.py:26-66 | Stage order and `None` results: a load failure changes nothing; a non-finite buffer stops at the finite check; no interval stops at silence removal. A tensor needs a rate above 2 Hz and a normalised buffer, and is the feature oracle's output on it. |
| AudioProcessing.NonFiniteStopsBeforeSilence | code/PreProcess/Audioprocessing.py:33-35 | With a non-finite sample the result is `None`, whatever silence removal, filtering and feature extraction would do. |
| AudioProcessing.NoIntervalsStopsBeforeFilter | code/PreProcess/Audioprocessing.py:38-42 | With no non-silent interval the result is `None` from the silence stage, whatever the filter and features would do. |
| AudioProcessing.OutcomeIgnoresState | code/PreProcess/Audioprocessing.py:26-66 | The returned value never depends on what `self.audio`/`self.sr` held before the call. |
| AudioProcessing.PreprocessLowRate | code/PreProcess/Audioprocessing.py:37-51 | A finite, non-silent file sampled at 2 Hz or less fails at the filter stage. `self.audio` then holds the kept spans. |
| AudioProcessing.PreprocessSucceeds | code/PreProcess/Audioprocessing.py:26-66 | A finite, non-silent file sampled above 2 Hz returns the mel tensor of its normalised filtered spans. It fails at the feature stage only when that call raises. |
| AudioProcessing.PreprocessBuffer | code/PreProcess/Audioprocessing.py:37-57 | After a run that passes filtering, `self.audio` is the filtered kept spans, cut or padded to the canonical length. |
| AudioProcessing.AddNoise | code/PreProcess/Audioprocessing.py:173-185 | Same length as `self.audio`; finite samples get the scaled noise, NaN and infinities stay; no audio means the call raises. `self.audio` is not changed. |
| AudioProcessing.ZeroNoiseIsIdentity | code/PreProcess/Audioprocessing.py:183-185 | Noise of level zero returns the buffer itself. |
| Preprocessing.WavPaths | code/PreProcess/Preprocessing.py:28 | The paths are exactly the listing entries ending in `.wav` (case-sensitive), each joined to the directory. |
| Preprocessing.WavPathsAppend | code/PreProcess/Preprocessing.py:28 | The filter keeps listing order: filtering a concatenation is concatenating the filtered parts. |
| Preprocessing.WavPathsSingle | code/PreProcess/Preprocessing.py:28 | One entry is kept, joined to the directory, exactly when it ends in `.wav`. |
| Preprocessing.Stems | code/PreProcess/Preprocessing.py:29 | One name per file, at the same index: the basename without its last extension. |
| Preprocessing.NewPreprocessor | code/PreProcess/Preprocessing.py:18-30 | `audio_files` is the `.wav` filter of the listing, and `filenames` is aligned with it index by index. |
| Preprocessing.FilenameOfEntry | code/PreProcess/Preprocessing.py:28-29 | The stored name of entry `x.wav` is `x`, except for an all-dots `x`, where `splitext` keeps `.wav`. |
| Preprocessing.SelectFiles | code/PreProcess/Preprocessing.py:39-42 | `num_files=None` selects all files in order. `num_files=k` fails exactly when k is negative or above the count; otherwise it selects the k drawn files. |
| Preprocessing.SelectionDistinct | code/PreProcess/Preprocessing.py:42 | A sample of a duplicate-free list is duplicate-free and drawn from the list. |
| Preprocessing.PreprocessDirectory | code/PreProcess/Preprocessing.py:32-48 | One outcome per selected file, in selection order; entry i is `preprocess_audio(selected[i])`. A `None` does not stop the loop, and the sampling error is the only failure. |
| DatasetLoader.GetItem | code/dir/DatasetLoader.py:26-36 | `(data[i], filenames[i])` with Python's negative indices; `IndexError` exactly when i is out of range for either list. |
| DatasetLoader.Iterate | code/dir/DatasetLoader.py:17-36 | Iteration yields the aligned pairs, min(len data, len names) of them. Their number equals `__len__` exactly when there are at least as many names as entries. |
| DatasetLoader.PairsAligned | code/dir/DatasetLoader.py:26-36 | Every pair agrees with `__getitem__`, and the index just past the pairs raises. |
| ChunkFeed.ChunkSize | code/Transcriber.py:99 | `int(sample_rate * 0.1)`: the largest n with 10n not above the rate. |
| ChunkFeed.Chunks | code/Transcriber.py:103-106 | Every read chunk is non-empty and at most n frames; all but the last hold exactly n; a zero chunk size reads nothing. |
| ChunkFeed.ChunksCoverFrames | code/Transcriber.py:103-109 | The chunks put back together are the file's frames, so each frame is fed exactly once, in order. |
| ChunkFeed.ChunksStep | code/Transcriber.py:104-106 | One `readframes(n)` at a position yields the next chunk, followed by the chunks of the rest. |
| ChunkFeed.FeedExtends | code/Transcriber.py:107-109 | Feeding keeps the fragments already collected and adds at most one per chunk. |
| ChunkFeed.TranscribeAudio | code/Transcriber.py:97-116 | The read loop returns the space join of the utterance fragments, in order, then the final fragment when `FinalResult()` returns a non-empty string. An empty final text is still joined, which leaves a trailing space. It is the same code as code/GUI/GUI_Transcriber.py:28-48. |
| ChunkFeed.JoinLength | code/Transcriber.py:116 | k fragments joined carry exactly k-1 separators, empty fragments included. |
| ChunkFeed.NoChunksTranscript | code/Transcriber.py:103-116 | Audio with no frames gives just the final fragment's text, or the empty string. |
| ChunkFeed.FragmentBound | code/Transcriber.py:107-113 | There are at most one fragment per chunk plus the final one. |
| PyStr.Split | code/GUI/GUI_Controller.py:185 | At least one piece; at least two exactly when the separator occurs; the first piece is the text before its first occurrence. |
| PyStr.SplitCharLast | code/GUI/GUI_Controller.py:185-189 | The last piece of a split at one character is the text after its last occurrence. That text holds no such character and is the whole text when the character does not occur. |
| PyStr.SplitJoin | code/Transcriber.py:131 | Joining the pieces with the separator gives the text back. |
| PyStr.Find | code/GUI/GUI_Controller.py:191-197 | The position of the first occurrence, or none when there is no occurrence. |
| PyStr.ParseNatToString | code/dir/Dataset_dirs.py:59 | `str(n)` read back as a number is n. |
| PyStr.NatToStringInjective | code/dir/Dataset_dirs.py:59 | Distinct numbers print differently. |
| PyPath.Basename | code/dir/Dataset_dirs.py:35 | The basename is a suffix without `/`, preceded by a `/` when it is not the whole path. |
| PyPath.BasenameOfJoin | code/PreProcess/Preprocessing.py:28-29 | The basename of a directory joined with a plain entry name is that name. |
| PyPath.StemOfWavName | code/PreProcess/Preprocessing.py:29 | `splitext("x.wav")[0]` is `x`, except for an all-dots `x`. |
| Transcriber.ParseLine | code/Transcriber.py:131 | A line unpacks exactly when the stripped line splits into two fields at the bar. The id and the text then hold no bar and rebuild the stripped line around one. |
| Transcriber.Lookup | code/Transcriber.py:130-136 | The reference found is never empty; an error names a malformed line. |
| Transcriber.GroundTruth | code/Transcriber.py:128-136 | Never "": empty metadata gives `<TRANSCRIPTION_NOT_FOUND>`, and the `ValueError` names a line that does not unpack. |
| Transcriber.LookupFirstMatch | code/Transcriber.py:130-135 | With well-formed lines up to the first matching id, the result is that line's text, or `<EMPTY_TRANSCRIPTION>` for an empty text. |
| Transcriber.LookupNotFound | code/Transcriber.py:136 | Well-formed lines without the id give `<TRANSCRIPTION_NOT_FOUND>`. |
| Transcriber.LookupMalformed | code/Transcriber.py:131 | A malformed line reached before any match raises, naming that line. |
| Transcriber.LookupStopsEarly | code/Transcriber.py:130-135 | Once the scan has matched or raised, lines after it are never examined. |
| Transcriber.Texts | code/Transcriber.py:39-41 | The transcriptions of all lines, in order, or the first line that does not unpack. |
| Transcriber.Concat | code/Transcriber.py:41 | The characters collected are exactly those of some transcription. |
| Transcriber.Insert | code/Transcriber.py:44 | Insertion keeps a strictly sorted list and adds exactly the new character. |
| Transcriber.SortedDistinct | code/Transcriber.py:44 | `sorted(set(s))`: strictly sorted, with exactly the characters of s. |
| Transcriber.SortedCard | code/Transcriber.py:44 | A strictly sorted list has no repeated character. |
| Transcriber.RankMap | code/Transcriber.py:44-45 | `enumerate(sorted(...))`: the keys are the list's characters, the values are below the size, and the order is preserved. |
| Transcriber.TextsChars | code/Transcriber.py:39-41 | The collected characters are those of the unpacked lines' transcriptions. |
| Transcriber.CharToIndex | code/Transcriber.py:36-45 | It succeeds exactly when every line unpacks, otherwise it raises on a malformed line. The keys are exactly the characters of the transcriptions, the values lie in 0..n-1, and the map is order-preserving. |
| Transcriber.CharToIndexInjective | code/Transcriber.py:44-45 | Distinct characters get distinct indices. |
| Transcriber.EvalOne | code/Transcriber.py:64-82 | An item fails exactly when its reference lookup raises. Otherwise it writes the report line of id, hypothesis, reference and printed WER, and the tuple `(id, wer(ref, hyp), cer(ref, hyp))`, where a failed transcription gives hypothesis "". |
| Transcriber.ReportLineFor | code/Transcriber.py:79-80 | A report line opens with its id and closes with its printed WER. |
| Transcriber.EvalOneWritesOwnLine | code/Transcriber.py:74-80 | Every evaluated item writes the line of its own id and WER. |
| Transcriber.EvaluateAligned | code/Transcriber.py:61-82 | Lines and tuples are written in lockstep: line i belongs to tuple i. |
| Transcriber.RemainingAligned | code/Transcriber.py:63-82 | The same lockstep holds from any point of the inner loop. |
| Transcriber.OneRecordPerItem | code/Transcriber.py:62-82 | With single-entry items and found references, the run completes with one tuple per item, carrying that item's file name, in dataset order. |
| Transcriber.EvalOneRecordsOwnFile | code/Transcriber.py:74-82 | The tuple carries the file name it was made for; a failure is a lookup failure. |
| Transcriber.RunEvaluation | code/Transcriber.py:59-84 | The nested loop writes the reference run's lines and returns its tuples. An escaping exception keeps the lines written before it. |
| Transcriber.TranscribeAndEvaluate | code/Transcriber.py:47-84 | `transcribe_and_evaluate` equals the reference run over the dataset's aligned pairs. |
| GuiTranscriber.NewWorker | code/GUI/GUI_Transcriber.py:12-16 | A new worker holds the files and no results. |
| GuiTranscriber.Added | code/GUI/GUI_Transcriber.py:19-24 | One `run` appends at most one entry per file, and at least one entry when there are files. |
| GuiTranscriber.Run | code/GUI/GUI_Transcriber.py:18-26 | `run` appends to the existing results, never resetting them, and emits the whole list once. The files are not changed. |
| GuiTranscriber.AllSucceed | code/GUI/GUI_Transcriber.py:20-22 | With no exception, `(basename(f), post(transcribe(f)))` is appended per file, in order. |
| GuiTranscriber.FirstFailure | code/GUI/GUI_Transcriber.py:19-24 | The first exception at file k keeps the k earlier pairs and adds exactly one `("Error", "Error: " + msg)`; the files after k are never transcribed. |
| GuiController.RenderedAppend | code/GUI/GUI_Controller.py:119-124 | Highlighting keeps token order: a document cut in two renders as its halves. |
| GuiController.NoEntities | code/GUI/GUI_Controller.py:120-125 | Without entity tokens the result is the stripped concatenation of token texts and whitespace. |
| GuiController.EntityFirstMarked | code/GUI/GUI_Controller.py:121-125 | A leading entity appears in full between the entity markers at the start of the result. |
| GuiController.HighlightTrimmed | code/GUI/GUI_Controller.py:125 | The result neither starts nor ends with whitespace. |
| GuiController.ItemTexts | code/GUI/GUI_Controller.py:103-108 | One item per result, in result order. Item k shows the result's file name and its highlighted transcription, numbered from 1. |
| GuiController.LastSegment | code/GUI/GUI_Controller.py:185-187 | An item is skipped exactly when its text holds no `:`. |
| GuiController.LastSegmentAfterLastColon | code/GUI/GUI_Controller.py:185-189 | The segment kept is the stripped text after the item's last `:`. This covers items with several colons, such as error entries. |
| GuiController.ItemSegment | code/GUI/GUI_Controller.py:185-189 | For an item the GUI made, the segment used is the stripped text after `File k:`, provided the name and text hold no `:`. |
| GuiController.ItemTextsSegment | code/GUI/GUI_Controller.py:185-189 | Round trip from display to save: the segment the save step takes from an item shown for a result is that result's name and highlighted text, stripped. |
| GuiController.FileNamePart | code/GUI/GUI_Controller.py:191-197 | The text before the first `.mp3` when there is one, otherwise before the first `.wav`, otherwise skipped. |
| GuiController.LeadingRun | code/GUI/GUI_Controller.py:198-207 | The longest leading run of `_`-components without a digit. |
| GuiController.BaseName | code/GUI/GUI_Controller.py:198-207 | The component loop computes the `_`-join of that run, or `None` when the first component has a digit. |
| GuiController.LeadingRunIsFirstDigit | code/GUI/GUI_Controller.py:201-203 | The loop stops at the first component with a digit. |
| GuiController.BaseNameShape | code/GUI/GUI_Controller.py:198-212 | No base name exactly when the first component has a digit. A base name holds no digit and is a prefix of `file_name_part`. |
| GuiController.ActionCases | code/GUI/GUI_Controller.py:185-217 | An item without `:` or without an extension is skipped. A no-root item goes to `no_root_name.txt`. Any other item appends its whole segment to `PROCESSED_TRANSCRIPTION/{base}.txt` for a digit-free base. |
| GuiController.LinesToStep | code/GUI/GUI_Controller.py:209-217 | Deciding one more item adds at most its own line to one file or to the no-root list. |
| GuiController.SaveStepKeys | code/GUI/GUI_Controller.py:214-217 | After an item, the files that exist are the earlier ones plus those that received a line. |
| GuiController.SaveStepLines | code/GUI/GUI_Controller.py:214-217 | After an item, each file holds its earlier contents followed by its lines, in list order. |
| GuiController.SaveItems | code/GUI/GUI_Controller.py:181-217 | After the loop, `no_root_name.txt` gained the no-root names in order. A file exists exactly when it existed before or received a line, and it holds its old contents followed by its lines in list order. |
| GuiController.SaveFileTranscription | code/GUI/GUI_Controller.py:173-217 | The same for the real per-item decision: items sharing a base name append to one file, in list order. |
| KaldiExport.GenderFromFolder | code/dir/Dataset_dirs.py:29-35 | Every speaker folder is announced with its basename as id and the last character of its gender folder's path as gender; an empty path raises. |
| KaldiExport.FlatMapIncludes | code/dir/Dataset_dirs.py:29-34 | Every event of one folder occurs in the walk over the folders. |
| KaldiExport.SpeakerFoldersCounted | code/dir/Dataset_dirs.py:34-39 | Each speaker folder is announced exactly once. |
| KaldiExport.SpeakerFoldersAnnounced | code/dir/Dataset_dirs.py:34-39 | Each announcement carries the parent folder's gender, and every folder is announced. |
| KaldiExport.SubfolderRowsFrom | code/dir/Dataset_dirs.py:45-54 | Rows come only from subfolders that are directories holding `metadata.csv`, attributed to their speaker. |
| KaldiExport.SubfolderRowsRead | code/dir/Dataset_dirs.py:45-54 | Every row of every such subfolder is read. |
| KaldiExport.OneGenderLinePerSpeaker | code/dir/Dataset_dirs.py:37-39 | A walk that ends normally writes one `spk2gender` line per speaker folder, with records or without. |
| KaldiExport.AddUtt | code/dir/Dataset_dirs.py:82-84 | Appending to `spk2utt` keeps the existing keys in insertion order and adds a key only at the end. |
| KaldiExport.AddUttKnown | code/dir/Dataset_dirs.py:84 | A known speaker gets the name appended to its own list; every other entry is untouched. |
| KaldiExport.AddUttUnknown | code/dir/Dataset_dirs.py:82-84 | A new speaker gets a one-name list at the end. |
| KaldiExport.NamesOfSnoc | code/dir/Dataset_dirs.py:82-84 | A new record adds its name to its own speaker's names only. |
| KaldiExport.AddUttAgrees | code/dir/Dataset_dirs.py:82-84 | `spk2utt` stays in agreement with the records: each speaker once, with exactly its names in write order. |
| KaldiExport.AgreeExisting | code/dir/Dataset_dirs.py:82-84 | The agreement is kept when the speaker is already present. |
| KaldiExport.AgreeNew | code/dir/Dataset_dirs.py:82-83 | The agreement is kept when the speaker is new. |
| KaldiExport.WriteConsistent | code/dir/Dataset_dirs.py:73-97 | Writing one record keeps the invariant: ids 1..N, aligned lines in the five files, identical `text` and `corpus.txt`, and `spk2utt` agreeing. |
| KaldiExport.StepConsistent | code/dir/Dataset_dirs.py:54-97 | Every event of the walk keeps the invariant, including rows skipped for an unreadable wav. |
| KaldiExport.RunConsistent | code/dir/Dataset_dirs.py:26-97 | Whatever the tree, the invariant holds after the walk. |
| KaldiExport.FailedStays | code/dir/Dataset_dirs.py:54-56 | An uncaught exception is final: later events change nothing. |
| KaldiExport.ShortRowAborts | code/dir/Dataset_dirs.py:55-56 | A row with fewer than two fields ends the walk, with nothing written after it. |
| KaldiExport.UnreadableGenderAborts | code/dir/Dataset_dirs.py:30 | An empty gender folder path ends the walk. |
| KaldiExport.UttNameInjective | code/dir/Dataset_dirs.py:59 | `{speaker}_{id}` determines both the speaker and the id, even for speakers whose names hold `_` or digits. |
| KaldiExport.LastUnderscore | code/dir/Dataset_dirs.py:59 | The last `_` of a record name is the one before the id. |
| KaldiExport.NamesDistinct | code/dir/Dataset_dirs.py:59-97 | No two records share a name. |
| KaldiExport.Spk2UttLines | code/dir/Dataset_dirs.py:100-102 | One `spk2utt` line per speaker key. |
| KaldiExport.ExportEvents | code/dir/Dataset_dirs.py:26-102 | The loop computes the reference walk. `spk2utt` is written exactly when no exception ended the walk, with one line per speaker listing its names. |
| KaldiExport.ExportDataset | code/dir/Dataset_dirs.py:15-102 | The export over a directory tree: the walk's result satisfies the invariant, and `spk2utt` is written exactly when the walk ends normally. |

## Left out

- Library internals are oracles:
  - audio loading, `librosa.effects.split`, `butter`/`lfilter` and the mel-spectrogram (floating-point numerics in foreign code);
  - the vosk recognizer and the silero text enhancement (opaque models);
  - `jiwer.wer` and torchmetrics `CharErrorRate` (foreign code);
  - spaCy NER, whose output is the input token sequence;
  - `str()` of a float and `%.2f`, which are formatting oracles.
- Pitch, intensity and spectral features, `time_stretch` and `pitch_shift`: pyworld and librosa numerics with no logic of their own.
- The filesystem is data: directory listings, `metadata.csv` lines, a wav's frames and duration, and the directory tree are inputs. Written files are output line sequences, and `os.makedirs` is not modelled.
- `random.sample` is a parameter: the drawn distinct positions.
- `random.randn` is a parameter: the drawn noise values.
- The printed error messages are not modelled. Each is replaced by a tag for the failing stage.
- QThread and signals: `run` is called synchronously by the controller, so the emitted list is a return value.
- The GUI widgets, media player, recording, file dialogs and button states, `mainGUI.py`, `main_testing_vosk.py`, `Recording_Popup.py` and `Audio_recorder.py`: UI and device I/O.
- `prepare_char_to_index` and `transcribe_and_evaluate` re-read the metadata file on every call. The model reads one line sequence.
- AudioProcessing.AddNoise: real arithmetic, so float rounding and overflow to infinity are not modelled.
- AudioProcessing.Preprocess: the mel stage's `None` covers any exception of the three feature calls together.
- Transcriber.EvalOne: an exception of the text enhancement model is folded into the transcription oracle, which yields hypothesis "".
- Transcriber.EvalOne: the CER is a real number. With the code's argument order, `CharErrorRate` divides by the length of the hypothesis. On the transcription-failure path the hypothesis is "", so the library's result is a float infinity, which the `(string, string) -> real` oracle cannot represent.
- KaldiExport.ExportDataset: paths are POSIX paths, with `/` as the separator for `basename` and `join`. The script globs `.\Audio2\*`, a Windows pattern, so it finds files only on Windows. There `ntpath` splits and joins at `\`, which changes the speaker ids, hence every utterance name, and the `wav.scp` paths.
- GuiController.BaseName: `str.isdigit` is modelled on the ASCII digits only. Python also accepts other Unicode digits.
- GuiTranscriber.Run: an exception raised after the wave file opened is folded into the `open` oracle, which therefore stands for the whole of `transcribe_audio_vosk`. Examples are creating the recognizer, feeding a chunk and decoding the JSON. Whether a file's transcription raises is decided per path, before the first chunk.
- GuiTranscriber.GetResults: the accessor has no contract of its own. `Run` states what the list holds.
- GuiController.HighlightEntities: no contract of its own. `NoEntities`, `EntityFirstMarked`, `HighlightTrimmed` and `RenderedAppend` state what it does.
- DatasetLoader.Len: no contract of its own. `Iterate` relates it to the number of pairs.
