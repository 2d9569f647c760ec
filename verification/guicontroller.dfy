/** The string logic of `GUI_Controller`: entity highlighting of a tagged token sequence,
    the text of a result list item, and the parsing of an item back into a base name when
    the file transcriptions are saved. Widgets, the media player and the NER model itself
    are outside the model; the NER model's output is the token sequence. */
module GuiController {
  import opened Base
  import opened PyStr
  import opened PyPath

  /** One spaCy token: its text, the whitespace that follows it, and whether the NER model
      gave it an entity type (`token.ent_type_` non-empty). */
  datatype Token = Token(text: string, whitespace: string, isEntity: bool)

  const EntityOpen := "[!|"
  const EntityClose := "|!]"

  /** One token as `highlight_entities` writes it. */
  function Render(t: Token): string {
    if t.isEntity then EntityOpen + t.text + EntityClose + t.whitespace else t.text + t.whitespace
  }

  /** The tokens written one after another, before the final strip. */
  function Rendered(doc: seq<Token>): string {
    if doc == [] then "" else Render(doc[0]) + Rendered(doc[1..])
  }

  /** `highlight_entities(doc)` */
  function HighlightEntities(doc: seq<Token>): string {
    Strip(Rendered(doc))
  }

  /** The text of a document with no markup: every token's text and whitespace. */
  function PlainText(doc: seq<Token>): string {
    if doc == [] then "" else doc[0].text + doc[0].whitespace + PlainText(doc[1..])
  }

  /** Highlighting keeps token order: a document cut in two renders as its halves. */
  lemma {:induction false} RenderedAppend(a: seq<Token>, b: seq<Token>)
    ensures Rendered(a + b) == Rendered(a) + Rendered(b)
  {
    if a != [] {
      assert (a + b)[0] == a[0];
      assert (a + b)[1..] == a[1..] + b;
      RenderedAppend(a[1..], b);
    } else {
      assert a + b == b;
    }
  }

  /** Without entity tokens, highlighting is the stripped text of the document. */
  lemma {:induction false} NoEntities(doc: seq<Token>)
    requires forall i :: 0 <= i < |doc| ==> !doc[i].isEntity
    ensures HighlightEntities(doc) == Strip(PlainText(doc))
    ensures Rendered(doc) == PlainText(doc)
  {
    if doc != [] {
      NoEntities(doc[1..]);
    }
  }

  /** An entity at the front is marked in full at the start of the result, and everything
      after it is only right-stripped. */
  lemma EntityFirstMarked(doc: seq<Token>)
    requires doc != [] && doc[0].isEntity
    ensures var head := EntityOpen + doc[0].text + EntityClose;
            HighlightEntities(doc) == head + RStrip(doc[0].whitespace + Rendered(doc[1..]))
  {
    var head := EntityOpen + doc[0].text + EntityClose;
    var tail := doc[0].whitespace + Rendered(doc[1..]);
    assert Rendered(doc) == head + tail;
    assert head[0] == '[';
    LStripSpacePrefix([], head + tail);
    assert [] + (head + tail) == head + tail;
    assert head[|head| - 1] == ']';
    RStripKeepsHead(head, tail);
  }

  /** The highlighted text neither starts nor ends with whitespace. */
  lemma HighlightTrimmed(doc: seq<Token>)
    ensures var r := HighlightEntities(doc);
            r == [] || (!IsSpace(r[0]) && !IsSpace(r[|r| - 1]))
  {
    var l := LStrip(Rendered(doc));
    var r := RStrip(l);
    assert l == [] || !IsSpace(l[0]);
    assert r == l[..|r|];
    if r != [] {
      assert r[0] == l[0];
    }
  }

  // ---------------------------------------------------------------------------
  // Result list items

  /** `f"File {index}: {filename}\n{highlighted}"` */
  function ItemText(index: nat, filename: string, highlighted: string): string {
    "File " + NatToString(index) + ": " + filename + "\n" + highlighted
  }

  /** The list item for result `k` (counting from 0): numbered from 1, with the
      transcription highlighted after the NER model `nlp` tagged it. */
  function Entry(results: seq<(string, string)>, nlp: string -> seq<Token>, k: nat): string
    requires k < |results|
  {
    ItemText(k + 1, results[k].0, HighlightEntities(nlp(results[k].1)))
  }

  /** `handle_file_transcription_result(results)`: one item per result, in result order. */
  function ItemTexts(results: seq<(string, string)>, nlp: string -> seq<Token>): (r: seq<string>)
    ensures |r| == |results|
    ensures forall k :: 0 <= k < |results| ==> r[k] == Entry(results, nlp, k)
  {
    seq(|results|, k requires 0 <= k < |results| => Entry(results, nlp, k))
  }

  // ---------------------------------------------------------------------------
  // Saving file transcriptions

  const ProcessedDir := "PROCESSED_TRANSCRIPTION"

  /** `text.split(':')[-1].strip()`, or `None` when the item has no `:` (the item is
      skipped). */
  function LastSegment(text: string): (r: Option<string>)
    ensures r.None? <==> ':' !in text
  {
    ContainsChar(text, ':');
    var parts := Split(text, ":");
    if |parts| < 2 then None else Some(Strip(parts[|parts| - 1]))
  }

  /** The segment kept is the stripped text after the last `:` of the item. */
  lemma LastSegmentAfterLastColon(text: string)
    ensures LastSegment(text).Some? ==>
              LastSegment(text).value == Strip(text[LastIndexOf(text, ':').value + 1..])
  {
    AfterLastColon(text);
  }

  /** The last piece of `text.split(':')` is the text after its last `:`. */
  lemma AfterLastColon(text: string)
    ensures var parts := Split(text, ":");
            ':' in text ==> parts[|parts| - 1] == text[LastIndexOf(text, ':').value + 1..]
  {
    if ':' in text {
      SplitCharLast(text, ':');
      var parts := Split(text, ":");
      LastIndexBeforeSuffix(text, ':', parts[|parts| - 1]);
    }
  }

  /** `rfind` lands just before the text that follows the last occurrence. */
  lemma LastIndexBeforeSuffix(s: string, c: char, last: string)
    requires c in s && TextAfterLast(s, c, last)
    ensures LastIndexOf(s, c) == Some(|s| - |last| - 1)
  {
    assert |last| < |s|;
    var j := |s| - |last| - 1;
    forall i | j < i < |s| ensures s[i] != c {
      assert s[i] == last[i - j - 1];
    }
  }

  /** `file_name_part`: the text before the first `.mp3` when there is one, otherwise before
      the first `.wav`; `None` when neither occurs (the item is skipped). */
  function FileNamePart(seg: string): (r: Option<string>)
    ensures Contains(seg, ".mp3") ==> r == Some(seg[..Find(seg, ".mp3").value])
    ensures !Contains(seg, ".mp3") && Contains(seg, ".wav") ==> r == Some(seg[..Find(seg, ".wav").value])
    ensures !Contains(seg, ".mp3") && !Contains(seg, ".wav") ==> r.None?
  {
    var parts := Split(seg, ".mp3");
    var parts := if |parts| < 2 then Split(seg, ".wav") else parts;
    if |parts| < 2 then None else Some(parts[0])
  }

  /** The length of the longest leading run of `_`-components without a digit. */
  function LeadingRun(comps: seq<string>): (k: nat)
    ensures k <= |comps|
    ensures forall j :: 0 <= j < k ==> !HasDigit(comps[j])
    ensures k < |comps| ==> HasDigit(comps[k])
  {
    if comps == [] || HasDigit(comps[0]) then 0 else 1 + LeadingRun(comps[1..])
  }

  /** The base name of a file name part: its leading digit-free components joined by `_`, or
      `None` when the very first component has a digit. */
  function BaseNameOf(part: string): Option<string> {
    var comps := Split(part, "_");
    var k := LeadingRun(comps);
    if k == 0 then None else Some(Join("_", comps[..k]))
  }

  /** The component loop of `save_file_transcription`: stop at the first component with a
      digit, start with the first component, extend with `_` and each further one. */
  method BaseName(part: string) returns (b: Option<string>)
    ensures b == BaseNameOf(part)
  {
    var comps := Split(part, "_");
    b := None;
    var i := 0;
    while i < |comps| && !HasDigit(comps[i])
      invariant 0 <= i <= |comps|
      invariant forall j :: 0 <= j < i ==> !HasDigit(comps[j])
      invariant b == if i == 0 then None else Some(Join("_", comps[..i]))
    {
      if b.None? {
        assert comps[..1] == [comps[0]];
        b := Some(comps[i]);
      } else {
        JoinSnoc("_", comps[..i], comps[i]);
        assert comps[..i] + [comps[i]] == comps[..i + 1];
        b := Some(b.value + "_" + comps[i]);
      }
      i := i + 1;
    }
    LeadingRunIsFirstDigit(comps, i);
  }

  /** The leading run ends exactly where the first component with a digit is. */
  lemma {:induction false} LeadingRunIsFirstDigit(comps: seq<string>, i: nat)
    requires i <= |comps|
    requires forall j :: 0 <= j < i ==> !HasDigit(comps[j])
    requires i < |comps| ==> HasDigit(comps[i])
    ensures LeadingRun(comps) == i
  {
    if i > 0 {
      LeadingRunIsFirstDigit(comps[1..], i - 1);
    }
  }

  /** The base name has no digit, is a prefix of the file name part, and is missing exactly
      when the part's first component has a digit. */
  lemma BaseNameShape(part: string)
    ensures BaseNameOf(part).None? <==> HasDigit(Split(part, "_")[0])
    ensures BaseNameOf(part).Some? ==> !HasDigit(BaseNameOf(part).value)
    ensures BaseNameOf(part).Some? ==> StartsWith(part, BaseNameOf(part).value)
  {
    var comps := Split(part, "_");
    var k := LeadingRun(comps);
    if k > 0 {
      assert !HasDigit("_");
      JoinNoDigit("_", comps[..k]);
      SplitJoin(part, "_");
      if k < |comps| {
        JoinAt("_", comps, k);
      } else {
        assert comps[..k] == comps;
      }
    }
  }

  /** What saving does with one item: skip it, record its file name part in
      `no_root_name.txt`, or append its segment as a line to the file at `path`. */
  datatype SaveAction = Skip | NoRoot(name: string) | Append(path: string, line: string)

  /** The outcome of one item of `save_file_transcription`. */
  function ActionOf(text: string): SaveAction {
    match LastSegment(text)
    case None => Skip
    case Some(seg) =>
      match FileNamePart(seg)
      case None => Skip
      case Some(part) =>
        match BaseNameOf(part)
        case None => NoRoot(part)
        case Some(b) => Append(PathJoin(ProcessedDir, b + ".txt"), seg)
  }

  /** An item without `:` or without a `.mp3`/`.wav` in its last segment is skipped; one whose
      base name is missing goes to the no-root list with a name whose first component has a
      digit; any other appends its whole segment to the file of a digit-free base name. */
  lemma ActionCases(text: string)
    ensures ':' !in text ==> ActionOf(text) == Skip
    ensures LastSegment(text).Some? && FileNamePart(LastSegment(text).value).None? ==> ActionOf(text) == Skip
    ensures ActionOf(text).NoRoot? ==> HasDigit(Split(ActionOf(text).name, "_")[0])
    ensures ActionOf(text).Append? ==>
              && LastSegment(text) == Some(ActionOf(text).line)
              && exists b :: !HasDigit(b) && ActionOf(text).path == PathJoin(ProcessedDir, b + ".txt")
  {
    var a := ActionOf(text);
    if a.NoRoot? {
      BaseNameShape(a.name);
    } else if a.Append? {
      var part := FileNamePart(LastSegment(text).value).value;
      BaseNameShape(part);
      var b := BaseNameOf(part).value;
      assert a.path == PathJoin(ProcessedDir, b + ".txt");
    }
  }

  /** The lines `no_root_name.txt` gains, in list order, when `act` decides each item. */
  function NoRootNames(act: string -> SaveAction, items: seq<string>): seq<string> {
    if items == [] then []
    else
      var a := act(items[|items| - 1]);
      NoRootNames(act, items[..|items| - 1]) + if a.NoRoot? then [a.name] else []
  }

  /** The lines the file at `path` gains, in list order, when `act` decides each item. */
  function LinesTo(act: string -> SaveAction, items: seq<string>, path: string): seq<string> {
    if items == [] then []
    else
      var a := act(items[|items| - 1]);
      LinesTo(act, items[..|items| - 1], path) + if a.Append? && a.path == path then [a.line] else []
  }

  /** The lines a file held before the save (none when it did not exist). */
  function Existing(files: map<string, seq<string>>, path: string): seq<string> {
    if path in files then files[path] else []
  }

  /** Deciding item `i` after the items before it. */
  lemma LinesToStep(act: string -> SaveAction, items: seq<string>, i: nat)
    requires i < |items|
    ensures var a := act(items[i]);
            NoRootNames(act, items[..i + 1]) == NoRootNames(act, items[..i]) + (if a.NoRoot? then [a.name] else [])
    ensures var a := act(items[i]);
            forall p :: LinesTo(act, items[..i + 1], p) ==
                        LinesTo(act, items[..i], p) + (if a.Append? && a.path == p then [a.line] else [])
  {
    assert items[..i + 1][..i] == items[..i] && items[..i + 1][i] == items[i];
  }

  /** One item's effect on the files. */
  function ApplyAction(files: map<string, seq<string>>, a: SaveAction): map<string, seq<string>> {
    if a.Append? then files[a.path := Existing(files, a.path) + [a.line]] else files
  }

  /** The files that exist after deciding item `i`. */
  lemma SaveStepKeys(act: string -> SaveAction, items: seq<string>, i: nat,
                     files0: map<string, seq<string>>, files: map<string, seq<string>>)
    requires i < |items|
    requires forall p :: p in files <==> p in files0 || LinesTo(act, items[..i], p) != []
    ensures var files' := ApplyAction(files, act(items[i]));
            forall p :: p in files' <==> p in files0 || LinesTo(act, items[..i + 1], p) != []
  {
    var a := act(items[i]);
    LinesToStep(act, items, i);
    var files' := ApplyAction(files, a);
    forall p ensures p in files' <==> p in files0 || LinesTo(act, items[..i + 1], p) != [] {
      if a.Append? && a.path == p {
        assert p in files';
        assert LinesTo(act, items[..i + 1], p) == LinesTo(act, items[..i], p) + [a.line];
      } else {
        assert LinesTo(act, items[..i + 1], p) == LinesTo(act, items[..i], p);
        assert p in files' <==> p in files;
      }
    }
  }

  /** The contents of the files after deciding item `i`. */
  lemma SaveStepLines(act: string -> SaveAction, items: seq<string>, i: nat,
                      files0: map<string, seq<string>>, files: map<string, seq<string>>)
    requires i < |items|
    requires forall p :: p in files ==> files[p] == Existing(files0, p) + LinesTo(act, items[..i], p)
    requires forall p :: p !in files ==> p !in files0 && LinesTo(act, items[..i], p) == []
    ensures var files' := ApplyAction(files, act(items[i]));
            forall p :: p in files' ==> files'[p] == Existing(files0, p) + LinesTo(act, items[..i + 1], p)
  {
    var a := act(items[i]);
    LinesToStep(act, items, i);
    var files' := ApplyAction(files, a);
    forall p | p in files' ensures files'[p] == Existing(files0, p) + LinesTo(act, items[..i + 1], p) {
      var e, l := Existing(files0, p), LinesTo(act, items[..i], p);
      if a.Append? && a.path == p {
        assert files'[p] == Existing(files, p) + [a.line];
        assert Existing(files, p) == e + l;
        assert LinesTo(act, items[..i + 1], p) == l + [a.line];
        assert (e + l) + [a.line] == e + (l + [a.line]);
      } else {
        assert files'[p] == files[p];
        assert LinesTo(act, items[..i + 1], p) == l;
      }
    }
  }

  /** The item loop of `save_file_transcription` with the per-item decision `act`. Every file
      is opened for appending, so earlier contents stay: `files` maps a path to its lines and
      `noRoot` is the content of `no_root_name.txt`. */
  method SaveItems(act: string -> SaveAction, items: seq<string>,
                   files0: map<string, seq<string>>, noRoot0: seq<string>)
    returns (files: map<string, seq<string>>, noRoot: seq<string>)
    ensures noRoot == noRoot0 + NoRootNames(act, items)
    ensures forall p :: p in files <==> p in files0 || LinesTo(act, items, p) != []
    ensures forall p :: p in files ==> files[p] == Existing(files0, p) + LinesTo(act, items, p)
  {
    files, noRoot := files0, noRoot0;
    var i := 0;
    while i < |items|
      invariant 0 <= i <= |items|
      invariant noRoot == noRoot0 + NoRootNames(act, items[..i])
      invariant forall p :: p in files <==> p in files0 || LinesTo(act, items[..i], p) != []
      invariant forall p :: p in files ==> files[p] == Existing(files0, p) + LinesTo(act, items[..i], p)
    {
      var a := act(items[i]);
      LinesToStep(act, items, i);
      SaveStepKeys(act, items, i, files0, files);
      SaveStepLines(act, items, i, files0, files);
      files := ApplyAction(files, a);
      if a.NoRoot? {
        noRoot := noRoot + [a.name];
      }
      i := i + 1;
    }
    assert items[..|items|] == items;
  }

  /** `save_file_transcription()` over the list's item texts. */
  method SaveFileTranscription(items: seq<string>, files0: map<string, seq<string>>, noRoot0: seq<string>)
    returns (files: map<string, seq<string>>, noRoot: seq<string>)
    ensures noRoot == noRoot0 + NoRootNames(ActionOf, items)
    ensures forall p :: p in files ==> files[p] == Existing(files0, p) + LinesTo(ActionOf, items, p)
    ensures forall p :: p in files0 || LinesTo(ActionOf, items, p) != [] <==> p in files
  {
    files, noRoot := SaveItems(ActionOf, items, files0, noRoot0);
  }

  /** A list item made by `handle_file_transcription_result` is saved under the text after
      its number, provided neither the file name nor the highlighted transcription holds a
      `:`. */
  lemma ItemSegment(index: nat, filename: string, highlighted: string)
    requires ':' !in filename && ':' !in highlighted
    ensures LastSegment(ItemText(index, filename, highlighted)) == Some(Strip(" " + filename + "\n" + highlighted))
  {
    var head := "File " + NatToString(index);
    var rest := " " + filename + "\n" + highlighted;
    assert ItemText(index, filename, highlighted) == head + [':'] + rest;
    assert ':' !in head by {
      forall i | 0 <= i < |head| ensures head[i] != ':' {
        if i >= 5 {
          assert head[i] == NatToString(index)[i - 5];
        }
      }
    }
    assert ':' !in rest by {
      assert forall i :: 1 <= i <= |filename| ==> rest[i] == filename[i - 1];
      assert forall i :: |filename| + 2 <= i < |rest| ==> rest[i] == highlighted[i - |filename| - 2];
    }
    SplitAtSole(head, ':', rest);
  }

  /** The round trip between the two handlers: an item of the result list, read back by the
      save handler, yields the text after its number (the file name and the highlighted
      transcription, stripped), provided neither holds a `:`. */
  lemma ItemTextsSegment(results: seq<(string, string)>, nlp: string -> seq<Token>, k: nat)
    requires k < |results|
    ensures ':' !in results[k].0 && ':' !in HighlightEntities(nlp(results[k].1)) ==>
              LastSegment(ItemTexts(results, nlp)[k]) ==
              Some(Strip(" " + results[k].0 + "\n" + HighlightEntities(nlp(results[k].1))))
  {
    if ':' !in results[k].0 && ':' !in HighlightEntities(nlp(results[k].1)) {
      ItemSegment(k + 1, results[k].0, HighlightEntities(nlp(results[k].1)));
    }
  }
}
