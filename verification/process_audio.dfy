/** `src/process_audio.ts` with the event source, notices and vault calls
    stripped away: the stream URL rewrite, the per-job `SSEState` and the step
    each stream event applies to it, the frontmatter and transcript renderers,
    and the stream as a whole, which ends with the first save. */
module ProcessAudio {
  import opened JsValues
  import opened Strings
  import SrcUtils

  /** `SSEState`: chapters are kept as the text each `chapter` event carried. */
  datatype SSEState = SSEState(
    chapters: seq<string>,
    frontmatter: string,
    noteName: string,
    numChapters: int,
    transcriptTime: string,
    lastNotice: string)

  /** The state `handleSSE` creates, and the state `resetSSEState` leaves. */
  const EmptyState: SSEState := SSEState([], "", "", 0, "", "")

  /** `resetSSEState`: every field is cleared, whatever it held. */
  function ResetSSEState(s: SSEState): (r: SSEState)
    ensures r.chapters == [] && r.frontmatter == "" && r.noteName == ""
    ensures r.numChapters == 0 && r.transcriptTime == "" && r.lastNotice == ""
  {
    EmptyState
  }

  /** Nothing of the previous job survives a reset. */
  lemma ResetForgets(s: SSEState, t: SSEState)
    ensures ResetSSEState(s) == ResetSSEState(t) == EmptyState
  {
  }

  // ---------------------------------------------------------------------
  // the stream URL

  const ProcessAudioPath: string := "/process_audio"
  const SsePath: string := "/sse"

  /** The stream URL of `handleSSE`: the first `/process_audio` in the API
      URL becomes `/sse`; a URL without it is used unchanged. */
  function SseUrl(apiUrl: string): (r: string)
    ensures (forall i {:trigger OccursAt(apiUrl, ProcessAudioPath, i)} :: !OccursAt(apiUrl, ProcessAudioPath, i))
            ==> r == apiUrl
    ensures forall i {:trigger OccursAt(apiUrl, ProcessAudioPath, i)} ::
              OccursAt(apiUrl, ProcessAudioPath, i)
              && (forall j {:trigger OccursAt(apiUrl, ProcessAudioPath, j)} :: j < i ==> !OccursAt(apiUrl, ProcessAudioPath, j))
              ==> r == apiUrl[..i] + SsePath + apiUrl[i + |ProcessAudioPath|..]
  {
    ReplaceFirst(apiUrl, ProcessAudioPath, SsePath)
  }

  /** An API URL that ends in its only `/process_audio`, like the default
      `http://127.0.0.1:8081/api/v1/process_audio`, gets `/sse` in its place. */
  lemma SseUrlOfEndpoint(base: string)
    requires forall i {:trigger OccursAt(base + ProcessAudioPath, ProcessAudioPath, i)} ::
               0 <= i < |base| ==> !OccursAt(base + ProcessAudioPath, ProcessAudioPath, i)
    ensures SseUrl(base + ProcessAudioPath) == base + SsePath
  {
    var url := base + ProcessAudioPath;
    assert OccursAt(url, ProcessAudioPath, |base|);
    assert url[..|base|] == base;
    assert url[|base| + |ProcessAudioPath|..] == "";
  }

  // ---------------------------------------------------------------------
  // the status slot

  /** A `status` event: the text replaces whatever notice was waiting. */
  function OnStatus(s: SSEState, text: string): (r: SSEState)
    ensures r.lastNotice == text
    ensures r.(lastNotice := s.lastNotice) == s
  {
    s.(lastNotice := text)
  }

  /** The interval callback: a waiting non-empty notice is shown once and the
      slot is emptied; an empty slot shows nothing. */
  function Flush(s: SSEState): (r: (SSEState, Option<string>))
    ensures r.1 == (if s.lastNotice != "" then Some(s.lastNotice) else None)
    ensures r.0.lastNotice == "" && r.0.(lastNotice := s.lastNotice) == s
  {
    if s.lastNotice != "" then (s.(lastNotice := ""), Some(s.lastNotice))
    else (s, None)
  }

  /** Status events coalesce: only the newest one is kept. */
  lemma StatusOverwrites(s: SSEState, a: string, b: string)
    ensures OnStatus(OnStatus(s, a), b) == OnStatus(s, b)
  {
  }

  /** A second flush with no status in between shows nothing. */
  lemma FlushIdempotent(s: SSEState)
    ensures Flush(Flush(s).0) == (Flush(s).0, None)
  {
  }

  // ---------------------------------------------------------------------
  // payloads

  /** One entry of `data.metadata`, in `Object.entries` order; `None` is
      JSON `null`. */
  datatype Entry = Entry(key: string, value: Option<string>)

  /** A parsed `data` payload, keeping only the four fields the handler
      reads. `None` means absent or `null`. */
  datatype Payload = Payload(
    metadata: Option<seq<Entry>>,
    numChapters: Option<int>,
    chapter: Option<string>,
    transcriptionTime: Option<string>)

  /** The value stored under `key`, if there is an entry for it (a parsed
      object has at most one). */
  function Lookup(entries: seq<Entry>, key: string): (r: Option<Option<string>>)
    ensures r.None? <==> forall k :: 0 <= k < |entries| ==> entries[k].key != key
    ensures r.Some? ==> exists k :: 0 <= k < |entries| && entries[k] == Entry(key, r.value)
    decreases |entries|
  {
    if |entries| == 0 then None
    else if entries[0].key == key then Some(entries[0].value)
    else
      var r := Lookup(entries[1..], key);
      if r.Some? then
        var k :| 0 <= k < |entries[1..]| && entries[1..][k] == Entry(key, r.value);
        assert entries[k + 1] == Entry(key, r.value);
        r
      else r
  }

  /** `data.metadata.title` is truthy. */
  predicate HasTitle(entries: seq<Entry>) {
    var t := Lookup(entries, "title");
    t.Some? && Truthy(t.value)
  }

  const ChaptersMetadataKey: string := "chapters_metadata"

  /** The `key: value` line of one entry; `null` is written as the two
      characters `""`. */
  function EntryLine(e: Entry): string {
    e.key + ": " + (if e.value.Some? then e.value.value else "\"\"") + "\n"
  }

  /** The lines of the metadata block, skipping `chapters_metadata`. */
  function MetadataLines(entries: seq<Entry>): string
    decreases |entries|
  {
    if |entries| == 0 then ""
    else
      var e := entries[|entries| - 1];
      var rest := MetadataLines(entries[..|entries| - 1]);
      if e.key == ChaptersMetadataKey then rest else rest + EntryLine(e)
  }

  /** The block is the lines of exactly the kept entries, in order:
      filtering, then rendering. */
  lemma {:induction false} MetadataLinesAreKeptLines(entries: seq<Entry>)
    ensures MetadataLines(entries) == EntryLines(KeptEntries(entries))
    decreases |entries|
  {
    if |entries| > 0 {
      var e := entries[|entries| - 1];
      var kept := KeptEntries(entries[..|entries| - 1]);
      MetadataLinesAreKeptLines(entries[..|entries| - 1]);
      assert (kept + [e])[..|kept + [e]| - 1] == kept;
    }
  }

  /** One `key: value` line per entry, in order, with no filtering. */
  function EntryLines(entries: seq<Entry>): string
    decreases |entries|
  {
    if |entries| == 0 then ""
    else EntryLines(entries[..|entries| - 1]) + EntryLine(entries[|entries| - 1])
  }

  /** The frontmatter text of the metadata handler: `"---\n"`, the lines,
      `"---"`, wrapped once more in `"---\n"` … `"---\n"`. */
  function RenderFrontmatter(entries: seq<Entry>): (r: string)
    ensures StartsWith(r, "---\n---\n")
    ensures EndsWith(r, "------\n")
    ensures r == "---\n---\n" + MetadataLines(entries) + "------\n"
  {
    var yaml := "---\n" + MetadataLines(entries) + "---";
    "---\n" + yaml + "---\n"
  }

  /** The metadata lines of two runs of entries are the lines of each, in
      order. */
  lemma {:induction false} MetadataLinesAppend(a: seq<Entry>, b: seq<Entry>)
    ensures MetadataLines(a + b) == MetadataLines(a) + MetadataLines(b)
    decreases |b|
  {
    if |b| == 0 {
      assert a + b == a;
    } else {
      var ab := a + b;
      var init := b[..|b| - 1];
      var e := b[|b| - 1];
      assert ab[..|ab| - 1] == a + init;
      assert ab[|ab| - 1] == e;
      MetadataLinesAppend(a, init);
      if e.key == ChaptersMetadataKey {
        assert MetadataLines(b) == MetadataLines(init);
        assert MetadataLines(ab) == MetadataLines(a + init);
      } else {
        assert MetadataLines(b) == MetadataLines(init) + EntryLine(e);
        assert MetadataLines(ab) == MetadataLines(a + init) + EntryLine(e);
      }
    }
  }

  /** The block is empty exactly when every entry is `chapters_metadata`. */
  lemma {:induction false} MetadataLinesEmpty(entries: seq<Entry>)
    ensures MetadataLines(entries) == "" <==> forall k :: 0 <= k < |entries| ==> entries[k].key == ChaptersMetadataKey
    decreases |entries|
  {
    if |entries| > 0 {
      var init := entries[..|entries| - 1];
      MetadataLinesEmpty(init);
      assert forall k :: 0 <= k < |init| ==> init[k] == entries[k];
    }
  }

  /** One entry contributes exactly its line, or nothing when it is
      `chapters_metadata`. */
  lemma MetadataLinesSingle(e: Entry)
    ensures MetadataLines([e]) == (if e.key == ChaptersMetadataKey then "" else EntryLine(e))
  {
    assert [e][..0] == [];
  }

  /** With no line breaks inside keys or values, the block has exactly one
      line per entry that is not `chapters_metadata`. */
  lemma {:induction false} MetadataLineCount(entries: seq<Entry>)
    requires forall k :: 0 <= k < |entries| ==>
               '\n' !in entries[k].key && (entries[k].value.Some? ==> '\n' !in entries[k].value.value)
    ensures CountChar(MetadataLines(entries), '\n') == |KeptEntries(entries)|
    decreases |entries|
  {
    if |entries| > 0 {
      var init := entries[..|entries| - 1];
      var e := entries[|entries| - 1];
      MetadataLineCount(init);
      if e.key != ChaptersMetadataKey {
        var v := if e.value.Some? then e.value.value else "\"\"";
        CountCharAppend(MetadataLines(init), EntryLine(e), '\n');
        CountCharAppend(e.key + ": " + v, "\n", '\n');
        CountCharAppend(e.key, ": ", '\n');
        CountCharAppend(e.key + ": ", v, '\n');
        CountCharAbsent(e.key, '\n');
        CountCharAbsent(v, '\n');
        assert CountChar(": ", '\n') == 0;
        assert CountChar("\n", '\n') == 1;
      }
    }
  }

  /** The entries that get a line. */
  function KeptEntries(entries: seq<Entry>): (r: seq<Entry>)
    ensures |r| <= |entries|
    ensures forall k :: 0 <= k < |r| ==> r[k].key != ChaptersMetadataKey && r[k] in entries
    decreases |entries|
  {
    if |entries| == 0 then []
    else
      var e := entries[|entries| - 1];
      var rest := KeptEntries(entries[..|entries| - 1]);
      if e.key == ChaptersMetadataKey then rest else rest + [e]
  }

  /** Filtering keeps the order: the kept entries of two runs are the kept
      entries of each, one after the other. */
  lemma {:induction false} KeptEntriesAppend(a: seq<Entry>, b: seq<Entry>)
    ensures KeptEntries(a + b) == KeptEntries(a) + KeptEntries(b)
    decreases |b|
  {
    if |b| == 0 {
      assert a + b == a;
    } else {
      var ab := a + b;
      var init := b[..|b| - 1];
      var e := b[|b| - 1];
      assert ab[..|ab| - 1] == a + init;
      assert ab[|ab| - 1] == e;
      KeptEntriesAppend(a, init);
      var tail := if e.key == ChaptersMetadataKey then [] else [e];
      assert KeptEntries(ab) == KeptEntries(a + init) + tail;
      assert KeptEntries(b) == KeptEntries(init) + tail;
    }
  }

  /** Nothing is dropped but `chapters_metadata`: every other entry is kept. */
  lemma {:induction false} KeptEntriesComplete(entries: seq<Entry>)
    ensures forall k :: 0 <= k < |entries| && entries[k].key != ChaptersMetadataKey
              ==> entries[k] in KeptEntries(entries)
    decreases |entries|
  {
    if |entries| > 0 {
      var init := entries[..|entries| - 1];
      KeptEntriesComplete(init);
      forall k | 0 <= k < |entries| - 1 && entries[k].key != ChaptersMetadataKey
        ensures entries[k] in KeptEntries(entries)
      {
        assert entries[k] == init[k];
      }
    }
  }

  /** One entry is kept exactly when it is not `chapters_metadata`. */
  lemma KeptEntriesSingle(e: Entry)
    ensures KeptEntries([e]) == (if e.key == ChaptersMetadataKey then [] else [e])
  {
    assert [e][..0] == [];
  }

  // ---------------------------------------------------------------------
  // applying one payload

  /** The `metadata` branch: a truthy title names the note, and the
      frontmatter is replaced by the rendered entries. */
  function ApplyMetadata(s: SSEState, entries: seq<Entry>): (r: SSEState)
    ensures HasTitle(entries) ==> r.noteName == Lookup(entries, "title").value.value
    ensures !HasTitle(entries) ==> r.noteName == s.noteName
    ensures r.frontmatter == RenderFrontmatter(entries)
    ensures r.(noteName := s.noteName, frontmatter := s.frontmatter) == s
  {
    var named := if HasTitle(entries) then s.(noteName := Lookup(entries, "title").value.value) else s;
    named.(frontmatter := RenderFrontmatter(entries))
  }

  /** The `metadata`, `num_chapters` and `chapter` branches, in that order,
      each taken only when its field is truthy. */
  function ApplyPayload(s: SSEState, p: Payload): (r: SSEState)
    ensures p.metadata.Some? ==> r.frontmatter == RenderFrontmatter(p.metadata.value)
    ensures p.metadata.None? ==> r.frontmatter == s.frontmatter && r.noteName == s.noteName
    ensures p.metadata.Some? ==>
              r.noteName == (if HasTitle(p.metadata.value) then Lookup(p.metadata.value, "title").value.value
                             else s.noteName)
    ensures r.numChapters == (if p.numChapters.Some? && p.numChapters.value != 0 then p.numChapters.value else s.numChapters)
    ensures r.chapters == s.chapters + (if Truthy(p.chapter) then [p.chapter.value] else [])
    ensures r.transcriptTime == s.transcriptTime && r.lastNotice == s.lastNotice
  {
    var afterMetadata := if p.metadata.Some? then ApplyMetadata(s, p.metadata.value) else s;
    var afterCount :=
      if p.numChapters.Some? && p.numChapters.value != 0 then afterMetadata.(numChapters := p.numChapters.value)
      else afterMetadata;
    if Truthy(p.chapter) then afterCount.(chapters := afterCount.chapters + [p.chapter.value])
    else afterCount
  }

  // ---------------------------------------------------------------------
  // saving

  datatype WriteMode = Modify | Create

  /** The write `saveTranscript` performs. */
  datatype SaveAction = SaveAction(mode: WriteMode, path: string, content: string)

  /** The text before the chapters: the frontmatter and a blank line, when
      there is a frontmatter. */
  function Header(s: SSEState): string {
    if s.frontmatter != "" then s.frontmatter + "\n\n" else ""
  }

  /** `saveTranscript`: the note sits at `folder/noteName` with no extension
      added; its content is the header, the chapters one per line and a final
      line break; an existing note is overwritten, otherwise it is created.
      `noteExists` stands for the vault lookup. */
  function SaveTranscript(s: SSEState, folder: string, noteExists: string -> bool): (a: SaveAction)
    ensures StartsWith(a.path, folder + "/") && a.path[|folder| + 1..] == s.noteName
    ensures a.mode == Modify <==> noteExists(a.path)
    ensures s.frontmatter != "" ==> StartsWith(a.content, s.frontmatter + "\n\n")
    ensures s.frontmatter == "" ==> a.content == Join(s.chapters, "\n") + "\n"
    ensures EndsWith(a.content, "\n")
    ensures a.content == Header(s) + Join(s.chapters, "\n") + "\n"
  {
    var path := folder + "/" + s.noteName;
    var content := Header(s) + Join(s.chapters, "\n") + "\n";
    assert path[..|folder + "/"|] == folder + "/";
    SaveAction(if noteExists(path) then Modify else Create, path, content)
  }

  /** The chapters can be read back from the saved note: the text between
      the header and the final line break splits, on line breaks, into the
      chapters, provided they are single lines. */
  lemma ChaptersRecoverable(s: SSEState, folder: string, noteExists: string -> bool)
    requires |s.chapters| >= 1
    requires forall k :: 0 <= k < |s.chapters| ==> '\n' !in s.chapters[k]
    ensures var c := SaveTranscript(s, folder, noteExists).content;
            |Header(s)| < |c| && Split(c[|Header(s)|..|c| - 1], '\n') == s.chapters
  {
    var c := SaveTranscript(s, folder, noteExists).content;
    var body := Join(s.chapters, "\n");
    assert c[|Header(s)|..|c| - 1] == body;
    SplitJoin(s.chapters, '\n');
  }

  /** The `data` handler. A payload that did not parse (`None`) changes
      nothing. Otherwise the payload is applied, and a truthy
      `transcription_time` saves the note from the state that includes this
      payload's own metadata and chapter, then resets the state. */
  function HandleData(s: SSEState, data: Option<Payload>, folder: string, noteExists: string -> bool)
    : (r: (SSEState, Option<SaveAction>))
    ensures data.None? ==> r == (s, None)
    ensures data.Some? && !Truthy(data.value.transcriptionTime) ==> r == (ApplyPayload(s, data.value), None)
    ensures data.Some? && Truthy(data.value.transcriptionTime) ==>
              r.0 == EmptyState && r.1 == Some(SaveTranscript(ApplyPayload(s, data.value), folder, noteExists))
  {
    match data
    case None => (s, None)
    case Some(p) =>
      var t := ApplyPayload(s, p);
      if Truthy(p.transcriptionTime) then (ResetSSEState(t), Some(SaveTranscript(t, folder, noteExists)))
      else (t, None)
  }

  /** No deduplication: the same chapter delivered twice is saved twice. */
  lemma ChapterTwiceKeptTwice(s: SSEState, chapter: string)
    requires chapter != ""
    ensures var p := Payload(None, None, Some(chapter), None);
            ApplyPayload(ApplyPayload(s, p), p).chapters == s.chapters + [chapter, chapter]
  {
  }

  /** A count of 0 is falsy and leaves the known count in place. */
  lemma ZeroCountIgnored(s: SSEState)
    ensures ApplyPayload(s, Payload(None, Some(0), None, None)) == s
  {
  }

  /** Order within one payload: a payload that carries the last chapter, a
      title and the completion signal saves a note named by that title and
      containing that chapter. */
  lemma FinalPayloadSavedWhole(s: SSEState, entries: seq<Entry>, chapter: string, time: string,
                               folder: string, noteExists: string -> bool)
    requires HasTitle(entries) && chapter != "" && time != ""
    ensures var r := HandleData(s, Some(Payload(Some(entries), None, Some(chapter), Some(time))), folder, noteExists);
            && r.1.Some?
            && r.1.value.path == folder + "/" + Lookup(entries, "title").value.value
            && r.1.value.content
               == RenderFrontmatter(entries) + "\n\n" + Join(s.chapters + [chapter], "\n") + "\n"
  {
  }

  /** The note's duration line, spliced in by `addDurationToFrontmatter`,
      lands between the two closing fences of the rendered frontmatter. */
  lemma DurationLandsBetweenClosingFences(entries: seq<Entry>, duration: string)
    ensures SrcUtils.AddDurationToFrontmatter(RenderFrontmatter(entries), duration)
            == "---\n---\n" + MetadataLines(entries) + "---" + SrcUtils.DurationLine(duration) + "---\n"
  {
    var f := RenderFrontmatter(entries);
    var q := |f| - 4;
    assert f[q..] == "---\n";
    assert OccursAt(f, SrcUtils.Fence, q);
    SrcUtils.DurationBeforeLastFence(f, duration, q);
    assert f[..q] == "---\n---\n" + MetadataLines(entries) + "---";
  }

  // ---------------------------------------------------------------------
  // the stream

  /** What arrives: a `status` event, a `data` event (its payload, or `None`
      when `JSON.parse` throws), or a tick of the 5-second interval. */
  datatype Event = Status(text: string) | Data(payload: Option<Payload>) | Tick

  /** What the step produces besides the new state. */
  datatype Output = ShowNotice(text: string) | Write(save: SaveAction)

  function Step(s: SSEState, e: Event, folder: string, noteExists: string -> bool): (r: (SSEState, Option<Output>))
    ensures r.1.Some? && r.1.value.Write? <==> e.Data? && e.payload.Some? && Truthy(e.payload.value.transcriptionTime)
  {
    match e
    case Status(text) => (OnStatus(s, text), None)
    case Tick =>
      var f := Flush(s);
      (f.0, if f.1.Some? then Some(ShowNotice(f.1.value)) else None)
    case Data(d) =>
      var h := HandleData(s, d, folder, noteExists);
      (h.0, if h.1.Some? then Some(Write(h.1.value)) else None)
  }

  /** The job's stream from state `s`: events are handled in order until the
      first save, which closes the source and clears the interval, so the
      remaining events are never delivered. */
  function Run(s: SSEState, events: seq<Event>, folder: string, noteExists: string -> bool)
    : (r: (SSEState, seq<Output>))
    ensures forall i :: 0 <= i < |r.1| - 1 ==> !r.1[i].Write?
    ensures |r.1| <= |events|
    decreases |events|
  {
    if |events| == 0 then (s, [])
    else
      var step := Step(s, events[0], folder, noteExists);
      var out := if step.1.Some? then [step.1.value] else [];
      if step.1.Some? && step.1.value.Write? then (step.0, out)
      else
        var rest := Run(step.0, events[1..], folder, noteExists);
        (rest.0, out + rest.1)
  }

  /** A stream that never carries a truthy `transcription_time` saves nothing. */
  lemma {:induction false} NoCompletionNoSave(s: SSEState, events: seq<Event>, folder: string, noteExists: string -> bool)
    requires forall k :: 0 <= k < |events| ==>
               !(events[k].Data? && events[k].payload.Some? && Truthy(events[k].payload.value.transcriptionTime))
    ensures forall i :: 0 <= i < |Run(s, events, folder, noteExists).1| ==> !Run(s, events, folder, noteExists).1[i].Write?
    decreases |events|
  {
    if |events| > 0 {
      var step := Step(s, events[0], folder, noteExists);
      NoCompletionNoSave(step.0, events[1..], folder, noteExists);
    }
  }

  /** Status events followed by one tick show only the newest status,
      once, and only when it is non-empty. */
  lemma {:induction false} StatusesCoalesce(s: SSEState, texts: seq<string>, folder: string, noteExists: string -> bool)
    requires |texts| >= 1
    ensures var events := seq(|texts|, k requires 0 <= k < |texts| => Status(texts[k])) + [Tick];
            var last := texts[|texts| - 1];
            Run(s, events, folder, noteExists).1 == (if last != "" then [ShowNotice(last)] else [])
    decreases |texts|
  {
    var events := seq(|texts|, k requires 0 <= k < |texts| => Status(texts[k])) + [Tick];
    var t := OnStatus(s, texts[0]);
    if |texts| == 1 {
      assert events[1..] == [Tick];
    } else {
      StatusesCoalesce(t, texts[1..], folder, noteExists);
      assert events[1..] == seq(|texts[1..]|, k requires 0 <= k < |texts[1..]| => Status(texts[1..][k])) + [Tick];
    }
  }
}
