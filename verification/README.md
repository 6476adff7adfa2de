# obsidian-transcriber, modelled in Dafny

A model of the plugin-side logic of the Obsidian transcriber plugin. The plugin
sends a YouTube URL or an audio file to a transcription service, then listens on
a server-sent-event stream while the service reports its progress. Each job
delivers its metadata, a chapter count and the chapters one by one, and a final
`transcription_time` tells the plugin to write the note.

The model keeps the pure logic and drops the I/O:

- `StateManager` (`state_manager.dfy`): the per-job content state, the ordered
  list of fields that are still missing, and the chapter-coverage check.
- `ProcessAudio` (`process_audio.dfy`) covers:
  - the `/process_audio` → `/sse` stream URL;
  - the coalescing status slot and its 5-second flush;
  - the step each `data` payload applies;
  - the frontmatter and transcript renderers, with the note path and write mode;
  - the stream as a whole, which ends at the first save.
- `ContentChecker` (`content_checker.dfy`): the attempt-bounded retry timer as
  an explicit state machine. Firing a timer records the retry request it sends.
- `InputForm` (`input_form.dfy`): the submit dispatch over (file selected?,
  trimmed URL non-blank?), the service-availability gate in front of it, and
  the health base URL.
- `SrcUtils` (`src_utils.dfy`): the helpers of `src/utils.ts`.
  - frontmatter normalisation;
  - the case-insensitive audio-extension check;
  - the `lastIndexOf`-based duration splice;
  - the YouTube check, which is the regex or `ytdl`.
- `RootUtils` (`root_utils.dfy`): the older validators of the top-level
  `utils.ts`, a case-sensitive `.mp3` check and a regex-only YouTube check.
- Supporting modules:
  - `YouTubeRegex` holds hand-written recognisers for the URL regular
    expressions. Each is proved to accept exactly what the expression accepts.
  - `Strings` holds the JavaScript string operations the code relies on, with
    their JavaScript edge cases:
    - `indexOf` and `lastIndexOf`;
    - `replace`, which replaces the first match only;
    - `slice` with negative indices;
    - `split` and `join`;
    - `trim`;
    - `toLowerCase`.
  - `JsValues` holds `Option` for `null`/absent, and JavaScript truthiness.

Mutable objects become immutable records and pure step functions. Events,
interval flushes and timer firings are explicit transitions. Things the code
cannot see become parameters:
- `ytdl.validateURL` is the `ytdlValidate` predicate;
- the imported `isValidMP3` of the modal is the `isValidMP3` predicate;
- the vault's file lookup is `noteExists`;
- the health-check response is a `Health` value.

Worth knowing about the code, and modelled as it is:
- Chapters are not deduplicated.
- The note is saved when a payload carries a truthy `transcription_time`,
  whatever the chapter count.
- There is no closed flag for late events. The modelled stream simply ends at
  the first save.
- A firing retry timer sends its request without checking that the job key is
  set.

## Model

| member | source | states |
|---|---|---|
| StateManager.ResetState | src/state_manager.ts:89-97 | every field is back at its sentinel: empty key and basename, the empty frontmatter, count 0, no chapters; so all five properties are reported missing, in checking order |
| StateManager.GetProperty | src/state_manager.ts:47-51 | the value read back belongs to the property asked for |
| StateManager.SetProperty | src/state_manager.ts:39-45 | reading the set property returns the new value; every other property reads as before |
| StateManager.FrontmatterMissingIffSentinel | src/state_manager.ts:16-29 | the frontmatter counts as missing exactly when it matches the eleven-key sentinel on every field except `compute_type` |
| StateManager.ComputeTypeIgnored | src/state_manager.ts:70-72 | a frontmatter that differs from the sentinel only in `compute_type` is still missing |
| StateManager.BuiltFrontmatterNeverMissing | src/state_manager.ts:70-72 | a frontmatter built by `createFrontmatter_object` is never reported missing |
| StateManager.AnyChapterNumbered | src/state_manager.ts:106 | the `some` scan finds a chapter exactly when one carries the number |
| StateManager.CheckChaptersComplete | src/state_manager.ts:99-111 | with its early exit and its loop, the check returns true exactly when the count is non-zero, the list is long enough and every number 1..count has a chapter |
| StateManager.Numbers | src/state_manager.ts:106 | the set of chapter numbers has at most as many elements as there are chapters |
| StateManager.CoverageNeedsEnoughChapters | src/state_manager.ts:101-109 | covering every number 1..n takes at least n chapters |
| StateManager.ChaptersCompleteIff | src/state_manager.ts:99-111 | the length test is implied by coverage, so completeness is a non-zero count plus coverage; a negative count is vacuously complete |
| StateManager.GetMissingProperties | src/state_manager.ts:53-75 | the list is in key, basename, num_chapters, chapters, frontmatter order, without repeats; each property is present exactly when its own test says it is unset |
| StateManager.OrderedDetermined | src/state_manager.ts:56-72 | two ordered lists with the same members are equal |
| StateManager.MissingListUnique | src/state_manager.ts:53-75 | the missing list is the only ordered list holding exactly the unset properties |
| StateManager.NothingMissingIffComplete | src/state_manager.ts:53-75 | nothing is missing exactly when key and basename are set, the count is non-zero, the chapters are complete and the frontmatter is present |
| StateManager.IndexOfName | src/state_manager.ts:79 | `indexOf` gives -1 exactly when no entry has the name, and otherwise a position of an entry with it |
| StateManager.RemoveMissingProperty | src/state_manager.ts:77-83 | the state is untouched; the returned list has no entry with the name, keeps every other missing property and stays ordered |
| StateManager.RemoveByName | src/state_manager.ts:80-81 | splicing out the entry at the name's index removes that name and nothing else |
| StateManager.SpliceOrdered | src/state_manager.ts:80-81 | removing one entry keeps an ordered list ordered and drops only that entry |
| StateManager.AddChapter | src/state_manager.ts:85-87 | the chapter list grows by one at the end; earlier chapters and the other fields are unchanged |
| StateManager.AddChapterKeepsDuplicates | src/state_manager.ts:85-87 | a chapter whose number is already present is kept, so that number is counted once more |
| StateManager.AddChapterMonotone | src/state_manager.ts:85-87 | adding a chapter keeps a complete job complete and never adds an entry to the missing list |
| ProcessAudio.ResetSSEState | src/process_audio.ts:192-199 | every field is cleared: no chapters, empty texts, count 0 |
| ProcessAudio.ResetForgets | src/process_audio.ts:192-199 | the reset state does not depend on the state before it |
| ProcessAudio.SseUrl | src/process_audio.ts:89 | the first `/process_audio` becomes `/sse`; a URL without it is returned unchanged |
| ProcessAudio.SseUrlOfEndpoint | src/process_audio.ts:89 | an API URL ending in its only `/process_audio` ends in `/sse` instead |
| ProcessAudio.OnStatus | src/process_audio.ts:100-104 | a status event replaces the waiting notice and touches nothing else |
| ProcessAudio.Flush | src/process_audio.ts:92-97 | a non-empty waiting notice is shown once and the slot emptied; an empty slot shows nothing |
| ProcessAudio.StatusOverwrites | src/process_audio.ts:100-104 | of two status events only the newer is kept |
| ProcessAudio.FlushIdempotent | src/process_audio.ts:92-97 | a second flush with no status between shows nothing |
| ProcessAudio.Lookup | src/process_audio.ts:127 | the lookup finds a value exactly when some entry has the key, and the value is that entry's |
| ProcessAudio.RenderFrontmatter | src/process_audio.ts:134-141 | the frontmatter opens with two `---` lines, then the entry lines, and closes with `------` and a line break |
| ProcessAudio.MetadataLinesAreKeptLines | src/process_audio.ts:135-138 | the block is one `key: value` line for each kept entry, in entry order |
| ProcessAudio.MetadataLinesAppend | src/process_audio.ts:135-138 | the lines of consecutive entries are the lines of each part, in order |
| ProcessAudio.MetadataLinesEmpty | src/process_audio.ts:136 | the block is empty exactly when every entry is `chapters_metadata` |
| ProcessAudio.MetadataLinesSingle | src/process_audio.ts:136-137 | one entry writes `key: value`, with `null` written as `""`, or nothing when it is `chapters_metadata` |
| ProcessAudio.MetadataLineCount | src/process_audio.ts:135-138 | with single-line keys and values there is exactly one line per entry that is not `chapters_metadata` |
| ProcessAudio.KeptEntries | src/process_audio.ts:136 | the entries that get a line are entries of the input and never `chapters_metadata` |
| ProcessAudio.KeptEntriesComplete | src/process_audio.ts:136 | every entry that is not `chapters_metadata` gets a line |
| ProcessAudio.KeptEntriesAppend | src/process_audio.ts:135-136 | the loop keeps entry order: the kept entries of two runs are those of each, one after the other |
| ProcessAudio.KeptEntriesSingle | src/process_audio.ts:136 | a single entry is kept exactly when it is not `chapters_metadata` |
| ProcessAudio.ApplyMetadata | src/process_audio.ts:123-147 | a truthy title names the note, otherwise the name is kept; the frontmatter is re-rendered; nothing else changes |
| ProcessAudio.ApplyPayload | src/process_audio.ts:123-169 | metadata (a truthy title names the note, otherwise the name is kept), then a truthy chapter count (0 leaves the count), then a truthy chapter appended at the end; the transcript time and the notice are untouched |
| ProcessAudio.SaveTranscript | src/process_audio.ts:201-233 | the path is `folder/noteName` with no extension; an existing note is modified, otherwise created; the content is the frontmatter and a blank line when there is one, then the chapters one per line, then a final line break |
| ProcessAudio.ChaptersRecoverable | src/process_audio.ts:214-216 | single-line chapters can be split back out of the saved note unchanged |
| ProcessAudio.HandleData | src/process_audio.ts:118-183 | a payload that fails to parse changes nothing; a truthy `transcription_time` saves the state that includes this payload, then resets it |
| ProcessAudio.ChapterTwiceKeptTwice | src/process_audio.ts:160-162 | the same chapter delivered twice is kept twice |
| ProcessAudio.ZeroCountIgnored | src/process_audio.ts:148 | a chapter count of 0 is falsy and changes nothing |
| ProcessAudio.FinalPayloadSavedWhole | src/process_audio.ts:123-177 | a last payload carrying a title, a chapter and the completion time saves a note named by that title that contains that chapter |
| ProcessAudio.DurationLandsBetweenClosingFences | src/utils.ts:93-98 | on a rendered frontmatter the duration line lands between the `---` of the metadata block and the final fence |
| ProcessAudio.Step | src/process_audio.ts:100-107 | an event writes the note exactly when it is a parsed payload with a truthy `transcription_time` |
| ProcessAudio.Run | src/process_audio.ts:171-177 | the stream stops at the first write: no output follows a write |
| ProcessAudio.NoCompletionNoSave | src/process_audio.ts:171-177 | a stream with no truthy `transcription_time` never writes |
| ProcessAudio.StatusesCoalesce | src/process_audio.ts:92-104 | any run of status events followed by one flush shows only the newest status, once, and nothing when it is empty |
| SrcUtils.CreateFrontmatter | src/utils.ts:74-92 | the source is the truthy URL, else the truthy file name, else `""`; nullable texts fall back to `""` and the two settings to `"unknown"`; the rest is copied |
| SrcUtils.IsValidAudioFile | src/utils.ts:19-22 | accepted exactly when the lower-cased last four or five characters are one of the seven extensions |
| SrcUtils.EndsWithLower | src/utils.ts:21 | the lower-cased name ends with an extension exactly when its lower-cased tail equals it |
| SrcUtils.AudioExtensionsBySuffix | src/utils.ts:20-21 | the check over the extension list agrees with the per-length suffix test |
| SrcUtils.AudioFileCheckIgnoresCase | src/utils.ts:19-22 | names equal up to case get the same answer |
| SrcUtils.UpperCaseExtensionAccepted | src/utils.ts:19-22 | `Episode.MP3` and `talk.Flac` are accepted and `notes.txt` is not |
| SrcUtils.AddDurationToFrontmatter | src/utils.ts:93-98 | the result is the input with one duration line inserted somewhere and every other character kept in order |
| SrcUtils.DurationBeforeLastFence | src/utils.ts:93-98 | with a fence present, the line goes right before the last fence |
| SrcUtils.DurationWithoutFence | src/utils.ts:93-98 | with no fence, the index -1 puts the line before the final character |
| SrcUtils.VideoHostsWellFormed | src/utils.ts:8 | no host alternative of the regex is a prefix of another |
| SrcUtils.IsValidYouTubeUrl | src/utils.ts:7-17 | true exactly when the regex, `live/` included, matches or `ytdl` accepts |
| SrcUtils.LiveUrlAccepted | src/utils.ts:8-12 | a `youtube.com/live/` link passes whatever `ytdl` answers |
| RootUtils.IsValidMP3 | utils.ts:13-21 | accepted exactly when the last four characters are `.mp3`, case-sensitively |
| RootUtils.UpperCaseMP3Rejected | utils.ts:13-21 | `a.MP3` is rejected and `a.mp3` accepted |
| RootUtils.MP3ImpliesAudioFile | utils.ts:13-21 | every path this check accepts passes the audio check of `src/utils.ts`, but not the other way round |
| RootUtils.HostsWellFormed | utils.ts:5-6 | no host alternative of either regex is a prefix of another |
| RootUtils.IsValidYouTubeUrl | utils.ts:4-11 | true exactly when the video regex or the playlist regex matches |
| RootUtils.AcceptsWatchLink | utils.ts:5 | a `https://www.youtube.com/watch?v=` link is accepted |
| RootUtils.AcceptsShortLinkWithGroups | utils.ts:5 | a `youtu.be/` link followed by an `&`-group is accepted |
| RootUtils.AcceptsPlaylistLink | utils.ts:6 | a scheme-prefixed playlist link is accepted |
| RootUtils.RejectsLiveLink | utils.ts:5-7 | a `youtube.com/live/` link is rejected by this version |
| RootUtils.NoHostMatches | utils.ts:5-6 | a `youtube.com/live/` remainder matches no host alternative of either regex |
| RootUtils.RejectsTimeParameter | utils.ts:5 | a trailing `&t=30` is rejected, since `=` is not an identifier character |
| YouTubeRegex.StripHost | utils.ts:5 | the host alternative taken is one the text starts with; none is taken only when none matches |
| YouTubeRegex.IdGroupsIff | utils.ts:5 | the `[\w-]+(&[\w-]+)*` tail is exactly the character-by-character shape: word characters and single `&` separators, never at either end |
| YouTubeRegex.RecogniseSound | src/utils.ts:8 | whatever the recogniser accepts, the regular expression matches |
| YouTubeRegex.RecogniseComplete | src/utils.ts:8 | with well-formed hosts, whatever the regular expression matches the recogniser accepts |
| YouTubeRegex.RecogniseIff | utils.ts:5-6 | with well-formed hosts, the recogniser and the regular expression accept the same URLs |
| ContentChecker.Start | docs/content_checker.ts:17-38 | at the limit nothing is scheduled, the tracked id is dropped and the answer is give-up; below it the counter grows by one and exactly one new timer is scheduled and tracked |
| ContentChecker.RemoveAt | docs/content_checker.ts:29-37 | a fired timer leaves the live set and no other timer does |
| ContentChecker.Fire | docs/content_checker.ts:29-37 | one request goes out with the captured missing list and the current key; when it completes the id is nulled and the timer restarts with the defaults |
| ContentChecker.Without | docs/content_checker.ts:40-45 | exactly the timers with other ids remain |
| ContentChecker.Clear | docs/content_checker.ts:40-45 | the tracked timer is cancelled and the id nulled; with nothing tracked nothing changes; the counter is kept |
| ContentChecker.Step | docs/content_checker.ts:29-45 | a live timer firing sends exactly one request with its captured missing list; a fire with no timer changes nothing; a clear sends nothing |
| ContentChecker.WithoutKeepsDistinctIds | docs/content_checker.ts:42 | cancelling timers keeps the live ids distinct |
| ContentChecker.ClearIdempotent | docs/content_checker.ts:40-45 | clearing twice is clearing once |
| ContentChecker.RestartLeavesFirstTimerLive | docs/content_checker.ts:29 | overwriting the tracked id does not cancel the earlier timer, so a clear afterwards leaves it scheduled |
| ContentChecker.Run | docs/content_checker.ts:7 | the attempt counter never decreases |
| ContentChecker.AtMostThreeRetries | docs/content_checker.ts:17-36 | once started, whatever fires or clears follow, at most three requests go out, each with the first missing list, and the counter stays at most 3 |
| ContentChecker.FireChain | docs/content_checker.ts:19-36 | a chain left to fire from attempt n sends 4 - n requests and ends with nothing scheduled at attempt 3 |
| ContentChecker.ThreeRetriesThenStop | docs/content_checker.ts:17-36 | started with the defaults and left to fire, the chain sends exactly three requests, then gives up with nothing scheduled |
| InputForm.Decide | src/input_form.ts:39-92 | file plus URL is rejected; a file goes to the MP3 check, a URL to the YouTube check, each processed only when valid; no input is rejected; the URL is trimmed and whitespace-only counts as absent |
| InputForm.Dispatch | src/input_form.ts:54-92 | on the trimmed URL: both inputs are rejected, a lone file goes through the MP3 check, a lone URL through the YouTube check, and no input is rejected, each branch exactly under its condition |
| InputForm.SurroundingWhitespaceIgnored | src/input_form.ts:43 | whitespace around the URL makes no difference |
| InputForm.BlankUrlIsNoUrl | src/input_form.ts:43-68 | a whitespace-only URL is treated as no URL |
| InputForm.TrimIdempotent | src/input_form.ts:43 | trimming twice is trimming once, and blankness survives trimming |
| InputForm.OnSubmit | src/input_form.ts:126-173 | an unanswered or failed health check stops the submission before the modal closes; otherwise the dispatch runs |
| InputForm.ProcessingNeedsServiceAndValidInput | src/input_form.ts:73-91 | processing starts only with the service up and the chosen input accepted by its validator |
| InputForm.BaseUrl | src/input_form.ts:24 | with two or more `/`, the base is the URL up to the second-to-last `/`; otherwise it is empty |
| InputForm.BaseUrlDropsTwoSegments | src/input_form.ts:24 | `base/a/b` has base `base`, whatever `/` the base itself contains |
| InputForm.DefaultHealthBase | src/input_form.ts:24 | the default API URL has health base `http://127.0.0.1:8081/api` |
| Strings.Split | src/input_form.ts:24 | the pieces contain no separator and joining them gives back the string |
| Strings.SplitJoin | src/process_audio.ts:215 | splitting a join of separator-free pieces gives back the pieces |
| Strings.ReplaceFirst | src/process_audio.ts:89 | only the first occurrence is replaced; without one the text is unchanged |
| Strings.Trim | src/input_form.ts:43 | the result is a contiguous piece of the input, everything cut off on either side is whitespace, and the piece neither starts nor ends with whitespace; it is empty exactly when the input is all whitespace |
| Strings.TrimSlice | src/input_form.ts:43 | what `trim` keeps is one contiguous piece, and all it drops is whitespace |
| Strings.IndexOf | src/process_audio.ts:89 | the result is -1 with no occurrence, and otherwise the position of the first occurrence |
| Strings.LastIndexOf | src/utils.ts:95 | the result is -1 with no occurrence, and otherwise the position of the last occurrence |
| Strings.JoinEnds | src/process_audio.ts:215 | the join opens with the first piece and the separator, ends with the last piece, and is empty for no pieces |
| Strings.ToLower | src/utils.ts:21 | lower-casing keeps the length and lowers each ASCII letter in place |
| Strings.SliceTo | src/utils.ts:97 | `slice(0, end)` is a prefix; a negative end counts back from the end; out-of-range ends are clamped |
| Strings.SliceFrom | src/utils.ts:97 | `slice(start)` is a suffix, with the same index resolution |
| Strings.SliceSplits | src/utils.ts:97 | the two slices at one index rebuild the string, so the splice loses no character |
| JsValues.OrElse | src/utils.ts:78-87 | `value || fallback` gives the value when it is truthy, and the fallback otherwise |
| JsValues.OrElseChain | src/utils.ts:76 | in `a || b || c` the result is the first truthy link, else the last |

## Left out

- Network plumbing is not modelled. This covers the `fetch` POST, the response handling, `ReconnectingEventSource` and its `onopen`, and the request `processDoneMessage` sends; a firing timer records a `Retry` instead.
- The `FormData` construction is not modelled, because it is built from library types.
- The model covers one job at a time, each with its own `SSEState`. In the code, the stream and the notice interval of a job are kept in two module-level variables, `eventSource` and `noticeIntervalID`. A second job started while one is running overwrites them without closing the first job's stream or interval, and a save in either job closes only the latest ones. Nothing guards against starting a second job. This sharing between jobs is not modelled.
- Real time is not modelled. `setInterval` and `setTimeout` become explicit `Tick`, `FireTimer` and `ClearTimer` transitions, so how timer callbacks and stream events interleave in real time is whatever order the transitions are given in.
- The `await` inside a timer callback is not modelled as a suspension point. A fire is one atomic transition, and `requestSucceeds` says whether the code after the `await` runs.
- `ContentChecker.Start`: the `MAX_ATTEMPTS` and `TIMEOUT_MS` fields are not modelled, because no code reads them.
- `JSON.parse` is not modelled. A payload that fails to parse is `None`.
- Metadata values are modelled as `Option<string>`. Numbers, booleans and nested objects that JavaScript would interpolate with `String(...)` are not.
- `ProcessAudio.Payload`: `num_chapters` is an integer. Other truthy JSON values assigned to `numChapters` are not modelled.
- `ProcessAudio.ApplyPayload`: the error notices raised by the inner `try`/`catch` blocks are not modelled. The chapter body is opaque text here. The debug line after `push` reads `data.chapter.chapter_metadata`, which throws for a chapter without that field, but only after the chapter has been stored; the model keeps that state change and drops the notice.
- `ProcessAudio.SaveTranscript`: chapters are joined as text. A chapter that arrives as a JSON object would be written as `[object Object]` by `join`; that rendering is not modelled.
- `ProcessAudio.SaveTranscript`: the "No content available." branch is not modelled. `state.chapters` is always an array and so always truthy, which makes that branch dead.
- `ProcessAudio.SaveTranscript`: the vault lookup and write through the unbound `this.app` are not modelled. The lookup is the `noteExists` parameter; the modify or create call becomes the returned `SaveAction`.
- Notices other than the flushed status are not modelled. This covers the title, metadata, count, save and error notices, because they are display only.
- Logging and console output are not modelled.
- The UI is not modelled: the modal, its widgets, the settings tab and `main.ts`.
- The earlier modals `input_ui.ts` and the top-level `input_form.ts` are not modelled, because their branch structure repeats the dispatch modelled in `InputForm.Decide`.
- `transcriber_input_ui.ts` is not modelled. It is a single-field modal that accepts its one input when it is an MP3 path or a YouTube URL, and it is UI.
- `InputForm.BaseUrl`: `new URL('/api/v1/health', baseUrl)` is not modelled, because URL resolution belongs to the platform. Only the base string it is resolved against is modelled. Two consequences are not stated:
  - The health path is absolute, so the resolved URL keeps only the base's origin.
  - With fewer than two path segments in the API URL the base is `""`, `"http:"` or `"http:/"`, and `new URL` throws in the constructor.
- `InputForm.Decide`: an absent file list is modelled as an empty one, as the `files && files.length > 0` test treats them the same.
- `InputForm.Decide`: `processInput` and its error notice are not modelled. The model stops at the `ProcessFile` or `ProcessUrl` decision.
- `SrcUtils.IsValidYouTubeUrl`: `ytdl.validateURL` is an uninterpreted predicate. The modal's imported `isValidMP3` is another, because `src/utils.ts` does not define it.
- `Strings.ToLower`: only ASCII letters are lowered. Full Unicode lower-casing is not modelled. For the seven audio extensions the answer is the same, since no non-ASCII character lowers into one of them.
- `Strings.ReplaceFirst`: `$` substitution patterns in the replacement are not modelled. The only replacement used is `/sse`, which has none.
- `StateManager.RemoveMissingProperty`: the list is returned as `Property` values, and the source's strings are their `Name`s.
- `StateManager.Chapter`: a chapter carries its number and an opaque body. The chapter type is never defined in the source, and only its number is inspected.
- `ensureFolder` and the folder I/O of `src/utils.ts` are not modelled.
- The `test_mode` logging of the top-level `utils.ts` is not modelled.
- The settings constants are not modelled, apart from the default API URL used in `InputForm.DefaultHealthBase`.
