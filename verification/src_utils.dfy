/** The helpers of `src/utils.ts`: the frontmatter record and its builder,
    the audio-file extension check, the duration splice and the YouTube URL
    check that combines a regular expression with `ytdl.validateURL`. */
module SrcUtils {
  import opened JsValues
  import opened Strings
  import opened YouTubeRegex

  /** The fixed-shape frontmatter record (the `Frontmatter` type). */
  datatype Frontmatter = Frontmatter(
    audioSource: string,
    title: string,
    tags: string,
    description: string,
    uploaderId: string,
    channel: string,
    uploadDate: string,
    duration: string,
    downloadTime: string,
    transcriptionTime: string,
    audioQuality: string,
    computeType: string)

  /** The `audio_input` part of the job metadata; `None` is JSON `null`. */
  datatype AudioInput = AudioInput(
    youtubeUrl: Option<string>,
    audioFilename: Option<string>,
    audioQuality: Option<string>,
    computeType: Option<string>,
    chapterChunkTime: Option<int>)

  /** The job metadata record (the `Metadata` type). */
  datatype Metadata = Metadata(
    audioInput: AudioInput,
    title: string,
    tags: Option<string>,
    description: Option<string>,
    duration: string,
    channel: Option<string>,
    uploadDate: string,
    uploaderId: Option<string>,
    downloadTime: string,
    transcriptionTime: string)

  /** `createFrontmatter_object`: every field is filled; nullable text fields
      fall back to `""`, the two settings to `"unknown"`, the source to the
      URL, else the file name, else `""`. */
  function CreateFrontmatter(m: Metadata): (f: Frontmatter)
    ensures Truthy(m.audioInput.youtubeUrl) ==> f.audioSource == m.audioInput.youtubeUrl.value
    ensures (!Truthy(m.audioInput.youtubeUrl) && Truthy(m.audioInput.audioFilename))
              ==> f.audioSource == m.audioInput.audioFilename.value
    ensures f.audioSource == "" <==> !Truthy(m.audioInput.youtubeUrl) && !Truthy(m.audioInput.audioFilename)
    ensures f.tags == "" <==> !Truthy(m.tags)
    ensures f.description == "" <==> !Truthy(m.description)
    ensures f.uploaderId == "" <==> !Truthy(m.uploaderId)
    ensures f.channel == "" <==> !Truthy(m.channel)
    ensures Truthy(m.tags) ==> f.tags == m.tags.value
    ensures Truthy(m.description) ==> f.description == m.description.value
    ensures Truthy(m.uploaderId) ==> f.uploaderId == m.uploaderId.value
    ensures Truthy(m.channel) ==> f.channel == m.channel.value
    ensures f.audioQuality == (if Truthy(m.audioInput.audioQuality) then m.audioInput.audioQuality.value else "unknown")
    ensures f.computeType == (if Truthy(m.audioInput.computeType) then m.audioInput.computeType.value else "unknown")
    ensures f.audioQuality != "" && f.computeType != ""
    ensures f.title == m.title && f.uploadDate == m.uploadDate && f.duration == m.duration
    ensures f.downloadTime == m.downloadTime && f.transcriptionTime == m.transcriptionTime
  {
    Frontmatter(
      audioSource := OrElse(m.audioInput.youtubeUrl, OrElse(m.audioInput.audioFilename, "")),
      title := m.title,
      tags := OrElse(m.tags, ""),
      description := OrElse(m.description, ""),
      uploaderId := OrElse(m.uploaderId, ""),
      channel := OrElse(m.channel, ""),
      uploadDate := m.uploadDate,
      duration := m.duration,
      downloadTime := m.downloadTime,
      transcriptionTime := m.transcriptionTime,
      audioQuality := OrElse(m.audioInput.audioQuality, "unknown"),
      computeType := OrElse(m.audioInput.computeType, "unknown"))
  }

  // ---------------------------------------------------------------------
  // isValidAudioFile

  const AudioExtensions: seq<string> := [".mp3", ".m4a", ".aac", ".ogg", ".wav", ".flac", ".opus"]

  /** `isValidAudioFile`: the lower-cased name ends with one of the extensions. */
  function IsValidAudioFile(fileName: string): (r: bool)
    ensures r <==> AudioSuffix(fileName)
  {
    var lower := ToLower(fileName);
    var r := exists i :: 0 <= i < |AudioExtensions| && EndsWith(lower, AudioExtensions[i]);
    AudioExtensionsBySuffix(fileName);
    r
  }

  /** The extension test stated on the name's own last four or five
      characters, lower-cased. */
  predicate AudioSuffix(name: string) {
    var n := |name|;
    (n >= 4 && var t := ToLower(name[n - 4..]);
       t == ".mp3" || t == ".m4a" || t == ".aac" || t == ".ogg" || t == ".wav")
    || (n >= 5 && var t := ToLower(name[n - 5..]); t == ".flac" || t == ".opus")
  }

  lemma EndsWithLower(name: string, ext: string)
    ensures EndsWith(ToLower(name), ext) <==> |name| >= |ext| && ToLower(name[|name| - |ext|..]) == ext
  {
    if |name| >= |ext| { ToLowerSuffix(name, |name| - |ext|); }
  }

  lemma AudioExtensionsBySuffix(fileName: string)
    ensures (exists i :: 0 <= i < |AudioExtensions| && EndsWith(ToLower(fileName), AudioExtensions[i]))
            <==> AudioSuffix(fileName)
  {
    var e := AudioExtensions;
    forall i | 0 <= i < |e|
      ensures EndsWith(ToLower(fileName), e[i])
              <==> |fileName| >= |e[i]| && ToLower(fileName[|fileName| - |e[i]|..]) == e[i]
    {
      EndsWithLower(fileName, e[i]);
    }
    assert |e[0]| == |e[1]| == |e[2]| == |e[3]| == |e[4]| == 4;
    assert |e[5]| == |e[6]| == 5;
    if AudioSuffix(fileName) {
      var n := |fileName|;
      if n >= 4 && ToLower(fileName[n - 4..]) in e[..5] {
        var i :| 0 <= i < 5 && ToLower(fileName[n - 4..]) == e[i];
        assert EndsWith(ToLower(fileName), e[i]);
      } else {
        var i :| 5 <= i < 7 && ToLower(fileName[n - 5..]) == e[i];
        assert EndsWith(ToLower(fileName), e[i]);
      }
    }
  }

  /** The check only sees the lower-cased name, so case does not matter. */
  lemma AudioFileCheckIgnoresCase(a: string, b: string)
    requires ToLower(a) == ToLower(b)
    ensures IsValidAudioFile(a) == IsValidAudioFile(b)
  {
    if |a| >= 4 {
      ToLowerSuffix(a, |a| - 4);
      ToLowerSuffix(b, |b| - 4);
    }
    if |a| >= 5 {
      ToLowerSuffix(a, |a| - 5);
      ToLowerSuffix(b, |b| - 5);
    }
  }

  lemma UpperCaseExtensionAccepted()
    ensures IsValidAudioFile("Episode.MP3")
    ensures IsValidAudioFile("talk.Flac")
    ensures !IsValidAudioFile("notes.txt")
  {
    assert ToLower("Episode.MP3"[7..]) == ".mp3";
    assert ToLower("talk.Flac"[4..]) == ".flac";
    assert ToLower("notes.txt"[5..])[1] == 't';
    assert ToLower("notes.txt"[4..])[1] == '.';
  }

  // ---------------------------------------------------------------------
  // addDurationToFrontmatter

  const Fence: string := "---\n"

  function DurationLine(duration: string): string {
    "duration: " + duration + "\n"
  }

  /** `addDurationToFrontmatter`: splice the duration line in at
      `lastIndexOf("---\n")`, which is -1 (and so, through `slice`, one
      character before the end) when there is no fence. */
  function AddDurationToFrontmatter(frontmatter: string, duration: string): (r: string)
    ensures |r| == |frontmatter| + |DurationLine(duration)|
    ensures exists q :: 0 <= q <= |frontmatter|
              && r == frontmatter[..q] + DurationLine(duration) + frontmatter[q..]
  {
    var position := LastIndexOf(frontmatter, Fence);
    var q := RelativeIndex(|frontmatter|, position);
    assert SliceTo(frontmatter, position) == frontmatter[..q];
    SliceTo(frontmatter, position) + DurationLine(duration) + SliceFrom(frontmatter, position)
  }

  /** With a fence present, the line goes right before the last fence. */
  lemma DurationBeforeLastFence(frontmatter: string, duration: string, q: int)
    requires OccursAt(frontmatter, Fence, q)
    requires forall j {:trigger OccursAt(frontmatter, Fence, j)} :: j > q ==> !OccursAt(frontmatter, Fence, j)
    ensures AddDurationToFrontmatter(frontmatter, duration)
            == frontmatter[..q] + DurationLine(duration) + frontmatter[q..]
  {
    var p := LastIndexOf(frontmatter, Fence);
    assert p == q;
  }

  /** Without a fence, the -1 index puts the line before the final character. */
  lemma DurationWithoutFence(frontmatter: string, duration: string)
    requires forall j {:trigger OccursAt(frontmatter, Fence, j)} :: !OccursAt(frontmatter, Fence, j)
    ensures frontmatter == "" ==> AddDurationToFrontmatter(frontmatter, duration) == DurationLine(duration)
    ensures frontmatter != "" ==>
              AddDurationToFrontmatter(frontmatter, duration)
              == frontmatter[..|frontmatter| - 1] + DurationLine(duration) + frontmatter[|frontmatter| - 1..]
  {
    var p := LastIndexOf(frontmatter, Fence);
    assert p == -1;
  }

  // ---------------------------------------------------------------------
  // isValidYouTubeUrl

  /** The host alternatives of the video regular expression, including `live/`. */
  const VideoHosts: seq<string> :=
    ["youtube.com/watch?v=", "youtube.com/shorts/", "youtube.com/live/", "youtu.be/"]

  lemma VideoHostsWellFormed()
    ensures WellFormedHosts(VideoHosts)
  {
    var h := VideoHosts;
    forall a, b | 0 <= a < |h| && 0 <= b < |h| && a != b
      ensures !StartsWith(h[b], h[a])
    {
      if a < 3 && b < 3 {
        assert h[a][12] != h[b][12];
      } else {
        assert h[a][5] != h[b][5];
      }
    }
  }

  /** `isValidYouTubeUrl`: the video regular expression, or else
      `ytdl.validateURL`, which is a parameter of the model. */
  function IsValidYouTubeUrl(url: string, ytdlValidate: string -> bool): (r: bool)
    ensures r <==> RegexMatches(url, VideoHosts, IdGroupList) || ytdlValidate(url)
  {
    VideoHostsWellFormed();
    RecogniseIff(url, VideoHosts, IdGroupList);
    Recognise(url, VideoHosts, IdGroupList) || ytdlValidate(url)
  }

  /** A `youtube.com/live/` URL passes whatever `ytdl` says. */
  lemma LiveUrlAccepted(ytdlValidate: string -> bool)
    ensures IsValidYouTubeUrl("https://" + "www." + "youtube.com/live/" + "TkNTuFF2t-c", ytdlValidate)
  {
    var p := Schemes[0] + WwwPrefixes[0] + VideoHosts[2];
    var url := p + "TkNTuFF2t-c";
    assert url == "https://" + "www." + "youtube.com/live/" + "TkNTuFF2t-c";
    assert StartsWith(url, p);
    assert url[|p|..] == "TkNTuFF2t-c";
    assert IsWordRun("TkNTuFF2t-c");
  }
}
