/** The validators of the top-level `utils.ts`: a case-sensitive `.mp3`
    check and a YouTube URL check made of a video and a playlist regular
    expression (this version has no `live/` alternative and no `ytdl`
    fallback). The `test_mode` logging flag is dropped. */
module RootUtils {
  import opened Strings
  import opened YouTubeRegex
  import SrcUtils

  /** `isValidMP3`: the path ends with `.mp3`, exactly as written. */
  function IsValidMP3(filePath: string): (r: bool)
    ensures r <==> |filePath| >= 4 && filePath[|filePath| - 4..] == ".mp3"
  {
    EndsWith(filePath, ".mp3")
  }

  /** The check is case-sensitive: an upper-case extension is refused. */
  lemma UpperCaseMP3Rejected()
    ensures !IsValidMP3("a.MP3")
    ensures IsValidMP3("a.mp3")
  {
    assert "a.MP3"[1..][1] == 'M';
  }

  /** Every path this check accepts also passes the case-insensitive audio
      check of `src/utils.ts`; the converse fails (`"a.MP3"`). */
  lemma MP3ImpliesAudioFile(filePath: string)
    ensures IsValidMP3(filePath) ==> SrcUtils.IsValidAudioFile(filePath)
    ensures SrcUtils.IsValidAudioFile("a.MP3") && !IsValidMP3("a.MP3")
  {
    if IsValidMP3(filePath) {
      assert ToLower(filePath[|filePath| - 4..]) == ".mp3";
    }
    assert ToLower("a.MP3"[1..]) == ".mp3";
    UpperCaseMP3Rejected();
  }

  /** The video regular expression's host alternatives. */
  const VideoHosts: seq<string> := ["youtube.com/watch?v=", "youtube.com/shorts/", "youtu.be/"]

  /** The playlist regular expression's single host alternative. */
  const PlaylistHosts: seq<string> := ["youtube.com/playlist?list="]

  lemma HostsWellFormed()
    ensures WellFormedHosts(VideoHosts) && WellFormedHosts(PlaylistHosts)
  {
    var h := VideoHosts;
    forall a, b | 0 <= a < |h| && 0 <= b < |h| && a != b
      ensures !StartsWith(h[b], h[a])
    {
      if a < 2 && b < 2 {
        assert h[a][12] != h[b][12];
      } else {
        assert h[a][5] != h[b][5];
      }
    }
  }

  /** `isValidYouTubeUrl`: the video or the playlist regular expression matches. */
  function IsValidYouTubeUrl(url: string): (r: bool)
    ensures r <==> RegexMatches(url, VideoHosts, IdGroupList) || RegexMatches(url, PlaylistHosts, SingleId)
  {
    HostsWellFormed();
    RecogniseIff(url, VideoHosts, IdGroupList);
    RecogniseIff(url, PlaylistHosts, SingleId);
    Recognise(url, VideoHosts, IdGroupList) || Recognise(url, PlaylistHosts, SingleId)
  }

  /** A full watch link with scheme and `www.`. */
  lemma AcceptsWatchLink()
    ensures IsValidYouTubeUrl("https://" + "www." + "youtube.com/watch?v=" + "dQw4w9WgXcQ")
  {
    var p := Schemes[0] + WwwPrefixes[0] + VideoHosts[0];
    var url := p + "dQw4w9WgXcQ";
    assert StartsWith(url, p);
    assert url[|p|..] == "dQw4w9WgXcQ";
    assert IsWordRun("dQw4w9WgXcQ");
  }

  /** Scheme and `www.` are optional, and `&` groups may follow the id. */
  lemma AcceptsShortLinkWithGroups()
    ensures IsValidYouTubeUrl("youtu.be/" + "abc_-1" + "&" + "feature")
  {
    var p := Schemes[2] + WwwPrefixes[1] + VideoHosts[2];
    var tail := "abc_-1" + "&" + "feature";
    var url := p + tail;
    assert url == "youtu.be/" + "abc_-1" + "&" + "feature";
    assert StartsWith(url, p);
    assert url[|p|..] == tail;
    assert tail[..6] == "abc_-1" && tail[7..] == "feature" && tail[6] == '&';
    assert IsWordRun("abc_-1") && IsWordRun("feature");
    assert IdGroups(tail[..6]);
    assert IdGroups(tail);
  }

  /** The playlist form. */
  lemma AcceptsPlaylistLink()
    ensures IsValidYouTubeUrl("http://" + "youtube.com/playlist?list=" + "PL12-x")
  {
    var p := Schemes[1] + WwwPrefixes[1] + PlaylistHosts[0];
    var url := p + "PL12-x";
    assert url == "http://" + "youtube.com/playlist?list=" + "PL12-x";
    assert StartsWith(url, p);
    assert url[|p|..] == "PL12-x";
    assert IsWordRun("PL12-x");
  }

  /** This version has no `live/` alternative. */
  lemma RejectsLiveLink()
    ensures !IsValidYouTubeUrl("https://" + "www." + "youtube.com/live/" + "TkNTuFF2t-c")
  {
    var live := "youtube.com/live/" + "TkNTuFF2t-c";
    var url := "https://" + "www." + "youtube.com/live/" + "TkNTuFF2t-c";
    assert url == "https://" + ("www." + live);
    assert StartsWith(url, "https://");
    assert url[8..] == "www." + live;
    assert StartsWith(url[8..], "www.");
    assert url[8..][4..] == live;
    NoHostMatches(live);
  }

  lemma NoHostMatches(live: string)
    requires |live| > 12 && live[12] == 'l' && live[5] == 'b'
    ensures StripHost(live, VideoHosts).None? && StripHost(live, PlaylistHosts).None?
  {
    assert !StartsWith(live, VideoHosts[0]) by { assert VideoHosts[0][12] == 'w'; }
    assert !StartsWith(live, VideoHosts[1]) by { assert VideoHosts[1][12] == 's'; }
    assert !StartsWith(live, VideoHosts[2]) by { assert VideoHosts[2][5] == '.'; }
    assert !StartsWith(live, PlaylistHosts[0]) by { assert PlaylistHosts[0][12] == 'p'; }
  }

  /** After the id only `&`-groups of word characters may follow, so a
      `t=30` parameter is refused (`=` is no word character). */
  lemma RejectsTimeParameter()
    ensures !IsValidYouTubeUrl("https://" + "youtu.be/" + "abc&t=30")
  {
    var short := "youtu.be/" + "abc&t=30";
    var url := "https://" + "youtu.be/" + "abc&t=30";
    assert url == "https://" + short;
    assert StartsWith(url, "https://");
    assert url[8..] == short;
    assert short[0] == 'y' && short[5] == '.';
    assert StripWww(short) == short;
    assert !StartsWith(short, VideoHosts[0]) by { assert VideoHosts[0][5] == 'b'; }
    assert !StartsWith(short, VideoHosts[1]) by { assert VideoHosts[1][5] == 'b'; }
    assert !StartsWith(short, PlaylistHosts[0]) by { assert PlaylistHosts[0][5] == 'b'; }
    assert StartsWith(short, VideoHosts[2]);
    var tail := short[|VideoHosts[2]|..];
    assert tail == "abc&t=30";
    assert tail[5] == '=';
    assert !ValidIdTail(tail);
  }
}
