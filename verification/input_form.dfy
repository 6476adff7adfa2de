/** `src/input_form.ts`: which input the submit button acts on, the
    service-availability gate in front of it, and the base URL the health
    check is resolved against. The modal, its widgets and the requests are
    left to their collaborators; the validators are parameters. */
module InputForm {
  import opened Strings
  import SrcUtils

  /** A selected file; only its name is inspected. */
  datatype File = File(name: string)

  /** What one submission does. Only `ProcessFile` and `ProcessUrl` reach
      `processInput`; every other outcome is a notice and nothing else. */
  datatype Action =
    | RejectBoth                 // a file and a URL at once
    | ProcessFile(file: File)    // `processInput(file, 'file')`
    | InvalidFile(name: string)  // the MP3 check refused the file
    | ProcessUrl(url: string)    // `processInput(url, 'url')`
    | InvalidUrl                 // the YouTube check refused the URL
    | RejectNone                 // neither a file nor a URL

  /** The URL field holds nothing but whitespace. */
  predicate Blank(s: string) {
    forall i :: 0 <= i < |s| ==> IsJsWhitespace(s[i])
  }

  /** `handleClick`, with `handleFileUpload` and `handleUrlInput` folded in.
      `files` is the file list (an absent list is empty); `isValidMP3` is
      the check the form imports, which `src/utils.ts` does not define;
      `ytdlValidate` is the fallback inside `isValidYouTubeUrl`. */
  function Decide(files: seq<File>, rawUrl: string, isValidMP3: string -> bool,
                  ytdlValidate: string -> bool): (r: Action)
    ensures r == RejectBoth <==> |files| > 0 && !Blank(rawUrl)
    ensures r == RejectNone <==> |files| == 0 && Blank(rawUrl)
    ensures r.ProcessFile? <==> |files| > 0 && Blank(rawUrl) && isValidMP3(files[0].name)
    ensures r.InvalidFile? <==> |files| > 0 && Blank(rawUrl) && !isValidMP3(files[0].name)
    ensures r.ProcessUrl? <==>
              |files| == 0 && !Blank(rawUrl) && SrcUtils.IsValidYouTubeUrl(Trim(rawUrl), ytdlValidate)
    ensures r.InvalidUrl? <==>
              |files| == 0 && !Blank(rawUrl) && !SrcUtils.IsValidYouTubeUrl(Trim(rawUrl), ytdlValidate)
    ensures r.ProcessFile? ==> r.file == files[0]
    ensures r.InvalidFile? ==> r.name == files[0].name
    ensures r.ProcessUrl? ==> r.url == Trim(rawUrl) && r.url != ""
  {
    Dispatch(files, Trim(rawUrl), isValidMP3, ytdlValidate)
  }

  /** The branches of `handleClick` on the already trimmed URL, with the
      validator checks of `handleFileUpload` and `handleUrlInput`. */
  function Dispatch(files: seq<File>, urlValue: string, isValidMP3: string -> bool,
                    ytdlValidate: string -> bool): (r: Action)
    ensures r == RejectBoth <==> |files| > 0 && urlValue != ""
    ensures r == RejectNone <==> |files| == 0 && urlValue == ""
    ensures r.ProcessFile? <==> |files| > 0 && urlValue == "" && isValidMP3(files[0].name)
    ensures r.InvalidFile? <==> |files| > 0 && urlValue == "" && !isValidMP3(files[0].name)
    ensures r.ProcessUrl? <==> |files| == 0 && urlValue != "" && SrcUtils.IsValidYouTubeUrl(urlValue, ytdlValidate)
    ensures r.InvalidUrl? <==> |files| == 0 && urlValue != "" && !SrcUtils.IsValidYouTubeUrl(urlValue, ytdlValidate)
    ensures r.ProcessFile? ==> r.file == files[0]
    ensures r.InvalidFile? ==> r.name == files[0].name
    ensures r.ProcessUrl? ==> r.url == urlValue
  {
    if |files| > 0 && urlValue != "" then RejectBoth
    else if |files| > 0 then
      if isValidMP3(files[0].name) then ProcessFile(files[0]) else InvalidFile(files[0].name)
    else if urlValue != "" then
      if SrcUtils.IsValidYouTubeUrl(urlValue, ytdlValidate) then ProcessUrl(urlValue) else InvalidUrl
    else RejectNone
  }

  /** Whitespace around the URL is ignored. */
  lemma SurroundingWhitespaceIgnored(files: seq<File>, rawUrl: string, isValidMP3: string -> bool,
                                     ytdlValidate: string -> bool)
    ensures Decide(files, rawUrl, isValidMP3, ytdlValidate)
            == Decide(files, Trim(rawUrl), isValidMP3, ytdlValidate)
  {
    TrimIdempotent(rawUrl);
  }

  /** A whitespace-only URL is the same as no URL at all. */
  lemma BlankUrlIsNoUrl(files: seq<File>, rawUrl: string, isValidMP3: string -> bool,
                        ytdlValidate: string -> bool)
    requires Blank(rawUrl)
    ensures Decide(files, rawUrl, isValidMP3, ytdlValidate) == Decide(files, "", isValidMP3, ytdlValidate)
  {
    assert Trim(rawUrl) == "";
    assert Trim("") == "";
  }

  /** Trimming a trimmed string changes nothing. */
  lemma TrimIdempotent(s: string)
    ensures Trim(Trim(s)) == Trim(s)
    ensures Blank(s) <==> Blank(Trim(s))
  {
    var t := Trim(s);
    var u := TrimStart(t);
    if t != "" {
      assert u == t;
      assert TrimEnd(u) == u;
    }
  }

  // ---------------------------------------------------------------------
  // the availability gate

  /** The health check's outcome: the fetch answered with `response.ok`, or
      it threw. */
  datatype Health = Responded(ok: bool) | FetchThrew

  /** `checkServiceAvailability`. */
  predicate Available(h: Health) {
    h.Responded? && h.ok
  }

  /** What the submit button does. */
  datatype Submission =
    | ServiceUnavailable       // a notice; the modal stays open
    | Submitted(action: Action)  // the modal closes, then `handleClick` runs

  /** The submit handler: nothing is closed and nothing dispatched unless
      the service answered with success; a fetch that throws counts as
      unavailable. */
  function OnSubmit(h: Health, files: seq<File>, rawUrl: string, isValidMP3: string -> bool,
                    ytdlValidate: string -> bool): (r: Submission)
    ensures r.ServiceUnavailable? <==> h.FetchThrew? || (h.Responded? && !h.ok)
    ensures r.Submitted? ==> r.action == Decide(files, rawUrl, isValidMP3, ytdlValidate)
  {
    if !Available(h) then ServiceUnavailable
    else Submitted(Decide(files, rawUrl, isValidMP3, ytdlValidate))
  }

  /** Processing starts only when the service is up and the chosen input
      passed its validator. */
  lemma ProcessingNeedsServiceAndValidInput(h: Health, files: seq<File>, rawUrl: string,
                                            isValidMP3: string -> bool, ytdlValidate: string -> bool)
    ensures var r := OnSubmit(h, files, rawUrl, isValidMP3, ytdlValidate);
            r.Submitted? && (r.action.ProcessFile? || r.action.ProcessUrl?) ==>
              && Available(h)
              && (r.action.ProcessFile? ==> isValidMP3(r.action.file.name))
              && (r.action.ProcessUrl? ==> SrcUtils.IsValidYouTubeUrl(r.action.url, ytdlValidate))
  {
  }

  // ---------------------------------------------------------------------
  // the health base URL

  /** The base URL of the constructor: the API URL split on `/`, without
      its last two pieces (`slice(0, -2)`), joined again. */
  function BaseUrl(apiUrl: string): (r: string)
    ensures CountChar(apiUrl, '/') >= 2 ==>
              StartsWith(apiUrl, r + "/") && CountChar(apiUrl[|r| + 1..], '/') == 1
    ensures CountChar(apiUrl, '/') < 2 ==> r == ""
  {
    var parts := Split(apiUrl, '/');
    var kept := parts[..RelativeIndex(|parts|, -2)];
    BaseUrlFacts(apiUrl);
    Join(kept, "/")
  }

  lemma BaseUrlFacts(apiUrl: string)
    ensures var parts := Split(apiUrl, '/');
            var r := Join(parts[..RelativeIndex(|parts|, -2)], "/");
            && (CountChar(apiUrl, '/') >= 2 ==>
                  StartsWith(apiUrl, r + "/") && CountChar(apiUrl[|r| + 1..], '/') == 1)
            && (CountChar(apiUrl, '/') < 2 ==> r == "")
  {
    var parts := Split(apiUrl, '/');
    var n := |parts|;
    CountCharJoin(parts, '/');
    if n >= 3 {
      var kept := parts[..n - 2];
      var tail := parts[n - 2..];
      assert kept + tail == parts;
      JoinAppend(kept, tail, "/");
      var r := Join(kept, "/");
      var rest := Join(tail, "/");
      assert apiUrl == r + "/" + rest;
      assert apiUrl[..|r + "/"|] == r + "/";
      assert apiUrl[|r| + 1..] == rest;
      CountCharJoin(tail, '/');
    }
  }

  /** An API URL of the shape `base/segment/segment` has `base` as its
      health base, whatever `/` the base itself contains. */
  lemma BaseUrlDropsTwoSegments(base: string, a: string, b: string)
    requires '/' !in a && '/' !in b
    ensures BaseUrl(base + "/" + a + "/" + b) == base
  {
    var api := base + "/" + a + "/" + b;
    var hp := Split(base, '/');
    var parts := hp + [a, b];
    JoinAppend(hp, [a, b], "/");
    assert Join([a, b], "/") == a + "/" + Join([b], "/");
    assert Join(parts, "/") == api;
    forall k | 0 <= k < |parts| ensures '/' !in parts[k] {
      if k >= |hp| { assert parts[k] == a || parts[k] == b; }
    }
    JoinInjective(Split(api, '/'), parts, '/');
    assert Split(api, '/')[..|parts| - 2] == hp;
  }

  /** With the default API URL the health check is resolved against
      `http://127.0.0.1:8081/api`. */
  lemma DefaultHealthBase()
    ensures BaseUrl("http://127.0.0.1:8081/api" + "/" + "v1" + "/" + "process_audio")
            == "http://127.0.0.1:8081/api"
  {
    assert forall i :: 0 <= i < |"v1"| ==> "v1"[i] != '/';
    assert forall i :: 0 <= i < |"process_audio"| ==> "process_audio"[i] != '/';
    BaseUrlDropsTwoSegments("http://127.0.0.1:8081/api", "v1", "process_audio");
  }
}
