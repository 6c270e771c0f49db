/** The downloader: where a video is saved, the existing-file short cut, and the
    batch loop that skips, downloads in order and stops at the first failure.
    The browser session that fetches a file and the filesystem are parameters:
    `existing` is the set of paths that exist, `browser` the outcome of driving
    the browser for one planned request. */
module Downloader {
  import opened Wrappers
  import opened Text
  import opened Site

  const DownloadLinkSelector := "#vkVideoDownloaderPanel > a:last-of-type"
  const LowResSelector := "#vkVideoDownloaderPanel > a:first-of-type"
  const Extension := ".mp4"

  /** The file name is given the `.mp4` extension unless it already has it. */
  function NormalizeFilename(name: string): (r: string)
    ensures EndsWith(r, Extension)
    ensures StartsWith(r, name)
    ensures |r| == |name| <==> EndsWith(name, Extension)
    ensures !EndsWith(name, Extension) ==> r == name + Extension
  {
    if EndsWith(name, Extension) then name else name + Extension
  }

  lemma NormalizeIdempotent(name: string)
    ensures NormalizeFilename(NormalizeFilename(name)) == NormalizeFilename(name)
  {
  }

  /** `destination_folder or os.getcwd()`: a missing and an empty folder both
      fall back to the working directory. */
  function DownloadDirectory(destination: Option<string>, cwd: string): (d: string)
  {
    if destination.Some? && destination.value != "" then destination.value else cwd
  }

  function Selector(lowRes: bool): (s: string)
  {
    if lowRes then LowResSelector else DownloadLinkSelector
  }

  lemma SelectorChoice(lowRes: bool)
    ensures Selector(lowRes) == LowResSelector <==> lowRes
    ensures Selector(lowRes) == DownloadLinkSelector <==> !lowRes
  {
    assert |LowResSelector| != |DownloadLinkSelector|;
  }

  /** `os.path.join` for POSIX paths with two components: an absolute name
      replaces the directory, and a separator is inserted only when the
      directory is non-empty and does not already end with one. */
  function JoinPath(directory: string, name: string): (p: string)
    ensures EndsWith(p, name)
    ensures StartsWith(name, "/") ==> p == name
    ensures !StartsWith(name, "/") ==> StartsWith(p, directory)
    ensures !StartsWith(name, "/") && directory != "" ==>
      p[..|p| - |name|] == directory || p[..|p| - |name|] == directory + "/"
    ensures !StartsWith(name, "/") && directory != "" ==>
      (p[..|p| - |name|] == directory <==> EndsWith(directory, "/"))
    ensures directory == "" ==> p == name
  {
    if StartsWith(name, "/") then name
    else if directory == "" || EndsWith(directory, "/") then directory + name
    else directory + "/" + name
  }

  /** What a download attempt asks of the browser: the page, which link to
      click, the browser's download directory and the path to save to. */
  datatype Request = Request(url: string, selector: string, directory: string, target: string)

  function Plan(url: string, desiredFilename: string, lowRes: bool,
                destination: Option<string>, cwd: string): (req: Request)
    ensures req.url == url
    ensures req.selector == Selector(lowRes)
    ensures req.directory == DownloadDirectory(destination, cwd)
    ensures EndsWith(req.target, NormalizeFilename(desiredFilename))
    ensures EndsWith(req.target, Extension)
    ensures req.target == JoinPath(req.directory, NormalizeFilename(desiredFilename))
  {
    var directory := DownloadDirectory(destination, cwd);
    var name := NormalizeFilename(desiredFilename);
    var target := JoinPath(directory, name);
    EndsWithTransitive(target, name, Extension);
    Request(url, Selector(lowRes), directory, target)
  }

  lemma EndsWithTransitive(s: string, t: string, u: string)
    requires EndsWith(s, t) && EndsWith(t, u)
    ensures EndsWith(s, u)
  {
    assert s[|s| - |u|..] == s[|s| - |t|..][|t| - |u|..];
  }

  /** How `download_video` ends: the path returned when the file was already
      there, the path returned after a download, or the exception raised. */
  datatype DownloadResult = AlreadyPresent(path: string) | Downloaded(path: string) | DownloadFailed(error: string)

  /** `download_video`: plan the target path; return it at once when it exists,
      otherwise hand the request to the browser. */
  function DownloadVideo(url: string, desiredFilename: string, lowRes: bool,
                         destination: Option<string>, cwd: string,
                         existing: set<string>, browser: Request -> Outcome<string>): (r: DownloadResult)
    ensures r.AlreadyPresent? <==> Plan(url, desiredFilename, lowRes, destination, cwd).target in existing
    ensures r.Downloaded? <==>
      (Plan(url, desiredFilename, lowRes, destination, cwd).target !in existing
       && browser(Plan(url, desiredFilename, lowRes, destination, cwd)).Pass?)
    ensures !r.DownloadFailed? ==> r.path == Plan(url, desiredFilename, lowRes, destination, cwd).target
    ensures r.DownloadFailed? ==> r.error == browser(Plan(url, desiredFilename, lowRes, destination, cwd)).error
  {
    var req := Plan(url, desiredFilename, lowRes, destination, cwd);
    if req.target in existing then AlreadyPresent(req.target)
    else match browser(req)
      case Pass => Downloaded(req.target)
      case Fail(e) => DownloadFailed(e)
  }

  /** A file that already exists is never fetched: the result is the same
      whatever the browser would have done. */
  lemma ExistingFileShortCircuits(url: string, desiredFilename: string, lowRes: bool,
                                  destination: Option<string>, cwd: string, existing: set<string>,
                                  b1: Request -> Outcome<string>, b2: Request -> Outcome<string>)
    requires Plan(url, desiredFilename, lowRes, destination, cwd).target in existing
    ensures DownloadVideo(url, desiredFilename, lowRes, destination, cwd, existing, b1)
         == DownloadVideo(url, desiredFilename, lowRes, destination, cwd, existing, b2)
  {
  }

  /** `download_video` as written: line 47 reads `settings`, a name the module
      never binds, so every attempt that reaches the browser raises NameError. */
  const UnboundSettings := "NameError: name 'settings' is not defined"

  function DownloadVideoAsWritten(url: string, desiredFilename: string, lowRes: bool,
                                  destination: Option<string>, cwd: string,
                                  existing: set<string>): (r: DownloadResult)
    ensures !r.Downloaded?
    ensures r.DownloadFailed? <==> Plan(url, desiredFilename, lowRes, destination, cwd).target !in existing
  {
    var req := Plan(url, desiredFilename, lowRes, destination, cwd);
    if req.target in existing then AlreadyPresent(req.target) else DownloadFailed(UnboundSettings)
  }

  /** The path planned for a file `clip` in `/tmp`. */
  lemma ExamplePlan()
    ensures Plan("https://vkvideo.ru/video-1_2", "clip", false, None, "/tmp").target == "/tmp/clip.mp4"
  {
    ExampleName();
    ExampleJoin();
    assert DownloadDirectory(None, "/tmp") == "/tmp";
  }

  lemma ExampleName()
    ensures NormalizeFilename("clip") == "clip.mp4"
  {
    assert "clip"[0] != Extension[0];
  }

  lemma ExampleJoin()
    ensures JoinPath("/tmp", "clip.mp4") == "/tmp/clip.mp4"
  {
    assert "clip.mp4"[0] != '/' && "/tmp"[3] != '/';
  }

  /** The discrepancy on a concrete input: a new file is never downloaded as
      written, while the intended flow downloads it when the browser succeeds. */
  lemma AsWrittenNeverDownloads()
    ensures DownloadVideoAsWritten("https://vkvideo.ru/video-1_2", "clip", false, None, "/tmp", {})
         == DownloadFailed(UnboundSettings)
    ensures DownloadVideo("https://vkvideo.ru/video-1_2", "clip", false, None, "/tmp", {}, _ => Pass)
         == Downloaded("/tmp/clip.mp4")
  {
    ExamplePlan();
  }

  /** One call of `download_video` made by the batch loop: URL and title. */
  datatype Call = Call(url: string, filename: string)

  /** What the batch loop did: its calls, their results in order, and whether
      it returned (`Pass`) or re-raised an exception (`Fail`). */
  datatype Trace = Trace(calls: seq<Call>, results: seq<DownloadResult>, outcome: Outcome<string>)

  function Prepend(call: Call, result: DownloadResult, t: Trace): Trace
  {
    Trace([call] + t.calls, [result] + t.results, t.outcome)
  }

  /** `download_videos`, as a specification: walk the videos in order, pass over
      those in `skip`, download the others into `destination` at normal
      resolution, and stop at the first exception. A saved file exists from
      then on. */
  function Run(videos: seq<Video>, skip: seq<Video>, destination: Option<string>, cwd: string,
               existing: set<string>, browser: Request -> Outcome<string>): Trace
    decreases |videos|
  {
    if |videos| == 0 then Trace([], [], Pass)
    else
      var v := videos[0];
      if v in skip then Run(videos[1..], skip, destination, cwd, existing, browser)
      else
        var res := DownloadVideo(v.url, v.title, false, destination, cwd, existing, browser);
        if res.DownloadFailed? then Trace([Call(v.url, v.title)], [res], Fail(res.error))
        else Prepend(Call(v.url, v.title), res,
                     Run(videos[1..], skip, destination, cwd, existing + {res.path}, browser))
  }

  /** The videos the loop is meant to download, in order. */
  function Wanted(videos: seq<Video>, skip: seq<Video>): (r: seq<Video>)
    ensures forall v :: v in r <==> v in videos && v !in skip
    ensures |r| <= |videos|
  {
    if |videos| == 0 then []
    else if videos[0] in skip then Wanted(videos[1..], skip)
    else [videos[0]] + Wanted(videos[1..], skip)
  }

  /** The selection distributes over concatenation, so the wanted videos keep
      their order. */
  lemma {:induction false} WantedAppend(a: seq<Video>, b: seq<Video>, skip: seq<Video>)
    ensures Wanted(a + b, skip) == Wanted(a, skip) + Wanted(b, skip)
    decreases |a|
  {
    if |a| == 0 {
      assert a + b == b;
    } else {
      assert (a + b)[0] == a[0];
      assert (a + b)[1..] == a[1..] + b;
      WantedAppend(a[1..], b, skip);
    }
  }

  function CallsFor(videos: seq<Video>): (r: seq<Call>)
    ensures |r| == |videos|
    ensures forall k :: 0 <= k < |videos| ==> r[k] == Call(videos[k].url, videos[k].title)
  {
    if |videos| == 0 then [] else [Call(videos[0].url, videos[0].title)] + CallsFor(videos[1..])
  }

  predicate NoFailure(results: seq<DownloadResult>)
  {
    forall r <- results :: !r.DownloadFailed?
  }

  predicate IsPrefix<T(==)>(a: seq<T>, b: seq<T>)
  {
    |a| <= |b| && b[..|a|] == a
  }

  lemma PrefixCons<T>(x: T, a: seq<T>, b: seq<T>)
    requires IsPrefix(a, b)
    ensures IsPrefix([x] + a, [x] + b)
  {
    assert ([x] + b)[..|a| + 1] == [x] + b[..|a|];
  }

  /** The batch loop calls the wanted videos in order and no others: a prefix
      of them, with one result per call. */
  lemma {:induction false} RunCallsWanted(videos: seq<Video>, skip: seq<Video>, destination: Option<string>,
                                          cwd: string, existing: set<string>, browser: Request -> Outcome<string>)
    ensures |Run(videos, skip, destination, cwd, existing, browser).calls|
         == |Run(videos, skip, destination, cwd, existing, browser).results|
    ensures IsPrefix(Run(videos, skip, destination, cwd, existing, browser).calls, CallsFor(Wanted(videos, skip)))
    ensures Run(videos, skip, destination, cwd, existing, browser).outcome.Pass? ==>
      Run(videos, skip, destination, cwd, existing, browser).calls == CallsFor(Wanted(videos, skip))
    decreases |videos|
  {
    if |videos| > 0 {
      var v := videos[0];
      if v in skip {
        RunCallsWanted(videos[1..], skip, destination, cwd, existing, browser);
      } else {
        var res := DownloadVideo(v.url, v.title, false, destination, cwd, existing, browser);
        var c := Call(v.url, v.title);
        assert Wanted(videos, skip) == [v] + Wanted(videos[1..], skip);
        var ws := CallsFor(Wanted(videos[1..], skip));
        assert CallsFor(Wanted(videos, skip)) == [c] + ws;
        if res.DownloadFailed? {
          PrefixCons(c, [], ws);
        } else {
          var rest := Run(videos[1..], skip, destination, cwd, existing + {res.path}, browser);
          RunCallsWanted(videos[1..], skip, destination, cwd, existing + {res.path}, browser);
          PrefixCons(c, rest.calls, ws);
        }
      }
    }
  }

  /** The loop returns exactly when no call raised. */
  lemma {:induction false} RunPassesIff(videos: seq<Video>, skip: seq<Video>, destination: Option<string>,
                                        cwd: string, existing: set<string>, browser: Request -> Outcome<string>)
    ensures Run(videos, skip, destination, cwd, existing, browser).outcome.Pass?
        <==> NoFailure(Run(videos, skip, destination, cwd, existing, browser).results)
    decreases |videos|
  {
    if |videos| > 0 {
      var v := videos[0];
      if v in skip {
        RunPassesIff(videos[1..], skip, destination, cwd, existing, browser);
      } else {
        var res := DownloadVideo(v.url, v.title, false, destination, cwd, existing, browser);
        var t := Run(videos, skip, destination, cwd, existing, browser);
        if res.DownloadFailed? {
          assert t.results == [res];
        } else {
          var rest := Run(videos[1..], skip, destination, cwd, existing + {res.path}, browser);
          assert t == Prepend(Call(v.url, v.title), res, rest);
          RunPassesIff(videos[1..], skip, destination, cwd, existing + {res.path}, browser);
          NoFailureCons(res, rest.results);
        }
      }
    }
  }

  lemma NoFailureCons(res: DownloadResult, rest: seq<DownloadResult>)
    ensures NoFailure([res] + rest) <==> !res.DownloadFailed? && NoFailure(rest)
  {
    if NoFailure([res] + rest) {
      forall r <- rest ensures !r.DownloadFailed? {
        assert r in [res] + rest;
      }
    }
  }

  /** When a trace ends in an exception, that exception came from its last
      call and every earlier call succeeded. */
  predicate StopsAtFailure(t: Trace)
  {
    t.outcome.Fail? ==>
      |t.results| > 0
      && t.results[|t.results| - 1] == DownloadFailed(t.outcome.error)
      && NoFailure(t.results[..|t.results| - 1])
  }

  lemma StopsAtFailurePrepend(call: Call, result: DownloadResult, rest: Trace)
    requires !result.DownloadFailed? && StopsAtFailure(rest)
    ensures StopsAtFailure(Prepend(call, result, rest))
  {
    if rest.outcome.Fail? {
      var rs := [result] + rest.results;
      assert rs[..|rs| - 1] == [result] + rest.results[..|rest.results| - 1];
      NoFailureCons(result, rest.results[..|rest.results| - 1]);
    }
  }

  /** The loop stops at the first exception and re-raises it. */
  lemma {:induction false} RunStopsAtFailure(videos: seq<Video>, skip: seq<Video>, destination: Option<string>,
                                             cwd: string, existing: set<string>, browser: Request -> Outcome<string>)
    ensures StopsAtFailure(Run(videos, skip, destination, cwd, existing, browser))
    decreases |videos|
  {
    if |videos| > 0 {
      var v := videos[0];
      if v in skip {
        RunStopsAtFailure(videos[1..], skip, destination, cwd, existing, browser);
      } else {
        var res := DownloadVideo(v.url, v.title, false, destination, cwd, existing, browser);
        if res.DownloadFailed? {
          assert [res][..0] == [];
        } else {
          RunStopsAtFailure(videos[1..], skip, destination, cwd, existing + {res.path}, browser);
          StopsAtFailurePrepend(Call(v.url, v.title), res,
                                Run(videos[1..], skip, destination, cwd, existing + {res.path}, browser));
        }
      }
    }
  }

  /** A video listed in `skip` is never handed to `download_video`. */
  lemma SkippedNeverCalled(videos: seq<Video>, skip: seq<Video>, destination: Option<string>,
                           cwd: string, existing: set<string>, browser: Request -> Outcome<string>)
    ensures forall c :: c in Run(videos, skip, destination, cwd, existing, browser).calls ==>
      Video(c.url, c.filename) !in skip
  {
    var t := Run(videos, skip, destination, cwd, existing, browser);
    var wanted := Wanted(videos, skip);
    RunCallsWanted(videos, skip, destination, cwd, existing, browser);
    forall c | c in t.calls
      ensures Video(c.url, c.filename) !in skip
    {
      var k :| 0 <= k < |t.calls| && t.calls[k] == c;
      assert c == CallsFor(wanted)[k];
      assert wanted[k] in wanted;
      assert Video(c.url, c.filename) == wanted[k];
    }
  }

  /** A trace whose first calls and results are already known. */
  function Resume(calls: seq<Call>, results: seq<DownloadResult>, rest: Trace): Trace
  {
    Trace(calls + rest.calls, results + rest.results, rest.outcome)
  }

  lemma ResumePrepend(calls: seq<Call>, results: seq<DownloadResult>, call: Call, result: DownloadResult, rest: Trace)
    ensures Resume(calls, results, Prepend(call, result, rest)) == Resume(calls + [call], results + [result], rest)
  {
    assert calls + ([call] + rest.calls) == (calls + [call]) + rest.calls;
    assert results + ([result] + rest.results) == (results + [result]) + rest.results;
  }

  lemma ResumeDone(calls: seq<Call>, results: seq<DownloadResult>, outcome: Outcome<string>)
    ensures Resume(calls, results, Trace([], [], outcome)) == Trace(calls, results, outcome)
  {
    assert calls + [] == calls && results + [] == results;
  }

  /** The properties of a finished batch that `DownloadVideos` reports. */
  lemma RunProperties(videos: seq<Video>, skip: seq<Video>, destination: Option<string>,
                      cwd: string, existing: set<string>, browser: Request -> Outcome<string>)
    ensures var t := Run(videos, skip, destination, cwd, existing, browser);
      && (forall c :: c in t.calls ==> Video(c.url, c.filename) !in skip)
      && (t.outcome.Pass? <==> NoFailure(t.results))
      && (t.outcome.Pass? ==> t.calls == CallsFor(Wanted(videos, skip)))
  {
    SkippedNeverCalled(videos, skip, destination, cwd, existing, browser);
    RunCallsWanted(videos, skip, destination, cwd, existing, browser);
    RunPassesIff(videos, skip, destination, cwd, existing, browser);
  }

  /** One step of the batch from position `i`: skip, stop at a failure, or go on
      with the saved file counted as existing. */
  lemma RunStep(videos: seq<Video>, i: nat, skip: seq<Video>, destination: Option<string>,
                cwd: string, present: set<string>, browser: Request -> Outcome<string>)
    requires i < |videos|
    ensures var v := videos[i];
      var res := DownloadVideo(v.url, v.title, false, destination, cwd, present, browser);
      Run(videos[i..], skip, destination, cwd, present, browser)
      == if v in skip then Run(videos[i + 1..], skip, destination, cwd, present, browser)
         else if res.DownloadFailed? then Trace([Call(v.url, v.title)], [res], Fail(res.error))
         else Prepend(Call(v.url, v.title), res,
                      Run(videos[i + 1..], skip, destination, cwd, present + {res.path}, browser))
  {
    assert videos[i..][0] == videos[i];
    assert videos[i..][1..] == videos[i + 1..];
  }

  /** `download_videos`: the loop over the videos, returning its trace. */
  method DownloadVideos(videos: seq<Video>, destination: Option<string>, skip: seq<Video>,
                        cwd: string, existing: set<string>, browser: Request -> Outcome<string>)
    returns (trace: Trace)
    ensures trace == Run(videos, skip, destination, cwd, existing, browser)
    ensures forall c :: c in trace.calls ==> Video(c.url, c.filename) !in skip
    ensures trace.outcome.Pass? <==> NoFailure(trace.results)
    ensures trace.outcome.Pass? ==> trace.calls == CallsFor(Wanted(videos, skip))
  {
    ghost var whole := Run(videos, skip, destination, cwd, existing, browser);
    var present := existing;
    var calls: seq<Call> := [];
    var results: seq<DownloadResult> := [];
    for i := 0 to |videos|
      invariant whole == Resume(calls, results, Run(videos[i..], skip, destination, cwd, present, browser))
    {
      var video := videos[i];
      RunStep(videos, i, skip, destination, cwd, present, browser);
      if video in skip {
        continue;
      }
      var call := Call(video.url, video.title);
      var result := DownloadVideo(video.url, video.title, false, destination, cwd, present, browser);
      if result.DownloadFailed? {
        ResumeDone(calls + [call], results + [result], Fail(result.error));
        ResumePrepend(calls, results, call, result, Trace([], [], Fail(result.error)));
        trace := Trace(calls + [call], results + [result], Fail(result.error));
        RunProperties(videos, skip, destination, cwd, existing, browser);
        return;
      }
      ghost var rest := Run(videos[i + 1..], skip, destination, cwd, present + {result.path}, browser);
      ResumePrepend(calls, results, call, result, rest);
      calls := calls + [call];
      results := results + [result];
      present := present + {result.path};
    }
    assert Run(videos[|videos|..], skip, destination, cwd, present, browser) == Trace([], [], Pass);
    ResumeDone(calls, results, Pass);
    trace := Trace(calls, results, Pass);
    RunProperties(videos, skip, destination, cwd, existing, browser);
  }
}
