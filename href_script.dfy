/** The command-line entry point `src/main.py`: its URL validator, its in-page
    script (the same card walk as `main.py`, keeping hrefs only) and the loop of
    `main` over the pages to extract. */
module HrefScript {
  import opened Wrappers
  import opened Text
  import opened Site
  import opened Cards
  import opened Batch

  // ----- validate_vk_url -----

  /** What `argparse.ArgumentTypeError` carries. */
  datatype ArgumentTypeError = ArgumentTypeError(message: string)

  /** The alternatives of `https?://` and of `(www\.)?vk\.com/`. */
  const Schemes: set<string> := {"http://", "https://"}
  const Hosts: set<string> := {"vk.com/", "www.vk.com/"}

  /** `.*@` at the start of `path`: an `@` with no line break before it, since
      `.` does not match `\n`. */
  ghost predicate HasAtOnFirstLine(path: string)
  {
    exists i :: 0 <= i < |path| && path[i] == '@' && forall j :: 0 <= j < i ==> path[j] != '\n'
  }

  /** The same test as a scan. */
  function AtBeforeNewline(path: string): (b: bool)
    ensures b <==> HasAtOnFirstLine(path)
  {
    if |path| == 0 then false
    else if path[0] == '@' then true
    else if path[0] == '\n' then false
    else
      var b := AtBeforeNewline(path[1..]);
      if b then
        var i :| 0 <= i < |path[1..]| && path[1..][i] == '@' && forall j :: 0 <= j < i ==> path[1..][j] != '\n';
        assert path[i + 1] == '@';
        b
      else
        assert forall i :: 1 <= i < |path| ==> path[i] == path[1..][i - 1];
        b
  }

  /** `(video|.*@.*)` matched at the start of what follows the host. */
  predicate PathMatches(path: string)
  {
    StartsWith(path, "video") || AtBeforeNewline(path)
  }

  /** `re.match(r'^https?://(www\.)?vk\.com/(video|.*@.*)', url)`, stated as:
      a scheme, a host, then a path that matches. Any suffix is allowed. */
  ghost predicate MatchesVkPattern(url: string)
  {
    exists scheme, host :: scheme in Schemes && host in Hosts
      && StartsWith(url, scheme + host) && PathMatches(url[|scheme| + |host|..])
  }

  /** Scanner for `^https?://(www\.)?vk\.com/`: what follows it, if it matches. */
  function AfterVkHost(url: string): Option<string>
  {
    var afterScheme :=
      if StartsWith(url, "https://") then Some(url[8..])
      else if StartsWith(url, "http://") then Some(url[7..])
      else None;
    match afterScheme
    case None => None
    case Some(rest) =>
      if StartsWith(rest, "www.vk.com/") then Some(rest[11..])
      else if StartsWith(rest, "vk.com/") then Some(rest[7..])
      else None
  }

  /** `validate_vk_url`: the URL unchanged when it matches the pattern, and
      `ArgumentTypeError("Invalid VK URL: <url>")` when it does not. */
  function ValidateVkUrl(url: string): (r: Result<string, ArgumentTypeError>)
    ensures r.Success? <==> MatchesVkPattern(url)
    ensures r.Success? ==> r.value == url
    ensures r.Failure? ==> r.error.message == "Invalid VK URL: " + url
  {
    AfterVkHostIff(url);
    match AfterVkHost(url)
    case Some(path) =>
      if PathMatches(path) then Success(url) else Failure(ArgumentTypeError("Invalid VK URL: " + url))
    case None => Failure(ArgumentTypeError("Invalid VK URL: " + url))
  }

  lemma AfterVkHostIff(url: string)
    ensures AfterVkHost(url).Some? ==>
      exists scheme, host :: scheme in Schemes && host in Hosts
        && StartsWith(url, scheme + host) && AfterVkHost(url).value == url[|scheme| + |host|..]
    ensures forall scheme, host :: scheme in Schemes && host in Hosts && StartsWith(url, scheme + host) ==>
      AfterVkHost(url) == Some(url[|scheme| + |host|..])
  {
    forall scheme, host | scheme in Schemes && host in Hosts && StartsWith(url, scheme + host)
      ensures AfterVkHost(url) == Some(url[|scheme| + |host|..])
    {
      StartsWithAppend(url, scheme, host);
      SchemesDisjoint(url);
      HostsDisjoint(url[|scheme|..]);
      assert url[|scheme|..][|host|..] == url[|scheme| + |host|..];
    }
    if AfterVkHost(url).Some? {
      var scheme := if StartsWith(url, "https://") then "https://" else "http://";
      var rest := url[|scheme|..];
      var host := if StartsWith(rest, "www.vk.com/") then "www.vk.com/" else "vk.com/";
      StartsWithAppend(url, scheme, host);
      assert rest[|host|..] == url[|scheme| + |host|..];
    }
  }

  lemma StartsWithAppend(s: string, a: string, b: string)
    ensures StartsWith(s, a + b) <==> StartsWith(s, a) && StartsWith(s[|a|..], b)
  {
    if |a| + |b| <= |s| {
      assert s[..|a| + |b|] == s[..|a|] + s[|a|..][..|b|];
      if s[..|a| + |b|] == a + b {
        assert s[..|a|] == (a + b)[..|a|];
        assert s[|a|..][..|b|] == (a + b)[|a|..];
      }
    }
  }

  lemma SchemesDisjoint(url: string)
    ensures !(StartsWith(url, "http://") && StartsWith(url, "https://"))
  {
    if StartsWith(url, "http://") {
      assert url[4] == url[..7][4] == ':';
    }
  }

  lemma HostsDisjoint(rest: string)
    ensures !(StartsWith(rest, "vk.com/") && StartsWith(rest, "www.vk.com/"))
  {
    if StartsWith(rest, "vk.com/") {
      assert rest[0] == rest[..7][0] == 'v';
    }
  }

  /** A page address on the video site itself is refused: only vk.com is accepted. */
  lemma RejectsVkvideoPage()
    ensures ValidateVkUrl("https://vkvideo.ru/@public111751633/all").Failure?
  {
    var url := "https://vkvideo.ru/@public111751633/all";
    assert url[..8] == "https://";
    var rest := url[8..];
    assert rest[0] == 'v' && rest[2] == 'v';
    assert !StartsWith(rest, "www.vk.com/") by { assert rest[..11][0] == 'v'; }
    assert !StartsWith(rest, "vk.com/") by { assert rest[..7][2] == 'v'; }
  }

  /** A vk.com community page with an `@` is accepted. */
  lemma AcceptsCommunityPage()
    ensures ValidateVkUrl("https://vk.com/@club180058315").Success?
  {
    var a := "https://vk.com/@club180058315";
    assert a[..8] == "https://";
    var rest := a[8..];
    assert rest[..7] == "vk.com/";
    HostsDisjoint(rest);
    assert rest[7..][0] == '@';
  }

  /** Anything may follow `video`: the match is a prefix match. */
  lemma AcceptsAnyVideoSuffix()
    ensures ValidateVkUrl("http://www.vk.com/videos?z=1").Success?
  {
    var b := "http://www.vk.com/videos?z=1";
    assert b[..7] == "http://";
    SchemesDisjoint(b);
    var rest := b[7..];
    assert rest[..11] == "www.vk.com/";
    assert rest[11..][..5] == "video";
  }

  // ----- the in-page script and extract_video_links -----

  /** One `{href, title}` object the script pushes. */
  datatype Link = Link(href: string, title: string)

  /** The script's only title step: the trimmed `VideoCard__title` text, or
      `''`; no duration filter and no placeholder. */
  function ScriptTitle(card: Card): string
  {
    match card.titleText
    case Some(raw) => JsTrim(raw)
    case None => ""
  }

  /** The card loop of the script: one link per first occurrence of a
      well-shaped href, in document order. */
  method ExtractLinks(cards: seq<Card>) returns (links: seq<Link>)
    ensures |links| == |Origins(cards)|
    ensures forall k :: 0 <= k < |links| ==>
      links[k] == Link(CardHref(cards[Origins(cards)[k]]).value, ScriptTitle(cards[Origins(cards)[k]]))
  {
    links := [];
    var seen: set<string> := {};
    for i := 0 to |cards|
      invariant seen == Seen(cards[..i])
      invariant |links| == |Origins(cards[..i])|
      invariant forall k :: 0 <= k < |links| ==>
        links[k] == Link(CardHref(cards[Origins(cards[..i])[k]]).value, ScriptTitle(cards[Origins(cards[..i])[k]]))
    {
      Step(cards, i);
      var link := FirstVideoLink(cards[i].anchorHrefs);
      if link.None? {
        continue;
      }
      var href := link.value;
      if href in seen || !IsVideoPath(href) {
        continue;
      }
      seen := seen + {href};
      var title := "";
      if cards[i].titleText.Some? {
        title := JsTrim(cards[i].titleText.value);
      }
      links := links + [Link(href, title)];
    }
    assert cards[..|cards|] == cards;
  }

  /** `[video['href'] for video in videos]`. */
  function Hrefs(links: seq<Link>): (r: seq<string>)
    ensures |r| == |links| && forall k :: 0 <= k < |r| ==> r[k] == links[k].href
  {
    seq(|links|, k requires 0 <= k < |links| => links[k].href)
  }

  /** The hrefs a page yields: those of the first occurrences, in document order. */
  function PageHrefs(cards: seq<Card>): (r: seq<string>)
    ensures |r| == |Origins(cards)|
    ensures forall k :: 0 <= k < |r| ==> Some(r[k]) == CardHref(cards[Origins(cards)[k]])
  {
    var o := Origins(cards);
    seq(|o|, k requires 0 <= k < |o| => CardHref(cards[o[k]]).value)
  }

  /** The hrefs of a page are distinct, each of the shape
      `/video-<digits>_<digits>`, and every well-shaped href of the page is
      among them; their number is the number of distinct well-shaped hrefs. */
  lemma PageHrefsProperties(cards: seq<Card>)
    ensures var r := PageHrefs(cards);
      && (forall k, l :: 0 <= k < l < |r| ==> r[k] != r[l])
      && (forall k :: 0 <= k < |r| ==> IsVideoPath(r[k]))
      && (forall h :: h in Seen(cards) ==> h in r)
      && |r| == |Seen(cards)|
  {
    var r, o := PageHrefs(cards), Origins(cards);
    forall k, l | 0 <= k < l < |r| ensures r[k] != r[l] {
      OriginsDistinctHrefs(cards, k, l);
    }
    forall h | h in Seen(cards) ensures h in r {
      var j :| 0 <= j < |cards| && HasVideoPath(cards[j]) && CardHref(cards[j]).value == h;
      var i := EarliestWith(cards, j);
      var k :| 0 <= k < |o| && o[k] == i;
      assert r[k] == h;
    }
    OriginsCount(cards);
  }

  /** The earliest card with the same href as card `j` is a first occurrence. */
  lemma {:induction false} EarliestWith(cards: seq<Card>, j: nat) returns (i: nat)
    requires j < |cards| && HasVideoPath(cards[j])
    ensures i <= j && FirstOccurrence(cards, i) && CardHref(cards[i]) == CardHref(cards[j])
    decreases j
  {
    if FirstOccurrence(cards, j) {
      i := j;
    } else {
      var j' :| 0 <= j' < j && CardHref(cards[j']) == CardHref(cards[j]);
      i := EarliestWith(cards, j');
    }
  }

  /** `extract_video_links`: the page's hrefs when it rendered, the rendering
      error re-raised otherwise. */
  method ExtractVideoLinks(page: Result<seq<Card>, PageError>) returns (r: Result<seq<string>, PageError>)
    ensures page.Failure? ==> r == Failure(page.error)
    ensures page.Success? ==> r == Success(PageHrefs(page.value))
  {
    match page
    case Failure(e) =>
      return Failure(e);
    case Success(cards) =>
      var links := ExtractLinks(cards);
      assert Hrefs(links) == PageHrefs(cards);
      return Success(Hrefs(links));
  }

  // ----- main -----

  const GoodstuffVideos: seq<string> := [
    "https://vkvideo.ru/@club180058315/all",
    "https://vkvideo.ru/@public111751633/all"
  ]

  /** The parsed command line: the `goodstuff` list, or one validated URL. */
  datatype Command = Goodstuff | SinglePage(url: string)

  /** How `main` ends: returning the collected hrefs, or `sys.exit(status)`. */
  datatype MainOutcome = Returned(videoLinks: seq<string>) | Exited(status: int)

  function UrlsFor(command: Command): (urls: seq<string>)
    ensures command.Goodstuff? ==> urls == GoodstuffVideos
    ensures command.SinglePage? ==> urls == [command.url]
  {
    match command
    case Goodstuff => GoodstuffVideos
    case SinglePage(url) => [url]
  }

  /** What `extract_video_links` gives for each URL, in order. */
  function PageOutcomes(urls: seq<string>, render: string -> Result<seq<Card>, PageError>):
    (r: seq<Result<seq<string>, PageError>>)
    ensures |r| == |urls|
    ensures forall i :: 0 <= i < |urls| ==>
      r[i] == (if render(urls[i]).Success? then Success(PageHrefs(render(urls[i]).value))
               else Failure(render(urls[i]).error))
  {
    seq(|urls|, i requires 0 <= i < |urls| =>
      if render(urls[i]).Success? then Success(PageHrefs(render(urls[i]).value))
      else Failure(render(urls[i]).error))
  }

  /** `main`: the per-URL href lists concatenated in URL order when every page
      rendered, and exit status 1 as soon as one did not. */
  method RunMain(command: Command, render: string -> Result<seq<Card>, PageError>) returns (outcome: MainOutcome)
    ensures outcome.Returned? <==> AllSucceed(PageOutcomes(UrlsFor(command), render))
    ensures outcome.Returned? ==> outcome.videoLinks == Concat(Values(PageOutcomes(UrlsFor(command), render)))
    ensures outcome.Exited? ==> outcome.status == 1
  {
    var urls := UrlsFor(command);
    ghost var outcomes := PageOutcomes(urls, render);
    var allVideos: seq<string> := [];
    for i := 0 to |urls|
      invariant AllSucceed(outcomes[..i])
      invariant allVideos == Concat(Values(outcomes[..i]))
    {
      var videos := ExtractVideoLinks(render(urls[i]));
      if videos.Failure? {
        return Exited(1);
      }
      assert outcomes[..i + 1] == outcomes[..i] + [outcomes[i]];
      assert Values(outcomes[..i + 1]) == Values(outcomes[..i]) + [videos.value];
      ConcatSnoc(Values(outcomes[..i]), videos.value);
      allVideos := allVideos + videos.value;
    }
    assert outcomes[..|urls|] == outcomes;
    return Returned(allVideos);
  }
}
