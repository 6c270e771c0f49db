/** `Extractor` of `src/app/extractor.py`: every anchor whose `href` starts with
    `/video-` becomes an entry, with no de-duplication and no shape check, and a
    batch of pages is gathered in order, failing on the first page that fails. */
module SoupExtractor {
  import opened Wrappers
  import opened Text
  import opened Site
  import opened Batch

  /** One `a` element of the parsed page, in document order: its `href`
      attribute if it has one, and the text strings below it. */
  datatype Anchor = Anchor(href: Option<string>, strings: seq<string>)

  /** `href=re.compile(r'^/video-')`. */
  predicate IsVideoAnchor(a: Anchor)
  {
    a.href.Some? && StartsWith(a.href.value, "/video-")
  }

  /** `soup.find_all('a', href=re.compile(r'^/video-'))`: the matching anchors,
      in document order, repeats included. */
  function VideoAnchors(anchors: seq<Anchor>): (r: seq<Anchor>)
    ensures forall k :: 0 <= k < |r| ==> IsVideoAnchor(r[k])
  {
    if |anchors| == 0 then []
    else
      var n := |anchors| - 1;
      VideoAnchors(anchors[..n]) + (if IsVideoAnchor(anchors[n]) then [anchors[n]] else [])
  }

  /** Each matching anchor is kept as many times as it occurs, every other
      anchor not at all. */
  lemma {:induction false} VideoAnchorsCount(anchors: seq<Anchor>, a: Anchor)
    ensures multiset(VideoAnchors(anchors))[a] == if IsVideoAnchor(a) then multiset(anchors)[a] else 0
  {
    if |anchors| > 0 {
      var n := |anchors| - 1;
      assert anchors == anchors[..n] + [anchors[n]];
      VideoAnchorsCount(anchors[..n], a);
    }
  }

  /** The filter keeps document order: filtering a concatenation filters each part. */
  lemma {:induction false} VideoAnchorsAppend(a: seq<Anchor>, b: seq<Anchor>)
    ensures VideoAnchors(a + b) == VideoAnchors(a) + VideoAnchors(b)
    decreases |b|
  {
    if |b| > 0 {
      var n := |b| - 1;
      assert (a + b)[..|a| + n] == a + b[..n];
      assert (a + b)[|a| + n] == b[n];
      VideoAnchorsAppend(a, b[..n]);
    } else {
      assert a + b == a;
    }
  }

  /** Repeated anchors are all kept: there is no de-duplication. */
  lemma RepeatsKept(a: Anchor)
    requires IsVideoAnchor(a)
    ensures VideoAnchors([a, a]) == [a, a]
  {
    assert [a][..0] == [];
    assert VideoAnchors([a]) == [a];
    assert [a, a][..1] == [a];
  }

  /** `link.get_text(strip=True)`: every string stripped, the empty ones
      dropped, the rest joined with no separator. */
  function LinkText(strings: seq<string>): string
  {
    if |strings| == 0 then "" else PyStrip(strings[0]) + LinkText(strings[1..])
  }

  /** The link text is empty exactly when every string is whitespace only. */
  lemma {:induction false} LinkTextEmpty(strings: seq<string>)
    ensures LinkText(strings) == "" <==>
      forall i, k :: 0 <= i < |strings| && 0 <= k < |strings[i]| ==> strings[i][k] in PyWhitespace
  {
    if |strings| > 0 {
      var head := PyStrip(strings[0]);
      var tail := LinkText(strings[1..]);
      assert LinkText(strings) == head + tail;
      assert head + tail == "" <==> head == "" && tail == "";
      LinkTextEmpty(strings[1..]);
      StripEmpty(strings[0], PyWhitespace);
      assert forall i :: 1 <= i < |strings| ==> strings[i] == strings[1..][i - 1];
    }
  }

  /** The entry for one matching anchor: `https://vkvideo.ru` followed by the
      href, and the link text or "Untitled Video" when the text is empty. */
  function EntryOf(a: Anchor): (v: Video)
    requires IsVideoAnchor(a)
    ensures v.url == VideoUrl(a.href.value)
    ensures v.title != ""
    ensures LinkText(a.strings) != "" ==> v.title == LinkText(a.strings)
    ensures LinkText(a.strings) == "" ==> v.title == Untitled
  {
    var text := LinkText(a.strings);
    Video(VideoUrl(a.href.value), if text != "" then text else Untitled)
  }

  /** The entries of one page: one per matching anchor, in document order. */
  function PageVideos(anchors: seq<Anchor>): (r: seq<Video>)
    ensures |r| == |VideoAnchors(anchors)|
    ensures forall k :: 0 <= k < |r| ==> r[k] == EntryOf(VideoAnchors(anchors)[k])
  {
    var found := VideoAnchors(anchors);
    seq(|found|, k requires 0 <= k < |found| => EntryOf(found[k]))
  }

  /** Every entry of a page has a URL starting `https://vkvideo.ru/video-` and
      a non-empty title. */
  lemma PageVideosWellFormed(anchors: seq<Anchor>)
    ensures forall v :: v in PageVideos(anchors) ==>
      StartsWith(v.url, Origin + "/video-") && v.title != ""
  {
    var found := VideoAnchors(anchors);
    forall k | 0 <= k < |found|
      ensures StartsWith(PageVideos(anchors)[k].url, Origin + "/video-")
    {
      StartsWithConcat(Origin, found[k].href.value, "/video-");
    }
  }

  /** `Extractor.extract_video_links` once the page HTML is in hand: a page
      that could not be rendered has its error re-raised unchanged (a timeout
      or any other failure alike); otherwise each matching anchor gives one
      entry, in order. */
  method ExtractVideoLinks(page: Result<seq<Anchor>, PageError>) returns (r: Result<seq<Video>, PageError>)
    ensures page.Failure? ==> r == Failure(page.error)
    ensures page.Success? ==> r == Success(PageVideos(page.value))
  {
    match page
    case Failure(e) =>
      return Failure(e);
    case Success(anchors) =>
      var found := VideoAnchors(anchors);
      var videoLinks: seq<Video> := [];
      for i := 0 to |found|
        invariant |videoLinks| == i
        invariant forall k :: 0 <= k < i ==> videoLinks[k] == EntryOf(found[k])
      {
        var href := found[i].href.value;
        var title := LinkText(found[i].strings);
        if title == "" {
          title := Untitled;
        }
        var fullUrl := Origin + href;
        assert Video(fullUrl, title) == EntryOf(found[i]);
        videoLinks := videoLinks + [Video(fullUrl, title)];
      }
      assert videoLinks == PageVideos(anchors);
      return Success(videoLinks);
  }

  /** What `extract_video_links` gives for each URL, in order. */
  function PageOutcomes(urls: seq<string>, render: string -> Result<seq<Anchor>, PageError>):
    (r: seq<Result<seq<Video>, PageError>>)
    ensures |r| == |urls|
    ensures forall i :: 0 <= i < |urls| ==>
      r[i] == (if render(urls[i]).Success? then Success(PageVideos(render(urls[i]).value))
               else Failure(render(urls[i]).error))
  {
    seq(|urls|, i requires 0 <= i < |urls| =>
      if render(urls[i]).Success? then Success(PageVideos(render(urls[i]).value))
      else Failure(render(urls[i]).error))
  }

  /** `Extractor.extract_videos_from_urls`: the pages' entries concatenated in
      URL order when every page rendered; otherwise the error of the first page
      that failed, and no partial result. */
  method ExtractVideosFromUrls(urls: seq<string>, render: string -> Result<seq<Anchor>, PageError>)
    returns (r: Result<seq<Video>, PageError>)
    ensures r == Gather(PageOutcomes(urls, render))
    ensures r.Success? <==> AllSucceed(PageOutcomes(urls, render))
    ensures r.Success? ==> r.value == Concat(Values(PageOutcomes(urls, render)))
    ensures r.Failure? ==> exists k :: FirstFailure(PageOutcomes(urls, render), k) && r.error == render(urls[k]).error
  {
    ghost var outcomes := PageOutcomes(urls, render);
    var allVideos: seq<Video> := [];
    for i := 0 to |urls|
      invariant AllSucceed(outcomes[..i])
      invariant allVideos == Concat(Values(outcomes[..i]))
    {
      var videos := ExtractVideoLinks(render(urls[i]));
      if videos.Failure? {
        assert FirstFailure(outcomes, i);
        GatherFirstFailure(outcomes, i);
        return videos;
      }
      assert outcomes[..i + 1] == outcomes[..i] + [outcomes[i]];
      assert Values(outcomes[..i + 1]) == Values(outcomes[..i]) + [videos.value];
      ConcatSnoc(Values(outcomes[..i]), videos.value);
      allVideos := allVideos + videos.value;
    }
    assert outcomes[..|urls|] == outcomes;
    GatherConcat(outcomes);
    return Success(allVideos);
  }

  /** An empty batch is an empty result, not an error. */
  lemma EmptyBatch(render: string -> Result<seq<Anchor>, PageError>)
    ensures Gather(PageOutcomes([], render)) == Success([])
  {
  }
}
