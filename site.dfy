/** The site the extractor targets: its origin, the title placeholder, the
    extracted entry and the errors a page load can raise. */
module Site {
  import opened Text

  const Origin := "https://vkvideo.ru"

  /** Title given to an entry for which no usable text was found. */
  const Untitled := "Untitled Video"

  /** One extracted video: an absolute URL and a title. */
  datatype Video = Video(url: string, title: string)

  /** What rendering a page can raise: a timeout, or any other browser failure. */
  datatype PageError = TimedOut(detail: string) | Failed(detail: string)

  /** The absolute URL of a site path: the origin followed by the path, unchanged. */
  function VideoUrl(href: string): (u: string)
    ensures StartsWith(u, Origin) && u[|Origin|..] == href
  {
    Origin + href
  }

  /** Distinct paths give distinct URLs, so de-duplicating paths de-duplicates URLs. */
  lemma VideoUrlInjective(h1: string, h2: string)
    requires VideoUrl(h1) == VideoUrl(h2)
    ensures h1 == h2
  {
    assert h1 == VideoUrl(h1)[|Origin|..];
  }

  lemma StartsWithConcat(a: string, b: string, c: string)
    requires StartsWith(b, c)
    ensures StartsWith(a + b, a + c)
  {
    assert (a + b)[..|a + c|] == a + b[..|c|];
  }
}
