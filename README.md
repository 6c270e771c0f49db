# vkvideo-downloader, modelled in Dafny

vkvideo-downloader collects the videos listed on a vkvideo.ru page and saves
them as `.mp4` files. This project models the parts of it that decide what
gets collected and what gets downloaded:

- **The card walk of `main.py`** (`CardScript`). This is the script evaluated in the rendered page.
  - It visits every `[class*="VideoCard"]` element in document order.
  - It takes the card's first `a[href^="/video-"]`.
  - It keeps the href only when it has the shape `/video-<digits>_<digits>` and has not been seen before.
  - It picks a title: the `VideoCard__title` text, then the `VideoCard__description` text, then the longest descendant text, then `"Untitled Video"`. Duration labels such as `1:23` are passed over at each step.
- **The command-line entry point `src/main.py`** (`HrefScript`):
  - `validate_vk_url`.
  - The same card walk, keeping only the hrefs.
  - `main`, which concatenates the hrefs of the `goodstuff` pages or of one page, and exits with status 1 on the first failure.
- **`Extractor` in `src/app/extractor.py`** (`SoupExtractor`):
  - Every anchor whose href starts with `/video-` becomes `{url, title}`, with the title taken from `get_text(strip=True)`.
  - A batch of pages is concatenated in order and fails on the first page that fails.
- **`Downloader` in `src/app/downloader.py`** (`Downloader`):
  - Gives the file name an `.mp4` extension.
  - Chooses the folder and the link selector.
  - Joins the path.
  - Returns at once when the file already exists.
  - `download_videos` skips the listed videos, downloads the others in order, and re-raises the first failure.

Shared pieces:

- `Cards`: the card data and the first-occurrence selection both scripts make.
- `Text`: prefixes and suffixes, the digit-run shapes of the regular expressions, JavaScript `trim` and Python `strip`, and JavaScript string length in UTF-16 code units.
- `Site`: the site origin, the placeholder title and the video entry.
- `Batch`: ordered, fail-fast gathering of per-page results.
- `Wrappers`: `Option`, `Result` and `Outcome`.

What the program gets from outside is a parameter of the model:

- A rendered page is the sequence of its cards or anchors.
- Rendering a URL is a function `render` from URL to page or error.
- The filesystem is the set of paths that exist.
- The browser session that fetches a file is a function `browser` from the planned request to success or error.

Behaviour of the code worth knowing:

- A duration label is `^\d+:\d+$`: exactly two digit groups around one `:`. So `"1:234"` counts as a duration and `"1:23:45"` does not (`Text.TimestampExamples`).
- The title chain of `main.py` has three steps plus the placeholder: the title element, the description element, the longest descendant text.
- `src/app/extractor.py` does no de-duplication and no shape check, although it logs "unique" links. `SoupExtractor.RepeatsKept` shows a repeated anchor kept twice.
- `src/main.py` keeps the title step without the duration filter and without the placeholder (`HrefScript.ScriptTitle`), then returns only the hrefs.
- A failure anywhere in a batch aborts the whole batch, in `main` and in `extract_videos_from_urls` alike. Nothing is skipped.

## Model

| member | source | states |
|---|---|---|
| Text.DigitRun | main.py:39 | the leading run of `\d` (ASCII digits) in a string: all digits, and stopped by a non-digit or the end |
| Text.MatchesDigitsPairIff | main.py:39 | the scanning test equals "some separator splits the string into two non-empty digit runs" |
| Text.TimestampShape | main.py:49 | `^\d+:\d+$` holds exactly when the text is two non-empty digit runs around one `:` |
| Text.TimestampExamples | main.py:49 | "1:23", "12:34" and "1:234" are durations; "1:23:45" and "Video 1:23" are not |
| Text.StripStart | main.py:48 | dropping leading whitespace leaves a suffix whose dropped part is all whitespace and which does not start with whitespace |
| Text.StripEnd | main.py:48 | dropping trailing whitespace leaves a prefix whose dropped part is all whitespace and which does not end with whitespace |
| Text.Strip | main.py:48 | a trimmed text is empty or has no whitespace at either end |
| Text.StripIsSlice | main.py:48 | a trimmed text is a contiguous slice of the original, and everything before and after that slice is whitespace |
| Text.StripEmpty | main.py:48-49 | trimming yields the empty text exactly when every character is whitespace |
| Text.StripIdempotent | main.py:48 | trimming twice is trimming once |
| Text.Utf16Length | main.py:73 | JavaScript `.length` is between the number of characters and twice that |
| Site.VideoUrl | main.py:78 | the entry URL is `https://vkvideo.ru` followed by the href unchanged |
| Site.VideoUrlInjective | main.py:78 | different hrefs give different URLs |
| Site.StartsWithConcat | main.py:78 | a URL built from the origin and an href starting `/video-` starts with `https://vkvideo.ru/video-` |
| Cards.FirstVideoLink | main.py:35-36 | the card's first href starting `/video-`, and none exactly when no href starts with it |
| Cards.VideoPathShape | main.py:39 | `/^\/video-\d+_\d+$/` accepts `/video-<owner>_<item>` exactly when both parts are non-empty digit runs |
| Cards.SplitAtSeparator | main.py:39 | an accepted path splits at its `_` into two non-empty digit runs |
| Cards.Origins | main.py:33-40 | the indices of the cards that produce entries: each a first occurrence of a well-shaped href, strictly ascending, and every first occurrence included |
| Cards.FirstOccurrencePrefix | main.py:33-40 | whether a card produces an entry depends only on the cards before it |
| Cards.Step | main.py:39-40 | after card `i` the `seen` set grows by its well-shaped href; card `i` produces an entry exactly when that href is well-shaped and not yet in `seen` |
| Cards.StepOrigins | main.py:39-40 | card `i` appends itself to the entries exactly when it is a first occurrence |
| Cards.StepSeen | main.py:40 | `seen` after card `i` is `seen` before it plus its well-shaped href |
| Cards.StepSeenShrinks | main.py:40 | `seen` never holds anything but well-shaped hrefs of visited cards |
| Cards.StepSeenGrows | main.py:40 | `seen` keeps every href added earlier and gains the current one |
| Cards.StepTest | main.py:39 | the test `seen.has(href) \|\| !href.match(...)` rejects exactly the cards that are not first occurrences |
| Cards.OriginsDistinctHrefs | main.py:39-40 | no two entries come from the same href |
| Cards.RepeatDropped | main.py:39 | a card repeating an earlier card's href produces no entry |
| Cards.OriginsCount | main.py:30-40 | the number of entries equals the number of distinct well-shaped hrefs |
| Cards.CardinalityStep | main.py:40 | adding an href to `seen` grows its size by one exactly when the href was not yet in it |
| CardScript.Usable | main.py:46-52 | a title or description step yields the trimmed text exactly when the element exists and that text is non-empty and not a duration |
| CardScript.TrimAll | main.py:68 | every descendant text trimmed, in order |
| CardScript.UsableOnly | main.py:69 | the filter keeps exactly the non-empty non-duration texts |
| CardScript.UsableOnlyAppend | main.py:69 | filtering a concatenation is the concatenation of the filtered parts, so the kept texts stay in their original order |
| CardScript.LongestIndex | main.py:73 | the `reduce` picks a text of greatest `.length`, and the last one among equals |
| CardScript.LongestCandidate | main.py:66-75 | the third step yields nothing exactly when no trimmed descendant text is usable; otherwise a usable text at least as long as every usable one, equal to the trimmed text of some descendant `i` with every usable text after `i` strictly shorter (the last of the longest) |
| CardScript.CandidatesSnoc | main.py:67-69 | one more descendant text appends its trimmed form to the candidates when it is usable and leaves them unchanged otherwise |
| CardScript.LongestOrigin | main.py:66-73 | the candidate the `reduce` picks is the trimmed text of some descendant, and every usable text after that descendant is strictly shorter |
| CardScript.LongestOriginExists | main.py:66-73 | such a descendant exists whenever there is a candidate |
| CardScript.OriginFirst | main.py:66-73 | when the previous texts gave no candidate, the new text is the pick |
| CardScript.OriginStep | main.py:66-73 | one more text keeps the earlier pick when it is unusable or strictly shorter, and becomes the pick otherwise |
| CardScript.LongestIndexSnoc | main.py:73 | the `reduce` over one more text keeps the earlier winner only when it is strictly longer than the new text |
| CardScript.LastLongestExtend | main.py:73 | a last-longest text stays last-longest when the text added after it is unusable or strictly shorter |
| CardScript.CandidatesComplete | main.py:67-69 | every usable trimmed descendant text is a candidate |
| CardScript.FirstSome | main.py:43-75 | the title is taken from the first step that yields one, after every earlier step yielded nothing |
| CardScript.FirstSomeOfThree | main.py:45-75 | with three steps, the first that yields wins |
| CardScript.TitleOf | main.py:43-79 | a card's title is never empty and never a duration |
| CardScript.UntitledNotTimestamp | main.py:79 | the placeholder "Untitled Video" is not a duration |
| CardScript.TitleFallback | main.py:45-79 | the description is used only when the title step failed, the descendant texts only when both failed, and the placeholder only when all three did |
| CardScript.PickTitle | main.py:43-75 | the step-by-step reassignment of `title` gives the title of the fallback chain |
| CardScript.Entries | main.py:77-80 | one `{url, title}` entry per first occurrence, in document order |
| CardScript.EntriesStep | main.py:77-80 | card `i` appends its entry exactly when it is a first occurrence |
| CardScript.ExtractVideos | main.py:27-82 | the entries are those of the first occurrences, in document order, with distinct URLs of the form `https://vkvideo.ru/video-<digits>_<digits>` and non-empty titles that are never durations |
| CardScript.EntriesWellFormed | main.py:38-80 | entry URLs are distinct and have the video-path shape |
| HrefScript.AtBeforeNewline | src/main.py:116 | `.*@` matches exactly when an `@` comes before any line break |
| HrefScript.ValidateVkUrl | src/main.py:102-121 | the URL is returned unchanged exactly when it matches `^https?://(www\.)?vk\.com/(video\|.*@.*)`; otherwise the error is "Invalid VK URL: " followed by the URL |
| HrefScript.AfterVkHostIff | src/main.py:116 | the scanner finds the part after scheme and host exactly when some scheme and host of the pattern prefix the URL |
| HrefScript.StartsWithAppend | src/main.py:116 | a URL starts with scheme+host exactly when it starts with the scheme and the rest starts with the host |
| HrefScript.SchemesDisjoint | src/main.py:116 | no URL starts with both `http://` and `https://` |
| HrefScript.HostsDisjoint | src/main.py:116 | no text starts with both `vk.com/` and `www.vk.com/` |
| HrefScript.RejectsVkvideoPage | src/main.py:116 | a vkvideo.ru listing page such as the built-in `goodstuff` ones is refused by the validator |
| HrefScript.AcceptsCommunityPage | src/main.py:116 | `https://vk.com/@club180058315` is accepted |
| HrefScript.AcceptsAnyVideoSuffix | src/main.py:116 | anything may follow `video`: the match is anchored only at the start |
| HrefScript.ExtractLinks | src/main.py:55-84 | one `{href, title}` per first occurrence of a well-shaped href, in document order, the title being the trimmed title text or empty |
| HrefScript.Hrefs | src/main.py:92 | the hrefs of the links, in order |
| HrefScript.PageHrefs | src/main.py:92 | a page's hrefs are those of its first occurrences, in order |
| HrefScript.PageHrefsProperties | src/main.py:59-95 | a page's hrefs are distinct, well-shaped, include every well-shaped href of the page, and number the distinct ones |
| HrefScript.EarliestWith | src/main.py:65 | the earliest card sharing a well-shaped href is a first occurrence |
| HrefScript.ExtractVideoLinks | src/main.py:40-100 | a page that could not be rendered has its error re-raised; otherwise the result is the page's hrefs |
| HrefScript.UrlsFor | src/main.py:142-145 | `goodstuff` means the two built-in URLs, otherwise the one given URL |
| HrefScript.PageOutcomes | src/main.py:149-151 | each URL's result, in order |
| HrefScript.RunMain | src/main.py:140-165 | `main` returns exactly when every page succeeded, and returns the pages' hrefs concatenated in order; otherwise it exits with status 1 |
| Batch.ConcatSnoc | src/app/extractor.py:103 | `extend` with one more page's list appends it to the concatenation |
| Batch.Values | src/app/extractor.py:99-105 | the successful results, one per page, in order |
| Batch.Gather | src/app/extractor.py:99-105 | a batch succeeds exactly when every page succeeds; a failure carries the error of the first failing page |
| Batch.FirstFailureShift | src/app/extractor.py:100-102 | the first failure of a batch led by a success is the first failure of the rest |
| Batch.GatherConcat | src/app/extractor.py:99-105 | a batch of successes is the concatenation of the pages' lists |
| Batch.GatherFirstFailure | src/app/extractor.py:99-105 | a batch whose first failure is page `k` fails with page `k`'s error |
| SoupExtractor.VideoAnchors | src/app/extractor.py:63 | every kept anchor has an href starting `/video-` |
| SoupExtractor.VideoAnchorsCount | src/app/extractor.py:63 | each matching anchor is kept as often as it occurs, every other anchor never |
| SoupExtractor.VideoAnchorsAppend | src/app/extractor.py:63 | the filter keeps document order across a concatenation |
| SoupExtractor.RepeatsKept | src/app/extractor.py:63-75 | a repeated matching anchor yields two entries: there is no de-duplication |
| SoupExtractor.LinkTextEmpty | src/app/extractor.py:65 | `get_text(strip=True)` is empty exactly when every string of the link is whitespace only |
| SoupExtractor.EntryOf | src/app/extractor.py:64-73 | the entry URL is `https://vkvideo.ru` plus the href; the title is the link text, or "Untitled Video" when that is empty, so never empty |
| SoupExtractor.PageVideos | src/app/extractor.py:62-73 | one entry per matching anchor, in document order |
| SoupExtractor.PageVideosWellFormed | src/app/extractor.py:63-73 | every entry URL starts with `https://vkvideo.ru/video-` and every title is non-empty |
| SoupExtractor.ExtractVideoLinks | src/app/extractor.py:54-84 | a page that could not be rendered has its error re-raised unchanged; otherwise the result is the page's entries |
| SoupExtractor.PageOutcomes | src/app/extractor.py:100-102 | each URL's result, in order |
| SoupExtractor.ExtractVideosFromUrls | src/app/extractor.py:86-105 | the pages' entries concatenated in URL order exactly when every page succeeded; otherwise the error of the first failing page |
| SoupExtractor.EmptyBatch | src/app/extractor.py:99-105 | no URLs give an empty list, not an error |
| Downloader.NormalizeFilename | src/app/downloader.py:27-28 | the file name ends with `.mp4`, starts with the given name, and is lengthened exactly when the name lacked `.mp4` |
| Downloader.NormalizeIdempotent | src/app/downloader.py:27-28 | normalising twice is normalising once |
| Downloader.SelectorChoice | src/app/downloader.py:26 | the low-resolution selector (first link) is used exactly when `low_res` is set; otherwise the last link |
| Downloader.JoinPath | src/app/downloader.py:29 | the path ends with the file name; an absolute name or an empty folder gives the name alone; otherwise the path starts with the folder, and a `/` is inserted exactly when the folder does not already end with one |
| Downloader.Plan | src/app/downloader.py:22-29 | the request keeps the URL, uses the chosen selector and the folder (the working directory when none or an empty one is given), and targets exactly the folder joined with the normalised `.mp4` name |
| Downloader.EndsWithTransitive | src/app/downloader.py:27-29 | a path ending with a name that ends with `.mp4` ends with `.mp4` |
| Downloader.DownloadVideo | src/app/downloader.py:22-102 | an existing target is returned without a download; otherwise the browser's success returns the target and its failure is raised |
| Downloader.ExistingFileShortCircuits | src/app/downloader.py:31-33 | when the target exists the result does not depend on the browser at all |
| Downloader.DownloadVideoAsWritten | src/app/downloader.py:47 | as written, an attempt that reaches the browser always fails, so nothing is ever downloaded |
| Downloader.ExamplePlan | src/app/downloader.py:23-29 | `clip` with no folder in working directory `/tmp` targets `/tmp/clip.mp4` |
| Downloader.ExampleName | src/app/downloader.py:27-28 | `clip` becomes `clip.mp4` |
| Downloader.ExampleJoin | src/app/downloader.py:29 | `/tmp` and `clip.mp4` join to `/tmp/clip.mp4` |
| Downloader.AsWrittenNeverDownloads | src/app/downloader.py:47 | for a new file the code as written fails with NameError where the intended flow downloads it |
| Downloader.Wanted | src/app/downloader.py:116-120 | the videos to download are exactly those not in `skip` |
| Downloader.WantedAppend | src/app/downloader.py:116-120 | selecting from a concatenation is the concatenation of the selections, so the wanted videos stay in their original order |
| Downloader.CallsFor | src/app/downloader.py:124-128 | each wanted video is requested with its URL and title, in order |
| Downloader.RunCallsWanted | src/app/downloader.py:116-131 | the calls made are a prefix of the wanted videos' calls, in order, one result each; all of them when the loop returns |
| Downloader.RunPassesIff | src/app/downloader.py:122-131 | the loop returns exactly when no call raised |
| Downloader.NoFailureCons | src/app/downloader.py:122-131 | results with one more success are failure-free exactly when the rest are |
| Downloader.StopsAtFailurePrepend | src/app/downloader.py:122-131 | a success before a trace that stops at its failure keeps that shape |
| Downloader.RunStopsAtFailure | src/app/downloader.py:129-131 | when the loop raises, the exception is the last call's and every earlier call succeeded |
| Downloader.SkippedNeverCalled | src/app/downloader.py:118-120 | a video in `skip` is never handed to `download_video` |
| Downloader.RunStep | src/app/downloader.py:116-131 | one iteration: skip, stop at a failure, or go on with the saved file counted as existing |
| Downloader.DownloadVideos | src/app/downloader.py:105-131 | the loop's trace is the specified one: no skipped video called, returns exactly when no call raised, and then every wanted video was called in order |

## Left out

- Browser automation is not modelled: Playwright sessions, navigation, `wait_for_selector`, timeouts, the user agent, the headless flag and `--noheadless`. A rendered page is an input, and rendering is the parameter `render`.
- HTML and DOM parsing are not modelled. A page is given as its `VideoCard` elements (the href of each descendant anchor, the title and description texts, every descendant's text) or as its `a` elements (href and text strings).
- Printing, logging and the `--list` switch change no result and are left out.
- Argument parsing is reduced to the parsed `Command`: argparse usage errors, the mutually exclusive group, and the `goodstuff` choice check are not modelled.
- The download itself is the parameter `browser`. Not modelled: the login check, `wait_for_element`, clicking the link, removing the player, watching `chrome://downloads/`, `save_as`, and the sleeps.
- Downloader.DownloadVideo: returns the path as a string rather than a `Path` object.
- Downloader.DownloadVideo: does not model the race where the file appears between the check and the save.
- Downloader.DownloadVideos: models `video.url`/`video.title` access on a `Video` record. Calling it with the dictionaries the extractors return would raise AttributeError; that is not modelled.
- Downloader.JoinPath: models `os.path.join` on POSIX only. Windows drive letters and backslashes are not modelled.
- The `os.path.expanduser` profile directory and the hard-coded extension path are not modelled; they do not affect any result.
- Text.Utf16Length: counts characters above U+FFFF as two code units. Strings holding lone surrogates cannot arise as Dafny `char` sequences.
- The caching layer, YAML/JSON export, settings, the factory, `cli_app.py`, `src/app/main.py`, `browser.py` and `downloader2.py` are not part of this model.

## Findings

| source | as written | input that shows it | evidently intended | confidence | as-written member | corrected member |
|---|---|---|---|---|---|---|
| src/app/downloader.py:47 | `context.set_default_timeout(settings.timeout_browser_sec * 1000)` reads `settings`, which the module never imports or defines, so every attempt that reaches the browser raises NameError. The `Settings` class of `src/app/settings.py` has no `timeout_browser_sec` field either | `download_video("https://vkvideo.ru/video-1_2", "clip")` in `/tmp` with no `/tmp/clip.mp4` present | the browser timeout is taken from the application settings and the download proceeds | high; not executed | Downloader.DownloadVideoAsWritten, Downloader.AsWrittenNeverDownloads | Downloader.DownloadVideo, Downloader.ExistingFileShortCircuits |
