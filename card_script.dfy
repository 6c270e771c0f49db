/** The extraction script that `main.py` evaluates in the rendered page
    (`extract_video_links`): a walk over the video cards with a `seen` set,
    producing `{url, title}` entries with a three-step title fallback. */
module CardScript {
  import opened Wrappers
  import opened Text
  import opened Site
  import opened Cards

  /** A text a title step accepts: its trimmed form, when that is non-empty and
      not shaped like a duration `^\d+:\d+$`. */
  predicate IsUsableText(text: string)
  {
    text != "" && !IsTimestamp(text)
  }

  /** Steps 1 and 2: the trimmed `textContent` of the element, if present and usable. */
  function Usable(element: Option<string>): (r: Option<string>)
    ensures r.Some? <==> element.Some? && IsUsableText(JsTrim(element.value))
    ensures r.Some? ==> r.value == JsTrim(element.value)
  {
    match element
    case None => None
    case Some(raw) => var text := JsTrim(raw); if IsUsableText(text) then Some(text) else None
  }

  /** `texts.map(el => el.textContent.trim())`. */
  function TrimAll(texts: seq<string>): (r: seq<string>)
    ensures |r| == |texts| && forall i :: 0 <= i < |texts| ==> r[i] == JsTrim(texts[i])
  {
    seq(|texts|, i requires 0 <= i < |texts| => JsTrim(texts[i]))
  }

  /** `.filter(text => text && !text.match(/^\d+:\d+$/))`: the usable texts, in order. */
  function UsableOnly(texts: seq<string>): (r: seq<string>)
    ensures |r| <= |texts|
    ensures forall k :: 0 <= k < |r| ==> IsUsableText(r[k])
    ensures forall t :: t in r <==> t in texts && IsUsableText(t)
  {
    if |texts| == 0 then []
    else
      var rest := UsableOnly(texts[1..]);
      assert forall t :: t in texts <==> t == texts[0] || t in texts[1..];
      if IsUsableText(texts[0]) then [texts[0]] + rest else rest
  }

  /** Filtering distributes over concatenation, so the usable texts keep their
      relative order. */
  lemma {:induction false} UsableOnlyAppend(a: seq<string>, b: seq<string>)
    ensures UsableOnly(a + b) == UsableOnly(a) + UsableOnly(b)
    decreases |a|
  {
    if |a| == 0 {
      assert a + b == b;
    } else {
      assert (a + b)[0] == a[0];
      assert (a + b)[1..] == a[1..] + b;
      UsableOnlyAppend(a[1..], b);
    }
  }

  /** The descendant texts step 3 chooses from. */
  function Candidates(texts: seq<string>): seq<string>
  {
    UsableOnly(TrimAll(texts))
  }

  /** `texts.reduce((a, b) => a.length > b.length ? a : b)`: the index of a text
      of greatest JavaScript length, and of the last one when several tie,
      because `b` is kept unless `a` is strictly longer. */
  function LongestIndex(texts: seq<string>): (k: nat)
    requires |texts| > 0
    ensures k < |texts|
    ensures forall j :: 0 <= j < |texts| ==> Utf16Length(texts[j]) <= Utf16Length(texts[k])
    ensures forall j :: k < j < |texts| ==> Utf16Length(texts[j]) < Utf16Length(texts[k])
  {
    if |texts| == 1 then 0
    else
      var n := |texts| - 1;
      var a := LongestIndex(texts[..n]);
      assert texts[..n][a] == texts[a];
      if Utf16Length(texts[a]) > Utf16Length(texts[n]) then a else n
  }

  /** Step 3: the longest usable descendant text, if there is one. */
  function LongestCandidate(texts: seq<string>): (r: Option<string>)
    ensures r.None? <==> forall i :: 0 <= i < |texts| ==> !IsUsableText(JsTrim(texts[i]))
    ensures r.Some? ==> IsUsableText(r.value)
    ensures r.Some? ==>
      forall i :: 0 <= i < |texts| && IsUsableText(JsTrim(texts[i])) ==>
        Utf16Length(JsTrim(texts[i])) <= Utf16Length(r.value)
    ensures r.Some? ==> exists i: nat :: i < |texts| && LastLongestAt(texts, i, r.value)
  {
    var c := Candidates(texts);
    CandidatesComplete(texts);
    if |c| == 0 then None
    else
      LongestOriginExists(texts);
      Some(c[LongestIndex(c)])
  }

  /** One more descendant text adds its trimmed form at the end of the
      candidates when it is usable, and nothing otherwise. */
  lemma CandidatesSnoc(p: seq<string>, x: string)
    ensures Candidates(p + [x]) == Candidates(p) + (if IsUsableText(JsTrim(x)) then [JsTrim(x)] else [])
  {
    assert TrimAll(p + [x]) == TrimAll(p) + [JsTrim(x)];
    UsableOnlyAppend(TrimAll(p), [JsTrim(x)]);
    assert [JsTrim(x)][1..] == [];
  }

  /** Descendant text `i`, trimmed, is `t`, and every usable trimmed text after
      it is strictly shorter than `t`. */
  predicate LastLongestAt(texts: seq<string>, i: nat, t: string)
    requires i < |texts|
  {
    && t == JsTrim(texts[i])
    && forall j :: i < j < |texts| && IsUsableText(JsTrim(texts[j])) ==>
         Utf16Length(JsTrim(texts[j])) < Utf16Length(t)
  }

  /** The candidate the `reduce` picks is the trimmed form of some descendant
      text, and no usable text after that one is as long. */
  lemma {:induction false} LongestOrigin(texts: seq<string>) returns (i: nat)
    requires |Candidates(texts)| > 0
    ensures i < |texts| && LastLongestAt(texts, i, Candidates(texts)[LongestIndex(Candidates(texts))])
  {
    var n := |texts| - 1;
    var p := texts[..n];
    assert texts == p + [texts[n]];
    if |Candidates(p)| == 0 {
      i := OriginFirst(p, texts[n]);
    } else {
      var i0 := LongestOrigin(p);
      i := OriginStep(p, texts[n], i0);
    }
  }

  /** The first usable text is the pick so far. */
  lemma OriginFirst(p: seq<string>, x: string) returns (i: nat)
    requires |Candidates(p)| == 0 && |Candidates(p + [x])| > 0
    ensures i < |p| + 1
    ensures LastLongestAt(p + [x], i, Candidates(p + [x])[LongestIndex(Candidates(p + [x]))])
  {
    CandidatesSnoc(p, x);
    i := |p|;
    assert Candidates(p + [x]) == [JsTrim(x)];
    assert (p + [x])[i] == x;
  }

  /** One more text either leaves the pick where it was or, when it is usable
      and at least as long, becomes the pick. */
  lemma OriginStep(p: seq<string>, x: string, i0: nat) returns (i: nat)
    requires |Candidates(p)| > 0 && i0 < |p|
    requires LastLongestAt(p, i0, Candidates(p)[LongestIndex(Candidates(p))])
    ensures |Candidates(p + [x])| > 0 && i < |p| + 1
    ensures LastLongestAt(p + [x], i, Candidates(p + [x])[LongestIndex(Candidates(p + [x]))])
  {
    CandidatesSnoc(p, x);
    var cp := Candidates(p);
    var t := cp[LongestIndex(cp)];
    var y := JsTrim(x);
    if !IsUsableText(y) {
      assert cp + [] == cp;
      i := i0;
      LastLongestExtend(p, x, i0, t);
    } else {
      LongestIndexSnoc(cp, y);
      if Utf16Length(t) > Utf16Length(y) {
        i := i0;
        LastLongestExtend(p, x, i0, t);
      } else {
        i := |p|;
        assert (p + [x])[i] == x;
      }
    }
  }

  /** The `reduce` over one more text keeps the earlier winner only when it is
      strictly longer than the new text. */
  lemma LongestIndexSnoc(c: seq<string>, y: string)
    requires |c| > 0
    ensures (c + [y])[LongestIndex(c + [y])]
         == if Utf16Length(c[LongestIndex(c)]) > Utf16Length(y) then c[LongestIndex(c)] else y
  {
    assert (c + [y])[..|c|] == c;
  }

  /** The same, as the existence of such a text. */
  lemma LongestOriginExists(texts: seq<string>)
    requires |Candidates(texts)| > 0
    ensures exists i: nat :: i < |texts| && LastLongestAt(texts, i, Candidates(texts)[LongestIndex(Candidates(texts))])
  {
    var i := LongestOrigin(texts);
  }

  /** A text that is last-longest in a prefix stays so when the one text added
      after it is unusable or strictly shorter. */
  lemma LastLongestExtend(p: seq<string>, x: string, i: nat, t: string)
    requires i < |p| && LastLongestAt(p, i, t)
    requires IsUsableText(JsTrim(x)) ==> Utf16Length(JsTrim(x)) < Utf16Length(t)
    ensures LastLongestAt(p + [x], i, t)
  {
    var texts := p + [x];
    assert texts[i] == p[i];
    forall j | i < j < |texts| && IsUsableText(JsTrim(texts[j]))
      ensures Utf16Length(JsTrim(texts[j])) < Utf16Length(t)
    {
      if j < |p| {
        assert texts[j] == p[j];
      } else {
        assert texts[j] == x;
      }
    }
  }

  /** Every usable trimmed text is among the candidates. */
  lemma CandidatesComplete(texts: seq<string>)
    ensures forall i :: 0 <= i < |texts| && IsUsableText(JsTrim(texts[i])) ==> JsTrim(texts[i]) in Candidates(texts)
  {
    var trimmed := TrimAll(texts);
    forall i | 0 <= i < |texts| && IsUsableText(JsTrim(texts[i]))
      ensures JsTrim(texts[i]) in Candidates(texts)
    {
      assert trimmed[i] in trimmed;
    }
  }

  /** The title steps in the order the script tries them. */
  function Steps(card: Card): seq<Option<string>>
  {
    [Usable(card.titleText), Usable(card.descriptionText), LongestCandidate(card.descendantTexts)]
  }

  /** The first step that produced something: every earlier step produced nothing. */
  function FirstSome(steps: seq<Option<string>>): (r: Option<string>)
    ensures r.None? <==> forall i :: 0 <= i < |steps| ==> steps[i].None?
    ensures r.Some? ==>
      exists i :: 0 <= i < |steps| && steps[i] == r && forall j :: 0 <= j < i ==> steps[j].None?
  {
    if |steps| == 0 then None
    else if steps[0].Some? then steps[0]
    else
      var r := FirstSome(steps[1..]);
      if r.Some? then
        var i :| 0 <= i < |steps[1..]| && steps[1..][i] == r && forall j :: 0 <= j < i ==> steps[1..][j].None?;
        assert steps[i + 1] == r;
        r
      else r
  }

  /** The title of a card: the first step's result, or "Untitled Video". */
  function TitleOf(card: Card): (t: string)
    ensures t != "" && !IsTimestamp(t)
  {
    FirstSomeOfThree(Usable(card.titleText), Usable(card.descriptionText), LongestCandidate(card.descendantTexts));
    match FirstSome(Steps(card))
    case Some(t) => t
    case None => UntitledNotTimestamp(); Untitled
  }

  lemma UntitledNotTimestamp()
    ensures !IsTimestamp(Untitled)
  {
    assert DigitRun(Untitled) == 0;
  }

  /** The fallback order: the description is used only when the title element
      gave nothing usable, the descendant texts only when neither did, and the
      placeholder only when no step produced a text. */
  lemma TitleFallback(card: Card)
    ensures Usable(card.titleText).Some? ==> TitleOf(card) == Usable(card.titleText).value
    ensures Usable(card.titleText).None? && Usable(card.descriptionText).Some? ==>
      TitleOf(card) == Usable(card.descriptionText).value
    ensures (Usable(card.titleText).None? && Usable(card.descriptionText).None?
             && LongestCandidate(card.descendantTexts).Some?) ==>
      TitleOf(card) == LongestCandidate(card.descendantTexts).value
    ensures (forall i :: 0 <= i < |Steps(card)| ==> Steps(card)[i].None?) ==> TitleOf(card) == Untitled
  {
    FirstSomeOfThree(Usable(card.titleText), Usable(card.descriptionText), LongestCandidate(card.descendantTexts));
  }

  lemma FirstSomeOfThree(a: Option<string>, b: Option<string>, c: Option<string>)
    ensures FirstSome([a, b, c]) == if a.Some? then a else if b.Some? then b else c
  {
    assert [c][1..] == [];
    assert FirstSome([c]) == c;
    assert [b, c][1..] == [c];
    assert FirstSome([b, c]) == if b.Some? then b else c;
    assert [a, b, c][1..] == [b, c];
  }

  /** The title chosen for the card, step by step as the script reassigns
      `title`; the result is the one `TitleOf` describes. */
  method PickTitle(card: Card) returns (title: string)
    ensures title == TitleOf(card)
  {
    TitleFallback(card);
    title := "";
    if card.titleText.Some? {
      var text := JsTrim(card.titleText.value);
      if text != "" && !IsTimestamp(text) {
        title := text;
      }
    }
    assert title == if Usable(card.titleText).Some? then Usable(card.titleText).value else "";
    if title == "" && card.descriptionText.Some? {
      var text := JsTrim(card.descriptionText.value);
      if text != "" && !IsTimestamp(text) {
        title := text;
      }
    }
    assert title == if Usable(card.titleText).Some? then Usable(card.titleText).value
      else if Usable(card.descriptionText).Some? then Usable(card.descriptionText).value
      else "";
    if title == "" {
      var texts := Candidates(card.descendantTexts);
      if |texts| > 0 {
        title := texts[LongestIndex(texts)];
      }
    }
    if title == "" {
      title := Untitled;
    }
  }

  /** The entry a kept card produces. */
  function EntryOf(card: Card): Video
    requires HasVideoPath(card)
  {
    Video(VideoUrl(CardHref(card).value), TitleOf(card))
  }

  /** The entries of the kept cards, in document order. */
  function Entries(cards: seq<Card>): (r: seq<Video>)
    ensures |r| == |Origins(cards)|
    ensures forall k :: 0 <= k < |r| ==> r[k] == EntryOf(cards[Origins(cards)[k]])
  {
    var o := Origins(cards);
    seq(|o|, k requires 0 <= k < |o| => EntryOf(cards[o[k]]))
  }

  /** Card `i` adds its entry exactly when it is a first occurrence. */
  lemma EntriesStep(cards: seq<Card>, i: nat)
    requires i < |cards|
    ensures Entries(cards[..i + 1])
         == Entries(cards[..i]) + (if FirstOccurrence(cards, i) then [EntryOf(cards[i])] else [])
  {
    Step(cards, i);
    var pre, next := cards[..i], cards[..i + 1];
    var o := Origins(pre);
    var extra := if FirstOccurrence(cards, i) then [EntryOf(cards[i])] else [];
    var lhs, rhs := Entries(next), Entries(pre) + extra;
    assert |lhs| == |rhs|;
    forall k | 0 <= k < |lhs| ensures lhs[k] == rhs[k] {
      if k < |o| {
        assert Origins(next)[k] == o[k];
        assert next[o[k]] == pre[o[k]];
      }
    }
  }

  /** The card loop: entries for exactly the first occurrences of well-shaped
      hrefs, in document order, with distinct URLs of the form
      `https://vkvideo.ru/video-<digits>_<digits>` and non-empty titles that are
      never a duration. */
  method ExtractVideos(cards: seq<Card>) returns (videos: seq<Video>)
    ensures |videos| == |Origins(cards)|
    ensures forall k :: 0 <= k < |videos| ==> videos[k] == EntryOf(cards[Origins(cards)[k]])
    ensures forall k, l :: 0 <= k < l < |videos| ==> videos[k].url != videos[l].url
    ensures forall k :: 0 <= k < |videos| ==>
      StartsWith(videos[k].url, Origin + VideoLinkPrefix)
      && IsVideoPath(videos[k].url[|Origin|..])
      && videos[k].title != "" && !IsTimestamp(videos[k].title)
  {
    videos := [];
    var seen: set<string> := {};
    for i := 0 to |cards|
      invariant seen == Seen(cards[..i])
      invariant videos == Entries(cards[..i])
    {
      Step(cards, i);
      EntriesStep(cards, i);
      var link := FirstVideoLink(cards[i].anchorHrefs);
      if link.None? {
        continue;
      }
      var href := link.value;
      if href in seen || !IsVideoPath(href) {
        continue;
      }
      seen := seen + {href};
      var title := PickTitle(cards[i]);
      videos := videos + [Video(VideoUrl(href), title)];
    }
    assert cards[..|cards|] == cards;
    EntriesWellFormed(cards);
  }

  lemma EntriesWellFormed(cards: seq<Card>)
    ensures forall k, l :: 0 <= k < l < |Origins(cards)| ==>
      EntryOf(cards[Origins(cards)[k]]).url != EntryOf(cards[Origins(cards)[l]]).url
    ensures forall k :: 0 <= k < |Origins(cards)| ==>
      var e := EntryOf(cards[Origins(cards)[k]]);
      StartsWith(e.url, Origin + VideoLinkPrefix) && IsVideoPath(e.url[|Origin|..])
  {
    var o := Origins(cards);
    forall k, l | 0 <= k < l < |o|
      ensures EntryOf(cards[o[k]]).url != EntryOf(cards[o[l]]).url
    {
      OriginsDistinctHrefs(cards, k, l);
      if EntryOf(cards[o[k]]).url == EntryOf(cards[o[l]]).url {
        VideoUrlInjective(CardHref(cards[o[k]]).value, CardHref(cards[o[l]]).value);
      }
    }
    forall k | 0 <= k < |o|
      ensures var e := EntryOf(cards[o[k]]);
        StartsWith(e.url, Origin + VideoLinkPrefix) && IsVideoPath(e.url[|Origin|..])
    {
      StartsWithConcat(Origin, CardHref(cards[o[k]]).value, VideoLinkPrefix);
    }
  }
}
