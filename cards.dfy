/** Video cards as the in-page extraction scripts see them, and the selection
    both scripts make: the first `/video-` link of each card, kept when its path
    has the exact shape `/video-<digits>_<digits>` and was not kept before. */
module Cards {
  import opened Wrappers
  import opened Text

  /** The attribute selector `a[href^="/video-"]`. */
  const VideoLinkPrefix := "/video-"

  /** One element matching `[class*="VideoCard"]`, in document order. Nested
      parts such as `VideoCard__title` match that selector too and so are cards
      of their own, after the card that contains them.
      - anchorHrefs: `href` of every descendant `a` that has one, in document order;
      - titleText: `textContent` of the first `[class*="VideoCard__title"]`, if any;
      - descriptionText: `textContent` of the first `[class*="VideoCard__description"]`, if any;
      - descendantTexts: `textContent` of every descendant element, in document order. */
  datatype Card = Card(
    anchorHrefs: seq<string>,
    titleText: Option<string>,
    descriptionText: Option<string>,
    descendantTexts: seq<string>)

  predicate IsVideoLink(href: string)
  {
    StartsWith(href, VideoLinkPrefix)
  }

  /** `card.querySelector('a[href^="/video-"]')`: the first href with the prefix. */
  function FirstVideoLink(hrefs: seq<string>): (r: Option<string>)
    ensures r.None? <==> forall i :: 0 <= i < |hrefs| ==> !IsVideoLink(hrefs[i])
    ensures r.Some? ==>
      exists i :: 0 <= i < |hrefs| && hrefs[i] == r.value && IsVideoLink(r.value)
        && forall j :: 0 <= j < i ==> !IsVideoLink(hrefs[j])
  {
    if |hrefs| == 0 then None
    else if IsVideoLink(hrefs[0]) then Some(hrefs[0])
    else
      var r := FirstVideoLink(hrefs[1..]);
      if r.Some? then
        var i :| 0 <= i < |hrefs[1..]| && hrefs[1..][i] == r.value && IsVideoLink(r.value)
          && forall j :: 0 <= j < i ==> !IsVideoLink(hrefs[1..][j]);
        assert hrefs[i + 1] == r.value;
        r
      else r
  }

  /** The path test `/^\/video-\d+_\d+$/`. */
  predicate IsVideoPath(href: string)
  {
    IsVideoLink(href) && MatchesDigitsPair(href[|VideoLinkPrefix|..], '_')
  }

  /** The path test accepts exactly the paths `/video-<owner>_<item>` with two
      non-empty digit runs. */
  lemma VideoPathShape(owner: string, item: string)
    ensures IsVideoPath(VideoLinkPrefix + owner + "_" + item)
      <==> |owner| > 0 && |item| > 0 && AllDigits(owner) && AllDigits(item)
  {
    var h := VideoLinkPrefix + owner + "_" + item;
    var rest := owner + "_" + item;
    assert h[..|VideoLinkPrefix|] == VideoLinkPrefix;
    assert h[|VideoLinkPrefix|..] == rest;
    assert rest[..|owner|] == owner && rest[|owner| + 1..] == item && rest[|owner|] == '_';
    if |owner| > 0 && |item| > 0 && AllDigits(owner) && AllDigits(item) {
      DigitRunStopsAt(rest, |owner|);
    }
    if MatchesDigitsPair(rest, '_') {
      SplitAtSeparator(owner, item);
    }
  }

  lemma SplitAtSeparator(owner: string, item: string)
    requires MatchesDigitsPair(owner + "_" + item, '_')
    ensures |owner| > 0 && |item| > 0 && AllDigits(owner) && AllDigits(item)
  {
    var rest := owner + "_" + item;
    var n := DigitRun(rest);
    assert rest[|owner|] == '_';
    if n > |owner| {
      assert false;
    } else if n < |owner| {
      assert false;
    }
    assert rest[..n] == owner && rest[n + 1..] == item;
  }

  /** The href `card.querySelector('a[href^="/video-"]')` finds, if any. */
  function CardHref(card: Card): Option<string>
  {
    FirstVideoLink(card.anchorHrefs)
  }

  predicate HasVideoPath(card: Card)
  {
    CardHref(card).Some? && IsVideoPath(CardHref(card).value)
  }

  /** Card `i` produces an entry: its href has the video-path shape and no
      earlier card's href is the same. */
  predicate FirstOccurrence(cards: seq<Card>, i: int)
  {
    0 <= i < |cards| && HasVideoPath(cards[i])
    && forall j :: 0 <= j < i ==> CardHref(cards[j]) != CardHref(cards[i])
  }

  /** What the scripts' `seen` set holds after the given cards: every
      well-shaped href among them. */
  ghost function Seen(cards: seq<Card>): set<string>
  {
    set j | 0 <= j < |cards| && HasVideoPath(cards[j]) :: CardHref(cards[j]).value
  }

  /** Indices of the cards that produce entries, in document order: exactly the
      first occurrences, each once, ascending. */
  function Origins(cards: seq<Card>): (o: seq<nat>)
    ensures forall k :: 0 <= k < |o| ==> FirstOccurrence(cards, o[k])
    ensures forall k, l :: 0 <= k < l < |o| ==> o[k] < o[l]
    ensures forall i :: FirstOccurrence(cards, i) ==> i in o
  {
    if |cards| == 0 then []
    else
      var n := |cards| - 1;
      var prev := Origins(cards[..n]);
      FirstOccurrencePrefix(cards, n);
      prev + (if FirstOccurrence(cards, n) then [n] else [])
  }

  /** Whether a card is a first occurrence depends only on the cards before it. */
  lemma FirstOccurrencePrefix(cards: seq<Card>, m: nat)
    requires m <= |cards|
    ensures forall i :: 0 <= i < m ==> FirstOccurrence(cards[..m], i) == FirstOccurrence(cards, i)
  {
    forall i | 0 <= i < m
      ensures FirstOccurrence(cards[..m], i) == FirstOccurrence(cards, i)
    {
      assert forall j :: 0 <= j <= i ==> cards[..m][j] == cards[j];
    }
  }

  /** One step of the card loop: how `Origins` and `Seen` grow by card `i`, and
      that card `i` is a first occurrence exactly when its href passes the
      script's test `seen.has(href) || !href.match(...)`. */
  lemma Step(cards: seq<Card>, i: nat)
    requires i < |cards|
    ensures Origins(cards[..i + 1]) == Origins(cards[..i]) + (if FirstOccurrence(cards, i) then [i] else [])
    ensures Seen(cards[..i + 1]) == Seen(cards[..i]) + (if HasVideoPath(cards[i]) then {CardHref(cards[i]).value} else {})
    ensures FirstOccurrence(cards, i) <==> HasVideoPath(cards[i]) && CardHref(cards[i]).value !in Seen(cards[..i])
  {
    StepOrigins(cards, i);
    StepSeen(cards, i);
    StepTest(cards, i);
  }

  lemma StepOrigins(cards: seq<Card>, i: nat)
    requires i < |cards|
    ensures Origins(cards[..i + 1]) == Origins(cards[..i]) + (if FirstOccurrence(cards, i) then [i] else [])
  {
    var next := cards[..i + 1];
    assert next[..i] == cards[..i];
    FirstOccurrencePrefix(cards, i + 1);
  }

  lemma StepSeen(cards: seq<Card>, i: nat)
    requires i < |cards|
    ensures Seen(cards[..i + 1]) == Seen(cards[..i]) + (if HasVideoPath(cards[i]) then {CardHref(cards[i]).value} else {})
  {
    StepSeenShrinks(cards, i);
    StepSeenGrows(cards, i);
  }

  lemma StepSeenShrinks(cards: seq<Card>, i: nat)
    requires i < |cards|
    ensures Seen(cards[..i + 1]) <= Seen(cards[..i]) + (if HasVideoPath(cards[i]) then {CardHref(cards[i]).value} else {})
  {
    var pre, next := cards[..i], cards[..i + 1];
    forall h | h in Seen(next)
      ensures h in Seen(pre) + (if HasVideoPath(cards[i]) then {CardHref(cards[i]).value} else {})
    {
      var j :| 0 <= j < |next| && HasVideoPath(next[j]) && CardHref(next[j]).value == h;
      if j < i { assert HasVideoPath(pre[j]) && CardHref(pre[j]).value == h; }
    }
  }

  lemma StepSeenGrows(cards: seq<Card>, i: nat)
    requires i < |cards|
    ensures Seen(cards[..i]) + (if HasVideoPath(cards[i]) then {CardHref(cards[i]).value} else {}) <= Seen(cards[..i + 1])
  {
    var pre, next := cards[..i], cards[..i + 1];
    forall h | h in Seen(pre) ensures h in Seen(next) {
      var j :| 0 <= j < |pre| && HasVideoPath(pre[j]) && CardHref(pre[j]).value == h;
      assert next[j] == pre[j];
    }
    assert next[i] == cards[i];
  }

  lemma StepTest(cards: seq<Card>, i: nat)
    requires i < |cards|
    ensures FirstOccurrence(cards, i) <==> HasVideoPath(cards[i]) && CardHref(cards[i]).value !in Seen(cards[..i])
  {
    var pre := cards[..i];
    if HasVideoPath(cards[i]) {
      var h := CardHref(cards[i]).value;
      if h in Seen(pre) {
        var j :| 0 <= j < |pre| && HasVideoPath(pre[j]) && CardHref(pre[j]).value == h;
        assert CardHref(cards[j]) == CardHref(cards[i]);
      } else {
        forall j | 0 <= j < i ensures CardHref(cards[j]) != CardHref(cards[i]) {
          assert pre[j] == cards[j];
        }
      }
    }
  }

  /** No two entries come from the same href: de-duplication by href, first card wins. */
  lemma OriginsDistinctHrefs(cards: seq<Card>, k: nat, l: nat)
    requires k < l < |Origins(cards)|
    ensures CardHref(cards[Origins(cards)[k]]) != CardHref(cards[Origins(cards)[l]])
  {
    var o := Origins(cards);
    assert FirstOccurrence(cards, o[l]) && o[k] < o[l];
  }

  /** A card whose href repeats an earlier card's produces nothing, whatever its title. */
  lemma RepeatDropped(cards: seq<Card>, j: nat, i: nat)
    requires j < i < |cards| && CardHref(cards[j]) == CardHref(cards[i])
    ensures i !in Origins(cards)
  {
  }

  /** The number of entries is the number of distinct well-shaped hrefs. */
  lemma {:induction false} OriginsCount(cards: seq<Card>)
    ensures |Origins(cards)| == |Seen(cards)|
  {
    if |cards| > 0 {
      var n := |cards| - 1;
      OriginsCount(cards[..n]);
      Step(cards, n);
      assert cards[..n + 1] == cards;
      CardinalityStep(Seen(cards[..n]), Seen(cards), HasVideoPath(cards[n]),
                      if HasVideoPath(cards[n]) then CardHref(cards[n]).value else "");
    } else {
      assert Seen(cards) == {};
    }
  }

  /** Adding `h` to a set grows it by one exactly when `h` was not yet in it. */
  lemma CardinalityStep(s: set<string>, t: set<string>, added: bool, h: string)
    requires t == s + (if added then {h} else {})
    ensures |t| == |s| + (if added && h !in s then 1 else 0)
  {
    if added && h !in s {
      assert t == s + {h};
    } else {
      assert t == s;
    }
  }
}
