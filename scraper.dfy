/** `TweetScraper.search_and_scrape`: the search URL, the harvest of one
    scroll step, and the scroll loop that stops after four steps without
    new tweets or after `SCROLL_LIMIT` steps. */
module Scraper {
  import opened Text
  import opened Page
  import opened Item
  import opened Engagement
  import opened Entities

  /** The hashtags `run_pipeline` searches, in order. */
  const Hashtags: seq<string> := [
    "#nifty", "#nifty50", "#niftyanalysis", "#banknifty", "#sensex", "#indianstockmarket",
    "#stockmarketindia", "#niftylevels", "#bankniftylevels",
    "#nse", "#bse", "#intraday", "#intradaytrading", "#optionbuying", "#optionselling"]

  const ScrollLimit := 50

  /** Consecutive steps without a new tweet after which the loop stops. */
  const MaxIdleScrolls := 4

  // ---------------------------------------------------------------------
  // The search URL

  /** The query: the tag with its spaces removed and the date range. The
      part before the range has no space and every other character of
      the tag. */
  function SearchQuery(tag: string, startDate: string, today: string): (q: string)
    ensures var range := " since:" + startDate + " until:" + today;
      && |range| <= |q| && q[|q| - |range|..] == range
      && ' ' !in q[..|q| - |range|]
      && forall x :: x != ' ' ==> (x in q[..|q| - |range|] <==> x in tag)
    ensures q[..|q| - |" since:" + startDate + " until:" + today|] == ReplaceChar(tag, ' ', "")
    ensures ' ' !in tag ==> q == tag + " since:" + startDate + " until:" + today
  {
    var clean := ReplaceChar(tag, ' ', "");
    assert ' ' !in tag ==> clean == tag by {
      if ' ' !in tag { ReplaceCharAbsent(tag, ' ', ""); }
    }
    var q := clean + " since:" + startDate + " until:" + today;
    assert q[..|clean|] == clean;
    q
  }

  /** The three chained `replace` calls: '#', ':' and ' ' in turn. */
  function Encode(q: string): (r: string)
    ensures '#' !in r && ':' !in r && ' ' !in r
  {
    ReplaceChar(ReplaceChar(ReplaceChar(q, '#', "%23"), ':', "%3A"), ' ', "%20")
  }

  function SearchUrl(tag: string, startDate: string, today: string): string
  {
    "https://x.com/search?q=" + Encode(SearchQuery(tag, startDate, today)) + "&src=typed_query&f=live"
  }

  /** What the chained replaces do to one character. */
  function EncodeChar(c: char): string
  {
    if c == '#' then "%23" else if c == ':' then "%3A" else if c == ' ' then "%20" else [c]
  }

  /** Percent-decoding of the three escapes `Encode` writes. */
  function Decode(s: string): string
    decreases |s|
  {
    if |s| >= 3 && s[0] == '%' && s[1] == '2' && s[2] == '3' then "#" + Decode(s[3..])
    else if |s| >= 3 && s[0] == '%' && s[1] == '3' && s[2] == 'A' then ":" + Decode(s[3..])
    else if |s| >= 3 && s[0] == '%' && s[1] == '2' && s[2] == '0' then " " + Decode(s[3..])
    else if s == [] then []
    else [s[0]] + Decode(s[1..])
  }

  /** The chained replaces work character by character: none of the
      escapes holds a character a later replace looks for. */
  lemma EncodeCons(c: char, rest: string)
    ensures Encode([c] + rest) == EncodeChar(c) + Encode(rest)
  {
    var a1 := if c == '#' then "%23" else [c];
    assert ReplaceChar([c] + rest, '#', "%23") == a1 + ReplaceChar(rest, '#', "%23") by {
      assert ([c] + rest)[1..] == rest;
    }
    var r1 := ReplaceChar(rest, '#', "%23");
    ReplaceCharAppend(a1, r1, ':', "%3A");
    var a2 := ReplaceChar(a1, ':', "%3A");
    var r2 := ReplaceChar(r1, ':', "%3A");
    ReplaceCharAppend(a2, r2, ' ', "%20");
    ReplaceCharOfLiteral(c);
  }

  /** The escapes and a single character under the later replaces. */
  lemma ReplaceCharOfLiteral(c: char)
    ensures var a1 := if c == '#' then "%23" else [c];
            ReplaceChar(ReplaceChar(a1, ':', "%3A"), ' ', "%20") == EncodeChar(c)
  {
    if c == '#' {
      ReplaceCharAbsent("%23", ':', "%3A");
      ReplaceCharAbsent("%23", ' ', "%20");
    } else {
      ReplaceCharSingle(c, ':', "%3A");
      if c == ':' {
        ReplaceCharAbsent("%3A", ' ', "%20");
      } else {
        ReplaceCharSingle(c, ' ', "%20");
      }
    }
  }

  /** Decoding takes back what `Encode` wrote, provided the query held no '%'. */
  lemma {:induction false} DecodeEncode(q: string)
    requires '%' !in q
    ensures Decode(Encode(q)) == q
    decreases |q|
  {
    if q != [] {
      var c, rest := q[0], q[1..];
      assert q == [c] + rest;
      EncodeCons(c, rest);
      DecodeEncode(rest);
      var e := EncodeChar(c) + Encode(rest);
      if c == '#' || c == ':' || c == ' ' {
        assert e[3..] == Encode(rest);
      } else {
        assert e[1..] == Encode(rest);
      }
    } else {
      assert Encode(q) == [];
    }
  }

  // ---------------------------------------------------------------------
  // The harvest of one scroll step

  /** The contents of a list of records. */
  function Contents(ts: seq<Tweet>): (r: set<string>)
    ensures forall k :: 0 <= k < |ts| ==> ts[k].content in r
  {
    if ts == [] then {}
    else
      var r := Contents(ts[..|ts| - 1]);
      assert forall k :: 0 <= k < |ts| - 1 ==> ts[..|ts| - 1][k] == ts[k];
      r + {ts[|ts| - 1].content}
  }

  /** A content is in the set exactly when some record carries it. */
  lemma {:induction false} ContentsMember(ts: seq<Tweet>, x: string)
    ensures x in Contents(ts) <==> exists k :: 0 <= k < |ts| && ts[k].content == x
  {
    if ts != [] {
      var init := ts[..|ts| - 1];
      ContentsMember(init, x);
      if x in Contents(init) {
        var k :| 0 <= k < |init| && init[k].content == x;
        assert ts[k].content == x;
      }
    }
  }

  /** No two records have equal content. */
  predicate DistinctContents(ts: seq<Tweet>)
  {
    forall i, j :: 0 <= i < j < |ts| ==> ts[i].content != ts[j].content
  }

  /** What every record of a search for `tag` satisfies. */
  predicate IsRecord(t: Tweet, tag: string)
  {
    && |t.content| >= MinContentLength
    && t.searchedTag == tag
    && t.numHashtags == |t.hashtags|
    && t.numMentions == |t.mentions|
    && t.engagement.Keys == MetricKeys
  }

  /** An element whose content the loop keeps, unless already seen: a
      content was found and has at least five characters. */
  predicate Accepted(e: Element)
  {
    Content(e).Some? && |Content(e).value| >= MinContentLength
  }

  /** One element of a step: the record it yields, or None when it has no
      content, the content is shorter than five characters, or an equal
      content was seen before. */
  function Visit(e: Element, tag: string, seen: set<string>): (t: Option<Tweet>)
    ensures t.Some? ==> Content(e) == Some(t.value.content) && t.value.content !in seen && IsRecord(t.value, tag)
    ensures t.Some? <==> Accepted(e) && Content(e).value !in seen
  {
    if Accepted(e) && Content(e).value !in seen then Some(MakeTweet(e, Content(e).value, tag))
    else None
  }

  /** How one visible element is read, given the contents seen so far.
      The loop below is stated for any reader; `ReadFor(tag)` is the one
      `search_and_scrape` uses. */
  type Reader = (Element, set<string>) -> Option<Tweet>

  function ReadFor(tag: string): Reader
  {
    (e: Element, seen: set<string>) => Visit(e, tag, seen)
  }

  /** A reader yields only records of `tag` carrying the element's own
      content, not seen yet. */
  ghost predicate ReadsRecords(read: Reader, tag: string)
  {
    forall e, seen :: read(e, seen).Some? ==>
      && Content(e) == Some(read(e, seen).value.content)
      && read(e, seen).value.content !in seen && IsRecord(read(e, seen).value, tag)
  }

  /** A reader yields a record for every accepted element not seen yet,
      with the element's content. */
  ghost predicate ReadsAccepted(read: Reader)
  {
    forall e, seen :: Accepted(e) && Content(e).value !in seen ==>
      read(e, seen).Some? && read(e, seen).value.content == Content(e).value
  }

  /** The reader of `search_and_scrape` has both properties. */
  lemma ReadForSpec(tag: string)
    ensures ReadsRecords(ReadFor(tag), tag)
    ensures ReadsAccepted(ReadFor(tag))
  {
    var read := ReadFor(tag);
    forall e, seen ensures read(e, seen) == Visit(e, tag, seen) {
    }
  }

  datatype Harvested = Harvested(added: seq<Tweet>, seen: set<string>)

  /** The inner loop over the elements of one step: the records added and
      the contents seen afterwards. */
  function Harvest(read: Reader, elements: seq<Element>, seen: set<string>): (h: Harvested)
    ensures |h.added| <= |elements|
  {
    if elements == [] then Harvested([], seen)
    else
      var h := Harvest(read, elements[..|elements| - 1], seen);
      match read(elements[|elements| - 1], h.seen)
      case None => h
      case Some(t) => Harvested(h.added + [t], h.seen + {t.content})
  }

  /** What a step adds: records of this tag, none with a content seen
      before or with one another, and `seen` grows by exactly their
      contents. */
  lemma {:induction false} HarvestSound(read: Reader, tag: string, elements: seq<Element>, seen: set<string>)
    requires ReadsRecords(read, tag)
    ensures var h := Harvest(read, elements, seen);
      && h.seen == seen + Contents(h.added)
      && (forall k :: 0 <= k < |h.added| ==> h.added[k].content !in seen && IsRecord(h.added[k], tag))
      && DistinctContents(h.added)
  {
    if elements != [] {
      var init := elements[..|elements| - 1];
      HarvestSound(read, tag, init, seen);
      var h := Harvest(read, init, seen);
      var v := read(elements[|elements| - 1], h.seen);
      if v.Some? {
        ContentsAppend(h.added, v.value);
        assert v.value.content !in Contents(h.added);
      }
    }
  }

  /** Some element of the list has content `c`. */
  predicate Shows(elements: seq<Element>, c: string)
  {
    exists j :: 0 <= j < |elements| && Content(elements[j]) == Some(c)
  }

  /** Every record a step adds carries the content of one of its elements. */
  lemma {:induction false} HarvestFromElements(read: Reader, tag: string, elements: seq<Element>, seen: set<string>)
    requires ReadsRecords(read, tag)
    ensures forall k :: 0 <= k < |Harvest(read, elements, seen).added| ==>
      Shows(elements, Harvest(read, elements, seen).added[k].content)
  {
    if elements != [] {
      var init := elements[..|elements| - 1];
      HarvestFromElements(read, tag, init, seen);
      var h := Harvest(read, init, seen);
      var h' := Harvest(read, elements, seen);
      forall k | 0 <= k < |h'.added|
        ensures Shows(elements, h'.added[k].content)
      {
        if k < |h.added| {
          assert h'.added[k] == h.added[k];
          var j :| 0 <= j < |init| && Content(init[j]) == Some(h.added[k].content);
          assert elements[j] == init[j];
        } else {
          assert Content(elements[|elements| - 1]) == Some(h'.added[k].content);
        }
      }
    }
  }

  /** `seen` only grows. */
  lemma {:induction false} HarvestSeenGrows(read: Reader, elements: seq<Element>, seen: set<string>)
    ensures seen <= Harvest(read, elements, seen).seen
  {
    if elements != [] {
      HarvestSeenGrows(read, elements[..|elements| - 1], seen);
    }
  }

  /** No accepted element is lost: its content is recorded, by this
      element or by an earlier one with equal content. */
  lemma {:induction false} HarvestComplete(read: Reader, elements: seq<Element>, seen: set<string>, k: nat)
    requires ReadsAccepted(read)
    requires k < |elements| && Accepted(elements[k])
    ensures Content(elements[k]).value in Harvest(read, elements, seen).seen
  {
    var init := elements[..|elements| - 1];
    var h := Harvest(read, init, seen);
    if k < |init| {
      assert init[k] == elements[k];
      HarvestComplete(read, init, seen, k);
    } else {
      HarvestSeenGrows(read, init, seen);
    }
  }

  lemma ContentsAppend(ts: seq<Tweet>, t: Tweet)
    ensures Contents(ts + [t]) == Contents(ts) + {t.content}
  {
    assert (ts + [t])[..|ts|] == ts;
  }

  // ---------------------------------------------------------------------
  // The scroll loop

  /** The loop's state after some iterations: the records, the contents
      seen, the counter of consecutive idle steps, the number added at
      each step run so far, and whether the loop has stopped early. */
  datatype ScrollState = ScrollState(
    tweets: seq<Tweet>, seen: set<string>, noNew: nat, gains: seq<nat>, stopped: bool)

  /** The elements `get_tweet_elements` returns at each step of a page. */
  function Shown(page: seq<Frame>): (views: seq<seq<Element>>)
    ensures |views| == |page|
    ensures forall i :: 0 <= i < |page| ==> views[i] == FirstNonEmpty(page[i], TweetSelectors)
  {
    seq(|page|, i requires 0 <= i < |page| => FirstNonEmpty(page[i], TweetSelectors))
  }

  /** The elements visible at scroll step `i`; past the supplied steps
      nothing is visible. */
  function ElementsAt(views: seq<seq<Element>>, i: nat): seq<Element>
  {
    if i < |views| then views[i] else []
  }

  /** One iteration: harvest the visible elements, then reset or advance
      the idle counter and stop when it reaches four. */
  function Step(read: Reader, st: ScrollState, elements: seq<Element>): ScrollState
  {
    var h := Harvest(read, elements, st.seen);
    var noNew := if |h.added| == 0 then st.noNew + 1 else 0;
    ScrollState(st.tweets + h.added, h.seen, noNew, st.gains + [|h.added|], noNew >= MaxIdleScrolls)
  }

  /** An iteration of `for scroll_i in range(...)`: after the early stop
      it changes nothing. */
  function Next(read: Reader, st: ScrollState, elements: seq<Element>): ScrollState
  {
    if st.stopped then st else Step(read, st, elements)
  }

  /** The state after `n` iterations over the element lists `views`. */
  function Scroll(read: Reader, views: seq<seq<Element>>, n: nat): ScrollState
  {
    if n == 0 then ScrollState([], {}, 0, [], false)
    else Next(read, Scroll(read, views, n - 1), ElementsAt(views, n - 1))
  }

  function Sum(g: seq<nat>): nat
  {
    if g == [] then 0 else Sum(g[..|g| - 1]) + g[|g| - 1]
  }

  /** The number of zeros at the end of `g`. */
  function TrailingZeros(g: seq<nat>): (z: nat)
    ensures z <= |g|
    ensures forall k :: |g| - z <= k < |g| ==> g[k] == 0
    ensures z < |g| ==> g[|g| - 1 - z] != 0
  {
    if g == [] || g[|g| - 1] != 0 then 0
    else
      var g' := g[..|g| - 1];
      var z' := TrailingZeros(g');
      assert forall k :: 0 <= k < |g'| ==> g'[k] == g[k];
      1 + z'
  }

  lemma TrailingZerosAppend(g: seq<nat>, x: nat)
    ensures TrailingZeros(g + [x]) == if x == 0 then TrailingZeros(g) + 1 else 0
    ensures Sum(g + [x]) == Sum(g) + x
  {
    assert (g + [x])[..|g|] == g;
  }

  /** The counter of a state after `n` iterations is the number of idle
      steps at the end of the run; the loop has stopped exactly when it
      reached four; without the early stop all `n` iterations took place. */
  predicate Counted(st: ScrollState, n: nat)
  {
    && st.noNew == TrailingZeros(st.gains)
    && (st.stopped <==> st.noNew >= MaxIdleScrolls)
    && st.noNew <= MaxIdleScrolls
    && |st.gains| <= n
    && (!st.stopped ==> |st.gains| == n)
  }

  lemma NextCounted(read: Reader, st: ScrollState, elements: seq<Element>, n: nat)
    requires Counted(st, n)
    ensures Counted(Next(read, st, elements), n + 1)
  {
    if !st.stopped {
      TrailingZerosAppend(st.gains, |Harvest(read, elements, st.seen).added|);
    }
  }

  lemma {:induction false} ScrollCounter(read: Reader, views: seq<seq<Element>>, n: nat)
    ensures Counted(Scroll(read, views, n), n)
  {
    if n > 0 {
      ScrollCounter(read, views, n - 1);
      NextCounted(read, Scroll(read, views, n - 1), ElementsAt(views, n - 1), n - 1);
    }
  }

  /** No proper prefix of the step gains ends in four idle steps. */
  predicate NoEarlyStop(g: seq<nat>)
  {
    forall m :: 0 <= m < |g| ==> TrailingZeros(g[..m]) < MaxIdleScrolls
  }

  lemma NextNoEarlyStop(read: Reader, st: ScrollState, elements: seq<Element>, n: nat)
    requires Counted(st, n) && NoEarlyStop(st.gains)
    ensures NoEarlyStop(Next(read, st, elements).gains)
  {
    if !st.stopped {
      var g := Next(read, st, elements).gains;
      assert forall m :: 0 <= m <= |st.gains| ==> g[..m] == st.gains[..m];
      assert st.gains[..|st.gains|] == st.gains;
    }
  }

  /** The loop did not stop earlier than it did. */
  lemma {:induction false} ScrollNoEarlyStop(read: Reader, views: seq<seq<Element>>, n: nat)
    ensures NoEarlyStop(Scroll(read, views, n).gains)
  {
    if n > 0 {
      ScrollNoEarlyStop(read, views, n - 1);
      ScrollCounter(read, views, n - 1);
      NextNoEarlyStop(read, Scroll(read, views, n - 1), ElementsAt(views, n - 1), n - 1);
    }
  }

  /** Once stopped, the state stays as it is. */
  lemma {:induction false} ScrollStoppedFixed(read: Reader, views: seq<seq<Element>>, m: nat, n: nat)
    requires m <= n
    requires Scroll(read, views, m).stopped
    ensures Scroll(read, views, n) == Scroll(read, views, m)
    decreases n - m
  {
    if m < n {
      ScrollStoppedFixed(read, views, m, n - 1);
    }
  }

  /** The records of a run: no two with equal content, every one a record
      of this tag with at least five characters of content, `seen` holding
      exactly their contents, and as many as the steps added in all. */
  predicate ValidRun(st: ScrollState, tag: string)
  {
    && st.seen == Contents(st.tweets)
    && DistinctContents(st.tweets)
    && (forall k :: 0 <= k < |st.tweets| ==> IsRecord(st.tweets[k], tag))
    && |st.tweets| == Sum(st.gains)
  }

  lemma NextValid(read: Reader, tag: string, st: ScrollState, elements: seq<Element>)
    requires ReadsRecords(read, tag)
    requires ValidRun(st, tag)
    ensures ValidRun(Next(read, st, elements), tag)
  {
    if !st.stopped {
      var h := Harvest(read, elements, st.seen);
      HarvestSound(read, tag, elements, st.seen);
      TrailingZerosAppend(st.gains, |h.added|);
      ContentsConcat(st.tweets, h.added);
      DistinctConcat(st.tweets, h.added);
    }
  }

  lemma {:induction false} ScrollValid(read: Reader, tag: string, views: seq<seq<Element>>, n: nat)
    requires ReadsRecords(read, tag)
    ensures ValidRun(Scroll(read, views, n), tag)
  {
    if n > 0 {
      ScrollValid(read, tag, views, n - 1);
      NextValid(read, tag, Scroll(read, views, n - 1), ElementsAt(views, n - 1));
    }
  }

  lemma {:induction false} ContentsConcat(a: seq<Tweet>, b: seq<Tweet>)
    ensures Contents(a + b) == Contents(a) + Contents(b)
    decreases |b|
  {
    if b == [] {
      assert a + b == a;
    } else {
      var b' := b[..|b| - 1];
      ContentsConcat(a, b');
      assert a + b == (a + b') + [b[|b| - 1]];
      ContentsAppend(a + b', b[|b| - 1]);
      ContentsAppend(b', b[|b| - 1]);
      assert b' + [b[|b| - 1]] == b;
    }
  }

  lemma DistinctConcat(a: seq<Tweet>, b: seq<Tweet>)
    requires DistinctContents(a) && DistinctContents(b)
    requires forall k :: 0 <= k < |b| ==> b[k].content !in Contents(a)
    ensures DistinctContents(a + b)
  {
    forall i, j | 0 <= i < j < |a + b| ensures (a + b)[i].content != (a + b)[j].content {
      if j >= |a| && i < |a| {
        assert (a + b)[i].content in Contents(a);
      }
    }
  }

  /** An iteration over no elements is idle. */
  lemma NextIdle(read: Reader, st: ScrollState)
    requires !st.stopped
    ensures Next(read, st, []).noNew == st.noNew + 1
    ensures Next(read, st, []).gains == st.gains + [0]
  {
  }

  /** When no step from `k` on shows any element, the loop has stopped
      within four further steps. */
  lemma {:induction false} ScrollQuiet(read: Reader, views: seq<seq<Element>>, k: nat, m: nat)
    requires k <= m
    requires forall i :: k <= i < |views| ==> views[i] == []
    ensures var st := Scroll(read, views, m);
      |st.gains| <= k + MaxIdleScrolls && (st.stopped || (|st.gains| == m && st.noNew >= m - k))
    decreases m - k
  {
    ScrollCounter(read, views, m);
    if m > k {
      ScrollQuiet(read, views, k, m - 1);
      ScrollCounter(read, views, m - 1);
      var st := Scroll(read, views, m - 1);
      if !st.stopped {
        assert ElementsAt(views, m - 1) == [];
        NextIdle(read, st);
      }
    }
  }

  /** Every run over views that run out after `k` steps of activity stops
      within `k + 4` steps. */
  lemma ScrollConverges(read: Reader, views: seq<seq<Element>>, k: nat, n: nat)
    requires k + MaxIdleScrolls <= n
    requires forall i :: k <= i < |views| ==> views[i] == []
    ensures Scroll(read, views, n).stopped
    ensures |Scroll(read, views, n).gains| <= k + MaxIdleScrolls
  {
    ScrollQuiet(read, views, k, n);
    ScrollCounter(read, views, n);
  }

  /** When no step from `k` on adds a record, whether its frame shows
      nothing or only tweets already seen, the loop has run at most
      `k + 4` steps, and it has stopped once `k + 4` iterations were
      allowed. */
  lemma ScrollIdleStops(read: Reader, views: seq<seq<Element>>, k: nat, n: nat)
    requires k <= n
    requires forall i :: k <= i < |Scroll(read, views, n).gains| ==> Scroll(read, views, n).gains[i] == 0
    ensures |Scroll(read, views, n).gains| <= k + MaxIdleScrolls
    ensures k + MaxIdleScrolls <= n ==> Scroll(read, views, n).stopped
  {
    ScrollCounter(read, views, n);
  }

  // ---------------------------------------------------------------------
  // search_and_scrape

  /** The browser's side of one search: the two dates `datetime.now()`
      gives, the wait selectors that appear within their timeout, the
      frames seen at each scroll step, and whether a driver call raises. */
  datatype Site = Site(today: string, startDate: string, present: set<string>, page: seq<Frame>, crashes: bool)

  /** A returned list, or an exception that escaped the method. */
  datatype Outcome = Scraped(tweets: seq<Tweet>) | Raised

  predicate AnyWaitSelector(present: set<string>)
  {
    exists i :: 0 <= i < |WaitSelectors| && WaitSelectors[i] in present
  }

  /** What `search_and_scrape` yields: an exception when the driver
      raises, [] when no selector ever appears, otherwise the records of
      the scroll loop. */
  function ScrapeOutcome(tag: string, site: Site): Outcome
  {
    if site.crashes then Raised
    else if !AnyWaitSelector(site.present) then Scraped([])
    else Scraped(Scroll(ReadFor(tag), Shown(site.page), ScrollLimit).tweets)
  }

  /** The page at scroll step `i`; past the supplied frames nothing is visible. */
  function FrameAt(page: seq<Frame>, i: nat): Frame
  {
    if i < |page| then page[i] else map[]
  }

  /** What `get_tweet_elements` finds at step `i` is the `i`th shown list. */
  lemma ShownAt(page: seq<Frame>, i: nat)
    ensures FirstNonEmpty(FrameAt(page, i), TweetSelectors) == ElementsAt(Shown(page), i)
  {
    if i >= |page| {
      assert forall j :: 0 <= j < |TweetSelectors| ==> Select(map[], TweetSelectors[j]) == [];
    }
  }

  /** The record for an accepted element, read the way the source reads
      it: username, timestamp, entities, engagement. */
  method BuildTweet(e: Element, content: string, tag: string) returns (t: Tweet)
    ensures t == MakeTweet(e, content, tag)
  {
    var username := ResolveUsername(e);
    var timestamp := e.datetime;
    var hashtags := ExtractHashtags(Some(content));
    var mentions := ExtractMentions(Some(content));
    var engagement := ExtractEngagementMetrics(e.ariaLabels);
    t := Tweet(username, timestamp, content, tag, hashtags, mentions, |hashtags|, |mentions|, engagement);
  }

  /** The inner loop of one scroll step, growing `tweets` and `seen`. */
  method HarvestStep(elements: seq<Element>, tag: string, tweets0: seq<Tweet>, seen0: set<string>)
    returns (tweets: seq<Tweet>, seen: set<string>)
    ensures tweets == tweets0 + Harvest(ReadFor(tag), elements, seen0).added
    ensures seen == Harvest(ReadFor(tag), elements, seen0).seen
  {
    tweets, seen := tweets0, seen0;
    for j := 0 to |elements|
      invariant tweets == tweets0 + Harvest(ReadFor(tag), elements[..j], seen0).added
      invariant seen == Harvest(ReadFor(tag), elements[..j], seen0).seen
    {
      assert elements[..j + 1][..j] == elements[..j];
      var e := elements[j];
      var content := Content(e);
      if content.Some? && |content.value| >= MinContentLength && content.value !in seen {
        seen := seen + {content.value};
        var t := BuildTweet(e, content.value, tag);
        tweets := tweets + [t];
      }
    }
    assert elements[..|elements|] == elements;
  }

  /** One iteration of the scroll loop before its stop test: find the
      elements, harvest them, and update the idle counter. */
  method ScrollOnce(tag: string, frame: Frame, tweets0: seq<Tweet>, seen0: set<string>, noNew0: nat)
    returns (tweets: seq<Tweet>, seen: set<string>, noNew: nat, added: nat)
    ensures var h := Harvest(ReadFor(tag), FirstNonEmpty(frame, TweetSelectors), seen0);
      && tweets == tweets0 + h.added && seen == h.seen && added == |h.added|
      && noNew == if added == 0 then noNew0 + 1 else 0
  {
    var elements := GetTweetElements(frame);
    tweets, seen := HarvestStep(elements, tag, tweets0, seen0);
    added := |tweets| - |tweets0|;
    if added == 0 {
      noNew := noNew0 + 1;
    } else {
      noNew := 0;
    }
  }

  /** The scroll loop of `search_and_scrape`, run once a tweet selector
      has appeared: the records it collects and the steps it runs. */
  method ScrollLoop(tag: string, page: seq<Frame>) returns (tweets: seq<Tweet>, steps: nat)
    ensures tweets == Scroll(ReadFor(tag), Shown(page), ScrollLimit).tweets
    ensures steps == |Scroll(ReadFor(tag), Shown(page), ScrollLimit).gains|
    ensures steps <= ScrollLimit
  {
    ghost var views := Shown(page);
    ghost var read := ReadFor(tag);
    tweets := [];
    var seen: set<string> := {};
    var noNew: nat := 0;
    ghost var gains: seq<nat> := [];
    var scroll := 0;
    steps := 0;
    while scroll < ScrollLimit
      invariant 0 <= scroll <= ScrollLimit
      invariant Scroll(read, views, scroll) == ScrollState(tweets, seen, noNew, gains, false)
      invariant steps == scroll && |gains| == scroll
    {
      ghost var st := ScrollState(tweets, seen, noNew, gains, false);
      var added;
      tweets, seen, noNew, added := ScrollOnce(tag, FrameAt(page, scroll), tweets, seen, noNew);
      gains := gains + [added];
      steps := steps + 1;
      ShownAt(page, scroll);
      assert Scroll(read, views, scroll + 1) == ScrollState(tweets, seen, noNew, gains, noNew >= MaxIdleScrolls);
      if noNew >= MaxIdleScrolls {
        ScrollStoppedFixed(read, views, scroll + 1, ScrollLimit);
        break;
      }
      scroll := scroll + 1;
    }
    ScrollCounter(read, views, ScrollLimit);
  }

  /** `search_and_scrape(tag)`: the URL it opens, what it yields, and how
      many scroll steps it takes. */
  method SearchAndScrape(tag: string, site: Site) returns (url: string, outcome: Outcome, steps: nat)
    ensures url == SearchUrl(tag, site.startDate, site.today)
    ensures outcome == ScrapeOutcome(tag, site)
    ensures steps == if site.crashes || !AnyWaitSelector(site.present) then 0
                     else |Scroll(ReadFor(tag), Shown(site.page), ScrollLimit).gains|
    ensures steps <= ScrollLimit
  {
    var query := ReplaceChar(tag, ' ', "") + " since:" + site.startDate + " until:" + site.today;
    var encoded := ReplaceChar(ReplaceChar(ReplaceChar(query, '#', "%23"), ':', "%3A"), ' ', "%20");
    url := "https://x.com/search?q=" + encoded + "&src=typed_query&f=live";
    steps := 0;
    if site.crashes {
      outcome := Raised;
      return;
    }
    var found, _ := WaitForTweets(site.present);
    if !found {
      assert !AnyWaitSelector(site.present);
      outcome := Scraped([]);
      return;
    }
    assert AnyWaitSelector(site.present);
    var tweets;
    tweets, steps := ScrollLoop(tag, site.page);
    outcome := Scraped(tweets);
  }

  /** A search over frames that stop showing anything after step `k`
      runs at most `k + 4` scroll steps. */
  lemma ScrapeSteps(tag: string, site: Site, k: nat)
    requires k + MaxIdleScrolls <= ScrollLimit
    requires forall i :: k <= i < |site.page| ==> FirstNonEmpty(site.page[i], TweetSelectors) == []
    ensures var st := Scroll(ReadFor(tag), Shown(site.page), ScrollLimit);
      st.stopped && |st.gains| <= k + MaxIdleScrolls
  {
    ScrollConverges(ReadFor(tag), Shown(site.page), k, ScrollLimit);
  }

  /** Every list `search_and_scrape` returns has distinct contents of at
      least five characters, all records of the searched tag. */
  lemma ScrapeRecords(tag: string, site: Site)
    ensures var o := ScrapeOutcome(tag, site);
      o.Scraped? ==>
        && DistinctContents(o.tweets)
        && forall k :: 0 <= k < |o.tweets| ==> IsRecord(o.tweets[k], tag)
  {
    ReadForSpec(tag);
    ScrollValid(ReadFor(tag), tag, Shown(site.page), ScrollLimit);
  }
}
