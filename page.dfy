/** The browser page as plain data, and the two selector-priority loops of
    `TweetScraper`: `wait_for_tweets` and `get_tweet_elements`. */
module Page {
  import opened Text

  /** What the scraper can read from one visible tweet element.
      `tweetText` and `langText` are the texts of the first
      `div[data-testid='tweetText']` and `div[lang]` inside it (None when
      the lookup raises). `userLink` is the `href` of the User-Name link:
      None when that lookup raises, Some("") when the link has no href.
      `hrefs` are the `href` attributes of its `a[href]` descendants,
      `datetime` the `datetime` of its `time` element, and `ariaLabels` the
      `aria-label` attributes of its `[aria-label]` descendants. */
  datatype Element = Element(
    tweetText: Option<string>,
    langText: Option<string>,
    userLink: Option<string>,
    hrefs: seq<Option<string>>,
    datetime: Option<string>,
    ariaLabels: seq<Option<string>>)

  /** What `find_elements(By.CSS_SELECTOR, s)` returns on the page at one
      moment, for every selector it matches. */
  type Frame = map<string, seq<Element>>

  function Select(f: Frame, selector: string): seq<Element>
  {
    if selector in f then f[selector] else []
  }

  const TweetSelectors: seq<string> :=
    ["article[data-testid='tweet']", "div[data-testid='cellInnerDiv']", "article"]

  const WaitSelectors: seq<string> :=
    ["article[data-testid='tweet']", "div[data-testid='tweet']", "article", "div[data-testid='cellInnerDiv']"]

  /** The elements of the first selector that matches any, or []. */
  function FirstNonEmpty(f: Frame, selectors: seq<string>): (r: seq<Element>)
    ensures (forall j :: 0 <= j < |selectors| ==> Select(f, selectors[j]) == []) ==> r == []
    ensures forall i :: 0 <= i < |selectors| && Select(f, selectors[i]) != [] &&
                        (forall j :: 0 <= j < i ==> Select(f, selectors[j]) == [])
                        ==> r == Select(f, selectors[i])
  {
    if selectors == [] then []
    else if Select(f, selectors[0]) != [] then Select(f, selectors[0])
    else
      var r := FirstNonEmpty(f, selectors[1..]);
      assert forall i :: 1 <= i < |selectors| ==> selectors[i] == selectors[1..][i - 1];
      r
  }

  /** `get_tweet_elements`: tries the selectors in priority order and
      returns as soon as one yields elements. */
  method GetTweetElements(f: Frame) returns (elements: seq<Element>)
    ensures elements == FirstNonEmpty(f, TweetSelectors)
  {
    var i := 0;
    while i < |TweetSelectors|
      invariant 0 <= i <= |TweetSelectors|
      invariant forall j :: 0 <= j < i ==> Select(f, TweetSelectors[j]) == []
    {
      var tweets := Select(f, TweetSelectors[i]);
      if tweets != [] {
        return tweets;
      }
      i := i + 1;
    }
    return [];
  }

  /** `wait_for_tweets`: waits for each selector in turn, `present` being
      the selectors that appear within their wait; `found` is whether one
      did, and `tried` how many waits were started. */
  method WaitForTweets(present: set<string>) returns (found: bool, tried: nat)
    ensures found <==> exists i :: 0 <= i < |WaitSelectors| && WaitSelectors[i] in present
    ensures 0 < tried <= |WaitSelectors|
    ensures forall j :: 0 <= j < tried - 1 ==> WaitSelectors[j] !in present
    ensures found <==> WaitSelectors[tried - 1] in present
  {
    tried := 0;
    while tried < |WaitSelectors|
      invariant 0 <= tried <= |WaitSelectors|
      invariant forall j :: 0 <= j < tried ==> WaitSelectors[j] !in present
    {
      tried := tried + 1;
      if WaitSelectors[tried - 1] in present {
        return true, tried;
      }
    }
    return false, tried;
  }
}
