/** The reading of one tweet element inside `search_and_scrape`: its
    content with the two-level fallback, the username from the profile
    link, the timestamp, the entities and the engagement counts. */
module Item {
  import opened Text
  import opened Entities
  import opened Engagement
  import opened Page

  /** Shorter contents are rejected. */
  const MinContentLength := 5

  /** The username when no profile link gives one. */
  const NoUsername := "NA"

  /** The record appended to the results for one tweet. */
  datatype Tweet = Tweet(
    username: string,
    timestamp: Option<string>,
    content: string,
    searchedTag: string,
    hashtags: seq<string>,
    mentions: seq<string>,
    numHashtags: nat,
    numMentions: nat,
    engagement: map<string, nat>)

  /** The stripped text of the tweet-text div, or failing that of the
      first `div[lang]`; None when both lookups raise, which skips the
      element. A tweet-text div that is found is used even when its text
      is short. */
  function Content(e: Element): (c: Option<string>)
    ensures e.tweetText.Some? ==> c == Some(Strip(e.tweetText.value))
    ensures e.tweetText.None? && e.langText.Some? ==> c == Some(Strip(e.langText.value))
    ensures c.None? <==> e.tweetText.None? && e.langText.None?
  {
    if e.tweetText.Some? then Some(Strip(e.tweetText.value))
    else if e.langText.Some? then Some(Strip(e.langText.value))
    else None
  }

  const XProfilePrefix := "https://x.com/"
  const TwitterProfilePrefix := "https://twitter.com/"

  /** Drops one trailing `c`, if there is one. */
  function DropLast(s: string, c: char): string
  {
    if |s| > 0 && s[|s| - 1] == c then s[..|s| - 1] else s
  }

  /** `s` with the profile-URL prefix removed, when it has one. */
  function AfterProfilePrefix(s: string): Option<string>
  {
    if StartsWith(s, XProfilePrefix) then Some(s[|XProfilePrefix|..])
    else if StartsWith(s, TwitterProfilePrefix) then Some(s[|TwitterProfilePrefix|..])
    else None
  }

  /** `re.match(r"https://(x|twitter)\.com/[A-Za-z0-9_]+/?$", s)`: one of
      the two prefixes, a handle, an optional slash and the end of the
      string, where Python's `$` also matches just before a final newline. */
  predicate IsProfileUrl(s: string)
  {
    var rest := AfterProfilePrefix(s);
    rest.Some? && IsWord(DropLast(DropLast(rest.value, '\n'), '/'))
  }

  /** `href.rstrip('/').split('/')[-1]`. */
  function Handle(href: string): (r: string)
    ensures '/' !in r
    ensures |r| <= |href|
  {
    LastSegment(StripTrailingSlashes(href))
  }

  /** `link.get_attribute("href") or ""`. */
  function HrefText(attr: Option<string>): string
  {
    if attr.Some? then attr.value else ""
  }

  /** The fallback: the handle of the first link that looks like a
      profile URL, or "NA" when none does. */
  function ProfileUsername(hrefs: seq<Option<string>>): string
  {
    if hrefs == [] then NoUsername
    else if IsProfileUrl(HrefText(hrefs[0])) then Handle(HrefText(hrefs[0]))
    else ProfileUsername(hrefs[1..])
  }

  /** With no profile link among them, the fallback gives "NA". */
  lemma {:induction false} ProfileUsernameNone(hrefs: seq<Option<string>>)
    requires forall j :: 0 <= j < |hrefs| ==> !IsProfileUrl(HrefText(hrefs[j]))
    ensures ProfileUsername(hrefs) == NoUsername
  {
    if hrefs != [] {
      assert forall j :: 0 <= j < |hrefs[1..]| ==> hrefs[1..][j] == hrefs[j + 1];
      ProfileUsernameNone(hrefs[1..]);
    }
  }

  /** The fallback gives the handle of the first profile link. */
  lemma {:induction false} ProfileUsernameFirst(hrefs: seq<Option<string>>, i: nat)
    requires i < |hrefs| && IsProfileUrl(HrefText(hrefs[i]))
    requires forall j :: 0 <= j < i ==> !IsProfileUrl(HrefText(hrefs[j]))
    ensures ProfileUsername(hrefs) == Handle(HrefText(hrefs[i]))
  {
    if i > 0 {
      assert !IsProfileUrl(HrefText(hrefs[0]));
      assert forall j :: 0 <= j < i - 1 ==> hrefs[1..][j] == hrefs[j + 1];
      assert hrefs[1..][i - 1] == hrefs[i];
      ProfileUsernameFirst(hrefs[1..], i - 1);
    }
  }

  /** The username: the last path segment of the User-Name link's href
      when that link is found ("NA" if its href is empty, with no
      fallback); the profile-link fallback only when the lookup raised. */
  function Username(e: Element): (r: string)
    ensures e.userLink == Some("") ==> r == NoUsername
    ensures e.userLink.Some? && e.userLink.value != "" ==> r == Handle(e.userLink.value)
    ensures e.userLink.None? ==> r == ProfileUsername(e.hrefs)
  {
    match e.userLink
    case Some(href) => if href != "" then Handle(href) else NoUsername
    case None => ProfileUsername(e.hrefs)
  }

  /** The username block as the source runs it, the fallback being a
      loop over the links that stops at the first profile URL. */
  method ResolveUsername(e: Element) returns (username: string)
    ensures username == Username(e)
  {
    username := NoUsername;
    if e.userLink.Some? {
      var href := e.userLink.value;
      if href != "" {
        username := Handle(href);
      }
    } else {
      var i := 0;
      while i < |e.hrefs|
        invariant 0 <= i <= |e.hrefs|
        invariant forall j :: 0 <= j < i ==> !IsProfileUrl(HrefText(e.hrefs[j]))
        invariant username == NoUsername
      {
        var href := HrefText(e.hrefs[i]);
        if IsProfileUrl(href) {
          username := Handle(href);
          ProfileUsernameFirst(e.hrefs, i);
          return;
        }
        i := i + 1;
      }
      ProfileUsernameNone(e.hrefs);
    }
  }

  /** The record for an element whose content has been accepted. */
  function MakeTweet(e: Element, content: string, tag: string): (t: Tweet)
    ensures t.content == content && t.searchedTag == tag
    ensures t.username == Username(e) && t.timestamp == e.datetime
    ensures t.numHashtags == |t.hashtags| && t.numMentions == |t.mentions|
    ensures NoDuplicates(t.hashtags) && NoDuplicates(t.mentions)
    ensures forall k :: 0 <= k < |t.hashtags| ==> |t.hashtags[k]| > 0 && t.hashtags[k][0] == '#'
    ensures forall k :: 0 <= k < |t.mentions| ==> |t.mentions[k]| > 0 && t.mentions[k][0] == '@'
    ensures t.engagement.Keys == MetricKeys
    ensures t.hashtags == ExtractHashtags(Some(content)) && t.mentions == ExtractMentions(Some(content))
    ensures t.engagement == Metrics(e.ariaLabels)
  {
    var hashtags := ExtractHashtags(Some(content));
    var mentions := ExtractMentions(Some(content));
    Tweet(Username(e), e.datetime, content, tag, hashtags, mentions, |hashtags|, |mentions|, Metrics(e.ariaLabels))
  }

  /** The two prefixes exclude each other, so either one is removed. */
  lemma AfterProfilePrefixOf(prefix: string, t: string)
    requires prefix == XProfilePrefix || prefix == TwitterProfilePrefix
    ensures AfterProfilePrefix(prefix + t) == Some(t)
  {
    var s := prefix + t;
    assert s[..|prefix|] == prefix;
    assert s[|prefix|..] == t;
    assert prefix == TwitterProfilePrefix ==> !StartsWith(s, XProfilePrefix) by {
      assert s[8] == prefix[8];
    }
  }

  /** Conversely, an accepted link is one of the two prefixes, a handle,
      an optional '/' and an optional final newline. */
  lemma ProfileUrlShape(s: string)
    requires IsProfileUrl(s)
    ensures var prefix := if StartsWith(s, XProfilePrefix) then XProfilePrefix else TwitterProfilePrefix;
      var rest := s[|prefix|..];
      var w := DropLast(DropLast(rest, '\n'), '/');
      && StartsWith(s, prefix) && s == prefix + rest && IsWord(w)
      && (rest == w || rest == w + "/" || rest == w + "\n" || rest == w + "/\n")
  {
    var prefix := if StartsWith(s, XProfilePrefix) then XProfilePrefix else TwitterProfilePrefix;
    var rest := s[|prefix|..];
    assert s == s[..|prefix|] + rest;
    var r1 := DropLast(rest, '\n');
    var w := DropLast(r1, '/');
    assert rest == r1 || rest == r1 + "\n";
    assert r1 == w || r1 == w + "/";
  }

  /** `rstrip('/')` removes at most the one slash after a word. */
  lemma StripSlashAfterWord(p: string, w: string, slash: string)
    requires IsWord(w)
    requires slash == "" || slash == "/"
    ensures StripTrailingSlashes(p + w + slash) == p + w
  {
    var s := p + w + slash;
    if slash == "/" {
      assert s[..|s| - 1] == p + w;
    }
    assert (p + w)[|p + w| - 1] == w[|w| - 1];
  }

  /** A profile URL's handle, with or without the trailing slash, is
      recognised and read back as the username. */
  lemma ProfileUrlHandle(prefix: string, w: string, slash: string)
    requires prefix == XProfilePrefix || prefix == TwitterProfilePrefix
    requires IsWord(w)
    requires slash == "" || slash == "/"
    ensures IsProfileUrl(prefix + w + slash)
    ensures Handle(prefix + w + slash) == w
  {
    var s := prefix + w + slash;
    assert AfterProfilePrefix(s) == Some(w + slash) by {
      ConcatAssoc(prefix, w, slash);
      AfterProfilePrefixOf(prefix, w + slash);
    }
    assert DropLast(DropLast(w + slash, '\n'), '/') == w by {
      assert (w + slash)[|w + slash| - 1] != '\n';
      assert slash == "/" ==> (w + slash)[..|w + slash| - 1] == w;
    }
    assert StripTrailingSlashes(s) == prefix + w by {
      StripSlashAfterWord(prefix, w, slash);
    }
    assert LastSegment(prefix + w) == w by {
      assert '/' !in w;
      LastSegmentAfterSlash(prefix, w);
    }
  }

  /** The last segment of a path whose final slash is followed by `w`. */
  lemma {:induction false} LastSegmentAfterSlash(prefix: string, w: string)
    requires prefix != [] && prefix[|prefix| - 1] == '/'
    requires '/' !in w
    ensures LastSegment(prefix + w) == w
    decreases |w|
  {
    var s := prefix + w;
    if w == [] {
      assert s == prefix;
    } else {
      var w', c := w[..|w| - 1], w[|w| - 1];
      assert c != '/';
      assert '/' !in w' by {
        assert forall k :: 0 <= k < |w'| ==> w'[k] == w[k];
      }
      assert s[..|s| - 1] == prefix + w';
      assert s[|s| - 1] == c;
      LastSegmentAfterSlash(prefix, w');
      assert LastSegment(s) == LastSegment(prefix + w') + [c];
      assert w' + [c] == w;
    }
  }

  /** Python's `$` before a final newline: such a link is accepted, and
      the newline stays in the username. */
  lemma ProfileUrlNewline(w: string)
    requires IsWord(w)
    ensures IsProfileUrl(XProfilePrefix + w + "\n")
    ensures Handle(XProfilePrefix + w + "\n") == w + "\n"
  {
    var s := XProfilePrefix + w + "\n";
    assert s[..|XProfilePrefix|] == XProfilePrefix;
    assert s[|XProfilePrefix|..] == w + "\n";
    assert DropLast(w + "\n", '\n') == w;
    assert '\n' !in w;
    assert DropLast(w, '/') == w;
    assert StripTrailingSlashes(s) == s;
    assert '/' !in w + "\n";
    LastSegmentAfterSlash(XProfilePrefix, w + "\n");
  }
}
