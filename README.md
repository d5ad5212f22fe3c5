# A verified model of the market-intel tweet harvester

The system searches X (Twitter) for a fixed list of stock-market hashtags.
The Dafny project models the logic behind that harvest.

For each hashtag, `TweetScraper.search_and_scrape` does three things:

- It builds a live-search URL for the tag over a date window.
- It waits for tweets to appear.
- It scrolls through the results for at most 50 steps.

On every step it reads each visible tweet element:

- the content, with a two-level fallback, rejecting contents shorter than five characters;
- duplicates of content already seen in this search, which it skips;
- the username;
- the timestamp;
- the hashtags and mentions;
- the five engagement counts, parsed from accessibility labels.

It stops early after four consecutive steps that add nothing.

`run_pipeline` in `main.py` goes through the hashtags in order and isolates each tag's failure. It concatenates the records and lists the failed tags. Between tags it waits 10 seconds, or 15 seconds after a tag that raised. It reports the number of successful tags and returns early when nothing was collected.

The browser is replaced by plain data:

- An `Element` is what the scraper can read from one tweet element.
- A `Frame` maps a CSS selector to the elements it matches at one moment.
- A `Site` holds what one search meets:
  - the two dates `datetime.now()` would give;
  - the wait selectors that appear;
  - the frame seen at each scroll step;
  - whether a driver call raises.

Modules, one file each:

- `Text` (text.dfy): the Python string operations the code uses (`strip`, `rstrip('/')`, `split('/')[-1]`, `replace`, `lower`, `in`) and the ASCII character classes.
- `CountParser` (count_parser.dfy): `parse_count`.
- `Entities` (entities.dfy): `extract_hashtags`, `extract_mentions` and `utils.extract_text_entities`.
- `Engagement` (engagement.dfy): `extract_engagement_metrics`.
- `Page` (page.dfy): the page as data, `get_tweet_elements` and `wait_for_tweets`.
- `Item` (item.dfy): the reading of one tweet element into a record.
- `Scraper` (scraper.dfy): the search URL, the harvest of one scroll step, the scroll loop and `search_and_scrape`.
- `Pipeline` (pipeline.dfy): the hashtag loop of `run_pipeline`.

The loops of the source are methods proved against specification functions:

- `ExtractEngagementMetrics` against `Metrics`;
- `ResolveUsername` against `Username`;
- `HarvestStep`, `ScrollOnce` and `ScrollLoop` against `Harvest` and `Scroll`;
- `CollectAll` against `Collected`, `FailedTags` and `Waits`.

The lemmas state what the source promises about those functions.

The scroll loop is stated over any `Reader`, a function from an element and the contents seen so far to an optional record. This keeps the loop argument separate from the reading of one element. `ReadFor(tag)` is the reader `search_and_scrape` uses, and `ReadForSpec` proves the two properties the loop lemmas rely on.

Where the code and its documentation disagree, the model follows the code:

- The docstring of `search_and_scrape` gives a default `days_back` of 3. The code uses 1, and `main.py`'s `DAYS_BACK = 3` is never passed on. The model takes both dates as inputs, so this does not arise.
- A search whose wait finds no tweets returns an empty list. `run_pipeline` counts its tag as failed, like one that raised.

## Model

| member | source | states |
|---|---|---|
| Text.StripSpec | src/scraper/twitter_scraper.py:194 | `strip()` gives the contiguous piece of the text that starts after its leading whitespace, no longer than the text, with whitespace at neither end |
| Text.StripIdempotent | src/scraper/twitter_scraper.py:194 | stripping a stripped content changes nothing |
| Text.StripLeftSpec | src/scraper/twitter_scraper.py:194 | `lstrip` removes exactly the leading whitespace: everything removed is whitespace, and what remains starts with none |
| Text.StripRightSpec | src/scraper/twitter_scraper.py:194 | `rstrip` removes exactly the trailing whitespace |
| Text.StripTrailingSlashes | src/scraper/twitter_scraper.py:218 | `rstrip('/')` gives a prefix that does not end in '/', and every character it removed was a '/' |
| Text.LastSegment | src/scraper/twitter_scraper.py:218 | `split('/')[-1]` is the longest suffix without a '/': a suffix, slash-free, preceded by a '/' unless it is the whole string |
| Text.ReplaceChar | src/scraper/twitter_scraper.py:163-169 | after `replace(c, rep)` with `c` not in `rep`, no `c` is left, and every other character not in `rep` occurs in the result exactly when it occurs in the input |
| Text.ReplaceCharAppend | src/scraper/twitter_scraper.py:166-170 | `replace` distributes over concatenation |
| Text.ReplaceCharAbsent | src/scraper/twitter_scraper.py:166-170 | a string without the pattern is left unchanged |
| Text.Dedup | src/scraper/twitter_scraper.py:54 | `list(set(...))` has no duplicates and the same members as its input |
| Text.PrefixRunOf | src/scraper/twitter_scraper.py:87 | a greedy character-class run over `a + b` ends exactly at the end of `a` when every character of `a` qualifies and `b` does not start with one that does |
| Text.PrefixRunAll | src/scraper/twitter_scraper.py:87 | every character in a greedy run belongs to the class |
| CountParser.FirstNumIndexFirst | src/scraper/twitter_scraper.py:87 | `re.search` starts its match at the first `[\d,.]` character: none occurs before it |
| CountParser.SearchTokenSpec | src/scraper/twitter_scraper.py:87 | the matched number is a nonempty piece of the text starting at its first `[\d,.]` character |
| CountParser.SearchTokenMaximal | src/scraper/twitter_scraper.py:87 | that piece is all `[\d,.]` and the character after it, if any, is not: the greedy `+` takes the whole run |
| CountParser.SearchTokenNone | src/scraper/twitter_scraper.py:87-89 | there is no match exactly when the text has no digit, comma or dot |
| CountParser.SearchTokenOf | src/scraper/twitter_scraper.py:87 | for a text laid out as a prefix without numeric characters, a numeric run and a rest that does not continue it, the match is that run, followed by the magnitude letter read after the run |
| CountParser.MagnitudeAfterOf | src/scraper/twitter_scraper.py:87 | the optional `[KMB]` group is read after any amount of whitespace, case-sensitively |
| CountParser.RemoveCommas | src/scraper/twitter_scraper.py:91 | `replace(",", "")` leaves no comma, keeps every other character, and is the identity on comma-free strings |
| CountParser.RemoveCommasAppend | src/scraper/twitter_scraper.py:91 | removing commas distributes over concatenation, so the other characters keep their order |
| CountParser.RemoveCommasSingle | src/scraper/twitter_scraper.py:91 | on one character: nothing for a comma, the character itself otherwise; with `RemoveCommasAppend` this fixes the result of every string |
| CountParser.ParseDecimal | src/scraper/twitter_scraper.py:91 | `float` on a string of digits and dots succeeds exactly when the string has at most one dot and at least one digit (so "." and "1.2.3" fail), and a dot-free string converts to its digits' value |
| CountParser.ParseDecimalOfPoint | src/scraper/twitter_scraper.py:91 | "whole.frac" converts to the exact value with `|frac|` decimal places, including the forms "5." and ".5" |
| CountParser.ParseDecimalOfDigits | src/scraper/twitter_scraper.py:91 | a nonempty digit string converts to its own value |
| CountParser.ParseCount | src/scraper/twitter_scraper.py:85-103 | never fails: the result is 0 when the text has no digit, comma or dot, and 0 when the first run is not a number once its commas are removed |
| CountParser.ParseCountOfDigits | src/scraper/twitter_scraper.py:87-101 | a count written in digits, then optional whitespace and a letter, reads as its value times 1, 10^3, 10^6 or 10^9 for no letter, K, M or B |
| CountParser.ParseCountOfDecimal | src/scraper/twitter_scraper.py:87-101 | a count with a decimal point, such as "1.2K", reads as its exact value scaled by the letter and truncated toward zero |
| CountParser.TruncatePoint | src/scraper/twitter_scraper.py:94-101 | the scaled value of whole.frac truncated is `(whole * 10^|frac| + frac) * mult / 10^|frac|` rounded down |
| CountParser.DigitsValueAppend | src/scraper/twitter_scraper.py:91 | the value of concatenated digit strings is the first one's value shifted by the second one's length plus the second one's value |
| CountParser.ParseCountIgnoresCommas | src/scraper/twitter_scraper.py:91 | two numeric runs that agree once their commas are removed ("3,400" and "3400") read as the same count |
| Entities.FindWords | src/scraper/utils.py:4-5 | every word returned is a nonempty `\w` run, and text without the sigil yields none |
| Entities.FindWordsMatch | src/scraper/utils.py:4-5 | a sigil followed by a maximal word run yields that word, without the sigil, ahead of the words of the rest: order and repeats are kept |
| Entities.FindWordsSkip | src/scraper/utils.py:4-5 | a character other than the sigil starts no match |
| Entities.FindWordsLoneSigil | src/scraper/utils.py:4-5 | a sigil not followed by a word character starts no match |
| Entities.FindWordsOccur | src/scraper/utils.py:4-5 | every word returned occurs in the text right after the sigil |
| Entities.ContainsInSuffix | src/scraper/utils.py:4-5 | what occurs in a suffix of the text occurs in the text |
| Entities.ExtractTextEntities | src/scraper/utils.py:3-6 | text without '#' has no hashtags, and text without '@' has no mentions |
| Entities.Prefixed | src/scraper/utils.py:4 | putting the sigil back keeps the list's length and puts the sigil in front of every word |
| Entities.PrefixedMember | src/scraper/utils.py:4 | a string is among the prefixed words exactly when it is the sigil followed by one of the words |
| Entities.ExtractTagged | src/scraper/twitter_scraper.py:53-57 | the tokens of `#\w+` or `@\w+`: none for absent or empty text, no duplicates, each the sigil followed by a word |
| Entities.ExtractHashtags | src/scraper/twitter_scraper.py:53-54 | every hashtag starts with '#' followed by a word, none is repeated, and there are none for absent or empty text |
| Entities.ExtractMentions | src/scraper/twitter_scraper.py:56-57 | every mention starts with '@' followed by a word, none is repeated, and there are none for absent or empty text |
| Entities.HashtagsMatchTextEntities | src/scraper/utils.py:4 | a string is among the scraper's hashtags exactly when it is '#' followed by a word of `extract_text_entities` |
| Entities.MentionsMatchTextEntities | src/scraper/utils.py:5 | a string is among the scraper's mentions exactly when it is '@' followed by a word of `extract_text_entities` |
| Engagement.Defaults | src/scraper/twitter_scraper.py:60 | the starting dictionary has exactly the five metric keys, each at 0 |
| Engagement.Classify | src/scraper/twitter_scraper.py:66-78 | a label is filed under one of the five metrics, each metric exactly when its keyword occurs in the lower-cased text and none earlier in the chain "repl", "repost"/"retweet", "like", "view", "bookmark" does, and under none exactly when none occurs |
| Engagement.Metrics | src/scraper/twitter_scraper.py:60-83 | the dictionary always has exactly the five metric keys |
| Engagement.ExtractEngagementMetrics | src/scraper/twitter_scraper.py:59-83 | the loop over the buttons builds exactly the dictionary `Metrics` specifies |
| Engagement.MetricsUnclassified | src/scraper/twitter_scraper.py:60-78 | a metric no label is filed under stays at its default 0 |
| Engagement.MetricsLastLabel | src/scraper/twitter_scraper.py:64-78 | a metric holds the count of the last label filed under it: a later label for the same metric overwrites an earlier one |
| Engagement.RecordChangesOne | src/scraper/twitter_scraper.py:69-78 | a label changes no metric other than the one it is filed under |
| Page.FirstNonEmpty | src/scraper/twitter_scraper.py:133-145 | the elements of the first selector in priority order that matches any, or [] when none does |
| Page.GetTweetElements | src/scraper/twitter_scraper.py:133-145 | the early-return loop over the three tweet selectors returns exactly `FirstNonEmpty` |
| Page.WaitForTweets | src/scraper/twitter_scraper.py:108-125 | the result is true exactly when one of the four wait selectors appears; the waits stop at the first that does, and every earlier one timed out |
| Item.Content | src/scraper/twitter_scraper.py:192-199 | the stripped tweet-text div when found, otherwise the stripped `div[lang]`, and none (the element is skipped) exactly when both lookups raise |
| Item.Handle | src/scraper/twitter_scraper.py:218 | `href.rstrip('/').split('/')[-1]` has no '/' and is no longer than the href |
| Item.ProfileUsernameNone | src/scraper/twitter_scraper.py:220-230 | with no profile URL among the links, the fallback leaves the username at "NA" |
| Item.ProfileUsernameFirst | src/scraper/twitter_scraper.py:222-228 | the fallback takes the handle of the first link matching the profile pattern |
| Item.Username | src/scraper/twitter_scraper.py:212-230 | the User-Name link's handle when it has an href, "NA" when its href is empty (with no fallback), and the profile-link fallback only when the lookup raised |
| Item.ResolveUsername | src/scraper/twitter_scraper.py:212-230 | the username block, with its loop that breaks at the first profile link, computes `Username` |
| Item.MakeTweet | src/scraper/twitter_scraper.py:239-253 | the record keeps the content, tag, username and timestamp; `num_hashtags` and `num_mentions` are the lengths of the lists; the lists are the hashtags and mentions extracted from the content, so they have no duplicates and carry their sigils; the engagement is the metrics of the element's labels |
| Item.ProfileUrlShape | src/scraper/twitter_scraper.py:226 | conversely, an accepted link is one of the two prefixes, a handle, an optional '/' and an optional final newline |
| Item.ProfileUrlHandle | src/scraper/twitter_scraper.py:226-227 | on an x.com or twitter.com profile URL, with or without a trailing slash, the pattern matches and the handle is read back |
| Item.ProfileUrlNewline | src/scraper/twitter_scraper.py:226-227 | Python's `$` also matches before a final newline, so such a link is accepted and the newline stays in the username |
| Item.LastSegmentAfterSlash | src/scraper/twitter_scraper.py:218 | after a final '/', the last path segment is the slash-free rest |
| Scraper.SearchQuery | src/scraper/twitter_scraper.py:163-164 | the query ends with the date range; before it stands the tag with its spaces removed (`ReplaceChar`, fixed by its own lemmas), which holds no space and every other character of the tag; a tag without spaces is used as it is |
| Scraper.Encode | src/scraper/twitter_scraper.py:166-170 | the encoded query has no '#', ':' or ' ' left |
| Scraper.EncodeCons | src/scraper/twitter_scraper.py:166-170 | the three chained replaces encode character by character, because no escape holds a character a later replace rewrites |
| Scraper.DecodeEncode | src/scraper/twitter_scraper.py:166-170 | percent-decoding gives back the query, for any query without '%' |
| Scraper.Visit | src/scraper/twitter_scraper.py:192-209 | an element yields a record exactly when its content was found, has at least five characters and was not seen before; the record has that content and is a record of the tag |
| Scraper.ReadForSpec | src/scraper/twitter_scraper.py:192-253 | the reader of `search_and_scrape` yields only unseen records of the tag, and one for every accepted unseen element |
| Scraper.Harvest | src/scraper/twitter_scraper.py:190-259 | a step adds at most one record per visible element |
| Scraper.HarvestSound | src/scraper/twitter_scraper.py:201-209 | a step adds records of the tag whose contents are distinct and not seen before, and `seen` grows by exactly their contents |
| Scraper.HarvestFromElements | src/scraper/twitter_scraper.py:190-253 | every record a step adds carries the content of one of the elements shown at that step |
| Scraper.HarvestSeenGrows | src/scraper/twitter_scraper.py:206-209 | `seen` only grows |
| Scraper.HarvestComplete | src/scraper/twitter_scraper.py:201-209 | the content of every accepted element ends up in `seen`: recorded by this element or by an earlier one with equal content |
| Scraper.Contents | src/scraper/twitter_scraper.py:205-209 | every record's content is among the contents of the list |
| Scraper.ContentsMember | src/scraper/twitter_scraper.py:205-209 | a content is among the contents exactly when some record of the list carries it |
| Scraper.ContentsConcat | src/scraper/twitter_scraper.py:205-209 | the contents of two lists one after the other are the union of their contents |
| Scraper.DistinctConcat | src/scraper/twitter_scraper.py:205-209 | appending distinct records whose contents the list does not have keeps all contents distinct |
| Scraper.Shown | src/scraper/twitter_scraper.py:188 | each step sees `get_tweet_elements` of that step's frame |
| Scraper.ShownAt | src/scraper/twitter_scraper.py:188 | past the supplied frames, a step sees no elements |
| Scraper.TrailingZeros | src/scraper/twitter_scraper.py:267-273 | the number of idle steps at the end of the run: all of them added nothing, and the step before them added something |
| Scraper.ScrollCounter | src/scraper/twitter_scraper.py:184-273 | after n iterations: `no_new_scrolls` is the number of trailing idle steps, it never exceeds 4, the loop has broken exactly when it reached 4, and without the break all n steps took place |
| Scraper.ScrollNoEarlyStop | src/scraper/twitter_scraper.py:267-271 | the loop did not break before the step where the idle counter first reached 4 |
| Scraper.ScrollStoppedFixed | src/scraper/twitter_scraper.py:269-271 | once the loop has broken, later iterations change nothing |
| Scraper.ScrollValid | src/scraper/twitter_scraper.py:182-259 | throughout the loop: no two records have equal content, every record is a record of the tag with at least five characters, `seen` is exactly their contents, and their number is the sum of the steps' gains |
| Scraper.ScrollQuiet | src/scraper/twitter_scraper.py:186-273 | once no step shows any element, the loop breaks within four further steps |
| Scraper.ScrollIdleStops | src/scraper/twitter_scraper.py:186-273 | when no step from k on adds a record, whether its frame is empty or shows only tweets already seen, the loop runs at most k + 4 steps and has broken once k + 4 are allowed |
| Scraper.ScrollConverges | src/scraper/twitter_scraper.py:186-273 | a run whose frames stop showing elements after step k has broken by step k + 4 |
| Scraper.BuildTweet | src/scraper/twitter_scraper.py:211-253 | the record built field by field is `MakeTweet` |
| Scraper.HarvestStep | src/scraper/twitter_scraper.py:190-259 | the loop over the elements, growing `tweets_data` and `seen` in place, computes `Harvest` |
| Scraper.ScrollOnce | src/scraper/twitter_scraper.py:187-273 | one step: the harvest of `get_tweet_elements`, `added` as the number of new records, and the idle counter advanced on `added == 0` and reset otherwise |
| Scraper.ScrollLoop | src/scraper/twitter_scraper.py:182-278 | the `for`/`break` loop computes the records and the step count of `Scroll`, and runs at most 50 steps |
| Scraper.SearchAndScrape | src/scraper/twitter_scraper.py:150-278 | the URL it opens is the encoded query; it raises when the driver does, returns [] without scrolling when no wait selector appears, and otherwise returns the scroll loop's records after at most 50 steps |
| Scraper.ScrapeSteps | src/scraper/twitter_scraper.py:186-273 | a search whose frames go quiet after step k runs at most k + 4 scroll steps |
| Scraper.ScrapeRecords | src/scraper/twitter_scraper.py:182-278 | every list the search returns has distinct contents and holds only records of the tag with at least five characters, `num_hashtags == len(hashtags)` and `num_mentions == len(mentions)` |
| Pipeline.Outcomes | src/main.py:30-36 | every tag of the list is searched, in order |
| Pipeline.FailedTags | src/main.py:51-63 | at most one entry per tag |
| Pipeline.ProcessTag | src/main.py:35-67 | one turn of the loop: what the tag adds to `all_tweets`, whether it is listed as failed, and the 10 or 15 second cooldown unless it is the last tag |
| Pipeline.CollectAll | src/main.py:30-67 | the loop computes the concatenated records, the failed tags in order and the cooldowns of the run |
| Pipeline.CollectStep | src/main.py:38-66 | what the next tag adds to each of the three results |
| Pipeline.RunPipeline | src/main.py:73-92 | the reported number of successful tags is the number of tags that collected something, and the pipeline goes on exactly when some tag collected something |
| Pipeline.CollectedConcat | src/main.py:38-39 | no cross-tag deduplication: the records of a split run are those of its two parts, one after the other |
| Pipeline.CollectedLength | src/main.py:38-39 | every tag's records are all kept: the total splits around any tag into the records before it, its own and those after it |
| Pipeline.CollectedEmpty | src/main.py:78 | nothing is collected exactly when every tag failed |
| Pipeline.FailedTagsConcat | src/main.py:30-67 | the failures of a split run are those of its two parts, in order |
| Pipeline.FailedTagsMember | src/main.py:38-63 | a tag is listed as failed exactly when its search raised or returned an empty list |
| Pipeline.FailedAndSucceeded | src/main.py:73 | every tag is either counted successful or listed as failed, and some tag is successful exactly when one did not fail |
| Pipeline.OneFault | src/main.py:61-67 | a tag that raises does not affect the others: the run collects what the tags around it collect and lists that tag as failed |
| Pipeline.PausesSpec | src/main.py:56-66 | one cooldown per tag: 15 seconds after a tag that raised, 10 otherwise |
| Pipeline.WaitsSpec | src/main.py:56-66 | a run of n tags waits n - 1 times, with no wait after the last tag; after tag i it waits 15 seconds if its search raised and 10 otherwise |

## Left out

- The browser:
  - Selenium and driver setup (src/scraper/driver_setup.py), `login` with its manual `input()`, `take_debug_screenshot`, `close` and `__del__`;
  - the sleeps and scrolling, as I/O and timing;
  - every `print` and `logging` call.
  
  The cooldowns are modelled as the recorded durations `Waits`.
- `datetime.now()`: the two dates are fields of `Site`. The date arithmetic and `strftime` formatting are not modelled.
- Python's `hash()`: the fingerprint is the content itself. A hash collision, which could drop a distinct tweet, is not modelled.
- CountParser.ParseCount: the value is exact (mantissa / 10^scale), where the source multiplies Python floats. Where a float product lands just below an integer, `int()` gives one less than the model; "1.005K" is such a case. Values above 2^53 are rounded by `float` in either direction ("9007199254740993" gives 9007199254740992 there), and a run of about 309 or more digits becomes `inf`, on which `int()` raises and the source returns 0; the model reads both exactly.
- Character classes: Python's `\w`, `\d` and `\s` and `str.lower()` are Unicode-aware. The model's are their ASCII parts. `Text.IsSpace` holds all ten ASCII whitespace characters of `str.isspace` (space, tab to carriage return, U+001C to U+001F); U+0085, U+00A0 and the other non-ASCII spaces, which `strip()` and `\s` also remove, are not in it.
- Entities.ExtractTagged: `list(set(...))` has no defined order. The model returns first-occurrence order, and its contracts state only membership and the absence of duplicates.
- Driver failures are one per-search flag, `Site.crashes`. A search that raises is modelled as raising before returning, whatever it had collected (`Outcome.Raised`).
- The per-element `except Exception` around the tweet parse, the `except: pass` inside `extract_engagement_metrics`, and the `except: pass` of the username fallback (src/scraper/twitter_scraper.py:229-230) are not modelled as partial updates. In the source, a raise from `find_elements("a[href]")` or from a later `get_attribute("href")` leaves the username at "NA"; `Element.hrefs` cannot raise, so the model always scans every link. With the browser reduced to data, nothing after `seen.add` can raise. So the claim "an element that raises after `seen.add` is dropped for good" describes a path the model does not have.
- The `try` around `TweetScraper()` and `login()` in `run_pipeline`, and everything after its early return (src/main.py:94 onwards): pandas, cleaning, storage, TF-IDF, signals and plots (src/processing and src/analysis). These are foreign libraries and I/O.
- The sample print in `run_pipeline` (src/main.py:44-50) is left out. It reads keys every record has, so it cannot raise.
- Unused constants: `MIN_TWEETS_REQUIRED` (src/scraper/twitter_scraper.py:18), and `DAYS_BACK` and `TARGET_TWEETS` (src/main.py:27-28).
- The progress message condition `scroll_i % 10 == 0 or added > 0` only affects printing, so it is not modelled.
- Scraper.Reader: the scroll-loop lemmas are stated for any reader with the two properties of `ReadForSpec`. The source has the one reader `ReadFor(tag)` only.
