/** Hashtag and mention extraction: `TweetScraper.extract_hashtags`,
    `TweetScraper.extract_mentions` and `utils.extract_text_entities`, all
    built on `re.findall` with the patterns `#\w+` / `@\w+` and their
    group forms `#(\w+)` / `@(\w+)`. */
module Entities {
  import opened Text

  /** A nonempty run of `\w` characters: what `\w+` matches. */
  predicate IsWord(w: string)
  {
    w != [] && forall k :: 0 <= k < |w| ==> IsWordChar(w[k])
  }

  /** `re.findall(sigil + r"(\w+)", s)`: scanning left to right, every
      `sigil` followed by a word character starts a match that takes the
      longest word run after it; the scan resumes right after the match,
      and elsewhere it moves on one character. The words are returned
      without the sigil, repeats kept, in order of appearance. */
  function FindWords(sigil: char, s: string): (r: seq<string>)
    ensures forall k :: 0 <= k < |r| ==> IsWord(r[k])
    ensures sigil !in s ==> r == []
    decreases |s|
  {
    if |s| < 2 then []
    else if s[0] == sigil && IsWordChar(s[1]) then
      var n := PrefixRun(IsWordChar, s[1..]);
      PrefixRunAll(IsWordChar, s[1..]);
      assert IsWord(s[1..1 + n]) by {
        assert forall k :: 0 <= k < n ==> s[1..1 + n][k] == s[1..][k];
      }
      [s[1..1 + n]] + FindWords(sigil, s[1 + n..])
    else
      FindWords(sigil, s[1..])
  }

  /** A sigil followed by a maximal word run yields that word, and the
      scan carries on with the rest. */
  lemma FindWordsMatch(sigil: char, w: string, rest: string)
    requires IsWord(w)
    requires rest == [] || !IsWordChar(rest[0])
    ensures FindWords(sigil, [sigil] + w + rest) == [w] + FindWords(sigil, rest)
  {
    var s := [sigil] + w + rest;
    assert s[1..] == w + rest;
    PrefixRunOf(IsWordChar, w, rest);
    assert s[1..1 + |w|] == w;
    assert s[1 + |w|..] == rest;
  }

  /** A character that is not the sigil starts no match. */
  lemma FindWordsSkip(sigil: char, c: char, rest: string)
    requires c != sigil
    ensures FindWords(sigil, [c] + rest) == FindWords(sigil, rest)
  {
    var s := [c] + rest;
    assert s[1..] == rest;
    if |s| < 2 {
      assert rest == [];
    }
  }

  /** A sigil that is not followed by a word character starts no match. */
  lemma FindWordsLoneSigil(sigil: char, rest: string)
    requires rest == [] || !IsWordChar(rest[0])
    ensures FindWords(sigil, [sigil] + rest) == FindWords(sigil, rest)
  {
    var s := [sigil] + rest;
    assert s[1..] == rest;
  }

  /** Every word found occurs in the text right after a sigil. */
  lemma {:induction false} FindWordsOccur(sigil: char, s: string)
    ensures forall k :: 0 <= k < |FindWords(sigil, s)| ==> Contains(s, [sigil] + FindWords(sigil, s)[k])
    decreases |s|
  {
    if |s| >= 2 {
      if s[0] == sigil && IsWordChar(s[1]) {
        var n := PrefixRun(IsWordChar, s[1..]);
        var rest := s[1 + n..];
        FindWordsOccur(sigil, rest);
        assert StartsWith(s, [sigil] + s[1..1 + n]) by {
          assert s[..1 + n] == [sigil] + s[1..1 + n];
        }
        forall k | 0 <= k < |FindWords(sigil, rest)|
          ensures Contains(s, [sigil] + FindWords(sigil, rest)[k])
        {
          ContainsInSuffix(s, 1 + n, [sigil] + FindWords(sigil, rest)[k]);
        }
      } else {
        FindWordsOccur(sigil, s[1..]);
        forall k | 0 <= k < |FindWords(sigil, s[1..])|
          ensures Contains(s, [sigil] + FindWords(sigil, s[1..])[k])
        {
          ContainsInSuffix(s, 1, [sigil] + FindWords(sigil, s[1..])[k]);
        }
      }
    }
  }

  /** What occurs in a suffix occurs in the whole string. */
  lemma {:induction false} ContainsInSuffix(s: string, i: nat, sub: string)
    requires i <= |s|
    requires Contains(s[i..], sub)
    ensures Contains(s, sub)
    decreases i
  {
    if i > 0 {
      assert s[1..][i - 1..] == s[i..];
      ContainsInSuffix(s[1..], i - 1, sub);
    }
  }

  /** `extract_text_entities(text)`: the hashtag words and the mention
      words, without their sigils. */
  function ExtractTextEntities(text: string): (r: (seq<string>, seq<string>))
    ensures '#' !in text ==> r.0 == []
    ensures '@' !in text ==> r.1 == []
  {
    (FindWords('#', text), FindWords('@', text))
  }

  /** Puts the sigil back in front of every word. */
  function Prefixed(sigil: char, ws: seq<string>): (r: seq<string>)
    ensures |r| == |ws|
    ensures forall k :: 0 <= k < |r| ==> r[k] == [sigil] + ws[k]
  {
    seq(|ws|, k requires 0 <= k < |ws| => [sigil] + ws[k])
  }

  lemma PrefixedMember(sigil: char, ws: seq<string>, x: string)
    ensures x in Prefixed(sigil, ws) <==> (|x| > 0 && x[0] == sigil && x[1..] in ws)
  {
    var p := Prefixed(sigil, ws);
    if x in p {
      var k :| 0 <= k < |p| && p[k] == x;
      assert x[1..] == ws[k];
    }
    if |x| > 0 && x[0] == sigil && x[1..] in ws {
      var k :| 0 <= k < |ws| && ws[k] == x[1..];
      assert p[k] == x;
    }
  }

  /** `list(set(re.findall(sigil + r"\w+", text))) if text else []`: the
      distinct tokens, each the sigil followed by a word. Python's set gives
      them in no particular order; here they come in order of first
      appearance. */
  function ExtractTagged(sigil: char, text: Option<string>): (r: seq<string>)
    ensures text == None || text == Some("") ==> r == []
    ensures NoDuplicates(r)
    ensures forall k :: 0 <= k < |r| ==> |r[k]| > 0 && r[k][0] == sigil && IsWord(r[k][1..])
  {
    match text
    case None => []
    case Some(t) =>
      if t == "" then []
      else
        var found := Prefixed(sigil, FindWords(sigil, t));
        var r := Dedup(found);
        assert forall k :: 0 <= k < |r| ==> r[k] in found;
        assert forall x :: x in found ==> |x| > 0 && x[0] == sigil && IsWord(x[1..]) by {
          forall x | x in found ensures |x| > 0 && x[0] == sigil && IsWord(x[1..]) {
            PrefixedMember(sigil, FindWords(sigil, t), x);
          }
        }
        r
  }

  /** `extract_hashtags`. */
  function ExtractHashtags(text: Option<string>): (r: seq<string>)
    ensures text == None || text == Some("") ==> r == []
    ensures NoDuplicates(r)
    ensures forall k :: 0 <= k < |r| ==> |r[k]| > 0 && r[k][0] == '#' && IsWord(r[k][1..])
  {
    ExtractTagged('#', text)
  }

  /** `extract_mentions`. */
  function ExtractMentions(text: Option<string>): (r: seq<string>)
    ensures text == None || text == Some("") ==> r == []
    ensures NoDuplicates(r)
    ensures forall k :: 0 <= k < |r| ==> |r[k]| > 0 && r[k][0] == '@' && IsWord(r[k][1..])
  {
    ExtractTagged('@', text)
  }

  /** The scraper's hashtags are exactly the words of
      `extract_text_entities` with '#' put back: both read the same regex. */
  lemma HashtagsMatchTextEntities(text: string, x: string)
    ensures x in ExtractHashtags(Some(text)) <==> (|x| > 0 && x[0] == '#' && x[1..] in ExtractTextEntities(text).0)
  {
    PrefixedMember('#', FindWords('#', text), x);
  }

  /** Likewise for mentions and '@'. */
  lemma MentionsMatchTextEntities(text: string, x: string)
    ensures x in ExtractMentions(Some(text)) <==> (|x| > 0 && x[0] == '@' && x[1..] in ExtractTextEntities(text).1)
  {
    PrefixedMember('@', FindWords('@', text), x);
  }
}
