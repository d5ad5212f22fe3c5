/** `TweetScraper.extract_engagement_metrics`: every accessibility label
    of a tweet is read as a count and filed under at most one of five
    metrics, chosen by keyword. */
module Engagement {
  import opened Text
  import opened CountParser

  const Replies := "replies"
  const Retweets := "retweets"
  const Likes := "likes"
  const Views := "views"
  const Bookmarks := "bookmarks"

  const MetricKeys: set<string> := {Replies, Retweets, Likes, Views, Bookmarks}

  /** The dictionary the method starts from: every metric at 0. */
  function Defaults(): (m: map<string, nat>)
    ensures m.Keys == MetricKeys
    ensures forall key :: key in m ==> m[key] == 0
  {
    map[Replies := 0, Retweets := 0, Likes := 0, Views := 0, Bookmarks := 0]
  }

  /** `b.get_attribute("aria-label") or ""`. */
  function LabelText(attr: Option<string>): string
  {
    if attr.Some? then attr.value else ""
  }

  /** The metric a label is filed under: the first keyword of the chain
      "repl", "repost" or "retweet", "like", "view", "bookmark" that occurs
      in the lower-cased label; None when none does. */
  function Classify(aria: string): (r: Option<string>)
    ensures r.Some? ==> r.value in MetricKeys
    ensures r.None? <==>
      var l := Lower(aria);
      && !Contains(l, "repl") && !Contains(l, "repost") && !Contains(l, "retweet")
      && !Contains(l, "like") && !Contains(l, "view") && !Contains(l, "bookmark")
    ensures var l := Lower(aria);
      && (r == Some(Replies) <==> Contains(l, "repl"))
      && (r == Some(Retweets) <==>
            !Contains(l, "repl") && (Contains(l, "repost") || Contains(l, "retweet")))
      && (r == Some(Likes) <==>
            !Contains(l, "repl") && !Contains(l, "repost") && !Contains(l, "retweet")
            && Contains(l, "like"))
      && (r == Some(Views) <==>
            !Contains(l, "repl") && !Contains(l, "repost") && !Contains(l, "retweet")
            && !Contains(l, "like") && Contains(l, "view"))
      && (r == Some(Bookmarks) <==>
            !Contains(l, "repl") && !Contains(l, "repost") && !Contains(l, "retweet")
            && !Contains(l, "like") && !Contains(l, "view") && Contains(l, "bookmark"))
  {
    var l := Lower(aria);
    if Contains(l, "repl") then Some(Replies)
    else if Contains(l, "repost") || Contains(l, "retweet") then Some(Retweets)
    else if Contains(l, "like") then Some(Likes)
    else if Contains(l, "view") then Some(Views)
    else if Contains(l, "bookmark") then Some(Bookmarks)
    else None
  }

  /** One label's effect on the dictionary: its count overwrites the
      metric it is filed under; an unclassified label changes nothing. */
  function Record(m: map<string, nat>, attr: Option<string>): map<string, nat>
  {
    var aria := LabelText(attr);
    match Classify(aria)
    case None => m
    case Some(key) => m[key := ParseCount(aria)]
  }

  /** The dictionary after the labels in order, from the defaults. */
  function Metrics(labels: seq<Option<string>>): (m: map<string, nat>)
    ensures m.Keys == MetricKeys
  {
    if labels == [] then Defaults() else Record(Metrics(labels[..|labels| - 1]), labels[|labels| - 1])
  }

  /** The loop over the buttons, updating the dictionary in place. */
  method ExtractEngagementMetrics(labels: seq<Option<string>>) returns (metrics: map<string, nat>)
    ensures metrics == Metrics(labels)
  {
    metrics := map[Replies := 0, Retweets := 0, Likes := 0, Views := 0, Bookmarks := 0];
    for i := 0 to |labels|
      invariant metrics == Metrics(labels[..i])
    {
      var aria := LabelText(labels[i]);
      var num := ParseCount(aria);
      var l := Lower(aria);
      if Contains(l, "repl") {
        metrics := metrics[Replies := num];
      } else if Contains(l, "repost") || Contains(l, "retweet") {
        metrics := metrics[Retweets := num];
      } else if Contains(l, "like") {
        metrics := metrics[Likes := num];
      } else if Contains(l, "view") {
        metrics := metrics[Views := num];
      } else if Contains(l, "bookmark") {
        metrics := metrics[Bookmarks := num];
      }
      assert labels[..i + 1][..i] == labels[..i];
    }
    assert labels[..|labels|] == labels;
  }

  /** A metric no label is filed under keeps its default of 0. */
  lemma {:induction false} MetricsUnclassified(labels: seq<Option<string>>, key: string)
    requires key in MetricKeys
    requires forall j :: 0 <= j < |labels| ==> Classify(LabelText(labels[j])) != Some(key)
    ensures Metrics(labels)[key] == 0
  {
    if labels != [] {
      var init := labels[..|labels| - 1];
      assert forall j :: 0 <= j < |init| ==> init[j] == labels[j];
      MetricsUnclassified(init, key);
    }
  }

  /** The last label filed under a metric decides its value: later labels
      filed elsewhere leave it alone. */
  lemma {:induction false} MetricsLastLabel(labels: seq<Option<string>>, j: nat, key: string)
    requires j < |labels|
    requires Classify(LabelText(labels[j])) == Some(key)
    requires forall i :: j < i < |labels| ==> Classify(LabelText(labels[i])) != Some(key)
    ensures Metrics(labels)[key] == ParseCount(LabelText(labels[j]))
    decreases |labels|
  {
    var init, last := labels[..|labels| - 1], labels[|labels| - 1];
    assert Metrics(labels) == Record(Metrics(init), last);
    if j < |labels| - 1 {
      assert forall i :: j < i < |init| ==> init[i] == labels[i];
      assert init[j] == labels[j];
      MetricsLastLabel(init, j, key);
      RecordChangesOne(Metrics(init), last, key);
    } else {
      RecordSets(Metrics(init), last, key);
    }
  }

  /** A label filed under a metric sets it to the label's count. */
  lemma RecordSets(m: map<string, nat>, attr: Option<string>, key: string)
    requires Classify(LabelText(attr)) == Some(key)
    ensures Record(m, attr)[key] == ParseCount(LabelText(attr))
  {
  }

  /** Every label changes at most one metric. */
  lemma RecordChangesOne(m: map<string, nat>, attr: Option<string>, key: string)
    requires m.Keys == MetricKeys && key in MetricKeys
    requires Classify(LabelText(attr)) != Some(key)
    ensures Record(m, attr)[key] == m[key]
  {
  }
}
