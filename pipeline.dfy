/** The collection phase of `run_pipeline`: every hashtag is searched in
    turn, a failing tag is recorded and skipped, the results are
    concatenated, a cooldown follows every tag but the last, and the
    pipeline goes on only when something was collected. */
module Pipeline {
  import opened Item
  import opened Scraper

  /** Seconds slept after a tag that returned, and after one that raised. */
  const Cooldown := 10
  const ErrorCooldown := 15

  /** A tag counts as failed when its search raised or returned nothing. */
  predicate Failed(o: Outcome)
  {
    o.Raised? || o.tweets == []
  }

  /** The records a tag contributes to `all_tweets`. */
  function Yield(o: Outcome): seq<Tweet>
  {
    if o.Raised? then [] else o.tweets
  }

  /** What each search yields, tag by tag. */
  function Outcomes(tags: seq<string>, sites: seq<Site>): (outs: seq<Outcome>)
    requires |sites| == |tags|
    ensures |outs| == |tags|
    ensures forall i :: 0 <= i < |tags| ==> outs[i] == ScrapeOutcome(tags[i], sites[i])
  {
    seq(|tags|, i requires 0 <= i < |tags| => ScrapeOutcome(tags[i], sites[i]))
  }

  /** `all_tweets`: the results in tag order, nothing removed. */
  function Collected(outs: seq<Outcome>): seq<Tweet>
  {
    if outs == [] then [] else Collected(outs[..|outs| - 1]) + Yield(outs[|outs| - 1])
  }

  /** `failed_hashtags`: the failed tags in tag order. */
  function FailedTags(tags: seq<string>, outs: seq<Outcome>): (r: seq<string>)
    requires |outs| == |tags|
    ensures |r| <= |tags|
  {
    if tags == [] then []
    else
      var n := |tags| - 1;
      FailedTags(tags[..n], outs[..n]) + (if Failed(outs[n]) then [tags[n]] else [])
  }

  /** The sleep after one tag. */
  function Pause(o: Outcome): nat
  {
    if o.Raised? then ErrorCooldown else Cooldown
  }

  function Pauses(outs: seq<Outcome>): seq<nat>
  {
    if outs == [] then [] else Pauses(outs[..|outs| - 1]) + [Pause(outs[|outs| - 1])]
  }

  /** The sleeps of a run: one after every tag except the last. */
  function Waits(outs: seq<Outcome>): seq<nat>
  {
    if outs == [] then [] else Pauses(outs[..|outs| - 1])
  }

  /** The number of tags that collected something. */
  function Successes(outs: seq<Outcome>): nat
  {
    if outs == [] then 0 else Successes(outs[..|outs| - 1]) + (if Failed(outs[|outs| - 1]) then 0 else 1)
  }

  /** The body of the loop for one tag: the search inside its
      try/except, what it adds to `all_tweets`, whether the tag is listed
      as failed, and the sleep that follows unless it is the last tag. */
  method ProcessTag(tag: string, site: Site, last: bool)
    returns (collected: seq<Tweet>, failedNow: bool, pause: seq<nat>)
    ensures var o := ScrapeOutcome(tag, site);
      && collected == Yield(o)
      && failedNow == Failed(o)
      && pause == if last then [] else [Pause(o)]
  {
    var _, outcome, _ := SearchAndScrape(tag, site);
    collected, pause := [], [];
    if outcome.Raised? {
      failedNow := true;
      if !last {
        pause := [ErrorCooldown];
      }
    } else {
      var tweets := outcome.tweets;
      if tweets != [] {
        collected := tweets;
        failedNow := false;
      } else {
        failedNow := true;
      }
      if !last {
        pause := [Cooldown];
      }
    }
  }

  /** The loop over the tags: `allTweets`, `failed` and the sleeps taken. */
  method CollectAll(tags: seq<string>, sites: seq<Site>)
    returns (allTweets: seq<Tweet>, failed: seq<string>, waits: seq<nat>)
    requires |sites| == |tags|
    ensures allTweets == Collected(Outcomes(tags, sites))
    ensures failed == FailedTags(tags, Outcomes(tags, sites))
    ensures waits == Waits(Outcomes(tags, sites))
  {
    ghost var outs := Outcomes(tags, sites);
    allTweets, failed, waits := [], [], [];
    for idx := 0 to |tags|
      invariant allTweets == Collected(outs[..idx])
      invariant failed == FailedTags(tags[..idx], outs[..idx])
      invariant idx < |tags| ==> waits == Pauses(outs[..idx])
      invariant idx == |tags| ==> waits == Waits(outs)
    {
      var tag := tags[idx];
      var collected, failedNow, pause := ProcessTag(tag, sites[idx], idx == |tags| - 1);
      CollectStep(tags, outs, idx);
      allTweets := allTweets + collected;
      if failedNow {
        failed := failed + [tag];
      }
      waits := waits + pause;
    }
    assert outs[..|tags|] == outs;
    assert tags[..|tags|] == tags;
  }

  /** One turn of the loop over the tags: what the next tag adds to each
      of the three results. */
  lemma CollectStep(tags: seq<string>, outs: seq<Outcome>, idx: nat)
    requires |outs| == |tags| && idx < |tags|
    ensures Collected(outs[..idx + 1]) == Collected(outs[..idx]) + Yield(outs[idx])
    ensures FailedTags(tags[..idx + 1], outs[..idx + 1])
         == FailedTags(tags[..idx], outs[..idx]) + (if Failed(outs[idx]) then [tags[idx]] else [])
    ensures idx + 1 < |tags| ==> Pauses(outs[..idx + 1]) == Pauses(outs[..idx]) + [Pause(outs[idx])]
    ensures idx + 1 == |tags| ==> Waits(outs) == Pauses(outs[..idx])
  {
    assert outs[..idx + 1][..idx] == outs[..idx];
    assert tags[..idx + 1][..idx] == tags[..idx];
    assert outs[..idx + 1][idx] == outs[idx];
    assert tags[..idx + 1][idx] == tags[idx];
    if idx + 1 == |tags| {
      assert outs[..|outs| - 1] == outs[..idx];
    }
  }

  /** `run_pipeline` up to its early return: the collection, the number
      of successful tags it reports, and whether it goes on to build the
      data frame. */
  method RunPipeline(sites: seq<Site>)
    returns (allTweets: seq<Tweet>, failed: seq<string>, waits: seq<nat>, successful: int, proceeds: bool)
    requires |sites| == |Hashtags|
    ensures allTweets == Collected(Outcomes(Hashtags, sites))
    ensures failed == FailedTags(Hashtags, Outcomes(Hashtags, sites))
    ensures waits == Waits(Outcomes(Hashtags, sites))
    ensures successful == Successes(Outcomes(Hashtags, sites))
    ensures proceeds <==> exists i :: 0 <= i < |Hashtags| && !Failed(ScrapeOutcome(Hashtags[i], sites[i]))
  {
    allTweets, failed, waits := CollectAll(Hashtags, sites);
    successful := |Hashtags| - |failed|;
    proceeds := allTweets != [];
    ghost var outs := Outcomes(Hashtags, sites);
    FailedAndSucceeded(Hashtags, outs);
    CollectedEmpty(outs);
  }

  lemma CollectedAppend(outs: seq<Outcome>, o: Outcome)
    ensures Collected(outs + [o]) == Collected(outs) + Yield(o)
  {
    assert (outs + [o])[..|outs|] == outs;
  }

  /** No deduplication across tags: the collection of a split run is the
      two collections one after the other. */
  lemma {:induction false} CollectedConcat(a: seq<Outcome>, b: seq<Outcome>)
    ensures Collected(a + b) == Collected(a) + Collected(b)
    decreases |b|
  {
    if b == [] {
      assert a + b == a;
    } else {
      var b', o := b[..|b| - 1], b[|b| - 1];
      calc {
        Collected(a + b);
        { assert a + b == (a + b') + [o]; }
        Collected((a + b') + [o]);
        { CollectedAppend(a + b', o); }
        Collected(a + b') + Yield(o);
        { CollectedConcat(a, b'); }
        Collected(a) + Collected(b') + Yield(o);
        { CollectedAppend(b', o); assert b' + [o] == b; }
        Collected(a) + Collected(b);
      }
    }
  }

  /** The number of records collected is the sum of what the tags
      returned, duplicates across tags included. */
  lemma {:induction false} CollectedLength(outs: seq<Outcome>, k: nat)
    requires k < |outs|
    ensures |Collected(outs)| >= |Yield(outs[k])|
    ensures |Collected(outs)| == |Collected(outs[..k])| + |Yield(outs[k])| + |Collected(outs[k + 1..])|
  {
    assert outs == outs[..k] + ([outs[k]] + outs[k + 1..]);
    CollectedConcat(outs[..k], [outs[k]] + outs[k + 1..]);
    CollectedConcat([outs[k]], outs[k + 1..]);
    assert Collected([outs[k]]) == Yield(outs[k]) by {
      assert [outs[k]][..0] == [];
    }
  }

  /** Nothing is collected exactly when every tag failed. */
  lemma {:induction false} CollectedEmpty(outs: seq<Outcome>)
    ensures Collected(outs) == [] <==> forall i :: 0 <= i < |outs| ==> Failed(outs[i])
  {
    if outs != [] {
      var init := outs[..|outs| - 1];
      CollectedEmpty(init);
      assert forall i :: 0 <= i < |init| ==> init[i] == outs[i];
    }
  }

  lemma FailedTagsAppend(tags: seq<string>, outs: seq<Outcome>, t: string, o: Outcome)
    requires |outs| == |tags|
    ensures FailedTags(tags + [t], outs + [o]) == FailedTags(tags, outs) + (if Failed(o) then [t] else [])
  {
    assert (tags + [t])[..|tags|] == tags;
    assert (outs + [o])[..|outs|] == outs;
  }

  /** The failures of a split run are those of the two parts, in order. */
  lemma {:induction false} FailedTagsConcat(ta: seq<string>, a: seq<Outcome>, tb: seq<string>, b: seq<Outcome>)
    requires |a| == |ta| && |b| == |tb|
    ensures FailedTags(ta + tb, a + b) == FailedTags(ta, a) + FailedTags(tb, b)
    decreases |tb|
  {
    if tb == [] {
      assert ta + tb == ta && a + b == a;
    } else {
      var n := |tb| - 1;
      var tb', b' := tb[..n], b[..n];
      var last := if Failed(b[n]) then [tb[n]] else [];
      calc {
        FailedTags(ta + tb, a + b);
        { assert ta + tb == (ta + tb') + [tb[n]] && a + b == (a + b') + [b[n]]; }
        FailedTags((ta + tb') + [tb[n]], (a + b') + [b[n]]);
        { FailedTagsAppend(ta + tb', a + b', tb[n], b[n]); }
        FailedTags(ta + tb', a + b') + last;
        { FailedTagsConcat(ta, a, tb', b'); }
        FailedTags(ta, a) + FailedTags(tb', b') + last;
        { FailedTagsAppend(tb', b', tb[n], b[n]); assert tb' + [tb[n]] == tb && b' + [b[n]] == b; }
        FailedTags(ta, a) + FailedTags(tb, b);
      }
    }
  }

  /** A tag is listed as failed exactly when one of its searches failed. */
  lemma {:induction false} FailedTagsMember(tags: seq<string>, outs: seq<Outcome>, x: string)
    requires |outs| == |tags|
    ensures x in FailedTags(tags, outs) <==> exists i :: 0 <= i < |tags| && tags[i] == x && Failed(outs[i])
  {
    if tags != [] {
      var n := |tags| - 1;
      FailedTagsMember(tags[..n], outs[..n], x);
      assert forall i :: 0 <= i < n ==> tags[..n][i] == tags[i] && outs[..n][i] == outs[i];
    }
  }

  /** Every tag is either reported successful or listed as failed. */
  lemma {:induction false} FailedAndSucceeded(tags: seq<string>, outs: seq<Outcome>)
    requires |outs| == |tags|
    ensures |FailedTags(tags, outs)| + Successes(outs) == |tags|
    ensures Successes(outs) > 0 <==> exists i :: 0 <= i < |tags| && !Failed(outs[i])
  {
    if tags != [] {
      var n := |tags| - 1;
      FailedAndSucceeded(tags[..n], outs[..n]);
      assert forall i :: 0 <= i < n ==> outs[..n][i] == outs[i];
    }
  }

  /** One tag's exception changes nothing for the others: the run with a
      raising tag in the middle collects what the tags around it collect
      on their own, and lists that tag as failed. */
  lemma OneFault(ta: seq<string>, a: seq<Outcome>, t: string, tb: seq<string>, b: seq<Outcome>)
    requires |a| == |ta| && |b| == |tb|
    ensures Collected(a + [Raised] + b) == Collected(a) + Collected(b)
    ensures FailedTags(ta + [t] + tb, a + [Raised] + b) == FailedTags(ta, a) + [t] + FailedTags(tb, b)
  {
    assert Collected(a + [Raised]) == Collected(a) by {
      CollectedAppend(a, Raised);
    }
    CollectedConcat(a + [Raised], b);
    assert FailedTags(ta + [t], a + [Raised]) == FailedTags(ta, a) + [t] by {
      FailedTagsAppend(ta, a, t, Raised);
    }
    FailedTagsConcat(ta + [t], a + [Raised], tb, b);
  }

  /** One pause per tag, 15 seconds after a raising tag and 10 otherwise. */
  lemma {:induction false} PausesSpec(outs: seq<Outcome>)
    ensures |Pauses(outs)| == |outs|
    ensures forall i :: 0 <= i < |outs| ==> Pauses(outs)[i] == (if outs[i].Raised? then 15 else 10)
  {
    if outs != [] {
      var init := outs[..|outs| - 1];
      PausesSpec(init);
      assert forall i :: 0 <= i < |init| ==> init[i] == outs[i];
    }
  }

  /** The cooldowns of a run: none after the last tag, and after tag `i`
      15 seconds if its search raised, 10 seconds otherwise. */
  lemma WaitsSpec(outs: seq<Outcome>)
    ensures |Waits(outs)| == if outs == [] then 0 else |outs| - 1
    ensures forall i :: 0 <= i < |Waits(outs)| ==> Waits(outs)[i] == (if outs[i].Raised? then 15 else 10)
  {
    if outs != [] {
      PausesSpec(outs[..|outs| - 1]);
    }
  }
}
