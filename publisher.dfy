/**
 * The publishing step of the script: the quotes whose text is not yet on the text
 * feed are sent, text then colour, and afterwards each feed is trimmed to its
 * `MAX_QUOTES` most recent data points.
 */
module Publisher {
  import opened Processing
  import opened Feeds

  /** How many data points each feed keeps. */
  const MAX_QUOTES: nat := 10

  function Min(a: nat, b: nat): nat {
    if a <= b then a else b
  }

  /** A sequence in reverse order: the listing order of values sent in sequence order. */
  function Reversed<T>(s: seq<T>): (r: seq<T>)
    ensures |r| == |s|
  {
    if s == [] then [] else [s[|s| - 1]] + Reversed(s[..|s| - 1])
  }

  /** Position `k` of the reversal holds position `|s| - 1 - k` of the original. */
  lemma {:induction false} ReversedAt<T>(s: seq<T>, k: nat)
    requires k < |s|
    ensures Reversed(s)[k] == s[|s| - 1 - k]
  {
    if k > 0 {
      ReversedAt(s[..|s| - 1], k - 1);
    }
  }

  function ColorValues(qs: seq<Quote>): seq<string> {
    seq(|qs|, k requires 0 <= k < |qs| => qs[k].color)
  }

  // ---------------------------------------------------------------------------
  // De-duplication against the snapshot
  // ---------------------------------------------------------------------------

  /** The quotes of a batch that get sent: those whose text is not in the snapshot, in batch order. */
  function Unpublished(quotes: seq<Quote>, published: seq<string>): (r: seq<Quote>)
    ensures |r| <= |quotes|
  {
    if quotes == [] then []
    else
      var init := quotes[..|quotes| - 1];
      var last := quotes[|quotes| - 1];
      assert quotes == init + [last];
      Unpublished(init, published) + (if last.text in published then [] else [last])
  }

  /** A quote is sent exactly when it is in the batch and its text is not in the snapshot. */
  lemma {:induction false} UnpublishedMembers(quotes: seq<Quote>, published: seq<string>)
    ensures forall q :: q in Unpublished(quotes, published) <==> q in quotes && q.text !in published
  {
    if quotes != [] {
      var init := quotes[..|quotes| - 1];
      var last := quotes[|quotes| - 1];
      assert quotes == init + [last];
      UnpublishedMembers(init, published);
    }
  }

  /** The snapshot is not updated while sending, so a text repeated within a batch is
      sent as often as it occurs. */
  lemma {:induction false} SentEachTime(quotes: seq<Quote>, published: seq<string>, q: Quote)
    requires q.text !in published
    ensures multiset(Unpublished(quotes, published))[q] == multiset(quotes)[q]
  {
    if quotes != [] {
      var init := quotes[..|quotes| - 1];
      var last := quotes[|quotes| - 1];
      assert quotes == init + [last];
      SentEachTime(init, published, q);
      if last.text in published {
        assert last != q;
      }
    }
  }

  /** A batch whose every text is already in the snapshot sends nothing. */
  lemma {:induction false} NothingNew(quotes: seq<Quote>, published: seq<string>)
    requires forall k :: 0 <= k < |quotes| ==> quotes[k].text in published
    ensures Unpublished(quotes, published) == []
  {
    if quotes != [] {
      NothingNew(quotes[..|quotes| - 1], published);
    }
  }

  /** Sending a batch and taking a new snapshot, the same batch sends nothing more. */
  lemma RepublishSendsNothing(quotes: seq<Quote>, published: seq<string>)
    ensures Unpublished(quotes, Reversed(Texts(Unpublished(quotes, published))) + published) == []
  {
    var sent := Unpublished(quotes, published);
    var again := Reversed(Texts(sent)) + published;
    UnpublishedMembers(quotes, published);
    forall k | 0 <= k < |quotes|
      ensures quotes[k].text in again
    {
      if quotes[k].text !in published {
        assert quotes[k] in sent;
        var m :| 0 <= m < |sent| && sent[m] == quotes[k];
        ReversedAt(Texts(sent), |sent| - 1 - m);
        assert again[|sent| - 1 - m] == quotes[k].text;
      }
    }
    NothingNew(quotes, again);
  }

  /** Against an empty snapshot the whole batch is sent. */
  lemma {:induction false} UnpublishedNoSnapshot(quotes: seq<Quote>)
    ensures Unpublished(quotes, []) == quotes
  {
    if quotes != [] {
      var init := quotes[..|quotes| - 1];
      UnpublishedNoSnapshot(init);
      assert quotes == init + [quotes[|quotes| - 1]];
    }
  }

  /** With distinct texts, the newest `MAX_QUOTES` texts of a longer batch, sent in
      order, do not include the first quote's text. */
  lemma NewestLackFirst(quotes: seq<Quote>)
    requires |quotes| > MAX_QUOTES
    requires forall i, j :: 0 <= i < j < |quotes| ==> quotes[i].text != quotes[j].text
    ensures forall k :: 0 <= k < MAX_QUOTES ==> Reversed(Texts(quotes))[k] != quotes[0].text
  {
    forall k | 0 <= k < MAX_QUOTES
      ensures Reversed(Texts(quotes))[k] != quotes[0].text
    {
      ReversedAt(Texts(quotes), k);
      assert Reversed(Texts(quotes))[k] == quotes[|quotes| - 1 - k].text;
    }
  }

  /** De-duplication does not survive pruning. A run over more than `MAX_QUOTES` quotes with
      distinct texts, on empty feeds, leaves the text feed with the newest `MAX_QUOTES` texts
      (as `AdafruitIOAccess` states); the next run's snapshot is that pruned listing, which
      lacks the first quote's text, so the same batch sends the first quote again. */
  lemma PrunedQuoteResent(quotes: seq<Quote>)
    requires |quotes| > MAX_QUOTES
    requires forall i, j :: 0 <= i < j < |quotes| ==> quotes[i].text != quotes[j].text
    ensures var texts := Reversed(Texts(Unpublished(quotes, []))) + [];
            quotes[0] in Unpublished(quotes, texts[..Min(MAX_QUOTES, |texts|)])
  {
    UnpublishedNoSnapshot(quotes);
    var texts := Reversed(Texts(quotes)) + [];
    assert |texts| == |quotes|;
    var kept := texts[..MAX_QUOTES];
    NewestLackFirst(quotes);
    assert forall k :: 0 <= k < |kept| ==> kept[k] == Reversed(Texts(quotes))[k];
    assert quotes[0].text !in kept;
    UnpublishedMembers(quotes, kept);
    assert quotes[0] in quotes;
  }

  // ---------------------------------------------------------------------------
  // Publishing
  // ---------------------------------------------------------------------------

  /** The fetched listing is overwritten in place by the values of its data points. */
  method Snapshot(listed: seq<Entry>) returns (published: seq<string>)
    ensures published == Values(listed)
  {
    published := seq(|listed|, _ => "");
    var i := 0;
    while i < |listed|
      invariant 0 <= i <= |listed|
      invariant |published| == |listed|
      invariant forall k :: 0 <= k < i ==> published[k] == listed[k].value
    {
      published := published[i := listed[i].value];
      i := i + 1;
    }
  }

  lemma UnpublishedStep(quotes: seq<Quote>, published: seq<string>, i: nat)
    requires i < |quotes|
    ensures Unpublished(quotes[..i + 1], published)
            == Unpublished(quotes[..i], published)
               + (if quotes[i].text in published then [] else [quotes[i]])
  {
    assert quotes[..i + 1][..i] == quotes[..i];
  }

  lemma ReversedSnoc<T>(s: seq<T>, x: T)
    ensures Reversed(s + [x]) == [x] + Reversed(s)
  {
    assert (s + [x])[..|s|] == s;
  }

  /** The listed texts grow by the text of quote `i` exactly when it is sent ... */
  lemma SentTextsStep(quotes: seq<Quote>, published: seq<string>, i: nat, before: seq<string>)
    requires i < |quotes|
    ensures (if quotes[i].text in published then [] else [quotes[i].text])
              + (Reversed(Texts(Unpublished(quotes[..i], published))) + before)
            == Reversed(Texts(Unpublished(quotes[..i + 1], published))) + before
  {
    var sent := Unpublished(quotes[..i], published);
    var q := quotes[i];
    UnpublishedStep(quotes, published, i);
    if q.text !in published {
      assert Texts(sent + [q]) == Texts(sent) + [q.text];
      ReversedSnoc(Texts(sent), q.text);
      var r := Reversed(Texts(sent));
      assert [q.text] + (r + before) == ([q.text] + r) + before;
    } else {
      assert sent + [] == sent;
    }
  }

  /** ... and the listed colours by its colour. */
  lemma SentColorsStep(quotes: seq<Quote>, published: seq<string>, i: nat, before: seq<string>)
    requires i < |quotes|
    ensures (if quotes[i].text in published then [] else [quotes[i].color])
              + (Reversed(ColorValues(Unpublished(quotes[..i], published))) + before)
            == Reversed(ColorValues(Unpublished(quotes[..i + 1], published))) + before
  {
    var sent := Unpublished(quotes[..i], published);
    var q := quotes[i];
    UnpublishedStep(quotes, published, i);
    if q.text !in published {
      assert ColorValues(sent + [q]) == ColorValues(sent) + [q.color];
      ReversedSnoc(ColorValues(sent), q.color);
      var r := Reversed(ColorValues(sent));
      assert [q.color] + (r + before) == ([q.color] + r) + before;
    } else {
      assert sent + [] == sent;
    }
  }

  /** Sends one quote: its text to the text feed, then its colour to the colour feed. */
  method Send(store: FeedStore, q: Quote)
    requires store.Valid()
    modifies store
    ensures store.Valid()
    ensures Values(store.text) == [q.text] + old(Values(store.text))
    ensures Values(store.color) == [q.color] + old(Values(store.color))
  {
    ghost var text0 := store.text;
    store.Append(TextFeed, q.text);
    ValuesCons(store.text[0], text0);
    ghost var color0 := store.color;
    store.Append(ColorFeed, q.color);
    ValuesCons(store.color[0], color0);
  }

  /** Sends one quote unless its text is in the snapshot. */
  method SendUnlessPublished(store: FeedStore, published: seq<string>, q: Quote)
    requires store.Valid()
    modifies store
    ensures store.Valid()
    ensures Values(store.text)
            == (if q.text in published then [] else [q.text]) + old(Values(store.text))
    ensures Values(store.color)
            == (if q.text in published then [] else [q.color]) + old(Values(store.color))
  {
    if q.text in published {
      assert [] + Values(store.text) == Values(store.text);
      assert [] + Values(store.color) == Values(store.color);
    } else {
      Send(store, q);
    }
  }

  /** Sends every quote whose text was not on the text feed when the batch started. */
  method Publish(store: FeedStore, quotes: seq<Quote>)
    requires store.Valid()
    modifies store
    ensures store.Valid()
    ensures Values(store.text)
            == Reversed(Texts(Unpublished(quotes, old(Values(store.text))))) + old(Values(store.text))
    ensures Values(store.color)
            == Reversed(ColorValues(Unpublished(quotes, old(Values(store.text))))) + old(Values(store.color))
  {
    var listed := store.List(TextFeed);
    var published := Snapshot(listed);
    ghost var texts0 := Values(store.text);
    ghost var colors0 := Values(store.color);
    var i := 0;
    while i < |quotes|
      invariant 0 <= i <= |quotes|
      invariant store.Valid()
      invariant Values(store.text) == Reversed(Texts(Unpublished(quotes[..i], published))) + texts0
      invariant Values(store.color) == Reversed(ColorValues(Unpublished(quotes[..i], published))) + colors0
    {
      SendUnlessPublished(store, published, quotes[i]);
      SentTextsStep(quotes, published, i, texts0);
      SentColorsStep(quotes, published, i, colors0);
      i := i + 1;
    }
    assert quotes[..|quotes|] == quotes;
  }

  // ---------------------------------------------------------------------------
  // Pruning
  // ---------------------------------------------------------------------------

  /** Deleting the data point at listed index `i` from what is left after the earlier deletions. */
  lemma PruneStep(published: seq<Entry>, i: nat)
    requires MAX_QUOTES <= i < |published|
    requires UniqueIds(published[..MAX_QUOTES] + published[i..])
    ensures RemoveId(published[..MAX_QUOTES] + published[i..], published[i].id)
            == published[..MAX_QUOTES] + published[i + 1..]
  {
    var cur := published[..MAX_QUOTES] + published[i..];
    assert cur[MAX_QUOTES] == published[i];
    RemoveIdAt(cur, MAX_QUOTES);
    assert cur[..MAX_QUOTES] == published[..MAX_QUOTES];
    assert cur[MAX_QUOTES + 1..] == published[i + 1..];
  }

  /** One deletion of the pruning loop: the data point at listed index `i`, past the kept
      ones, goes. */
  method DeleteListed(store: FeedStore, feed: FeedKey, published: seq<Entry>, i: nat)
    requires store.Valid()
    requires MAX_QUOTES <= i < |published|
    requires store.Listed(feed) == published[..MAX_QUOTES] + published[i..]
    modifies store
    ensures store.Valid()
    ensures store.Listed(feed) == published[..MAX_QUOTES] + published[i + 1..]
    ensures feed == TextFeed ==> store.color == old(store.color)
    ensures feed == ColorFeed ==> store.text == old(store.text)
  {
    PruneStep(published, i);
    store.Delete(feed, published[i].id);
  }

  /** Deletes every data point of a feed at listed index `MAX_QUOTES` or beyond,
      keeping the most recent ones and leaving the other feed alone. */
  method Prune(store: FeedStore, feed: FeedKey)
    requires store.Valid()
    modifies store
    ensures store.Valid()
    ensures store.Listed(feed)
            == old(store.Listed(feed))[..Min(MAX_QUOTES, |old(store.Listed(feed))|)]
    ensures feed == TextFeed ==> store.color == old(store.color)
    ensures feed == ColorFeed ==> store.text == old(store.text)
  {
    var published := store.List(feed);
    var i := 0;
    while i < |published|
      invariant 0 <= i <= |published|
      invariant store.Valid()
      invariant i <= MAX_QUOTES ==> store.Listed(feed) == published
      invariant i > MAX_QUOTES ==> store.Listed(feed) == published[..MAX_QUOTES] + published[i..]
      invariant feed == TextFeed ==> store.color == old(store.color)
      invariant feed == ColorFeed ==> store.text == old(store.text)
    {
      if i > MAX_QUOTES - 1 {
        if i == MAX_QUOTES {
          assert published[..MAX_QUOTES] + published[i..] == published;
        }
        DeleteListed(store, feed, published, i);
      }
      i := i + 1;
    }
    if |published| > MAX_QUOTES {
      assert published[..MAX_QUOTES] + published[|published|..] == published[..MAX_QUOTES];
    } else {
      assert published[..|published|] == published;
    }
  }

  lemma ValuesPrefix(es: seq<Entry>, n: nat)
    requires n <= |es|
    ensures Values(es[..n]) == Values(es)[..n]
  {
  }

  /** Publishes the batch, then prunes the text feed, then the colour feed. */
  method AdafruitIOAccess(store: FeedStore, quotes: seq<Quote>)
    requires store.Valid()
    modifies store
    ensures store.Valid()
    ensures var sent := Unpublished(quotes, old(Values(store.text)));
            var texts := Reversed(Texts(sent)) + old(Values(store.text));
            var colors := Reversed(ColorValues(sent)) + old(Values(store.color));
            && Values(store.text) == texts[..Min(MAX_QUOTES, |texts|)]
            && Values(store.color) == colors[..Min(MAX_QUOTES, |colors|)]
  {
    Publish(store, quotes);
    ghost var text1 := store.text;
    ghost var color1 := store.color;
    Prune(store, TextFeed);
    Prune(store, ColorFeed);
    ValuesPrefix(text1, Min(MAX_QUOTES, |text1|));
    ValuesPrefix(color1, Min(MAX_QUOTES, |color1|));
  }

  // ---------------------------------------------------------------------------
  // What the feeds hold afterwards
  // ---------------------------------------------------------------------------

  /** Position `k` of the two feeds, among the newly sent values, holds the text and the
      colour of one and the same quote of the batch, one whose text was not yet published. */
  lemma SentPaired(quotes: seq<Quote>, published: seq<string>, k: nat)
    requires k < |Unpublished(quotes, published)|
    ensures var sent := Unpublished(quotes, published);
            var q := Quote(Reversed(Texts(sent))[k], Reversed(ColorValues(sent))[k]);
            q in quotes && q.text !in published
  {
    var sent := Unpublished(quotes, published);
    var m := |sent| - 1 - k;
    ReversedAt(Texts(sent), k);
    ReversedAt(ColorValues(sent), k);
    assert Reversed(Texts(sent))[k] == sent[m].text;
    assert Reversed(ColorValues(sent))[k] == sent[m].color;
    assert sent[m] in sent;
    UnpublishedMembers(quotes, published);
  }

  /** Feeds of equal length stay of equal length: both receive one data point per sent
      quote and both are cut at the same bound, which they never exceed. */
  lemma FeedsStayPaired(quotes: seq<Quote>, texts: seq<string>, colors: seq<string>)
    requires |texts| == |colors|
    ensures var sent := Unpublished(quotes, texts);
            var t := Reversed(Texts(sent)) + texts;
            var c := Reversed(ColorValues(sent)) + colors;
            && |t[..Min(MAX_QUOTES, |t|)]| == |c[..Min(MAX_QUOTES, |c|)]| <= MAX_QUOTES
            && (forall k :: 0 <= k < Min(MAX_QUOTES, |sent|) ==>
                  Quote(t[k], c[k]) in quotes && t[k] !in texts)
  {
    var sent := Unpublished(quotes, texts);
    var t := Reversed(Texts(sent)) + texts;
    var c := Reversed(ColorValues(sent)) + colors;
    forall k | 0 <= k < Min(MAX_QUOTES, |sent|)
      ensures Quote(t[k], c[k]) in quotes && t[k] !in texts
    {
      SentPaired(quotes, texts, k);
    }
  }
}
