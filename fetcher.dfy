/**
 * The deduplicating fetch cycle (`fetch_new_articles`): resolve the feed
 * URLs, load the seen set, walk every entry of every feed in order, keep the
 * entries whose link is new, and write the seen set back only when something
 * new was found. The feed parser is a function parameter from URL to entries.
 */
module Fetcher {
  import opened Wrappers
  import opened FeedUrls
  import opened SeenStore

  /** One entry of a parsed feed: `link` and `title` may be missing. */
  datatype Entry = Entry(link: Option<string>, title: Option<string>)

  /** One returned article, `{"title": ..., "link": ...}`. */
  datatype Article = Article(title: string, link: string)

  /** The entry's link is present and non-empty (Python truthiness). */
  predicate HasLink(e: Entry) {
    Truthy(e.link)
  }

  /** The article an entry becomes; a missing title becomes `""`. */
  function ToArticle(e: Entry): Article
    requires HasLink(e)
  {
    Article(e.title.GetOr(""), e.link.value)
  }

  /** The state of the loop: the seen set and the articles found so far. */
  datatype Scan = Scan(seen: set<string>, found: seq<Article>)

  /** What one iteration of the inner loop does with one entry. */
  function Step(st: Scan, e: Entry): Scan {
    if HasLink(e) && e.link.value !in st.seen then
      Scan(st.seen + {e.link.value}, st.found + [ToArticle(e)])
    else st
  }

  /** The loop state after processing `entries` in order, starting from `st`. */
  function Run(st: Scan, entries: seq<Entry>): Scan {
    if entries == [] then st
    else Step(Run(st, entries[..|entries| - 1]), entries[|entries| - 1])
  }

  /** All entries of all feeds, feed by feed. */
  function Flatten(feeds: seq<seq<Entry>>): seq<Entry> {
    if feeds == [] then [] else Flatten(feeds[..|feeds| - 1]) + feeds[|feeds| - 1]
  }

  /** The entries the parser gives for each URL, in URL order. */
  function FeedsOf(urls: seq<string>, parse: string -> seq<Entry>): seq<seq<Entry>> {
    seq(|urls|, i requires 0 <= i < |urls| => parse(urls[i]))
  }

  /** The links present in `entries`. */
  function LinksIn(entries: seq<Entry>): set<string> {
    set i | 0 <= i < |entries| && HasLink(entries[i]) :: entries[i].link.value
  }

  /** The links of `articles`. */
  function LinksOf(articles: seq<Article>): set<string> {
    set i | 0 <= i < |articles| :: articles[i].link
  }

  /**
   * Entry `i` is reported: its link is present, was not seen before the
   * cycle and does not occur in an earlier entry of the cycle.
   */
  predicate FirstNewAt(entries: seq<Entry>, seen0: set<string>, i: nat)
    requires i < |entries|
  {
    HasLink(entries[i]) && entries[i].link.value !in seen0
    && forall j :: 0 <= j < i ==> entries[j].link != entries[i].link
  }

  /**
   * The reference for one cycle: the articles of the entries that are
   * reported, in encounter order.
   */
  function FirstNew(entries: seq<Entry>, seen0: set<string>): seq<Article> {
    if entries == [] then []
    else
      var n := |entries| - 1;
      FirstNew(entries[..n], seen0) + (if FirstNewAt(entries, seen0, n) then [ToArticle(entries[n])] else [])
  }

  // ---------------------------------------------------------------------------
  // The loop agrees with the reference

  lemma LinksInSnoc(entries: seq<Entry>, e: Entry)
    ensures LinksIn(entries + [e]) == LinksIn(entries) + (if HasLink(e) then {e.link.value} else {})
  {
    var all := entries + [e];
    forall l ensures l in LinksIn(all) <==> l in LinksIn(entries) || (HasLink(e) && l == e.link.value) {
      if l in LinksIn(entries) {
        var i :| 0 <= i < |entries| && HasLink(entries[i]) && entries[i].link.value == l;
        assert all[i] == entries[i];
      }
      if HasLink(e) && l == e.link.value {
        assert all[|entries|] == e;
      }
      if l in LinksIn(all) {
        var i :| 0 <= i < |all| && HasLink(all[i]) && all[i].link.value == l;
        if i < |entries| {
          assert all[i] == entries[i];
        }
      }
    }
  }

  /** An entry is reported exactly when its link is present and in neither the initial set nor an earlier entry. */
  lemma FirstNewAtLinks(entries: seq<Entry>, seen0: set<string>, i: nat)
    requires i < |entries|
    ensures FirstNewAt(entries, seen0, i) <==>
      HasLink(entries[i]) && entries[i].link.value !in seen0 + LinksIn(entries[..i])
  {
    var prefix := entries[..i];
    if HasLink(entries[i]) {
      var l := entries[i].link.value;
      if l in LinksIn(prefix) {
        var j :| 0 <= j < |prefix| && HasLink(prefix[j]) && prefix[j].link.value == l;
        assert entries[j].link == entries[i].link;
      }
      if exists j :: 0 <= j < i && entries[j].link == entries[i].link {
        var j :| 0 <= j < i && entries[j].link == entries[i].link;
        assert prefix[j] == entries[j];
      }
    }
  }

  /**
   * The loop computes the reference: after any prefix of the entries the
   * seen set is the initial set plus every link met, and the articles found
   * are exactly the first-new ones.
   */
  lemma {:induction false} RunIsFirstNew(seen0: set<string>, entries: seq<Entry>)
    ensures Run(Scan(seen0, []), entries) == Scan(seen0 + LinksIn(entries), FirstNew(entries, seen0))
  {
    if entries == [] {
      assert LinksIn(entries) == {};
    } else {
      var n := |entries| - 1;
      var prefix, e := entries[..n], entries[n];
      assert entries == prefix + [e];
      RunIsFirstNew(seen0, prefix);
      LinksInSnoc(prefix, e);
      FirstNewAtLinks(entries, seen0, n);
    }
  }

  // ---------------------------------------------------------------------------
  // Properties of the reference

  /**
   * Every reported article has a non-empty link that was not seen before,
   * no link is reported twice, and the links reported are exactly the new
   * links of the cycle.
   */
  lemma {:induction false} FirstNewSpec(entries: seq<Entry>, seen0: set<string>)
    ensures var found := FirstNew(entries, seen0);
      && (forall k :: 0 <= k < |found| ==> found[k].link != "" && found[k].link !in seen0)
      && (forall i, j :: 0 <= i < j < |found| ==> found[i].link != found[j].link)
      && LinksOf(found) == LinksIn(entries) - seen0
  {
    if entries != [] {
      var n := |entries| - 1;
      var prefix, e := entries[..n], entries[n];
      assert entries == prefix + [e];
      FirstNewSpec(prefix, seen0);
      LinksInSnoc(prefix, e);
      FirstNewAtLinks(entries, seen0, n);
      var before := FirstNew(prefix, seen0);
      var found := FirstNew(entries, seen0);
      if FirstNewAt(entries, seen0, n) {
        assert found == before + [ToArticle(e)];
        assert e.link.value !in LinksOf(before);
        forall l ensures l in LinksOf(found) <==> l in LinksOf(before) || l == e.link.value {
          if l in LinksOf(found) {
            var k :| 0 <= k < |found| && found[k].link == l;
            if k < |before| {
              assert found[k] == before[k];
            }
          }
          if l in LinksOf(before) {
            var k :| 0 <= k < |before| && before[k].link == l;
            assert found[k] == before[k];
          }
          if l == e.link.value {
            assert found[|before|].link == l;
          }
        }
        forall i, j | 0 <= i < j < |found| ensures found[i].link != found[j].link {
          if j == |before| {
            assert found[i] == before[i];
            assert before[i].link in LinksOf(before);
          }
        }
      } else {
        assert found == before;
      }
    } else {
      assert LinksIn(entries) == {};
    }
  }

  /** Once every link of the entries is seen, a cycle reports nothing. */
  lemma FirstNewNothingNew(entries: seq<Entry>, seen0: set<string>)
    requires LinksIn(entries) <= seen0
    ensures FirstNew(entries, seen0) == []
  {
    FirstNewSpec(entries, seen0);
    NoLinksNoArticles(FirstNew(entries, seen0));
  }

  lemma NoLinksNoArticles(articles: seq<Article>)
    ensures LinksOf(articles) == {} <==> articles == []
  {
    if articles != [] {
      assert articles[0].link in LinksOf(articles);
    }
  }

  /**
   * Feeds one after another: the second feed's new articles are judged
   * against the initial set and everything the first feed held.
   */
  lemma {:induction false} FirstNewAppend(a: seq<Entry>, b: seq<Entry>, seen0: set<string>)
    ensures FirstNew(a + b, seen0) == FirstNew(a, seen0) + FirstNew(b, seen0 + LinksIn(a))
  {
    if b == [] {
      assert a + b == a;
    } else {
      var n := |b| - 1;
      var b', e := b[..n], b[n];
      var all := a + b;
      var last := |all| - 1;
      assert all[..last] == a + b';
      assert all[last] == e;
      assert b[..n] == b';
      FirstNewAppend(a, b', seen0);
      LinksInAppend(a, b');
      FirstNewAtLinks(all, seen0, last);
      FirstNewAtLinks(b, seen0 + LinksIn(a), n);
      assert FirstNewAt(all, seen0, last) == FirstNewAt(b, seen0 + LinksIn(a), n);
      var tail := if FirstNewAt(all, seen0, last) then [ToArticle(e)] else [];
      assert FirstNew(all, seen0) == FirstNew(a + b', seen0) + tail;
      assert FirstNew(b, seen0 + LinksIn(a)) == FirstNew(b', seen0 + LinksIn(a)) + tail;
    }
  }

  lemma LinksInAppend(a: seq<Entry>, b: seq<Entry>)
    ensures LinksIn(a + b) == LinksIn(a) + LinksIn(b)
  {
    var all := a + b;
    forall l ensures l in LinksIn(all) <==> l in LinksIn(a) || l in LinksIn(b) {
      if l in LinksIn(a) {
        var i :| 0 <= i < |a| && HasLink(a[i]) && a[i].link.value == l;
        assert all[i] == a[i];
      }
      if l in LinksIn(b) {
        var i :| 0 <= i < |b| && HasLink(b[i]) && b[i].link.value == l;
        assert all[|a| + i] == b[i];
      }
      if l in LinksIn(all) {
        var i :| 0 <= i < |all| && HasLink(all[i]) && all[i].link.value == l;
        if i < |a| {
          assert all[i] == a[i];
        } else {
          assert all[i] == b[i - |a|];
        }
      }
    }
  }

  /**
   * A second cycle over the same entries, started from the seen set the
   * first one ended with, reports nothing.
   */
  lemma SecondCycleFindsNothing(entries: seq<Entry>, seen0: set<string>)
    ensures FirstNew(entries, Run(Scan(seen0, []), entries).seen) == []
  {
    RunIsFirstNew(seen0, entries);
    FirstNewNothingNew(entries, seen0 + LinksIn(entries));
  }

  /**
   * tests/test_rss_fetcher.py: a feed with one entry whose link is new gives
   * that one article, and its link joins the seen set.
   */
  lemma SingleEntryCycle(link: string, title: string, seen0: set<string>)
    requires link != "" && link !in seen0
    ensures FirstNew([Entry(Some(link), Some(title))], seen0) == [Article(title, link)]
    ensures Run(Scan(seen0, []), [Entry(Some(link), Some(title))]).seen == seen0 + {link}
  {
    var entries := [Entry(Some(link), Some(title))];
    assert entries[..0] == [];
  }

  /** An entry without a link changes nothing: it is not reported and its link is not recorded. */
  lemma EntryWithoutLinkIgnored(st: Scan, entries: seq<Entry>, e: Entry)
    requires !HasLink(e)
    ensures Run(st, entries + [e]) == Run(st, entries)
  {
    assert (entries + [e])[..|entries|] == entries;
  }

  // ---------------------------------------------------------------------------
  // The cycle

  /** The store after a cycle: what was written, or the old store when nothing was. */
  function StoreAfter(store: Option<seq<string>>, written: Option<seq<string>>): Option<seq<string>> {
    if written.Some? then written else store
  }

  /** What one cycle over `entries` ends with, starting from the loaded set `seen0`. */
  lemma CycleOutcome(seen0: set<string>, entries: seq<Entry>)
    ensures var st := Run(Scan(seen0, []), entries);
      && st.found == FirstNew(entries, seen0)
      && st.seen == seen0 + LinksIn(entries)
      && st.seen == seen0 + LinksOf(st.found)
      && (st.found == [] ==> st.seen == seen0)
  {
    RunIsFirstNew(seen0, entries);
    FirstNewSpec(entries, seen0);
    NoLinksNoArticles(FirstNew(entries, seen0));
  }

  /**
   * The nested loop of `fetch_new_articles`: parse each URL in turn and walk
   * its entries, adding each new link to `seen` and its article to
   * `newArticles`.
   */
  method ScanFeeds(urls: seq<string>, parse: string -> seq<Entry>, seen0: set<string>)
    returns (seen: set<string>, newArticles: seq<Article>)
    ensures Scan(seen, newArticles) == Run(Scan(seen0, []), Flatten(FeedsOf(urls, parse)))
  {
    ghost var feeds := FeedsOf(urls, parse);
    seen, newArticles := seen0, [];
    for i := 0 to |urls|
      invariant Scan(seen, newArticles) == Run(Scan(seen0, []), Flatten(feeds[..i]))
    {
      var feed := parse(urls[i]);
      ghost var done := Flatten(feeds[..i]);
      assert done + feed[..0] == done;
      for j := 0 to |feed|
        invariant Scan(seen, newArticles) == Run(Scan(seen0, []), done + feed[..j])
      {
        var entry := feed[j];
        var link := entry.link;
        var title := entry.title.GetOr("");
        assert (done + feed[..j + 1])[..|done + feed[..j + 1]| - 1] == done + feed[..j];
        if Truthy(link) && link.value !in seen {
          newArticles := newArticles + [Article(title, link.value)];
          seen := seen + {link.value};
        }
      }
      assert feeds[..i + 1][..i] == feeds[..i];
      assert feed[..|feed|] == feed;
    }
    assert feeds[..|urls|] == feeds;
  }

  /**
   * `fetch_new_articles(config_path)`. `store` is the content of the seen
   * file (`None` when it does not exist); `written` is what `save_seen`
   * writes to it, `None` when the cycle does not write.
   */
  method FetchNewArticles(configPath: Option<string>, env: Env, files: map<string, ConfigValue>,
                          parse: string -> seq<Entry>, store: Option<seq<string>>)
    returns (result: Result<seq<Article>, ConfigError>, written: Option<seq<string>>)
    ensures ResolveFeedUrls(configPath, env, files).Err? ==>
      result == Err(ResolveFeedUrls(configPath, env, files).error) && written == None
    ensures ResolveFeedUrls(configPath, env, files).Ok? ==>
      var entries := Flatten(FeedsOf(ResolveFeedUrls(configPath, env, files).value, parse));
      && result == Ok(FirstNew(entries, LoadSeen(store)))
      && LinksOf(result.value) == LinksIn(entries) - LoadSeen(store)
      && LoadSeen(StoreAfter(store, written)) == LoadSeen(store) + LinksIn(entries)
    ensures result.Ok? ==> forall k :: 0 <= k < |result.value| ==>
      result.value[k].link != "" && result.value[k].link !in LoadSeen(store)
    ensures result.Ok? ==> forall i, j :: 0 <= i < j < |result.value| ==>
      result.value[i].link != result.value[j].link
    ensures written.Some? <==> result.Ok? && result.value != []
    ensures written.Some? ==>
      (StrictlyIncreasing(written.value)
       && forall x :: x in written.value <==> x in LoadSeen(store) || x in LinksOf(result.value))
  {
    var resolved := ResolveFeedUrls(configPath, env, files);
    if resolved.Err? {
      return Err(resolved.error), None;
    }
    var urls := resolved.value;
    ghost var seen0 := LoadSeen(store);
    var seen, newArticles := ScanFeeds(urls, parse, LoadSeen(store));
    ghost var entries := Flatten(FeedsOf(urls, parse));
    CycleOutcome(seen0, entries);
    FirstNewSpec(entries, seen0);
    if newArticles != [] {
      written := Some(SeenSnapshot(seen));
      SnapshotRoundTrip(seen);
    } else {
      written := None;
    }
    assert LoadSeen(StoreAfter(store, written)) == seen;
    result := Ok(newArticles);
  }

  /**
   * Two cycles in a row against the same feeds, the second reading the store
   * the first left behind: the second reports nothing.
   */
  method TwoCycles(configPath: Option<string>, env: Env, files: map<string, ConfigValue>,
                   parse: string -> seq<Entry>, store: Option<seq<string>>)
    returns (first: Result<seq<Article>, ConfigError>, second: Result<seq<Article>, ConfigError>)
    ensures first.Err? <==> second.Err?
    ensures first.Ok? ==> second == Ok([])
  {
    var written;
    first, written := FetchNewArticles(configPath, env, files, parse, store);
    var store' := StoreAfter(store, written);
    var written';
    second, written' := FetchNewArticles(configPath, env, files, parse, store');
    if first.Ok? {
      var entries := Flatten(FeedsOf(ResolveFeedUrls(configPath, env, files).value, parse));
      FirstNewNothingNew(entries, LoadSeen(store'));
    }
  }
}
