# RSS fetcher: verified model of feed resolution and deduplicated fetching

This project models the core of a small RSS poller (`rss_fetcher.py`). One
fetch cycle does the following:

1. It resolves the list of feed URLs from the `RSS_FEEDS` environment
   variable or from a JSON configuration file.
2. It loads the set of links already seen from `seen_articles.json`.
3. It walks every entry of every feed, in order, and keeps the entries whose
   link is present and new.
4. It writes the updated seen set back, sorted, but only when something new
   was found.

The environment, the files, the feed parser and the seen-link store are all
plain inputs to the model:

- `FeedUrls.Env` holds the values of `RSS_FEEDS` and `RSS_CONFIG`.
- The configuration files are a map from path to an already-parsed JSON
  value (`ConfigValue`). A path is a file that exists exactly when it is a
  key of the map.
- `feedparser.parse` is a function parameter from URL to a sequence of
  `Entry` values. Each entry has an optional `link` and an optional `title`.
- The seen store is an optional list of strings. `None` means the file does
  not exist. The cycle returns what it writes to the store (`None` when it
  does not write).

Modules:

- `Wrappers` (`wrappers.dfy`): `Option` and `Result`.
- `Text` (`text.dfy`): Python's `str.isspace`, `str.strip()` and
  `str.split(",")`, with `Join` as the inverse of `Split`.
- `FeedUrls` (`feed_urls.dfy`): `get_feed_urls`.
- `SeenStore` (`seen_store.dfy`): Python's ordering of `str`, `sorted(seen)`
  as written by `save_seen`, and `load_seen`.
- `Fetcher` (`fetcher.dfy`): the nested loop of `fetch_new_articles` as a
  method (`ScanFeeds`), the whole cycle (`FetchNewArticles`), and the
  reference definition `FirstNew`. `FirstNew` says which entries a cycle
  reports: those whose link is present, was not seen before the cycle and
  does not occur in an earlier entry. The loop is proved to compute exactly
  this reference (`RunIsFirstNew`).

A note on the path rule: a general description of this rule would say "the
explicit path argument if given". The code (rss_fetcher.py:33) uses Python
`or`, so an empty path argument, or an empty `RSS_CONFIG`, falls through to
the next candidate. The model follows the code.

## Model

| member | source | states |
|---|---|---|
| Text.TrimLeft | rss_fetcher.py:31 | the result is a suffix of the input, everything cut off is whitespace, and it does not start with whitespace |
| Text.TrimRight | rss_fetcher.py:31 | the result is a prefix of the input, everything cut off is whitespace, and it does not end with whitespace |
| Text.Strip | rss_fetcher.py:31 | `strip()` leaves no whitespace at either end, is never longer than its input and adds no character |
| Text.StripIsSlice | rss_fetcher.py:31 | what `strip()` keeps is one contiguous slice of the input, with only whitespace before and after it |
| Text.StripUnique | rss_fetcher.py:31 | `strip()` is determined: surrounding a string that has no whitespace at its ends with whitespace on both sides, and stripping, gives that string back |
| Text.StripStripped | rss_fetcher.py:31 | `strip()` leaves an already stripped string unchanged |
| Text.StripLeadingSpace | rss_fetcher.py:31 | `strip()` removes a space put before a stripped string |
| Text.Split | rss_fetcher.py:31 | `split(sep)` gives at least one piece, no piece contains the separator, and joining the pieces with the separator gives the input back |
| Text.SplitJoin | rss_fetcher.py:31 | splitting a join of separator-free pieces gives those pieces back, empty ones included |
| Text.SplitPieceChars | rss_fetcher.py:31 | every character of every piece comes from the split string |
| FeedUrls.ConfigPath | rss_fetcher.py:33 | the chosen path is never empty: the path argument if truthy, else `RSS_CONFIG` if truthy, else `rss_config.json` |
| FeedUrls.CleanPieces | rss_fetcher.py:31 | the comprehension keeps at most as many URLs as pieces, and each is non-empty with no whitespace at either end |
| FeedUrls.CleanPiecesAppend | rss_fetcher.py:31 | the comprehension works piece by piece: cleaning a concatenation is the concatenation of the cleanings, so order is kept |
| FeedUrls.CleanPiecesMembers | rss_fetcher.py:31 | a string is in the result exactly when it is non-empty and is the strip of some piece |
| FeedUrls.CleanPiecesAvoid | rss_fetcher.py:31 | a character that no piece contains is in no kept URL |
| FeedUrls.CleanPiecesBlank | rss_fetcher.py:31 | pieces that are all whitespace give no URL |
| FeedUrls.EnvFeedUrls | rss_fetcher.py:29-31 | every URL read from `RSS_FEEDS` is non-empty, has no leading or trailing whitespace and contains no comma |
| FeedUrls.EnvFeedUrlsOfPieces | rss_fetcher.py:29-31 | for a value written as comma-free pieces joined by commas, the result is exactly those pieces, each stripped, the empty ones dropped, in their order |
| FeedUrls.CleanPiecesPair | rss_fetcher.py:31 | two pieces whose strips are non-empty give those two strips, in order |
| FeedUrls.EnvFeedUrlsTwo | tests/test_rss_fetcher.py:20-27 | two URLs separated by `", "` are read back as exactly those two URLs |
| FeedUrls.ResolveFeedUrls | rss_fetcher.py:20-41 | resolution fails exactly when `RSS_FEEDS` is not truthy and the chosen file holds a JSON value that is neither an array nor an object, because `.get` then raises |
| FeedUrls.EnvFeedsOverrideConfig | rss_fetcher.py:29-31 | a truthy `RSS_FEEDS` decides the result alone, whatever the path argument, `RSS_CONFIG` and the files are |
| FeedUrls.BlankEnvFeedsGiveNoUrls | rss_fetcher.py:29-31 | an `RSS_FEEDS` of only commas and whitespace gives no URL, and the file is not consulted |
| FeedUrls.EmptyEnvFeedsFallThrough | rss_fetcher.py:29-30 | an empty `RSS_FEEDS` behaves exactly as an unset one |
| FeedUrls.EmptyPathsFallThrough | rss_fetcher.py:33 | an empty path argument or an empty `RSS_CONFIG` counts as absent |
| FeedUrls.ConfigListReturnedAsIs | rss_fetcher.py:35-39 | a JSON array in the chosen file is returned unchanged |
| FeedUrls.ConfigObjectFeeds | rss_fetcher.py:35-40 | a JSON object gives its `"feeds"` value, or no URL when that key is absent |
| FeedUrls.MissingConfigGivesNoUrls | rss_fetcher.py:35-41 | a chosen file that does not exist gives no URL and no error |
| FeedUrls.OnlyChosenFileRead | rss_fetcher.py:33-37 | the result depends on the files only through the file at the chosen path |
| FeedUrls.ConfigFileExample | tests/test_rss_fetcher.py:12-17 | a list file passed as the path argument, with no environment variables set, gives its URL list |
| SeenStore.LessIrreflexive | rss_fetcher.py:53 | no string is smaller than itself under Python's `str` ordering |
| SeenStore.LessAsymmetric | rss_fetcher.py:53 | two strings are never each smaller than the other |
| SeenStore.LessTransitive | rss_fetcher.py:53 | the `str` ordering is transitive |
| SeenStore.LessTotal | rss_fetcher.py:53 | of two different strings one is smaller, so `sorted` has a single answer |
| SeenStore.LeastExists | rss_fetcher.py:53 | every non-empty set of strings has a smallest element |
| SeenStore.LeastUnique | rss_fetcher.py:53 | a set of strings has at most one smallest element |
| SeenStore.SeenSnapshot | rss_fetcher.py:51-53 | `sorted(seen)` holds exactly the set's elements, each once, in strictly increasing order |
| SeenStore.LoadSeen | rss_fetcher.py:44-48 | loading gives the stored array's elements, or the empty set when there is no store |
| SeenStore.SnapshotRoundTrip | rss_fetcher.py:44-53 | loading what `save_seen` wrote gives back the saved set |
| SeenStore.SortedUnique | rss_fetcher.py:53 | two strictly increasing lists with the same elements are equal |
| SeenStore.SnapshotDetermined | rss_fetcher.py:53 | any strictly increasing list of the set's elements is the written snapshot |
| SeenStore.SnapshotExample | rss_fetcher.py:53 | links discovered as `"b"` then `"a"` are written as `["a", "b"]` |
| Fetcher.FirstNewAtLinks | rss_fetcher.py:69-71 | an entry is reported exactly when its link is present and in neither the initial seen set nor an earlier entry |
| Fetcher.RunIsFirstNew | rss_fetcher.py:66-73 | after any prefix of the entries, the loop's seen set is the initial set plus every link met, and its articles are exactly the first-new ones |
| Fetcher.FirstNewSpec | rss_fetcher.py:69-73 | every reported article has a non-empty link not in the initial set, no link is reported twice, and the reported links are exactly the new links of the cycle |
| Fetcher.FirstNewNothingNew | rss_fetcher.py:71 | once every link of the entries is seen, nothing is reported |
| Fetcher.FirstNewAppend | rss_fetcher.py:66-73 | across feeds, a later feed's articles are judged against the initial set and every link of the earlier feeds, so a link in two feeds is reported once, from the first |
| Fetcher.SingleEntryCycle | tests/test_rss_fetcher.py:35-40 | a feed with one entry whose link is new gives exactly that article, and the link joins the seen set |
| Fetcher.SecondCycleFindsNothing | tests/test_rss_fetcher.py:42-44 | a second cycle over the same entries, from the seen set the first one ended with, reports nothing |
| Fetcher.EntryWithoutLinkIgnored | rss_fetcher.py:69-71 | an entry with a missing or empty link changes neither the articles nor the seen set |
| Fetcher.CycleOutcome | rss_fetcher.py:66-76 | the loop ends with the first-new articles and the seen set equal to the initial set plus their links; when nothing was found the set is unchanged |
| Fetcher.ScanFeeds | rss_fetcher.py:64-73 | the nested loop ends in the state the step-by-step reference gives for all entries of all feeds, in feed-then-entry order |
| Fetcher.FetchNewArticles | rss_fetcher.py:56-77 | a resolution error is returned with no write. Otherwise the result is the first-new articles of the parsed feeds: fresh, non-empty and pairwise distinct links. The store is written exactly when the result is non-empty, as a strictly increasing list of the initial set plus the new links, and reloading the store after the cycle gives that set |
| Fetcher.TwoCycles | tests/test_rss_fetcher.py:30-44 | two cycles in a row against the same inputs, the second reading the store the first left: the second reports nothing |

## Left out

- `feedparser.parse` is a function parameter. The model does not cover network fetching, per-feed parse failures (which propagate in the source) or `getattr(feed, "entries", [])` on a result without entries; the parameter returns the entry sequence directly.
- File and JSON I/O: `Path.exists`, `open`, `json.load` and `json.dump` are replaced by the configuration map and the optional stored list. Malformed JSON and read or write errors propagate in the source and are not modelled. File paths are compared as strings, with no normalisation.
- The bytes of the seen file (indentation from `indent=2`, JSON escaping) are not modelled. The model gives the list that is dumped.
- `os.getenv` is replaced by the `Env` parameter.
- Element types of the configuration are taken to be strings: a list config is a `seq<string>`, and an object's `"feeds"` value is a `seq<string>`. The source returns whatever JSON is there, unchecked.
- `load_seen` is modelled only as the initial seen set read from the stored list. The store's location (`SEEN_FILE`) is not modelled.
- Python strings may hold lone surrogate code points; Dafny characters cannot, so such strings are outside the model.
- The `__main__` block (rss_fetcher.py:80-83) only prints and is left out.
- rss_langchain_loader.py is not part of this model. It maps each article to a LangChain `Document` and has no logic of its own.
- Concurrent cycles that race on the seen file are not modelled. The source makes no guarantee about them.
