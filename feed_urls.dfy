/**
 * Feed-URL resolution (`get_feed_urls`). The two environment variables, the
 * optional path argument and the configuration files that exist are inputs;
 * a file's content is given already parsed as JSON.
 */
module FeedUrls {
  import opened Wrappers
  import opened Text

  const DefaultConfigPath: string := "rss_config.json"
  const FeedsKey: string := "feeds"

  /** The values of `RSS_FEEDS` and `RSS_CONFIG`; `None` when a variable is unset. */
  datatype Env = Env(feeds: Option<string>, config: Option<string>)

  /** A parsed configuration file: a JSON array, a JSON object, or any other JSON value. */
  datatype ConfigValue =
    | ListValue(items: seq<string>)
    | ObjectValue(fields: map<string, seq<string>>)
    | ScalarValue

  /** `data.get(...)` on a JSON value that is neither an array nor an object raises. */
  datatype ConfigError = NotListOrObject

  /** Python truthiness of an optional string: set and non-empty. */
  predicate Truthy(o: Option<string>) {
    o.Some? && o.value != ""
  }

  /** `config_path or os.getenv("RSS_CONFIG") or "rss_config.json"`. */
  function ConfigPath(configPath: Option<string>, envConfig: Option<string>): (path: string)
    ensures path != ""
    ensures Truthy(configPath) ==> path == configPath.value
    ensures !Truthy(configPath) && Truthy(envConfig) ==> path == envConfig.value
    ensures !Truthy(configPath) && !Truthy(envConfig) ==> path == DefaultConfigPath
  {
    if Truthy(configPath) then configPath.value
    else if Truthy(envConfig) then envConfig.value
    else DefaultConfigPath
  }

  /** `[u.strip() for u in pieces if u.strip()]`. */
  function CleanPieces(pieces: seq<string>): (urls: seq<string>)
    ensures |urls| <= |pieces|
    ensures forall k :: 0 <= k < |urls| ==> urls[k] != "" && IsStripped(urls[k])
  {
    if pieces == [] then []
    else
      var t := Strip(pieces[0]);
      (if t == [] then [] else [t]) + CleanPieces(pieces[1..])
  }

  /** The URL list read from a non-empty `RSS_FEEDS` value. */
  function EnvFeedUrls(value: string): (urls: seq<string>)
    ensures forall k :: 0 <= k < |urls| ==> urls[k] != "" && IsStripped(urls[k]) && ',' !in urls[k]
  {
    var pieces := Split(value, ',');
    CleanPiecesAvoid(pieces, ',');
    CleanPieces(pieces)
  }

  /** `get_feed_urls(config_path)` with the environment and the files as inputs. */
  function ResolveFeedUrls(configPath: Option<string>, env: Env, files: map<string, ConfigValue>)
    : (r: Result<seq<string>, ConfigError>)
    ensures r.Err? <==>
      !Truthy(env.feeds) && ConfigPath(configPath, env.config) in files
      && files[ConfigPath(configPath, env.config)].ScalarValue?
  {
    if Truthy(env.feeds) then Ok(EnvFeedUrls(env.feeds.value))
    else
      var path := ConfigPath(configPath, env.config);
      if path in files then
        match files[path]
        case ListValue(items) => Ok(items)
        case ObjectValue(fields) => Ok(if FeedsKey in fields then fields[FeedsKey] else [])
        case ScalarValue => Err(NotListOrObject)
      else Ok([])
  }

  // ---------------------------------------------------------------------------
  // The comma-separated branch

  /** Concatenated inputs are cleaned piece by piece, so order is kept. */
  lemma {:induction false} CleanPiecesAppend(a: seq<string>, b: seq<string>)
    ensures CleanPieces(a + b) == CleanPieces(a) + CleanPieces(b)
  {
    if a == [] {
      assert a + b == b;
    } else {
      assert (a + b)[0] == a[0];
      assert (a + b)[1..] == a[1..] + b;
      CleanPiecesAppend(a[1..], b);
    }
  }

  /** A URL is kept exactly when it is the non-empty strip of some piece. */
  lemma {:induction false} CleanPiecesMembers(pieces: seq<string>, u: string)
    ensures u in CleanPieces(pieces) <==> u != "" && exists j :: 0 <= j < |pieces| && Strip(pieces[j]) == u
  {
    if pieces != [] {
      CleanPiecesMembers(pieces[1..], u);
      if u != "" && Strip(pieces[0]) != u {
        if exists j :: 0 <= j < |pieces| && Strip(pieces[j]) == u {
          var j :| 0 <= j < |pieces| && Strip(pieces[j]) == u;
          assert Strip(pieces[1..][j - 1]) == u;
        }
      }
    }
  }

  /** A character that no piece contains is in no kept URL either. */
  lemma {:induction false} CleanPiecesAvoid(pieces: seq<string>, ch: char)
    requires forall k :: 0 <= k < |pieces| ==> ch !in pieces[k]
    ensures forall k :: 0 <= k < |CleanPieces(pieces)| ==> ch !in CleanPieces(pieces)[k]
  {
    if pieces != [] {
      CleanPiecesAvoid(pieces[1..], ch);
    }
  }

  /**
   * The `RSS_FEEDS` branch reads back the comma-separated pieces: for a value
   * written as pieces joined by commas, the result is those pieces, each
   * stripped, the empty ones dropped, in their order.
   */
  lemma EnvFeedUrlsOfPieces(pieces: seq<string>)
    requires |pieces| >= 1
    requires forall k :: 0 <= k < |pieces| ==> ',' !in pieces[k]
    ensures EnvFeedUrls(Join(pieces, ',')) == CleanPieces(pieces)
  {
    SplitJoin(pieces, ',');
  }

  lemma CleanPiecesPair(p1: string, p2: string)
    requires Strip(p1) != "" && Strip(p2) != ""
    ensures CleanPieces([p1, p2]) == [Strip(p1), Strip(p2)]
  {
    assert [p1, p2][1..] == [p2];
  }

  /**
   * Two URLs separated by a comma and a space, as in the test
   * `"http://env1.com, http://env2.com"`, are read back as those two URLs.
   */
  lemma EnvFeedUrlsTwo(u1: string, u2: string)
    requires u1 != "" && IsStripped(u1) && ',' !in u1
    requires u2 != "" && IsStripped(u2) && ',' !in u2
    ensures EnvFeedUrls(u1 + ", " + u2) == [u1, u2]
  {
    var p2 := " " + u2;
    assert Join([u1, p2], ',') == u1 + ", " + u2 by {
      assert [u1, p2][1..] == [p2];
    }
    EnvFeedUrlsOfPieces([u1, p2]);
    StripStripped(u1);
    StripLeadingSpace(u2);
    CleanPiecesPair(u1, p2);
  }

  // ---------------------------------------------------------------------------
  // Priority between the sources

  /**
   * A non-empty `RSS_FEEDS` decides the result alone: the path argument,
   * `RSS_CONFIG` and every file are ignored.
   */
  lemma EnvFeedsOverrideConfig(configPath: Option<string>, env: Env, files: map<string, ConfigValue>)
    requires Truthy(env.feeds)
    ensures ResolveFeedUrls(configPath, env, files) == Ok(EnvFeedUrls(env.feeds.value))
    ensures ResolveFeedUrls(configPath, env, files) == ResolveFeedUrls(None, Env(env.feeds, None), map[])
  {
  }

  lemma {:induction false} CleanPiecesBlank(pieces: seq<string>)
    requires forall k :: 0 <= k < |pieces| ==> AllSpace(pieces[k])
    ensures CleanPieces(pieces) == []
  {
    if pieces != [] {
      StripUnique(pieces[0], [], []);
      assert pieces[0] + [] + [] == pieces[0];
      CleanPiecesBlank(pieces[1..]);
    }
  }

  /**
   * An `RSS_FEEDS` that is set but holds only commas and whitespace still
   * takes the first branch and gives no URL; the configuration file is not
   * consulted.
   */
  lemma BlankEnvFeedsGiveNoUrls(configPath: Option<string>, env: Env, files: map<string, ConfigValue>)
    requires Truthy(env.feeds)
    requires forall c :: c in env.feeds.value ==> c == ',' || IsSpace(c)
    ensures ResolveFeedUrls(configPath, env, files) == Ok([])
  {
    var pieces := Split(env.feeds.value, ',');
    forall k | 0 <= k < |pieces| ensures AllSpace(pieces[k]) {
      SplitPieceChars(env.feeds.value, ',', k);
    }
    CleanPiecesBlank(pieces);
  }

  /** An empty `RSS_FEEDS` counts as unset (Python truthiness). */
  lemma EmptyEnvFeedsFallThrough(configPath: Option<string>, config: Option<string>, files: map<string, ConfigValue>)
    ensures ResolveFeedUrls(configPath, Env(Some(""), config), files)
         == ResolveFeedUrls(configPath, Env(None, config), files)
  {
  }

  /** An empty path argument or `RSS_CONFIG` counts as absent. */
  lemma EmptyPathsFallThrough(envConfig: Option<string>)
    ensures ConfigPath(Some(""), envConfig) == ConfigPath(None, envConfig)
    ensures ConfigPath(None, Some("")) == DefaultConfigPath
  {
  }

  // ---------------------------------------------------------------------------
  // The file branch

  /** A JSON array in the chosen file is returned as it is. */
  lemma ConfigListReturnedAsIs(configPath: Option<string>, env: Env, files: map<string, ConfigValue>, items: seq<string>)
    requires !Truthy(env.feeds)
    requires ConfigPath(configPath, env.config) in files
    requires files[ConfigPath(configPath, env.config)] == ListValue(items)
    ensures ResolveFeedUrls(configPath, env, files) == Ok(items)
  {
  }

  /** A JSON object gives its `"feeds"` value, or no URL when that key is absent. */
  lemma ConfigObjectFeeds(configPath: Option<string>, env: Env, files: map<string, ConfigValue>, fields: map<string, seq<string>>)
    requires !Truthy(env.feeds)
    requires ConfigPath(configPath, env.config) in files
    requires files[ConfigPath(configPath, env.config)] == ObjectValue(fields)
    ensures FeedsKey in fields ==> ResolveFeedUrls(configPath, env, files) == Ok(fields[FeedsKey])
    ensures FeedsKey !in fields ==> ResolveFeedUrls(configPath, env, files) == Ok([])
  {
  }

  /** A configuration file that does not exist gives no URL and no error. */
  lemma MissingConfigGivesNoUrls(configPath: Option<string>, env: Env, files: map<string, ConfigValue>)
    requires !Truthy(env.feeds)
    requires ConfigPath(configPath, env.config) !in files
    ensures ResolveFeedUrls(configPath, env, files) == Ok([])
  {
  }

  /** Only the file at the chosen path matters; other files may be anything. */
  lemma OnlyChosenFileRead(configPath: Option<string>, env: Env, files: map<string, ConfigValue>, other: map<string, ConfigValue>)
    requires var path := ConfigPath(configPath, env.config);
      (path in files <==> path in other) && (path in files ==> files[path] == other[path])
    ensures ResolveFeedUrls(configPath, env, files) == ResolveFeedUrls(configPath, env, other)
  {
  }

  /** tests/test_rss_fetcher.py: a list file passed as the path argument is returned. */
  lemma ConfigFileExample()
    ensures ResolveFeedUrls(Some("config.json"), Env(None, None), map["config.json" := ListValue(["http://example.com/feed"])])
         == Ok(["http://example.com/feed"])
  {
  }
}
