/** `compute_news_for_tickers` of portfolio_news_profit.py: the articles of
    the news module (when it is installed), an Argentine Google News
    fallback for the tickers it found nothing for, and a final cut to the
    look-back window. The news module, the feed service, the date parser
    and the clock are parameters. */
module NewsPipeline {
  import opened Wrappers
  import opened News
  import opened ArNews
  import opened Sentiment

  /** What a call to `fetch_feeds` or `map_articles_to_tickers` gave back:
      it raised, returned `None`, or returned a frame. */
  datatype Stage = Raised | NoFrame | Frame(rows: seq<Row>)

  /** What a call to `score_articles` gave back; `hasSentiment` says
      whether the frame has a "sentiment" column. */
  datatype Scoring = ScoreRaised | ScoreNone | Scored(rows: seq<Row>, hasSentiment: bool)

  /** The news module's three functions, which are not part of this model. */
  datatype NewsModule = NewsModule(
    fetchFeeds: seq<string> -> Stage,
    mapArticles: (seq<Row>, seq<string>) -> Stage,
    scoreArticles: (seq<Row>, string) -> Scoring)

  /** Everything outside the function: whether the news module imported
      (`NEWS_MODULE_OK`), the module itself, whether `feedparser` imported,
      the feed Google News returns for a set of search terms (a query's
      terms are OR-ed, so their order does not matter), and the date
      parser. */
  datatype Services = Services(
    moduleOk: bool,
    news: NewsModule,
    feedparserOk: bool,
    feedFor: set<string> -> Option<seq<FeedEntry>>,
    parseDate: string -> Option<int>)

  /** The `max_items` the fallback fetch is called with (its default). */
  const FallbackMaxItems: int := 50

  /** The rows with their sentiment replaced by `score` of the row. */
  function Rescored(rows: seq<Row>, score: Row -> Option<real>): (r: seq<Row>)
    ensures |r| == |rows|
    ensures forall k :: 0 <= k < |r| ==> r[k] == rows[k].(sentiment := score(rows[k]))
  {
    seq(|rows|, k requires 0 <= k < |rows| => rows[k].(sentiment := score(rows[k])))
  }

  /** The "sentiment" column the clean-up adds when the scorer gave none. */
  function WithoutSentiment(rows: seq<Row>): seq<Row> {
    Rescored(rows, _ => None)
  }

  /** `simple_keyword_sentiment` of every title. */
  function KeywordScored(rows: seq<Row>): seq<Row> {
    Rescored(rows, (x: Row) => Some(KeywordScore(Some(x.title))))
  }

  // ---------------------------------------------------------------------
  // 1. The news module
  // ---------------------------------------------------------------------

  /** The rows of the news module: fetch, map to tickers, score; a stage
      that raises or gives back nothing (or an empty frame) leaves no
      rows. */
  function PrimaryRows(moduleOk: bool, m: NewsModule, tickers: seq<string>, backend: string): (r: seq<Row>)
    ensures r != [] ==>
      && moduleOk
      && var news := m.fetchFeeds(tickers);
      && news.Frame? && news.rows != []
      && var mapped := m.mapArticles(news.rows, tickers);
      && mapped.Frame? && mapped.rows != []
      && var scored := m.scoreArticles(mapped.rows, backend);
      && scored.Scored? && |r| == |scored.rows|
      && forall k :: 0 <= k < |r| ==>
           && r[k].(sentiment := None) == scored.rows[k].(sentiment := None)
           && (r[k].sentiment.Some? ==> scored.hasSentiment && r[k].sentiment == scored.rows[k].sentiment)
  {
    if !moduleOk then []
    else
      var news := m.fetchFeeds(tickers);
      if !news.Frame? || news.rows == [] then []
      else
        var mapped := m.mapArticles(news.rows, tickers);
        if !mapped.Frame? || mapped.rows == [] then []
        else
          var scored := m.scoreArticles(mapped.rows, backend);
          if !scored.Scored? || scored.rows == [] then []
          else if scored.hasSentiment then scored.rows
          else WithoutSentiment(scored.rows)
  }

  // ---------------------------------------------------------------------
  // 2. The Argentine fallback
  // ---------------------------------------------------------------------

  /** `counts.get(t, 0)`: how many rows are for ticker `t`. */
  function Count(rows: seq<Row>, t: string): (n: nat)
    ensures n <= |rows|
  {
    if rows == [] then 0
    else
      var k := |rows| - 1;
      Count(rows[..k], t) + (if rows[k].ticker == t then 1 else 0)
  }

  /** A ticker counts 0 exactly when no row is for it. */
  lemma {:induction false} CountZeroIff(rows: seq<Row>, t: string)
    ensures Count(rows, t) == 0 <==> forall x :: x in rows ==> x.ticker != t
  {
    if rows != [] {
      var k := |rows| - 1;
      CountZeroIff(rows[..k], t);
      assert rows == rows[..k] + [rows[k]];
    }
  }

  /** `need_fallback`: the tickers, in their order, that no row is for. */
  function NeedFallback(tickers: seq<string>, primary: seq<Row>): (r: seq<string>)
    ensures |r| <= |tickers|
  {
    if tickers == [] then []
    else
      var k := |tickers| - 1;
      NeedFallback(tickers[..k], primary) + (if Count(primary, tickers[k]) == 0 then [tickers[k]] else [])
  }

  /** Exactly the tickers without a primary row are fetched again. */
  lemma {:induction false} NeedFallbackIff(tickers: seq<string>, primary: seq<Row>, t: string)
    ensures t in NeedFallback(tickers, primary) <==> t in tickers && forall x :: x in primary ==> x.ticker != t
  {
    CountZeroIff(primary, t);
    if tickers != [] {
      var k := |tickers| - 1;
      NeedFallbackIff(tickers[..k], primary, t);
      assert tickers == tickers[..k] + [tickers[k]];
    }
  }

  /** The fallback tickers are the tickers in their own order: the list of
      a prefix of the tickers is a prefix of the list. */
  lemma {:induction false} NeedFallbackPrefix(tickers: seq<string>, primary: seq<Row>, m: nat)
    requires m <= |tickers|
    ensures NeedFallback(tickers[..m], primary) <= NeedFallback(tickers, primary)
    decreases |tickers|
  {
    if m < |tickers| {
      var k := |tickers| - 1;
      assert tickers[..k][..m] == tickers[..m];
      NeedFallbackPrefix(tickers[..k], primary, m);
    } else {
      assert tickers[..m] == tickers;
    }
  }

  /** How the rows of one fallback fetch are scored: by the news module
      when it is there and gives a "sentiment" column, otherwise (module
      missing, raising, returning `None` or no such column) by the keyword
      heuristic. */
  function FallbackScored(df: seq<Row>, moduleOk: bool, m: NewsModule, backend: string): seq<Row> {
    if !moduleOk then KeywordScored(df)
    else match m.scoreArticles(df, backend)
      case Scored(rows, hasSentiment) => if hasSentiment then rows else KeywordScored(rows)
      case _ => KeywordScored(df)
  }

  /** The rows the fallback fetch for `t` contributes: none when the fetch
      found nothing, otherwise its rows, scored. */
  function FallbackFor(t: string, aliasesMap: map<string, seq<string>>, backend: string, days: int,
                       s: Services, fetchNow: int): seq<Row>
  {
    var df := if s.feedparserOk
      then ArFetched(s.feedFor(TermSet(t, aliasesMap)), t, days, FallbackMaxItems, s.parseDate, fetchNow)
      else [];
    if df == [] then [] else FallbackScored(df, s.moduleOk, s.news, backend)
  }

  /** `ar_all`: the fallback rows of the tickers, one ticker after the other. */
  function FallbackRows(need: seq<string>, aliasesMap: map<string, seq<string>>, backend: string, days: int,
                        s: Services, fetchNow: int): seq<Row>
  {
    if need == [] then []
    else
      var k := |need| - 1;
      FallbackRows(need[..k], aliasesMap, backend, days, s, fetchNow)
        + FallbackFor(need[k], aliasesMap, backend, days, s, fetchNow)
  }

  lemma FallbackRowsStep(need: seq<string>, aliasesMap: map<string, seq<string>>, backend: string, days: int,
                         s: Services, fetchNow: int, i: nat)
    requires i < |need|
    ensures FallbackRows(need[..i + 1], aliasesMap, backend, days, s, fetchNow)
         == FallbackRows(need[..i], aliasesMap, backend, days, s, fetchNow)
            + FallbackFor(need[i], aliasesMap, backend, days, s, fetchNow)
  {
    assert need[..i + 1][..i] == need[..i];
  }

  // ---------------------------------------------------------------------
  // 3. The whole function
  // ---------------------------------------------------------------------

  /** The rows before the final cut: the primary rows, then (with the
      fallback enabled) the fallback rows. */
  function Collected(tickers: seq<string>, backend: string, days: int, aliasesMap: map<string, seq<string>>,
                     enableAr: bool, s: Services, fetchNow: int): seq<Row>
  {
    var primary := PrimaryRows(s.moduleOk, s.news, tickers, backend);
    if enableAr
    then primary + FallbackRows(NeedFallback(tickers, primary), aliasesMap, backend, days, s, fetchNow)
    else primary
  }

  /** What `compute_news_for_tickers` returns. `fetchNow` is the clock the
      fallback fetches read, `filterNow` the one the final cut reads. */
  function NewsFor(tickers: seq<string>, backend: string, days: int, aliasesMap: map<string, seq<string>>,
                   enableAr: bool, s: Services, fetchNow: int, filterNow: int): seq<Row>
  {
    Window(Collected(tickers, backend, days, aliasesMap, enableAr, s, fetchNow), Cutoff(filterNow, days))
  }

  /** Step 1 of `compute_news_for_tickers`: the news module's scored
      rows, with a "sentiment" column added when the scorer gave none. */
  method FetchPrimary(moduleOk: bool, m: NewsModule, tickers: seq<string>, backend: string)
    returns (scoredAll: seq<Row>)
    ensures scoredAll == PrimaryRows(moduleOk, m, tickers, backend)
  {
    scoredAll := [];
    if moduleOk {
      var news := m.fetchFeeds(tickers);
      if news.Frame? && news.rows != [] {
        var mapped := m.mapArticles(news.rows, tickers);
        if mapped.Frame? && mapped.rows != [] {
          var scored := m.scoreArticles(mapped.rows, backend);
          if scored.Scored? && scored.rows != [] {
            scoredAll := scored.rows;
            if !scored.hasSentiment {
              scoredAll := WithoutSentiment(scoredAll);
            }
          }
        }
      }
    }
  }

  /** One pass of the fallback loop: fetch the Argentine feed for `t`
      and score what it found; nothing when it found nothing. */
  method FetchFallback(t: string, aliasesMap: map<string, seq<string>>, backend: string, days: int,
                       s: Services, fetchNow: int)
    returns (scored: seq<Row>)
    ensures scored == FallbackFor(t, aliasesMap, backend, days, s, fetchNow)
  {
    var query, dfAr := FetchArNews(t, aliasesMap, days, FallbackMaxItems, s.feedparserOk,
                                   s.feedFor(TermSet(t, aliasesMap)), s.parseDate, fetchNow);
    scored := [];
    if dfAr != [] {
      scored := FallbackScored(dfAr, s.moduleOk, s.news, backend);
    }
  }

  /** The fallback loop of `compute_news_for_tickers`: one Argentine fetch
      per ticker of `need`, in order, keeping the scored rows of the
      fetches that found something. */
  method FetchFallbacks(need: seq<string>, aliasesMap: map<string, seq<string>>, backend: string, days: int,
                        s: Services, fetchNow: int)
    returns (arRows: seq<Row>, fetched: seq<string>)
    ensures arRows == FallbackRows(need, aliasesMap, backend, days, s, fetchNow)
    ensures fetched == need
  {
    arRows := [];
    fetched := [];
    var i := 0;
    while i < |need|
      invariant i <= |need|
      invariant arRows == FallbackRows(need[..i], aliasesMap, backend, days, s, fetchNow)
      invariant fetched == need[..i]
    {
      var t := need[i];
      FallbackRowsStep(need, aliasesMap, backend, days, s, fetchNow, i);
      var scored := FetchFallback(t, aliasesMap, backend, days, s, fetchNow);
      fetched := fetched + [t];
      arRows := arRows + scored;
      i := i + 1;
    }
    assert need[..i] == need;
  }

  /** `compute_news_for_tickers`; `fetched` lists the tickers the
      Argentine feed is fetched for, in the order of the fetches. */
  method ComputeNewsForTickers(tickers: seq<string>, backend: string, days: int,
                               aliasesMap: map<string, seq<string>>, enableAr: bool,
                               s: Services, fetchNow: int, filterNow: int)
    returns (news: seq<Row>, fetched: seq<string>)
    ensures news == NewsFor(tickers, backend, days, aliasesMap, enableAr, s, fetchNow, filterNow)
    ensures fetched == if enableAr then NeedFallback(tickers, PrimaryRows(s.moduleOk, s.news, tickers, backend)) else []
  {
    var scoredAll := FetchPrimary(s.moduleOk, s.news, tickers, backend);
    fetched := [];
    if enableAr {
      var need := NeedFallback(tickers, scoredAll);
      var arRows;
      arRows, fetched := FetchFallbacks(need, aliasesMap, backend, days, s, fetchNow);
      scoredAll := scoredAll + arRows;
    }
    if scoredAll != [] {
      scoredAll := Window(scoredAll, Cutoff(filterNow, days));
    }
    news := scoredAll;
  }

  // ---------------------------------------------------------------------
  // Properties
  // ---------------------------------------------------------------------

  /** Every returned row is dated on or after the cutoff; the primary rows
      come first, then the fallback rows, each in their own order. */
  lemma NewsOrder(tickers: seq<string>, backend: string, days: int, aliasesMap: map<string, seq<string>>,
                  enableAr: bool, s: Services, fetchNow: int, filterNow: int)
    ensures var cutoff := Cutoff(filterNow, days);
      var primary := PrimaryRows(s.moduleOk, s.news, tickers, backend);
      var news := NewsFor(tickers, backend, days, aliasesMap, enableAr, s, fetchNow, filterNow);
      && (forall x :: x in news ==> Recent(x, cutoff))
      && news == Window(primary, cutoff)
           + (if enableAr
              then Window(FallbackRows(NeedFallback(tickers, primary), aliasesMap, backend, days, s, fetchNow), cutoff)
              else [])
  {
    var cutoff := Cutoff(filterNow, days);
    var primary := PrimaryRows(s.moduleOk, s.news, tickers, backend);
    var all := Collected(tickers, backend, days, aliasesMap, enableAr, s, fetchNow);
    WindowMembers(all, cutoff);
    if enableAr {
      WindowAppend(primary, FallbackRows(NeedFallback(tickers, primary), aliasesMap, backend, days, s, fetchNow), cutoff);
    } else {
      assert Window(primary, cutoff) + [] == Window(primary, cutoff);
    }
  }

  /** A failing or missing news module leaves only the fallback rows. */
  lemma NoPrimaryOnFailure(tickers: seq<string>, backend: string, days: int, aliasesMap: map<string, seq<string>>,
                           enableAr: bool, s: Services, fetchNow: int, filterNow: int)
    requires !s.moduleOk || s.news.fetchFeeds(tickers).Raised? || s.news.fetchFeeds(tickers).NoFrame?
    ensures NewsFor(tickers, backend, days, aliasesMap, enableAr, s, fetchNow, filterNow)
         == if enableAr
            then Window(FallbackRows(tickers, aliasesMap, backend, days, s, fetchNow), Cutoff(filterNow, days))
            else []
  {
    var primary := PrimaryRows(s.moduleOk, s.news, tickers, backend);
    assert primary == [];
    NoRowsAllNeedFallback(tickers);
    var fb := FallbackRows(tickers, aliasesMap, backend, days, s, fetchNow);
    assert Collected(tickers, backend, days, aliasesMap, enableAr, s, fetchNow) == if enableAr then fb else [] by {
      assert [] + fb == fb;
    }
  }

  /** With no primary rows every ticker needs the fallback. */
  lemma {:induction false} NoRowsAllNeedFallback(tickers: seq<string>)
    ensures NeedFallback(tickers, []) == tickers
  {
    if tickers != [] {
      var k := |tickers| - 1;
      NoRowsAllNeedFallback(tickers[..k]);
      assert tickers[..k] + [tickers[k]] == tickers;
    }
  }

  /** A ticker with primary rows that are all older than the cutoff is not
      fetched again, since the counts are taken before the cut, and none
      of those rows survive the cut. */
  lemma StaleTickerNoFallback(tickers: seq<string>, primary: seq<Row>, t: string, cutoff: int)
    requires exists x :: x in primary && x.ticker == t
    requires forall x :: x in primary && x.ticker == t ==> !Recent(x, cutoff)
    ensures t !in NeedFallback(tickers, primary)
    ensures forall x :: x in Window(primary, cutoff) ==> x.ticker != t
  {
    NeedFallbackIff(tickers, primary, t);
    WindowMembers(primary, cutoff);
  }

  /** A ticker with a primary row is never fetched again; one without is. */
  lemma FallbackChoice(tickers: seq<string>, backend: string, s: Services, t: string)
    requires t in tickers
    ensures var primary := PrimaryRows(s.moduleOk, s.news, tickers, backend);
      t in NeedFallback(tickers, primary) <==> Count(primary, t) == 0
  {
    var primary := PrimaryRows(s.moduleOk, s.news, tickers, backend);
    NeedFallbackIff(tickers, primary, t);
    CountZeroIff(primary, t);
  }

  /** Without a usable scorer (module missing, or the scorer raising or
      returning `None`), a fallback row is a fetched row of its
      ticker with the keyword score of its title: no summary, a non-empty
      source, a score in [-1, 1], dated on or after the fetch's cutoff,
      and at most `max_items` of them. */
  lemma FallbackKeywordFacts(t: string, aliasesMap: map<string, seq<string>>, backend: string, days: int,
                             s: Services, fetchNow: int)
    requires s.feedparserOk
    requires var df := ArFetched(s.feedFor(TermSet(t, aliasesMap)), t, days, FallbackMaxItems, s.parseDate, fetchNow);
      !s.moduleOk || !s.news.scoreArticles(df, backend).Scored?
    ensures var df := ArFetched(s.feedFor(TermSet(t, aliasesMap)), t, days, FallbackMaxItems, s.parseDate, fetchNow);
      var rows := FallbackFor(t, aliasesMap, backend, days, s, fetchNow);
      && |rows| == |df| <= FallbackMaxItems
      && forall k :: 0 <= k < |rows| ==>
           && rows[k].(sentiment := None) == df[k]
           && rows[k].ticker == t && rows[k].summary == "" && rows[k].source != ""
           && Recent(rows[k], Cutoff(fetchNow, days))
           && rows[k].sentiment == Some(KeywordScore(Some(rows[k].title)))
           && -1.0 <= rows[k].sentiment.value <= 1.0
  {
    var feed := s.feedFor(TermSet(t, aliasesMap));
    var df := ArFetched(feed, t, days, FallbackMaxItems, s.parseDate, fetchNow);
    var rows := FallbackFor(t, aliasesMap, backend, days, s, fetchNow);
    assert rows == KeywordScored(df) by {
      if df != [] {
        assert FallbackScored(df, s.moduleOk, s.news, backend) == KeywordScored(df);
      }
    }
    ArFetchedFacts(feed, t, days, FallbackMaxItems, s.parseDate, fetchNow);
    forall k | 0 <= k < |rows|
      ensures rows[k].(sentiment := None) == df[k] && -1.0 <= rows[k].sentiment.value <= 1.0
    {
      assert df[k] in df;
      KeywordScoreBounds(Some(rows[k].title));
    }
  }

  /** The scorer's sentiment is kept when it gives a "sentiment" column. */
  lemma FallbackScorerKept(df: seq<Row>, m: NewsModule, backend: string, rows: seq<Row>)
    requires df != [] && m.scoreArticles(df, backend) == Scored(rows, true)
    ensures FallbackScored(df, true, m, backend) == rows
  {
  }

  /** A scorer frame without a "sentiment" column keeps the scorer's rows
      and gives each the keyword score of its title. */
  lemma FallbackScorerNoColumn(df: seq<Row>, m: NewsModule, backend: string, rows: seq<Row>)
    requires m.scoreArticles(df, backend) == Scored(rows, false)
    ensures var r := FallbackScored(df, true, m, backend);
      && |r| == |rows|
      && forall k :: 0 <= k < |r| ==>
           && r[k].(sentiment := rows[k].sentiment) == rows[k]
           && r[k].sentiment == Some(KeywordScore(Some(rows[k].title)))
           && -1.0 <= r[k].sentiment.value <= 1.0
  {
    var r := FallbackScored(df, true, m, backend);
    assert r == KeywordScored(rows);
    forall k | 0 <= k < |r| ensures -1.0 <= r[k].sentiment.value <= 1.0 {
      KeywordScoreBounds(Some(rows[k].title));
    }
  }

  /** Fetched fallback rows already lie in the window, so on the same day
      the final cut keeps every fallback row that was keyword-scored from
      the fetched rows (module missing, or the scorer raising or returning
      `None`). */
  lemma FallbackSurvivesSameDay(t: string, aliasesMap: map<string, seq<string>>, backend: string, days: int,
                                s: Services, fetchNow: int, filterNow: int)
    requires s.feedparserOk
    requires var df := ArFetched(s.feedFor(TermSet(t, aliasesMap)), t, days, FallbackMaxItems, s.parseDate, fetchNow);
      !s.moduleOk || !s.news.scoreArticles(df, backend).Scored?
    requires Midnight(fetchNow) == Midnight(filterNow)
    ensures var rows := FallbackFor(t, aliasesMap, backend, days, s, fetchNow);
      Window(rows, Cutoff(filterNow, days)) == rows
  {
    FallbackKeywordFacts(t, aliasesMap, backend, days, s, fetchNow);
    var rows := FallbackFor(t, aliasesMap, backend, days, s, fetchNow);
    WindowKeepsRecent(rows, Cutoff(filterNow, days));
  }

  /** Cutting rows that are all recent changes nothing. */
  lemma {:induction false} WindowKeepsRecent(rows: seq<Row>, cutoff: int)
    requires forall k :: 0 <= k < |rows| ==> Recent(rows[k], cutoff)
    ensures Window(rows, cutoff) == rows
  {
    if rows != [] {
      var k := |rows| - 1;
      WindowKeepsRecent(rows[..k], cutoff);
      assert rows[..k] + [rows[k]] == rows;
    }
  }

  /** With the fallback disabled nothing is fetched and only the primary
      rows in the window are returned. */
  lemma FallbackDisabled(tickers: seq<string>, backend: string, days: int, aliasesMap: map<string, seq<string>>,
                         s: Services, fetchNow: int, filterNow: int)
    ensures NewsFor(tickers, backend, days, aliasesMap, false, s, fetchNow, filterNow)
         == Window(PrimaryRows(s.moduleOk, s.news, tickers, backend), Cutoff(filterNow, days))
  {
  }
}
