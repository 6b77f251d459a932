/** The Argentine news helpers of portfolio_news_profit.py:
    `build_terms_for_ticker`, the Google News query, and the rows
    `fetch_google_news_ar_for_ticker` builds from the feed it gets back.
    The HTTP request and the feed parser are outside the model: the feed
    is an input, and the request is represented by the query text. */
module ArNews {
  import opened Wrappers
  import opened Text
  import opened News

  // ---------------------------------------------------------------------
  // build_terms_for_ticker
  // ---------------------------------------------------------------------

  /** The non-empty entries of a list, as a set. */
  function NonEmpty(al: seq<string>): set<string> {
    if al == [] then {}
    else
      var n := |al| - 1;
      NonEmpty(al[..n]) + (if al[n] != "" then {al[n]} else {})
  }

  lemma {:induction false} NonEmptyMembers(al: seq<string>)
    ensures forall x :: x in NonEmpty(al) <==> x != "" && x in al
  {
    if al != [] {
      var n := |al| - 1;
      NonEmptyMembers(al[..n]);
      assert al == al[..n] + [al[n]];
    }
  }

  /** The search terms of a ticker as a set: the ticker, "Argentina" and
      its non-empty aliases, without the empty string. */
  function TermSet(ticker: string, aliasesMap: map<string, seq<string>>): set<string> {
    ({ticker, "Argentina"} + (if ticker in aliasesMap then NonEmpty(aliasesMap[ticker]) else {})) - {""}
  }

  /** A term is a non-empty string that is the ticker, "Argentina", or one
      of the ticker's aliases. */
  lemma TermSetMembers(ticker: string, aliasesMap: map<string, seq<string>>, x: string)
    ensures x in TermSet(ticker, aliasesMap)
        <==> x != "" && (x == ticker || x == "Argentina" || (ticker in aliasesMap && x in aliasesMap[ticker]))
  {
    if ticker in aliasesMap {
      NonEmptyMembers(aliasesMap[ticker]);
    }
  }

  /** A list with no entry twice. */
  predicate Distinct(xs: seq<string>) {
    forall i, j :: 0 <= i < j < |xs| ==> xs[i] != xs[j]
  }

  /** `build_terms_for_ticker`: fills a set, then lists its non-empty
      members in the set's own (unspecified) order. */
  method BuildTerms(ticker: string, aliasesMap: map<string, seq<string>>) returns (terms: seq<string>)
    ensures forall x :: x in terms <==> x in TermSet(ticker, aliasesMap)
    ensures Distinct(terms)
  {
    var s: set<string> := {ticker, "Argentina"};
    if ticker in aliasesMap {
      var al := aliasesMap[ticker];
      var i := 0;
      while i < |al|
        invariant i <= |al|
        invariant s == {ticker, "Argentina"} + NonEmpty(al[..i])
      {
        assert al[..i + 1][..i] == al[..i];
        if al[i] != "" {
          s := s + {al[i]};
        }
        i := i + 1;
      }
      assert al[..i] == al;
    }
    terms := [];
    var rest := s;
    while rest != {}
      invariant rest <= s
      invariant forall x :: x in terms <==> x in s - rest && x != ""
      invariant Distinct(terms)
      decreases |rest|
    {
      var x :| x in rest;
      if x != "" {
        assert x !in terms;
        terms := terms + [x];
      }
      rest := rest - {x};
    }
  }

  // ---------------------------------------------------------------------
  // The query
  // ---------------------------------------------------------------------

  /** `f'"{t}"'` */
  function Quote(t: string): string {
    "\"" + t + "\""
  }

  function QuotedAll(terms: seq<string>): (r: seq<string>)
    ensures |r| == |terms| && forall k :: 0 <= k < |r| ==> r[k] == Quote(terms[k])
  {
    if terms == [] then [] else [Quote(terms[0])] + QuotedAll(terms[1..])
  }

  const QueryTail: string := ") AND (Argentina OR .ar)"

  /** The Google News query: the quoted terms joined by " OR " in
      parentheses, restricted to Argentina. */
  function Query(terms: seq<string>): string {
    "(" + Join(QuotedAll(terms), " OR ") + QueryTail
  }

  /** Every term appears in the query, quoted, and the query is framed by
      the opening parenthesis and the Argentina restriction. */
  lemma QueryMentions(terms: seq<string>, k: nat)
    requires k < |terms|
    ensures Contains(Query(terms), Quote(terms[k]))
    ensures var q := Query(terms);
      |q| > |QueryTail| && q[0] == '(' && q[|q| - |QueryTail|..] == QueryTail
  {
    var parts := QuotedAll(terms);
    var joined := Join(parts, " OR ");
    var i := JoinPartAt(parts, " OR ", k);
    var q := Query(terms);
    assert q == "(" + joined + QueryTail;
    assert q[1 + i..1 + i + |parts[k]|] == joined[i..i + |parts[k]|];
    ContainsAt(q, Quote(terms[k]), 1 + i);
  }

  // ---------------------------------------------------------------------
  // Rows from the feed
  // ---------------------------------------------------------------------

  /** A feed entry as the fetch reads it: a missing `title`, `link`,
      `published` or `updated` attribute reads as "", and `source` is
      `None` when the entry has none, otherwise the source's title ("" when
      it has none). */
  datatype FeedEntry = FeedEntry(title: string, link: string, published: string, updated: string,
                                 source: Option<string>)

  const DefaultSource: string := "Google News AR"

  /** The row of one entry: `published or updated` parsed by `parseDate`
      (`pd.to_datetime(..., errors="coerce")`), no summary, the source's
      title or else "Google News AR", and no sentiment yet. */
  function EntryRow(e: FeedEntry, ticker: string, parseDate: string -> Option<int>): Row {
    var published := if e.published != "" then e.published else e.updated;
    var source := if e.source.Some? then e.source.value else "";
    Row(parseDate(published), ticker, e.title, "", e.link,
        if source != "" then source else DefaultSource, None)
  }

  /** `xs[:n]` with Python's reading of a negative bound (that many fewer
      than all). */
  function SliceTo<T>(xs: seq<T>, n: int): (r: seq<T>)
    ensures r <= xs
    ensures 0 <= n ==> |r| <= n && (n >= |xs| ==> r == xs)
    ensures n < 0 ==> |r| == if |xs| + n < 0 then 0 else |xs| + n
  {
    if 0 <= n then (if n <= |xs| then xs[..n] else xs)
    else if |xs| + n < 0 then [] else xs[..|xs| + n]
  }

  /** The rows of the given entries, in order. */
  function EntryRows(entries: seq<FeedEntry>, ticker: string, parseDate: string -> Option<int>): (r: seq<Row>)
    ensures |r| == |entries|
    ensures forall k :: 0 <= k < |r| ==> r[k] == EntryRow(entries[k], ticker, parseDate)
  {
    if entries == [] then []
    else
      var n := |entries| - 1;
      EntryRows(entries[..n], ticker, parseDate) + [EntryRow(entries[n], ticker, parseDate)]
  }

  /** What `fetch_google_news_ar_for_ticker` returns when `feedparser` is
      available and the feed it gets back is `feed` (`None`: parsing
      raised): the rows of the first `maxItems` entries that fall in the
      window of `days` days before midnight of `now`. */
  function ArFetched(feed: Option<seq<FeedEntry>>, ticker: string, days: int, maxItems: int,
                     parseDate: string -> Option<int>, now: int): seq<Row>
  {
    if feed.None? then []
    else Window(EntryRows(SliceTo(feed.value, maxItems), ticker, parseDate), Cutoff(now, days))
  }

  /** `fetch_google_news_ar_for_ticker`: returns the query it asks the
      feed for (none when `feedparser` is missing) and the rows. */
  method FetchArNews(ticker: string, aliasesMap: map<string, seq<string>>, days: int, maxItems: int,
                     feedparserOk: bool, feed: Option<seq<FeedEntry>>,
                     parseDate: string -> Option<int>, now: int)
    returns (query: Option<string>, rows: seq<Row>)
    ensures query.Some? <==> feedparserOk
    ensures query.Some? ==> exists terms ::
      && (forall x :: x in terms <==> x in TermSet(ticker, aliasesMap))
      && Distinct(terms) && query.value == Query(terms)
    ensures rows == if feedparserOk then ArFetched(feed, ticker, days, maxItems, parseDate, now) else []
  {
    if !feedparserOk {
      return None, [];
    }
    var terms := BuildTerms(ticker, aliasesMap);
    query := Some(Query(terms));
    if feed.None? {
      return query, [];
    }
    var entries := SliceTo(feed.value, maxItems);
    rows := [];
    var i := 0;
    while i < |entries|
      invariant i <= |entries|
      invariant rows == EntryRows(entries[..i], ticker, parseDate)
    {
      assert entries[..i + 1][..i] == entries[..i];
      rows := rows + [EntryRow(entries[i], ticker, parseDate)];
      i := i + 1;
    }
    assert entries[..i] == entries;
    if rows != [] {
      rows := Window(rows, Cutoff(now, days));
    }
  }

  /** Every fetched row is for the ticker, has no summary, a non-empty
      source ("Google News AR" when the entry names none) and no
      sentiment, lies in the window, and comes from one of the first
      `maxItems` entries; there are never more rows than that. */
  lemma ArFetchedFacts(feed: Option<seq<FeedEntry>>, ticker: string, days: int, maxItems: int,
                       parseDate: string -> Option<int>, now: int)
    ensures var rows := ArFetched(feed, ticker, days, maxItems, parseDate, now);
      && (feed.None? ==> rows == [])
      && (0 <= maxItems ==> |rows| <= maxItems)
      && forall x :: x in rows ==>
           && x.ticker == ticker && x.summary == "" && x.source != "" && x.sentiment.None?
           && Recent(x, Cutoff(now, days))
           && exists j :: 0 <= j < |SliceTo(feed.value, maxItems)|
                && x == EntryRow(SliceTo(feed.value, maxItems)[j], ticker, parseDate)
  {
    if feed.Some? {
      var es := EntryRows(SliceTo(feed.value, maxItems), ticker, parseDate);
      WindowMembers(es, Cutoff(now, days));
      forall x | x in Window(es, Cutoff(now, days))
        ensures exists j :: (0 <= j < |SliceTo(feed.value, maxItems)|
          && x == EntryRow(SliceTo(feed.value, maxItems)[j], ticker, parseDate))
      {
        var j :| 0 <= j < |es| && es[j] == x;
      }
    }
  }
}
