# Daily_Market_Excel in Dafny

A model of the core of `portfolio_news_profit.py` and `ticker_aliases.py`. This is the part of the daily portfolio report that sits between the external services (Yahoo Finance, the Google News feed, the `news_harm` module, Excel). It covers:

- **Alias resolution** (`ticker_aliases.py`):
  - the alias list generated from a ticker's metadata: corporate-suffix stripping, splitting on separators, guarded appends, case-blind de-duplication;
  - `build_aliases`;
  - the compact `"MSFT:Azure|Windows;AAPL:iPhone|Mac"` parser.
- **Alias merging** (`portfolio_news_profit.py`): the stripping, case-blind `dedupe_keep_order` and the four-source `merge_alias_sources`.
- **News**:
  - the Argentine fallback search terms and query;
  - the rows built from the feed and their date window;
  - the keyword sentiment heuristic;
  - the control flow of `compute_news_for_tickers`: which tickers get a fallback fetch, how fallback rows are scored, merge order, the final cut.
- **The Summary sheet**: per-holding P/L, mean sentiment per ticker and the TOTAL row of `build_workbook`.
- **The input steps of `main`**: header renaming, the required-column check, row cleaning, first-seen distinct tickers and the final alias map.

Imperative code is modelled as methods with loops. Each method is proved equal to a specification function, and the properties are proved as lemmas about those functions.

The steps of `main` take the way the user alias file reaches `build_aliases` as a parameter, `Reading`. `AsWritten` is `main` as written: a string alias is extended into `build_aliases`'s list character by character. `OneAlias` reads a string as one alias, as the rest of `main` does (see "## Findings").

The modules follow the source:

| module | what it models |
|---|---|
| `Wrappers` | `Option` and `Result` |
| `Text` | Python's `lower`, `upper`, `strip`, `split` on characters, `in` on strings, `join` |
| `Dedupe` | Both order-keeping de-duplicators as one specification, `Deduped(fold, items)`. The fold says how an entry is compared and what is stored: strip + lower-case and stored stripped in `portfolio_news_profit.py`; lower-case only and stored as given in `ticker_aliases.py`. |
| `Dicts` | A dictionary filled key by key in a loop |
| `CorpSuffix`, `SeparatorSplit` | `_strip_corp_suffix`, `_split_on_separators` |
| `TickerAliases` | `_dedupe_keep_order`, `_safe_add`, `_yfin_aliases` (given the metadata record), `build_aliases` |
| `ExtraAliases` | `parse_extra_aliases` |
| `AliasMerge` | `dedupe_keep_order`, `DEFAULT_AR_ALIASES`, `merge_alias_sources` |
| `News` | The news row, midnight of a day and the date window |
| `ArNews` | `build_terms_for_ticker`, the query, the rows of `fetch_google_news_ar_for_ticker` |
| `Sentiment` | `simple_keyword_sentiment` |
| `NewsPipeline` | `compute_news_for_tickers` |
| `Summary` | The Summary and TOTAL arithmetic of `build_workbook` |
| `PortfolioInput` | The cleaning and alias steps of `main` |

Outside services are parameters:
- the metadata lookup: `infoOf`, a function from ticker to metadata record;
- the price lookup: `priceOf`;
- the feed: `feedFor`, a function of the search terms, returning `None` when parsing raises;
- the date parser: `parseDate`;
- the `news_harm` functions: three functions whose results say whether the call raised, gave nothing, or gave a frame;
- whether each optional import succeeded: booleans;
- the clock: `fetchNow` for the fallback fetches and `filterNow` for the final cut, in seconds.

## Model

| member | source | states |
|---|---|---|
| `Dedupe.Deduped` | portfolio_news_profit.py:92-102 | A de-duplicated list is never longer than its input. |
| `Dedupe.DedupeWith` | portfolio_news_profit.py:92-102 | The `seen`/`out` loop returns exactly `Deduped(f, items)`: the stored form of each entry whose non-empty key was not seen before, in input order. |
| `Dedupe.FoldsLawful` | portfolio_news_profit.py:98 | Both de-duplicators obey three laws. A stored entry compares like the entry it came from. Storing twice changes nothing. An entry is skipped exactly when its stored form is empty. |
| `Dedupe.DedupedIndexed` | ticker_aliases.py:74-82 | The output lists exactly the first occurrences of each key, each in stored form, in input order, and every first occurrence appears. |
| `Dedupe.DedupedDistinct` | ticker_aliases.py:77-81 | No two output entries have the same key, and none has an empty key. |
| `Dedupe.DedupedCovers` | ticker_aliases.py:77-81 | Every entry with a non-empty key is represented by an output entry with the same key. |
| `Dedupe.DedupedPrefix` | ticker_aliases.py:77-81 | What is kept from a prefix of the input is a prefix of what is kept from the whole input. |
| `Dedupe.DedupedIdempotent` | portfolio_news_profit.py:92-102 | De-duplicating twice gives the same result as de-duplicating once. |
| `Dedupe.DedupedHead` | portfolio_news_profit.py:95-101 | A first entry with a non-empty key comes out first. |
| `Dicts.FilledFacts` | portfolio_news_profit.py:591-601 | A dictionary filled over a list of keys has exactly those keys, and each key maps to its own value, whatever the order or repetition of the keys. |
| `Text.LowerTrim` | portfolio_news_profit.py:98 | Stripping and lower-casing commute. |
| `Text.UpperNotBlank` | portfolio_news_profit.py:573-575 | A ticker that is not blank is not blank once upper-cased. |
| `AliasMerge.DedupeKeepOrder` | portfolio_news_profit.py:92-102 | The loop returns the stripped text of each first occurrence under strip + lower-case, in order. Blank entries are skipped. |
| `AliasMerge.DedupeKeepOrderClean` | portfolio_news_profit.py:92-102 | Every output entry is stripped and not empty. No two output entries are equal once lower-cased and stripped. |
| `AliasMerge.DedupeKeepOrderFirsts` | portfolio_news_profit.py:95-101 | Output entry `k` is the stripped text of the `k`-th first occurrence. The positions increase, and every first occurrence is used. |
| `AliasMerge.DedupeKeepOrderIdempotent` | portfolio_news_profit.py:92-102 | Applying `dedupe_keep_order` to its own output changes nothing. |
| `AliasMerge.DedupeKeepOrderCovers` | portfolio_news_profit.py:95-101 | Every entry that is not blank is represented, up to case and surrounding space. |
| `AliasMerge.DedupeKeepOrderHead` | portfolio_news_profit.py:95-101 | A first entry that is not blank comes out first, stripped. |
| `AliasMerge.CollectCombo` | portfolio_news_profit.py:107-118 | The `combo` list is the dynamic aliases, then the user's aliases (a string as one entry, a list in order, anything else nothing), then the built-in Argentine names, then the ticker. |
| `AliasMerge.MergeOne` | portfolio_news_profit.py:107-119 | One pass of the loop builds the dynamic aliases, then the user's, then the built-in Argentine names, then the ticker, and de-duplicates them. |
| `AliasMerge.MergeAliasSources` | portfolio_news_profit.py:104-120 | The loop returns the merged map `Merged(tickers, user, dyn)`. |
| `AliasMerge.MergedFacts` | portfolio_news_profit.py:104-120 | The keys are exactly the tickers. Each ticker maps to the de-duplicated concatenation of its four sources. |
| `AliasMerge.MergedHasTicker` | portfolio_news_profit.py:118-119 | A ticker that is not blank is among its own merged aliases, up to case and surrounding space. |
| `AliasMerge.MergedCovers` | portfolio_news_profit.py:107-119 | Every alias from any of the four sources that is not blank is represented among the merged aliases. |
| `AliasMerge.MergedClean` | portfolio_news_profit.py:119 | The merged aliases are stripped, not empty, and distinct up to case and space. |
| `AliasMerge.MergedDynFirst` | portfolio_news_profit.py:108-109 | The dynamic aliases come first: a first dynamic alias that is not blank is the first merged alias, stripped. |
| `AliasMerge.MergedIgnoresOther` | portfolio_news_profit.py:111-115 | A user value that is neither a string nor a list merges as if the user gave nothing. |
| `AliasMerge.MergedSingleIsList` | portfolio_news_profit.py:112-115 | A string user alias merges like a one-entry list. |
| `TickerAliases.DedupeKeepOrder` | ticker_aliases.py:74-82 | The loop keeps the first entry of each lower-cased spelling, as given. It skips only the empty string. |
| `TickerAliases.DedupeKeepOrderDistinct` | ticker_aliases.py:74-82 | No output entry is empty. No two output entries are equal after lower-casing. |
| `TickerAliases.DedupeKeepOrderSubsequence` | ticker_aliases.py:77-81 | The output is a subsequence of the input: each output entry is an input entry, spelled as it was, in increasing positions. |
| `TickerAliases.DedupeKeepOrderCovers` | ticker_aliases.py:77-81 | Every non-empty input entry is represented up to case. Blank-but-not-empty entries count too. |
| `TickerAliases.Kept` | ticker_aliases.py:84-89 | What `_safe_add` appends is stripped and not empty, with at most one entry per candidate. |
| `TickerAliases.SafeAdd` | ticker_aliases.py:84-89 | The result is the given list followed by the stripped, non-blank string candidates, in argument order. |
| `TickerAliases.SafeAddFacts` | ticker_aliases.py:84-89 | The existing entries are unchanged. Each added entry is the stripped form of a candidate. Missing or blank candidates add nothing. |
| `TickerAliases.LongName` | ticker_aliases.py:102 | The long name is missing exactly when none of `longName`, `shortName`, `displayName` is a non-empty string. When present, it is not empty. |
| `TickerAliases.AddDerived` | ticker_aliases.py:109-114 | The `if long_name:` branch appends the name without its suffix, then each separator variant, each through `_safe_add`. |
| `TickerAliases.YfinAliases` | ticker_aliases.py:91-119 | The method computes `YfinAliasesOf(ticker, info)`: the names, the derived names, then the ticker, de-duplicated. |
| `TickerAliases.YfinAliasesHasTicker` | ticker_aliases.py:116-119 | The stripped ticker is always among the aliases, up to case. |
| `TickerAliases.YfinAliasesDistinct` | ticker_aliases.py:119 | No alias is empty. No two aliases are equal after lower-casing. |
| `TickerAliases.YfinAliasesNoInfo` | ticker_aliases.py:96-119 | When the metadata lookup fails (empty `info`), the stripped ticker is the only alias. |
| `TickerAliases.YfinAliasesLongNameFirst` | ticker_aliases.py:102-106 | When the metadata has a name, the first alias is that name, stripped. |
| `TickerAliases.AliasesOfTicker` | ticker_aliases.py:125-129 | One pass of the `build_aliases` loop: the generated aliases, extended with the extra aliases, de-duplicated. |
| `TickerAliases.BuildAliases` | ticker_aliases.py:122-130 | The loop returns the map `BuiltAliases(tickers, extras, infoOf)`. |
| `TickerAliases.BuiltAliasesFacts` | ticker_aliases.py:122-130 | The keys are exactly the tickers. Each ticker maps to its own de-duplicated alias list. |
| `TickerAliases.AliasesForDistinct` | ticker_aliases.py:129 | No two aliases of a ticker are equal after lower-casing. |
| `TickerAliases.AliasesForCovers` | ticker_aliases.py:125-129 | Every generated alias and every extra alias is kept up to case, except the empty string. |
| `TickerAliases.AliasesForHasTicker` | ticker_aliases.py:125-129 | A ticker that is not blank is among its own aliases, stripped, up to case. |
| `TickerAliases.AliasesForNoExtras` | ticker_aliases.py:125-129 | A ticker without extra aliases keeps exactly its generated aliases. |
| `CorpSuffix.SubSuffix` | ticker_aliases.py:61 | Removing one suffix pattern anchored at the end only ever removes a tail. |
| `CorpSuffix.SubAll` | ticker_aliases.py:60-61 | Applying the patterns one after the other, in list order, only ever removes a tail. |
| `CorpSuffix.StripCorpSuffix` | ticker_aliases.py:58-62 | The loop computes `StrippedName(name)`: strip, remove each pattern once in order, strip again. |
| `CorpSuffix.StrippedNameIsPrefix` | ticker_aliases.py:58-62 | The result is stripped and is a prefix of the stripped name. |
| `CorpSuffix.SubSuffixAfterSpace` | ticker_aliases.py:61 | After white space, no spelling of a pattern other than the lowered final word can match at the end, so the pattern cuts where the white space (and a comma before it) begins. |
| `CorpSuffix.MatchStartAfter` | ticker_aliases.py:47-55 | The match of `,?\s+` before the final word starts where the white space run starts, or one earlier when a comma precedes it. |
| `CorpSuffix.SubSuffixRemoves` | ticker_aliases.py:61 | A pattern removes its word in any case together with the white space before it; a comma right before that space goes too. |
| `CorpSuffix.CommaSubSuffixRemoves` | ticker_aliases.py:61 | With `, ` written before the word, the comma, the space and the word are removed and the rest is kept. |
| `CorpSuffix.SuffixRemoved` | ticker_aliases.py:46-61 | Each of the nine corporate suffix patterns removes its word (`Inc`, `Inc.`, `Corp`, `S.A.`, … in any case) after white space, with an optional comma, and keeps what comes before. |
| `CorpSuffix.StrippedNameApple` | ticker_aliases.py:58-62 | "Apple Inc." becomes "Apple". |
| `CorpSuffix.SubAllAfterFirst` | ticker_aliases.py:60-61 | If later patterns leave the first pattern's result unchanged, the whole list gives that result. |
| `CorpSuffix.NoWordWithoutSpace` | ticker_aliases.py:47-55 | Every pattern needs white space before its word, so a string without white space is left as it is. |
| `SeparatorSplit.AppendNew` | ticker_aliases.py:68-71 | Appending new pieces keeps the list so far as a prefix. |
| `SeparatorSplit.SplitOnSeparators` | ticker_aliases.py:64-72 | The loop computes `SeparatorVariants(name)`. |
| `SeparatorSplit.AppendNewFrom` | ticker_aliases.py:68-71 | Each appended entry is a stripped, non-empty piece. |
| `SeparatorSplit.AppendNewCovers` | ticker_aliases.py:68-71 | Every stripped, non-empty piece is listed. |
| `SeparatorSplit.AppendNewDistinct` | ticker_aliases.py:70 | Nothing is listed twice when the start had no repeats. |
| `SeparatorSplit.SeparatorVariantsFacts` | ticker_aliases.py:64-72 | The first variant is the stripped name. The rest are stripped, non-empty pieces of the split on `/ - – — : \|`. Every such piece is listed, and there are no repeats. |
| `ExtraAliases.AliasValues` | ticker_aliases.py:148 | The values of a block are stripped and not empty. |
| `ExtraAliases.ParseOneBlock` | ticker_aliases.py:142-150 | The loop body computes `ParseBlock(block)`: it skips blank blocks and blocks without a colon, splits at the first colon, and keeps the upper-cased ticker and the non-blank values when both are non-empty. |
| `ExtraAliases.ParseExtraAliases` | ticker_aliases.py:133-151 | The function returns `ParsedExtras(expr)`: `{}` for empty input, otherwise the blocks folded in order. |
| `ExtraAliases.ParseBlockFacts` | ticker_aliases.py:146-150 | A block that contributes gives a non-empty, upper-case ticker and a non-empty list of stripped, non-empty aliases. |
| `ExtraAliases.ParseBlocksFromBlocks` | ticker_aliases.py:141-150 | Every entry of the dictionary is what some block contributes. |
| `ExtraAliases.ParseBlocksFacts` | ticker_aliases.py:141-150 | Every key is non-empty and upper case. It maps to a non-empty list of stripped, non-empty aliases that some block gives. |
| `ExtraAliases.ParseBlocksLastWins` | ticker_aliases.py:149-150 | The last block that names a ticker decides its aliases. |
| `ExtraAliases.ParsedTwoBlocks` | ticker_aliases.py:135-136 | Two contributing blocks for different tickers, joined by `;`, give exactly a two-entry dictionary. |
| `ExtraAliases.ParseBlockExample` | ticker_aliases.py:18 | A block `TK:v1\|v2` of upper-case, space-free text gives `(TK, [v1, v2])`, as in `MSFT:Azure\|Windows`. |
| `News.Midnight` | portfolio_news_profit.py:201 | `normalize()` gives the midnight at or before `now`, on the same day. |
| `News.Window` | portfolio_news_profit.py:202 | The window is never longer than the table. |
| `News.WindowMembers` | portfolio_news_profit.py:202 | The window holds exactly the rows whose date is present and at or after the cutoff. |
| `News.WindowAppend` | portfolio_news_profit.py:294-302 | Filtering a concatenation gives the concatenation of the filtered parts, in order. |
| `News.WindowTwice` | portfolio_news_profit.py:299-302 | Cutting at an earlier cutoff and then at a later one is the same as cutting once at the later one. |
| `ArNews.TermSetMembers` | portfolio_news_profit.py:153-159 | A term is a non-empty string that is the ticker, "Argentina", or an alias of the ticker. |
| `ArNews.BuildTerms` | portfolio_news_profit.py:153-159 | As a set, the terms are exactly the term set, with no duplicates, in whatever order the set gives. |
| `ArNews.QueryMentions` | portfolio_news_profit.py:171 | Every term appears quoted in the query. The query starts with `(` and ends with `) AND (Argentina OR .ar)`. |
| `ArNews.SliceTo` | portfolio_news_profit.py:183 | `entries[:max_items]` is a prefix of at most `max_items` entries. A negative bound drops that many entries from the end. |
| `ArNews.EntryRows` | portfolio_news_profit.py:183-198 | There is one row per entry, in order, built by `EntryRow`: summary "", source "Google News AR" when the feed names none. |
| `ArNews.FetchArNews` | portfolio_news_profit.py:161-205 | A query is built exactly when `feedparser` is available, from the distinct terms. The rows are the windowed rows of the first `max_items` entries, and there are none when parsing raises. |
| `ArNews.ArFetchedFacts` | portfolio_news_profit.py:183-203 | At most `max_items` rows. Each row is for the ticker, has no summary, a non-empty source and no sentiment, lies in the window, and comes from one of the first `max_items` entries. |
| `Sentiment.CountPresent` | portfolio_news_profit.py:219-224 | Each keyword counts at most once. |
| `Sentiment.SimpleKeywordSentiment` | portfolio_news_profit.py:207-226 | The two loops compute `clamp((#positive − 2·#negative) / 5, −1, 1)` over the lower-cased title. |
| `Sentiment.KeywordScoreBounds` | portfolio_news_profit.py:225 | The score is always in [−1, 1]. It is exactly the raw score over 5 when that value lies in the range. |
| `Sentiment.KeywordScoreOfEmpty` | portfolio_news_profit.py:208 | A missing or empty title scores 0. |
| `Sentiment.KeywordScoreSign` | portfolio_news_profit.py:218-225 | Only positive keywords give a positive score. Only negative keywords give a negative score. No keywords give 0. |
| `Sentiment.KeywordScoreNegativeWeight` | portfolio_news_profit.py:219-225 | With at least half as many negative keywords as positive ones, the score is not positive. |
| `Sentiment.KeywordScoreOnePositive` | portfolio_news_profit.py:222-225 | One positive keyword and no negative one score 0.2, as for "YPF anuncia récord de producción". |
| `NewsPipeline.PrimaryRows` | portfolio_news_profit.py:239-249 | There are primary rows only if the module loaded, fetching gave a non-empty frame, mapping gave a non-empty frame, and scoring succeeded. They are the scored rows, with the scorer's sentiment or none. |
| `NewsPipeline.Count` | portfolio_news_profit.py:259-262 | A ticker's count never exceeds the number of rows. |
| `NewsPipeline.CountZeroIff` | portfolio_news_profit.py:259-264 | A ticker counts 0 exactly when no row is for it. |
| `NewsPipeline.NeedFallback` | portfolio_news_profit.py:264 | The fallback list is never longer than the ticker list. |
| `NewsPipeline.NeedFallbackIff` | portfolio_news_profit.py:264 | A ticker is fetched again exactly when it is one of the tickers and no primary row is for it. |
| `NewsPipeline.NeedFallbackPrefix` | portfolio_news_profit.py:264 | The fallback tickers keep the tickers' order: a prefix's list is a prefix of the list. |
| `NewsPipeline.FetchPrimary` | portfolio_news_profit.py:236-254 | Step 1 returns `PrimaryRows(...)`. |
| `NewsPipeline.FetchFallback` | portfolio_news_profit.py:266-290 | One pass of the loop gives nothing when the fetch found nothing, and otherwise the fetched rows, scored as `FallbackScored` says. |
| `NewsPipeline.FetchFallbacks` | portfolio_news_profit.py:265-292 | The loop concatenates the fallback rows of each ticker in order, and fetches for every ticker it is given. |
| `NewsPipeline.ComputeNewsForTickers` | portfolio_news_profit.py:228-308 | The result is `NewsFor(...)`. The Argentine feed is fetched for exactly the tickers without primary rows, in order, and only when `enable_ar` is set. |
| `NewsPipeline.NewsOrder` | portfolio_news_profit.py:294-302 | Every returned row is in the window. The windowed primary rows come first, then the windowed fallback rows in fallback-ticker order. |
| `NewsPipeline.NoPrimaryOnFailure` | portfolio_news_profit.py:239-249 | A missing module, or a fetch that raises or gives nothing, leaves only the fallback rows, of every ticker. |
| `NewsPipeline.NoRowsAllNeedFallback` | portfolio_news_profit.py:258-264 | With no primary rows, every ticker needs the fallback. |
| `NewsPipeline.StaleTickerNoFallback` | portfolio_news_profit.py:257-302 | Counts are taken before the cut. A ticker whose primary rows are all stale gets no fallback fetch, and none of its rows survives. |
| `NewsPipeline.FallbackChoice` | portfolio_news_profit.py:264 | A ticker is fetched again exactly when it has no primary row. |
| `NewsPipeline.FallbackKeywordFacts` | portfolio_news_profit.py:267-290 | When the module is missing, or the scorer raises or returns `None`, a fallback row is a fetched row scored by the keyword heuristic. It is for the ticker, has no summary and a non-empty source, is in the fetch window, and its score is in [−1, 1]. There are at most 50 such rows. |
| `NewsPipeline.FallbackScorerKept` | portfolio_news_profit.py:276-280 | A scorer that gives a "sentiment" column has its values kept. |
| `NewsPipeline.FallbackScorerNoColumn` | portfolio_news_profit.py:276-281 | A scorer frame without a "sentiment" column keeps the scorer's rows, each with the keyword score of its title, in [−1, 1]. |
| `NewsPipeline.FallbackSurvivesSameDay` | portfolio_news_profit.py:298-302 | On the same day, the final cut keeps every fallback row that was keyword-scored from the fetched rows: module missing, or the scorer raising or returning `None`. |
| `NewsPipeline.WindowKeepsRecent` | portfolio_news_profit.py:302 | Cutting rows that are all recent changes nothing. |
| `NewsPipeline.FallbackDisabled` | portfolio_news_profit.py:257 | With `enable_ar` off, only the windowed primary rows are returned. |
| `Summary.PlFacts` | portfolio_news_profit.py:393-398 | The current price is the buy price grown by P/L %. Current value equals cost plus P/L Abs. P/L % is present only when P/L Abs is. |
| `Summary.SentimentSumBounds` | portfolio_news_profit.py:377-383 | Sentiments in [−1, 1] sum to a value in [−n, n] for n of them. |
| `Summary.AvgSentimentFacts` | portfolio_news_profit.py:377-385 | The mean is missing exactly when no article of the ticker carries a sentiment. It stays in [−1, 1] when the sentiments do. |
| `Summary.SentimentCountZeroIff` | portfolio_news_profit.py:377-385 | No sentiments are counted exactly when every article of the ticker lacks one. |
| `Summary.SameTickerSameSentiment` | portfolio_news_profit.py:400-406 | Holdings of the same ticker show the same mean sentiment. |
| `Summary.SumPermutation` | portfolio_news_profit.py:411-420 | A column sum does not depend on the order of the holdings. |
| `Summary.TotalRowPermutation` | portfolio_news_profit.py:411-449 | The TOTAL row does not depend on the order of the holdings. |
| `Summary.SumDifference` | portfolio_news_profit.py:411-413 | A sum of per-holding differences is the difference of the sums. |
| `Summary.TotalsConsistent` | portfolio_news_profit.py:411-419 | With every price known, total P/L Abs is total value minus cost basis, and total P/L % is P/L Abs over basis. |
| `Summary.MissingPriceCountsAsCost` | portfolio_news_profit.py:411-413 | In any portfolio, a holding with no current price adds its cost to the basis and its shares to the total, but nothing to the total value or the total P/L Abs. |
| `Summary.TotalAllPricesMissing` | portfolio_news_profit.py:411-419 | With no current price read at all, the total value and P/L Abs are 0, and the total P/L % is −100 % whenever the basis is not 0. |
| `Summary.TotalMissingPrice` | portfolio_news_profit.py:411-419 | A holding alone, with no current price, makes TOTAL P/L % equal −100 %, while TOTAL P/L Abs stays 0. |
| `PortfolioInput.CanonicalHeader` | portfolio_news_profit.py:553-562 | A column is renamed only to one of the four required headers. |
| `PortfolioInput.BuildRename` | portfolio_news_profit.py:552-562 | `rename` holds exactly the recognised columns, each with its new name. |
| `PortfolioInput.RenamedHas` | portfolio_news_profit.py:563 | A column recognised as a required header supplies it. A required header is present only when some column is recognised as it or already has that name. |
| `PortfolioInput.MissingColumn` | portfolio_news_profit.py:566-568 | Nothing is missing exactly when all the required headers are present. Otherwise the result is the first missing header in order. |
| `PortfolioInput.CheckRequired` | portfolio_news_profit.py:566-568 | The loop finds that first missing header. |
| `PortfolioInput.WholeShares` | portfolio_news_profit.py:577 | A share count that is not a number becomes 0. Any other count is truncated toward zero. |
| `PortfolioInput.Holdings` | portfolio_news_profit.py:571-583 | Cleaning never adds rows. |
| `PortfolioInput.HoldingsCover` | portfolio_news_profit.py:571-574 | Every row whose ticker is present and not blank becomes a holding. |
| `PortfolioInput.HoldingsFrom` | portfolio_news_profit.py:571-583 | Every holding comes from such a row, with the ticker upper-cased and stripped and the price from the lookup. |
| `PortfolioInput.CleanTickerFacts` | portfolio_news_profit.py:575 | A cleaned ticker is stripped and not blank. |
| `PortfolioInput.HoldingsTickers` | portfolio_news_profit.py:575 | Every holding's ticker is stripped and not blank. |
| `PortfolioInput.UniqueFacts` | portfolio_news_profit.py:587 | `dict.fromkeys` keeps exactly the entries, each once. |
| `PortfolioInput.UniquePrefix` | portfolio_news_profit.py:587 | First-seen order: the distinct entries of a prefix are a prefix of the distinct entries. |
| `PortfolioInput.BuildPlainAliases` | portfolio_news_profit.py:591-601 | The no-builder loop maps each ticker to its de-duplicated user aliases followed by the ticker. |
| `PortfolioInput.DynAliasesKeys` | portfolio_news_profit.py:588-601 | Both branches give a map whose keys are exactly the tickers, whichever way the user file is read. |
| `PortfolioInput.PreparePortfolio` | portfolio_news_profit.py:551-603 | The steps of `main` compute `Prepare(...)`; `main` as written is the `AsWritten` reading of the user file, the corrected reading is `OneAlias`. |
| `PortfolioInput.PrepareOutcome` | portfolio_news_profit.py:565-603 | `main` stops exactly when a required header is missing after renaming, and names the first one missing. Otherwise it goes on with the holdings, tickers and aliases of the rows. |
| `PortfolioInput.TickerListFacts` | portfolio_news_profit.py:587 | A ticker is listed exactly when some holding has it. No ticker is listed twice, and each is stripped and not blank. |
| `PortfolioInput.MergedMapFacts` | portfolio_news_profit.py:603 | The final alias map has exactly the tickers as keys, and each ticker is among its own aliases, up to case and surrounding space. The alias kept is the first spelling of that key, so it need not be the ticker's own spelling. |
| `PortfolioInput.PreparedOfFacts` | portfolio_news_profit.py:570-603 | The holdings are the cleaned rows, and the tickers are their distinct tickers. The alias map has exactly these keys and lists each ticker among its aliases, up to case and surrounding space. This holds for both readings of the user file. |
| `PortfolioInput.StringAliasSplitAsWritten` | portfolio_news_profit.py:589 | As written, a string alias handed to `build_aliases` produces its first character as a one-character alias, up to case. |
| `PortfolioInput.AsWrittenDynHasChar` | portfolio_news_profit.py:589 | In `main` as written, the builder's alias list of a ticker whose user alias is a string holds the string's first character alone, up to case. |
| `PortfolioInput.MergedKeepsOneChar` | portfolio_news_profit.py:107-119 | A one-character dynamic alias that is not white space survives the merge, up to case. |
| `PortfolioInput.MainSplitsStringAlias` | portfolio_news_profit.py:588-603 | In `main` as written, with the builder present, the final alias map of such a ticker holds the string's first character as a one-character alias, up to case, when that character is not white space. |
| `PortfolioInput.StringAliasWhole` | portfolio_news_profit.py:589 | Read as one alias, a string alias is kept whole, up to case. |
| `PortfolioInput.StringAliasNoShortAlias` | portfolio_news_profit.py:589 | Read as one alias and without metadata, a ticker and an alias of two or more characters give no one-character alias. |

## Left out

- The network and all I/O:
  - the yfinance price and metadata calls (`get_current_price`, `yf.Ticker(...).info`);
  - `feedparser.parse`, `urlencode` and the HTTP request;
  - reading the spreadsheet and the alias file (`load_aliases`; its content is an input, `{}` when it could not be read);
  - everything that writes Excel: `ensure_template`, `write_news_sheet`, the workbook styling and saving;
  - the argparse plumbing and the ticker-file reading of both command lines.
- The lookups are parameters:
  - the price and metadata lookups are functions of the ticker;
  - the feed is a function of the set of search terms. The set's iteration order, and so the exact query text sent, is not modelled; `FetchArNews` returns the query it would send;
  - the news module's three functions are functions of their arguments. Any exception raised inside them is a result value.
- Clocks: "today" is a parameter. All fallback fetches of one run share one `fetchNow`, and the final cut uses `filterNow`.
- Dates:
  - `pd.to_datetime(..., errors="coerce")` is the parameter `parseDate`, giving `Option<int>` seconds;
  - the second coercion before the final cut is taken as the identity on already-parsed dates.
- Floating point: prices, shares and sentiments are `real`.
  - `Summary.PlPct`: a buy price of 0 or a missing price gives `None` rather than `inf`/`NaN`.
  - NaN propagation through the pandas sums is modelled by skipping missing values, as `skipna=True` does.
- `Text.Lower` and `Text.Upper` map only ASCII and Latin-1 letters. Python's full Unicode case mapping is not modelled.
- The regular expressions are hand-written matchers for the nine suffix patterns and the separator class. The corner case where `$` also matches before one trailing newline is not modelled.
- Values of the wrong type are not modelled:
  - non-string values in alias lists or ticker cells;
  - duplicate column names;
  - a scorer frame that lacks a column. A frame from `score_articles` without a "title" column makes the keyword fallback at line 279 raise, and the rows fetched from the feed are keyword-scored instead. Every modelled row has a title, so this path is not modelled;
  - pandas' dtype coercion of the ticker column. Rows arrive with the ticker as text, the buy price and shares as numbers or `None`.
- The per-holding price loop of `main` is folded into `PortfolioInput.Holdings` (one `priceOf` call per kept row).
- `PortfolioInput.ExtrasAsWritten`: a user value that is neither a string nor a list is modelled as adding nothing. In `build_aliases`, `extend` would raise for a number, or add a dictionary's keys.
- `_safe_add` appends to the caller's list in place. The model passes the list by value and returns the extended list, which is the same list as the caller then sees it.
- `Sentiment.KeywordScoreOnePositive` states the 0.2 score for any title with one positive keyword and no negative one. It is not proved on the literal headline "YPF anuncia récord de producción".
- `ExtraAliases.ParsedTwoBlocks` and `ExtraAliases.ParseBlockExample`: the documented example `"MSFT:Azure|Windows;AAPL:iPhone|Mac"` is covered by these general lemmas about two blocks and about one block of the form `TK:v1|v2`. It is not evaluated on the literal string.
- `FallbackSurvivesSameDay` is not stated for a scorer that returns a frame. Its rows, and their dates, are the scorer's, and need not lie in the fetch window.
- `NewsPipeline.FallbackScorerKept`, `NewsPipeline.FallbackDisabled` and `PortfolioInput.PrepareOutcome` follow from the definitions without further proof.
- The order of the output columns is not modelled. It is fixed by the Summary row datatype.

## Findings

| source | as written | input that shows it | evidently intended | confidence | as-written member | corrected member |
|---|---|---|---|---|---|---|
| portfolio_news_profit.py:589 with ticker_aliases.py:125-128 | `main` passes the user alias file to `build_aliases` as `extra_aliases`. That function `extend`s the ticker's list with the value, so a string value is split into its characters. Every distinct character that is not white space becomes an alias and an Argentine search term; white space is stripped to nothing and skipped by the merge, and a repeated letter is kept once. | An alias file `{"YPF": "Yacimientos"}` with the alias builder available. `Y`, `a`, `c`, … become aliases of YPF. | A string is one alias, as `merge_alias_sources` (110-113) and the no-builder branch (596-597) read it. | medium, not executed | `PortfolioInput.StringAliasSplitAsWritten`, `PortfolioInput.MainSplitsStringAlias` (`Prepare` with the `AsWritten` reading) | `PortfolioInput.StringAliasWhole`, `PortfolioInput.StringAliasNoShortAlias` (`Prepare` with the `OneAlias` reading) |

One behaviour of the TOTAL row follows the source and is not flagged as a finding, but a reader should know it. The value and cost sums skip missing prices, so a holding without a current price counts as worth nothing in the total value. TOTAL P/L % then reports a loss (`Summary.MissingPriceCountsAsCost`; −100 % when no current price could be read, `Summary.TotalAllPricesMissing`), while TOTAL P/L Abs, which skips that row's missing P/L, does not.
