/** The Summary sheet of `build_workbook` in portfolio_news_profit.py: one
    row per holding with its profit and loss and the mean sentiment of its
    ticker's news, then a TOTAL row for the whole portfolio. Prices are
    reals; a price that could not be read is `None`, and so is a
    percentage whose buy price is 0 (where the source divides by zero). */
module Summary {
  import opened Wrappers
  import opened News

  /** One cleaned portfolio line: ticker, buy price, buy date (passed
      through as text), whole shares, and the current price. */
  datatype Holding = Holding(ticker: string, buyPrice: Option<real>, buyDate: string, shares: int,
                             current: Option<real>)

  /** A row of the Summary sheet, in its column order. */
  datatype SummaryRow = SummaryRow(ticker: string, buyPrice: Option<real>, buyDate: string, shares: real,
                                   current: Option<real>, plAbs: Option<real>, plPct: Option<real>,
                                   avgSentiment: Option<real>)

  const TotalLabel: string := "TOTAL"

  // ---------------------------------------------------------------------
  // Per-holding columns
  // ---------------------------------------------------------------------

  /** "P/L Abs": (current − buy) · shares, missing when a price is. */
  function PlAbs(h: Holding): Option<real> {
    if h.buyPrice.Some? && h.current.Some?
    then Some((h.current.value - h.buyPrice.value) * h.shares as real)
    else None
  }

  /** "P/L %" as a fraction: (current − buy) / buy, missing when a price
      is or the buy price is 0. */
  function PlPct(h: Holding): Option<real> {
    if h.buyPrice.Some? && h.current.Some? && h.buyPrice.value != 0.0
    then Some((h.current.value - h.buyPrice.value) / h.buyPrice.value)
    else None
  }

  /** The two profit columns agree with the prices: the current price is
      the buy price grown by the percentage, and the current value of the
      shares is their cost plus the absolute profit. */
  lemma PlFacts(h: Holding)
    ensures PlPct(h).Some? ==> h.current.value == h.buyPrice.value * (1.0 + PlPct(h).value)
    ensures PlAbs(h).Some? ==> h.current.value * h.shares as real == h.buyPrice.value * h.shares as real + PlAbs(h).value
    ensures PlPct(h).Some? ==> PlAbs(h).Some?
  {
    if PlPct(h).Some? {
      var b, c := h.buyPrice.value, h.current.value;
      calc {
        b * (1.0 + (c - b) / b);
        b + b * ((c - b) / b);
        b + (c - b);
      }
    }
  }

  // ---------------------------------------------------------------------
  // Mean sentiment per ticker
  // ---------------------------------------------------------------------

  /** The sum and the number of the sentiments the news gives `t`
      (missing sentiments are skipped, as `mean` skips them). */
  function SentimentSum(news: seq<Row>, t: string): real {
    if news == [] then 0.0
    else
      var k := |news| - 1;
      SentimentSum(news[..k], t) + (if news[k].ticker == t && news[k].sentiment.Some? then news[k].sentiment.value else 0.0)
  }

  function SentimentCount(news: seq<Row>, t: string): nat {
    if news == [] then 0
    else
      var k := |news| - 1;
      SentimentCount(news[..k], t) + (if news[k].ticker == t && news[k].sentiment.Some? then 1 else 0)
  }

  /** "Avg Sentiment": the mean sentiment of the ticker's news, missing when
      the news gives the ticker no sentiment at all. */
  function AvgSentiment(news: seq<Row>, t: string): Option<real> {
    var n := SentimentCount(news, t);
    if n == 0 then None else Some(SentimentSum(news, t) / n as real)
  }

  /** When every sentiment lies in [-1, 1], their sum lies in [-n, n] for n
      of them. */
  lemma {:induction false} SentimentSumBounds(news: seq<Row>, t: string)
    requires forall x :: x in news && x.sentiment.Some? ==> -1.0 <= x.sentiment.value <= 1.0
    ensures -(SentimentCount(news, t) as real) <= SentimentSum(news, t) <= SentimentCount(news, t) as real
  {
    if news != [] {
      var k := |news| - 1;
      assert forall x :: x in news[..k] ==> x in news;
      SentimentSumBounds(news[..k], t);
      assert news[k] in news;
    }
  }

  /** The mean is missing exactly when no article of the ticker carries a
      sentiment, and it stays in [-1, 1] when the sentiments do. */
  lemma {:induction false} AvgSentimentFacts(news: seq<Row>, t: string)
    ensures AvgSentiment(news, t).None? <==> forall x :: x in news && x.ticker == t ==> x.sentiment.None?
    ensures ((forall x :: x in news && x.sentiment.Some? ==> -1.0 <= x.sentiment.value <= 1.0)
             && AvgSentiment(news, t).Some?) ==> -1.0 <= AvgSentiment(news, t).value <= 1.0
  {
    SentimentCountZeroIff(news, t);
    if (forall x :: x in news && x.sentiment.Some? ==> -1.0 <= x.sentiment.value <= 1.0) && SentimentCount(news, t) > 0 {
      SentimentSumBounds(news, t);
      MeanBounds(SentimentSum(news, t), SentimentCount(news, t) as real);
    }
  }

  /** A sum within [-n, n] of n values has a mean within [-1, 1]. */
  lemma MeanBounds(s: real, n: real)
    requires n > 0.0 && -n <= s <= n
    ensures -1.0 <= s / n <= 1.0
  {
    var q := s / n;
    assert q * n == s;
    assert (q - 1.0) * n <= 0.0;
    assert (q + 1.0) * n >= 0.0;
  }

  lemma {:induction false} SentimentCountZeroIff(news: seq<Row>, t: string)
    ensures SentimentCount(news, t) == 0 <==> forall x :: x in news && x.ticker == t ==> x.sentiment.None?
  {
    if news != [] {
      var k := |news| - 1;
      SentimentCountZeroIff(news[..k], t);
      assert news == news[..k] + [news[k]];
    }
  }

  // ---------------------------------------------------------------------
  // The TOTAL row
  // ---------------------------------------------------------------------

  /** `(...).sum(skipna=True)` of a column computed per holding. */
  function Sum(hs: seq<Holding>, f: Holding -> real): real {
    if hs == [] then 0.0
    else
      var k := |hs| - 1;
      Sum(hs[..k], f) + f(hs[k])
  }

  /** Buy price times shares, 0 when the price is missing. */
  function CostOf(h: Holding): real {
    if h.buyPrice.Some? then h.buyPrice.value * h.shares as real else 0.0
  }

  /** Current price times shares, 0 when the price is missing. */
  function ValueOf(h: Holding): real {
    if h.current.Some? then h.current.value * h.shares as real else 0.0
  }

  /** P/L Abs, 0 when missing. */
  function PlAbsOf(h: Holding): real {
    if PlAbs(h).Some? then PlAbs(h).value else 0.0
  }

  function SharesOf(h: Holding): real {
    h.shares as real
  }

  /** The total P/L %: the change of the portfolio's value over its cost
      basis, 0 when the basis is 0. */
  function TotalPct(basis: real, value: real): real {
    if basis != 0.0 then (value - basis) / basis else 0.0
  }

  /** The TOTAL row: cost basis under "Buy Price", the total shares, the
      current value under "Current Price", the summed P/L Abs and the
      total P/L %; the date and sentiment cells are blank. */
  function TotalRow(hs: seq<Holding>): SummaryRow {
    var basis := Sum(hs, CostOf);
    var value := Sum(hs, ValueOf);
    SummaryRow(TotalLabel, Some(basis), "", Sum(hs, SharesOf), Some(value), Some(Sum(hs, PlAbsOf)),
               Some(TotalPct(basis, value)), None)
  }

  /** The row of one holding. */
  function RowOf(h: Holding, news: seq<Row>): SummaryRow {
    SummaryRow(h.ticker, h.buyPrice, h.buyDate, h.shares as real, h.current, PlAbs(h), PlPct(h),
               AvgSentiment(news, h.ticker))
  }

  /** The Summary sheet: the holdings' rows in portfolio order, then TOTAL. */
  function SummaryTable(hs: seq<Holding>, news: seq<Row>): (r: seq<SummaryRow>)
    ensures |r| == |hs| + 1 && r[|hs|] == TotalRow(hs)
    ensures forall k :: 0 <= k < |hs| ==> r[k] == RowOf(hs[k], news)
  {
    seq(|hs|, k requires 0 <= k < |hs| => RowOf(hs[k], news)) + [TotalRow(hs)]
  }

  /** Holdings of the same ticker show the same mean sentiment. */
  lemma SameTickerSameSentiment(hs: seq<Holding>, news: seq<Row>, i: nat, j: nat)
    requires i < |hs| && j < |hs| && hs[i].ticker == hs[j].ticker
    ensures SummaryTable(hs, news)[i].avgSentiment == SummaryTable(hs, news)[j].avgSentiment
  {
  }

  lemma {:induction false} SumAppend(a: seq<Holding>, b: seq<Holding>, f: Holding -> real)
    ensures Sum(a + b, f) == Sum(a, f) + Sum(b, f)
    decreases |b|
  {
    if b == [] {
      assert a + b == a;
    } else {
      var k := |b| - 1;
      assert (a + b)[..|a| + k] == a + b[..k];
      SumAppend(a, b[..k], f);
    }
  }

  /** Taking one holding out of a sum. */
  lemma {:induction false} SumRemove(b: seq<Holding>, i: nat, f: Holding -> real)
    requires i < |b|
    ensures Sum(b, f) == Sum(b[..i] + b[i + 1..], f) + f(b[i])
    decreases |b|
  {
    var n := |b| - 1;
    if i == n {
      assert b[..i] + b[i + 1..] == b[..n];
    } else {
      var c := b[..n];
      SumRemove(c, i, f);
      var r := b[..i] + b[i + 1..];
      assert r[..|r| - 1] == c[..i] + c[i + 1..] && r[|r| - 1] == b[n];
    }
  }

  lemma SumSingle(h: Holding, f: Holding -> real)
    ensures Sum([h], f) == f(h)
  {
    assert [h][..0] == [];
  }

  lemma MultisetRemove<T>(b: seq<T>, i: nat)
    requires i < |b|
    ensures multiset(b[..i] + b[i + 1..]) == multiset(b) - multiset{b[i]}
  {
    assert b == b[..i] + [b[i]] + b[i + 1..];
  }

  /** A sum does not depend on the order of the holdings. */
  lemma {:induction false} SumPermutation(a: seq<Holding>, b: seq<Holding>, f: Holding -> real)
    requires multiset(a) == multiset(b)
    ensures Sum(a, f) == Sum(b, f)
    decreases |a|
  {
    if a != [] {
      var k := |a| - 1;
      var x := a[k];
      assert a == a[..k] + [x];
      assert x in multiset(b);
      var i :| 0 <= i < |b| && b[i] == x;
      var rest := b[..i] + b[i + 1..];
      MultisetRemove(b, i);
      MultisetRemove(a, k);
      assert a[..k] + a[k + 1..] == a[..k];
      SumPermutation(a[..k], rest, f);
      SumRemove(b, i, f);
    }
  }

  /** The TOTAL row does not depend on the order of the holdings. */
  lemma TotalRowPermutation(a: seq<Holding>, b: seq<Holding>)
    requires multiset(a) == multiset(b)
    ensures TotalRow(a) == TotalRow(b)
  {
    SumPermutation(a, b, CostOf);
    SumPermutation(a, b, ValueOf);
    SumPermutation(a, b, SharesOf);
    SumPermutation(a, b, PlAbsOf);
  }

  /** Sums are linear: when `f` is `g` minus `h` holding by holding, so are
      their sums. */
  lemma {:induction false} SumDifference(hs: seq<Holding>, f: Holding -> real, g: Holding -> real, h: Holding -> real)
    requires forall k :: 0 <= k < |hs| ==> f(hs[k]) == g(hs[k]) - h(hs[k])
    ensures Sum(hs, f) == Sum(hs, g) - Sum(hs, h)
  {
    if hs != [] {
      var k := |hs| - 1;
      SumDifference(hs[..k], f, g, h);
    }
  }

  /** With every price known, the total P/L Abs is the change of value
      over the cost basis, and the total P/L % is that change over the
      basis. */
  lemma TotalsConsistent(hs: seq<Holding>)
    requires forall k :: 0 <= k < |hs| ==> hs[k].buyPrice.Some? && hs[k].current.Some?
    ensures var t := TotalRow(hs);
      && t.plAbs.value == t.current.value - t.buyPrice.value
      && (t.buyPrice.value != 0.0 ==> t.plPct.value == t.plAbs.value / t.buyPrice.value)
  {
    forall k | 0 <= k < |hs| ensures PlAbsOf(hs[k]) == ValueOf(hs[k]) - CostOf(hs[k]) {
      var h := hs[k];
      assert (h.current.value - h.buyPrice.value) * h.shares as real
          == h.current.value * h.shares as real - h.buyPrice.value * h.shares as real;
    }
    SumDifference(hs, PlAbsOf, ValueOf, CostOf);
  }

  /** A holding whose current price could not be read adds its cost to
      the basis and its shares to the total, but nothing to the value or
      to the P/L Abs. Since the TOTAL row does not depend on the order of
      the holdings, this holds wherever the holding stands. */
  lemma MissingPriceCountsAsCost(hs: seq<Holding>, h: Holding)
    requires h.current.None?
    ensures var a, t := TotalRow(hs), TotalRow(hs + [h]);
      && t.buyPrice.value == a.buyPrice.value + CostOf(h)
      && t.shares == a.shares + h.shares as real
      && t.current == a.current && t.plAbs == a.plAbs
  {
    assert (hs + [h])[..|hs|] == hs;
  }

  lemma {:induction false} SumZero(hs: seq<Holding>, f: Holding -> real)
    requires forall k :: 0 <= k < |hs| ==> f(hs[k]) == 0.0
    ensures Sum(hs, f) == 0.0
  {
    if hs != [] {
      SumZero(hs[..|hs| - 1], f);
    }
  }

  /** With no current price read at all, the total value and the total
      P/L Abs are 0, and the total P/L % is −100 % whenever the cost basis
      is not 0. */
  lemma TotalAllPricesMissing(hs: seq<Holding>)
    requires forall k :: 0 <= k < |hs| ==> hs[k].current.None?
    ensures var t := TotalRow(hs);
      && t.current == Some(0.0) && t.plAbs == Some(0.0)
      && (t.buyPrice.value != 0.0 ==> t.plPct == Some(-1.0))
  {
    SumZero(hs, ValueOf);
    SumZero(hs, PlAbsOf);
    var basis := Sum(hs, CostOf);
    if basis != 0.0 {
      assert (0.0 - basis) / basis * basis == -basis;
    }
  }

  /** A holding whose current price could not be read still counts in the
      cost basis but not in the value: alone, it makes the total P/L %
      −100 % while the total P/L Abs stays 0. */
  lemma TotalMissingPrice(h: Holding)
    requires h.buyPrice.Some? && h.buyPrice.value > 0.0 && h.shares > 0 && h.current.None?
    ensures var t := TotalRow([h]);
      t.plPct == Some(-1.0) && t.plAbs == Some(0.0) && t.buyPrice == Some(h.buyPrice.value * h.shares as real)
  {
    var basis := h.buyPrice.value * h.shares as real;
    assert basis > 0.0;
    SumSingle(h, CostOf);
    SumSingle(h, ValueOf);
    SumSingle(h, PlAbsOf);
    assert CostOf(h) == basis;
    assert ValueOf(h) == 0.0;
    assert PlAbsOf(h) == 0.0;
    assert TotalPct(basis, 0.0) == -1.0 by {
      assert (0.0 - basis) / basis * basis == -basis;
    }
  }
}
