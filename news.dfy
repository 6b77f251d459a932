/** The news table of portfolio_news_profit.py as a sequence of rows, and
    the look-back window both the Argentine feed fetch and
    `compute_news_for_tickers` cut it to. Dates are whole seconds on a
    naive local clock; an unparseable date is `None` (pandas' `NaT`). */
module News {
  import opened Wrappers

  /** One article: the columns date, ticker, title, summary, link, source
      and sentiment (`None` while unscored or when the scorer gave none). */
  datatype Row = Row(date: Option<int>, ticker: string, title: string, summary: string,
                     link: string, source: string, sentiment: Option<real>)

  const SecondsPerDay: int := 86400

  /** `Timestamp.normalize()`: midnight of the day `now` falls in. */
  function Midnight(now: int): (r: int)
    ensures r <= now < r + SecondsPerDay && r % SecondsPerDay == 0
  {
    now - now % SecondsPerDay
  }

  /** `Timestamp.today().normalize() - Timedelta(days=days)` */
  function Cutoff(now: int, days: int): int {
    Midnight(now) - days * SecondsPerDay
  }

  /** `df["date"] >= cutoff`: a missing date never compares true. */
  predicate Recent(r: Row, cutoff: int) {
    r.date.Some? && r.date.value >= cutoff
  }

  /** `df[df["date"] >= cutoff]`: the recent rows, in their order. */
  function Window(rows: seq<Row>, cutoff: int): (w: seq<Row>)
    ensures |w| <= |rows|
  {
    if rows == [] then []
    else
      var n := |rows| - 1;
      Window(rows[..n], cutoff) + (if Recent(rows[n], cutoff) then [rows[n]] else [])
  }

  /** The window holds exactly the recent rows. */
  lemma {:induction false} WindowMembers(rows: seq<Row>, cutoff: int)
    ensures forall x :: x in Window(rows, cutoff) <==> x in rows && Recent(x, cutoff)
  {
    if rows != [] {
      var n := |rows| - 1;
      WindowMembers(rows[..n], cutoff);
      assert rows == rows[..n] + [rows[n]];
    }
  }

  /** The window of two tables one after the other is the two windows one
      after the other: filtering keeps the order of the rows. */
  lemma {:induction false} WindowAppend(a: seq<Row>, b: seq<Row>, cutoff: int)
    ensures Window(a + b, cutoff) == Window(a, cutoff) + Window(b, cutoff)
    decreases |b|
  {
    if b != [] {
      var n := |b| - 1;
      assert (a + b)[..|a| + n] == a + b[..n];
      WindowAppend(a, b[..n], cutoff);
    } else {
      assert a + b == a;
    }
  }

  /** Cutting to the window twice is cutting once, and cutting to a later
      cutoff after an earlier one is cutting to the later one. */
  lemma {:induction false} WindowTwice(rows: seq<Row>, c1: int, c2: int)
    requires c1 <= c2
    ensures Window(Window(rows, c1), c2) == Window(rows, c2)
  {
    if rows != [] {
      var n := |rows| - 1;
      WindowTwice(rows[..n], c1, c2);
      var r := rows[n];
      WindowAppend(Window(rows[..n], c1), if Recent(r, c1) then [r] else [], c2);
    }
  }
}
