/** The input cleaning and alias steps of `main` in portfolio_news_profit.py:
    header renaming, the required-column check, ticker clean-up, the
    first-seen list of distinct tickers and the alias map built for them.
    Reading the spreadsheet and the alias file, and the price and
    metadata lookups, are outside the model: the header row, the rows
    (their cells already converted to numbers where the source coerces
    them), the alias file's content and the two lookups are inputs. */
module PortfolioInput {
  import opened Wrappers
  import opened Text
  import opened Dedupe
  import opened Dicts
  import TickerAliases
  import AliasMerge
  import opened Summary

  // ---------------------------------------------------------------------
  // Headers
  // ---------------------------------------------------------------------

  /** The columns the sheet must have after renaming, in the order they
      are checked. */
  const Required: seq<string> := ["Ticker", "Buy Price", "Buy Date", "Shares"]

  /** The header a column is renamed to, chosen by its stripped and
      lower-cased name; `None` leaves it as it is. */
  function CanonicalHeader(c: string): (r: Option<string>)
    ensures r.Some? ==> r.value in Required
  {
    var cl := Lower(Trim(c));
    if cl == "ticker" || cl == "symbol" then Some("Ticker")
    else if cl == "buy price" || cl == "buyprice" || cl == "price" || cl == "entry price" then Some("Buy Price")
    else if cl == "buy date" || cl == "date" || cl == "entry date" then Some("Buy Date")
    else if cl == "shares" || cl == "qty" || cl == "amounts of share" || cl == "amounts of shares"
         || cl == "quantity" then Some("Shares")
    else None
  }

  /** The header loop: the `rename` dictionary holds every recognised
      column with its new name. */
  method BuildRename(cols: seq<string>) returns (rename: map<string, string>)
    ensures forall c :: c in rename <==> c in cols && CanonicalHeader(c).Some?
    ensures forall c :: c in rename ==> rename[c] == CanonicalHeader(c).value
  {
    rename := map[];
    var i := 0;
    while i < |cols|
      invariant i <= |cols|
      invariant forall c :: c in rename <==> c in cols[..i] && CanonicalHeader(c).Some?
      invariant forall c :: c in rename ==> rename[c] == CanonicalHeader(c).value
    {
      var c := cols[i];
      assert forall x :: x in cols[..i + 1] <==> x in cols[..i] || x == c by {
        assert cols[..i + 1] == cols[..i] + [c];
      }
      var h := CanonicalHeader(c);
      if h.Some? {
        rename := rename[c := h.value];
      }
      i := i + 1;
    }
    assert cols[..i] == cols;
  }

  /** The header row after `df.rename(columns=rename)`. */
  function Renamed(cols: seq<string>): seq<string> {
    seq(|cols|, k requires 0 <= k < |cols| =>
      if CanonicalHeader(cols[k]).Some? then CanonicalHeader(cols[k]).value else cols[k])
  }

  /** After renaming, a column recognised as a required header supplies
      it, and a required header is only present when some column is
      recognised as it or already carries its name. */
  lemma RenamedHas(cols: seq<string>, h: string)
    requires h in Required
    ensures (exists k :: 0 <= k < |cols| && CanonicalHeader(cols[k]) == Some(h)) ==> h in Renamed(cols)
    ensures h in Renamed(cols) ==> exists k :: 0 <= k < |cols| && (CanonicalHeader(cols[k]) == Some(h) || cols[k] == h)
  {
    var r := Renamed(cols);
    if h in r {
      var k :| 0 <= k < |r| && r[k] == h;
      assert CanonicalHeader(cols[k]) == Some(h) || cols[k] == h;
    }
    if exists k :: 0 <= k < |cols| && CanonicalHeader(cols[k]) == Some(h) {
      var k :| 0 <= k < |cols| && CanonicalHeader(cols[k]) == Some(h);
      assert r[k] == h;
    }
  }

  /** The first header of `req` the columns lack, if any. */
  function MissingColumn(cols: seq<string>, req: seq<string>): (r: Option<string>)
    ensures r.None? <==> forall h :: h in req ==> h in cols
    ensures r.Some? ==> exists i :: 0 <= i < |req| && req[i] == r.value && r.value !in cols
                                    && forall j :: 0 <= j < i ==> req[j] in cols
  {
    if req == [] then None
    else if req[0] !in cols then Some(req[0])
    else
      var r := MissingColumn(cols, req[1..]);
      if r.Some? then
        var i :| 0 <= i < |req[1..]| && req[1..][i] == r.value && r.value !in cols
                 && forall j :: 0 <= j < i ==> req[1..][j] in cols;
        assert req[i + 1] == r.value;
        r
      else r
  }

  /** The required-columns loop: the first missing one, if any. */
  method CheckRequired(cols: seq<string>) returns (missing: Option<string>)
    ensures missing == MissingColumn(cols, Required)
  {
    var i := 0;
    while i < |Required|
      invariant i <= |Required|
      invariant MissingColumn(cols, Required) == MissingColumn(cols, Required[i..])
    {
      if Required[i] !in cols {
        return Some(Required[i]);
      }
      assert Required[i..][1..] == Required[i + 1..];
      i := i + 1;
    }
    return None;
  }

  /** The message `main` exits with. */
  function MissingMessage(h: string): string {
    "Missing required column: " + h
  }

  // ---------------------------------------------------------------------
  // Rows
  // ---------------------------------------------------------------------

  /** One sheet row: the ticker cell (`None` when empty), the buy price and
      share count as `pd.to_numeric(..., errors="coerce")` reads them
      (`None` when not a number), and the buy date as text. */
  datatype RawRow = RawRow(ticker: Option<string>, buyPrice: Option<real>, buyDate: string, shares: Option<real>)

  /** A row is kept when its ticker is present and not blank. */
  predicate Kept(r: RawRow) {
    r.ticker.Some? && Trim(r.ticker.value) != ""
  }

  /** `.str.upper().str.strip()` */
  function CleanTicker(t: string): string {
    Trim(Upper(t))
  }

  /** `.fillna(0).astype(int)`: a missing count is 0, any other is cut
      toward zero. */
  function WholeShares(x: Option<real>): (n: int)
    ensures x.None? ==> n == 0
    ensures x.Some? && x.value >= 0.0 ==> 0 <= n && n as real <= x.value < n as real + 1.0
    ensures x.Some? && x.value < 0.0 ==> n <= 0 && n as real - 1.0 < x.value <= n as real
  {
    if x.None? then 0
    else if x.value >= 0.0 then x.value.Floor
    else -((-x.value).Floor)
  }

  /** The holding a kept row becomes, priced by `priceOf`
      (`get_current_price`). */
  function HoldingOf(r: RawRow, priceOf: string -> Option<real>): Holding
    requires Kept(r)
  {
    var t := CleanTicker(r.ticker.value);
    Holding(t, r.buyPrice, r.buyDate, WholeShares(r.shares), priceOf(t))
  }

  /** The cleaned portfolio: the kept rows, in order. */
  function Holdings(rows: seq<RawRow>, priceOf: string -> Option<real>): (hs: seq<Holding>)
    ensures |hs| <= |rows|
  {
    if rows == [] then []
    else
      var k := |rows| - 1;
      Holdings(rows[..k], priceOf) + (if Kept(rows[k]) then [HoldingOf(rows[k], priceOf)] else [])
  }

  /** Every kept row becomes a holding. */
  lemma {:induction false} HoldingsCover(rows: seq<RawRow>, priceOf: string -> Option<real>)
    ensures forall k :: 0 <= k < |rows| && Kept(rows[k]) ==> HoldingOf(rows[k], priceOf) in Holdings(rows, priceOf)
  {
    if rows != [] {
      var n := |rows| - 1;
      var p := rows[..n];
      HoldingsCover(p, priceOf);
      forall k | 0 <= k < n && Kept(rows[k]) ensures HoldingOf(rows[k], priceOf) in Holdings(rows, priceOf) {
        assert p[k] == rows[k];
      }
    }
  }

  /** Every holding comes from a kept row. */
  lemma {:induction false} HoldingsFrom(rows: seq<RawRow>, priceOf: string -> Option<real>)
    ensures forall h :: h in Holdings(rows, priceOf) ==>
      exists k :: 0 <= k < |rows| && Kept(rows[k]) && h == HoldingOf(rows[k], priceOf)
  {
    if rows != [] {
      var n := |rows| - 1;
      var p := rows[..n];
      HoldingsFrom(p, priceOf);
      forall h | h in Holdings(rows, priceOf)
        ensures exists k :: 0 <= k < |rows| && Kept(rows[k]) && h == HoldingOf(rows[k], priceOf)
      {
        if h in Holdings(p, priceOf) {
          var k :| 0 <= k < n && Kept(p[k]) && h == HoldingOf(p[k], priceOf);
          assert p[k] == rows[k];
        } else {
          assert h == HoldingOf(rows[n], priceOf);
        }
      }
    }
  }

  /** A kept row's ticker is stripped and not blank once cleaned. */
  lemma CleanTickerFacts(t: string)
    requires Trim(t) != ""
    ensures CleanTicker(t) != "" && IsTrimmed(CleanTicker(t))
  {
    UpperNotBlank(t);
  }

  /** Every holding's ticker is stripped and not blank. */
  lemma HoldingsTickers(rows: seq<RawRow>, priceOf: string -> Option<real>)
    ensures forall h :: h in Holdings(rows, priceOf) ==> h.ticker != "" && IsTrimmed(h.ticker)
  {
    HoldingsFrom(rows, priceOf);
    forall h | h in Holdings(rows, priceOf) ensures h.ticker != "" && IsTrimmed(h.ticker) {
      var k :| 0 <= k < |rows| && Kept(rows[k]) && h == HoldingOf(rows[k], priceOf);
      CleanTickerFacts(rows[k].ticker.value);
    }
  }

  /** The tickers of the holdings, in order. */
  function TickersOf(hs: seq<Holding>): seq<string> {
    seq(|hs|, k requires 0 <= k < |hs| => hs[k].ticker)
  }

  // ---------------------------------------------------------------------
  // Distinct tickers
  // ---------------------------------------------------------------------

  /** `list(dict.fromkeys(xs))`: each entry once, where it first occurs. */
  function Unique(xs: seq<string>): seq<string> {
    if xs == [] then []
    else
      var k := |xs| - 1;
      Unique(xs[..k]) + (if xs[k] in xs[..k] then [] else [xs[k]])
  }

  /** The distinct tickers are exactly the tickers, with no repetition. */
  lemma {:induction false} UniqueFacts(xs: seq<string>)
    ensures forall x :: x in Unique(xs) <==> x in xs
    ensures forall i, j :: 0 <= i < j < |Unique(xs)| ==> Unique(xs)[i] != Unique(xs)[j]
  {
    if xs != [] {
      var k := |xs| - 1;
      UniqueFacts(xs[..k]);
      assert xs == xs[..k] + [xs[k]];
    }
  }

  /** First-seen order: the distinct entries of a prefix are a prefix of
      the distinct entries. */
  lemma {:induction false} UniquePrefix(xs: seq<string>, m: nat)
    requires m <= |xs|
    ensures Unique(xs[..m]) <= Unique(xs)
    decreases |xs|
  {
    if m < |xs| {
      var k := |xs| - 1;
      assert xs[..k][..m] == xs[..m];
      UniquePrefix(xs[..k], m);
    } else {
      assert xs[..m] == xs;
    }
  }

  // ---------------------------------------------------------------------
  // The alias map
  // ---------------------------------------------------------------------

  /** The aliases the user file gives each ticker, a string as one alias:
      how `merge_alias_sources` and the no-builder branch read them. */
  function ExtrasOf(user: map<string, AliasMerge.UserAlias>): map<string, seq<string>> {
    map t | t in user :: AliasMerge.UserPart(user[t])
  }

  /** The one-character strings of `a`, which `list.extend(a)` appends. */
  function Chars(a: string): (r: seq<string>)
    ensures |r| == |a| && forall k :: 0 <= k < |r| ==> r[k] == [a[k]]
  {
    seq(|a|, k requires 0 <= k < |a| => [a[k]])
  }

  /** What `base.extend(extra_aliases[t])` in `build_aliases` appends for a
      user value: a string character by character. */
  function ExtendedBy(ua: AliasMerge.UserAlias): seq<string> {
    match ua
    case Single(a) => Chars(a)
    case Multiple(xs) => xs
    case Other => []
  }

  /** The user file as `build_aliases` receives it from `main`. */
  function ExtrasAsWritten(user: map<string, AliasMerge.UserAlias>): map<string, seq<string>> {
    map t | t in user :: ExtendedBy(user[t])
  }

  /** The aliases of `t` when the alias builder is missing: the user's
      aliases and the ticker, de-duplicated. */
  function PlainAliases(t: string, user: map<string, AliasMerge.UserAlias>): seq<string> {
    Deduped(StripAndLower(), AliasMerge.UserPartOf(t, user) + [t])
  }

  /** How the user file reaches `build_aliases`: as `main` hands it on,
      a string value then being extended character by character
      (`AsWritten`), or with a string read as one alias, as the rest of
      `main` reads it (`OneAlias`). */
  datatype Reading = AsWritten | OneAlias

  /** The `extra_aliases` argument `build_aliases` works with. */
  function BuilderExtras(user: map<string, AliasMerge.UserAlias>, reading: Reading): map<string, seq<string>> {
    if reading.AsWritten? then ExtrasAsWritten(user) else ExtrasOf(user)
  }

  /** `dyn_aliases`: from `build_aliases` given the user's aliases when
      the builder is there, from the user's aliases alone otherwise. */
  function DynAliases(tickers: seq<string>, user: map<string, AliasMerge.UserAlias>, builderOk: bool,
                      reading: Reading, infoOf: string -> TickerAliases.Info): map<string, seq<string>>
  {
    if builderOk then TickerAliases.BuiltAliases(tickers, BuilderExtras(user, reading), infoOf)
    else Filled(tickers, t => PlainAliases(t, user))
  }

  /** The `tmp` loop of the no-builder branch. */
  method BuildPlainAliases(tickers: seq<string>, user: map<string, AliasMerge.UserAlias>)
    returns (tmp: map<string, seq<string>>)
    ensures tmp == Filled(tickers, t => PlainAliases(t, user))
  {
    tmp := map[];
    var i := 0;
    while i < |tickers|
      invariant i <= |tickers|
      invariant tmp == Filled(tickers[..i], t => PlainAliases(t, user))
    {
      var t := tickers[i];
      var al: seq<string> := [];
      if t in user {
        match user[t]
        case Single(a) => al := al + [a];
        case Multiple(xs) => al := al + xs;
        case Other =>
      }
      assert al == AliasMerge.UserPartOf(t, user);
      var v := AliasMerge.DedupeKeepOrder(al + [t]);
      FilledStep(tickers, t => PlainAliases(t, user), i);
      tmp := tmp[t := v];
      i := i + 1;
    }
    assert tickers[..i] == tickers;
  }

  /** The alias maps of the two branches name the same tickers, whichever
      way the user file is read. */
  lemma DynAliasesKeys(tickers: seq<string>, user: map<string, AliasMerge.UserAlias>, builderOk: bool,
                       reading: Reading, infoOf: string -> TickerAliases.Info)
    ensures forall t :: t in DynAliases(tickers, user, builderOk, reading, infoOf) <==> t in tickers
  {
    TickerAliases.BuiltAliasesFacts(tickers, BuilderExtras(user, reading), infoOf);
    FilledFacts(tickers, t => PlainAliases(t, user));
  }

  // ---------------------------------------------------------------------
  // The steps together
  // ---------------------------------------------------------------------

  /** What `main` hands on to the workbook: the holdings, the distinct
      tickers and the final alias map. */
  datatype Prepared = Prepared(holdings: seq<Holding>, tickers: seq<string>, aliases: map<string, seq<string>>)

  /** What the steps after the header check make of the rows: the
      holdings, their distinct tickers and the merged alias map. */
  function PreparedOf(rows: seq<RawRow>, user: map<string, AliasMerge.UserAlias>, builderOk: bool,
                      reading: Reading, infoOf: string -> TickerAliases.Info, priceOf: string -> Option<real>): Prepared
  {
    var hs := Holdings(rows, priceOf);
    var tickers := Unique(TickersOf(hs));
    Prepared(hs, tickers, AliasMerge.Merged(tickers, user, DynAliases(tickers, user, builderOk, reading, infoOf)))
  }

  /** The cleaning and alias steps of `main`, or the message it exits
      with; `main` itself is the `AsWritten` reading. */
  function Prepare(cols: seq<string>, rows: seq<RawRow>, user: map<string, AliasMerge.UserAlias>, builderOk: bool,
                   reading: Reading, infoOf: string -> TickerAliases.Info, priceOf: string -> Option<real>)
    : Result<Prepared, string>
  {
    match MissingColumn(Renamed(cols), Required)
    case Some(h) => Failure(MissingMessage(h))
    case None => Success(PreparedOf(rows, user, builderOk, reading, infoOf, priceOf))
  }

  /** The cleaning and alias steps of `main`. */
  method PreparePortfolio(cols: seq<string>, rows: seq<RawRow>, user: map<string, AliasMerge.UserAlias>,
                          builderOk: bool, reading: Reading, infoOf: string -> TickerAliases.Info,
                          priceOf: string -> Option<real>)
    returns (r: Result<Prepared, string>)
    ensures r == Prepare(cols, rows, user, builderOk, reading, infoOf, priceOf)
  {
    var rename := BuildRename(cols);
    var renamed := seq(|cols|, k requires 0 <= k < |cols| => if cols[k] in rename then rename[cols[k]] else cols[k]);
    assert renamed == Renamed(cols);
    var missing := CheckRequired(renamed);
    if missing.Some? {
      return Failure(MissingMessage(missing.value));
    }
    var hs := Holdings(rows, priceOf);
    var tickers := Unique(TickersOf(hs));
    var dyn: map<string, seq<string>>;
    if builderOk {
      dyn := TickerAliases.BuildAliases(tickers, BuilderExtras(user, reading), infoOf);
    } else {
      dyn := BuildPlainAliases(tickers, user);
    }
    var finalMap := AliasMerge.MergeAliasSources(tickers, user, dyn);
    r := Success(Prepared(hs, tickers, finalMap));
  }

  /** `main` stops exactly when a required header is missing after
      renaming, naming the first one missing in the order Ticker, Buy
      Price, Buy Date, Shares; otherwise it goes on with the holdings,
      tickers and aliases of the rows. */
  lemma PrepareOutcome(cols: seq<string>, rows: seq<RawRow>, user: map<string, AliasMerge.UserAlias>, builderOk: bool,
                       reading: Reading, infoOf: string -> TickerAliases.Info, priceOf: string -> Option<real>)
    ensures var r := Prepare(cols, rows, user, builderOk, reading, infoOf, priceOf);
      && (r.Failure? <==> exists h :: h in Required && h !in Renamed(cols))
      && (r.Failure? ==> exists i :: 0 <= i < |Required| && r.error == MissingMessage(Required[i])
                            && Required[i] !in Renamed(cols)
                            && forall j :: 0 <= j < i ==> Required[j] in Renamed(cols))
      && (r.Success? ==> r.value == PreparedOf(rows, user, builderOk, reading, infoOf, priceOf))
  {
    var rn := Renamed(cols);
    var m := MissingColumn(rn, Required);
    if m.Some? {
      var i :| 0 <= i < |Required| && Required[i] == m.value && m.value !in rn
               && forall j :: 0 <= j < i ==> Required[j] in rn;
      assert Prepare(cols, rows, user, builderOk, reading, infoOf, priceOf) == Failure(MissingMessage(Required[i]));
    }
  }

  /** `ts` lists the tickers of `hs`: a ticker is listed exactly when some
      holding has it, none is listed twice, and each is stripped and not
      blank. */
  ghost predicate ListsTickers(ts: seq<string>, hs: seq<Holding>) {
    && (forall t :: t in ts <==> exists h :: h in hs && h.ticker == t)
    && (forall i, j :: 0 <= i < j < |ts| ==> ts[i] != ts[j])
    && (forall t :: t in ts ==> t != "" && IsTrimmed(t))
  }

  /** The distinct tickers of the cleaned rows are their tickers, each once. */
  lemma TickerListFacts(rows: seq<RawRow>, priceOf: string -> Option<real>)
    ensures ListsTickers(Unique(TickersOf(Holdings(rows, priceOf))), Holdings(rows, priceOf))
  {
    var hs := Holdings(rows, priceOf);
    var ts := TickersOf(hs);
    UniqueFacts(ts);
    HoldingsTickers(rows, priceOf);
    forall t ensures t in Unique(ts) <==> exists h :: h in hs && h.ticker == t {
      if t in ts {
        var k :| 0 <= k < |ts| && ts[k] == t;
        assert hs[k] in hs;
      }
      if exists h :: h in hs && h.ticker == t {
        var h :| h in hs && h.ticker == t;
        var k :| 0 <= k < |hs| && hs[k] == h;
        assert ts[k] == t;
      }
    }
  }

  /** The final alias map has exactly the tickers as keys and lists every
      ticker among its own aliases, up to case and surrounding space. */
  lemma MergedMapFacts(tickers: seq<string>, user: map<string, AliasMerge.UserAlias>, dyn: map<string, seq<string>>)
    requires forall t :: t in tickers ==> Trim(t) != ""
    ensures var m := AliasMerge.Merged(tickers, user, dyn);
      && (forall t :: t in m <==> t in tickers)
      && (forall t :: t in m ==> exists k :: 0 <= k < |m[t]| && Trim(Lower(m[t][k])) == Trim(Lower(t)))
  {
    var m := AliasMerge.Merged(tickers, user, dyn);
    AliasMerge.MergedFacts(tickers, user, dyn);
    forall t | t in m
      ensures exists k :: 0 <= k < |m[t]| && Trim(Lower(m[t][k])) == Trim(Lower(t))
    {
      AliasMerge.MergedHasTicker(t, user, dyn);
    }
  }

  /** The holdings are the cleaned rows and the tickers their tickers,
      each once; the alias map has exactly these keys and lists every
      ticker among its own aliases, up to case and surrounding space,
      whichever way the user file is read. */
  lemma PreparedOfFacts(rows: seq<RawRow>, user: map<string, AliasMerge.UserAlias>, builderOk: bool,
                        reading: Reading, infoOf: string -> TickerAliases.Info, priceOf: string -> Option<real>)
    ensures var p := PreparedOf(rows, user, builderOk, reading, infoOf, priceOf);
      && p.holdings == Holdings(rows, priceOf)
      && ListsTickers(p.tickers, p.holdings)
      && (forall t :: t in p.aliases <==> t in p.tickers)
      && (forall t :: t in p.aliases ==>
            exists k :: 0 <= k < |p.aliases[t]| && Trim(Lower(p.aliases[t][k])) == Trim(Lower(t)))
  {
    var hs := Holdings(rows, priceOf);
    var ts := Unique(TickersOf(hs));
    TickerListFacts(rows, priceOf);
    forall t | t in ts ensures Trim(t) != "" {
      TrimOfTrimmed(t);
    }
    MergedMapFacts(ts, user, DynAliases(ts, user, builderOk, reading, infoOf));
  }

  // ---------------------------------------------------------------------
  // The string-alias finding
  // ---------------------------------------------------------------------

  /** With the alias builder present, `main` hands the user file to
      `build_aliases`, whose `extend` splits a string alias into its
      characters: the first character, alone, becomes an alias of the
      ticker (and so a search term of the Argentine query). */
  lemma StringAliasSplitAsWritten(t: string, a: string, user: map<string, AliasMerge.UserAlias>,
                                  info: TickerAliases.Info)
    requires t in user && user[t] == AliasMerge.Single(a) && a != ""
    ensures var r := TickerAliases.AliasesFor(t, info, ExtrasAsWritten(user));
      exists k :: 0 <= k < |r| && |r[k]| == 1 && Lower(r[k]) == Lower([a[0]])
  {
    var extras := ExtrasAsWritten(user);
    assert TickerAliases.ExtraFor(extras, t) == Chars(a);
    assert [a[0]] in TickerAliases.YfinAliasesOf(t, info) + TickerAliases.ExtraFor(extras, t) by {
      assert Chars(a)[0] == [a[0]];
    }
    TickerAliases.AliasesForCovers(t, info, extras, [a[0]]);
  }

  /** Through `main` as written, with the alias builder present, the
      final alias map of a ticker whose user alias is a string holds that
      string's first character, alone, as an alias (unless it is white
      space, which the merge drops). */
  lemma MainSplitsStringAlias(tickers: seq<string>, user: map<string, AliasMerge.UserAlias>,
                              infoOf: string -> TickerAliases.Info, t: string, a: string)
    requires t in tickers && t in user && user[t] == AliasMerge.Single(a) && a != "" && !IsSpace(a[0])
    ensures var m := AliasMerge.Merged(tickers, user, DynAliases(tickers, user, true, AsWritten, infoOf));
      t in m && exists k :: 0 <= k < |m[t]| && |m[t][k]| == 1 && Lower(m[t][k]) == Lower([a[0]])
  {
    var dyn := DynAliases(tickers, user, true, AsWritten, infoOf);
    var i := AsWrittenDynHasChar(tickers, user, infoOf, t, a);
    AliasMerge.MergedFacts(tickers, user, dyn);
    MergedKeepsOneChar(t, user, dyn, i);
  }

  /** The first step: `build_aliases`, given the user file as `main`
      hands it on, lists the string's first character alone. */
  lemma AsWrittenDynHasChar(tickers: seq<string>, user: map<string, AliasMerge.UserAlias>,
                            infoOf: string -> TickerAliases.Info, t: string, a: string) returns (i: nat)
    requires t in tickers && t in user && user[t] == AliasMerge.Single(a) && a != ""
    ensures var d := AliasMerge.DynPart(t, DynAliases(tickers, user, true, AsWritten, infoOf));
      i < |d| && |d[i]| == 1 && Lower(d[i]) == Lower([a[0]])
  {
    var extras := ExtrasAsWritten(user);
    TickerAliases.BuiltAliasesFacts(tickers, extras, infoOf);
    StringAliasSplitAsWritten(t, a, user, infoOf(t));
    var r := TickerAliases.AliasesFor(t, infoOf(t), extras);
    i :| 0 <= i < |r| && |r[i]| == 1 && Lower(r[i]) == Lower([a[0]]);
  }

  /** A one-character dynamic alias that is not white space survives the
      merge, up to case. */
  lemma MergedKeepsOneChar(t: string, user: map<string, AliasMerge.UserAlias>, dyn: map<string, seq<string>>, i: nat)
    requires var d := AliasMerge.DynPart(t, dyn); i < |d| && |d[i]| == 1 && !IsSpace(d[i][0])
    ensures var v, x := AliasMerge.MergedFor(t, user, dyn), AliasMerge.DynPart(t, dyn)[i];
      exists k :: 0 <= k < |v| && |v[k]| == 1 && Lower(v[k]) == Lower(x)
  {
    var x := AliasMerge.DynPart(t, dyn)[i];
    var v := AliasMerge.MergedFor(t, user, dyn);
    assert Trim(x) == x by {
      TrimOfTrimmed(x);
    }
    assert AliasMerge.Combo(t, user, dyn)[i] == x;
    AliasMerge.MergedCovers(t, user, dyn, i);
    AliasMerge.MergedClean(t, user, dyn);
    var k :| 0 <= k < |v| && Trim(Lower(v[k])) == Trim(Lower(x));
    LowerAt(x);
    TrimOfTrimmed(Lower(x));
    LowerTrim(v[k]);
    TrimOfTrimmed(v[k]);
  }

  /** Read as one alias, as the rest of `main` reads it, a string alias is
      kept whole by `build_aliases`, up to case. */
  lemma StringAliasWhole(t: string, a: string, user: map<string, AliasMerge.UserAlias>, info: TickerAliases.Info)
    requires t in user && user[t] == AliasMerge.Single(a) && a != ""
    ensures var r := TickerAliases.AliasesFor(t, info, ExtrasOf(user));
      exists k :: 0 <= k < |r| && Lower(r[k]) == Lower(a)
  {
    var extras := ExtrasOf(user);
    assert TickerAliases.ExtraFor(extras, t) == [a];
    var items := TickerAliases.YfinAliasesOf(t, info) + [a];
    assert a == items[|items| - 1];
    TickerAliases.AliasesForCovers(t, info, extras, a);
  }

  /** Read as one alias, a string alias of two or more characters, for a
      ticker of two or more characters without metadata, gives no
      one-character alias. */
  lemma StringAliasNoShortAlias(t: string, a: string, user: map<string, AliasMerge.UserAlias>)
    requires t in user && user[t] == AliasMerge.Single(a) && |Trim(t)| >= 2 && |a| >= 2
    ensures var r := TickerAliases.AliasesFor(t, TickerAliases.NoInfo, ExtrasOf(user));
      forall k :: 0 <= k < |r| ==> |r[k]| >= 2
  {
    var extras := ExtrasOf(user);
    assert TickerAliases.ExtraFor(extras, t) == [a];
    TickerAliases.YfinAliasesNoInfo(t);
    var items := [Trim(t), a];
    assert Trim(t) != "";
    assert TickerAliases.YfinAliasesOf(t, TickerAliases.NoInfo) + TickerAliases.ExtraFor(extras, t) == items;
    assert TickerAliases.AliasesFor(t, TickerAliases.NoInfo, extras) == Deduped(LowerOnly(), items);
    TickerAliases.DedupeKeepOrderSubsequence(items);
  }
}
