/** Alias generation from security metadata (ticker_aliases.py): the
    metadata's names, the company name with its corporate suffix stripped
    and split into variants, the ticker itself, merged with extra aliases.
    The metadata lookup is an input (`Info`), not a network call. */
module TickerAliases {
  import opened Wrappers
  import opened Text
  import opened Dedupe
  import opened CorpSuffix
  import opened SeparatorSplit

  // ---------------------------------------------------------------------
  // _dedupe_keep_order
  // ---------------------------------------------------------------------

  /** `_dedupe_keep_order`: the de-duplicating loop with `it.lower()` as
      the key and `it` itself as the stored form. Its test that `it` is not
      empty is the test that the key is not empty, as lower-casing keeps
      the length. */
  method DedupeKeepOrder(items: seq<string>) returns (out: seq<string>)
    ensures out == Deduped(LowerOnly(), items)
  {
    out := DedupeWith(LowerOnly(), items);
  }

  /** No entry of the output is empty and no two are equal after
      lower-casing. */
  lemma DedupeKeepOrderDistinct(items: seq<string>)
    ensures var r := Deduped(LowerOnly(), items);
      && (forall k :: 0 <= k < |r| ==> r[k] != "")
      && (forall k, l :: 0 <= k < l < |r| ==> Lower(r[k]) != Lower(r[l]))
  {
    var f := LowerOnly();
    LowerOnlyLawful();
    DedupedDistinct(f, items);
    var r := Deduped(f, items);
    forall k | 0 <= k < |r| ensures r[k] != "" {
      assert Key(f, r[k]) != "";
    }
  }

  /** The output is a sub-sequence of the input: entry `k` is the input
      entry at the `k`-th first position, spelled as it was. */
  lemma DedupeKeepOrderSubsequence(items: seq<string>)
    ensures var r, idx := Deduped(LowerOnly(), items), FirstIndices(LowerOnly(), items);
      && |idx| == |r|
      && (forall k :: 0 <= k < |idx| ==> idx[k] < |items| && r[k] == items[idx[k]])
      && (forall k, l :: 0 <= k < l < |idx| ==> idx[k] < idx[l])
  {
    FirstIndicesSorted(LowerOnly(), items);
    DedupedAtFirst(LowerOnly(), items);
  }

  /** Every non-empty input entry is represented, up to case. */
  lemma DedupeKeepOrderCovers(items: seq<string>, i: nat)
    requires i < |items| && items[i] != ""
    ensures var r := Deduped(LowerOnly(), items);
      exists k :: 0 <= k < |r| && Lower(r[k]) == Lower(items[i])
  {
    var f := LowerOnly();
    LowerOnlyLawful();
    assert |Lower(items[i])| == |items[i]|;
    DedupedCovers(f, items, i);
  }

  // ---------------------------------------------------------------------
  // _safe_add
  // ---------------------------------------------------------------------

  /** What `_safe_add` appends for its candidates: the stripped text of
      each one that is a string (`Some`) and not blank. `None` stands for
      `None` and for any value that is not a `str`. */
  function Kept(cands: seq<Option<string>>): (r: seq<string>)
    ensures |r| <= |cands|
    ensures forall k :: 0 <= k < |r| ==> r[k] != "" && IsTrimmed(r[k])
  {
    if cands == [] then []
    else
      var n := |cands| - 1;
      Kept(cands[..n]) + KeptOne(cands[n])
  }

  /** What `_safe_add` appends for one candidate. */
  function KeptOne(c: Option<string>): seq<string> {
    if c.Some? && Trim(c.value) != "" then [Trim(c.value)] else []
  }

  lemma KeptSingle(c: Option<string>)
    ensures Kept([c]) == KeptOne(c)
  {
    assert [c][..0] == [];
  }

  /** `_safe_add`: the list the caller passed, with the kept candidates
      appended in argument order. */
  method SafeAdd(aliases: seq<string>, cands: seq<Option<string>>) returns (r: seq<string>)
    ensures r == aliases + Kept(cands)
  {
    r := aliases;
    var i := 0;
    while i < |cands|
      invariant i <= |cands|
      invariant r == aliases + Kept(cands[..i])
    {
      KeptStep(cands, i);
      ConcatAssoc(aliases, Kept(cands[..i]), KeptOne(cands[i]));
      if cands[i].Some? && cands[i].value != "" {
        var t := Trim(cands[i].value);
        if t != "" {
          r := r + [t];
        }
      }
      i := i + 1;
    }
    assert cands[..i] == cands;
  }

  lemma KeptStep(cands: seq<Option<string>>, i: nat)
    requires i < |cands|
    ensures Kept(cands[..i + 1]) == Kept(cands[..i]) + KeptOne(cands[i])
  {
    assert cands[..i + 1][..i] == cands[..i];
  }

  /** Appending never changes what was there, every appended entry is a
      stripped, non-empty candidate, and blank or non-string candidates
      add nothing. */
  lemma {:induction false} SafeAddFacts(aliases: seq<string>, cands: seq<Option<string>>)
    ensures var r := aliases + Kept(cands); r[..|aliases|] == aliases
    ensures forall s :: s in Kept(cands) ==> exists c :: Some(c) in cands && Trim(c) == s
    ensures (forall k :: 0 <= k < |cands| ==> cands[k].None? || Trim(cands[k].value) == "") ==> Kept(cands) == []
  {
    if cands != [] {
      var n := |cands| - 1;
      SafeAddFacts(aliases, cands[..n]);
      forall s | s in Kept(cands) ensures exists c :: Some(c) in cands && Trim(c) == s {
        if s in Kept(cands[..n]) {
          var c :| Some(c) in cands[..n] && Trim(c) == s;
          assert Some(c) in cands;
        } else {
          assert Some(cands[n].value) in cands;
        }
      }
    }
  }

  /** The same, one string candidate at a time: the stripped text of each
      non-blank string of `xs`, in order. */
  function KeptStrings(xs: seq<string>): seq<string> {
    if xs == [] then []
    else
      var n := |xs| - 1;
      KeptStrings(xs[..n]) + KeptOne(Some(xs[n]))
  }

  // ---------------------------------------------------------------------
  // _yfin_aliases
  // ---------------------------------------------------------------------

  /** The three name fields of the metadata record the source reads; `None`
      stands for a missing key or a `None` value. An unreachable service
      gives `NoInfo`. */
  datatype Info = Info(longName: Option<string>, shortName: Option<string>, displayName: Option<string>)

  const NoInfo := Info(None, None, None)

  /** A value Python treats as true in `a or b`: present and non-empty. */
  predicate Truthy(x: Option<string>) {
    x.Some? && x.value != ""
  }

  /** `info.get("longName") or info.get("shortName") or info.get("displayName")`,
      with `None` for a false result. */
  function LongName(info: Info): (r: Option<string>)
    ensures r.Some? ==> r.value != ""
    ensures r.None? <==> !Truthy(info.longName) && !Truthy(info.shortName) && !Truthy(info.displayName)
  {
    if Truthy(info.longName) then info.longName
    else if Truthy(info.shortName) then info.shortName
    else if Truthy(info.displayName) then info.displayName
    else None
  }

  /** The metadata names `_yfin_aliases` adds first. */
  function NameFields(info: Info): seq<string> {
    Kept([LongName(info), info.shortName, info.displayName])
  }

  /** The variants derived from a company name: the name without its
      corporate suffix, then its separator variants. */
  function DerivedFrom(long: string): seq<string> {
    var base := StrippedName(long);
    KeptOne(Some(base)) + KeptStrings(SeparatorVariants(base))
  }

  /** The derived variants, when the metadata has a name. */
  function Derived(info: Info): seq<string> {
    if LongName(info).Some? then DerivedFrom(LongName(info).value) else []
  }

  /** Everything `_yfin_aliases` collects before de-duplicating. */
  function Collected(ticker: string, info: Info): seq<string> {
    NameFields(info) + Derived(info) + KeptOne(Some(ticker))
  }

  /** What `_yfin_aliases` returns for a ticker with metadata `info`. */
  function YfinAliasesOf(ticker: string, info: Info): seq<string> {
    Deduped(LowerOnly(), Collected(ticker, info))
  }

  /** The `if long_name:` branch of `_yfin_aliases`: adds the name without
      its corporate suffix, then each separator variant. */
  method AddDerived(aliases: seq<string>, long: string) returns (r: seq<string>)
    ensures r == aliases + DerivedFrom(long)
  {
    var base := StripCorpSuffix(long);
    r := SafeAdd(aliases, [Some(base)]);
    KeptSingle(Some(base));
    ghost var withBase := r;
    var variants := SplitOnSeparators(base);
    var i := 0;
    while i < |variants|
      invariant i <= |variants|
      invariant r == withBase + KeptStrings(variants[..i])
    {
      ghost var before := r;
      r := SafeAdd(r, [Some(variants[i])]);
      KeptSingle(Some(variants[i]));
      KeptStringsStep(variants, i);
      ConcatAssoc(withBase, KeptStrings(variants[..i]), KeptOne(Some(variants[i])));
      i := i + 1;
    }
    assert variants[..i] == variants;
    DerivedFromParts(long, base, variants);
    ConcatAssoc(aliases, KeptOne(Some(base)), KeptStrings(variants));
  }

  lemma DerivedFromParts(long: string, base: string, variants: seq<string>)
    requires base == StrippedName(long) && variants == SeparatorVariants(base)
    ensures DerivedFrom(long) == KeptOne(Some(base)) + KeptStrings(variants)
  {
  }

  lemma KeptStringsStep(xs: seq<string>, i: nat)
    requires i < |xs|
    ensures KeptStrings(xs[..i + 1]) == KeptStrings(xs[..i]) + KeptOne(Some(xs[i]))
  {
    assert xs[..i + 1][..i] == xs[..i];
  }

  /** `_yfin_aliases`, given the metadata record instead of fetching it. */
  method YfinAliases(ticker: string, info: Info) returns (r: seq<string>)
    ensures r == YfinAliasesOf(ticker, info)
  {
    var aliases: seq<string> := [];
    var longName := LongName(info);
    aliases := SafeAdd(aliases, [longName, info.shortName, info.displayName]);
    assert aliases == NameFields(info);
    if longName.Some? {
      aliases := AddDerived(aliases, longName.value);
    }
    assert aliases == NameFields(info) + Derived(info);
    aliases := SafeAdd(aliases, [Some(ticker)]);
    KeptSingle(Some(ticker));
    assert aliases == Collected(ticker, info);
    assert YfinAliasesOf(ticker, info) == Deduped(LowerOnly(), aliases);
    r := DedupeKeepOrder(aliases);
  }

  /** The stripped ticker is always among the aliases, up to case. */
  lemma YfinAliasesHasTicker(ticker: string, info: Info)
    requires Trim(ticker) != ""
    ensures var r := YfinAliasesOf(ticker, info);
      exists k :: 0 <= k < |r| && Lower(r[k]) == Lower(Trim(ticker))
  {
    var c := Collected(ticker, info);
    assert YfinAliasesOf(ticker, info) == Deduped(LowerOnly(), c);
    assert c[|c| - 1] == Trim(ticker);
    DedupeKeepOrderCovers(c, |c| - 1);
  }

  /** No two aliases are equal after lower-casing, and none is empty. */
  lemma YfinAliasesDistinct(ticker: string, info: Info)
    ensures var r := YfinAliasesOf(ticker, info);
      && (forall k :: 0 <= k < |r| ==> r[k] != "")
      && (forall k, l :: 0 <= k < l < |r| ==> Lower(r[k]) != Lower(r[l]))
  {
    var c := Collected(ticker, info);
    assert YfinAliasesOf(ticker, info) == Deduped(LowerOnly(), c);
    DedupeKeepOrderDistinct(c);
  }

  /** Without metadata (the lookup failed), the stripped ticker is the only
      alias. */
  lemma YfinAliasesNoInfo(ticker: string)
    ensures YfinAliasesOf(ticker, NoInfo) == (if Trim(ticker) != "" then [Trim(ticker)] else [])
  {
    NoInfoCollected(ticker);
    var c0 := KeptOne(Some(ticker));
    assert YfinAliasesOf(ticker, NoInfo) == Deduped(LowerOnly(), c0);
    if Trim(ticker) != "" {
      assert c0 == [Trim(ticker)];
      assert c0[..0] == [];
      assert IsFirst(LowerOnly(), c0, 0);
    } else {
      assert c0 == [];
    }
  }

  lemma NoInfoCollected(ticker: string)
    ensures Collected(ticker, NoInfo) == KeptOne(Some(ticker))
  {
    var nothing: seq<Option<string>> := [None, None, None];
    assert Kept(nothing) == [] by {
      assert nothing[..2][..1] == nothing[..1] && nothing[..1][..0] == [];
    }
    assert NameFields(NoInfo) == [];
    assert Derived(NoInfo) == [];
  }

  /** When the metadata has a name, the first alias is that name, stripped. */
  lemma YfinAliasesLongNameFirst(ticker: string, info: Info)
    requires LongName(info).Some? && Trim(LongName(info).value) != ""
    ensures var r := YfinAliasesOf(ticker, info); |r| > 0 && r[0] == Trim(LongName(info).value)
  {
    var long := LongName(info);
    var cands := [long, info.shortName, info.displayName];
    assert cands[..1] == [long];
    assert [long][..0] == [];
    KeptSingle(long);
    KeptPrefix(cands, 1);
    var c := Collected(ticker, info);
    assert c[0] == Trim(long.value);
    DedupedHead(LowerOnly(), c);
  }

  lemma {:induction false} KeptPrefix(cands: seq<Option<string>>, m: nat)
    requires m <= |cands|
    ensures Kept(cands[..m]) <= Kept(cands)
    decreases |cands| - m
  {
    if m < |cands| {
      var n := |cands| - 1;
      KeptPrefix(cands[..n], m);
      assert cands[..n][..m] == cands[..m];
    } else {
      assert cands[..m] == cands;
    }
  }

  // ---------------------------------------------------------------------
  // build_aliases
  // ---------------------------------------------------------------------

  /** The extra aliases listed for `t`, appended element by element. */
  function ExtraFor(extras: map<string, seq<string>>, t: string): seq<string> {
    if t in extras then extras[t] else []
  }

  /** What `build_aliases` maps `t` to. */
  function AliasesFor(t: string, info: Info, extras: map<string, seq<string>>): seq<string> {
    Deduped(LowerOnly(), YfinAliasesOf(t, info) + ExtraFor(extras, t))
  }

  /** One pass of the `build_aliases` loop: the generated aliases of `t`,
      extended with its extra aliases, de-duplicated. */
  method AliasesOfTicker(t: string, info: Info, extras: map<string, seq<string>>) returns (v: seq<string>)
    ensures v == AliasesFor(t, info, extras)
  {
    var base := YfinAliases(t, info);
    if |extras| > 0 && t in extras {
      base := base + extras[t];
    }
    assert base == YfinAliasesOf(t, info) + ExtraFor(extras, t);
    assert AliasesFor(t, info, extras) == Deduped(LowerOnly(), base);
    v := DedupeKeepOrder(base);
  }

  /** What `build_aliases` returns: the tickers entered one after the other
      into a dictionary, each mapped to its aliases. */
  function BuiltAliases(tickers: seq<string>, extras: map<string, seq<string>>, infoOf: string -> Info)
    : map<string, seq<string>>
  {
    if tickers == [] then map[]
    else
      var n := |tickers| - 1;
      var t := tickers[n];
      BuiltAliases(tickers[..n], extras, infoOf)[t := AliasesFor(t, infoOf(t), extras)]
  }

  /** `build_aliases`: one entry per ticker, the generated aliases followed
      by that ticker's extra aliases, de-duplicated. `infoOf` is the
      metadata service; `None` extras and `{}` behave alike. */
  method BuildAliases(tickers: seq<string>, extras: map<string, seq<string>>, infoOf: string -> Info)
    returns (mapping: map<string, seq<string>>)
    ensures mapping == BuiltAliases(tickers, extras, infoOf)
  {
    mapping := map[];
    var i := 0;
    while i < |tickers|
      invariant i <= |tickers|
      invariant mapping == BuiltAliases(tickers[..i], extras, infoOf)
    {
      var t := tickers[i];
      var v := AliasesOfTicker(t, infoOf(t), extras);
      BuiltAliasesStep(tickers, extras, infoOf, i);
      mapping := mapping[t := v];
      i := i + 1;
    }
    assert tickers[..i] == tickers;
  }

  lemma BuiltAliasesStep(tickers: seq<string>, extras: map<string, seq<string>>, infoOf: string -> Info, i: nat)
    requires i < |tickers|
    ensures BuiltAliases(tickers[..i + 1], extras, infoOf)
         == BuiltAliases(tickers[..i], extras, infoOf)[tickers[i] := AliasesFor(tickers[i], infoOf(tickers[i]), extras)]
  {
    assert tickers[..i + 1][..i] == tickers[..i];
  }

  /** The keys are exactly the tickers, and each ticker maps to its own
      aliases whatever the order or repetition of the tickers. */
  lemma {:induction false} BuiltAliasesFacts(tickers: seq<string>, extras: map<string, seq<string>>, infoOf: string -> Info)
    ensures forall t :: t in BuiltAliases(tickers, extras, infoOf) <==> t in tickers
    ensures forall t :: t in BuiltAliases(tickers, extras, infoOf) ==>
      BuiltAliases(tickers, extras, infoOf)[t] == AliasesFor(t, infoOf(t), extras)
  {
    if tickers != [] {
      var n := |tickers| - 1;
      BuiltAliasesFacts(tickers[..n], extras, infoOf);
      assert tickers == tickers[..n] + [tickers[n]];
    }
  }

  /** No two aliases of a ticker are equal after lower-casing. */
  lemma AliasesForDistinct(t: string, info: Info, extras: map<string, seq<string>>)
    ensures var r := AliasesFor(t, info, extras);
      forall k, l :: 0 <= k < l < |r| ==> Lower(r[k]) != Lower(r[l])
  {
    var items := YfinAliasesOf(t, info) + ExtraFor(extras, t);
    assert AliasesFor(t, info, extras) == Deduped(LowerOnly(), items);
    DedupeKeepOrderDistinct(items);
  }

  /** Every generated alias and every extra alias of a ticker is kept, up
      to case, the empty string aside. */
  lemma AliasesForCovers(t: string, info: Info, extras: map<string, seq<string>>, a: string)
    requires a in YfinAliasesOf(t, info) + ExtraFor(extras, t) && a != ""
    ensures var r := AliasesFor(t, info, extras);
      exists k :: 0 <= k < |r| && Lower(r[k]) == Lower(a)
  {
    var items := YfinAliasesOf(t, info) + ExtraFor(extras, t);
    assert AliasesFor(t, info, extras) == Deduped(LowerOnly(), items);
    var i :| 0 <= i < |items| && items[i] == a;
    DedupeKeepOrderCovers(items, i);
  }

  /** The stripped ticker is always among a ticker's aliases, up to case. */
  lemma AliasesForHasTicker(t: string, info: Info, extras: map<string, seq<string>>)
    requires Trim(t) != ""
    ensures var r := AliasesFor(t, info, extras);
      exists k :: 0 <= k < |r| && Lower(r[k]) == Lower(Trim(t))
  {
    var y := YfinAliasesOf(t, info);
    YfinAliasesHasTicker(t, info);
    YfinAliasesDistinct(t, info);
    var k :| 0 <= k < |y| && Lower(y[k]) == Lower(Trim(t));
    assert y[k] in y + ExtraFor(extras, t);
    AliasesForCovers(t, info, extras, y[k]);
  }

  /** A ticker without extra aliases keeps exactly its generated aliases:
      de-duplicating them a second time changes nothing. */
  lemma AliasesForNoExtras(t: string, info: Info, extras: map<string, seq<string>>)
    requires t !in extras
    ensures AliasesFor(t, info, extras) == YfinAliasesOf(t, info)
  {
    assert YfinAliasesOf(t, info) + ExtraFor(extras, t) == YfinAliasesOf(t, info);
    LowerOnlyLawful();
    DedupedIdempotent(LowerOnly(), Collected(t, info));
  }
}
