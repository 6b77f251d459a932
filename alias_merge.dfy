/** Alias merging in portfolio_news_profit.py: the stripping, case-blind
    `dedupe_keep_order` and `merge_alias_sources`, which joins the dynamic
    aliases, the user's aliases, the built-in Argentine table and the
    ticker itself. */
module AliasMerge {
  import opened Text
  import opened Dedupe
  import opened Dicts

  // ---------------------------------------------------------------------
  // dedupe_keep_order
  // ---------------------------------------------------------------------

  /** `dedupe_keep_order`: the de-duplicating loop with `str(it).lower().strip()`
      as the key and `str(it).strip()` as the stored form. Its separate
      skip of empty entries is the skip of empty keys, as the key of the
      empty string is empty. */
  method DedupeKeepOrder(items: seq<string>) returns (out: seq<string>)
    ensures out == Deduped(StripAndLower(), items)
  {
    out := DedupeWith(StripAndLower(), items);
  }

  /** Every output entry is stripped and non-empty, and no two are equal
      once lower-cased and stripped. */
  lemma DedupeKeepOrderClean(items: seq<string>)
    ensures var r := Deduped(StripAndLower(), items);
      && (forall k :: 0 <= k < |r| ==> r[k] != "" && IsTrimmed(r[k]))
      && (forall k, l :: 0 <= k < l < |r| ==> Trim(Lower(r[k])) != Trim(Lower(r[l])))
  {
    var f := StripAndLower();
    StripAndLowerLawful();
    DedupedDistinct(f, items);
    var r := Deduped(f, items);
    forall k | 0 <= k < |r| ensures r[k] != "" && IsTrimmed(r[k]) {
      assert Key(f, r[k]) != "" && Norm(f, r[k]) == r[k];
      StripAndLowerLaws(r[k]);
    }
  }

  /** The output follows the first occurrences in input order: entry `k`
      is the stripped text of the input entry at the `k`-th position whose
      key has not been seen before, and every such position is used. */
  lemma DedupeKeepOrderFirsts(items: seq<string>)
    ensures var r, idx := Deduped(StripAndLower(), items), FirstIndices(StripAndLower(), items);
      && |idx| == |r|
      && (forall k :: 0 <= k < |idx| ==>
            idx[k] < |items| && IsFirst(StripAndLower(), items, idx[k]) && r[k] == Trim(items[idx[k]]))
      && (forall k, l :: 0 <= k < l < |idx| ==> idx[k] < idx[l])
      && (forall i :: 0 <= i < |items| && IsFirst(StripAndLower(), items, i) ==> i in idx)
  {
    var f := StripAndLower();
    FirstIndicesSorted(f, items);
    DedupedAtFirst(f, items);
    FirstIndicesComplete(f, items);
  }

  /** Running `dedupe_keep_order` on its own output changes nothing. */
  lemma DedupeKeepOrderIdempotent(items: seq<string>)
    ensures Deduped(StripAndLower(), Deduped(StripAndLower(), items)) == Deduped(StripAndLower(), items)
  {
    StripAndLowerLawful();
    DedupedIdempotent(StripAndLower(), items);
  }

  /** Every entry that is not blank is represented, up to case and
      surrounding white space. */
  lemma DedupeKeepOrderCovers(items: seq<string>, i: nat)
    requires i < |items| && Trim(items[i]) != ""
    ensures var r := Deduped(StripAndLower(), items);
      exists k :: 0 <= k < |r| && Trim(Lower(r[k])) == Trim(Lower(items[i]))
  {
    var f := StripAndLower();
    StripAndLowerLawful();
    StripAndLowerLaws(items[i]);
    DedupedCovers(f, items, i);
  }

  // ---------------------------------------------------------------------
  // merge_alias_sources
  // ---------------------------------------------------------------------

  /** A value of the user's alias file for one ticker: a string, a list
      (or tuple) of strings, or anything else. */
  datatype UserAlias = Single(alias: string) | Multiple(aliases: seq<string>) | Other

  /** `DEFAULT_AR_ALIASES`: the built-in names of two Argentine issuers. */
  const DefaultArAliases: map<string, seq<string>> :=
    map["YPF" := ["YPF", "Yacimientos Petrolíferos Fiscales"],
        "PAM" := ["Pampa Energía", "Pampa Energia", "Pampa Holding"]]

  /** What a user alias adds: a string is one entry, a list its entries in
      order, any other value nothing. */
  function UserPart(ua: UserAlias): (r: seq<string>)
    ensures ua.Single? ==> r == [ua.alias]
    ensures ua.Multiple? ==> r == ua.aliases
    ensures ua.Other? ==> r == []
  {
    match ua
    case Single(a) => [a]
    case Multiple(xs) => xs
    case Other => []
  }

  /** The dynamic aliases of a ticker, if any. */
  function DynPart(t: string, dyn: map<string, seq<string>>): seq<string> {
    if t in dyn then dyn[t] else []
  }

  /** What the user's alias file adds for a ticker, if anything. */
  function UserPartOf(t: string, user: map<string, UserAlias>): seq<string> {
    if t in user then UserPart(user[t]) else []
  }

  /** The built-in Argentine names of a ticker, if any. */
  function ArPart(t: string): seq<string> {
    if t in DefaultArAliases then DefaultArAliases[t] else []
  }

  /** The four sources of one ticker in the order they are joined. */
  function Combo(t: string, user: map<string, UserAlias>, dyn: map<string, seq<string>>): seq<string> {
    DynPart(t, dyn) + UserPartOf(t, user) + ArPart(t) + [t]
  }

  /** The merged aliases of one ticker. */
  function MergedFor(t: string, user: map<string, UserAlias>, dyn: map<string, seq<string>>): seq<string> {
    Deduped(StripAndLower(), Combo(t, user, dyn))
  }

  /** The dictionary `merge_alias_sources` returns. */
  function Merged(tickers: seq<string>, user: map<string, UserAlias>, dyn: map<string, seq<string>>)
    : map<string, seq<string>>
  {
    Filled(tickers, t => MergedFor(t, user, dyn))
  }

  /** The `combo` list of the `merge_alias_sources` loop for one ticker. */
  method CollectCombo(t: string, user: map<string, UserAlias>, dyn: map<string, seq<string>>)
    returns (combo: seq<string>)
    ensures combo == Combo(t, user, dyn)
  {
    combo := [];
    if t in dyn {
      combo := combo + dyn[t];
    }
    assert combo == DynPart(t, dyn);
    if t in user {
      match user[t]
      case Single(a) => combo := combo + [a];
      case Multiple(xs) => combo := combo + xs;
      case Other =>
    }
    assert combo == DynPart(t, dyn) + UserPartOf(t, user);
    if t in DefaultArAliases {
      combo := combo + DefaultArAliases[t];
    }
    assert combo == DynPart(t, dyn) + UserPartOf(t, user) + ArPart(t);
    combo := combo + [t];
  }

  /** The body of the `merge_alias_sources` loop for one ticker. */
  method MergeOne(t: string, user: map<string, UserAlias>, dyn: map<string, seq<string>>)
    returns (v: seq<string>)
    ensures v == MergedFor(t, user, dyn)
  {
    var combo := CollectCombo(t, user, dyn);
    v := DedupeKeepOrder(combo);
  }

  /** `merge_alias_sources` */
  method MergeAliasSources(tickers: seq<string>, user: map<string, UserAlias>, dyn: map<string, seq<string>>)
    returns (finalMap: map<string, seq<string>>)
    ensures finalMap == Merged(tickers, user, dyn)
  {
    finalMap := map[];
    var i := 0;
    while i < |tickers|
      invariant i <= |tickers|
      invariant finalMap == Merged(tickers[..i], user, dyn)
    {
      var t := tickers[i];
      var v := MergeOne(t, user, dyn);
      MergedStep(tickers, user, dyn, i);
      finalMap := finalMap[t := v];
      i := i + 1;
    }
    assert tickers[..i] == tickers;
  }

  lemma MergedStep(tickers: seq<string>, user: map<string, UserAlias>, dyn: map<string, seq<string>>, i: nat)
    requires i < |tickers|
    ensures Merged(tickers[..i + 1], user, dyn)
         == Merged(tickers[..i], user, dyn)[tickers[i] := MergedFor(tickers[i], user, dyn)]
  {
    FilledStep(tickers, t => MergedFor(t, user, dyn), i);
  }

  /** The keys are exactly the tickers, and each maps to its own merged
      aliases. */
  lemma MergedFacts(tickers: seq<string>, user: map<string, UserAlias>, dyn: map<string, seq<string>>)
    ensures forall t :: t in Merged(tickers, user, dyn) <==> t in tickers
    ensures forall t :: t in Merged(tickers, user, dyn) ==> Merged(tickers, user, dyn)[t] == MergedFor(t, user, dyn)
  {
    FilledFacts(tickers, t => MergedFor(t, user, dyn));
  }

  /** The ticker itself is always among its aliases, up to case and
      surrounding space, unless it is blank. */
  lemma MergedHasTicker(t: string, user: map<string, UserAlias>, dyn: map<string, seq<string>>)
    requires Trim(t) != ""
    ensures var r := MergedFor(t, user, dyn);
      exists k :: 0 <= k < |r| && Trim(Lower(r[k])) == Trim(Lower(t))
  {
    var c := Combo(t, user, dyn);
    assert MergedFor(t, user, dyn) == Deduped(StripAndLower(), c);
    assert c[|c| - 1] == t;
    DedupeKeepOrderCovers(c, |c| - 1);
  }

  /** Every non-blank alias from any of the four sources is represented. */
  lemma MergedCovers(t: string, user: map<string, UserAlias>, dyn: map<string, seq<string>>, i: nat)
    requires i < |Combo(t, user, dyn)| && Trim(Combo(t, user, dyn)[i]) != ""
    ensures var r, a := MergedFor(t, user, dyn), Combo(t, user, dyn)[i];
      exists k :: 0 <= k < |r| && Trim(Lower(r[k])) == Trim(Lower(a))
  {
    var c := Combo(t, user, dyn);
    assert MergedFor(t, user, dyn) == Deduped(StripAndLower(), c);
    DedupeKeepOrderCovers(c, i);
  }

  /** The merged aliases are stripped, non-empty and distinct up to case. */
  lemma MergedClean(t: string, user: map<string, UserAlias>, dyn: map<string, seq<string>>)
    ensures var r := MergedFor(t, user, dyn);
      && (forall k :: 0 <= k < |r| ==> r[k] != "" && IsTrimmed(r[k]))
      && (forall k, l :: 0 <= k < l < |r| ==> Trim(Lower(r[k])) != Trim(Lower(r[l])))
  {
    var c := Combo(t, user, dyn);
    assert MergedFor(t, user, dyn) == Deduped(StripAndLower(), c);
    DedupeKeepOrderClean(c);
  }

  /** A non-blank first entry comes out first, stripped. */
  lemma DedupeKeepOrderHead(items: seq<string>)
    requires |items| > 0 && Trim(items[0]) != ""
    ensures var r := Deduped(StripAndLower(), items); |r| > 0 && r[0] == Trim(items[0])
  {
    StripAndLowerLaws(items[0]);
    DedupedHead(StripAndLower(), items);
  }

  /** The dynamic aliases come first: a non-blank first dynamic alias is
      the first merged alias, stripped. */
  lemma MergedDynFirst(t: string, user: map<string, UserAlias>, dyn: map<string, seq<string>>)
    requires t in dyn && |dyn[t]| > 0 && Trim(dyn[t][0]) != ""
    ensures var r := MergedFor(t, user, dyn); |r| > 0 && r[0] == Trim(dyn[t][0])
  {
    var c := Combo(t, user, dyn);
    var a, b, d := DynPart(t, dyn), UserPartOf(t, user), ArPart(t);
    ConcatAssoc(a, b, d);
    ConcatAssoc(a, b + d, [t]);
    assert c == a + (b + d + [t]);
    assert c[0] == dyn[t][0];
    assert MergedFor(t, user, dyn) == Deduped(StripAndLower(), c);
    DedupeKeepOrderHead(c);
  }

  /** A user alias that is neither a string nor a list counts as no
      user alias at all. */
  lemma MergedIgnoresOther(t: string, user: map<string, UserAlias>, dyn: map<string, seq<string>>)
    requires t in user && user[t].Other?
    ensures MergedFor(t, user, dyn) == MergedFor(t, user - {t}, dyn)
  {
    assert Combo(t, user, dyn) == Combo(t, user - {t}, dyn);
  }

  /** A user alias given as a string counts as a one-entry list. */
  lemma MergedSingleIsList(t: string, a: string, user: map<string, UserAlias>, dyn: map<string, seq<string>>)
    ensures MergedFor(t, user[t := Single(a)], dyn) == MergedFor(t, user[t := Multiple([a])], dyn)
  {
    assert Combo(t, user[t := Single(a)], dyn) == Combo(t, user[t := Multiple([a])], dyn);
  }
}
