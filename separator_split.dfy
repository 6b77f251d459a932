/** `_split_on_separators` of ticker_aliases.py: a company name and its
    pieces between separator characters. */
module SeparatorSplit {
  import opened Wrappers
  import opened Text

  /** The character class `[/\-–—:|]`. */
  const Separators: set<char> := {'/', '-', '–', '—', ':', '|'}

  /** `v` followed by the stripped pieces of `parts` that are non-empty and
      not yet listed, each appended when it is reached. */
  function AppendNew(v: seq<string>, parts: seq<string>): (r: seq<string>)
    ensures |v| <= |r| && r[..|v|] == v
  {
    if parts == [] then v
    else
      var n := |parts| - 1;
      var w := AppendNew(v, parts[..n]);
      var p := Trim(parts[n]);
      if p != "" && p !in w then w + [p] else w
  }

  /** What `_split_on_separators` returns: the stripped name (kept even when
      empty), then the stripped, non-empty pieces between separators that
      are not already listed, compared exactly. */
  function SeparatorVariants(name: string): seq<string> {
    AppendNew([Trim(name)], SplitAt(name, Separators))
  }

  /** `_split_on_separators` */
  method SplitOnSeparators(name: string) returns (variants: seq<string>)
    ensures variants == SeparatorVariants(name)
  {
    var parts := SplitAt(name, Separators);
    variants := [Trim(name)];
    var i := 0;
    while i < |parts|
      invariant i <= |parts|
      invariant variants == AppendNew([Trim(name)], parts[..i])
    {
      assert parts[..i + 1][..i] == parts[..i];
      var p := Trim(parts[i]);
      if p != "" && p !in variants {
        variants := variants + [p];
      }
      i := i + 1;
    }
    assert parts[..i] == parts;
  }

  /** `x` is a stripped, non-empty piece of `parts`. */
  predicate IsPiece(x: string, parts: seq<string>) {
    x != "" && IsTrimmed(x) && exists j :: 0 <= j < |parts| && Trim(parts[j]) == x
  }

  /** The appended entries are stripped, non-empty pieces of `parts`. */
  lemma {:induction false} AppendNewFrom(v: seq<string>, parts: seq<string>)
    ensures forall k :: |v| <= k < |AppendNew(v, parts)| ==> IsPiece(AppendNew(v, parts)[k], parts)
  {
    if parts != [] {
      var n := |parts| - 1;
      var w := AppendNew(v, parts[..n]);
      AppendNewFrom(v, parts[..n]);
      var r := AppendNew(v, parts);
      forall k | |v| <= k < |r| ensures IsPiece(r[k], parts) {
        if k < |w| {
          assert r[k] == w[k];
          assert IsPiece(w[k], parts[..n]);
          var j :| 0 <= j < n && Trim(parts[..n][j]) == w[k];
          assert parts[..n][j] == parts[j];
        } else {
          assert Trim(parts[n]) == r[k];
        }
      }
    }
  }

  /** Every stripped, non-empty piece of `parts` is listed. */
  lemma {:induction false} AppendNewCovers(v: seq<string>, parts: seq<string>)
    ensures forall j :: 0 <= j < |parts| && Trim(parts[j]) != "" ==> Trim(parts[j]) in AppendNew(v, parts)
  {
    if parts != [] {
      var n := |parts| - 1;
      var w := AppendNew(v, parts[..n]);
      AppendNewCovers(v, parts[..n]);
      var r := AppendNew(v, parts);
      assert w <= r;
      forall j | 0 <= j < |parts| && Trim(parts[j]) != "" ensures Trim(parts[j]) in r {
        if j < n {
          assert parts[..n][j] == parts[j];
          assert Trim(parts[j]) in w;
        }
      }
    }
  }

  /** No entry of `xs` is listed twice. */
  predicate Distinct(xs: seq<string>) {
    forall k, l :: 0 <= k < l < |xs| ==> xs[k] != xs[l]
  }

  /** Nothing is listed twice when `v` had no repeats. */
  lemma {:induction false} AppendNewDistinct(v: seq<string>, parts: seq<string>)
    requires Distinct(v)
    ensures Distinct(AppendNew(v, parts))
  {
    if parts != [] {
      var n := |parts| - 1;
      var w := AppendNew(v, parts[..n]);
      AppendNewDistinct(v, parts[..n]);
      var p := Trim(parts[n]);
      if p != "" && p !in w {
        var r := w + [p];
        forall k, l | 0 <= k < l < |r| ensures r[k] != r[l] {
          if l == |w| { assert r[k] == w[k]; }
        }
      }
    }
  }

  /** The first variant is the stripped name; the others are distinct,
      stripped, non-empty pieces of the name between separators, none equal
      to the first, and every such piece is listed. */
  lemma SeparatorVariantsFacts(name: string)
    ensures var v := SeparatorVariants(name); |v| > 0 && v[0] == Trim(name)
    ensures var v := SeparatorVariants(name);
      forall k :: 1 <= k < |v| ==> IsPiece(v[k], SplitAt(name, Separators))
    ensures Distinct(SeparatorVariants(name))
    ensures var parts := SplitAt(name, Separators);
      forall j :: 0 <= j < |parts| && Trim(parts[j]) != "" ==> Trim(parts[j]) in SeparatorVariants(name)
  {
    var parts := SplitAt(name, Separators);
    AppendNewFrom([Trim(name)], parts);
    AppendNewCovers([Trim(name)], parts);
    AppendNewDistinct([Trim(name)], parts);
  }
}
