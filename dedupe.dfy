/** Order-preserving, case-insensitive de-duplication: the one concept
    behind both `dedupe_keep_order` (portfolio_news_profit.py) and
    `_dedupe_keep_order` (ticker_aliases.py). The two differ only in how
    an entry is compared and what is stored, which `Fold` names. */
module Dedupe {
  import opened Text

  /** How a de-duplicator treats an entry: `key` is what its `seen` set
      holds for the entry, `store` what it appends to its output. */
  datatype Fold = Fold(key: string -> string, store: string -> string)

  /** `dedupe_keep_order` (portfolio_news_profit.py): compares
      `str(it).lower().strip()` and keeps `str(it).strip()`. */
  function StripAndLower(): Fold {
    Fold(s => Trim(Lower(s)), s => Trim(s))
  }

  /** `_dedupe_keep_order` (ticker_aliases.py): compares `it.lower()` and
      keeps `it` as it is. */
  function LowerOnly(): Fold {
    Fold(s => Lower(s), s => s)
  }

  function Key(f: Fold, s: string): string { f.key(s) }

  function Norm(f: Fold, s: string): string { f.store(s) }

  /** A stored entry compares like the entry it came from, storing is
      idempotent, and an entry is skipped exactly when its stored form is
      empty. */
  ghost predicate Lawful(f: Fold) {
    forall s :: Key(f, Norm(f, s)) == Key(f, s) && Norm(f, Norm(f, s)) == Norm(f, s)
           && (Key(f, s) == "" <==> Norm(f, s) == "")
  }

  lemma StripAndLowerLaws(s: string)
    ensures Trim(Lower(Trim(s))) == Trim(Lower(s)) && Trim(Trim(s)) == Trim(s)
    ensures Trim(Lower(s)) == "" <==> Trim(s) == ""
  {
    LowerTrim(s);
    LowerTrim(Trim(s));
    TrimIdempotent(s);
  }

  /** Both de-duplicators of the source obey the laws. */
  lemma FoldsLawful()
    ensures Lawful(StripAndLower()) && Lawful(LowerOnly())
  {
    StripAndLowerLawful();
    LowerOnlyLawful();
  }

  lemma LowerOnlyLawful()
    ensures Lawful(LowerOnly())
  {
    var g := LowerOnly();
    forall s: string ensures Key(g, s) == "" <==> Norm(g, s) == "" {
      assert |Lower(s)| == |s|;
    }
  }

  lemma StripAndLowerLawful()
    ensures Lawful(StripAndLower())
  {
    var f := StripAndLower();
    forall s: string
      ensures Key(f, Norm(f, s)) == Key(f, s) && Norm(f, Norm(f, s)) == Norm(f, s)
      ensures Key(f, s) == "" <==> Norm(f, s) == ""
    {
      StripAndLowerLaws(s);
    }
  }

  /** Every entry is in stored form with a non-empty key, and no two
      entries compare equal: what a de-duplicator's output looks like. */
  ghost predicate Clean(f: Fold, xs: seq<string>) {
    && (forall k :: 0 <= k < |xs| ==> Key(f, xs[k]) != "" && Norm(f, xs[k]) == xs[k])
    && (forall k, l :: 0 <= k < l < |xs| ==> Key(f, xs[k]) != Key(f, xs[l]))
  }

  /** Entry `i` is the first one with its key, and that key is not empty. */
  predicate IsFirst(f: Fold, items: seq<string>, i: nat)
    requires i < |items|
  {
    Key(f, items[i]) != "" && forall j :: 0 <= j < i ==> Key(f, items[j]) != Key(f, items[i])
  }

  /** The stored form of every first occurrence, in input order. */
  function Deduped(f: Fold, items: seq<string>): (r: seq<string>)
    ensures |r| <= |items|
  {
    if items == [] then []
    else
      var n := |items| - 1;
      Deduped(f, items[..n]) + (if IsFirst(f, items, n) then [Norm(f, items[n])] else [])
  }

  /** The positions of the first occurrences, in increasing order. */
  function FirstIndices(f: Fold, items: seq<string>): seq<nat>
  {
    if items == [] then []
    else
      var n := |items| - 1;
      FirstIndices(f, items[..n]) + (if IsFirst(f, items, n) then [n] else [])
  }

  /** The non-empty keys of the entries: what `seen` holds after them. */
  function SeenKeys(f: Fold, items: seq<string>): set<string>
  {
    if items == [] then {}
    else
      var n := |items| - 1;
      var k := Key(f, items[n]);
      SeenKeys(f, items[..n]) + (if k != "" then {k} else {})
  }

  lemma {:induction false} SeenKeysIff(f: Fold, items: seq<string>, k: string)
    ensures k in SeenKeys(f, items) <==> k != "" && exists j :: 0 <= j < |items| && Key(f, items[j]) == k
  {
    if items != [] {
      var n := |items| - 1;
      SeenKeysIff(f, items[..n], k);
      if k in SeenKeys(f, items[..n]) {
        var j :| 0 <= j < n && Key(f, items[..n][j]) == k;
        assert Key(f, items[j]) == k;
      }
      if k != "" && (exists j :: 0 <= j < |items| && Key(f, items[j]) == k) {
        var j :| 0 <= j < |items| && Key(f, items[j]) == k;
        if j < n {
          assert Key(f, items[..n][j]) == k;
        }
      }
    }
  }

  /** The test the loop makes against `seen` is the first-occurrence test. */
  lemma FirstIffUnseen(f: Fold, items: seq<string>, i: nat)
    requires i < |items|
    ensures IsFirst(f, items, i) <==> Key(f, items[i]) != "" && Key(f, items[i]) !in SeenKeys(f, items[..i])
  {
    SeenKeysIff(f, items[..i], Key(f, items[i]));
    if Key(f, items[i]) in SeenKeys(f, items[..i]) {
      var j :| 0 <= j < i && Key(f, items[..i][j]) == Key(f, items[i]);
      assert Key(f, items[j]) == Key(f, items[i]);
    }
  }

  /** Adding one more entry extends the spec by at most that entry. */
  lemma DedupedStep(f: Fold, items: seq<string>, i: nat)
    requires i < |items|
    ensures Deduped(f, items[..i + 1])
         == Deduped(f, items[..i]) + (if IsFirst(f, items, i) then [Norm(f, items[i])] else [])
    ensures SeenKeys(f, items[..i + 1])
         == SeenKeys(f, items[..i]) + (if Key(f, items[i]) != "" then {Key(f, items[i])} else {})
  {
    var p := items[..i + 1];
    assert p[..i] == items[..i];
    assert IsFirst(f, p, i) == IsFirst(f, items, i);
  }

  /** The loop both de-duplicators run: a `seen` set of keys and an `out`
      list; an entry whose key is non-empty and unseen adds its key to
      `seen` and its stored form to `out`. */
  method DedupeWith(f: Fold, items: seq<string>) returns (out: seq<string>)
    ensures out == Deduped(f, items)
  {
    var seen: set<string> := {};
    out := [];
    var i := 0;
    while i < |items|
      invariant i <= |items|
      invariant seen == SeenKeys(f, items[..i])
      invariant out == Deduped(f, items[..i])
    {
      var it := items[i];
      DedupedLoopStep(f, items, i, seen, out);
      var key := Key(f, it);
      if key != "" && key !in seen {
        seen := seen + {key};
        out := out + [Norm(f, it)];
      }
      i := i + 1;
    }
    assert items[..i] == items;
  }

  /** One turn of a de-duplicating loop that keeps `seen` and `out`: an
      entry with a non-empty, unseen key extends both, any other entry
      leaves both as they are. */
  lemma DedupedLoopStep(f: Fold, items: seq<string>, i: nat, seen: set<string>, out: seq<string>)
    requires i < |items|
    requires seen == SeenKeys(f, items[..i]) && out == Deduped(f, items[..i])
    ensures var k := Key(f, items[i]);
      if k != "" && k !in seen
      then Deduped(f, items[..i + 1]) == out + [Norm(f, items[i])] && SeenKeys(f, items[..i + 1]) == seen + {k}
      else Deduped(f, items[..i + 1]) == out && SeenKeys(f, items[..i + 1]) == seen
  {
    DedupedStep(f, items, i);
    FirstIffUnseen(f, items, i);
  }

  /** The positions of the first occurrences are first occurrences, in
      increasing order, one per output entry. */
  lemma {:induction false} FirstIndicesSorted(f: Fold, items: seq<string>)
    ensures var idx := FirstIndices(f, items);
      && |idx| == |Deduped(f, items)|
      && (forall k :: 0 <= k < |idx| ==> idx[k] < |items| && IsFirst(f, items, idx[k]))
      && (forall k, l :: 0 <= k < l < |idx| ==> idx[k] < idx[l])
  {
    if items != [] {
      var n := |items| - 1;
      var p := items[..n];
      FirstIndicesSorted(f, p);
      var idx' := FirstIndices(f, p);
      forall k | 0 <= k < |idx'| ensures IsFirst(f, items, idx'[k]) {
        assert IsFirst(f, p, idx'[k]);
        assert forall j :: 0 <= j <= idx'[k] ==> p[j] == items[j];
      }
    }
  }

  /** Output entry `k` is the stored form of the entry at the `k`-th first
      position. */
  lemma {:induction false} DedupedAtFirst(f: Fold, items: seq<string>)
    ensures var r, idx := Deduped(f, items), FirstIndices(f, items);
      |idx| == |r| && forall k :: 0 <= k < |r| ==> idx[k] < |items| && r[k] == Norm(f, items[idx[k]])
  {
    FirstIndicesSorted(f, items);
    if items != [] {
      var n := |items| - 1;
      var p := items[..n];
      DedupedAtFirst(f, p);
      var r', idx' := Deduped(f, p), FirstIndices(f, p);
      forall k | 0 <= k < |r'| ensures r'[k] == Norm(f, items[idx'[k]]) {
        assert p[idx'[k]] == items[idx'[k]];
      }
    }
  }

  /** Every first occurrence has its position listed. */
  lemma {:induction false} FirstIndicesComplete(f: Fold, items: seq<string>)
    ensures forall i :: 0 <= i < |items| && IsFirst(f, items, i) ==> i in FirstIndices(f, items)
  {
    if items != [] {
      var n := |items| - 1;
      var p := items[..n];
      FirstIndicesComplete(f, p);
      forall i | 0 <= i < n && IsFirst(f, items, i) ensures i in FirstIndices(f, p) {
        assert forall j :: 0 <= j <= i ==> p[j] == items[j];
        assert IsFirst(f, p, i);
      }
    }
  }

  /** The output lists exactly the first occurrences, each in its stored
      form, in the order they occur in the input. */
  lemma DedupedIndexed(f: Fold, items: seq<string>)
    ensures var r, idx := Deduped(f, items), FirstIndices(f, items);
      && |idx| == |r|
      && (forall k :: 0 <= k < |idx| ==>
            idx[k] < |items| && IsFirst(f, items, idx[k]) && r[k] == Norm(f, items[idx[k]]))
      && (forall k, l :: 0 <= k < l < |idx| ==> idx[k] < idx[l])
      && (forall i :: 0 <= i < |items| && IsFirst(f, items, i) ==> i in idx)
  {
    FirstIndicesSorted(f, items);
    DedupedAtFirst(f, items);
    FirstIndicesComplete(f, items);
  }

  /** The first index holding a given non-empty key. */
  lemma {:induction false} FirstWithKey(f: Fold, items: seq<string>, i: nat) returns (j: nat)
    requires i < |items| && Key(f, items[i]) != ""
    ensures j <= i && Key(f, items[j]) == Key(f, items[i]) && IsFirst(f, items, j)
    decreases i
  {
    if IsFirst(f, items, i) {
      j := i;
    } else {
      var j' :| 0 <= j' < i && Key(f, items[j']) == Key(f, items[i]);
      j := FirstWithKey(f, items, j');
    }
  }

  /** No two output entries compare equal, and none compares as empty. */
  lemma DedupedDistinct(f: Fold, items: seq<string>)
    requires Lawful(f)
    ensures Clean(f, Deduped(f, items))
  {
    DedupedIndexed(f, items);
    var r, idx := Deduped(f, items), FirstIndices(f, items);
    forall k | 0 <= k < |r| ensures Key(f, r[k]) == Key(f, items[idx[k]]) && Norm(f, r[k]) == r[k] {
      assert r[k] == Norm(f, items[idx[k]]);
    }
  }

  /** Every entry with a non-empty key is represented in the output by an
      entry that compares equal to it: de-duplication loses no key. */
  lemma DedupedCovers(f: Fold, items: seq<string>, i: nat)
    requires Lawful(f)
    requires i < |items| && Key(f, items[i]) != ""
    ensures exists k :: 0 <= k < |Deduped(f, items)| && Key(f, Deduped(f, items)[k]) == Key(f, items[i])
  {
    DedupedIndexed(f, items);
    var r, idx := Deduped(f, items), FirstIndices(f, items);
    var j := FirstWithKey(f, items, i);
    var k :| 0 <= k < |idx| && idx[k] == j;
    assert Key(f, r[k]) == Key(f, items[i]);
  }

  /** What the de-duplicator keeps from a prefix, it keeps from the whole. */
  lemma {:induction false} DedupedPrefix(f: Fold, a: seq<string>, b: seq<string>)
    ensures Deduped(f, a) <= Deduped(f, a + b)
    decreases |b|
  {
    if b != [] {
      var n := |b| - 1;
      DedupedPrefix(f, a, b[..n]);
      var m := |a + b| - 1;
      var p, q := Deduped(f, a), Deduped(f, a + b[..n]);
      assert p <= q;
      assert (a + b)[..m] == a + b[..n];
      assert Deduped(f, a + b)
          == Deduped(f, a + b[..n]) + (if IsFirst(f, a + b, m) then [Norm(f, (a + b)[m])] else []);
    } else {
      assert a + b == a;
    }
  }

  /** A sequence that is already de-duplicated is left as it is. */
  lemma {:induction false} DedupedOfDeduped(f: Fold, xs: seq<string>)
    requires Clean(f, xs)
    ensures Deduped(f, xs) == xs
  {
    if xs != [] {
      var n := |xs| - 1;
      var p := xs[..n];
      assert Clean(f, p) by {
        assert forall k :: 0 <= k < n ==> p[k] == xs[k];
      }
      DedupedOfDeduped(f, p);
      assert IsFirst(f, xs, n) by {
        assert forall j :: 0 <= j < n ==> Key(f, xs[j]) != Key(f, xs[n]);
      }
      assert xs == p + [xs[n]];
    }
  }

  /** Applying the de-duplicator twice is the same as applying it once. */
  lemma DedupedIdempotent(f: Fold, items: seq<string>)
    requires Lawful(f)
    ensures Deduped(f, Deduped(f, items)) == Deduped(f, items)
  {
    DedupedDistinct(f, items);
    DedupedOfDeduped(f, Deduped(f, items));
  }

  /** An entry with a non-empty key at the front comes out first. */
  lemma DedupedHead(f: Fold, xs: seq<string>)
    requires |xs| > 0 && Key(f, xs[0]) != ""
    ensures |Deduped(f, xs)| > 0 && Deduped(f, xs)[0] == Norm(f, xs[0])
  {
    DedupedIndexed(f, xs);
    var idx := FirstIndices(f, xs);
    assert IsFirst(f, xs, 0);
    assert 0 in idx;
  }
}
