/** `_strip_corp_suffix` of ticker_aliases.py: the corporate suffix
    patterns removed from the end of a company name. */
module CorpSuffix {
  import opened Wrappers
  import opened Text

  /** The patterns of `_CORP_SUFFIXES`, in order. Each pattern is
      `,?\s+` followed by a word; a word with optional dots is listed as
      every spelling it admits, in lower case. */
  const CorpSuffixes: seq<seq<string>> := [
    ["inc", "inc."],
    ["incorporated"],
    ["corporation"],
    ["corp", "corp."],
    ["company"],
    ["co", "co."],
    ["ltd", "ltd."],
    ["plc"],
    ["sa", "s.a", "sa.", "s.a."]
  ]

  /** `s` ends with the word `w`, compared ignoring case, and white space
      comes right before it. */
  predicate EndsWithWord(s: string, w: string) {
    |w| < |s| && Lower(s[|s| - |w|..]) == w && IsSpace(s[|s| - |w| - 1])
  }

  /** Where the leftmost match of `,?\s+` that ends at `k` starts: at the
      beginning of the run of white space before `k`, or one earlier when
      a comma precedes that run. */
  function MatchStart(s: string, k: nat): (j: nat)
    requires k <= |s|
    ensures j <= k
  {
    var j := |TrimRight(s[..k])|;
    if j > 0 && s[j - 1] == ',' then j - 1 else j
  }

  /** `re.sub(pattern + "$", "", s, flags=re.IGNORECASE)` for one suffix
      pattern whose word spellings are `words`. */
  function SubSuffix(s: string, words: seq<string>): (r: string)
    ensures |r| <= |s| && r == s[..|r|]
  {
    if words == [] then s
    else if EndsWithWord(s, words[0]) then s[..MatchStart(s, |s| - |words[0]|)]
    else SubSuffix(s, words[1..])
  }

  /** The suffix patterns applied one after the other, in list order. */
  function SubAll(s: string, patterns: seq<seq<string>>): (r: string)
    ensures |r| <= |s| && r == s[..|r|]
  {
    if patterns == [] then s
    else
      var n := |patterns| - 1;
      SubSuffix(SubAll(s, patterns[..n]), patterns[n])
  }

  /** What `_strip_corp_suffix` returns. */
  function StrippedName(name: string): string {
    Trim(SubAll(Trim(name), CorpSuffixes))
  }

  /** `_strip_corp_suffix`: strip, remove each corporate suffix pattern once
      in list order, strip again. */
  method StripCorpSuffix(name: string) returns (r: string)
    ensures r == StrippedName(name)
  {
    var s := Trim(name);
    var i := 0;
    while i < |CorpSuffixes|
      invariant i <= |CorpSuffixes|
      invariant s == SubAll(Trim(name), CorpSuffixes[..i])
    {
      assert CorpSuffixes[..i + 1][..i] == CorpSuffixes[..i];
      s := SubSuffix(s, CorpSuffixes[i]);
      i := i + 1;
    }
    assert CorpSuffixes[..i] == CorpSuffixes;
    r := Trim(s);
  }

  /** Stripping a prefix of a stripped string only drops trailing space. */
  lemma TrimOfPrefix(t: string, p: string)
    requires IsTrimmed(t) && |p| <= |t| && p == t[..|p|]
    ensures |Trim(p)| <= |t| && Trim(p) == t[..|Trim(p)|]
  {
    assert TrimLeft(p) == p by {
      if p != [] { assert p[0] == t[0]; }
    }
    TrimRightFacts(p);
  }

  /** The stripped name is the name with only its end cut off: suffix
      removal never touches the start of the name, and the result has no
      surrounding white space. */
  lemma StrippedNameIsPrefix(name: string)
    ensures IsTrimmed(StrippedName(name))
    ensures var t, r := Trim(name), StrippedName(name); |r| <= |t| && r == t[..|r|]
  {
    TrimOfPrefix(Trim(name), SubAll(Trim(name), CorpSuffixes));
  }

  /** No spelling of a suffix word contains white space. */
  predicate SpaceFree(w: string) {
    forall k :: 0 <= k < |w| ==> !IsSpace(w[k])
  }

  lemma SpellingsSpaceFree(i: nat)
    requires i < |CorpSuffixes|
    ensures forall j :: 0 <= j < |CorpSuffixes[i]| ==> SpaceFree(CorpSuffixes[i][j])
  {
  }

  /** A string whose characters from `n` on are white space, and whose
      character before `n` is not, right-strips to its first `n`
      characters. */
  lemma TrimRightTail(h: string, n: nat)
    requires n <= |h| && (n == 0 || !IsSpace(h[n - 1]))
    requires forall i :: n <= i < |h| ==> IsSpace(h[i])
    ensures TrimRight(h) == h[..n]
  {
    TrimRightFacts(h);
  }

  /** After white space, the only spelling of a group that can end the
      string is the lowered final word itself, so the pattern cuts right
      after the space-and-comma run before that word. */
  lemma {:induction false} SubSuffixAfterSpace(h: string, W: string, words: seq<string>)
    requires h != [] && IsSpace(h[|h| - 1])
    requires Lower(W) in words
    requires forall j :: 0 <= j < |words| ==> SpaceFree(words[j])
    ensures SubSuffix(h + W, words) == (h + W)[..MatchStart(h + W, |h|)]
  {
    var s := h + W;
    var w := Lower(W);
    assert s[|s| - |W|..] == W;
    LowerAt(W);
    if words[0] == w {
      assert EndsWithWord(s, w);
    } else {
      var w1 := words[0];
      assert !EndsWithWord(s, w1) by {
        if |w1| < |s| {
          LowerAt(s[|s| - |w1|..]);
        }
      }
      SubSuffixAfterSpace(h, W, words[1..]);
    }
  }

  /** Where the match of `,?\s+` before the final word starts, when the
      white space `sp` follows `b`. */
  lemma MatchStartAfter(b: string, sp: string, W: string)
    requires sp != [] && forall k :: 0 <= k < |sp| ==> IsSpace(sp[k])
    requires b == [] || !IsSpace(b[|b| - 1])
    ensures MatchStart(b + sp + W, |b + sp|)
              == if b != [] && b[|b| - 1] == ',' then |b| - 1 else |b|
  {
    var h := b + sp;
    assert (h + W)[..|h|] == h;
    TrimRightTail(h, |b|);
  }

  /** A pattern whose spellings have no white space and include the
      lowered final word removes that word with the white space before it,
      and with one comma right before that space. */
  lemma SubSuffixRemoves(b: string, sp: string, W: string, words: seq<string>)
    requires Lower(W) in words && forall j :: 0 <= j < |words| ==> SpaceFree(words[j])
    requires sp != [] && forall k :: 0 <= k < |sp| ==> IsSpace(sp[k])
    requires b == [] || !IsSpace(b[|b| - 1])
    ensures (b == [] || b[|b| - 1] != ',') ==> SubSuffix(b + sp + W, words) == b
    ensures (b != [] && b[|b| - 1] == ',') ==> SubSuffix(b + sp + W, words) == b[..|b| - 1]
  {
    SubSuffixAfterSpace(b + sp, W, words);
    MatchStartAfter(b, sp, W);
  }

  /** The same with a comma written before the white space: the comma goes
      too. */
  lemma CommaSubSuffixRemoves(b: string, sp: string, W: string, words: seq<string>)
    requires Lower(W) in words && forall j :: 0 <= j < |words| ==> SpaceFree(words[j])
    requires sp != [] && forall k :: 0 <= k < |sp| ==> IsSpace(sp[k])
    requires b == [] || !IsSpace(b[|b| - 1])
    ensures SubSuffix(b + [','] + sp + W, words) == b
  {
    var bc := b + [','];
    assert bc[|bc| - 1] == ',' && bc[..|bc| - 1] == b;
    assert !IsSpace(',');
    SubSuffixRemoves(bc, sp, W, words);
  }

  /** Each corporate suffix pattern removes its word, in any case, with the
      white space before it, and with one comma right before that space;
      what comes before is kept. */
  lemma SuffixRemoved(b: string, sp: string, W: string, i: nat)
    requires i < |CorpSuffixes| && Lower(W) in CorpSuffixes[i]
    requires sp != [] && forall k :: 0 <= k < |sp| ==> IsSpace(sp[k])
    requires b == [] || !IsSpace(b[|b| - 1])
    ensures (b == [] || b[|b| - 1] != ',') ==> SubSuffix(b + sp + W, CorpSuffixes[i]) == b
    ensures (b != [] && b[|b| - 1] == ',') ==> SubSuffix(b + sp + W, CorpSuffixes[i]) == b[..|b| - 1]
    ensures SubSuffix(b + [','] + sp + W, CorpSuffixes[i]) == b
  {
    SpellingsSpaceFree(i);
    var words := CorpSuffixes[i];
    SubSuffixRemoves(b, sp, W, words);
    CommaSubSuffixRemoves(b, sp, W, words);
  }

  /** "Apple Inc." loses its suffix. */
  lemma StrippedNameApple()
    ensures StrippedName("Apple Inc.") == "Apple"
  {
    var s := "Apple Inc.";
    assert s == "Apple" + " " + "Inc.";
    assert forall i :: 0 <= i < 5 ==> !IsSpace("Apple"[i]);
    assert Lower("Inc.") == "inc.";
    SuffixRemoved("Apple", " ", "Inc.", 0);
    TrimOfTrimmed(s);
    forall k | 1 <= k < |CorpSuffixes| ensures SubSuffix("Apple", CorpSuffixes[k]) == "Apple" {
      NoWordWithoutSpace("Apple", CorpSuffixes[k]);
    }
    SubAllAfterFirst(s, CorpSuffixes, "Apple");
    TrimOfTrimmed("Apple");
  }

  /** When the first pattern leaves `a` and no later pattern changes `a`,
      all the patterns together leave `a`. */
  lemma {:induction false} SubAllAfterFirst(s: string, patterns: seq<seq<string>>, a: string)
    requires |patterns| >= 1 && SubSuffix(s, patterns[0]) == a
    requires forall k :: 1 <= k < |patterns| ==> SubSuffix(a, patterns[k]) == a
    ensures SubAll(s, patterns) == a
    decreases |patterns|
  {
    var n := |patterns| - 1;
    if n == 0 {
      assert patterns[..0] == [];
    } else {
      SubAllAfterFirst(s, patterns[..n], a);
    }
  }

  /** A string without white space ends with no suffix pattern. */
  lemma {:induction false} NoWordWithoutSpace(s: string, words: seq<string>)
    requires forall i :: 0 <= i < |s| ==> !IsSpace(s[i])
    ensures SubSuffix(s, words) == s
  {
    if words != [] {
      NoWordWithoutSpace(s, words[1..]);
    }
  }
}
