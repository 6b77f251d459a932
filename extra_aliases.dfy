/** `parse_extra_aliases` of ticker_aliases.py: the compact
    `"MSFT:Azure|Windows;AAPL:iPhone|Mac"` form of extra aliases. */
module ExtraAliases {
  import opened Wrappers
  import opened Text

  /** The alias values of one block: the `|`-separated pieces, stripped,
      blank ones dropped. */
  function AliasValues(parts: seq<string>): (r: seq<string>)
    ensures forall k :: 0 <= k < |r| ==> r[k] != "" && IsTrimmed(r[k])
  {
    if parts == [] then []
    else
      var n := |parts| - 1;
      AliasValues(parts[..n]) + (if Trim(parts[n]) != "" then [Trim(parts[n])] else [])
  }

  /** The ticker and aliases one `;`-separated block contributes, if any. */
  function ParseBlock(block: string): Option<(string, seq<string>)> {
    if Trim(block) == "" then None
    else match Find(block, ':')
      case None => None
      case Some(i) =>
        var tk := Upper(Trim(block[..i]));
        var al := AliasValues(SplitAt(block[i + 1..], {'|'}));
        if tk != "" && al != [] then Some((tk, al)) else None
  }

  /** The blocks folded into a dictionary, later blocks overwriting. */
  function ParseBlocks(blocks: seq<string>): map<string, seq<string>> {
    if blocks == [] then map[]
    else
      var n := |blocks| - 1;
      var m := ParseBlocks(blocks[..n]);
      match ParseBlock(blocks[n])
      case Some((tk, al)) => m[tk := al]
      case None => m
  }

  /** What `parse_extra_aliases` returns. */
  function ParsedExtras(expr: string): map<string, seq<string>> {
    if expr == "" then map[] else ParseBlocks(SplitAt(expr, {';'}))
  }

  /** The body of the `parse_extra_aliases` loop for one block: skip a
      blank block or one without a colon, split at the first colon, keep
      the upper-cased stripped ticker and the non-blank stripped values
      when both are non-empty. */
  method ParseOneBlock(block: string) returns (p: Option<(string, seq<string>)>)
    ensures p == ParseBlock(block)
  {
    p := None;
    if Trim(block) == "" {
      return;
    }
    var colon := Find(block, ':');
    if colon.None? {
      return;
    }
    var c := colon.value;
    var tk := Upper(Trim(block[..c]));
    var al := AliasValues(SplitAt(block[c + 1..], {'|'}));
    if tk != "" && al != [] {
      p := Some((tk, al));
    }
  }

  /** `parse_extra_aliases` */
  method ParseExtraAliases(expr: string) returns (result: map<string, seq<string>>)
    ensures result == ParsedExtras(expr)
  {
    result := map[];
    if expr == "" {
      return;
    }
    var blocks := SplitAt(expr, {';'});
    var i := 0;
    while i < |blocks|
      invariant i <= |blocks|
      invariant result == ParseBlocks(blocks[..i])
    {
      var p := ParseOneBlock(blocks[i]);
      ParseBlocksStep(blocks, i);
      if p.Some? {
        result := result[p.value.0 := p.value.1];
      }
      i := i + 1;
    }
    assert blocks[..i] == blocks;
  }

  lemma ParseBlocksStep(blocks: seq<string>, i: nat)
    requires i < |blocks|
    ensures ParseBlocks(blocks[..i + 1])
         == match ParseBlock(blocks[i])
            case Some((tk, al)) => ParseBlocks(blocks[..i])[tk := al]
            case None => ParseBlocks(blocks[..i])
  {
    assert blocks[..i + 1][..i] == blocks[..i];
  }

  /** A block that contributes gives a non-empty, stripped, upper-case
      ticker and a non-empty list of stripped, non-empty aliases. */
  lemma ParseBlockFacts(block: string)
    requires ParseBlock(block).Some?
    ensures var (tk, al) := ParseBlock(block).value;
      && tk != "" && Upper(tk) == tk
      && al != [] && forall k :: 0 <= k < |al| ==> al[k] != "" && IsTrimmed(al[k])
  {
    var i := Find(block, ':').value;
    UpperIdempotent(Trim(block[..i]));
  }

  /** Some block of `blocks` contributes the pair `(tk, al)`. */
  ghost predicate FromBlock(blocks: seq<string>, tk: string, al: seq<string>) {
    exists j :: 0 <= j < |blocks| && ParseBlock(blocks[j]) == Some((tk, al))
  }

  /** Every entry of the dictionary is what some block contributes. */
  lemma {:induction false} ParseBlocksFromBlocks(blocks: seq<string>)
    ensures forall tk :: tk in ParseBlocks(blocks) ==> FromBlock(blocks, tk, ParseBlocks(blocks)[tk])
  {
    if blocks != [] {
      var n := |blocks| - 1;
      var p := blocks[..n];
      ParseBlocksFromBlocks(p);
      var m := ParseBlocks(blocks);
      forall tk | tk in m ensures FromBlock(blocks, tk, m[tk]) {
        if ParseBlock(blocks[n]).Some? && ParseBlock(blocks[n]).value.0 == tk {
          assert ParseBlock(blocks[n]) == Some((tk, m[tk]));
        } else {
          assert tk in ParseBlocks(p) && m[tk] == ParseBlocks(p)[tk];
          assert FromBlock(p, tk, m[tk]);
          var j :| 0 <= j < n && ParseBlock(p[j]) == Some((tk, m[tk]));
          assert p[j] == blocks[j];
        }
      }
    }
  }

  /** Every key is non-empty, stripped and upper case, and maps to a
      non-empty list of stripped, non-empty aliases that some block lists. */
  lemma ParseBlocksFacts(blocks: seq<string>, tk: string)
    requires tk in ParseBlocks(blocks)
    ensures var al := ParseBlocks(blocks)[tk];
      && FromBlock(blocks, tk, al)
      && tk != "" && Upper(tk) == tk
      && al != [] && forall k :: 0 <= k < |al| ==> al[k] != "" && IsTrimmed(al[k])
  {
    ParseBlocksFromBlocks(blocks);
    var j :| 0 <= j < |blocks| && ParseBlock(blocks[j]) == Some((tk, ParseBlocks(blocks)[tk]));
    ParseBlockFacts(blocks[j]);
  }

  /** The last block that names a ticker decides its aliases. */
  lemma {:induction false} ParseBlocksLastWins(blocks: seq<string>, j: nat)
    requires j < |blocks| && ParseBlock(blocks[j]).Some?
    requires forall l :: j < l < |blocks| ==>
      ParseBlock(blocks[l]).None? || ParseBlock(blocks[l]).value.0 != ParseBlock(blocks[j]).value.0
    ensures var (tk, al) := ParseBlock(blocks[j]).value;
      tk in ParseBlocks(blocks) && ParseBlocks(blocks)[tk] == al
    decreases |blocks|
  {
    var n := |blocks| - 1;
    var p := blocks[..n];
    assert blocks == p + [blocks[n]];
    if j < n {
      assert forall l :: j < l < n ==> p[l] == blocks[l];
      assert p[j] == blocks[j];
      ParseBlocksLastWins(p, j);
    }
  }

  /** Two `;`-separated blocks naming different tickers give a
      dictionary with exactly those two entries (the documented
      `"MSFT:Azure|Windows;AAPL:iPhone|Mac"` is one instance, with
      `ParseBlockExample` for each block). */
  lemma ParsedTwoBlocks(b1: string, b2: string)
    requires ';' !in b1 && ';' !in b2
    requires ParseBlock(b1).Some? && ParseBlock(b2).Some?
    requires ParseBlock(b1).value.0 != ParseBlock(b2).value.0
    ensures var (tk1, al1) := ParseBlock(b1).value;
      var (tk2, al2) := ParseBlock(b2).value;
      ParsedExtras(b1 + [';'] + b2) == map[tk1 := al1, tk2 := al2]
  {
    var expr := b1 + [';'] + b2;
    assert expr != "";
    SplitTwo(b1, b2, ';');
    var blocks := SplitAt(expr, {';'});
    ParseBlocksStep(blocks, 0);
    ParseBlocksStep(blocks, 1);
    assert blocks[..0] == [] && blocks[..2] == blocks;
  }

  /** Splitting `a + [c] + b` on `c`, where neither side holds a `c`. */
  lemma {:induction false} SplitTwo(a: string, b: string, c: char)
    requires c !in a && c !in b
    ensures SplitAt(a + [c] + b, {c}) == [a, b]
    decreases |a|
  {
    if a == [] {
      assert ([c] + b)[1..] == b;
      SplitNone(b, c);
    } else {
      assert (a + [c] + b)[1..] == a[1..] + [c] + b;
      SplitTwo(a[1..], b, c);
      assert [a[0]] + a[1..] == a;
    }
  }

  lemma {:induction false} SplitNone(s: string, c: char)
    requires c !in s
    ensures SplitAt(s, {c}) == [s]
    decreases |s|
  {
    if s != [] {
      SplitNone(s[1..], c);
      assert [s[0]] + s[1..] == s;
    }
  }

  /** One block `tk:v1|v2` of upper-case, space-free text. */
  lemma ParseBlockExample(block: string, i: nat, tk: string, v1: string, v2: string)
    requires block == tk + [':'] + v1 + ['|'] + v2 && i == |tk|
    requires ':' !in tk && '|' !in v1 && '|' !in v2
    requires tk != [] && v1 != [] && v2 != []
    requires forall k :: 0 <= k < |tk| ==> 'A' <= tk[k] <= 'Z'
    requires forall k :: 0 <= k < |v1| ==> !IsSpace(v1[k])
    requires forall k :: 0 <= k < |v2| ==> !IsSpace(v2[k])
    ensures ParseBlock(block) == Some((tk, [v1, v2]))
  {
    assert block[..i] == tk;
    assert block[i] == ':';
    FindFirst(block, ':', i);
    assert block[i + 1..] == v1 + ['|'] + v2;
    SplitTwo(v1, v2, '|');
    TrimNoSpace(tk);
    UpperOfUpper(tk);
    TrimNoSpace(v1);
    TrimNoSpace(v2);
    AliasValuesTwo(v1, v2);
    assert Trim(block) != "" by {
      TrimEmptyIff(block);
      assert !IsSpace(block[0]);
    }
  }

  lemma AliasValuesTwo(v1: string, v2: string)
    requires Trim(v1) == v1 && Trim(v2) == v2 && v1 != "" && v2 != ""
    ensures AliasValues([v1, v2]) == [v1, v2]
  {
    var parts := [v1, v2];
    assert parts[..1] == [v1];
    assert [v1][..0] == [];
    assert AliasValues([v1]) == AliasValues([]) + [v1];
    assert AliasValues(parts) == AliasValues([v1]) + [v2];
  }

  lemma FindFirst(s: string, c: char, i: nat)
    requires i < |s| && s[i] == c && c !in s[..i]
    ensures Find(s, c) == Some(i)
  {
    forall k | 0 <= k < i ensures s[k] != c {
      assert s[..i][k] == s[k];
    }
    assert s[i] in s;
    var j := Find(s, c).value;
    forall k | 0 <= k < j ensures s[k] != c {
      assert s[..j][k] == s[k];
    }
  }
}
