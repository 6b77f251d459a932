/** Character and string operations standing in for the Python `str`
    methods the core uses: `isspace`, `lower`, `upper`, `strip`,
    `split(sep)`, `sep.join(...)` and the `in` substring test. */
module Text {
  import opened Wrappers

  /** `c.isspace()` for one character: the characters Python's `str`
      treats as white space, which are also what `\s` matches in a `str`
      regular expression (tab to carriage return, the four information
      separators, space, next line, no-break space and the Unicode space
      separators). */
  predicate IsSpace(c: char) {
    || '\t' <= c <= '\r'
    || '\U{1C}' <= c <= ' '
    || c == '\U{85}' || c == '\U{A0}' || c == '\U{1680}'
    || '\U{2000}' <= c <= '\U{200A}'
    || c == '\U{2028}' || c == '\U{2029}' || c == '\U{202F}' || c == '\U{205F}' || c == '\U{3000}'
  }

  /** Lower-casing of one character: ASCII and the Latin-1 letters. */
  function LowerChar(c: char): (r: char)
    ensures IsSpace(r) <==> IsSpace(c)
  {
    if 'A' <= c <= 'Z' || ('\U{C0}' <= c <= '\U{DE}' && c != '\U{D7}')
    then (c as int + 32) as char
    else c
  }

  /** Upper-casing of one character: ASCII and the Latin-1 letters. */
  function UpperChar(c: char): (r: char)
    ensures IsSpace(r) <==> IsSpace(c)
  {
    if 'a' <= c <= 'z' || ('\U{E0}' <= c <= '\U{FE}' && c != '\U{F7}')
    then (c as int - 32) as char
    else c
  }

  /** `s.lower()` */
  function Lower(s: string): (r: string)
    ensures |r| == |s|
  {
    if s == [] then [] else [LowerChar(s[0])] + Lower(s[1..])
  }

  lemma {:induction false} LowerAt(s: string)
    ensures forall i :: 0 <= i < |s| ==> Lower(s)[i] == LowerChar(s[i])
    decreases |s|
  {
    if s != [] {
      LowerAt(s[1..]);
    }
  }

  /** `s.upper()` */
  function Upper(s: string): (r: string)
    ensures |r| == |s|
  {
    if s == [] then [] else [UpperChar(s[0])] + Upper(s[1..])
  }

  lemma {:induction false} UpperAt(s: string)
    ensures forall i :: 0 <= i < |s| ==> Upper(s)[i] == UpperChar(s[i])
    decreases |s|
  {
    if s != [] {
      UpperAt(s[1..]);
    }
  }

  /** Upper-casing keeps the white space where it is, so text that is not
      blank stays not blank. */
  lemma UpperNotBlank(s: string)
    requires Trim(s) != ""
    ensures Trim(Upper(s)) != ""
  {
    TrimEmptyIff(s);
    TrimEmptyIff(Upper(s));
    UpperAt(s);
    var i :| 0 <= i < |s| && !IsSpace(s[i]);
    assert !IsSpace(Upper(s)[i]);
  }

  /** Upper-casing leaves upper-case ASCII text as it is. */
  lemma {:induction false} UpperOfUpper(s: string)
    requires forall k :: 0 <= k < |s| ==> 'A' <= s[k] <= 'Z'
    ensures Upper(s) == s
    decreases |s|
  {
    if s != [] {
      UpperOfUpper(s[1..]);
    }
  }

  /** Upper-casing twice is upper-casing once. */
  lemma {:induction false} UpperIdempotent(s: string)
    ensures Upper(Upper(s)) == Upper(s)
    decreases |s|
  {
    if s != [] {
      UpperIdempotent(s[1..]);
    }
  }

  /** `s.lstrip()` */
  function TrimLeft(s: string): (r: string)
    ensures |r| <= |s|
  {
    if s != [] && IsSpace(s[0]) then TrimLeft(s[1..]) else s
  }

  /** `s.lstrip()` drops the leading white space and nothing else. */
  lemma {:induction false} TrimLeftFacts(s: string)
    ensures var r := TrimLeft(s);
      && r == s[|s| - |r|..]
      && (r == [] || !IsSpace(r[0]))
      && (forall i :: 0 <= i < |s| - |r| ==> IsSpace(s[i]))
    decreases |s|
  {
    if s != [] && IsSpace(s[0]) {
      TrimLeftFacts(s[1..]);
    }
  }

  /** `s.rstrip()` */
  function TrimRight(s: string): (r: string)
    ensures |r| <= |s|
  {
    if s != [] && IsSpace(s[|s| - 1]) then TrimRight(s[..|s| - 1]) else s
  }

  /** `s.rstrip()` drops the trailing white space and nothing else. */
  lemma {:induction false} TrimRightFacts(s: string)
    ensures var r := TrimRight(s);
      && r == s[..|r|]
      && (r == [] || !IsSpace(r[|r| - 1]))
      && (forall i :: |r| <= i < |s| ==> IsSpace(s[i]))
    decreases |s|
  {
    if s != [] && IsSpace(s[|s| - 1]) {
      TrimRightFacts(s[..|s| - 1]);
    }
  }

  /** A string with no leading and no trailing white space. */
  predicate IsTrimmed(s: string) {
    s == [] || (!IsSpace(s[0]) && !IsSpace(s[|s| - 1]))
  }

  /** `s.strip()`: the longest infix of `s` that starts and ends with a
      non-space character (empty when `s` is all white space). */
  function Trim(s: string): (r: string)
    ensures IsTrimmed(r)
    ensures |r| <= |s|
  {
    var l := TrimLeft(s);
    TrimLeftFacts(s);
    TrimRightFacts(l);
    var r := TrimRight(l);
    assert r == [] || r[0] == l[0];
    r
  }

  /** The stripped string is the infix of `s` that starts where the
      leading white space ends. */
  lemma TrimInfix(s: string)
    ensures var k := |s| - |TrimLeft(s)|; k + |Trim(s)| <= |s| && Trim(s) == s[k..k + |Trim(s)|]
  {
    var l := TrimLeft(s);
    var k := |s| - |l|;
    assert l == s[k..] by {
      TrimLeftFacts(s);
    }
    var r := TrimRight(l);
    assert r == l[..|r|] by {
      TrimRightFacts(l);
    }
    assert Trim(s) == r;
    assert r == s[k..k + |r|];
  }

  lemma TrimOfTrimmed(s: string)
    requires IsTrimmed(s)
    ensures Trim(s) == s
  {
    assert TrimLeft(s) == s;
    assert TrimRight(s) == s;
  }

  /** Text without white space strips to itself. */
  lemma TrimNoSpace(s: string)
    requires forall k :: 0 <= k < |s| ==> !IsSpace(s[k])
    ensures Trim(s) == s
  {
    TrimOfTrimmed(s);
  }

  lemma TrimIdempotent(s: string)
    ensures Trim(Trim(s)) == Trim(s)
  {
    TrimOfTrimmed(Trim(s));
  }

  /** A string trims to nothing exactly when every character is white space. */
  lemma {:induction false} TrimEmptyIff(s: string)
    ensures Trim(s) == [] <==> forall i :: 0 <= i < |s| ==> IsSpace(s[i])
  {
    var l := TrimLeft(s);
    TrimLeftFacts(s);
    TrimRightFacts(l);
    if Trim(s) == [] {
      // TrimRight(l) is empty, so l is all white space, yet l cannot start with it
      assert l == [];
    } else {
      var r := Trim(s);
      var k := |s| - |l|;
      TrimInfix(s);
      assert r[0] == s[k] && !IsSpace(r[0]);
    }
  }

  lemma {:induction false} LowerTrimLeft(s: string)
    ensures TrimLeft(Lower(s)) == Lower(TrimLeft(s))
    decreases |s|
  {
    if s != [] {
      assert Lower(s)[1..] == Lower(s[1..]);
      if IsSpace(s[0]) {
        LowerTrimLeft(s[1..]);
      }
    }
  }

  lemma {:induction false} LowerTrimRight(s: string)
    ensures TrimRight(Lower(s)) == Lower(TrimRight(s))
    decreases |s|
  {
    if s != [] {
      var n := |s| - 1;
      var l := Lower(s);
      assert l[..n] == Lower(s[..n]) && l[n] == LowerChar(s[n]) by {
        LowerSnoc(s);
      }
      if IsSpace(s[n]) {
        LowerTrimRight(s[..n]);
      }
    }
  }

  /** Lower-casing one character at the end. */
  lemma {:induction false} LowerSnoc(s: string)
    requires s != []
    ensures Lower(s) == Lower(s[..|s| - 1]) + [LowerChar(s[|s| - 1])]
    decreases |s|
  {
    if |s| > 1 {
      LowerSnoc(s[1..]);
      assert s[1..][..|s| - 2] == s[..|s| - 1][1..];
    }
  }

  /** Lower-casing and stripping commute, because lower-casing maps white
      space to white space and nothing else to white space. */
  lemma LowerTrim(s: string)
    ensures Trim(Lower(s)) == Lower(Trim(s))
  {
    LowerTrimLeft(s);
    LowerTrimRight(TrimLeft(s));
  }

  /** `w in t` for strings: `w` occurs in `t` as a contiguous substring. */
  predicate Contains(t: string, w: string)
    decreases |t|
  {
    if |t| < |w| then false
    else if t[..|w|] == w then true
    else Contains(t[1..], w)
  }

  lemma {:induction false} ContainsAt(t: string, w: string, i: nat)
    requires i + |w| <= |t| && t[i..i + |w|] == w
    ensures Contains(t, w)
    decreases i
  {
    if t[..|w|] != w {
      assert i > 0;
      assert t[1..][i - 1..i - 1 + |w|] == w;
      ContainsAt(t[1..], w, i - 1);
    }
  }

  /** The index of the first `c` in `s`, as `s.find(c)` without the -1. */
  function Find(s: string, c: char): (r: Option<nat>)
    ensures r.None? ==> c !in s
    ensures r.Some? ==> r.value < |s| && s[r.value] == c && c !in s[..r.value]
  {
    if s == [] then None
    else if s[0] == c then Some(0)
    else match Find(s[1..], c)
      case None => None
      case Some(i) =>
        assert s[..i + 1] == [s[0]] + s[1..][..i];
        Some(i + 1)
  }

  /** The pieces of `s` between occurrences of characters of `seps`, as
      `s.split(sep)` for one separator and `re.split("[...]", s)` for a
      character class: one more piece than there are separators. */
  function SplitAt(s: string, seps: set<char>): (r: seq<string>)
    ensures |r| >= 1
    ensures forall k :: 0 <= k < |r| ==> forall c :: c in r[k] ==> c !in seps
    decreases |s|
  {
    if s == [] then [""]
    else if s[0] in seps then [""] + SplitAt(s[1..], seps)
    else
      var rest := SplitAt(s[1..], seps);
      [[s[0]] + rest[0]] + rest[1..]
  }

  /** Concatenation regroups freely. */
  lemma ConcatAssoc<T>(a: seq<T>, b: seq<T>, c: seq<T>)
    ensures (a + b) + c == a + (b + c)
  {
  }

  /** `sep.join(parts)` */
  function Join(parts: seq<string>, sep: string): string
  {
    if parts == [] then ""
    else if |parts| == 1 then parts[0]
    else parts[0] + sep + Join(parts[1..], sep)
  }

  /** Each part occurs in the joined string, at the position returned. */
  lemma {:induction false} JoinPartAt(parts: seq<string>, sep: string, k: nat) returns (i: nat)
    requires k < |parts|
    ensures i + |parts[k]| <= |Join(parts, sep)| && Join(parts, sep)[i..i + |parts[k]|] == parts[k]
    decreases k
  {
    if |parts| == 1 {
      i := 0;
    } else if k == 0 {
      i := 0;
      assert Join(parts, sep) == parts[0] + (sep + Join(parts[1..], sep));
    } else {
      var rest := Join(parts[1..], sep);
      var j := JoinPartAt(parts[1..], sep, k - 1);
      i := |parts[0]| + |sep| + j;
      assert Join(parts, sep) == (parts[0] + sep) + rest;
      assert ((parts[0] + sep) + rest)[i..i + |parts[k]|] == rest[j..j + |parts[k]|];
    }
  }

  /** Splitting on one character and joining with it gives the string back. */
  lemma {:induction false} JoinSplit(s: string, c: char)
    ensures Join(SplitAt(s, {c}), [c]) == s
    decreases |s|
  {
    if s != [] {
      JoinSplit(s[1..], c);
      var rest := SplitAt(s[1..], {c});
      if s[0] != c {
        if |rest| == 1 {
        } else {
          assert Join(rest, [c]) == rest[0] + [c] + Join(rest[1..], [c]);
          assert ([s[0]] + rest[0]) + [c] + Join(rest[1..], [c]) == [s[0]] + Join(rest, [c]);
        }
        assert s == [s[0]] + s[1..];
      }
    }
  }
}
