/** `simple_keyword_sentiment` of portfolio_news_profit.py: the fallback
    scorer for Spanish headlines. Each negative keyword found in the
    lower-cased title costs 2, each positive one earns 1, and the total
    over 5 is clamped to [-1, 1]. */
module Sentiment {
  import opened Wrappers
  import opened Text

  const NegativeWords: seq<string> := [
    "denuncia", "demanda", "fraude", "bancarrota", "insolvencia", "hackeo", "ataque", "brecha",
    "cae", "baja", "recorte", "sanción", "multa", "accidente", "explosión", "derrame",
    "despidos", "downgrade", "investigación"
  ]

  const PositiveWords: seq<string> := [
    "sube", "alza", "récord", "record", "mejora", "aumenta", "aprobación", "adquisición",
    "fusión", "upgrade"
  ]

  /** How many of the words occur in `t`, each counted once. */
  function CountPresent(words: seq<string>, t: string): (r: nat)
    ensures r <= |words|
  {
    if words == [] then 0
    else
      var n := |words| - 1;
      CountPresent(words[..n], t) + (if Contains(t, words[n]) then 1 else 0)
  }

  lemma CountPresentStep(words: seq<string>, t: string, i: nat)
    requires i < |words|
    ensures CountPresent(words[..i + 1], t) == CountPresent(words[..i], t) + if Contains(t, words[i]) then 1 else 0
  {
    assert words[..i + 1][..i] == words[..i];
  }

  /** `max(-1.0, min(1.0, x))` */
  function Clamp(x: real): real {
    if x > 1.0 then 1.0 else if x < -1.0 then -1.0 else x
  }

  /** `(title or "").lower()` */
  function Lowered(title: Option<string>): string {
    if title.Some? then Lower(title.value) else ""
  }

  /** The integer score before scaling. */
  function RawScore(t: string): int {
    CountPresent(PositiveWords, t) - 2 * CountPresent(NegativeWords, t)
  }

  /** The score of a title. */
  function KeywordScore(title: Option<string>): real {
    Clamp(RawScore(Lowered(title)) as real / 5.0)
  }

  /** `simple_keyword_sentiment` */
  method SimpleKeywordSentiment(title: Option<string>) returns (score: real)
    ensures score == KeywordScore(title)
  {
    var t := if title.Some? then Lower(title.value) else "";
    var s := 0;
    var i := 0;
    while i < |NegativeWords|
      invariant i <= |NegativeWords|
      invariant s == -2 * CountPresent(NegativeWords[..i], t)
    {
      CountPresentStep(NegativeWords, t, i);
      if Contains(t, NegativeWords[i]) {
        s := s - 2;
      }
      i := i + 1;
    }
    assert NegativeWords[..i] == NegativeWords;
    var j := 0;
    while j < |PositiveWords|
      invariant j <= |PositiveWords|
      invariant s == CountPresent(PositiveWords[..j], t) - 2 * CountPresent(NegativeWords, t)
    {
      CountPresentStep(PositiveWords, t, j);
      if Contains(t, PositiveWords[j]) {
        s := s + 1;
      }
      j := j + 1;
    }
    assert PositiveWords[..j] == PositiveWords;
    score := s as real / 5.0;
    score := if score > 1.0 then 1.0 else if score < -1.0 then -1.0 else score;
  }

  /** The score is always in [-1, 1]; it is exactly the raw score over 5
      when that lies in the range. */
  lemma KeywordScoreBounds(title: Option<string>)
    ensures -1.0 <= KeywordScore(title) <= 1.0
    ensures var x := RawScore(Lowered(title)) as real / 5.0;
      -1.0 <= x <= 1.0 ==> KeywordScore(title) == x
  {
  }

  /** No word occurs in the empty title. */
  lemma {:induction false} NothingInEmpty(words: seq<string>)
    requires forall k :: 0 <= k < |words| ==> words[k] != ""
    ensures CountPresent(words, "") == 0
  {
    if words != [] {
      var n := |words| - 1;
      NothingInEmpty(words[..n]);
      assert !Contains("", words[n]);
    }
  }

  /** A missing or empty title scores 0. */
  lemma KeywordScoreOfEmpty(title: Option<string>)
    requires title.None? || title.value == ""
    ensures KeywordScore(title) == 0.0
  {
    if title.Some? {
      assert Lower(title.value) == "";
    }
    NothingInEmpty(NegativeWords);
    NothingInEmpty(PositiveWords);
  }

  /** Positive keywords alone give a positive score, negative keywords
      alone a negative one, and none at all a score of 0. */
  lemma KeywordScoreSign(title: Option<string>)
    ensures var t := Lowered(title);
      var pos, neg := CountPresent(PositiveWords, t), CountPresent(NegativeWords, t);
      && (pos > 0 && neg == 0 ==> KeywordScore(title) > 0.0)
      && (pos == 0 && neg > 0 ==> KeywordScore(title) < 0.0)
      && (pos == 0 && neg == 0 ==> KeywordScore(title) == 0.0)
  {
  }

  /** Every negative keyword outweighs up to two positive ones: with at
      least as many negative keywords as half the positive ones, the score
      is not positive. */
  lemma KeywordScoreNegativeWeight(title: Option<string>)
    ensures var t := Lowered(title);
      2 * CountPresent(NegativeWords, t) >= CountPresent(PositiveWords, t) ==> KeywordScore(title) <= 0.0
  {
  }

  /** A title with one positive keyword and no negative one scores 0.2. */
  lemma KeywordScoreOnePositive(title: Option<string>)
    requires CountPresent(PositiveWords, Lowered(title)) == 1
    requires CountPresent(NegativeWords, Lowered(title)) == 0
    ensures KeywordScore(title) == 0.2
  {
  }
}
