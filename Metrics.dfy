/**
  Stylometric metrics of a raw writing sample (`analyzeTextMetrics` in the
  sample handler): average sentence length, distinct words, a positive-tone
  percentage, a formality level on a 0–10 scale and the top five repeated
  phrases.

  Rounding is exact: `Math.round` of a non-negative quotient `n / d` is
  `floor(n / d + 1/2)`, computed on integers. The formality level is a real.
*/
module Metrics {
  import opened Text
  import Chunker
  import Phrases

  const PositiveWords: seq<string> :=
    ["good", "great", "excellent", "amazing", "wonderful", "fantastic", "love", "like", "enjoy", "happy", "pleased", "satisfied"]
  const NegativeWords: seq<string> :=
    ["bad", "terrible", "awful", "horrible", "hate", "dislike", "sad", "angry", "frustrated", "disappointed"]
  const FormalMarkers: seq<string> :=
    ["regarding", "concerning", "pursuant", "herewith", "whereas", "therefore", "moreover", "furthermore", "nevertheless"]
  const InformalMarkers: seq<string> :=
    ["gonna", "wanna", "kinda", "sorta", "y'all", "dude", "cool", "awesome", "totally", "basically"]

  /** The number of common phrases the metrics keep. */
  const TopPhrases: nat := 5

  datatype Metrics = Metrics(
    avgSentenceLength: nat,
    uniqueWords: nat,
    positiveTone: nat,
    formalityLevel: real,
    commonPhrases: seq<string>)

  // ------------------------------------------------------------------
  // Counting
  // ------------------------------------------------------------------

  /** `(text.match(/[.!?]+/g) || []).length`: the runs of terminators. */
  function SentenceCount(text: string): nat {
    |Runs(text, Chunker.IsTerminatorFn)|
  }

  /** `text.split(/\s+/).filter(word => word.length > 0).length`: the maximal
      runs of non-whitespace. */
  function WordCount(text: string): nat {
    |Runs(text, NotSpace)|
  }

  /** `Math.round(n / d)` for `n >= 0`, `d > 0`: the integer nearest to the
      quotient, halves rounded up. */
  function Round(n: nat, d: nat): (r: nat)
    requires d > 0
    ensures r as real - 0.5 <= n as real / d as real < r as real + 0.5
  {
    var r := (2 * n + d) / (2 * d);
    RoundBounds(n, d, r);
    r
  }

  lemma RoundBounds(n: nat, d: nat, r: nat)
    requires d > 0 && r == (2 * n + d) / (2 * d)
    ensures r as real - 0.5 <= n as real / d as real < r as real + 0.5
  {
    var q := (2 * n + d) % (2 * d);
    assert 2 * n + d == r * (2 * d) + q && 0 <= q < 2 * d;
    assert r * (2 * d) <= 2 * n + d;
    assert 2 * n + d < r * (2 * d) + 2 * d;
    var N, D, R := n as real, d as real, r as real;
    assert R * D - D / 2.0 <= N by {
      assert (r * d) as real == R * D;
    }
    assert N < R * D + D / 2.0 by {
      assert (r * d) as real == R * D;
    }
    QuotientBounds(N, D, R - 0.5, R + 0.5);
  }

  lemma QuotientBounds(x: real, y: real, lo: real, hi: real)
    requires y > 0.0 && lo * y <= x < hi * y
    ensures lo <= x / y < hi
  {
    var q := x / y;
    assert q * y == x;
  }

  /** How many entries of `words` are in `lexicon` (`lexicon.includes(word)`). */
  function CountIn(words: seq<string>, lexicon: seq<string>): nat {
    if words == [] then 0
    else CountIn(words[..|words| - 1], lexicon) + (if words[|words| - 1] in lexicon then 1 else 0)
  }

  /** `formalityScore`: one up per formal marker, one down per informal one. */
  function FormalityScore(words: seq<string>): int {
    if words == [] then 0
    else
      var w := words[|words| - 1];
      FormalityScore(words[..|words| - 1]) + (if w in FormalMarkers then 1 else 0) - (if w in InformalMarkers then 1 else 0)
  }

  function AvgSentenceLength(text: string): nat {
    var sentences := SentenceCount(text);
    if sentences > 0 then Round(WordCount(text), sentences) else 0
  }

  /** `new Set(words).size` */
  function UniqueWords(text: string): nat {
    |set w | w in Phrases.WordsOf(text)|
  }

  /** Positive `\w` words per hundred whitespace-delimited words, rounded. The
      two counts tokenise differently, so nothing caps this at 100. */
  function PositiveTone(text: string): nat {
    var words := WordCount(text);
    if words > 0 then Round(100 * CountIn(Phrases.WordsOf(text), PositiveWords), words) else 0
  }

  /** `Math.max(0, Math.min(10, 5 + score / Math.max(1, wordCount / 100)))` */
  function FormalityLevel(score: int, wordCount: nat): (f: real)
    ensures 0.0 <= f <= 10.0
    ensures score == 0 ==> f == 5.0
    ensures score > 0 ==> f > 5.0
    ensures score < 0 ==> f < 5.0
  {
    var scale := if wordCount as real / 100.0 > 1.0 then wordCount as real / 100.0 else 1.0;
    var raw := 5.0 + score as real / scale;
    if raw < 0.0 then 0.0 else if raw > 10.0 then 10.0 else raw
  }

  /** The first `n` entries of `s` (`s.slice(0, n)`). */
  function Take(s: seq<string>, n: nat): (r: seq<string>)
    ensures |r| <= n && r <= s
    ensures |s| <= n ==> r == s
  {
    if |s| <= n then s else s[..n]
  }

  /** `analyzeTextMetrics(text)` */
  function MetricsOf(text: string): Metrics {
    Metrics(
      AvgSentenceLength(text),
      UniqueWords(text),
      PositiveTone(text),
      FormalityLevel(FormalityScore(Phrases.WordsOf(text)), WordCount(text)),
      Take(Phrases.CommonPhrases(text), TopPhrases))
  }

  method AnalyzeTextMetrics(text: string) returns (m: Metrics)
    ensures m == MetricsOf(text)
  {
    var sentenceCount := |Runs(text, Chunker.IsTerminatorFn)|;
    var wordCount := |Runs(text, NotSpace)|;
    var avgSentenceLength := if sentenceCount > 0 then Round(wordCount, sentenceCount) else 0;
    var words := Phrases.WordsOf(text);
    var uniqueWords := |set w | w in words|;

    var positiveCount := 0;
    var negativeCount := 0;
    for k := 0 to |words|
      invariant positiveCount == CountIn(words[..k], PositiveWords)
      invariant negativeCount == CountIn(words[..k], NegativeWords)
    {
      assert words[..k + 1][..k] == words[..k];
      if words[k] in PositiveWords {
        positiveCount := positiveCount + 1;
      }
      if words[k] in NegativeWords {
        negativeCount := negativeCount + 1;
      }
    }
    assert words[..|words|] == words;
    var positiveTone := if wordCount > 0 then Round(100 * positiveCount, wordCount) else 0;

    var formalityScore := 0;
    for k := 0 to |words|
      invariant formalityScore == FormalityScore(words[..k])
    {
      assert words[..k + 1][..k] == words[..k];
      if words[k] in FormalMarkers {
        formalityScore := formalityScore + 1;
      }
      if words[k] in InformalMarkers {
        formalityScore := formalityScore - 1;
      }
    }
    var formalityLevel := FormalityLevel(formalityScore, wordCount);

    var phrases := Phrases.FindCommonPhrases(text);
    m := Metrics(avgSentenceLength, uniqueWords, positiveTone, formalityLevel, Take(phrases, TopPhrases));
  }

  // ------------------------------------------------------------------
  // Properties of the metrics
  // ------------------------------------------------------------------

  /** No `\w` run is `y'all`, so that informal marker never counts. */
  lemma {:induction false} ApostropheMarkerNeverCounts(words: seq<string>)
    requires forall k :: 0 <= k < |words| ==> forall i :: 0 <= i < |words[k]| ==> IsWordChar(words[k][i])
    ensures CountIn(words, InformalMarkers) == CountIn(words, InformalMarkers[..4] + InformalMarkers[5..])
  {
    if words != [] {
      var w := words[|words| - 1];
      ApostropheMarkerNeverCounts(words[..|words| - 1]);
      assert w != InformalMarkers[4] by {
        assert |w| == 5 ==> IsWordChar(w[1]);
      }
    }
  }

  /** The running score is the number of formal markers less the number of
      informal ones. */
  lemma {:induction false} FormalityScoreCounts(words: seq<string>)
    ensures FormalityScore(words) == CountIn(words, FormalMarkers) - CountIn(words, InformalMarkers)
  {
    if words != [] {
      FormalityScoreCounts(words[..|words| - 1]);
    }
  }

  /** `y'all` is never one of the words of a text, and the formality score of
      any text is what it would be without that marker in the list. */
  lemma YallNeverCounts(text: string)
    ensures "y'all" !in Phrases.WordsOf(text)
    ensures var words := Phrases.WordsOf(text);
            FormalityScore(words) == CountIn(words, FormalMarkers) - CountIn(words, InformalMarkers[..4] + InformalMarkers[5..])
  {
    var words := Phrases.WordsOf(text);
    ApostropheMarkerNeverCounts(words);
    FormalityScoreCounts(words);
    forall k | 0 <= k < |words|
      ensures words[k] != "y'all"
    {
      assert |words[k]| == 5 ==> IsWordChar(words[k][1]);
    }
  }

  /** There are never more distinct words than words. */
  lemma {:induction false} DistinctAtMost(words: seq<string>)
    ensures |set w | w in words| <= |words|
  {
    if words != [] {
      var init := words[..|words| - 1];
      DistinctAtMost(init);
      assert (set w | w in words) == (set w | w in init) + {words[|words| - 1]} by {
        assert words == init + [words[|words| - 1]];
      }
    }
  }

  lemma UniqueWordsBound(text: string)
    ensures UniqueWords(text) <= |Phrases.WordsOf(text)|
  {
    DistinctAtMost(Phrases.WordsOf(text));
  }

  /** Empty text: every numeric metric is 0 except formality, which is 5. */
  lemma EmptyTextMetrics()
    ensures MetricsOf([]) == Metrics(0, 0, 0, 5.0, [])
  {
    var units := Chunker.SentenceUnits([]);
    assert Chunker.Scan([]) == [];
    assert units == [[]];
    assert Phrases.WordsOf([]) == [];
    assert (set w | w in Phrases.WordsOf([])) == {};
    assert Phrases.SentenceWindows([]) == [];
    assert units[..0] == [];
    assert Phrases.Occurrences(units) == [];
    assert Phrases.Tally([]) == Phrases.Table([], map[]);
  }

  /** A text whose only whitespace-delimited word holds two positive `\w`
      words: `"love/love"` has a positive tone of 200. */
  lemma TwoPositivesInOneWord(text: string)
    requires text == "love/love"
    ensures PositiveTone(text) == 200
  {
    var w := "love";
    assert text == w + ['/'] + w;
    OneToken(text);
    SplitAtSlash(w);
    assert w in PositiveWords by {
      assert PositiveWords[6] == w;
    }
    var ws := [w, w];
    assert ws[..1] == [w] && [w][..0] == [];
    assert CountIn([w], PositiveWords) == 1;
    assert CountIn(ws, PositiveWords) == 2;
    assert Round(200, 1) == 200;
  }

  /** A non-empty text without whitespace is one whitespace-delimited word. */
  lemma OneToken(text: string)
    requires text != [] && forall i :: 0 <= i < |text| ==> !IsSpace(text[i])
    ensures WordCount(text) == 1
  {
    SpanIs(text, NotSpace, |text|);
    assert NotSpace(text[0]);
    assert Runs(text, NotSpace) == [text[..|text|]] + Runs(text[|text|..], NotSpace);
    assert text[|text|..] == [];
  }

  lemma SplitAtSlash(w: string)
    requires w == "love"
    ensures Phrases.WordsOf(w + ['/'] + w) == [w, w]
  {
    var s := w + ['/'] + w;
    assert Lower(s) == s;
    SpanIs(s, IsWordChar, 4);
    assert s[..4] == w;
    var t := s[4..];
    assert !IsWordChar(t[0]);
    assert t[1..] == w;
    SpanIs(w, IsWordChar, 4);
    assert IsWordChar(w[0]);
    assert Runs(w, IsWordChar) == [w[..4]] + Runs(w[4..], IsWordChar);
    assert w[4..] == [] && w[..4] == w;
    assert Runs(t, IsWordChar) == Runs(w, IsWordChar);
  }
}
