/**
  A worked example of `analyzeTextMetrics`: the metrics of the sample text
  "I love this. I love this a lot. This is great.", derived from the
  definitions in `Metrics`, `Phrases` and `Chunker`.

  The text has three sentence units and eleven whitespace-delimited words;
  its `\w` words are i love this i love this a lot this is great, seven of
  them distinct, three of them positive. Of its thirteen two- and three-word
  phrases, "i love", "i love this" and "love this" occur twice and all others
  once, so those three are the common phrases, in first-seen order.

  The sample is handled unit by unit: each lemma about a literal is kept
  small, and the lemmas about whole texts are stated over the units.
*/
module MetricsExample {
  import opened Text
  import Chunker
  import opened Phrases
  import Metrics

  // ------------------------------------------------------------------
  // Runs, words, windows and counts of a text made of units
  // ------------------------------------------------------------------

  /** The runs of one unit: optional leading separator, words joined by
      spaces, closing mark. */
  lemma UnitRuns(lead: string, ws: seq<string>, stop: char, p: char -> bool)
    requires forall i :: 0 <= i < |lead| ==> !p(lead[i])
    requires !p(' ') && !p(stop)
    requires forall k :: 0 <= k < |ws| ==> ws[k] != [] && forall i :: 0 <= i < |ws[k]| ==> p(ws[k][i])
    ensures Runs(lead + Join(ws, ' ') + [stop], p) == ws
  {
    var j := Join(ws, ' ');
    assert lead + j + [stop] == lead + (j + [stop]);
    RunsSkip(lead, j + [stop], p);
    RunsAppend(j, [stop], p);
    RunsOfJoin(ws, ' ', p);
    NoRuns([stop], p);
  }

  /** Words of one unit of the sample, from its lower-cased form. */
  lemma UnitWords(u: string, lead: string, ws: seq<string>)
    requires Lower(u) == lead + Join(ws, ' ') + ['.']
    requires forall i :: 0 <= i < |lead| ==> !IsWordChar(lead[i])
    requires forall k :: 0 <= k < |ws| ==> ws[k] != [] && forall i :: 0 <= i < |ws[k]| ==> IsWordChar(ws[k][i])
    ensures WordsOf(u) == ws
  {
    UnitRuns(lead, ws, '.', IsWordChar);
  }

  /** A unit made of an optional leading space and tokens joined by spaces. */
  lemma UnitTokens(lead: string, tokens: seq<string>)
    requires forall i :: 0 <= i < |lead| ==> IsSpace(lead[i])
    requires forall k :: 0 <= k < |tokens| ==> tokens[k] != [] && forall i :: 0 <= i < |tokens[k]| ==> NotSpace(tokens[k][i])
    ensures Runs(lead + Join(tokens, ' '), NotSpace) == tokens
  {
    RunsSkip(lead, Join(tokens, ' '), NotSpace);
    RunsOfJoin(tokens, ' ', NotSpace);
  }

  /** Units that start outside the class do not merge runs across them. */
  lemma ThreeRuns(u1: string, u2: string, u3: string, p: char -> bool)
    requires u2 != [] && !p(u2[0]) && u3 != [] && !p(u3[0])
    ensures Runs(u1 + u2 + u3, p) == Runs(u1, p) + Runs(u2, p) + Runs(u3, p)
  {
    RunsAppend(u1 + u2, u3, p);
    RunsAppend(u1, u2, p);
  }

  lemma LowerAppend(a: string, b: string)
    ensures Lower(a + b) == Lower(a) + Lower(b)
  {
  }

  /** No run of `\w` characters crosses the space that opens the next unit. */
  lemma WordsOfThree(u1: string, u2: string, u3: string)
    requires u2 != [] && u2[0] == ' ' && u3 != [] && u3[0] == ' '
    ensures WordsOf(u1 + u2 + u3) == WordsOf(u1) + WordsOf(u2) + WordsOf(u3)
  {
    LowerAppend(u1 + u2, u3);
    LowerAppend(u1, u2);
    ThreeRuns(Lower(u1), Lower(u2), Lower(u3), IsWordChar);
  }

  /** `s` holds none of `.`, `!` and `?` (the character-wise form of
      `Chunker.Unterminated`, which is cheaper to check on a literal). */
  predicate NoStop(s: string) {
    forall i :: 0 <= i < |s| ==> !IsTerminator(s[i])
  }

  lemma NoStopUnterminated(s: string)
    requires NoStop(s)
    ensures Chunker.Unterminated(s)
  {
    forall c | c in multiset(s) ensures !IsTerminator(c) {
      var i :| 0 <= i < |s| && s[i] == c;
    }
  }

  lemma TerminatedRun(body: string, stop: char, p: char -> bool)
    requires forall i :: 0 <= i < |body| ==> !p(body[i])
    requires p(stop)
    ensures Runs(body + [stop], p) == [[stop]]
  {
    RunsSkip(body, [stop], p);
    RunsWhole([stop], p);
  }

  /** Three units, each a body without terminators closed by one `.`. */
  lemma ThreeUnits(b1: string, b2: string, b3: string)
    requires b1 != [] && b2 != [] && b3 != []
    requires NoStop(b1) && NoStop(b2) && NoStop(b3)
    ensures Chunker.SentenceUnits(b1 + ['.'] + (b2 + ['.']) + (b3 + ['.'])) == [b1 + ['.'], b2 + ['.'], b3 + ['.']]
    ensures Metrics.SentenceCount(b1 + ['.'] + (b2 + ['.']) + (b3 + ['.'])) == 3
  {
    var u1, u2, u3 := b1 + ['.'], b2 + ['.'], b3 + ['.'];
    NoStopUnterminated(b1);
    NoStopUnterminated(b2);
    NoStopUnterminated(b3);
    Chunker.ScanUnit(b1, '.', u2 + u3);
    Chunker.ScanUnit(b2, '.', u3);
    Chunker.ScanUnit(b3, '.', []);
    Chunker.ScanNone([]);
    assert u3 + [] == u3;
    assert u2 + u3 == b2 + ['.'] + u3;
    assert u1 + (u2 + u3) == u1 + u2 + u3;
    var p := Chunker.IsTerminatorFn;
    ThreeRuns(u1, u2, u3, p);
    TerminatedRun(b1, '.', p);
    TerminatedRun(b2, '.', p);
    TerminatedRun(b3, '.', p);
  }

  lemma WindowsOfThree(x: string, y: string, z: string)
    ensures WindowsBefore([x, y, z], 2) == [Join([x, y], ' '), Join([x, y, z], ' '), Join([y, z], ' ')]
  {
    var w := [x, y, z];
    assert w[0..2] == [x, y] && w[0..3] == [x, y, z] && w[1..3] == [y, z];
    assert WindowsBefore(w, 1) == WindowsAt(w, 0);
  }

  lemma WindowsOfFive(v: string, w: string, x: string, y: string, z: string)
    ensures WindowsBefore([v, w, x, y, z], 4) ==
            [Join([v, w], ' '), Join([v, w, x], ' '), Join([w, x], ' '), Join([w, x, y], ' '),
             Join([x, y], ' '), Join([x, y, z], ' '), Join([y, z], ' ')]
  {
    var s := [v, w, x, y, z];
    assert s[0..2] == [v, w] && s[0..3] == [v, w, x];
    assert s[1..3] == [w, x] && s[1..4] == [w, x, y];
    assert s[2..4] == [x, y] && s[2..5] == [x, y, z];
    assert s[3..5] == [y, z];
    assert WindowsBefore(s, 1) == WindowsAt(s, 0);
    assert WindowsBefore(s, 2) == WindowsAt(s, 0) + WindowsAt(s, 1);
    assert WindowsBefore(s, 3) == WindowsAt(s, 0) + WindowsAt(s, 1) + WindowsAt(s, 2);
    assert WindowsAt(s, 3) == [Join([y, z], ' ')];
  }

  lemma OccurrencesOfThree(u1: string, u2: string, u3: string)
    ensures Occurrences([u1, u2, u3]) == SentenceWindows(u1) + SentenceWindows(u2) + SentenceWindows(u3)
  {
    assert [u1, u2, u3][..2] == [u1, u2];
    assert [u1, u2][..1] == [u1];
    assert [u1][..0] == [];
    assert Occurrences([u1]) == SentenceWindows(u1);
    assert Occurrences([u1, u2]) == SentenceWindows(u1) + SentenceWindows(u2);
  }

  lemma {:induction false} CountInAppend(a: seq<string>, b: seq<string>, lexicon: seq<string>)
    ensures Metrics.CountIn(a + b, lexicon) == Metrics.CountIn(a, lexicon) + Metrics.CountIn(b, lexicon)
    decreases |b|
  {
    if b == [] {
      assert a + b == a;
    } else {
      var init := b[..|b| - 1];
      CountInAppend(a, init, lexicon);
      assert (a + b)[..|a + b| - 1] == a + init;
    }
  }

  lemma {:induction false} CountInNone(ws: seq<string>, lexicon: seq<string>)
    requires forall k :: 0 <= k < |ws| ==> ws[k] !in lexicon
    ensures Metrics.CountIn(ws, lexicon) == 0
  {
    if ws != [] {
      CountInNone(ws[..|ws| - 1], lexicon);
    }
  }

  lemma CountInOne(ws: seq<string>, lexicon: seq<string>, k: nat)
    requires k < |ws| && ws[k] in lexicon
    requires forall j :: 0 <= j < |ws| && j != k ==> ws[j] !in lexicon
    ensures Metrics.CountIn(ws, lexicon) == 1
  {
    var pre, post := ws[..k], ws[k + 1..];
    assert ws == pre + [ws[k]] + post;
    CountInNone(pre, lexicon);
    CountInNone(post, lexicon);
    CountInAppend(pre + [ws[k]], post, lexicon);
    CountInAppend(pre, [ws[k]], lexicon);
    assert [ws[k]][..0] == [];
  }

  // ------------------------------------------------------------------
  // Repeated phrases
  // ------------------------------------------------------------------

  /** The table entries counted more than once, in key order. */
  function FrequentOf(ps: seq<string>): seq<Entry> {
    TallyCounted(ps);
    Frequent(Entries(Tally(ps)))
  }

  lemma {:induction false} FrequentSnoc(es: seq<Entry>, e: Entry)
    ensures Frequent(es + [e]) == Frequent(es) + (if e.1 > 1 then [e] else [])
  {
    if es == [] {
      assert [] + [e] == [e];
    } else {
      assert (es + [e])[1..] == es[1..] + [e];
      FrequentSnoc(es[1..], e);
    }
  }

  /** A phrase seen for the first time adds an entry of count 1 at the end of
      the table, which the filter drops. */
  lemma FreshPhrase(q: seq<string>, x: string)
    requires x !in q
    ensures FrequentOf(q + [x]) == FrequentOf(q)
  {
    var t := Tally(q);
    assert x !in t.counts by {
      TallyMeaning(q);
    }
    TallySnoc(q, x);
    TallyCounted(q);
    EntriesFresh(t, x, Tally(q + [x]));
    FrequentSnoc(Entries(t), (x, 1));
  }

  /** Recording a new key appends its entry, counted once. */
  lemma EntriesFresh(t: Table, x: string, t': Table)
    requires Listed(t) && x !in t.counts && t' == Record(t, x)
    ensures Listed(t') && Entries(t') == Entries(t) + [(x, 1)]
  {
    assert t' == Table(t.order + [x], t.counts[x := 1]);
    forall k | 0 <= k < |t'.order| ensures t'.order[k] in t'.counts {
      if k < |t.order| {
        assert t'.order[k] == t.order[k];
      }
    }
    var es, es' := Entries(t), Entries(t');
    forall k | 0 <= k < |es'| ensures es'[k] == (es + [(x, 1)])[k] {
      if k < |es| {
        assert t'.order[k] == t.order[k] && t.order[k] in t.counts;
      }
    }
  }

  /** Phrases each seen for the first time leave the repeated entries alone. */
  lemma {:induction false} FreshTail(q: seq<string>, r: seq<string>)
    requires forall k :: 0 <= k < |r| ==> r[k] !in q && r[k] !in r[..k]
    ensures FrequentOf(q + r) == FrequentOf(q)
    decreases |r|
  {
    if r != [] {
      var init := r[..|r| - 1];
      FreshPrefix(q, r);
      FreshTail(q, init);
      FreshPhrase(q + init, r[|r| - 1]);
      SnocSplit(q, r);
    } else {
      assert q + r == q;
    }
  }

  /** The fresh-phrase condition passes to the stream without its last phrase,
      and that last phrase is fresh for the rest. */
  lemma FreshPrefix<T>(q: seq<T>, r: seq<T>)
    requires r != []
    requires forall k :: 0 <= k < |r| ==> r[k] !in q && r[k] !in r[..k]
    ensures var init := r[..|r| - 1];
      forall k :: 0 <= k < |init| ==> init[k] !in q && init[k] !in init[..k]
    ensures r[|r| - 1] !in q + r[..|r| - 1]
  {
    var init := r[..|r| - 1];
    forall k | 0 <= k < |init| ensures init[k] !in q && init[k] !in init[..k] {
      assert init[k] == r[k] && init[..k] == r[..k];
    }
  }

  lemma SnocSplit<T>(q: seq<T>, r: seq<T>)
    requires r != []
    ensures q + r[..|r| - 1] + [r[|r| - 1]] == q + r
  {
  }

  /** Counting a phrase on top of a known table. */
  lemma TallyStep(ps: seq<string>, p: string, t: Table)
    requires Tally(ps) == t
    ensures Tally(ps + [p]) == Record(t, p)
  {
    TallySnoc(ps, p);
  }

  lemma TallyOnce(a: string, b: string, c: string)
    requires a != b && b != c && a != c
    ensures Tally([a, b, c]) == Table([a, b, c], map[a := 1, b := 1, c := 1])
  {
    TallyStep([], a, Table([], map[]));
    assert [] + [a] == [a];
    TallyStep([a], b, Table([a], map[a := 1]));
    assert [a] + [b] == [a, b];
    TallyStep([a, b], c, Table([a, b], map[a := 1, b := 1]));
    assert [a, b] + [c] == [a, b, c];
  }

  lemma TallyTriple(a: string, b: string, c: string)
    requires a != b && b != c && a != c
    ensures Tally([a, b, c, a, b, c]) == Table([a, b, c], map[a := 2, b := 2, c := 2])
  {
    var o := [a, b, c];
    TallyOnce(a, b, c);
    TallyStep(o, a, Table(o, map[a := 1, b := 1, c := 1]));
    assert o + [a] == [a, b, c, a];
    TallyStep([a, b, c, a], b, Table(o, map[a := 2, b := 1, c := 1]));
    assert [a, b, c, a] + [b] == [a, b, c, a, b];
    TallyStep([a, b, c, a, b], c, Table(o, map[a := 2, b := 2, c := 1]));
    assert [a, b, c, a, b] + [c] == [a, b, c, a, b, c];
  }

  lemma EntriesTriple(a: string, b: string, c: string)
    ensures Listed(Table([a, b, c], map[a := 2, b := 2, c := 2]))
    ensures Entries(Table([a, b, c], map[a := 2, b := 2, c := 2])) == [(a, 2), (b, 2), (c, 2)]
  {
  }

  /** Entries all counted more than once pass the filter unchanged. */
  lemma {:induction false} FrequentAll(es: seq<Entry>)
    requires forall k :: 0 <= k < |es| ==> es[k].1 > 1
    ensures Frequent(es) == es
  {
    if es != [] {
      FrequentAll(es[1..]);
      assert [es[0]] + es[1..] == es;
    }
  }

  lemma RepeatedTriple(a: string, b: string, c: string)
    requires a != b && b != c && a != c
    ensures FrequentOf([a, b, c, a, b, c]) == [(a, 2), (b, 2), (c, 2)]
  {
    TallyTriple(a, b, c);
    EntriesTriple(a, b, c);
    FrequentAll([(a, 2), (b, 2), (c, 2)]);
  }

  /** All entries counted equally: the stable sort keeps them in key order. */
  lemma SortEqualCounts(es: seq<Entry>, c: nat)
    requires forall k :: 0 <= k < |es| ==> es[k].1 == c
    ensures SortByCount(es) == es
  {
    SortByCountCorrect(es);
    var sorted := SortByCount(es);
    forall k | 0 <= k < |sorted| ensures sorted[k].1 == c {
      assert sorted[k] in multiset(sorted);
      assert sorted[k] in es;
    }
    AllWithCount(es, c);
    AllWithCount(sorted, c);
  }

  lemma {:induction false} AllWithCount(es: seq<Entry>, c: nat)
    requires forall k :: 0 <= k < |es| ==> es[k].1 == c
    ensures WithCount(es, c) == es
  {
    if es != [] {
      AllWithCount(es[1..], c);
      assert [es[0]] + es[1..] == es;
    }
  }

  lemma RankedStream(a: string, b: string, c: string, r: seq<string>)
    requires a != b && b != c && a != c
    requires forall k :: 0 <= k < |r| ==> r[k] !in [a, b, c] && r[k] !in r[..k]
    ensures RankedOf([a, b, c, a, b, c] + r) == [(a, 2), (b, 2), (c, 2)]
  {
    var q := [a, b, c, a, b, c];
    RepeatedTriple(a, b, c);
    assert forall k :: 0 <= k < |r| ==> r[k] !in q;
    FreshTail(q, r);
    SortEqualCounts([(a, 2), (b, 2), (c, 2)], 2);
  }

  // ------------------------------------------------------------------
  // The sample
  // ------------------------------------------------------------------

  /** The three sentences of the sample text. */
  ghost predicate SampleUnits(u1: string, u2: string, u3: string) {
    u1 == "I love this." && u2 == " I love this a lot." && u3 == " This is great."
  }

  lemma SampleSentences(u1: string, u2: string, u3: string)
    requires SampleUnits(u1, u2, u3)
    ensures Chunker.SentenceUnits(u1 + u2 + u3) == [u1, u2, u3]
    ensures Metrics.SentenceCount(u1 + u2 + u3) == 3
  {
    var b1, b2, b3 := u1[..|u1| - 1], u2[..|u2| - 1], u3[..|u3| - 1];
    assert u1 == b1 + ['.'] && u2 == b2 + ['.'] && u3 == b3 + ['.'];
    assert NoStop(b1) && NoStop(b2) && NoStop(b3);
    ThreeUnits(b1, b2, b3);
  }

  lemma Tokens1(u: string)
    requires u == "I love this."
    ensures Runs(u, NotSpace) == ["I", "love", "this."]
  {
    assert u == [] + Join(["I", "love", "this."], ' ');
    UnitTokens([], ["I", "love", "this."]);
  }

  lemma Tokens2(u: string)
    requires u == " I love this a lot."
    ensures Runs(u, NotSpace) == ["I", "love", "this", "a", "lot."]
  {
    assert u == " " + Join(["I", "love", "this", "a", "lot."], ' ');
    UnitTokens(" ", ["I", "love", "this", "a", "lot."]);
  }

  lemma Tokens3(u: string)
    requires u == " This is great."
    ensures Runs(u, NotSpace) == ["This", "is", "great."]
  {
    assert u == " " + Join(["This", "is", "great."], ' ');
    UnitTokens(" ", ["This", "is", "great."]);
  }

  lemma SampleWordCount(u1: string, u2: string, u3: string)
    requires SampleUnits(u1, u2, u3)
    ensures Metrics.WordCount(u1 + u2 + u3) == 11
  {
    Tokens1(u1);
    Tokens2(u2);
    Tokens3(u3);
    ThreeRuns(u1, u2, u3, NotSpace);
  }

  lemma Words1(u: string)
    requires u == "I love this."
    ensures WordsOf(u) == ["i", "love", "this"]
  {
    UnitWords(u, [], ["i", "love", "this"]);
  }

  lemma Words2(u: string)
    requires u == " I love this a lot."
    ensures WordsOf(u) == ["i", "love", "this", "a", "lot"]
  {
    UnitWords(u, " ", ["i", "love", "this", "a", "lot"]);
  }

  lemma Words3(u: string)
    requires u == " This is great."
    ensures WordsOf(u) == ["this", "is", "great"]
  {
    UnitWords(u, " ", ["this", "is", "great"]);
  }

  lemma SampleWords(u1: string, u2: string, u3: string)
    requires SampleUnits(u1, u2, u3)
    ensures WordsOf(u1) == ["i", "love", "this"]
    ensures WordsOf(u2) == ["i", "love", "this", "a", "lot"]
    ensures WordsOf(u3) == ["this", "is", "great"]
    ensures WordsOf(u1 + u2 + u3) == ["i", "love", "this", "i", "love", "this", "a", "lot", "this", "is", "great"]
  {
    Words1(u1);
    Words2(u2);
    Words3(u3);
    WordsOfThree(u1, u2, u3);
  }

  lemma SampleDistinct(words: seq<string>)
    requires words == ["i", "love", "this", "i", "love", "this", "a", "lot", "this", "is", "great"]
    ensures |set w | w in words| == 7
  {
    assert (set w | w in words) == {"i", "love", "this", "a", "lot", "is", "great"};
    SevenWords();
  }

  lemma SevenWords()
    ensures |{"i", "love", "this", "a", "lot", "is", "great"}| == 7
  {
  }

  lemma Positive1(ws: seq<string>)
    requires ws == ["i", "love", "this"] || ws == ["i", "love", "this", "a", "lot"]
    ensures Metrics.CountIn(ws, Metrics.PositiveWords) == 1
  {
    assert Metrics.PositiveWords[6] == "love";
    CountInOne(ws, Metrics.PositiveWords, 1);
  }

  lemma Positive3(ws: seq<string>)
    requires ws == ["this", "is", "great"]
    ensures Metrics.CountIn(ws, Metrics.PositiveWords) == 1
  {
    assert Metrics.PositiveWords[1] == "great";
    CountInOne(ws, Metrics.PositiveWords, 2);
  }

  lemma SampleCounts(w1: seq<string>, w2: seq<string>, w3: seq<string>)
    requires w1 == ["i", "love", "this"] && w2 == ["i", "love", "this", "a", "lot"] && w3 == ["this", "is", "great"]
    ensures Metrics.CountIn(w1 + w2 + w3, Metrics.PositiveWords) == 3
  {
    Positive1(w1);
    Positive1(w2);
    Positive3(w3);
    CountInAppend(w1 + w2, w3, Metrics.PositiveWords);
    CountInAppend(w1, w2, Metrics.PositiveWords);
  }

  lemma NoMarkers(ws: seq<string>)
    requires ws == ["i", "love", "this", "i", "love", "this", "a", "lot", "this", "is", "great"]
    ensures Metrics.CountIn(ws, Metrics.FormalMarkers) == 0
    ensures Metrics.CountIn(ws, Metrics.InformalMarkers) == 0
  {
    CountInNone(ws, Metrics.FormalMarkers);
    CountInNone(ws, Metrics.InformalMarkers);
  }

  lemma Windows1(u: string)
    requires WordsOf(u) == ["i", "love", "this"]
    ensures SentenceWindows(u) == ["i love", "i love this", "love this"]
  {
    WindowsOfThree("i", "love", "this");
    assert Join(["i", "love"], ' ') == "i love";
    assert Join(["i", "love", "this"], ' ') == "i love this";
    assert Join(["love", "this"], ' ') == "love this";
  }

  lemma Windows2(u: string)
    requires WordsOf(u) == ["i", "love", "this", "a", "lot"]
    ensures SentenceWindows(u) == ["i love", "i love this", "love this", "love this a", "this a", "this a lot", "a lot"]
  {
    WindowsOfFive("i", "love", "this", "a", "lot");
    assert Join(["i", "love"], ' ') == "i love";
    assert Join(["i", "love", "this"], ' ') == "i love this";
    assert Join(["love", "this"], ' ') == "love this";
    assert Join(["love", "this", "a"], ' ') == "love this a";
    assert Join(["this", "a"], ' ') == "this a";
    assert Join(["this", "a", "lot"], ' ') == "this a lot";
    assert Join(["a", "lot"], ' ') == "a lot";
  }

  lemma Windows3(u: string)
    requires WordsOf(u) == ["this", "is", "great"]
    ensures SentenceWindows(u) == ["this is", "this is great", "is great"]
  {
    WindowsOfThree("this", "is", "great");
    assert Join(["this", "is"], ' ') == "this is";
    assert Join(["this", "is", "great"], ' ') == "this is great";
    assert Join(["is", "great"], ' ') == "is great";
  }

  lemma SampleStream(u1: string, u2: string, u3: string, r: seq<string>)
    requires SampleUnits(u1, u2, u3)
    requires r == ["love this a", "this a", "this a lot", "a lot", "this is", "this is great", "is great"]
    ensures Occurrences(Chunker.SentenceUnits(u1 + u2 + u3)) ==
            ["i love", "i love this", "love this", "i love", "i love this", "love this"] + r
  {
    assert Chunker.SentenceUnits(u1 + u2 + u3) == [u1, u2, u3] by {
      SampleSentences(u1, u2, u3);
    }
    OccurrencesOfThree(u1, u2, u3);
    SampleWindows(u1, u2, u3);
    StreamShape(SentenceWindows(u1), SentenceWindows(u2), SentenceWindows(u3), r);
  }

  lemma SampleWindows(u1: string, u2: string, u3: string)
    requires SampleUnits(u1, u2, u3)
    ensures SentenceWindows(u1) == ["i love", "i love this", "love this"]
    ensures SentenceWindows(u2) == ["i love", "i love this", "love this", "love this a", "this a", "this a lot", "a lot"]
    ensures SentenceWindows(u3) == ["this is", "this is great", "is great"]
  {
    SampleWords(u1, u2, u3);
    Windows1(u1);
    Windows2(u2);
    Windows3(u3);
  }

  lemma StreamShape(s1: seq<string>, s2: seq<string>, s3: seq<string>, r: seq<string>)
    requires s1 == ["i love", "i love this", "love this"]
    requires s2 == ["i love", "i love this", "love this", "love this a", "this a", "this a lot", "a lot"]
    requires s3 == ["this is", "this is great", "is great"]
    requires r == ["love this a", "this a", "this a lot", "a lot", "this is", "this is great", "is great"]
    ensures s1 + s2 + s3 == ["i love", "i love this", "love this", "i love", "i love this", "love this"] + r
  {
  }

  lemma SampleRanked(r: seq<string>)
    requires r == ["love this a", "this a", "this a lot", "a lot", "this is", "this is great", "is great"]
    ensures RankedOf(["i love", "i love this", "love this", "i love", "i love this", "love this"] + r) ==
            [("i love", 2), ("i love this", 2), ("love this", 2)]
  {
    RankedStream("i love", "i love this", "love this", r);
  }

  lemma SampleRankedText(u1: string, u2: string, u3: string)
    requires SampleUnits(u1, u2, u3)
    ensures Ranked(u1 + u2 + u3) == [("i love", 2), ("i love this", 2), ("love this", 2)]
  {
    var r := ["love this a", "this a", "this a lot", "a lot", "this is", "this is great", "is great"];
    SampleStream(u1, u2, u3, r);
    SampleRanked(r);
  }

  lemma SampleLabels(ranked: seq<Entry>)
    requires ranked == [("i love", 2), ("i love this", 2), ("love this", 2)]
    ensures Labels(ranked) == ["I love", "I love this", "Love this"]
  {
    assert Capitalize("i love") == "I love";
    assert Capitalize("i love this") == "I love this";
    assert Capitalize("love this") == "Love this";
  }

  lemma SamplePhrases(u1: string, u2: string, u3: string)
    requires SampleUnits(u1, u2, u3)
    ensures CommonPhrases(u1 + u2 + u3) == ["I love", "I love this", "Love this"]
  {
    SampleRankedText(u1, u2, u3);
    SampleLabels(Ranked(u1 + u2 + u3));
  }

  lemma SampleAverage(u1: string, u2: string, u3: string)
    requires SampleUnits(u1, u2, u3)
    ensures Metrics.AvgSentenceLength(u1 + u2 + u3) == 4
  {
    SampleSentences(u1, u2, u3);
    SampleWordCount(u1, u2, u3);
    assert Metrics.Round(11, 3) == 4;
  }

  lemma SampleUnique(u1: string, u2: string, u3: string)
    requires SampleUnits(u1, u2, u3)
    ensures Metrics.UniqueWords(u1 + u2 + u3) == 7
  {
    SampleWords(u1, u2, u3);
    SampleDistinct(WordsOf(u1 + u2 + u3));
  }

  lemma SampleTone(u1: string, u2: string, u3: string)
    requires SampleUnits(u1, u2, u3)
    ensures Metrics.PositiveTone(u1 + u2 + u3) == 27
  {
    SampleWordCount(u1, u2, u3);
    SampleWords(u1, u2, u3);
    var w1, w2, w3 := WordsOf(u1), WordsOf(u2), WordsOf(u3);
    assert WordsOf(u1 + u2 + u3) == w1 + w2 + w3;
    SampleCounts(w1, w2, w3);
    assert Metrics.Round(300, 11) == 27;
  }

  lemma SampleFormality(u1: string, u2: string, u3: string)
    requires SampleUnits(u1, u2, u3)
    ensures Metrics.FormalityLevel(Metrics.FormalityScore(WordsOf(u1 + u2 + u3)), Metrics.WordCount(u1 + u2 + u3)) == 5.0
  {
    var words := WordsOf(u1 + u2 + u3);
    SampleWords(u1, u2, u3);
    NoMarkers(words);
    Metrics.FormalityScoreCounts(words);
  }

  /** `analyzeTextMetrics` on the sample text "I love this. I love this a lot.
      This is great.", split into its three sentences. */
  lemma SampleMetrics(u1: string, u2: string, u3: string)
    requires SampleUnits(u1, u2, u3)
    ensures Metrics.MetricsOf(u1 + u2 + u3) == Metrics.Metrics(4, 7, 27, 5.0, ["I love", "I love this", "Love this"])
  {
    SampleAverage(u1, u2, u3);
    SampleUnique(u1, u2, u3);
    SampleTone(u1, u2, u3);
    SampleFormality(u1, u2, u3);
    SamplePhrases(u1, u2, u3);
  }

  /** The same, stated on the text itself. */
  lemma SampleTextMetrics(text: string)
    requires text == "I love this. I love this a lot. This is great."
    ensures Metrics.MetricsOf(text) == Metrics.Metrics(4, 7, 27, 5.0, ["I love", "I love this", "Love this"])
  {
    var u1, u2, u3 := "I love this.", " I love this a lot.", " This is great.";
    SampleTextSplit(text, u1, u2, u3);
    SampleMetrics(u1, u2, u3);
  }

  lemma SampleTextSplit(text: string, u1: string, u2: string, u3: string)
    requires text == "I love this. I love this a lot. This is great."
    requires SampleUnits(u1, u2, u3)
    ensures text == u1 + u2 + u3
  {
  }
}
