/**
  Repeated two- and three-word phrases of a writing sample
  (`findCommonPhrases` in the sample handler).

  Each sentence unit is lower-cased and cut into its maximal `\w` runs; every
  window of two and of three consecutive words in one unit is counted in a
  table whose key order is first-seen order (the keys contain a space, so
  none is an integer-like property name that JavaScript would list first,
  and none names an inherited property). The table entries counted more
  than once are then sorted by count, highest first, and upper-cased at
  their first character. `Array.prototype.sort` is stable, so the ranking is
  the one stable sort by descending count; it is modelled here by insertion
  sort.
*/
module Phrases {
  import opened Text
  import Chunker

  // ------------------------------------------------------------------
  // The phrase stream
  // ------------------------------------------------------------------

  /** `sentence.toLowerCase().match(/\b\w+\b/g) || []` */
  function WordsOf(sentence: string): (words: seq<string>)
    ensures forall k :: 0 <= k < |words| ==> words[k] != []
  {
    Runs(Lower(sentence), IsWordChar)
  }

  /** `words.length - 1` floored at 0: how many start positions the loop visits. */
  function Starts(words: seq<string>): nat {
    if |words| >= 1 then |words| - 1 else 0
  }

  /** The phrases the loop body counts at start position `i`: the pair, and the
      triple when a third word follows. */
  function WindowsAt(words: seq<string>, i: nat): (ps: seq<string>)
    requires i + 1 < |words|
    ensures 1 <= |ps| <= 2
    ensures ps[0] == Join(words[i..i + 2], ' ')
    ensures |ps| == 2 <==> i + 2 < |words|
    ensures |ps| == 2 ==> ps[1] == Join(words[i..i + 3], ' ')
  {
    [Join(words[i..i + 2], ' ')] + (if i + 2 < |words| then [Join(words[i..i + 3], ' ')] else [])
  }

  /** The phrases counted at start positions below `i`, in counting order. */
  function WindowsBefore(words: seq<string>, i: nat): seq<string>
    requires i <= Starts(words)
  {
    if i == 0 then [] else WindowsBefore(words, i - 1) + WindowsAt(words, i - 1)
  }

  /** All phrases one sentence unit contributes, in counting order. */
  function SentenceWindows(sentence: string): seq<string> {
    var words := WordsOf(sentence);
    WindowsBefore(words, Starts(words))
  }

  /** All phrases the sentence units contribute, in counting order. */
  function Occurrences(sentences: seq<string>): seq<string> {
    if sentences == [] then []
    else Occurrences(sentences[..|sentences| - 1]) + SentenceWindows(sentences[|sentences| - 1])
  }

  /** `p` is two or three consecutive words of `words`, joined by a space. */
  ghost predicate IsWindow(p: string, words: seq<string>) {
    exists i: nat, n: nat :: 2 <= n <= 3 && i + n <= |words| && p == Window(words, i, n)
  }

  /** `words.slice(i, i + n).join(' ')` */
  function Window(words: seq<string>, i: nat, n: nat): string
    requires i + n <= |words|
  {
    Join(words[i..i + n], ' ')
  }

  lemma {:induction false} WindowsBeforeAreWindows(words: seq<string>, i: nat)
    requires i <= Starts(words)
    ensures forall k :: 0 <= k < |WindowsBefore(words, i)| ==> IsWindow(WindowsBefore(words, i)[k], words)
  {
    if i > 0 {
      WindowsBeforeAreWindows(words, i - 1);
      var prev := WindowsBefore(words, i - 1);
      var at := WindowsAt(words, i - 1);
      assert IsWindow(at[0], words) by {
        assert at[0] == Window(words, i - 1, 2);
      }
      if |at| == 2 {
        assert IsWindow(at[1], words) by {
          assert at[1] == Window(words, i - 1, 3);
        }
      }
      var all := WindowsBefore(words, i);
      assert all == prev + at;
      forall k | 0 <= k < |all| ensures IsWindow(all[k], words) {
        if k < |prev| {
          assert all[k] == prev[k];
        } else {
          assert all[k] == at[k - |prev|];
        }
      }
    }
  }

  /** Windows never cross sentence units: every phrase counted is two or three
      consecutive words of a single unit. */
  lemma {:induction false} OccurrencesWithinUnits(sentences: seq<string>)
    ensures forall k :: 0 <= k < |Occurrences(sentences)| ==>
              exists m :: 0 <= m < |sentences| && IsWindow(Occurrences(sentences)[k], WordsOf(sentences[m]))
  {
    if sentences != [] {
      var init := sentences[..|sentences| - 1];
      var last := sentences[|sentences| - 1];
      OccurrencesWithinUnits(init);
      var words := WordsOf(last);
      WindowsBeforeAreWindows(words, Starts(words));
      var prev := Occurrences(init);
      var mine := SentenceWindows(last);
      var all := Occurrences(sentences);
      assert all == prev + mine;
      forall k | 0 <= k < |all|
        ensures exists m :: 0 <= m < |sentences| && IsWindow(all[k], WordsOf(sentences[m]))
      {
        if k < |prev| {
          assert all[k] == prev[k];
          var m :| 0 <= m < |init| && IsWindow(prev[k], WordsOf(init[m]));
          assert sentences[m] == init[m];
          assert IsWindow(all[k], WordsOf(sentences[m]));
        } else {
          assert all[k] == mine[k - |prev|];
          assert mine == WindowsBefore(words, Starts(words));
          var m := |sentences| - 1;
          assert sentences[m] == last;
          assert IsWindow(all[k], WordsOf(sentences[m]));
        }
      }
    } else {
      assert Occurrences(sentences) == [];
    }
  }

  // ------------------------------------------------------------------
  // The count table `phraseCounts`
  // ------------------------------------------------------------------

  /** `phraseCounts`: its keys in insertion order, and their counts. */
  datatype Table = Table(order: seq<string>, counts: map<string, nat>)

  /** `phraseCounts[p] = (phraseCounts[p] || 0) + 1` */
  function Record(t: Table, p: string): Table {
    if p in t.counts then Table(t.order, t.counts[p := t.counts[p] + 1])
    else Table(t.order + [p], t.counts[p := 1])
  }

  /** The table after counting `ps` from an empty one. */
  function Tally(ps: seq<string>): Table {
    if ps == [] then Table([], map[])
    else Record(Tally(ps[..|ps| - 1]), ps[|ps| - 1])
  }

  lemma TallySnoc(ps: seq<string>, p: string)
    ensures Tally(ps + [p]) == Record(Tally(ps), p)
  {
    assert (ps + [p])[..|ps|] == ps;
  }

  /** Position of the first occurrence of `p` in `ps`. */
  function FirstIndex(ps: seq<string>, p: string): (i: nat)
    requires p in ps
    ensures i < |ps| && ps[i] == p
    ensures forall j :: 0 <= j < i ==> ps[j] != p
  {
    if ps[0] == p then 0 else 1 + FirstIndex(ps[1..], p)
  }

  lemma FirstIndexSnoc(ps: seq<string>, q: string, p: string)
    requires p in ps
    ensures FirstIndex(ps + [q], p) == FirstIndex(ps, p)
  {
    var i := FirstIndex(ps, p);
    var j := FirstIndex(ps + [q], p);
    assert (ps + [q])[i] == p;
    assert j < |ps| ==> ps[j] == p;
  }

  /** The counts of the table are the numbers of occurrences in `ps`. */
  ghost predicate CountsOf(t: Table, ps: seq<string>) {
    && (forall p :: p in t.counts <==> p in ps)
    && (forall p :: p in t.counts ==> t.counts[p] == multiset(ps)[p])
  }

  /** The key order of the table lists every key once, in order of first
      occurrence in `ps`. */
  ghost predicate OrderOf(t: Table, ps: seq<string>) {
    && (forall k :: 0 <= k < |t.order| ==> t.order[k] in t.counts && t.order[k] in ps)
    && (forall p :: p in t.counts ==> p in t.order)
    && (forall k, l :: 0 <= k < l < |t.order| ==> FirstIndex(ps, t.order[k]) < FirstIndex(ps, t.order[l]))
  }

  /** What the table means: its keys are the distinct phrases counted, listed
      once each in order of first occurrence, and each count is the number of
      occurrences. */
  ghost predicate Tallies(t: Table, ps: seq<string>) {
    CountsOf(t, ps) && OrderOf(t, ps)
  }

  lemma RecordCounts(t: Table, ps: seq<string>, p: string)
    requires CountsOf(t, ps)
    ensures CountsOf(Record(t, p), ps + [p])
  {
    assert multiset(ps + [p]) == multiset(ps) + multiset{p};
  }

  lemma RecordOrder(t: Table, ps: seq<string>, p: string)
    requires CountsOf(t, ps) && OrderOf(t, ps)
    ensures OrderOf(Record(t, p), ps + [p])
  {
    var ps' := ps + [p];
    forall q | q in ps ensures FirstIndex(ps', q) == FirstIndex(ps, q) {
      FirstIndexSnoc(ps, p, q);
    }
    if p in ps {
      RecordOrderSeen(t, ps, p);
    } else {
      RecordOrderNew(t, ps, p);
    }
  }

  lemma RecordOrderSeen(t: Table, ps: seq<string>, p: string)
    requires CountsOf(t, ps) && OrderOf(t, ps) && p in ps
    requires forall q :: q in ps ==> FirstIndex(ps + [p], q) == FirstIndex(ps, q)
    ensures OrderOf(Record(t, p), ps + [p])
  {
    assert Record(t, p).order == t.order;
    assert Record(t, p).counts.Keys == t.counts.Keys;
  }

  lemma RecordOrderNew(t: Table, ps: seq<string>, p: string)
    requires CountsOf(t, ps) && OrderOf(t, ps) && p !in ps
    requires forall q :: q in ps ==> FirstIndex(ps + [p], q) == FirstIndex(ps, q)
    ensures OrderOf(Record(t, p), ps + [p])
  {
    var ps' := ps + [p];
    var t' := Record(t, p);
    assert FirstIndex(ps', p) == |ps|;
    assert t'.order == t.order + [p];
    forall k, l | 0 <= k < l < |t'.order|
      ensures FirstIndex(ps', t'.order[k]) < FirstIndex(ps', t'.order[l])
    {
      if l < |t.order| {
        assert t'.order[k] == t.order[k] && t'.order[l] == t.order[l];
      } else {
        assert t'.order[k] == t.order[k];
      }
    }
  }

  /** The table built by counting `ps` is the table of `ps`. */
  lemma {:induction false} TallyMeaning(ps: seq<string>)
    ensures Tallies(Tally(ps), ps)
  {
    if ps != [] {
      var init := ps[..|ps| - 1];
      TallyMeaning(init);
      RecordCounts(Tally(init), init, ps[|ps| - 1]);
      RecordOrder(Tally(init), init, ps[|ps| - 1]);
      assert init + [ps[|ps| - 1]] == ps;
    }
  }

  // ------------------------------------------------------------------
  // Filter, stable sort by count, capitalisation
  // ------------------------------------------------------------------

  type Entry = (string, nat)

  predicate Listed(t: Table) {
    forall k :: 0 <= k < |t.order| ==> t.order[k] in t.counts
  }

  /** `Object.entries(phraseCounts)` */
  function Entries(t: Table): (es: seq<Entry>)
    requires Listed(t)
    ensures |es| == |t.order|
    ensures forall k :: 0 <= k < |es| ==> es[k] == (t.order[k], t.counts[t.order[k]])
  {
    seq(|t.order|, k requires 0 <= k < |t.order| => (t.order[k], t.counts[t.order[k]]))
  }

  /** `.filter(([_, count]) => count > 1)` */
  function Frequent(es: seq<Entry>): (fs: seq<Entry>)
    ensures forall k :: 0 <= k < |fs| ==> fs[k] in es && fs[k].1 > 1
    ensures forall e :: e in es && e.1 > 1 ==> e in fs
  {
    if es == [] then []
    else (if es[0].1 > 1 then [es[0]] else []) + Frequent(es[1..])
  }

  /** Counts never increase along `es`. */
  predicate ByCount(es: seq<Entry>) {
    forall i, j :: 0 <= i < j < |es| ==> es[i].1 >= es[j].1
  }

  /** The entries of `es` whose count is `c`, in order. */
  function WithCount(es: seq<Entry>, c: nat): seq<Entry> {
    if es == [] then []
    else (if es[0].1 == c then [es[0]] else []) + WithCount(es[1..], c)
  }

  lemma {:induction false} WithCountSnoc(es: seq<Entry>, e: Entry, c: nat)
    ensures WithCount(es + [e], c) == WithCount(es, c) + (if e.1 == c then [e] else [])
  {
    if es != [] {
      assert (es + [e])[0] == es[0] && (es + [e])[1..] == es[1..] + [e];
      WithCountSnoc(es[1..], e, c);
    } else {
      assert es + [e] == [e];
    }
  }

  /** `e` placed after every entry of `sorted` whose count is at least its own. */
  function Insert(sorted: seq<Entry>, e: Entry): (r: seq<Entry>)
    ensures |r| == |sorted| + 1
    ensures multiset(r) == multiset(sorted) + multiset{e}
  {
    if sorted == [] then [e]
    else
      assert sorted == [sorted[0]] + sorted[1..];
      if sorted[0].1 >= e.1 then [sorted[0]] + Insert(sorted[1..], e)
      else [e] + sorted
  }

  lemma {:induction false} InsertByCount(sorted: seq<Entry>, e: Entry)
    requires ByCount(sorted)
    ensures ByCount(Insert(sorted, e))
  {
    if sorted != [] && sorted[0].1 >= e.1 {
      var tail := sorted[1..];
      var rest := Insert(tail, e);
      InsertByCount(tail, e);
      forall j | 0 <= j < |rest| ensures rest[j].1 <= sorted[0].1 {
        assert rest[j] in multiset(rest);
        if rest[j] != e {
          assert rest[j] in multiset(tail);
          var m :| 0 <= m < |tail| && tail[m] == rest[j];
          assert sorted[m + 1] == rest[j];
        }
      }
      ConsByCount(sorted[0], rest);
    }
  }

  lemma ConsByCount(x: Entry, rest: seq<Entry>)
    requires ByCount(rest)
    requires forall j :: 0 <= j < |rest| ==> rest[j].1 <= x.1
    ensures ByCount([x] + rest)
  {
    var r := [x] + rest;
    forall i, j | 0 <= i < j < |r| ensures r[i].1 >= r[j].1 {
      assert r[j] == rest[j - 1];
      assert i > 0 ==> r[i] == rest[i - 1];
    }
  }

  lemma {:induction false} InsertWithCount(sorted: seq<Entry>, e: Entry, c: nat)
    requires ByCount(sorted)
    ensures WithCount(Insert(sorted, e), c) == WithCount(sorted, c) + (if e.1 == c then [e] else [])
  {
    if sorted != [] {
      var r := Insert(sorted, e);
      if sorted[0].1 >= e.1 {
        var rest := Insert(sorted[1..], e);
        var tail := sorted[1..];
        assert ByCount(tail);
        InsertWithCount(tail, e, c);
        assert r[0] == sorted[0] && r[1..] == rest;
        var pre: seq<Entry> := if sorted[0].1 == c then [sorted[0]] else [];
        var post: seq<Entry> := if e.1 == c then [e] else [];
        assert WithCount(r, c) == pre + WithCount(rest, c);
        assert WithCount(sorted, c) == pre + WithCount(tail, c);
        assert WithCount(rest, c) == WithCount(tail, c) + post;
        AppendAssoc(pre, WithCount(tail, c), post);
        assert WithCount(r, c) == WithCount(sorted, c) + post;
      } else {
        assert r[0] == e && r[1..] == sorted;
        if e.1 == c {
          AllBelow(sorted, c);
        }
      }
    }
  }

  lemma AppendAssoc(a: seq<Entry>, b: seq<Entry>, c: seq<Entry>)
    ensures a + (b + c) == (a + b) + c
  {
  }

  lemma {:induction false} AllBelow(es: seq<Entry>, c: nat)
    requires forall k :: 0 <= k < |es| ==> es[k].1 < c
    ensures WithCount(es, c) == []
  {
    if es != [] {
      AllBelow(es[1..], c);
    }
  }

  /** Stable sort by count, highest first (`.sort((a, b) => b[1] - a[1])`). */
  function SortByCount(es: seq<Entry>): seq<Entry> {
    if es == [] then []
    else Insert(SortByCount(es[..|es| - 1]), es[|es| - 1])
  }

  /** The sort orders by count, is a permutation, and keeps entries of equal
      count in their original order. */
  lemma {:induction false} SortByCountCorrect(es: seq<Entry>)
    ensures ByCount(SortByCount(es))
    ensures multiset(SortByCount(es)) == multiset(es)
    ensures forall c :: WithCount(SortByCount(es), c) == WithCount(es, c)
  {
    if es != [] {
      var init := es[..|es| - 1];
      var e := es[|es| - 1];
      SortByCountCorrect(init);
      assert init + [e] == es;
      SortStep(init, e, es);
    }
  }

  /** Inserting the last entry into the sorted prefix keeps the three properties. */
  lemma SortStep(init: seq<Entry>, e: Entry, es: seq<Entry>)
    requires es == init + [e] && SortByCount(es) == Insert(SortByCount(init), e)
    requires ByCount(SortByCount(init)) && multiset(SortByCount(init)) == multiset(init)
    requires forall c :: WithCount(SortByCount(init), c) == WithCount(init, c)
    ensures ByCount(SortByCount(es))
    ensures multiset(SortByCount(es)) == multiset(es)
    ensures forall c :: WithCount(SortByCount(es), c) == WithCount(es, c)
  {
    var sorted := SortByCount(init);
    InsertByCount(sorted, e);
    assert multiset(es) == multiset(init) + multiset{e};
    forall c ensures WithCount(SortByCount(es), c) == WithCount(es, c) {
      InsertWithCount(sorted, e, c);
      WithCountSnoc(init, e, c);
    }
  }

  /** `phrase.charAt(0).toUpperCase() + phrase.slice(1)` */
  function Capitalize(p: string): (r: string)
    ensures |r| == |p|
    ensures p != [] ==> r[0] == UpperChar(p[0]) && r[1..] == p[1..]
  {
    if p == [] then [] else [UpperChar(p[0])] + p[1..]
  }

  /** `.map(([phrase, _]) => capitalised phrase)` */
  function Labels(es: seq<Entry>): (r: seq<string>)
    ensures |r| == |es|
    ensures forall k :: 0 <= k < |r| ==> r[k] == Capitalize(es[k].0)
  {
    seq(|es|, k requires 0 <= k < |es| => Capitalize(es[k].0))
  }

  /** The entries `findCommonPhrases(text)` keeps, in the order it returns them. */
  function Ranked(text: string): seq<Entry> {
    RankedOf(Occurrences(Chunker.SentenceUnits(text)))
  }

  /** The kept entries for the phrase stream `ps`: counted, filtered, sorted. */
  function RankedOf(ps: seq<string>): (r: seq<Entry>)
    ensures forall k :: 0 <= k < |r| ==> r[k].1 == multiset(ps)[r[k].0] >= 2
  {
    TallyCounted(ps);
    var es := Entries(Tally(ps));
    SortedFrequentCounted(es, ps);
    var r := SortByCount(Frequent(es));
    assert AllRepeated(r, ps);
    r
  }

  /** `findCommonPhrases(text)` */
  function CommonPhrases(text: string): seq<string> {
    Labels(Ranked(text))
  }

  method FindCommonPhrases(text: string) returns (phrases: seq<string>)
    ensures phrases == CommonPhrases(text)
  {
    var sentences := Chunker.SentenceUnits(text);
    var order: seq<string> := [];
    var phraseCounts: map<string, nat> := map[];
    for s := 0 to |sentences|
      invariant Table(order, phraseCounts) == Tally(Occurrences(sentences[..s]))
    {
      var words := WordsOf(sentences[s]);
      order, phraseCounts := CountWindows(order, phraseCounts, words, Occurrences(sentences[..s]));
      OccurrencesStep(sentences, s);
    }
    assert sentences[..|sentences|] == sentences;
    var all := Occurrences(sentences);
    TallyCounted(all);
    assert Ranked(text) == SortByCount(Frequent(Entries(Tally(all))));
    phrases := Labels(SortByCount(Frequent(Entries(Table(order, phraseCounts)))));
  }

  /** The inner loop of `findCommonPhrases`: count every two- and three-word
      window of one sentence's words, after the phrases `before`. */
  method CountWindows(order: seq<string>, phraseCounts: map<string, nat>, words: seq<string>, ghost before: seq<string>)
    returns (order': seq<string>, phraseCounts': map<string, nat>)
    requires Table(order, phraseCounts) == Tally(before)
    ensures Table(order', phraseCounts') == Tally(before + WindowsBefore(words, Starts(words)))
  {
    order', phraseCounts' := order, phraseCounts;
    var i := 0;
    assert before + WindowsBefore(words, 0) == before;
    while i < |words| - 1
      invariant i <= Starts(words)
      invariant Table(order', phraseCounts') == Tally(before + WindowsBefore(words, i))
    {
      ghost var seen := before + WindowsBefore(words, i);
      var phrase2 := Join(words[i..i + 2], ' ');
      TallySnoc(seen, phrase2);
      order', phraseCounts' := CountPhrase(order', phraseCounts', phrase2);
      if i < |words| - 2 {
        var phrase3 := Join(words[i..i + 3], ' ');
        TallySnoc(seen + [phrase2], phrase3);
        assert seen + [phrase2] + [phrase3] == seen + [phrase2, phrase3];
        order', phraseCounts' := CountPhrase(order', phraseCounts', phrase3);
        StepWindows(before, words, i, [phrase2, phrase3]);
      } else {
        StepWindows(before, words, i, [phrase2]);
      }
      i := i + 1;
    }
  }

  /** `phraseCounts[phrase] = (phraseCounts[phrase] || 0) + 1`, with the key
      order of the object kept alongside. */
  method CountPhrase(order: seq<string>, phraseCounts: map<string, nat>, phrase: string)
    returns (order': seq<string>, phraseCounts': map<string, nat>)
    ensures Table(order', phraseCounts') == Record(Table(order, phraseCounts), phrase)
  {
    order' := order;
    if phrase !in phraseCounts {
      order' := order + [phrase];
    }
    phraseCounts' := phraseCounts[phrase := (if phrase in phraseCounts then phraseCounts[phrase] else 0) + 1];
  }

  /** The windows counted at start position `i` extend the stream counted so far. */
  lemma StepWindows(before: seq<string>, words: seq<string>, i: nat, counted: seq<string>)
    requires i + 1 < |words| && i < Starts(words)
    requires counted == WindowsAt(words, i)
    ensures before + WindowsBefore(words, i + 1) == before + WindowsBefore(words, i) + counted
  {
  }

  lemma OccurrencesStep(sentences: seq<string>, s: nat)
    requires s < |sentences|
    ensures Occurrences(sentences[..s + 1]) == Occurrences(sentences[..s]) + SentenceWindows(sentences[s])
  {
    assert sentences[..s + 1][..s] == sentences[..s];
  }

  // ------------------------------------------------------------------
  // Properties of the ranking
  // ------------------------------------------------------------------

  /** Every returned phrase was counted at least twice, and its count is its
      true number of occurrences. */
  lemma RankedAreRepeated(text: string)
    ensures var ps := Occurrences(Chunker.SentenceUnits(text));
            forall k :: 0 <= k < |Ranked(text)| ==> Ranked(text)[k].1 == multiset(ps)[Ranked(text)[k].0] >= 2
  {
    var r := RankedOf(Occurrences(Chunker.SentenceUnits(text)));
  }

  /** Each entry of the table is counted correctly. */
  lemma TallyCounted(ps: seq<string>)
    ensures Listed(Tally(ps))
    ensures forall k :: 0 <= k < |Entries(Tally(ps))| ==> CountedIn(Entries(Tally(ps))[k], ps)
  {
    TallyMeaning(ps);
  }

  /** The entry's count is its key's number of occurrences in `ps`. */
  ghost predicate CountedIn(e: Entry, ps: seq<string>) {
    e.1 == multiset(ps)[e.0]
  }

  /** Every entry of `r` is counted correctly and occurs at least twice in `ps`. */
  ghost predicate AllRepeated(r: seq<Entry>, ps: seq<string>) {
    forall k :: 0 <= k < |r| ==> r[k].1 == multiset(ps)[r[k].0] >= 2
  }

  lemma SortedFrequentCounted(es: seq<Entry>, ps: seq<string>)
    requires forall k :: 0 <= k < |es| ==> CountedIn(es[k], ps)
    ensures AllRepeated(SortByCount(Frequent(es)), ps)
  {
    var fs := Frequent(es);
    var r := SortByCount(fs);
    SortByCountCorrect(fs);
    forall k | 0 <= k < |r| ensures r[k].1 == multiset(ps)[r[k].0] >= 2 {
      assert r[k] in multiset(fs);
      assert r[k] in fs;
      var j :| 0 <= j < |es| && es[j] == r[k];
      assert CountedIn(es[j], ps);
    }
  }

  /** Every phrase counted at least twice is returned. */
  lemma RepeatedAreRanked(text: string, p: string)
    requires multiset(Occurrences(Chunker.SentenceUnits(text)))[p] >= 2
    ensures exists k :: 0 <= k < |Ranked(text)| && Ranked(text)[k].0 == p
  {
    var ps := Occurrences(Chunker.SentenceUnits(text));
    RepeatedInRankedOf(ps, p);
    assert Ranked(text) == RankedOf(ps);
    assert HasKey(Ranked(text), p);
  }

  /** Some entry of `r` has key `p`. */
  ghost predicate HasKey(r: seq<Entry>, p: string) {
    exists k :: 0 <= k < |r| && r[k].0 == p
  }

  lemma RepeatedInRankedOf(ps: seq<string>, p: string)
    requires multiset(ps)[p] >= 2
    ensures HasKey(RankedOf(ps), p)
  {
    TallyMeaning(ps);
    var t := Tally(ps);
    var es := Entries(t);
    var fs := Frequent(es);
    var r := RankedOf(ps);
    SortByCountCorrect(fs);
    assert p in ps;
    var j :| 0 <= j < |t.order| && t.order[j] == p;
    assert es[j] in fs;
    assert es[j] in multiset(r);
    var k :| 0 <= k < |r| && r[k] == es[j];
  }

  /** Every key of `es` occurs in `ps`, and the keys are in order of first
      occurrence in `ps`. */
  ghost predicate FirstSeenOrder(es: seq<Entry>, ps: seq<string>) {
    && (forall k :: 0 <= k < |es| ==> es[k].0 in ps)
    && (forall i, j :: 0 <= i < j < |es| ==> FirstIndex(ps, es[i].0) < FirstIndex(ps, es[j].0))
  }

  /** Entries of equal count are in order of first occurrence in `ps`. */
  ghost predicate TiesInFirstSeenOrder(es: seq<Entry>, ps: seq<string>) {
    && (forall k :: 0 <= k < |es| ==> es[k].0 in ps)
    && (forall i, j :: 0 <= i < j < |es| && es[i].1 == es[j].1 ==> FirstIndex(ps, es[i].0) < FirstIndex(ps, es[j].0))
  }

  lemma {:induction false} FrequentKeepsOrder(es: seq<Entry>, ps: seq<string>)
    requires FirstSeenOrder(es, ps)
    ensures FirstSeenOrder(Frequent(es), ps)
  {
    if es != [] {
      var rest := es[1..];
      TailOrder(es, ps);
      FrequentKeepsOrder(rest, ps);
      if es[0].1 > 1 {
        HeadFirst(es, ps);
        ConsOrder(es[0], Frequent(rest), ps);
      }
    }
  }

  lemma TailOrder(es: seq<Entry>, ps: seq<string>)
    requires es != [] && FirstSeenOrder(es, ps)
    ensures FirstSeenOrder(es[1..], ps)
  {
    var rest := es[1..];
    assert forall k :: 0 <= k < |rest| ==> rest[k] == es[k + 1];
  }

  /** The head of `es` comes before everything the filter keeps from its tail. */
  lemma HeadFirst(es: seq<Entry>, ps: seq<string>)
    requires es != [] && FirstSeenOrder(es, ps)
    ensures forall j :: 0 <= j < |Frequent(es[1..])| ==> FirstIndex(ps, es[0].0) < FirstIndex(ps, Frequent(es[1..])[j].0)
  {
    var rest := es[1..];
    var fs := Frequent(rest);
    forall j | 0 <= j < |fs| ensures FirstIndex(ps, es[0].0) < FirstIndex(ps, fs[j].0) {
      var m :| 0 <= m < |rest| && rest[m] == fs[j];
      assert es[m + 1] == fs[j];
    }
  }

  lemma ConsOrder(x: Entry, rest: seq<Entry>, ps: seq<string>)
    requires FirstSeenOrder(rest, ps) && x.0 in ps
    requires forall j :: 0 <= j < |rest| ==> FirstIndex(ps, x.0) < FirstIndex(ps, rest[j].0)
    ensures FirstSeenOrder([x] + rest, ps)
  {
    var r := [x] + rest;
    assert forall k :: 0 < k < |r| ==> r[k] == rest[k - 1];
  }

  lemma {:induction false} InsertKeepsTies(sorted: seq<Entry>, e: Entry, ps: seq<string>)
    requires ByCount(sorted) && TiesInFirstSeenOrder(sorted, ps) && e.0 in ps
    requires forall k :: 0 <= k < |sorted| ==> FirstIndex(ps, sorted[k].0) < FirstIndex(ps, e.0)
    ensures TiesInFirstSeenOrder(Insert(sorted, e), ps)
  {
    if sorted != [] && sorted[0].1 >= e.1 {
      var tail := sorted[1..];
      TailFacts(sorted, e, ps);
      InsertKeepsTies(tail, e, ps);
      var rest := Insert(tail, e);
      HeadBeforeTies(sorted, e, rest, ps);
      assert Insert(sorted, e) == [sorted[0]] + rest;
      ConsTies(sorted[0], rest, ps);
    } else if sorted != [] {
      assert forall j :: 0 <= j < |sorted| ==> sorted[j].1 <= sorted[0].1 < e.1;
      assert Insert(sorted, e) == [e] + sorted;
      ConsTies(e, sorted, ps);
    }
  }

  lemma TailFacts(sorted: seq<Entry>, e: Entry, ps: seq<string>)
    requires sorted != [] && ByCount(sorted) && TiesInFirstSeenOrder(sorted, ps) && e.0 in ps
    requires forall k :: 0 <= k < |sorted| ==> FirstIndex(ps, sorted[k].0) < FirstIndex(ps, e.0)
    ensures var tail := sorted[1..];
            && ByCount(tail) && TiesInFirstSeenOrder(tail, ps)
            && forall k :: 0 <= k < |tail| ==> FirstIndex(ps, tail[k].0) < FirstIndex(ps, e.0)
  {
    var tail := sorted[1..];
    assert forall k :: 0 <= k < |tail| ==> tail[k] == sorted[k + 1];
  }

  /** After inserting `e` into the tail, the head still precedes every entry of
      equal count. */
  lemma HeadBeforeTies(sorted: seq<Entry>, e: Entry, rest: seq<Entry>, ps: seq<string>)
    requires sorted != [] && TiesInFirstSeenOrder(sorted, ps) && e.0 in ps
    requires sorted[0].1 == e.1 ==> FirstIndex(ps, sorted[0].0) < FirstIndex(ps, e.0)
    requires rest == Insert(sorted[1..], e)
    ensures forall j :: 0 <= j < |rest| && rest[j].1 == sorted[0].1 ==>
              rest[j].0 in ps && FirstIndex(ps, sorted[0].0) < FirstIndex(ps, rest[j].0)
  {
    var tail := sorted[1..];
    forall j | 0 <= j < |rest| && rest[j].1 == sorted[0].1
      ensures rest[j].0 in ps && FirstIndex(ps, sorted[0].0) < FirstIndex(ps, rest[j].0)
    {
      assert rest[j] in multiset(rest);
      if rest[j] != e {
        assert rest[j] in multiset(tail);
        var m :| 0 <= m < |tail| && tail[m] == rest[j];
        assert sorted[m + 1] == rest[j];
      }
    }
  }

  lemma ConsTies(x: Entry, rest: seq<Entry>, ps: seq<string>)
    requires TiesInFirstSeenOrder(rest, ps) && x.0 in ps
    requires forall j :: 0 <= j < |rest| && rest[j].1 == x.1 ==> FirstIndex(ps, x.0) < FirstIndex(ps, rest[j].0)
    ensures TiesInFirstSeenOrder([x] + rest, ps)
  {
    var r := [x] + rest;
    assert forall k :: 0 < k < |r| ==> r[k] == rest[k - 1];
  }

  /** The sort keeps entries of equal count in their original order. */
  lemma {:induction false} SortKeepsTies(es: seq<Entry>, ps: seq<string>)
    requires FirstSeenOrder(es, ps)
    ensures TiesInFirstSeenOrder(SortByCount(es), ps)
  {
    if es != [] {
      var init := es[..|es| - 1];
      var e := es[|es| - 1];
      SortKeepsTies(init, ps);
      SortByCountCorrect(init);
      var sorted := SortByCount(init);
      forall k | 0 <= k < |sorted| ensures FirstIndex(ps, sorted[k].0) < FirstIndex(ps, e.0) {
        assert sorted[k] in multiset(init);
        var m :| 0 <= m < |init| && init[m] == sorted[k];
        assert es[m] == sorted[k];
      }
      InsertKeepsTies(sorted, e, ps);
    }
  }

  /** Counts never increase down the ranking, and phrases of equal count keep
      first-seen order. */
  lemma RankedOrder(text: string)
    ensures ByCount(Ranked(text))
    ensures TiesInFirstSeenOrder(Ranked(text), Occurrences(Chunker.SentenceUnits(text)))
  {
    RankedOfOrder(Occurrences(Chunker.SentenceUnits(text)));
  }

  lemma RankedOfOrder(ps: seq<string>)
    ensures ByCount(RankedOf(ps)) && TiesInFirstSeenOrder(RankedOf(ps), ps)
  {
    TallyMeaning(ps);
    var es := Entries(Tally(ps));
    assert FirstSeenOrder(es, ps);
    FrequentKeepsOrder(es, ps);
    SortByCountCorrect(Frequent(es));
    SortKeepsTies(Frequent(es), ps);
  }
}
