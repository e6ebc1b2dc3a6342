/**
  Text cleaning and chunking of a writing sample before it is embedded
  (`cleanText`, `chunkText` and `splitByLength` in the sample handler).

  Chunk lengths are counted in characters. The handler passes 512 and calls
  it a token budget, but every comparison is on string length.
*/
module Chunker {
  import opened Text

  /** Chunk length the sample handler passes to `chunkText`. */
  const SampleChunkLength: nat := 512

  // ------------------------------------------------------------------
  // cleanText: replace every whitespace run by one space, then trim.
  // (Its second replacement, of newline runs, finds nothing left to do:
  // newlines are whitespace.)
  // ------------------------------------------------------------------

  /** No whitespace at either end, whitespace only as single plain spaces. */
  ghost predicate Normalized(s: string) {
    && (s == [] || (!IsSpace(s[0]) && !IsSpace(s[|s| - 1])))
    && (forall i :: 0 <= i < |s| && IsSpace(s[i]) ==> s[i] == ' ')
    && (forall i :: 0 <= i < |s| - 1 ==> !(IsSpace(s[i]) && IsSpace(s[i + 1])))
  }

  /** `s.replace(/\s+/g, ' ')` */
  function Collapse(s: string): (r: string)
    ensures |r| <= |s|
    ensures (r == []) == (s == [])
    ensures r != [] ==> IsSpace(r[0]) == IsSpace(s[0])
    ensures forall i :: 0 <= i < |r| && IsSpace(r[i]) ==> r[i] == ' '
    ensures forall i :: 0 <= i < |r| - 1 ==> !(IsSpace(r[i]) && IsSpace(r[i + 1]))
    decreases |s|
  {
    if s == [] then []
    else if IsSpace(s[0]) then
      var rest := Collapse(TrimStart(s[1..]));
      assert rest != [] ==> !IsSpace(rest[0]);
      CollapsePrepend(' ', rest)
    else CollapsePrepend(s[0], Collapse(s[1..]))
  }

  /** `[c] + rest`, which keeps the single-space form when `c` is a space
      only if `rest` does not start with one. */
  function CollapsePrepend(c: char, rest: string): (r: string)
    requires IsSpace(c) ==> c == ' ' && (rest == [] || !IsSpace(rest[0]))
    requires forall i :: 0 <= i < |rest| && IsSpace(rest[i]) ==> rest[i] == ' '
    requires forall i :: 0 <= i < |rest| - 1 ==> !(IsSpace(rest[i]) && IsSpace(rest[i + 1]))
    ensures r == [c] + rest
    ensures forall i :: 0 <= i < |r| && IsSpace(r[i]) ==> r[i] == ' '
    ensures forall i :: 0 <= i < |r| - 1 ==> !(IsSpace(r[i]) && IsSpace(r[i + 1]))
  {
    var r := [c] + rest;
    assert forall i :: 0 < i < |r| ==> r[i] == rest[i - 1];
    r
  }

  function CleanText(text: string): (r: string)
    ensures Normalized(r)
  {
    var c := Collapse(text);
    TrimKeepsNormalForm(c);
    Trim(c)
  }

  /** Trimming a collapsed text keeps its single-space form. */
  lemma TrimKeepsNormalForm(c: string)
    requires forall i :: 0 <= i < |c| && IsSpace(c[i]) ==> c[i] == ' '
    requires forall i :: 0 <= i < |c| - 1 ==> !(IsSpace(c[i]) && IsSpace(c[i + 1]))
    ensures Normalized(Trim(c))
  {
    TrimKeepsPlainSpaces(c);
    TrimKeepsSingleSpaces(c);
  }

  lemma TrimKeepsPlainSpaces(c: string)
    requires forall i :: 0 <= i < |c| && IsSpace(c[i]) ==> c[i] == ' '
    ensures forall i :: 0 <= i < |Trim(c)| && IsSpace(Trim(c)[i]) ==> Trim(c)[i] == ' '
  {
    PartKeepsPlainSpaces(c, Trim(c), TrimOffset(c));
  }

  lemma TrimKeepsSingleSpaces(c: string)
    requires forall i :: 0 <= i < |c| - 1 ==> !(IsSpace(c[i]) && IsSpace(c[i + 1]))
    ensures forall i :: 0 <= i < |Trim(c)| - 1 ==> !(IsSpace(Trim(c)[i]) && IsSpace(Trim(c)[i + 1]))
  {
    PartKeepsSingleSpaces(c, Trim(c), TrimOffset(c));
  }

  /** `r` is the part of `c` that starts at `k`. */
  ghost predicate PartAt(c: string, r: string, k: nat) {
    k + |r| <= |c| && forall i :: 0 <= i < |r| ==> r[i] == c[k + i]
  }

  lemma PartKeepsPlainSpaces(c: string, r: string, k: nat)
    requires PartAt(c, r, k)
    requires forall i :: 0 <= i < |c| && IsSpace(c[i]) ==> c[i] == ' '
    ensures forall i :: 0 <= i < |r| && IsSpace(r[i]) ==> r[i] == ' '
  {
    forall i | 0 <= i < |r| && IsSpace(r[i])
      ensures r[i] == ' '
    {
      assert r[i] == c[k + i];
    }
  }

  lemma PartKeepsSingleSpaces(c: string, r: string, k: nat)
    requires PartAt(c, r, k)
    requires forall i :: 0 <= i < |c| - 1 ==> !(IsSpace(c[i]) && IsSpace(c[i + 1]))
    ensures forall i :: 0 <= i < |r| - 1 ==> !(IsSpace(r[i]) && IsSpace(r[i + 1]))
  {
    forall i | 0 <= i < |r| - 1
      ensures !(IsSpace(r[i]) && IsSpace(r[i + 1]))
    {
      assert r[i] == c[k + i] && r[i + 1] == c[k + i + 1];
    }
  }

  lemma {:induction false} CollapseKeepsVisible(s: string)
    ensures Visible(Collapse(s)) == Visible(s)
    decreases |s|
  {
    if s == [] {
    } else if IsSpace(s[0]) {
      var t := TrimStart(s[1..]);
      CollapseKeepsVisible(t);
      var k := |s[1..]| - |t|;
      assert s[1..] == s[1..][..k] + t;
      VisibleAppend(s[1..][..k], t);
      VisibleOfSpaces(s[1..][..k]);
    } else {
      CollapseKeepsVisible(s[1..]);
    }
  }

  /** Cleaning loses and reorders no visible character. */
  lemma CleanTextKeepsVisible(text: string)
    ensures Visible(CleanText(text)) == Visible(text)
  {
    CollapseKeepsVisible(text);
    VisibleTrim(Collapse(text));
  }

  lemma {:induction false} CollapseFixed(s: string)
    requires forall i :: 0 <= i < |s| && IsSpace(s[i]) ==> s[i] == ' '
    requires forall i :: 0 <= i < |s| - 1 ==> !(IsSpace(s[i]) && IsSpace(s[i + 1]))
    ensures Collapse(s) == s
    decreases |s|
  {
    if s != [] {
      var t := s[1..];
      assert PartAt(s, t, 1);
      PartKeepsPlainSpaces(s, t, 1);
      PartKeepsSingleSpaces(s, t, 1);
      CollapseFixed(t);
      if IsSpace(s[0]) {
        assert t == [] || !IsSpace(t[0]);
        assert TrimStart(t) == t;
      }
    }
  }

  /** Cleaning a cleaned text changes nothing. */
  lemma CleanTextIdempotent(text: string)
    ensures CleanText(CleanText(text)) == CleanText(text)
  {
    NormalizedIsClean(CleanText(text));
  }

  /** A text already in the cleaned form is left as it is. */
  lemma NormalizedIsClean(c: string)
    requires Normalized(c)
    ensures CleanText(c) == c
  {
    CollapseFixed(c);
    TrimUnchanged(c);
  }

  /** Cleaning is joining the whitespace-delimited words with single spaces:
      every whitespace run between two words becomes one space, and the
      whitespace at either end is dropped. */
  lemma CleanTextIsJoinedWords(text: string)
    ensures Runs(CleanText(text), NotSpace) == Runs(text, NotSpace)
    ensures CleanText(text) == Join(Runs(text, NotSpace), ' ')
  {
    CollapseKeepsWords(text);
    TrimKeepsWords(Collapse(text));
    NormalizedIsJoin(CleanText(text));
  }

  /** Collapsing whitespace runs keeps the words. */
  lemma {:induction false} CollapseKeepsWords(s: string)
    ensures Runs(Collapse(s), NotSpace) == Runs(s, NotSpace)
    decreases |s|
  {
    if s != [] {
      if IsSpace(s[0]) {
        CollapseKeepsWords(TrimStart(s[1..]));
        CollapseSpaceKeepsWords(s);
      } else {
        CollapseKeepsWords(s[1..]);
        CollapseWordKeepsWords(s);
      }
    }
  }

  lemma CollapseSpaceKeepsWords(s: string)
    requires s != [] && IsSpace(s[0])
    requires Runs(Collapse(TrimStart(s[1..])), NotSpace) == Runs(TrimStart(s[1..]), NotSpace)
    ensures Runs(Collapse(s), NotSpace) == Runs(s, NotSpace)
  {
    CollapseSpace(s);
    SpaceRunKeepsWords(s, Collapse(s), Collapse(TrimStart(s[1..])));
  }

  /** Replacing a leading whitespace run by one space keeps the words. */
  lemma SpaceRunKeepsWords(s: string, r: string, rest: string)
    requires s != [] && IsSpace(s[0])
    requires r == [' '] + rest
    requires Runs(rest, NotSpace) == Runs(TrimStart(s[1..]), NotSpace)
    ensures Runs(r, NotSpace) == Runs(s, NotSpace)
  {
    RunsSkip([' '], rest, NotSpace);
    TrimStartKeepsWords(s[1..]);
    RunsOutside(s, NotSpace);
  }

  lemma CollapseWordKeepsWords(s: string)
    requires s != [] && !IsSpace(s[0])
    requires Runs(Collapse(s[1..]), NotSpace) == Runs(s[1..], NotSpace)
    ensures Runs(Collapse(s), NotSpace) == Runs(s, NotSpace)
  {
    CollapseWord(s);
    WordCharKeepsWords(s, Collapse(s), Collapse(s[1..]));
  }

  /** Keeping a leading word character in front of a text with the same
      words as the tail keeps the words. */
  lemma WordCharKeepsWords(s: string, r: string, rest: string)
    requires s != [] && !IsSpace(s[0])
    requires r == [s[0]] + rest
    requires Runs(rest, NotSpace) == Runs(s[1..], NotSpace)
    requires rest == [] <==> s[1..] == []
    requires rest != [] ==> (IsSpace(rest[0]) <==> IsSpace(s[1]))
    ensures Runs(r, NotSpace) == Runs(s, NotSpace)
  {
    var x := s[1..];
    assert s == [s[0]] + x;
    RunsCons(s[0], x, NotSpace);
    RunsCons(s[0], rest, NotSpace);
  }

  lemma CollapseSpace(s: string)
    requires s != [] && IsSpace(s[0])
    ensures Collapse(s) == [' '] + Collapse(TrimStart(s[1..]))
  {
  }

  lemma CollapseWord(s: string)
    requires s != [] && !IsSpace(s[0])
    ensures Collapse(s) == [s[0]] + Collapse(s[1..])
  {
  }

  /** A normalised text is its words joined by single spaces. */
  lemma {:induction false} NormalizedIsJoin(r: string)
    requires Normalized(r)
    ensures r == Join(Runs(r, NotSpace), ' ')
    decreases |r|
  {
    if r != [] {
      var n := Span(r, NotSpace);
      RunsFront(r, NotSpace);
      if n < |r| {
        var rest := r[n + 1..];
        NormalizedSplit(r, n);
        NormalizedIsJoin(rest);
        NormalizedJoinStep(r, n);
      } else {
        assert r[..n] == r && r[n..] == [];
      }
    }
  }

  /** After the first word of a normalised text: one space, then a
      normalised rest. */
  lemma NormalizedSplit(r: string, n: nat)
    requires Normalized(r) && r != [] && n == Span(r, NotSpace) && n < |r|
    ensures n + 1 < |r| && r[n] == ' ' && !IsSpace(r[n + 1])
    ensures Normalized(r[n + 1..])
  {
    assert n + 1 < |r|;
    var rest := r[n + 1..];
    assert forall i :: 0 <= i < |rest| ==> rest[i] == r[n + 1 + i];
  }

  lemma NormalizedJoinStep(r: string, n: nat)
    requires r != [] && n == Span(r, NotSpace) && n + 1 < |r| && r[n] == ' ' && !IsSpace(r[n + 1])
    requires Runs(r, NotSpace) == [r[..n]] + Runs(r[n..], NotSpace)
    requires r[n + 1..] == Join(Runs(r[n + 1..], NotSpace), ' ')
    ensures r == Join(Runs(r, NotSpace), ' ')
  {
    var rest := r[n + 1..];
    RunsOutside(r[n..], NotSpace);
    SplitAt(r, n);
    RunsFront(rest, NotSpace);
    var ws := Runs(rest, NotSpace);
    JoinCons(r[..n], ws, ' ');
  }

  lemma SplitAt<T>(r: seq<T>, n: nat)
    requires n < |r|
    ensures r[n..][1..] == r[n + 1..]
    ensures r == r[..n] + [r[n]] + r[n + 1..]
  {
  }

  // ------------------------------------------------------------------
  // Sentence units: the global match of /[^.!?]+[.!?]+/ (or the whole
  // text when nothing matches).
  // ------------------------------------------------------------------

  function IsTerminatorFn(c: char): bool { IsTerminator(c) }

  /** Length of the run of terminators at the front of `s`. */
  function Lead(s: string): (n: nat)
    ensures n <= |s|
    ensures forall i :: 0 <= i < n ==> IsTerminator(s[i])
    ensures n < |s| ==> !IsTerminator(s[n])
  {
    Span(s, IsTerminatorFn)
  }

  /** Length of the run of non-terminators at the front of `s`. */
  function Body(s: string): (n: nat)
    ensures n <= |s|
    ensures forall i :: 0 <= i < n ==> !IsTerminator(s[i])
    ensures n < |s| ==> IsTerminator(s[n])
  {
    Span(s, c => !IsTerminator(c))
  }

  /** The index just after the last terminator of `s`, or 0 if there is none. */
  function TailStart(s: string): (t: nat)
    ensures t <= |s|
    ensures forall i :: t <= i < |s| ==> !IsTerminator(s[i])
    ensures t > 0 ==> IsTerminator(s[t - 1])
  {
    if s == [] then 0
    else
      var t := TailStart(s[1..]);
      if t > 0 then t + 1 else if IsTerminator(s[0]) then 1 else 0
  }

  /** The shape matched by [^.!?]+[.!?]+ : a non-empty body of
      non-terminators followed by a non-empty run of terminators. */
  ghost predicate IsSentence(u: string) {
    && u != []
    && !IsTerminator(u[0])
    && IsTerminator(u[|u| - 1])
    && forall i, j :: 0 <= i < j < |u| && IsTerminator(u[i]) ==> IsTerminator(u[j])
  }

  /** The successive matches of /[^.!?]+[.!?]+/g. A match attempt at a
      terminator fails and the scan moves on one character; an attempt at a
      non-terminator fails for good when no terminator follows. */
  function Scan(s: string): (units: seq<string>)
    ensures forall k :: 0 <= k < |units| ==> IsSentence(units[k])
    decreases |s|
  {
    if s == [] then []
    else if IsTerminator(s[0]) then Scan(s[1..])
    else
      var n := Body(s);
      if n == |s| then []
      else
        var e := n + Lead(s[n..]);
        assert IsSentence(s[..e]);
        [s[..e]] + Scan(s[e..])
  }

  /** `text.match(/[^.!?]+[.!?]+/g) || [text]` */
  function SentenceUnits(text: string): seq<string> {
    var units := Scan(text);
    if units == [] then [text] else units
  }

  lemma TailStartUnique(s: string, t: nat)
    requires t <= |s|
    requires forall i :: t <= i < |s| ==> !IsTerminator(s[i])
    requires t > 0 ==> IsTerminator(s[t - 1])
    ensures TailStart(s) == t
  {
    var u := TailStart(s);
    assert u > 0 ==> u - 1 < t;
    assert t > 0 ==> t - 1 < u;
  }

  /** What the matches keep: exactly the text between the leading bare
      terminators and the end of the last terminator run. Leading punctuation
      and any text after the last terminator are in no unit. */
  lemma {:induction false} ScanCoverage(s: string)
    ensures Lead(s) <= TailStart(s)
    ensures Concat(Scan(s)) == s[Lead(s)..TailStart(s)]
    decreases |s|, 1
  {
    if s == [] {
    } else if IsTerminator(s[0]) {
      ScanCoverageAtTerminator(s);
    } else {
      ScanCoverageAtBody(s);
    }
  }

  lemma {:induction false} ScanCoverageAtTerminator(s: string)
    requires s != [] && IsTerminator(s[0])
    ensures Lead(s) <= TailStart(s)
    ensures Concat(Scan(s)) == s[Lead(s)..TailStart(s)]
    decreases |s|, 0
  {
    var r := s[1..];
    ScanCoverage(r);
    assert Lead(s) == 1 + Lead(r) by {
      assert Span(s, IsTerminatorFn) == 1 + Span(r, IsTerminatorFn);
    }
    var t := TailStart(r);
    assert TailStart(s) == if t > 0 then t + 1 else 1;
    assert Scan(s) == Scan(r);
    ShiftSlice(s, Lead(r), TailStart(r));
  }

  lemma ShiftSlice(s: string, a: nat, b: nat)
    requires a <= b < |s|
    ensures s[1..][a..b] == s[a + 1..b + 1]
  {
    assert forall i :: 0 <= i < b - a ==> s[1..][a..b][i] == s[a + 1 + i];
  }

  lemma {:induction false} ScanCoverageAtBody(s: string)
    requires s != [] && !IsTerminator(s[0])
    ensures Lead(s) <= TailStart(s)
    ensures Concat(Scan(s)) == s[Lead(s)..TailStart(s)]
    decreases |s|, 0
  {
    var n := Body(s);
    assert Lead(s) == 0;
    if n == |s| {
      TailStartUnique(s, 0);
    } else {
      var e := UnitEnd(s);
      var r := s[e..];
      ScanCoverage(r);
      TailAfter(s, e);
      CoverageGlue(s, e, TailStart(r), s[..e], Scan(r));
    }
  }

  /** Where the first unit of a text starting with a non-terminator ends. */
  function UnitEnd(s: string): (e: nat)
    requires s != [] && !IsTerminator(s[0]) && Body(s) < |s|
    ensures 0 < e <= |s| && IsTerminator(s[e - 1])
    ensures Scan(s) == [s[..e]] + Scan(s[e..])
    ensures Lead(s[e..]) == 0
  {
    var n := Body(s);
    var m := Lead(s[n..]);
    assert m >= 1 && IsTerminator(s[n..][m - 1]);
    n + m
  }

  /** After a terminator at `e - 1`, the tail of `s` starts where the tail of `s[e..]` does. */
  lemma TailAfter(s: string, e: nat)
    requires 0 < e <= |s| && IsTerminator(s[e - 1])
    ensures TailStart(s) == e + TailStart(s[e..])
  {
    var r := s[e..];
    var t := TailStart(r);
    assert forall i :: e <= i < |s| ==> s[i] == r[i - e];
    TailStartUnique(s, e + t);
  }

  lemma CoverageGlue(s: string, e: nat, t: nat, u: string, rest: seq<string>)
    requires e + t <= |s| && u == s[..e] && Concat(rest) == s[e..][..t]
    ensures Concat([u] + rest) == s[0..e + t]
  {
    ConcatAppend([u], rest);
    assert [u][1..] == [];
    assert Concat([u]) == u;
    SliceGlue(s, e, t);
  }

  lemma SliceGlue(s: string, e: nat, t: nat)
    requires e + t <= |s|
    ensures s[..e] + s[e..][..t] == s[0..e + t]
  {
  }

  /** A text has no sentence unit of its own (and so is one unit, whole) exactly
      when no terminator follows its first non-terminator. */
  lemma NoSentenceIff(s: string)
    ensures Scan(s) == [] <==> TailStart(s) == Lead(s)
  {
    ScanCoverage(s);
    var units := Scan(s);
    if units != [] {
      assert IsSentence(units[0]);
      ConcatAppend([units[0]], units[1..]);
      assert Concat([units[0]]) == units[0];
      assert units == [units[0]] + units[1..];
    }
  }

  // ------------------------------------------------------------------
  // splitByLength
  // ------------------------------------------------------------------

  /** The pieces `splitByLength` returns: the text itself when it fits, and
      otherwise consecutive slices of `maxLength` characters, the last one
      possibly shorter. */
  function Slices(text: string, maxLength: nat): seq<string>
    requires maxLength >= 1
    decreases |text|
  {
    if |text| <= maxLength then [text]
    else [text[..maxLength]] + Slices(text[maxLength..], maxLength)
  }

  lemma {:induction false} SlicesProperties(text: string, maxLength: nat)
    requires maxLength >= 1
    ensures var pieces := Slices(text, maxLength);
            && Concat(pieces) == text
            && (forall k :: 0 <= k < |pieces| ==> |pieces[k]| <= maxLength)
            && (forall k :: 0 <= k < |pieces| - 1 ==> |pieces[k]| == maxLength)
            && (text != [] ==> forall k :: 0 <= k < |pieces| ==> pieces[k] != [])
    decreases |text|
  {
    var pieces := Slices(text, maxLength);
    if |text| <= maxLength {
      assert Concat(pieces) == text + Concat([]);
    } else {
      var rest := Slices(text[maxLength..], maxLength);
      SlicesProperties(text[maxLength..], maxLength);
      assert pieces == [text[..maxLength]] + rest;
      assert Concat(pieces) == text[..maxLength] + Concat(rest);
      assert text == text[..maxLength] + text[maxLength..];
    }
  }

  /** One step of the slicing loop, from offset `i`. */
  lemma SlicesStep(text: string, i: nat, maxLength: nat)
    requires maxLength >= 1 && i < |text|
    ensures i + maxLength < |text| ==>
              Slices(text[i..], maxLength) == [text[i..i + maxLength]] + Slices(text[i + maxLength..], maxLength)
    ensures i + maxLength >= |text| ==> Slices(text[i..], maxLength) == [text[i..|text|]]
  {
    var rest := text[i..];
    if |rest| > maxLength {
      assert rest[..maxLength] == text[i..i + maxLength] && rest[maxLength..] == text[i + maxLength..];
    } else {
      assert rest == text[i..|text|];
    }
  }

  method SplitByLength(text: string, maxLength: nat) returns (pieces: seq<string>)
    requires maxLength >= 1
    ensures pieces == Slices(text, maxLength)
    ensures |text| <= maxLength ==> pieces == [text]
    ensures Concat(pieces) == text
    ensures forall k :: 0 <= k < |pieces| ==> |pieces[k]| <= maxLength
    ensures forall k :: 0 <= k < |pieces| - 1 ==> |pieces[k]| == maxLength
  {
    SlicesProperties(text, maxLength);
    if |text| <= maxLength {
      return [text];
    }
    pieces := [];
    var i := 0;
    while i < |text|
      invariant i < |text| ==> pieces + Slices(text[i..], maxLength) == Slices(text, maxLength)
      invariant i >= |text| ==> pieces == Slices(text, maxLength)
    {
      var end := if i + maxLength < |text| then i + maxLength else |text|;
      SlicesStep(text, i, maxLength);
      pieces := pieces + [text[i..end]];
      i := i + maxLength;
    }
  }

  // ------------------------------------------------------------------
  // chunkText: greedy packing of sentence units into a buffer.
  // ------------------------------------------------------------------

  /** The loop state of `chunkText`: chunks emitted so far and `currentChunk`. */
  datatype Packing = Packing(chunks: seq<string>, buffer: string)

  /** One iteration of the `for (const sentence of sentences)` loop. An
      oversized sentence is sliced only when the buffer is empty; after a
      non-empty buffer it becomes the new buffer whole. */
  function Step(p: Packing, sentence: string, maxLength: nat): Packing
    requires maxLength >= 1
  {
    if |p.buffer + sentence| > maxLength then
      if p.buffer != [] then Packing(p.chunks + [Trim(p.buffer)], sentence)
      else Packing(p.chunks + Slices(sentence, maxLength), p.buffer)
    else Packing(p.chunks, p.buffer + sentence)
  }

  function Pack(sentences: seq<string>, maxLength: nat): Packing
    requires maxLength >= 1
  {
    if sentences == [] then Packing([], [])
    else Step(Pack(sentences[..|sentences| - 1], maxLength), sentences[|sentences| - 1], maxLength)
  }

  /** The final `if (currentChunk) chunks.push(currentChunk.trim())`. */
  function Flush(p: Packing): seq<string> {
    if p.buffer != [] then p.chunks + [Trim(p.buffer)] else p.chunks
  }

  /** The chunks `chunkText(text, maxLength)` returns. */
  function Chunks(text: string, maxLength: nat): seq<string>
    requires maxLength >= 1
  {
    Flush(Pack(SentenceUnits(text), maxLength))
  }

  method ChunkText(text: string, maxLength: nat) returns (chunks: seq<string>)
    requires maxLength >= 1
    ensures chunks == Chunks(text, maxLength)
    ensures text == [] ==> chunks == []
    ensures (forall k :: 0 <= k < |SentenceUnits(text)| ==> |SentenceUnits(text)[k]| <= maxLength) ==>
              forall k :: 0 <= k < |chunks| ==> |chunks[k]| <= maxLength
    ensures Visible(Concat(chunks)) == Visible(Concat(SentenceUnits(text)))
  {
    var sentences := SentenceUnits(text);
    var currentChunk;
    chunks, currentChunk := PackUnits(sentences, maxLength);
    if currentChunk != [] {
      chunks := chunks + [Trim(currentChunk)];
    }
    EmptyTextHasNoChunks(text, maxLength);
    ChunksWithinLimit(text, maxLength);
    ChunksKeepOrder(text, maxLength);
  }

  /** The `for (const sentence of sentences)` loop of `chunkText`: the chunks
      pushed so far and the sentence buffer left at the end. */
  method PackUnits(sentences: seq<string>, maxLength: nat) returns (chunks: seq<string>, currentChunk: string)
    requires maxLength >= 1
    ensures Packing(chunks, currentChunk) == Pack(sentences, maxLength)
  {
    chunks := [];
    currentChunk := "";
    for k := 0 to |sentences|
      invariant Pack(sentences[..k], maxLength) == Packing(chunks, currentChunk)
    {
      assert sentences[..k + 1][..k] == sentences[..k];
      var sentence := sentences[k];
      if |currentChunk + sentence| > maxLength {
        if currentChunk != [] {
          chunks := chunks + [Trim(currentChunk)];
          currentChunk := sentence;
        } else {
          var sentenceChunks := SplitByLength(sentence, maxLength);
          chunks := chunks + sentenceChunks;
        }
      } else {
        currentChunk := currentChunk + sentence;
      }
    }
    assert sentences[..|sentences|] == sentences;
  }

  /** `chunkText(cleanText(rawText), 512)`, as the sample handler calls it. */
  method SampleChunks(rawText: string) returns (chunks: seq<string>)
    ensures chunks == Chunks(CleanText(rawText), SampleChunkLength)
    ensures Visible(rawText) == [] ==> chunks == []
  {
    var cleaned := CleanText(rawText);
    chunks := ChunkText(cleaned, SampleChunkLength);
    CleanTextKeepsVisible(rawText);
    NormalizedVisible(cleaned);
  }

  // ------------------------------------------------------------------
  // Properties of chunkText
  // ------------------------------------------------------------------

  /** A cleaned text is empty only when it has no visible character. */
  lemma NormalizedVisible(s: string)
    requires Normalized(s)
    ensures s != [] ==> Visible(s) != []
  {
    if s != [] {
      assert Visible(s) == [s[0]] + Visible(s[1..]);
    }
  }

  /** Empty text yields no chunk at all (not one empty chunk). */
  lemma EmptyTextHasNoChunks(text: string, maxLength: nat)
    requires maxLength >= 1
    ensures text == [] ==> Chunks(text, maxLength) == []
  {
    if text == [] {
      assert SentenceUnits(text) == [[]];
      assert Pack([[]], maxLength) == Step(Pack([], maxLength), [], maxLength);
    }
  }

  /** A chunk fits in `maxLength`, or it is the trim of a single oversized
      sentence unit. */
  ghost predicate Fits(c: string, units: seq<string>, maxLength: nat) {
    |c| <= maxLength || exists k :: 0 <= k < |units| && maxLength < |units[k]| && c == Trim(units[k])
  }

  ghost predicate PackBounded(p: Packing, units: seq<string>, maxLength: nat) {
    && (forall j :: 0 <= j < |p.chunks| ==> Fits(p.chunks[j], units, maxLength))
    && (|p.buffer| <= maxLength || exists k :: 0 <= k < |units| && maxLength < |units[k]| && p.buffer == units[k])
  }

  lemma WidenBound(p: Packing, prefix: seq<string>, units: seq<string>, maxLength: nat)
    requires |prefix| <= |units| && prefix == units[..|prefix|]
    requires PackBounded(p, prefix, maxLength)
    ensures PackBounded(p, units, maxLength)
  {
    forall c | Fits(c, prefix, maxLength) ensures Fits(c, units, maxLength) {
      if |c| > maxLength {
        var k :| 0 <= k < |prefix| && maxLength < |prefix[k]| && c == Trim(prefix[k]);
        assert units[k] == prefix[k];
      }
    }
    if |p.buffer| > maxLength {
      var k :| 0 <= k < |prefix| && maxLength < |prefix[k]| && p.buffer == prefix[k];
      assert units[k] == prefix[k];
    }
  }

  lemma StepBounded(p: Packing, units: seq<string>, maxLength: nat)
    requires maxLength >= 1 && units != []
    requires PackBounded(p, units, maxLength)
    ensures PackBounded(Step(p, units[|units| - 1], maxLength), units, maxLength)
  {
    var sentence := units[|units| - 1];
    if |p.buffer + sentence| > maxLength {
      if p.buffer != [] {
        StepFlushBounded(p, units, maxLength);
      } else {
        StepSliceBounded(p, units, maxLength);
      }
    }
  }

  /** A full buffer is pushed and the sentence becomes the new buffer. */
  lemma StepFlushBounded(p: Packing, units: seq<string>, maxLength: nat)
    requires maxLength >= 1 && units != []
    requires PackBounded(p, units, maxLength)
    requires |p.buffer + units[|units| - 1]| > maxLength && p.buffer != []
    ensures PackBounded(Step(p, units[|units| - 1], maxLength), units, maxLength)
  {
    var n := |units| - 1;
    var q := Step(p, units[n], maxLength);
    assert q == Packing(p.chunks + [Trim(p.buffer)], units[n]);
    if |p.buffer| > maxLength {
      var k :| 0 <= k < |units| && maxLength < |units[k]| && p.buffer == units[k];
      assert Fits(Trim(p.buffer), units, maxLength);
    }
    assert forall j :: 0 <= j < |q.chunks| ==> q.chunks[j] in p.chunks || q.chunks[j] == Trim(p.buffer);
    if |units[n]| > maxLength {
      assert maxLength < |units[n]| && q.buffer == units[n];
    }
  }

  /** An oversized sentence after an empty buffer is cut into slices. */
  lemma StepSliceBounded(p: Packing, units: seq<string>, maxLength: nat)
    requires maxLength >= 1 && units != []
    requires PackBounded(p, units, maxLength)
    requires |p.buffer + units[|units| - 1]| > maxLength && p.buffer == []
    ensures PackBounded(Step(p, units[|units| - 1], maxLength), units, maxLength)
  {
    var sentence := units[|units| - 1];
    SlicesProperties(sentence, maxLength);
    var pieces := Slices(sentence, maxLength);
    var q := Step(p, sentence, maxLength);
    assert q == Packing(p.chunks + pieces, p.buffer);
    assert forall j :: |p.chunks| <= j < |q.chunks| ==> q.chunks[j] == pieces[j - |p.chunks|];
  }

  lemma {:induction false} PackIsBounded(units: seq<string>, maxLength: nat)
    requires maxLength >= 1
    ensures PackBounded(Pack(units, maxLength), units, maxLength)
  {
    if units != [] {
      var prefix := units[..|units| - 1];
      PackIsBounded(prefix, maxLength);
      WidenBound(Pack(prefix, maxLength), prefix, units, maxLength);
      StepBounded(Pack(prefix, maxLength), units, maxLength);
    }
  }

  /** The chunk bound as the code has it: every chunk fits, except the trim of a
      sentence unit that was itself too long. (`ChunksAreGroups` says when
      that happens: the unit arrived while the buffer held text.) */
  lemma ChunkLengths(text: string, maxLength: nat)
    requires maxLength >= 1
    ensures forall j :: 0 <= j < |Chunks(text, maxLength)| ==>
              Fits(Chunks(text, maxLength)[j], SentenceUnits(text), maxLength)
  {
    var units := SentenceUnits(text);
    PackIsBounded(units, maxLength);
    var p := Pack(units, maxLength);
    if p.buffer != [] && |p.buffer| > maxLength {
      var k :| 0 <= k < |units| && maxLength < |units[k]| && p.buffer == units[k];
      assert Fits(Trim(p.buffer), units, maxLength);
    }
  }

  /** When no sentence unit is longer than `maxLength`, no chunk is. */
  lemma ChunksWithinLimit(text: string, maxLength: nat)
    requires maxLength >= 1
    ensures (forall k :: 0 <= k < |SentenceUnits(text)| ==> |SentenceUnits(text)[k]| <= maxLength) ==>
              forall j :: 0 <= j < |Chunks(text, maxLength)| ==> |Chunks(text, maxLength)[j]| <= maxLength
  {
    ChunkLengths(text, maxLength);
  }

  /** The visible text of a packing state: emitted chunks, then the buffer. */
  function Emitted(p: Packing): string {
    Visible(Concat(p.chunks)) + Visible(p.buffer)
  }

  lemma AppendChunk(chunks: seq<string>, c: string)
    ensures Visible(Concat(chunks + [c])) == Visible(Concat(chunks)) + Visible(c)
  {
    ConcatAppend(chunks, [c]);
    assert [c][1..] == [];
    assert Concat([c]) == c + Concat([]);
    assert Concat([c]) == c;
    assert Concat(chunks + [c]) == Concat(chunks) + c;
    VisibleAppend(Concat(chunks), c);
  }

  lemma StepKeepsOrder(p: Packing, sentence: string, maxLength: nat)
    requires maxLength >= 1
    ensures Emitted(Step(p, sentence, maxLength)) == Emitted(p) + Visible(sentence)
  {
    VisibleAppend(p.buffer, sentence);
    if |p.buffer + sentence| > maxLength {
      if p.buffer != [] {
        AppendChunk(p.chunks, Trim(p.buffer));
        VisibleTrim(p.buffer);
      } else {
        SlicesProperties(sentence, maxLength);
        ConcatAppend(p.chunks, Slices(sentence, maxLength));
        VisibleAppend(Concat(p.chunks), sentence);
      }
    }
  }

  lemma {:induction false} PackKeepsOrder(units: seq<string>, maxLength: nat)
    requires maxLength >= 1
    ensures Emitted(Pack(units, maxLength)) == Visible(Concat(units))
  {
    if units != [] {
      var n := |units| - 1;
      var prefix := units[..n];
      PackKeepsOrder(prefix, maxLength);
      StepKeepsOrder(Pack(prefix, maxLength), units[n], maxLength);
      assert units == prefix + [units[n]];
      AppendChunk(prefix, units[n]);
    }
  }

  /** Chunking keeps every visible character of the sentence units, in order:
      only whitespace at chunk boundaries is lost. */
  lemma ChunksKeepOrder(text: string, maxLength: nat)
    requires maxLength >= 1
    ensures Visible(Concat(Chunks(text, maxLength))) == Visible(Concat(SentenceUnits(text)))
  {
    var units := SentenceUnits(text);
    PackKeepsOrder(units, maxLength);
    var p := Pack(units, maxLength);
    if p.buffer != [] {
      AppendChunk(p.chunks, Trim(p.buffer));
      VisibleTrim(p.buffer);
    } else {
      assert Visible(p.buffer) == [];
    }
  }

  // ------------------------------------------------------------------
  // The chunks as groups of consecutive units
  // ------------------------------------------------------------------

  /** Consecutive sentence units `[from, to)` that were buffered together, or
      the single unit `at`, which was cut into slices. */
  datatype Group = Buffered(from: nat, to: nat) | Sliced(at: nat)

  function Start(g: Group): nat {
    match g
    case Buffered(from, _) => from
    case Sliced(at) => at
  }

  function End(g: Group): nat {
    match g
    case Buffered(_, to) => to
    case Sliced(at) => at + 1
  }

  /** `gs` cuts the units `[0, n)` into non-empty consecutive groups, in order. */
  predicate Covers(gs: seq<Group>, n: nat)
    decreases |gs|
  {
    if gs == [] then n == 0
    else
      var g := gs[|gs| - 1];
      Start(g) < End(g) == n && Covers(gs[..|gs| - 1], Start(g))
  }

  /** What one group emits: its trimmed text, unless the buffer was empty,
      or the slices of its unit. */
  function Piece(units: seq<string>, g: Group, maxLength: nat): seq<string>
    requires maxLength >= 1 && Start(g) < End(g) <= |units|
  {
    match g
    case Buffered(from, to) =>
      var c := Concat(units[from..to]);
      if c != [] then [Trim(c)] else []
    case Sliced(at) => Slices(units[at], maxLength)
  }

  /** What the groups emit, in order. */
  function Render(units: seq<string>, gs: seq<Group>, n: nat, maxLength: nat): seq<string>
    requires maxLength >= 1 && n <= |units| && Covers(gs, n)
    decreases |gs|
  {
    if gs == [] then []
    else
      var g := gs[|gs| - 1];
      Render(units, gs[..|gs| - 1], Start(g), maxLength) + Piece(units, g, maxLength)
  }

  /** The greedy rule for one group. A group of several units fits in
      `maxLength`; a group that is followed by a unit was closed because that
      unit did not fit after it; a sliced unit alone exceeds `maxLength`. */
  ghost predicate GroupFits(units: seq<string>, g: Group, maxLength: nat) {
    match g
    case Buffered(from, to) =>
      && from < to <= |units|
      && (to == from + 1 || |Concat(units[from..to])| <= maxLength)
      && (to < |units| ==> |Concat(units[from..to]) + units[to]| > maxLength)
    case Sliced(at) => at < |units| && |units[at]| > maxLength
  }

  /** The buffer is empty once the groups `gs` are emitted: nothing was
      grouped yet, the last group was sliced, or it held only empty units. */
  ghost predicate EmptyAfter(units: seq<string>, gs: seq<Group>) {
    gs == [] ||
    match gs[|gs| - 1]
    case Sliced(_) => true
    case Buffered(from, to) => from <= to <= |units| && Concat(units[from..to]) == []
  }

  /** `g` follows the groups `prev` by the greedy rule, and is sliced exactly
      when its unit alone exceeds `maxLength` and the buffer before it is empty:
      an oversized unit after a non-empty buffer starts a new buffer whole. */
  ghost predicate GroupFollows(units: seq<string>, prev: seq<Group>, g: Group, maxLength: nat) {
    && GroupFits(units, g, maxLength)
    && (g.Sliced? <==> Start(g) < |units| && |units[Start(g)]| > maxLength && EmptyAfter(units, prev))
  }

  ghost predicate Greedy(units: seq<string>, gs: seq<Group>, maxLength: nat) {
    forall j :: 0 <= j < |gs| ==> GroupFollows(units, gs[..j], gs[j], maxLength)
  }

  /** The chunks are what a greedy grouping of the sentence units emits: each
      chunk is the trim of a run of consecutive units, or a slice of one unit
      too long on its own, and every unit is in exactly one group. */
  lemma ChunksAreGroups(text: string, maxLength: nat)
    requires maxLength >= 1
    ensures var units := SentenceUnits(text);
            exists gs :: Covers(gs, |units|) && Greedy(units, gs, maxLength) &&
                         Chunks(text, maxLength) == Render(units, gs, |units|, maxLength)
  {
    var units := SentenceUnits(text);
    var n := |units|;
    assert units[..n] == units;
    var gs, b := PlanInvariant(units, n, maxLength);
    var p := Pack(units, maxLength);
    if b < n {
      var g := Buffered(b, n);
      AppendGroup(units, gs, b, g, maxLength);
      assert GroupFollows(units, gs, g, maxLength);
      assert Chunks(text, maxLength) == Render(units, gs + [g], n, maxLength);
    } else {
      assert p.buffer == [];
      assert Chunks(text, maxLength) == Render(units, gs, n, maxLength);
    }
  }

  /** An oversized unit that follows a non-empty buffer is not sliced: of the
      two ways to group a fitting unit and an oversized one, only keeping the
      oversized unit whole is greedy. */
  lemma NoSliceAfterBuffer(units: seq<string>, maxLength: nat)
    requires maxLength >= 1 && |units| == 2
    requires units[0] != [] && |units[0]| <= maxLength && |units[1]| > maxLength
    ensures !Greedy(units, [Buffered(0, 1), Sliced(1)], maxLength)
    ensures Greedy(units, [Buffered(0, 1), Buffered(1, 2)], maxLength)
  {
    UnitSlice(units, 0);
    UnitSlice(units, 1);
    var sliced := [Buffered(0, 1), Sliced(1)];
    assert sliced[..1] == [Buffered(0, 1)];
    assert !GroupFollows(units, sliced[..1], sliced[1], maxLength);
    var whole := [Buffered(0, 1), Buffered(1, 2)];
    assert whole[..0] == [] && whole[..1] == [Buffered(0, 1)];
    assert GroupFollows(units, whole[..0], whole[0], maxLength);
    assert GroupFollows(units, whole[..1], whole[1], maxLength);
  }

  /** The state `p` of the packing loop after `k` units, described by
      groups: the closed groups cover `[0, b)` and emitted the chunks so far,
      and the buffer holds units `[b, k)`. */
  ghost predicate Describes(units: seq<string>, k: nat, p: Packing, gs: seq<Group>, b: nat, maxLength: nat)
    requires maxLength >= 1 && k <= |units|
  {
    && b <= k
    && Covers(gs, b)
    && Greedy(units, gs, maxLength)
    && p.chunks == Render(units, gs, b, maxLength)
    && p.buffer == Concat(units[b..k])
    && (k - b >= 2 ==> |p.buffer| <= maxLength)
    && (b == k ==> EmptyAfter(units, gs))
    && (b < k ==> !(|units[b]| > maxLength && EmptyAfter(units, gs)))
  }

  lemma {:induction false} PlanInvariant(units: seq<string>, k: nat, maxLength: nat) returns (gs: seq<Group>, b: nat)
    requires maxLength >= 1 && k <= |units|
    ensures Describes(units, k, Pack(units[..k], maxLength), gs, b, maxLength)
    decreases k
  {
    if k == 0 {
      gs, b := [], 0;
      assert units[..0] == [];
    } else {
      var gs0, b0 := PlanInvariant(units, k - 1, maxLength);
      var p := Pack(units[..k - 1], maxLength);
      PackSnoc(units, k - 1, maxLength);
      var s := units[k - 1];
      if |p.buffer + s| > maxLength {
        if p.buffer != [] {
          gs, b := PlanClose(units, k - 1, p, gs0, b0, maxLength);
        } else {
          gs, b := PlanSlice(units, k - 1, p, gs0, b0, maxLength);
        }
      } else {
        gs, b := PlanExtend(units, k - 1, p, gs0, b0, maxLength);
      }
    }
  }

  /** The packing loop after one unit more. */
  lemma PackSnoc(units: seq<string>, k: nat, maxLength: nat)
    requires maxLength >= 1 && k < |units|
    ensures Pack(units[..k + 1], maxLength) == Step(Pack(units[..k], maxLength), units[k], maxLength)
  {
    assert units[..k + 1][..k] == units[..k];
  }

  /** A unit that fits joins the buffer's group. */
  lemma PlanExtend(units: seq<string>, k: nat, p: Packing, gs: seq<Group>, b: nat, maxLength: nat) returns (gs': seq<Group>, b': nat)
    requires maxLength >= 1 && k < |units|
    requires Describes(units, k, p, gs, b, maxLength)
    requires |p.buffer + units[k]| <= maxLength
    ensures Describes(units, k + 1, Packing(p.chunks, p.buffer + units[k]), gs', b', maxLength)
  {
    ConcatSnoc(units, b, k);
    gs', b' := gs, b;
  }

  /** A unit that does not fit after a non-empty buffer closes the buffer's
      group and starts a new buffer. */
  lemma PlanClose(units: seq<string>, k: nat, p: Packing, gs: seq<Group>, b: nat, maxLength: nat) returns (gs': seq<Group>, b': nat)
    requires maxLength >= 1 && k < |units|
    requires Describes(units, k, p, gs, b, maxLength)
    requires p.buffer != [] && |p.buffer + units[k]| > maxLength
    ensures Describes(units, k + 1, Packing(p.chunks + [Trim(p.buffer)], units[k]), gs', b', maxLength)
  {
    var g := Buffered(b, k);
    assert GroupFollows(units, gs, g, maxLength);
    AppendGroup(units, gs, b, g, maxLength);
    gs', b' := gs + [g], k;
    assert !EmptyAfter(units, gs');
    assert Piece(units, g, maxLength) == [Trim(p.buffer)];
    UnitSlice(units, k);
  }

  lemma UnitSlice(units: seq<string>, k: nat)
    requires k < |units|
    ensures Concat(units[k..k + 1]) == units[k]
  {
    assert units[k..k + 1] == [units[k]];
    assert Concat([units[k]]) == units[k] + Concat([]);
  }

  /** A unit that does not fit in an empty buffer is sliced on its own; the
      buffer's group, holding only empty units, is closed before it. */
  lemma PlanSlice(units: seq<string>, k: nat, p: Packing, gs: seq<Group>, b: nat, maxLength: nat) returns (gs': seq<Group>, b': nat)
    requires maxLength >= 1 && k < |units|
    requires Describes(units, k, p, gs, b, maxLength)
    requires p.buffer == [] && |p.buffer + units[k]| > maxLength
    ensures Describes(units, k + 1, Packing(p.chunks + Slices(units[k], maxLength), p.buffer), gs', b', maxLength)
  {
    var closed := gs;
    if b < k {
      closed := gs + [Buffered(b, k)];
      AppendGroup(units, gs, b, Buffered(b, k), maxLength);
      assert GroupFollows(units, gs, Buffered(b, k), maxLength);
    }
    assert Covers(closed, k) && Greedy(units, closed, maxLength) && EmptyAfter(units, closed);
    assert Render(units, closed, k, maxLength) == p.chunks;
    var g := Sliced(k);
    AppendGroup(units, closed, k, g, maxLength);
    assert GroupFollows(units, closed, g, maxLength);
    gs', b' := closed + [g], k + 1;
    assert units[k + 1..k + 1] == [];
  }

  /** The buffer after one more unit. */
  lemma ConcatSnoc(units: seq<string>, b: nat, k: nat)
    requires b <= k < |units|
    ensures Concat(units[b..k + 1]) == Concat(units[b..k]) + units[k]
  {
    assert units[b..k + 1] == units[b..k] + [units[k]];
    ConcatAppend(units[b..k], [units[k]]);
    assert Concat([units[k]]) == units[k] + Concat([]);
  }

  /** Closing one more group. */
  lemma AppendGroup(units: seq<string>, gs: seq<Group>, n: nat, g: Group, maxLength: nat)
    requires maxLength >= 1 && Covers(gs, n) && Start(g) == n < End(g) <= |units|
    ensures Covers(gs + [g], End(g))
    ensures Render(units, gs + [g], End(g), maxLength) == Render(units, gs, n, maxLength) + Piece(units, g, maxLength)
    ensures Greedy(units, gs, maxLength) && GroupFollows(units, gs, g, maxLength) ==> Greedy(units, gs + [g], maxLength)
  {
    var gs' := gs + [g];
    assert gs'[..|gs|] == gs;
    forall j | 0 <= j < |gs| ensures gs'[..j] == gs[..j] && gs'[j] == gs[j] {
    }
  }

  // ------------------------------------------------------------------
  // Worked examples
  // ------------------------------------------------------------------

  /** No character of `s` is a terminator (stated through its multiset, which
      the verifier evaluates on literals). */
  ghost predicate Unterminated(s: string) {
    '.' !in multiset(s) && '!' !in multiset(s) && '?' !in multiset(s)
  }

  lemma UnterminatedAt(s: string)
    requires Unterminated(s)
    ensures forall i :: 0 <= i < |s| ==> !IsTerminator(s[i])
  {
    forall i | 0 <= i < |s| ensures !IsTerminator(s[i]) {
      assert s[i] in multiset(s);
    }
  }

  /** A body without terminators, one terminator and a rest that does not
      start with one: the first match is body and terminator. */
  lemma ScanUnit(body: string, t: char, rest: string)
    requires body != [] && Unterminated(body) && IsTerminator(t)
    requires rest == [] || !IsTerminator(rest[0])
    ensures Scan(body + [t] + rest) == [body + [t]] + Scan(rest)
  {
    var s := body + [t] + rest;
    var n := |body|;
    UnterminatedAt(body);
    assert forall i :: 0 <= i < n ==> s[i] == body[i];
    assert s[n] == t;
    assert Body(s) == n;
    var u := s[n..];
    assert u[0] == t && (|u| > 1 ==> u[1] == rest[0]);
    assert Lead(u) == 1;
    assert s[..n + 1] == body + [t] && s[n + 1..] == rest;
  }

  /** Text without a terminator has no match. */
  lemma ScanNone(s: string)
    requires Unterminated(s)
    ensures Scan(s) == []
  {
    UnterminatedAt(s);
    if s != [] {
      assert Body(s) == |s|;
    }
  }

  lemma ScanLastUnit(text: string)
    requires text == " Bcd."
    ensures Scan(text) == [text]
  {
    var body := " Bcd";
    var w := body + ['.'];
    ScanUnit(body, '.', "");
    assert w + "" == w;
    ScanNone("");
    assert w == text;
  }

  /** "A. Bcd." splits into the units "A." and " Bcd." (the space stays
      with the second unit). */
  lemma TwoUnits(text: string)
    requires text == "A. Bcd."
    ensures SentenceUnits(text) == ["A.", " Bcd."]
  {
    var rest := " Bcd.";
    var a := "A" + ['.'];
    assert a + rest == text;
    ScanUnit("A", '.', rest);
    assert Scan(text) == [a] + Scan(rest);
    ScanLastUnit(rest);
    assert a == "A.";
    assert [a] + [rest] == ["A.", " Bcd."];
  }

  lemma OneUnit(text: string)
    requires text == "A. bc"
    ensures SentenceUnits(text) == ["A."]
  {
    var rest := " bc";
    var a := "A" + ['.'];
    assert a + rest == text;
    ScanUnit("A", '.', rest);
    ScanNone(rest);
    assert a == "A.";
    assert [a] + [] == ["A."];
  }

  lemma PackOne(a: string, maxLength: nat)
    requires 1 <= |a| <= maxLength
    ensures Pack([a], maxLength) == Packing([], a)
  {
    assert [a][..0] == [];
    assert [] + a == a;
  }

  /** Text after the last terminator belongs to no unit and is dropped. */
  lemma TrailingTextDropped(text: string)
    requires text == "A. bc"
    ensures Chunks(text, SampleChunkLength) == ["A."]
  {
    OneUnit(text);
    FlushSingle(SentenceUnits(text), "A.", SampleChunkLength);
  }

  /** A single unit that fits and has no whitespace at its ends is the one chunk. */
  lemma FlushSingle(units: seq<string>, a: string, maxLength: nat)
    requires units == [a] && 1 <= |a| <= maxLength
    requires !IsSpace(a[0]) && !IsSpace(a[|a| - 1])
    ensures Flush(Pack(units, maxLength)) == [a]
  {
    PackOne(a, maxLength);
    TrimUnchanged(a);
  }

  /** Two units where the first fits and the pair does not: the first is
      emitted, the second becomes the buffer whole. */
  lemma PackPair(a: string, w: string, maxLength: nat)
    requires 1 <= maxLength && a != [] && |a| <= maxLength < |a| + |w|
    ensures Pack([a, w], maxLength) == Packing([Trim(a)], w)
  {
    var units := [a, w];
    assert units[..1] == [a] && units[..1][..0] == [];
    assert [] + a == a;
    assert Pack(units[..1], maxLength) == Packing([], a);
  }

  /** Trimming one leading space. */
  lemma TrimOneSpace(w: string)
    requires |w| >= 2 && IsSpace(w[0]) && !IsSpace(w[1]) && !IsSpace(w[|w| - 1])
    ensures Trim(w) == w[1..]
  {
    assert TrimStart(w) == TrimStart(w[1..]);
    TrimUnchanged(w[1..]);
  }

  lemma PackTwoUnits(text: string)
    requires text == "A. Bcd."
    ensures Pack(SentenceUnits(text), 3) == Packing([Trim("A.")], " Bcd.")
  {
    TwoUnits(text);
    PackPair("A.", " Bcd.", 3);
  }

  lemma TrimTwoUnits()
    ensures Trim("A.") == "A." && Trim(" Bcd.") == "Bcd."
  {
    TrimUnchanged("A.");
    TrimOneSpace(" Bcd.");
  }

  /** An oversized unit that arrives while the buffer holds text is emitted
      whole, unsplit: "Bcd." has 4 characters against a limit of 3. */
  lemma OversizedUnitAfterBuffer(text: string)
    requires text == "A. Bcd."
    ensures Chunks(text, 3) == ["A.", "Bcd."]
    ensures |Chunks(text, 3)[1]| > 3
  {
    PackTwoUnits(text);
    var p := Pack(SentenceUnits(text), 3);
    assert Chunks(text, 3) == Flush(p);
    assert Flush(p) == [Trim("A.")] + [Trim(" Bcd.")];
    TrimTwoUnits();
    assert [Trim("A.")] + [Trim(" Bcd.")] == ["A.", "Bcd."];
  }

  lemma SingleUnit(text: string)
    requires text == "Bcd."
    ensures SentenceUnits(text) == [text]
  {
    var body := "Bcd";
    var w := body + ['.'];
    ScanUnit(body, '.', "");
    assert w + "" == w;
    ScanNone("");
    assert w == text;
  }

  lemma SlicesOfFour(text: string)
    requires text == "Bcd."
    ensures Slices(text, 3) == ["Bcd", "."]
  {
    assert text[..3] == "Bcd" && text[3..] == ".";
    assert Slices(text, 3) == [text[..3]] + Slices(text[3..], 3);
  }

  /** An oversized unit met with an empty buffer is cut into slices. */
  lemma OversizedUnitSplit(text: string)
    requires text == "Bcd."
    ensures Chunks(text, 3) == ["Bcd", "."]
  {
    SingleUnit(text);
    SlicesOfFour(text);
    assert [text][..0] == [];
    assert Pack([text], 3) == Packing([] + Slices(text, 3), []);
  }
}
