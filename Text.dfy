/**
  Character classes and string operations shared by the style-profile engine.

  The source relies on JavaScript regular-expression classes and String
  methods. They are modelled on ASCII: `\s` is space, tab, line feed,
  carriage return, vertical tab and form feed; `\w` is letters, digits and
  underscore; a sentence terminator is one of `.`, `!`, `?`; `trim`,
  `toLowerCase` and `toUpperCase` act on those classes only.
*/
module Text {

  predicate IsSpace(c: char) {
    c == ' ' || c == '\t' || c == '\n' || c == '\r' || c == '\U{000B}' || c == '\U{000C}'
  }

  predicate IsWordChar(c: char) {
    ('a' <= c <= 'z') || ('A' <= c <= 'Z') || ('0' <= c <= '9') || c == '_'
  }

  predicate IsTerminator(c: char) {
    c == '.' || c == '!' || c == '?'
  }

  predicate NotSpace(c: char) {
    !IsSpace(c)
  }

  function LowerChar(c: char): char {
    if 'A' <= c <= 'Z' then (c as int + 32) as char else c
  }

  function UpperChar(c: char): char {
    if 'a' <= c <= 'z' then (c as int - 32) as char else c
  }

  /** `toLowerCase` */
  function Lower(s: string): string {
    seq(|s|, i requires 0 <= i < |s| => LowerChar(s[i]))
  }

  /** `trimStart`: the suffix of `s` left after dropping leading whitespace. */
  function TrimStart(s: string): (r: string)
    ensures |r| <= |s| && r == s[|s| - |r|..]
    ensures r == [] || !IsSpace(r[0])
    ensures forall i :: 0 <= i < |s| - |r| ==> IsSpace(s[i])
  {
    if s != [] && IsSpace(s[0]) then TrimStart(s[1..]) else s
  }

  /** `trimEnd`: the prefix of `s` left after dropping trailing whitespace. */
  function TrimEnd(s: string): (r: string)
    ensures |r| <= |s| && r == s[..|r|]
    ensures r == [] || !IsSpace(r[|r| - 1])
    ensures forall i :: |r| <= i < |s| ==> IsSpace(s[i])
  {
    if s != [] && IsSpace(s[|s| - 1]) then TrimEnd(s[..|s| - 1]) else s
  }

  /** `trim`: a contiguous slice of `s` with no whitespace at either end,
      everything cut off being whitespace. */
  function Trim(s: string): (r: string)
    ensures |r| <= |s|
    ensures r == [] || (!IsSpace(r[0]) && !IsSpace(r[|r| - 1]))
  {
    TrimEnd(TrimStart(s))
  }

  /** Where the trimmed text starts in `s`: it is the slice of `s` from there. */
  function TrimOffset(s: string): (k: nat)
    ensures k + |Trim(s)| <= |s|
    ensures forall i :: 0 <= i < |Trim(s)| ==> Trim(s)[i] == s[k + i]
  {
    var t := TrimStart(s);
    assert forall i :: 0 <= i < |TrimEnd(t)| ==> TrimEnd(t)[i] == t[i];
    |s| - |t|
  }

  /** Trimming text that has no whitespace at either end changes nothing. */
  lemma TrimUnchanged(s: string)
    requires s == [] || (!IsSpace(s[0]) && !IsSpace(s[|s| - 1]))
    ensures Trim(s) == s
  {
    assert TrimStart(s) == s;
  }

  /** `trim` keeps exactly the slice from the first to the last character
      that is not whitespace. */
  lemma TrimIs(s: string, lo: nat, hi: nat)
    requires lo <= hi <= |s|
    requires forall i :: 0 <= i < lo ==> IsSpace(s[i])
    requires forall i :: hi <= i < |s| ==> IsSpace(s[i])
    requires lo < hi ==> !IsSpace(s[lo]) && !IsSpace(s[hi - 1])
    ensures Trim(s) == s[lo..hi]
  {
    var t := TrimStart(s);
    if lo < hi {
      assert |s| - |t| == lo;
      assert t == s[lo..];
      var r := TrimEnd(t);
      assert |r| == hi - lo;
    }
  }

  /** The slice `[from, to)` of `s` trims to its part `[lo, hi)`. */
  lemma TrimSlice(s: string, from: nat, to: nat, lo: nat, hi: nat)
    requires from <= lo <= hi <= to <= |s|
    requires forall k :: from <= k < lo ==> IsSpace(s[k])
    requires forall k :: hi <= k < to ==> IsSpace(s[k])
    requires lo < hi ==> !IsSpace(s[lo]) && !IsSpace(s[hi - 1])
    ensures Trim(s[from..to]) == s[lo..hi]
  {
    var t := s[from..to];
    forall k | 0 <= k < lo - from
      ensures IsSpace(t[k])
    {
      assert t[k] == s[from + k];
    }
    forall k | hi - from <= k < |t|
      ensures IsSpace(t[k])
    {
      assert t[k] == s[from + k];
    }
    TrimIs(t, lo - from, hi - from);
    SliceOfSlice(s, from, to, lo, hi);
  }

  lemma SliceOfSlice(s: string, from: nat, to: nat, lo: nat, hi: nat)
    requires from <= lo <= hi <= to <= |s|
    ensures s[from..to][lo - from..hi - from] == s[lo..hi]
  {
    var u := s[from..to][lo - from..hi - from];
    assert forall k :: 0 <= k < hi - lo ==> u[k] == s[lo + k];
  }

  /** Text with a character that is not whitespace does not trim to nothing. */
  lemma TrimNonEmpty(s: string, k: nat)
    requires k < |s| && !IsSpace(s[k])
    ensures Trim(s) != []
  {
    var t := TrimStart(s);
    assert t[k - (|s| - |t|)] == s[k];
  }

  /** The characters of `s` that are not whitespace, in order. */
  function Visible(s: string): string {
    if s == [] then []
    else if IsSpace(s[0]) then Visible(s[1..])
    else [s[0]] + Visible(s[1..])
  }

  lemma {:induction false} VisibleAppend(a: string, b: string)
    ensures Visible(a + b) == Visible(a) + Visible(b)
  {
    if a != [] {
      assert (a + b)[0] == a[0] && (a + b)[1..] == a[1..] + b;
      VisibleAppend(a[1..], b);
    } else {
      assert a + b == b;
    }
  }

  lemma {:induction false} VisibleOfSpaces(s: string)
    requires forall i :: 0 <= i < |s| ==> IsSpace(s[i])
    ensures Visible(s) == []
  {
    if s != [] {
      VisibleOfSpaces(s[1..]);
    }
  }

  /** Trimming only ever removes whitespace. */
  lemma VisibleTrim(s: string)
    ensures Visible(Trim(s)) == Visible(s)
  {
    VisibleTrimStart(s);
    VisibleTrimEnd(TrimStart(s));
  }

  lemma VisibleTrimStart(s: string)
    ensures Visible(TrimStart(s)) == Visible(s)
  {
    var t := TrimStart(s);
    var k := |s| - |t|;
    assert s == s[..k] + t;
    VisibleAppend(s[..k], t);
    VisibleOfSpaces(s[..k]);
  }

  lemma VisibleTrimEnd(t: string)
    ensures Visible(TrimEnd(t)) == Visible(t)
  {
    var r := TrimEnd(t);
    assert t == r + t[|r|..];
    VisibleAppend(r, t[|r|..]);
    VisibleOfSpaces(t[|r|..]);
  }

  /** Concatenation of a sequence of strings (`chunks.join('')`). */
  function Concat(ss: seq<string>): string {
    if ss == [] then [] else ss[0] + Concat(ss[1..])
  }

  lemma {:induction false} ConcatAppend(a: seq<string>, b: seq<string>)
    ensures Concat(a + b) == Concat(a) + Concat(b)
  {
    if a != [] {
      assert (a + b)[0] == a[0] && (a + b)[1..] == a[1..] + b;
      ConcatAppend(a[1..], b);
    } else {
      assert a + b == b;
    }
  }

  /** Index of the first occurrence of `c` in `s`, or `|s|` when there is none. */
  function IndexOf(s: string, c: char): (i: nat)
    ensures i <= |s|
    ensures forall j :: 0 <= j < i ==> s[j] != c
    ensures i < |s| ==> s[i] == c
  {
    if s == [] then 0
    else if s[0] == c then 0
    else 1 + IndexOf(s[1..], c)
  }

  /** `s.split(sep)` for a one-character separator. */
  function Split(s: string, sep: char): (parts: seq<string>)
    ensures |parts| >= 1
    decreases |s|
  {
    var i := IndexOf(s, sep);
    if i == |s| then [s] else [s[..i]] + Split(s[i + 1..], sep)
  }

  /** `parts.join(sep)` */
  function Join(parts: seq<string>, sep: char): string {
    if parts == [] then []
    else if |parts| == 1 then parts[0]
    else parts[0] + [sep] + Join(parts[1..], sep)
  }

  lemma JoinCons(w: string, ws: seq<string>, sep: char)
    requires ws != []
    ensures Join([w] + ws, sep) == w + [sep] + Join(ws, sep)
  {
    assert ([w] + ws)[1..] == ws;
  }

  /** Splitting on a separator and joining the parts back on it restores the text,
      and no part contains the separator. */
  lemma {:induction false} JoinSplit(s: string, sep: char)
    ensures Join(Split(s, sep), sep) == s
    ensures forall k :: 0 <= k < |Split(s, sep)| ==> sep !in Split(s, sep)[k]
    decreases |s|
  {
    var i := IndexOf(s, sep);
    if i < |s| {
      JoinSplit(s[i + 1..], sep);
      assert s == s[..i] + [sep] + s[i + 1..];
    }
  }

  /** The first part is the text before the first separator; the remaining
      parts, joined back, are the text after it. */
  lemma SplitFirst(s: string, sep: char)
    ensures var i := IndexOf(s, sep);
            var parts := Split(s, sep);
            parts[0] == s[..i] &&
            Join(parts[1..], sep) == (if i < |s| then s[i + 1..] else [])
  {
    var i := IndexOf(s, sep);
    if i < |s| {
      JoinSplit(s[i + 1..], sep);
    }
  }

  /** Length of the longest prefix of `s` whose characters are all in class `p`. */
  function Span(s: string, p: char -> bool): (n: nat)
    ensures n <= |s|
    ensures forall i :: 0 <= i < n ==> p(s[i])
    ensures n < |s| ==> !p(s[n])
  {
    if s != [] && p(s[0]) then 1 + Span(s[1..], p) else 0
  }

  /** The maximal runs of characters of class `p`, in order: what a global
      match of `p+` returns (`/\S+/g`, `/\w+/g`, `/[.!?]+/g`). */
  function Runs(s: string, p: char -> bool): (rs: seq<string>)
    ensures forall k :: 0 <= k < |rs| ==> rs[k] != []
    ensures forall k, i :: 0 <= k < |rs| && 0 <= i < |rs[k]| ==> p(rs[k][i])
    decreases |s|
  {
    if s == [] then []
    else if !p(s[0]) then Runs(s[1..], p)
    else
      var n := Span(s, p);
      [s[..n]] + Runs(s[n..], p)
  }

  /** The filter of `s` by class `p`. */
  function Keep(s: string, p: char -> bool): string {
    if s == [] then [] else (if p(s[0]) then [s[0]] else []) + Keep(s[1..], p)
  }

  lemma {:induction false} KeepAppend(a: string, b: string, p: char -> bool)
    ensures Keep(a + b, p) == Keep(a, p) + Keep(b, p)
  {
    if a != [] {
      assert (a + b)[0] == a[0] && (a + b)[1..] == a[1..] + b;
      KeepAppend(a[1..], b, p);
    } else {
      assert a + b == b;
    }
  }

  lemma {:induction false} KeepAll(s: string, p: char -> bool)
    requires forall i :: 0 <= i < |s| ==> p(s[i])
    ensures Keep(s, p) == s
  {
    if s != [] {
      KeepAll(s[1..], p);
    }
  }

  /** The runs of a class lose no character of that class and add nothing:
      concatenated, they are exactly the characters of that class in order. */
  lemma {:induction false} RunsCoverClass(s: string, p: char -> bool)
    ensures Concat(Runs(s, p)) == Keep(s, p)
    decreases |s|
  {
    if s == [] {
    } else if !p(s[0]) {
      RunsCoverClass(s[1..], p);
    } else {
      var n := Span(s, p);
      RunsCoverClass(s[n..], p);
      assert s == s[..n] + s[n..];
      KeepAppend(s[..n], s[n..], p);
      KeepAll(s[..n], p);
    }
  }

  /** `Span` is the length of the longest prefix in the class. */
  lemma SpanIs(s: string, p: char -> bool, k: nat)
    requires k <= |s|
    requires forall i :: 0 <= i < k ==> p(s[i])
    requires k < |s| ==> !p(s[k])
    ensures Span(s, p) == k
  {
  }

  /** A prefix with no character of the class adds no run. */
  lemma {:induction false} RunsSkip(a: string, b: string, p: char -> bool)
    requires forall i :: 0 <= i < |a| ==> !p(a[i])
    ensures Runs(a + b, p) == Runs(b, p)
  {
    if a != [] {
      assert (a + b)[1..] == a[1..] + b;
      RunsSkip(a[1..], b, p);
    } else {
      assert a + b == b;
    }
  }

  /** A text that starts outside the class does not lengthen a prefix's span. */
  lemma SpanAppend(a: string, b: string, p: char -> bool)
    requires b == [] || !p(b[0])
    ensures Span(a + b, p) == Span(a, p)
  {
    var s := a + b;
    var n := Span(a, p);
    forall i | 0 <= i < n ensures p(s[i]) {
      assert s[i] == a[i];
    }
    if n < |a| {
      assert s[n] == a[n];
    } else if n < |s| {
      assert s[n] == b[0];
    }
    SpanIs(s, p, n);
  }

  /** The runs of `a + b` are those of `a` and then those of `b` when `b`
      starts outside the class, so no run crosses the boundary. */
  lemma {:induction false} RunsAppend(a: string, b: string, p: char -> bool)
    requires b == [] || !p(b[0])
    ensures Runs(a + b, p) == Runs(a, p) + Runs(b, p)
    decreases |a|
  {
    if a == [] {
      assert a + b == b;
    } else if !p(a[0]) {
      RunsAppend(a[1..], b, p);
      RunsAppendOutside(a, b, p);
    } else {
      var n := Span(a, p);
      RunsAppend(a[n..], b, p);
      RunsAppendInside(a, b, p);
    }
  }

  lemma RunsAppendOutside(a: string, b: string, p: char -> bool)
    requires a != [] && !p(a[0])
    requires Runs(a[1..] + b, p) == Runs(a[1..], p) + Runs(b, p)
    ensures Runs(a + b, p) == Runs(a, p) + Runs(b, p)
  {
    var s := a + b;
    assert s[0] == a[0] && s[1..] == a[1..] + b;
  }

  lemma RunsAppendInside(a: string, b: string, p: char -> bool)
    requires a != [] && p(a[0]) && (b == [] || !p(b[0]))
    requires Runs(a[Span(a, p)..] + b, p) == Runs(a[Span(a, p)..], p) + Runs(b, p)
    ensures Runs(a + b, p) == Runs(a, p) + Runs(b, p)
  {
    var n := Span(a, p);
    RunsFrontAppend(a, b, p);
    RunsFront(a, p);
    Regroup([a[..n]], Runs(a[n..], p), Runs(b, p), Runs(a[n..] + b, p), Runs(a + b, p), Runs(a, p));
  }

  /** `l == h + m`, `m == t + o` and `r == h + t` give `l == r + o`. */
  lemma Regroup<T>(h: seq<T>, t: seq<T>, o: seq<T>, m: seq<T>, l: seq<T>, r: seq<T>)
    requires l == h + m && m == t + o && r == h + t
    ensures l == r + o
  {
    assert h + (t + o) == (h + t) + o;
  }

  /** The first run of `a + b` is the first run of `a`. */
  lemma RunsFrontAppend(a: string, b: string, p: char -> bool)
    requires a != [] && p(a[0]) && (b == [] || !p(b[0]))
    ensures Runs(a + b, p) == [a[..Span(a, p)]] + Runs(a[Span(a, p)..] + b, p)
  {
    var n := Span(a, p);
    SpanAppend(a, b, p);
    AppendSlices(a, b, n);
    assert (a + b)[0] == a[0];
    RunsFront(a + b, p);
  }

  /** Slicing `a + b` at a point inside `a`. */
  lemma AppendSlices<T>(a: seq<T>, b: seq<T>, n: nat)
    requires n <= |a|
    ensures (a + b)[..n] == a[..n] && (a + b)[n..] == a[n..] + b
  {
  }

  /** A text that starts outside the class has the runs of its tail. */
  lemma RunsOutside(s: string, p: char -> bool)
    requires s != [] && !p(s[0])
    ensures Runs(s, p) == Runs(s[1..], p)
  {
  }

  /** The first run of a text that starts in the class. */
  lemma RunsFront(s: string, p: char -> bool)
    requires s != [] && p(s[0])
    ensures Runs(s, p) == [s[..Span(s, p)]] + Runs(s[Span(s, p)..], p)
  {
  }

  /** A non-empty text all in the class is one run. */
  lemma RunsWhole(w: string, p: char -> bool)
    requires w != [] && forall i :: 0 <= i < |w| ==> p(w[i])
    ensures Runs(w, p) == [w]
  {
    SpanIs(w, p, |w|);
    assert w[..|w|] == w && w[|w|..] == [];
  }

  /** Prepending a character of the class extends the first run when the text
      starts in the class, and makes a run of its own otherwise. */
  lemma RunsCons(c: char, x: string, p: char -> bool)
    requires p(c)
    ensures x != [] && p(x[0]) ==> Runs(x, p) != [] && Runs([c] + x, p) == [[c] + Runs(x, p)[0]] + Runs(x, p)[1..]
    ensures !(x != [] && p(x[0])) ==> Runs([c] + x, p) == [[c]] + Runs(x, p)
  {
    if x != [] && p(x[0]) {
      RunsConsInside(c, x, p);
    } else {
      RunsConsOutside(c, x, p);
    }
  }

  lemma RunsConsInside(c: char, x: string, p: char -> bool)
    requires p(c) && x != [] && p(x[0])
    ensures Runs(x, p) != [] && Runs([c] + x, p) == [[c] + Runs(x, p)[0]] + Runs(x, p)[1..]
  {
    var n := Span(x, p);
    SpanCons(c, x, p);
    ConsSlices(c, x, n);
    RunsFront([c] + x, p);
    RunsFront(x, p);
  }

  lemma RunsConsOutside(c: char, x: string, p: char -> bool)
    requires p(c) && !(x != [] && p(x[0]))
    ensures Runs([c] + x, p) == [[c]] + Runs(x, p)
  {
    SpanCons(c, x, p);
    ConsSlices(c, x, 0);
    RunsFront([c] + x, p);
    assert x[0..] == x;
  }

  lemma SpanCons(c: char, x: string, p: char -> bool)
    requires p(c)
    ensures Span([c] + x, p) == 1 + Span(x, p)
  {
    assert ([c] + x)[0] == c && ([c] + x)[1..] == x;
  }

  /** Slicing `[c] + x` one past a point of `x`. */
  lemma ConsSlices<T>(c: T, x: seq<T>, n: nat)
    requires n <= |x|
    ensures ([c] + x)[..n + 1] == [c] + x[..n] && ([c] + x)[n + 1..] == x[n..]
  {
  }

  /** Joining non-empty runs of a class with a separator outside it, then
      taking the runs again, gives the parts back. */
  lemma {:induction false} RunsOfJoin(ws: seq<string>, c: char, p: char -> bool)
    requires !p(c)
    requires forall k :: 0 <= k < |ws| ==> ws[k] != [] && forall i :: 0 <= i < |ws[k]| ==> p(ws[k][i])
    ensures Runs(Join(ws, c), p) == ws
  {
    if |ws| == 1 {
      RunsWhole(ws[0], p);
    } else if |ws| > 1 {
      RunsOfJoin(ws[1..], c, p);
      RunsOfJoinStep(ws[0], ws[1..], c, p);
      assert ws == [ws[0]] + ws[1..];
    }
  }

  /** One more part in front of the separator. */
  lemma RunsOfJoinStep(w: string, ws: seq<string>, c: char, p: char -> bool)
    requires !p(c) && ws != []
    requires w != [] && forall i :: 0 <= i < |w| ==> p(w[i])
    ensures Runs(Join([w] + ws, c), p) == [w] + Runs(Join(ws, c), p)
  {
    var rest := Join(ws, c);
    JoinCons(w, ws, c);
    assert w + [c] + rest == w + ([c] + rest);
    RunsAppend(w, [c] + rest, p);
    RunsWhole(w, p);
    RunsSkip([c], rest, p);
  }

  /** Trimming keeps the runs of non-whitespace. */
  lemma TrimKeepsWords(s: string)
    ensures Runs(Trim(s), NotSpace) == Runs(s, NotSpace)
  {
    TrimStartKeepsWords(s);
    TrimEndKeepsWords(TrimStart(s));
  }

  lemma TrimStartKeepsWords(s: string)
    ensures Runs(TrimStart(s), NotSpace) == Runs(s, NotSpace)
  {
    var t := TrimStart(s);
    var k := |s| - |t|;
    assert s == s[..k] + t;
    RunsSkip(s[..k], t, NotSpace);
  }

  lemma TrimEndKeepsWords(t: string)
    ensures Runs(TrimEnd(t), NotSpace) == Runs(t, NotSpace)
  {
    var r := TrimEnd(t);
    var tail := t[|r|..];
    assert t == r + tail;
    RunsAppend(r, tail, NotSpace);
    NoRuns(tail, NotSpace);
  }

  /** A text with no character of the class has no run. */
  lemma NoRuns(s: string, p: char -> bool)
    requires forall i :: 0 <= i < |s| ==> !p(s[i])
    ensures Runs(s, p) == []
  {
    RunsSkip(s, [], p);
    assert s + [] == s;
  }
}
