/**
  The `.env.local` reader of the setup script: the file is split into lines
  on `\n`; blank lines and lines whose first character is `#` are skipped;
  every other line is cut at its first `=` into a trimmed key and a trimmed
  value, a later line overwriting an earlier one with the same key.

  The variables are a `map` from key to value. Assigning a string to the
  key `__proto__` of a JavaScript object literal invokes the prototype
  setter, which ignores non-object values, so that key never gets an entry.
*/
module EnvFile {
  import opened Text

  datatype Option<T> = None | Some(value: T)

  /** The one key an object literal will not store a string under. */
  const ProtoKey: string := "__proto__"

  /** `line.trim() && !line.startsWith('#')` */
  predicate IsSetting(line: string) {
    Trim(line) != [] && !(|line| > 0 && line[0] == '#')
  }

  /** What one line contributes: `[key, ...value] = line.split('=')`, kept
      when `key` is non-empty (the rest array `value` is always truthy), as
      `key.trim()` and `value.join('=').trim()`. */
  function LineEntry(line: string): (e: Option<(string, string)>) {
    if !IsSetting(line) then None
    else
      var parts := Split(line, '=');
      var key := parts[0];
      if key == [] then None
      else Some((Trim(key), Trim(Join(parts[1..], '='))))
  }

  /** The key is the text before the first `=`, the value everything after
      it, later `=` included; a line without `=` has the empty value. */
  lemma LineEntryMeaning(line: string)
    ensures var i := IndexOf(line, '=');
            LineEntry(line).Some? <==> IsSetting(line) && i > 0
    ensures var i := IndexOf(line, '=');
            LineEntry(line).Some? ==>
              LineEntry(line).value == (Trim(line[..i]), Trim(if i < |line| then line[i + 1..] else []))
  {
    SplitFirst(line, '=');
  }

  /** `envVars[key] = value` */
  function Store(env: map<string, string>, key: string, value: string): (r: map<string, string>)
    ensures key != ProtoKey ==> r == env[key := value]
    ensures key == ProtoKey ==> r == env
  {
    if key == ProtoKey then env else env[key := value]
  }

  /** The variables after one more line's entry, if it has one. */
  function Apply(env: map<string, string>, entry: Option<(string, string)>): map<string, string> {
    match entry
    case None => env
    case Some((key, value)) => Store(env, key, value)
  }

  /** The variables after applying `entries` in order. */
  function Fold(entries: seq<Option<(string, string)>>): map<string, string> {
    if entries == [] then map[]
    else Apply(Fold(entries[..|entries| - 1]), entries[|entries| - 1])
  }

  /** Each line's entry. */
  function Entries(lines: seq<string>): (es: seq<Option<(string, string)>>)
    ensures |es| == |lines|
    ensures forall j :: 0 <= j < |lines| ==> es[j] == LineEntry(lines[j])
  {
    seq(|lines|, j requires 0 <= j < |lines| => LineEntry(lines[j]))
  }

  /** The variables after reading `lines` in order. */
  function Env(lines: seq<string>): map<string, string> {
    Fold(Entries(lines))
  }

  /** The variables read from the whole file. */
  function EnvOf(envData: string): map<string, string> {
    Env(Split(envData, '\n'))
  }

  method ParseEnv(envData: string) returns (envVars: map<string, string>)
    ensures envVars == EnvOf(envData)
  {
    var lines := Split(envData, '\n');
    envVars := map[];
    for k := 0 to |lines|
      invariant envVars == Env(lines[..k])
    {
      EnvStep(lines, k);
      var line := lines[k];
      if Trim(line) != [] && !(|line| > 0 && line[0] == '#') {
        var parts := Split(line, '=');
        var key := parts[0];
        if key != [] {
          var value := Join(parts[1..], '=');
          if Trim(key) != ProtoKey {
            envVars := envVars[Trim(key) := Trim(value)];
          }
        }
      }
    }
    assert lines[..|lines|] == lines;
  }

  /** Reading one more line applies that line's entry. */
  lemma EnvStep(lines: seq<string>, k: nat)
    requires k < |lines|
    ensures Env(lines[..k + 1]) == Apply(Env(lines[..k]), LineEntry(lines[k]))
  {
    var es := Entries(lines[..k + 1]);
    assert es[..k] == Entries(lines[..k]);
    assert es[k] == LineEntry(lines[k]);
  }

  // ------------------------------------------------------------------
  // Properties of the reader
  // ------------------------------------------------------------------

  /** Entry `j` sets `key`. */
  predicate SetsKey(entries: seq<Option<(string, string)>>, j: int, key: string)
    requires 0 <= j < |entries|
  {
    entries[j].Some? && entries[j].value.0 == key
  }

  lemma {:induction false} FoldKeys(entries: seq<Option<(string, string)>>, key: string)
    ensures key in Fold(entries) <==> key != ProtoKey && exists j :: 0 <= j < |entries| && SetsKey(entries, j, key)
  {
    if entries != [] {
      var n := |entries| - 1;
      var init := entries[..n];
      FoldKeys(init, key);
      assert forall j :: 0 <= j < n ==> SetsKey(init, j, key) == SetsKey(entries, j, key);
      if key in Fold(entries) && key !in Fold(init) {
        assert SetsKey(entries, n, key);
      }
      if key != ProtoKey && exists j :: 0 <= j < |entries| && SetsKey(entries, j, key) {
        var j :| 0 <= j < |entries| && SetsKey(entries, j, key);
        if j < n {
          assert SetsKey(init, j, key);
        }
      }
    }
  }

  lemma {:induction false} FoldLastWins(entries: seq<Option<(string, string)>>, key: string, j: nat)
    requires j < |entries| && SetsKey(entries, j, key) && key != ProtoKey
    requires forall k :: j < k < |entries| ==> !SetsKey(entries, k, key)
    ensures key in Fold(entries) && Fold(entries)[key] == entries[j].value.1
  {
    var n := |entries| - 1;
    var init := entries[..n];
    if j < n {
      assert forall k :: j < k < n ==> init[k] == entries[k];
      assert SetsKey(init, j, key);
      assert forall k :: j < k < n ==> SetsKey(init, k, key) == SetsKey(entries, k, key);
      FoldLastWins(init, key, j);
      assert !SetsKey(entries, n, key);
    }
  }

  /** A key is defined exactly when some line sets it and it is not
      `__proto__`. */
  lemma DefinedKeys(lines: seq<string>, key: string)
    ensures key in Env(lines) <==> key != ProtoKey && exists j :: 0 <= j < |lines| && SetsKey(Entries(lines), j, key)
  {
    FoldKeys(Entries(lines), key);
  }

  /** A defined key holds the value of the last line that sets it. */
  lemma LastLineWins(lines: seq<string>, key: string, j: nat)
    requires j < |lines| && key != ProtoKey
    requires LineEntry(lines[j]).Some? && LineEntry(lines[j]).value.0 == key
    requires forall k :: j < k < |lines| ==> !SetsKey(Entries(lines), k, key)
    ensures key in Env(lines) && Env(lines)[key] == LineEntry(lines[j]).value.1
  {
    assert SetsKey(Entries(lines), j, key);
    FoldLastWins(Entries(lines), key, j);
  }

  lemma {:induction false} FoldSkips(entries: seq<Option<(string, string)>>, extra: seq<Option<(string, string)>>)
    requires forall k :: 0 <= k < |extra| ==> extra[k].None?
    ensures Fold(entries + extra) == Fold(entries)
  {
    if extra != [] {
      var n := |extra| - 1;
      var all := entries + extra;
      assert all[..|all| - 1] == entries + extra[..n];
      FoldSkips(entries, extra[..n]);
    } else {
      assert entries + extra == entries;
    }
  }

  /** Lines that set nothing leave the variables as they were. */
  lemma SkippedLines(lines: seq<string>, extra: seq<string>)
    requires forall k :: 0 <= k < |extra| ==> LineEntry(extra[k]).None?
    ensures Env(lines + extra) == Env(lines)
  {
    assert Entries(lines + extra) == Entries(lines) + Entries(extra);
    FoldSkips(Entries(lines), Entries(extra));
  }

  // ------------------------------------------------------------------
  // Worked examples
  // ------------------------------------------------------------------

  lemma NoEquals(s: string, n: nat)
    requires n <= |s| && forall k :: 0 <= k < n ==> s[k] != '='
    requires n < |s| ==> s[n] == '='
    ensures IndexOf(s, '=') == n
  {
    if n > 0 {
      NoEquals(s[1..], n - 1);
    }
  }

  /** A setting line whose first `=` is at `i`, whose key has its visible
      characters at `[klo, khi)` and whose value, after the `=`, at `[vlo, vhi)`. */
  lemma EntryAt(line: string, i: nat, klo: nat, khi: nat, vlo: nat, vhi: nat)
    requires 0 < i < |line| && line[i] == '=' && line[0] != '#'
    requires forall k :: 0 <= k < i ==> line[k] != '='
    requires klo <= khi <= i && i + 1 <= vlo <= vhi <= |line|
    requires forall k :: 0 <= k < klo ==> IsSpace(line[k])
    requires forall k :: khi <= k < i ==> IsSpace(line[k])
    requires klo < khi ==> !IsSpace(line[klo]) && !IsSpace(line[khi - 1])
    requires forall k :: i + 1 <= k < vlo ==> IsSpace(line[k])
    requires forall k :: vhi <= k < |line| ==> IsSpace(line[k])
    requires vlo < vhi ==> !IsSpace(line[vlo]) && !IsSpace(line[vhi - 1])
    requires klo < khi || vlo < vhi
    ensures LineEntry(line) == Some((line[klo..khi], line[vlo..vhi]))
  {
    NoEquals(line, i);
    TrimNonEmpty(line, if klo < khi then klo else vlo);
    SettingEntry(line, i);
    SliceEnds(line, i);
    TrimSlice(line, 0, i, klo, khi);
    TrimSlice(line, i + 1, |line|, vlo, vhi);
  }

  lemma SliceEnds(s: string, i: nat)
    requires i < |s|
    ensures s[0..i] == s[..i] && s[i + 1..|s|] == s[i + 1..]
  {
  }

  lemma SettingEntry(line: string, i: nat)
    requires IsSetting(line) && 0 < i < |line| && IndexOf(line, '=') == i
    ensures LineEntry(line) == Some((Trim(line[..i]), Trim(line[i + 1..])))
  {
    LineEntryMeaning(line);
  }

  /** `A = b=c ` sets `A` to `b=c`: the value keeps its later `=`. */
  lemma ValueKeepsEquals(line: string)
    requires line == "A = b=c "
    ensures LineEntry(line) == Some(("A", "b=c"))
  {
    EntryAt(line, 2, 0, 1, 4, 7);
    assert line[0..1] == "A" && line[4..7] == "b=c";
  }

  /** `=x` has an empty key before trimming and is skipped. */
  lemma EmptyKeySkipped(line: string)
    requires line == "=x"
    ensures LineEntry(line) == None
  {
    LineEntryMeaning(line);
    NoEquals(line, 0);
  }

  /** ` =x` has a key that is blank but not empty: it is stored under `""`. */
  lemma BlankKeyStored(line: string)
    requires line == " =x"
    ensures LineEntry(line) == Some(("", "x"))
  {
    EntryAt(line, 1, 1, 1, 2, 3);
    assert line[2..3] == "x";
  }

  /** A carriage return left by `\r\n` line endings is trimmed off the value. */
  lemma CarriageReturnTrimmed(line: string)
    requires line == "K=v\r"
    ensures LineEntry(line) == Some(("K", "v"))
  {
    EntryAt(line, 1, 0, 1, 2, 3);
    assert line[0..1] == "K" && line[2..3] == "v";
  }

  /** A setting line without `=` is a key with the empty value. */
  lemma KeyWithoutValue(line: string, lo: nat, hi: nat)
    requires lo < hi <= |line| && line[0] != '#'
    requires forall k :: 0 <= k < |line| ==> line[k] != '='
    requires forall k :: 0 <= k < lo ==> IsSpace(line[k])
    requires forall k :: hi <= k < |line| ==> IsSpace(line[k])
    requires !IsSpace(line[lo]) && !IsSpace(line[hi - 1])
    ensures LineEntry(line) == Some((line[lo..hi], ""))
  {
    NoEquals(line, |line|);
    TrimNonEmpty(line, lo);
    TrimIs(line, lo, hi);
    assert line[..|line|] == line;
    LineEntryMeaning(line);
  }

  /** An indented `#` does not make a comment. */
  lemma IndentedHashIsSetting(line: string)
    requires line == "  # x"
    ensures LineEntry(line) == Some(("# x", ""))
  {
    HashKey(line);
  }

  lemma HashKey(line: string)
    requires |line| == 5 && line[..2] == "  " && line[2..] == "# x"
    ensures LineEntry(line) == Some((line[2..], ""))
  {
    assert line[2..] == line[2..5];
    KeyWithoutValue(line, 2, 5);
  }

  /** The file `A=1`, a comment, `A=2`, `B = 3`: the second `A` wins. */
  lemma LaterLineOverwrites(lines: seq<string>)
    requires lines == ["A=1", "# A=0", "A=2", "B = 3"]
    ensures Env(lines) == map["A" := "2", "B" := "3"]
  {
    ExampleEntries(lines[0], lines[1], lines[2], lines[3]);
    ExampleFold(Entries(lines));
  }

  lemma ExampleFold(es: seq<Option<(string, string)>>)
    requires |es| == 4 && es[0] == Some(("A", "1")) && es[1] == None
    requires es[2] == Some(("A", "2")) && es[3] == Some(("B", "3"))
    ensures Fold(es) == map["A" := "2", "B" := "3"]
  {
    assert "A" != ProtoKey && "B" != ProtoKey;
    assert Fold(es[..1]) == map["A" := "1"] by {
      assert es[..1][..0] == [] && es[..1][0] == es[0];
    }
    assert Fold(es[..2]) == map["A" := "1"] by {
      assert es[..2][..1] == es[..1] && es[..2][1] == es[1];
    }
    assert Fold(es[..3]) == map["A" := "2"] by {
      assert es[..3][..2] == es[..2] && es[..3][2] == es[2];
    }
    assert es[..3] == es[..|es| - 1];
  }

  lemma ExampleEntries(a: string, b: string, c: string, d: string)
    requires |a| == 3 && a[0] == 'A' && a[1] == '=' && a[2] == '1'
    requires |b| > 0 && b[0] == '#'
    requires |c| == 3 && c[0] == 'A' && c[1] == '=' && c[2] == '2'
    requires |d| == 5 && d[0] == 'B' && d[1] == ' ' && d[2] == '=' && d[3] == ' ' && d[4] == '3'
    ensures LineEntry(a) == Some(("A", "1")) && LineEntry(b) == None
    ensures LineEntry(c) == Some(("A", "2")) && LineEntry(d) == Some(("B", "3"))
  {
    SimpleEntry(a);
    CommentSkipped(b);
    SimpleEntry(c);
    SpacedEntry(d);
  }

  lemma SpacedEntry(line: string)
    requires |line| == 5 && line[1] == ' ' && line[2] == '=' && line[3] == ' '
    requires line[0] != '#' && line[0] != '=' && !IsSpace(line[0]) && !IsSpace(line[4])
    ensures LineEntry(line) == Some(([line[0]], [line[4]]))
  {
    EntryAt(line, 2, 0, 1, 4, 5);
    assert line[0..1] == [line[0]] && line[4..5] == [line[4]];
  }

  lemma SimpleEntry(line: string)
    requires |line| == 3 && line[1] == '=' && line[0] != '#' && !IsSpace(line[0]) && !IsSpace(line[2])
    requires line[0] != '='
    ensures LineEntry(line) == Some(([line[0]], [line[2]]))
  {
    EntryAt(line, 1, 0, 1, 2, 3);
    assert line[0..1] == [line[0]] && line[2..3] == [line[2]];
  }

  /** A line starting with `#` is a comment, whatever follows. */
  lemma CommentSkipped(line: string)
    requires |line| > 0 && line[0] == '#'
    ensures LineEntry(line) == None
  {
    LineEntryMeaning(line);
  }
}
