// The lexer and the printer undo each other on a map exactly when every entry of
// the map is well formed.
module KeyValueRoundTrip {
  import opened Text
  import opened KeyValueFile

  // --------------------------------------------------------- well-formed entries

  predicate IsClean(s: Lexer) { s.builder == "" && !s.readKey && !Quoted(s) }

  // Outside quotes, plain characters are copied to the builder.
  lemma {:induction false} PlainRun(s: Lexer, line: string, i: nat, j: nat)
    requires i <= j <= |line| && !Quoted(s) && PlainText(line[i..j])
    requires j == |line| ==> NoFinalBackslash(line[i..j])
    ensures LexChars(s, line, i) == LexChars(s.(builder := s.builder + line[i..j]), line, j)
    decreases j - i
  {
    if i == j {
      assert s.builder + line[i..j] == s.builder;
    } else {
      assert line[i] == line[i..j][0] && line[i + 1..j] == line[i..j][1..];
      assert j == |line| ==> line[j - 1] == line[i..j][j - i - 1];
      assert ActionAt(s, line, i) == Plain;
      PlainRun(s.(builder := s.builder + [line[i]]), line, i + 1, j);
      assert s.builder + [line[i]] + line[i + 1..j] == s.builder + line[i..j];
    }
  }

  // Inside double quotes, everything up to the closing quote is copied.
  lemma {:induction false} QuotedRun(s: Lexer, line: string, i: nat, j: nat)
    requires i <= j < |line| && s.double && !s.single && line[j] == '"'
    requires Free(line[i..j], '"') && NoFinalBackslash(line[i..j])
    ensures LexChars(s, line, i) == LexChars(s.(builder := s.builder + line[i..j]), line, j)
    decreases j - i
  {
    if i == j {
      assert s.builder + line[i..j] == s.builder;
    } else {
      assert line[i] == line[i..j][0] && line[i + 1..j] == line[i..j][1..];
      assert line[j - 1] == line[i..j][j - i - 1];
      if i + 1 < j { assert line[i + 1] == line[i..j][1]; }
      assert ActionAt(s, line, i) == Plain;
      QuotedRun(s.(builder := s.builder + [line[i]]), line, i + 1, j);
      assert s.builder + [line[i]] + line[i + 1..j] == s.builder + line[i..j];
    }
  }

  lemma TrimNothing(s: string)
    requires s != [] && !IsSpace(s[0]) && !IsSpace(s[|s| - 1])
    ensures Trim(s) == s
  {
    assert SkipSpace(s, 0) == 0 && s[0..] == s;
  }

  // The characters of a well-formed entry, from a clean state.
  lemma LexEntry(s: Lexer, k: string, v: string)
    requires IsClean(s) && WellFormedEntry(k, v)
    ensures LexChars(s, EntryText(k, v), 0) == Done(s.(builder := v, readKey := true, key := k))
  {
    var line, n := EntryText(k, v), |k|;
    assert line[0..n] == k && line[n] == '=';
    assert "" + k == k;
    PlainRun(s, line, 0, n);
    var s1 := s.(builder := "", readKey := true, key := k);
    assert LexChars(s, line, 0) == LexChars(s1, line, n + 1);
    LexValue(s1, k, v);
  }

  // The value behind the '=', quoted or not.
  // A value in double quotes up to the end of the line.
  lemma LexQuoted(s: Lexer, line: string, i: nat, v: string)
    requires s.readKey && IsClean(s.(readKey := false, key := ""))
    requires i + 1 < |line| && line[i] == '"' && line[i + 1..|line| - 1] == v && line[|line| - 1] == '"'
    requires Free(v, '"') && NoFinalBackslash(v)
    ensures LexChars(s, line, i) == Done(s.(builder := v))
  {
    assert "" + v == v;
    var s2 := s.(double := true);
    assert LexChars(s, line, i) == LexChars(s2, line, i + 1);
    QuotedRun(s2, line, i + 1, |line| - 1);
    assert LexChars(s2.(builder := v), line, |line| - 1) == LexChars(s.(builder := v), line, |line|);
  }

  lemma LexValue(s: Lexer, k: string, v: string)
    requires WellFormedEntry(k, v) && s.readKey && IsClean(s.(readKey := false, key := ""))
    ensures LexChars(s, EntryText(k, v), |k| + 1) == Done(s.(builder := v))
  {
    var line, n := EntryText(k, v), |k|;
    assert "" + v == v;
    if HasSpace(v) {
      assert line[n + 1] == '"' && line[n + 2..|line| - 1] == v && line[|line| - 1] == '"';
      LexQuoted(s, line, n + 1, v);
    } else {
      assert line[n + 1..|line|] == v;
      PlainRun(s, line, n + 1, |line|);
    }
  }

  lemma NoSpaceEnds(k: string, v: string)
    requires WellFormedEntry(k, v)
    ensures var t := EntryText(k, v);
            && t != [] && !IsSpace(t[0]) && !IsSpace(t[|t| - 1]) && t[0] != '#' && Free(t, '\n')
  {
    var t := EntryText(k, v);
    forall i | 0 <= i < |t| ensures t[i] != '\n' {
      if i < |k| { assert t[i] == k[i]; }
      else if HasSpace(v) {
        if |k| + 2 <= i < |t| - 1 { assert t[i] == v[i - |k| - 2]; }
      } else if i > |k| {
        assert t[i] == v[i - |k| - 1] && !IsSpace(v[i - |k| - 1]);
      }
    }
    if k != [] { assert t[0] == k[0]; }
    if !HasSpace(v) && v != [] { assert t[|t| - 1] == v[|v| - 1]; }
  }

  lemma OneLine(t: string)
    requires Free(t, '\n') && t != [] && !IsSpace(t[|t| - 1])
    ensures ScanLines(Split(t, '\n')) == [t]
  {
    assert '\n' !in t;
    assert Split(t, '\n') == [t];
    assert [t][1..] == [];
  }

  lemma LexEntryLine(p: Parser, k: string, v: string)
    requires IsClean(p.lexer) && WellFormedEntry(k, v)
    ensures EntryLines(k, v) == [EntryText(k, v)]
    ensures LexLine(p, EntryText(k, v)) == Some(Parser(p.lexer.(key := k), p.resp[k := v]))
  {
    NoSpaceEnds(k, v);
    OneLine(EntryText(k, v));
    TrimNothing(EntryText(k, v));
    LexEntry(p.lexer, k, v);
  }

  ghost predicate WellFormedMap(config: map<string, string>) {
    forall k :: k in config ==> WellFormedEntry(k, config[k])
  }

  lemma {:induction false} LexPrinted(p: Parser, config: map<string, string>, keys: seq<string>)
    requires IsClean(p.lexer) && WellFormedMap(config) && forall k :: k in keys ==> k in config
    ensures LexLines(p, PrintedLines(config, keys)).Some?
    ensures var m := LexLines(p, PrintedLines(config, keys)).value;
            && (forall k :: k in m <==> k in p.resp || k in keys)
            && (forall k :: k in m ==> m[k] == if k in keys then config[k] else p.resp[k])
    decreases |keys|
  {
    hide LexLine, EntryText, WellFormedEntry, EntryLines;
    if keys != [] {
      var k := keys[0];
      assert k in keys;
      LexEntryLine(p, k, config[k]);
      var rest := PrintedLines(config, keys[1..]);
      assert ([EntryText(k, config[k])] + rest)[1..] == rest;
      LexPrinted(Parser(p.lexer.(key := k), p.resp[k := config[k]]), config, keys[1..]);
      assert forall x :: x in keys <==> x == k || x in keys[1..];
    }
  }

  // A well-formed map is read back exactly, whatever order its keys are printed in.
  lemma PrintThenParse(config: map<string, string>, keys: seq<string>)
    requires WellFormedMap(config) && KeyList(config, keys)
    ensures ParseLines(PrintedLines(config, keys)) == Some(config)
  {
    hide LexLine, EntryLines, WellFormedEntry;
    LexPrinted(Parser(CLEAN, map[]), config, keys);
    var m := LexLines(Parser(CLEAN, map[]), PrintedLines(config, keys)).value;
    assert forall k :: k in m <==> k in config;
    assert m == config;
  }

  // ------------------------------------------------------- what is lost in reading

  // How many characters of a line do not end up in the key or the value.
  function Loss(s: Lexer, line: string, i: nat): nat
    requires i <= |line|
    decreases |line| - i
  {
    if i == |line| then 0
    else
      match ActionAt(s, line, i)
      case ToggleSingle => 1 + Loss(s.(single := !s.single), line, i + 1)
      case ToggleDouble => 1 + Loss(s.(double := !s.double), line, i + 1)
      case Stop => |line| - i
      case Escape => 1 + Loss(s.(builder := s.builder + ['"']), line, i + 2)
      case Separator => if s.readKey then 1 else 1 + Loss(s.(key := s.builder, builder := "", readKey := true), line, i + 1)
      case Space => |line| - i
      case Plain => Loss(s.(builder := s.builder + [line[i]]), line, i + 1)
  }

  function Weight(s: Lexer): nat { |s.builder| + if s.readKey then |s.key| else 0 }

  // A line read to its end with the key seen and all quotes closed.
  predicate Completes(s: Lexer, line: string, i: nat)
    requires i <= |line|
  {
    var e := LexChars(s, line, i);
    e.Done? && e.lexer.readKey && !Quoted(e.lexer)
  }

  // Every character is either kept or lost.
  lemma {:induction false} Accounting(s: Lexer, line: string, i: nat)
    requires i <= |line| && LexChars(s, line, i).Done?
    ensures Weight(LexChars(s, line, i).lexer) + Loss(s, line, i) == Weight(s) + (|line| - i)
    decreases |line| - i
  {
    if i < |line| {
      match ActionAt(s, line, i)
      case ToggleSingle => Accounting(s.(single := !s.single), line, i + 1);
      case ToggleDouble => Accounting(s.(double := !s.double), line, i + 1);
      case Stop =>
      case Escape => Accounting(s.(builder := s.builder + ['"']), line, i + 2);
      case Separator => Accounting(s.(key := s.builder, builder := "", readKey := true), line, i + 1);
      case Space =>
      case Plain => Accounting(s.(builder := s.builder + [line[i]]), line, i + 1);
    }
  }

  // The separator and the closing of an open quote are always lost.
  function Due(s: Lexer): nat { (if s.readKey then 0 else 1) + (if Quoted(s) then 1 else 0) }

  lemma {:induction false} DueIsLost(s: Lexer, line: string, i: nat)
    requires i <= |line| && Completes(s, line, i) && !(s.single && s.double)
    ensures Loss(s, line, i) >= Due(s)
    decreases |line| - i
  {
    if i < |line| {
      match ActionAt(s, line, i)
      case ToggleSingle => DueIsLost(s.(single := !s.single), line, i + 1);
      case ToggleDouble => DueIsLost(s.(double := !s.double), line, i + 1);
      case Stop =>
      case Escape => DueIsLost(s.(builder := s.builder + ['"']), line, i + 2);
      case Separator => DueIsLost(s.(key := s.builder, builder := "", readKey := true), line, i + 1);
      case Space =>
      case Plain => DueIsLost(s.(builder := s.builder + [line[i]]), line, i + 1);
    }
  }

  // The position of the first '=' from i on, or the end.
  function FirstEquals(line: string, i: nat): (j: nat)
    requires i <= |line|
    ensures i <= j <= |line|
    ensures forall x :: i <= x < j ==> line[x] != '='
    ensures j < |line| ==> line[j] == '='
    decreases |line| - i
  {
    if i == |line| || line[i] == '=' then i else FirstEquals(line, i + 1)
  }

  // A line from which only the separator is lost has no quote and no space, ends
  // in no backslash, and holds one '='.
  lemma {:induction false} LosesOnlySeparator(s: Lexer, line: string, i: nat)
    requires i <= |line| && Completes(s, line, i) && !Quoted(s) && Loss(s, line, i) == Due(s)
    ensures forall x :: i <= x < |line| ==> line[x] != '"' && line[x] != '\'' && !IsSpace(line[x])
    ensures i < |line| ==> line[|line| - 1] != '\\'
    ensures s.readKey ==> FirstEquals(line, i) == |line|
    ensures !s.readKey ==> var j := FirstEquals(line, i); j < |line| && FirstEquals(line, j + 1) == |line|
    decreases |line| - i
  {
    if i < |line| {
      match ActionAt(s, line, i)
      case ToggleSingle => DueIsLost(s.(single := !s.single), line, i + 1);
      case ToggleDouble => DueIsLost(s.(double := !s.double), line, i + 1);
      case Stop =>
      case Escape =>
      case Separator => LosesOnlySeparator(s.(key := s.builder, builder := "", readKey := true), line, i + 1);
      case Space =>
      case Plain => LosesOnlySeparator(s.(builder := s.builder + [line[i]]), line, i + 1);
    }
  }

  // Inside double quotes with one character to lose: the rest is literal text and
  // a closing quote at the very end.
  lemma {:induction false} LosesOnlyClosing(s: Lexer, line: string, i: nat)
    requires i < |line| && Completes(s, line, i) && s.double && !s.single && line[|line| - 1] == '"'
    requires Loss(s, line, i) == 1
    ensures s.readKey && Free(line[i..|line| - 1], '"') && NoFinalBackslash(line[i..|line| - 1])
    decreases |line| - i
  {
    DueIsLost(s, line, i);
    match ActionAt(s, line, i)
    case ToggleSingle =>
    case ToggleDouble =>
      if i + 1 < |line| { AfterClosing(s.(double := false), line, i + 1); }
    case Stop =>
    case Escape => DueIsLost(s.(builder := s.builder + ['"']), line, i + 2);
    case Separator =>
    case Space =>
    case Plain =>
      LosesOnlyClosing(s.(builder := s.builder + [line[i]]), line, i + 1);
      var a, b := line[i..|line| - 1], line[i + 1..|line| - 1];
      assert a == [line[i]] + b;
      if b == [] { assert i + 2 == |line|; }
  }

  // Outside quotes with a quote still to come, more than the separator is lost.
  lemma {:induction false} AfterClosing(s: Lexer, line: string, i: nat)
    requires i < |line| && Completes(s, line, i) && !Quoted(s) && line[|line| - 1] == '"'
    ensures Loss(s, line, i) >= Due(s) + 2
    decreases |line| - i
  {
    match ActionAt(s, line, i)
    case ToggleSingle => DueIsLost(s.(single := !s.single), line, i + 1);
    case ToggleDouble => DueIsLost(s.(double := !s.double), line, i + 1);
    case Stop =>
    case Escape =>
    case Separator => AfterClosing(s.(key := s.builder, builder := "", readKey := true), line, i + 1);
    case Space => assert i + 1 < |line|;
    case Plain => AfterClosing(s.(builder := s.builder + [line[i]]), line, i + 1);
  }

  // The position of the first double quote from i on, or the end.
  function FirstQuote(line: string, i: nat): (q: nat)
    requires i <= |line|
    ensures i <= q <= |line|
    ensures forall x :: i <= x < q ==> line[x] != '"'
    ensures q < |line| ==> line[q] == '"'
    decreases |line| - i
  {
    if i == |line| || line[i] == '"' then i else FirstQuote(line, i + 1)
  }

  lemma AtEnd(s: Lexer, line: string)
    ensures LexChars(s, line, |line|) == Done(s)
  {}

  // A single quote opened in such a line costs more than that.
  lemma {:induction false} EndsInSingle(s: Lexer, line: string, i: nat)
    requires i < |line| && Completes(s, line, i) && s.single && !s.double && line[|line| - 1] == '"'
    ensures Loss(s, line, i) >= Due(s) + 2
    decreases |line| - i
  {
    AtEnd(s.(builder := s.builder + [line[i]]), line);
    match ActionAt(s, line, i)
    case ToggleSingle => AfterClosing(s.(single := false), line, i + 1);
    case ToggleDouble =>
    case Stop =>
    case Escape =>
    case Separator =>
    case Space =>
    case Plain => if i + 1 < |line| { EndsInSingle(s.(builder := s.builder + [line[i]]), line, i + 1); }
  }

  // So does a double quote opened before the separator.
  lemma {:induction false} DoubleNeedsKey(s: Lexer, line: string, i: nat)
    requires i < |line| && Completes(s, line, i) && s.double && !s.single && !s.readKey && line[|line| - 1] == '"'
    ensures Loss(s, line, i) >= 3
    decreases |line| - i
  {
    AtEnd(s.(builder := s.builder + ['"']), line);
    AtEnd(s.(double := false), line);
    match ActionAt(s, line, i)
    case ToggleSingle =>
    case ToggleDouble =>
      assert LexChars(s, line, i) == LexChars(s.(double := false), line, i + 1);
      if i + 1 < |line| { AfterClosing(s.(double := false), line, i + 1); }
    case Stop =>
    case Escape => if i + 2 < |line| { DoubleNeedsKey(s.(builder := s.builder + ['"']), line, i + 2); }
    case Separator =>
    case Space =>
    case Plain => DoubleNeedsKey(s.(builder := s.builder + [line[i]]), line, i + 1);
  }

  // A line ending in a quote that loses the least: plain text with the separator
  // up to an opening quote, then literal text up to the closing one.
  lemma {:induction false} LosesOnlyQuotes(s: Lexer, line: string, i: nat)
    requires i < |line| && Completes(s, line, i) && !Quoted(s) && line[|line| - 1] == '"'
    requires Loss(s, line, i) == Due(s) + 2
    ensures var q := FirstQuote(line, i);
            && q < |line| - 1
            && (forall x :: i <= x < q ==> line[x] != '\'' && !IsSpace(line[x]))
            && Free(line[q + 1..|line| - 1], '"') && NoFinalBackslash(line[q + 1..|line| - 1])
            && (s.readKey ==> FirstEquals(line, i) >= q)
            && (!s.readKey ==> FirstEquals(line, i) < q && FirstEquals(line, FirstEquals(line, i) + 1) >= q)
    decreases |line| - i
  {
    match ActionAt(s, line, i)
    case ToggleSingle => EndsInSingle(s.(single := !s.single), line, i + 1);
    case ToggleDouble => LosesOnlyTheseQuotes(s, line, i);
    case Stop =>
    case Escape =>
    case Separator => LosesOnlyQuotes(s.(key := s.builder, builder := "", readKey := true), line, i + 1);
    case Space => SpaceLosesThree(s, line, i);
    case Plain => LosesOnlyQuotes(s.(builder := s.builder + [line[i]]), line, i + 1);
  }

  // The first quote opens the only quoted run.
  lemma LosesOnlyTheseQuotes(s: Lexer, line: string, i: nat)
    requires i < |line| && Completes(s, line, i) && !Quoted(s) && line[|line| - 1] == '"'
    requires Loss(s, line, i) == Due(s) + 2 && ActionAt(s, line, i) == ToggleDouble
    ensures FirstQuote(line, i) == i < |line| - 1 && s.readKey
    ensures Free(line[i + 1..|line| - 1], '"') && NoFinalBackslash(line[i + 1..|line| - 1])
  {
    assert i + 1 < |line|;
    if s.readKey { LosesOnlyClosing(s.(double := true), line, i + 1); }
    else { DoubleNeedsKey(s.(double := true), line, i + 1); }
  }

  // The comment that a space must lead to hides the final quote.
  lemma SpaceLosesThree(s: Lexer, line: string, i: nat)
    requires i < |line| && Completes(s, line, i) && line[|line| - 1] == '"' && ActionAt(s, line, i) == Space
    ensures |line| - i >= 3
  {
    var j := SkipSpace(line, i);
    assert i < j < |line| - 1;
  }

  // ----------------------------------------------------- one entry, from a clean state

  lemma TrimLength(s: string)
    ensures |Trim(s)| <= |s|
    ensures |Trim(s)| == |s| ==> Trim(s) == s && (s != [] ==> !IsSpace(s[0]))
    ensures s != [] && !IsSpace(s[|s| - 1]) ==> Trim(s) != [] && Trim(s)[|Trim(s)| - 1] == s[|s| - 1]
  {
    var j := SkipSpace(s, 0);
    if j == 0 { assert s[0..] == s; }
  }

  predicate Assigned(p: Parser, q: Parser, k': string, v': string) {
    q.resp == p.resp[k' := v'] && IsClean(q.lexer)
  }

  // Reading one printed entry never yields more text than it holds, and as much
  // only if the entry is well formed.
  lemma EntryBudget(p: Parser, k: string, v: string, k': string, v': string)
    requires IsClean(p.lexer) && LexLine(p, EntryText(k, v)).Some? && Free(v, '\n')
    requires var line := Trim(EntryText(k, v));
             && line != "" && line[0] != '#' && Completes(p.lexer, line, 0)
             && k' == LexChars(p.lexer, line, 0).lexer.key && v' == LexChars(p.lexer, line, 0).lexer.builder
    ensures |k'| + |v'| <= |k| + |v|
    ensures |k'| + |v'| == |k| + |v| ==> WellFormedEntry(k, v)
  {
    var text, line := EntryText(k, v), Trim(EntryText(k, v));
    TrimLength(text);
    Accounting(p.lexer, line, 0);
    DueIsLost(p.lexer, line, 0);
    hide LexChars, Loss, LexLine, Trim;
    if HasSpace(v) {
      assert text[|text| - 1] == '"';
      AfterClosing(p.lexer, line, 0);
      if |k'| + |v'| == |k| + |v| {
        LosesOnlyQuotes(p.lexer, line, 0);
        QuotedShape(k, v, line);
      }
    } else if |k'| + |v'| == |k| + |v| {
      LosesOnlySeparator(p.lexer, line, 0);
      RawShape(k, v, line);
    }
  }

  lemma RawShape(k: string, v: string, line: string)
    requires line == k + "=" + v && line[0] != '#' && !HasSpace(v)
    requires forall x :: 0 <= x < |line| ==> line[x] != '"' && line[x] != '\'' && !IsSpace(line[x])
    requires line[|line| - 1] != '\\'
    requires var j := FirstEquals(line, 0); j < |line| && FirstEquals(line, j + 1) == |line|
    ensures WellFormedEntry(k, v)
  {
    var n := |k|;
    assert line[n] == '=' && FirstEquals(line, 0) == n;
    assert forall x :: 0 <= x < n ==> k[x] == line[x];
    assert forall x :: 0 <= x < |v| ==> v[x] == line[n + 1 + x];
    if v != [] { assert v[|v| - 1] == line[|line| - 1]; }
  }

  lemma QuotedShape(k: string, v: string, line: string)
    requires line == k + "=" + ['"'] + v + ['"'] && line[0] != '#' && HasSpace(v) && Free(v, '\n')
    requires var q := FirstQuote(line, 0);
             && q < |line| - 1
             && (forall x :: 0 <= x < q ==> line[x] != '\'' && !IsSpace(line[x]))
             && Free(line[q + 1..|line| - 1], '"') && NoFinalBackslash(line[q + 1..|line| - 1])
             && FirstEquals(line, 0) < q && FirstEquals(line, FirstEquals(line, 0) + 1) >= q
    ensures WellFormedEntry(k, v)
  {
    var n, q := |k|, FirstQuote(line, 0);
    assert line[n] == '=' && line[n + 1] == '"';
    forall x | q < x < |line| - 1 ensures line[x] != '"' {
      assert line[q + 1..|line| - 1][x - q - 1] == line[x];
    }
    assert q == n + 1 && line[q + 1..|line| - 1] == v;
    assert FirstEquals(line, 0) == n;
    assert forall x :: 0 <= x < n ==> k[x] == line[x];
  }

  // ------------------------------------------------------ whole maps: the weight of a map

  ghost function MapWeight(m: map<string, string>): nat
    decreases |m|
  {
    if m == map[] then 0
    else
      var k :| k in m;
      |k| + |m[k]| + MapWeight(m - {k})
  }

  lemma {:induction false} WeightSplit(m: map<string, string>, k: string)
    requires k in m
    ensures MapWeight(m) == |k| + |m[k]| + MapWeight(m - {k})
    decreases |m|
  {
    var x :| x in m && MapWeight(m) == |x| + |m[x]| + MapWeight(m - {x});
    if x != k {
      WeightSplit(m - {x}, k);
      WeightSplit(m - {k}, x);
      assert m - {x} - {k} == m - {k} - {x};
    }
  }

  lemma WeightAdd(m: map<string, string>, k: string, v: string)
    requires k !in m
    ensures MapWeight(m[k := v]) == |k| + |v| + MapWeight(m)
  {
    WeightSplit(m[k := v], k);
    assert m[k := v] - {k} == m;
  }

  function KeysWeight(config: map<string, string>, keys: seq<string>): nat
    requires forall k :: k in keys ==> k in config
    decreases |keys|
  {
    if keys == [] then 0
    else
      assert keys[0] in keys;
      |keys[0]| + |config[keys[0]]| + KeysWeight(config, keys[1..])
  }

  lemma TailList(config: map<string, string>, keys: seq<string>)
    requires KeyList(config, keys) && keys != []
    ensures keys[0] in config && KeyList(config - {keys[0]}, keys[1..])
    ensures forall x :: x in keys[1..] ==> x in config && x != keys[0]
  {
    var k, tail := keys[0], keys[1..];
    assert k in keys;
    assert forall i: nat | i < |tail| :: tail[i] == keys[i + 1];
    forall x ensures x in tail <==> x in config - {k} {
      assert x in keys <==> x == k || x in tail by { assert keys == [k] + tail; }
      assert x in tail ==> x != k;
    }
  }

  lemma {:induction false} ListedWeight(config: map<string, string>, keys: seq<string>)
    requires KeyList(config, keys)
    ensures MapWeight(config) == KeysWeight(config, keys) && |config| == |keys|
    decreases |keys|
  {
    if keys == [] {
      assert config == map[];
    } else {
      var k := keys[0];
      var rest := config - {k};
      TailList(config, keys);
      hide KeyList;
      ListedWeight(rest, keys[1..]);
      SameWeight(rest, config, keys[1..]);
      WeightSplit(config, k);
      assert config.Keys == rest.Keys + {k};
    }
  }

  lemma {:induction false} SameWeight(a: map<string, string>, b: map<string, string>, keys: seq<string>)
    requires forall k :: k in keys ==> k in a && k in b && a[k] == b[k]
    ensures KeysWeight(a, keys) == KeysWeight(b, keys)
    decreases |keys|
  {
    if keys != [] {
      assert keys[0] in keys;
      SameWeight(a, b, keys[1..]);
    }
  }

  // ------------------------------------------------- no newline ever reaches the map

  ghost predicate NoNewlines(p: Parser) {
    Free(p.lexer.builder, '\n') && Free(p.lexer.key, '\n') && forall k :: k in p.resp ==> Free(k, '\n') && Free(p.resp[k], '\n')
  }

  lemma {:induction false} LexKeepsOut(s: Lexer, line: string, i: nat)
    requires i <= |line| && Free(line, '\n') && Free(s.builder, '\n') && Free(s.key, '\n')
    ensures var e := LexChars(s, line, i);
            !e.Failed? ==> Free(e.lexer.builder, '\n') && Free(e.lexer.key, '\n')
    decreases |line| - i
  {
    if i < |line| {
      match ActionAt(s, line, i)
      case ToggleSingle => LexKeepsOut(s.(single := !s.single), line, i + 1);
      case ToggleDouble => LexKeepsOut(s.(double := !s.double), line, i + 1);
      case Stop =>
      case Escape => LexKeepsOut(s.(builder := s.builder + ['"']), line, i + 2);
      case Separator => LexKeepsOut(s.(key := s.builder, builder := "", readKey := true), line, i + 1);
      case Space =>
      case Plain => LexKeepsOut(s.(builder := s.builder + [line[i]]), line, i + 1);
    }
  }

  lemma TrimKeepsOut(s: string)
    requires Free(s, '\n')
    ensures Free(Trim(s), '\n')
  {
    var t := s[SkipSpace(s, 0)..];
    assert forall i :: 0 <= i < |t| ==> t[i] == s[SkipSpace(s, 0) + i];
  }

  lemma {:induction false} LinesKeepOut(p: Parser, lines: seq<string>)
    requires NoNewlines(p) && forall i :: 0 <= i < |lines| ==> Free(lines[i], '\n')
    ensures LexLines(p, lines).Some? ==>
              forall k :: k in LexLines(p, lines).value ==> Free(k, '\n') && Free(LexLines(p, lines).value[k], '\n')
    decreases |lines|
  {
    if lines != [] {
      TrimKeepsOut(lines[0]);
      LexKeepsOut(p.lexer, Trim(lines[0]), 0);
      hide LexChars, Trim;
      if LexLine(p, lines[0]).Some? {
        LinesKeepOut(LexLine(p, lines[0]).value, lines[1..]);
      }
    }
  }

  lemma {:induction false} SplitIsFree(s: string)
    ensures forall i :: 0 <= i < |ScanLines(Split(s, '\n'))| ==> Free(ScanLines(Split(s, '\n'))[i], '\n')
    decreases |s|
  {
    var first := Before(s, '\n');
    assert Free(first, '\n') && Free(DropCR(first), '\n');
    if |first| < |s| {
      var rest := s[|first| + 1..];
      SplitIsFree(rest);
      assert Split(s, '\n') == [first] + Split(rest, '\n');
      assert Split(s, '\n')[1..] == Split(rest, '\n');
      hide Split, Free, DropCR, Before;
      assert ScanLines(Split(s, '\n')) == [DropCR(first)] + ScanLines(Split(rest, '\n'));
    } else {
      assert [s][1..] == [];
    }
  }

  lemma {:induction false} PrintedIsFree(config: map<string, string>, keys: seq<string>)
    requires forall k :: k in keys ==> k in config
    ensures forall i :: 0 <= i < |PrintedLines(config, keys)| ==> Free(PrintedLines(config, keys)[i], '\n')
    decreases |keys|
  {
    hide EntryText, ScanLines, Split;
    if keys != [] {
      assert keys[0] in keys;
      SplitIsFree(EntryText(keys[0], config[keys[0]]));
      PrintedIsFree(config, keys[1..]);
    }
  }

  // ------------------------------------------------------------- only well-formed maps

  ghost predicate NewlineFree(config: map<string, string>) {
    forall k :: k in config ==> Free(k, '\n') && Free(config[k], '\n')
  }

  lemma FreeEntryLines(k: string, v: string)
    requires Free(k, '\n') && Free(v, '\n')
    ensures EntryLines(k, v) == [EntryText(k, v)]
  {
    var t := EntryText(k, v);
    assert Free(t, '\n');
    if !HasSpace(v) && v != [] {
      assert t[|t| - 1] == v[|v| - 1];
    }
    OneLine(t);
  }

  lemma {:induction false} AtMostOnePerLine(p: Parser, config: map<string, string>, keys: seq<string>)
    requires NewlineFree(config) && forall k :: k in keys ==> k in config
    ensures LexLines(p, PrintedLines(config, keys)).Some? ==> |LexLines(p, PrintedLines(config, keys)).value| <= |p.resp| + |keys|
    decreases |keys|
  {
    if keys != [] {
      var k := keys[0];
      assert k in keys;
      FreeEntryLines(k, config[k]);
      hide LexChars, Trim, EntryText, EntryLines;
      var line, rest := EntryText(k, config[k]), PrintedLines(config, keys[1..]);
      assert ([line] + rest)[1..] == rest;
      LineGrows(p, line);
      hide LexLine;
      if LexLine(p, line).Some? {
        AtMostOnePerLine(LexLine(p, line).value, config, keys[1..]);
      }
    }
  }

  lemma OneMore(a: map<string, string>, k: string, v: string)
    ensures |a[k := v]| == if k in a then |a| else |a| + 1
  {
    assert a[k := v].Keys == a.Keys + {k};
    if k in a { assert a.Keys + {k} == a.Keys; }
  }

  lemma LineGrows(p: Parser, raw: string)
    ensures LexLine(p, raw).Some? ==> |LexLine(p, raw).value.resp| <= |p.resp| + 1
  {
    var line := Trim(raw);
    if line != "" {
      var e := LexChars(p.lexer, line, 0);
      if e.Done? { OneMore(p.resp, e.lexer.key, e.lexer.builder); }
    }
  }

  // If every printed line must have added an entry, the result weighs no more than
  // what was printed, and as much only if every entry was well formed.
  lemma {:induction false} BudgetOfLines(p: Parser, config: map<string, string>, keys: seq<string>)
    requires NewlineFree(config) && IsClean(p.lexer) && forall k :: k in keys ==> k in config
    requires LexLines(p, PrintedLines(config, keys)).Some?
    requires |LexLines(p, PrintedLines(config, keys)).value| == |p.resp| + |keys|
    ensures MapWeight(LexLines(p, PrintedLines(config, keys)).value) <= MapWeight(p.resp) + KeysWeight(config, keys)
    ensures (MapWeight(LexLines(p, PrintedLines(config, keys)).value) == MapWeight(p.resp) + KeysWeight(config, keys))
              ==> forall k :: k in keys ==> WellFormedEntry(k, config[k])
    decreases |keys|
  {
    if keys != [] {
      var k, v := keys[0], config[keys[0]];
      assert k in keys;
      FreeEntryLines(k, v);
      var line, rest := EntryText(k, v), PrintedLines(config, keys[1..]);
      assert PrintedLines(config, keys) == [line] + rest;
      assert ([line] + rest)[1..] == rest;
      var p' := LexLine(p, line).value;
      AtMostOnePerLine(p', config, keys[1..]);
      var k', v' := AddedEntry(p, k, v, p');
      WeightAdd(p.resp, k', v');
      hide LexLine, EntryText, EntryLines, WellFormedEntry;
      BudgetOfLines(p', config, keys[1..]);
      assert forall x :: x in keys <==> x == k || x in keys[1..];
    }
  }

  lemma AddedEntry(p: Parser, k: string, v: string, p': Parser) returns (k': string, v': string)
    requires IsClean(p.lexer) && Free(v, '\n') && LexLine(p, EntryText(k, v)) == Some(p') && |p'.resp| > |p.resp|
    ensures p'.resp == p.resp[k' := v'] && k' !in p.resp && IsClean(p'.lexer)
    ensures |k'| + |v'| <= |k| + |v|
    ensures |k'| + |v'| == |k| + |v| ==> WellFormedEntry(k, v)
  {
    var line := Trim(EntryText(k, v));
    var e := LexChars(p.lexer, line, 0);
    hide LexChars, Trim, EntryText;
    k', v' := e.lexer.key, e.lexer.builder;
    OneMore(p.resp, k', v');
    EntryBudget(p, k, v, k', v');
  }

  // The round-trip theorem: for every map and every order of its keys, parsing
  // what was printed gives the map back exactly when all its entries are well formed.
  lemma RoundTripIff(config: map<string, string>, keys: seq<string>)
    requires KeyList(config, keys)
    ensures ParseLines(PrintedLines(config, keys)) == Some(config) <==> WellFormedMap(config)
  {
    if ParseLines(PrintedLines(config, keys)) == Some(config) {
      hide LexLines, PrintedLines, WellFormedEntry, MapWeight, KeysWeight;
      PrintedIsFree(config, keys);
      LinesKeepOut(Parser(CLEAN, map[]), PrintedLines(config, keys));
      ListedWeight(config, keys);
      EmptyWeight();
      BudgetOfLines(Parser(CLEAN, map[]), config, keys);
    }
    if WellFormedMap(config) {
      PrintThenParse(config, keys);
    }
  }

  // A value with a space and a double quote does not survive.
  lemma QuotedValueIsLost()
    ensures var config := map["NAME" := "a \"b"];
            ParseLines(PrintedLines(config, ["NAME"])) != Some(config)
  {
    var config, keys := map["NAME" := "a \"b"], ["NAME"];
    var v := config["NAME"];
    assert v[1] == ' ' && v[2] == '"';
    assert HasSpace(v) && !Free(v, '"');
    assert KeyList(config, keys);
    RoundTripIff(config, keys);
  }

  lemma EmptyWeight()
    ensures MapWeight(map[]) == 0
  {}
}
