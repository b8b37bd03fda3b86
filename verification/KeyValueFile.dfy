// networkScripts.go: parseKeyValueFile, a quote and escape state machine that
// carries its state across lines, and the printer in nsInterface.Save.
module KeyValueFile {
  import opened Text

  // ------------------------------------------------------------------------- lexer

  datatype Lexer = Lexer(builder: string, readKey: bool, single: bool, double: bool, key: string)

  const CLEAN := Lexer("", false, false, false, "")

  // How the characters of a line end: normally, in a trailing backslash that
  // skips the end-of-line handling, or in a syntax error.
  datatype End = Done(lexer: Lexer) | NextLine(lexer: Lexer) | Failed

  function SkipSpace(line: string, i: nat): (j: nat)
    requires i <= |line|
    ensures i <= j <= |line|
    ensures forall x :: i <= x < j ==> IsSpace(line[x])
    ensures j < |line| ==> !IsSpace(line[j])
    decreases |line| - i
  {
    if i < |line| && IsSpace(line[i]) then SkipSpace(line, i + 1) else i
  }

  // Whether only a comment or nothing follows the spaces at i.
  predicate EndsHere(line: string, i: nat)
    requires i <= |line|
  {
    SkipSpace(line, i) == |line| || line[SkipSpace(line, i)] == '#'
  }

  predicate Quoted(s: Lexer) { s.single || s.double }

  // What a character is to the lexer in a given state.
  datatype Action = ToggleSingle | ToggleDouble | Stop | Escape | Separator | Space | Plain

  function ActionAt(s: Lexer, line: string, i: nat): Action
    requires i < |line|
  {
    var b := line[i];
    if b == '\'' && !s.double then ToggleSingle
    else if b == '"' && !s.single then ToggleDouble
    else if b == '\\' && i + 1 >= |line| then Stop
    else if b == '\\' && s.double && line[i + 1] == '"' then Escape
    else if b == '=' && !Quoted(s) then Separator
    else if IsSpace(b) && !Quoted(s) then Space
    else Plain
  }

  function LexChars(s: Lexer, line: string, i: nat): End
    requires i <= |line|
    decreases |line| - i
  {
    if i == |line| then Done(s)
    else
      match ActionAt(s, line, i)
      case ToggleSingle => LexChars(s.(single := !s.single), line, i + 1)
      case ToggleDouble => LexChars(s.(double := !s.double), line, i + 1)
      case Stop => NextLine(s)
      case Escape => LexChars(s.(builder := s.builder + ['"']), line, i + 2)
      case Separator =>
        if s.readKey then Failed
        else LexChars(s.(key := s.builder, builder := "", readKey := true), line, i + 1)
      case Space => if EndsHere(line, i) then Done(s) else Failed
      case Plain => LexChars(s.(builder := s.builder + [line[i]]), line, i + 1)
  }

  function TrimRight(s: string): (r: string)
    ensures |r| <= |s| && r == s[..|r|]
    ensures r != [] ==> !IsSpace(r[|r| - 1])
    ensures s != [] && !IsSpace(s[|s| - 1]) ==> r == s
  {
    if s != [] && IsSpace(s[|s| - 1]) then TrimRight(s[..|s| - 1]) else s
  }

  // bytes.TrimFunc(line, unicode.IsSpace).
  function Trim(s: string): string { TrimRight(s[SkipSpace(s, 0)..]) }

  // The parser between two lines; None once it has failed.
  datatype Parser = Parser(lexer: Lexer, resp: map<string, string>)

  function LexLine(p: Parser, raw: string): Option<Parser> {
    var line := Trim(raw);
    if line == "" || line[0] == '#' then Some(p)
    else
      match LexChars(p.lexer, line, 0)
      case Failed => None
      case NextLine(s) => Some(Parser(s, p.resp))
      case Done(s) =>
        if Quoted(s) then Some(Parser(s, p.resp))
        else if !s.readKey then None
        else Some(Parser(s.(builder := "", readKey := false), p.resp[s.key := s.builder]))
  }

  function LexLines(p: Parser, lines: seq<string>): Option<map<string, string>>
    decreases |lines|
  {
    if lines == [] then Some(p.resp)
    else match LexLine(p, lines[0]) case None => None case Some(p') => LexLines(p', lines[1..])
  }

  function ParseLines(lines: seq<string>): Option<map<string, string>> { LexLines(Parser(CLEAN, map[]), lines) }

  // The character loop over one trimmed line.
  method ReadLine(s0: Lexer, line: string) returns (end: End)
    ensures end == LexChars(s0, line, 0)
  {
    var builder, readKey, inSingleQuote, inDoubleQuote, key := s0.builder, s0.readKey, s0.single, s0.double, s0.key;
    var i := 0;
    while i < |line|
      invariant 0 <= i <= |line|
      invariant LexChars(Lexer(builder, readKey, inSingleQuote, inDoubleQuote, key), line, i) == LexChars(s0, line, 0)
    {
      var b := line[i];
      if b == '\'' && !inDoubleQuote {
        inSingleQuote := !inSingleQuote;
        i := i + 1;
        continue;
      }
      if b == '"' && !inSingleQuote {
        inDoubleQuote := !inDoubleQuote;
        i := i + 1;
        continue;
      }
      if b == '\\' {
        if i + 1 >= |line| {
          return NextLine(Lexer(builder, readKey, inSingleQuote, inDoubleQuote, key));
        }
        if inDoubleQuote && line[i + 1] == '"' {
          builder := builder + ['"'];
          i := i + 2;
          continue;
        }
      }
      if b == '=' && !inDoubleQuote && !inSingleQuote {
        if readKey { return Failed; }
        key := builder;
        builder := "";
        readKey := true;
        i := i + 1;
        continue;
      }
      if IsSpace(b) && !inDoubleQuote && !inSingleQuote {
        ghost var start := i;
        while i < |line|
          invariant start <= i <= |line|
          invariant SkipSpace(line, i) == SkipSpace(line, start)
        {
          if IsSpace(line[i]) {
            i := i + 1;
          } else if line[i] == '#' {
            break;
          } else {
            return Failed;
          }
        }
        return Done(Lexer(builder, readKey, inSingleQuote, inDoubleQuote, key));
      }
      builder := builder + [b];
      i := i + 1;
    }
    return Done(Lexer(builder, readKey, inSingleQuote, inDoubleQuote, key));
  }

  // The loop over the lines of an environment file.
  method ParseKeyValueFile(lines: seq<string>) returns (r: Option<map<string, string>>)
    ensures r == ParseLines(lines)
  {
    hide LexChars, Trim;
    var resp: map<string, string> := map[];
    var s := CLEAN;
    assert lines[0..] == lines;
    for i := 0 to |lines|
      invariant LexLines(Parser(s, resp), lines[i..]) == ParseLines(lines)
    {
      assert lines[i..][0] == lines[i] && lines[i..][1..] == lines[i + 1..];
      var line := Trim(lines[i]);
      if |line| == 0 { continue; }
      if line[0] == '#' { continue; }
      var end := ReadLine(s, line);
      if end.Failed? { return None; }
      s := end.lexer;
      if end.NextLine? { continue; }
      if s.double || s.single { continue; }
      if !s.readKey { return None; }
      resp := resp[s.key := s.builder];
      s := s.(builder := "", readKey := false);
    }
    return Some(resp);
  }

  // ----------------------------------------------------------------------- printer

  // The text of one entry, without the newline that ends it.
  function EntryText(k: string, v: string): string {
    if HasSpace(v) then k + "=" + ['"'] + v + ['"'] else k + "=" + v
  }

  // bufio.ScanLines drops a carriage return before the newline.
  function DropCR(s: string): string { if s != [] && s[|s| - 1] == '\r' then s[..|s| - 1] else s }

  // The lines a scanner finds in the text of an entry.
  function EntryLines(k: string, v: string): seq<string> { ScanLines(Split(EntryText(k, v), '\n')) }

  function ScanLines(parts: seq<string>): seq<string>
    decreases |parts|
  {
    if parts == [] then [] else [DropCR(parts[0])] + ScanLines(parts[1..])
  }

  // The lines of the file nsInterface.Save writes, for its keys in a given order.
  function PrintedLines(config: map<string, string>, keys: seq<string>): seq<string>
    requires forall k :: k in keys ==> k in config
    decreases |keys|
  {
    if keys == [] then []
    else
      assert keys[0] in keys;
      EntryLines(keys[0], config[keys[0]]) + PrintedLines(config, keys[1..])
  }

  // ------------------------------------------------------------- well-formed entries

  predicate Free(s: string, c: char) { forall i :: 0 <= i < |s| ==> s[i] != c }

  predicate PlainText(s: string) {
    forall i :: 0 <= i < |s| ==> s[i] != '"' && s[i] != '\'' && s[i] != '=' && !IsSpace(s[i])
  }

  predicate NoFinalBackslash(s: string) { s != [] ==> s[|s| - 1] != '\\' }

  predicate WellFormedKey(k: string) { PlainText(k) && (k != [] ==> k[0] != '#') }

  predicate WellFormedValue(v: string) {
    NoFinalBackslash(v) && if HasSpace(v) then Free(v, '"') && Free(v, '\n') else PlainText(v)
  }

  predicate WellFormedEntry(k: string, v: string) { WellFormedKey(k) && WellFormedValue(v) }
}
