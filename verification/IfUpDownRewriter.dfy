// ifupdown.go: the streaming rewriter in ifInterface.Save, which replaces one
// interface's stanzas inside a file shared with other interfaces.
module IfUpDownRewriter {
  import opened Text
  import opened Net
  import opened IfUpDownReader
  import opened IfUpDownWriter
  import opened IfUpDownRoundTrip

  // ------------------------------------------------------------------ kinds of lines

  // What a line is to the rewriter of one interface.
  datatype Kind =
    | Blank
    | Comment
    | Auto(mentions: bool)   // auto or allow-hotplug, perhaps naming the interface
    | Malformed              // an iface line without a name
    | Own                    // opens a stanza of the interface
    | Other                  // opens a stanza of another interface
    | Body                   // anything else

  predicate Mentions(ws: seq<string>, name: string) { exists i :: 0 <= i < |ws| && BaseName(ws[i]) == name }

  function KindOf(line: string, name: string): Kind {
    var ws := Tokens(line);
    if ws == [] then (if '#' in line then Comment else Blank)
    else
      var d := DirectiveOf(ws[0]);
      if d == Global then Auto(Mentions(ws[1..], name))
      else if d == Stanza then
        if |ws| < 2 then Malformed else if BaseName(ws[1]) == name then Own else Other
      else Body
  }

  // ------------------------------------------------------------------- the rewriter

  datatype Rewriter = Rewriter(found: bool, wrote: bool, blanks: nat)

  datatype Step = Step(next: Rewriter, out: seq<string>)

  // A stanza that ends here is written before the line itself.
  function RewriteLine(w: Rewriter, line: string, name: string, block: seq<string>): Step {
    var kind := KindOf(line, name);
    var w0 := w.(blanks := 0);
    match kind
    case Blank => Step(w.(blanks := w.blanks + 1), if w.blanks == 0 then [line] else [])
    case Comment => Step(w0, [line])
    case Auto(mentions) =>
      if mentions && w.found && !w.wrote then Step(Rewriter(false, true, 0), block + [line]) else Step(w0, [line])
    case Malformed => Step(w0, [line])
    case Own => Step(w0.(found := true), [])
    case Other =>
      if w.found && !w.wrote then Step(Rewriter(false, true, 0), block + [line])
      else Step(w0, if w.found then [] else [line])
    case Body => Step(w0, if w.found then [] else [line])
  }

  // The output from a line on. A block not written by then goes to the end.
  function RewriteLines(w: Rewriter, lines: seq<string>, name: string, block: seq<string>): seq<string>
    decreases |lines|
  {
    if lines == [] then (if w.wrote then [] else block)
    else
      var s := RewriteLine(w, lines[0], name, block);
      s.out + RewriteLines(s.next, lines[1..], name, block)
  }

  const START := Rewriter(false, false, 0)

  function Rewrite(lines: seq<string>, name: string, block: seq<string>): seq<string> {
    RewriteLines(START, lines, name, block)
  }

  // What Save writes when the file does not exist yet.
  function FreshFile(name: string, block: seq<string>): seq<string> {
    ["auto " + name, "allow-hotplug " + name, ""] + block
  }

  function Saved(original: Option<seq<string>>, name: string, block: seq<string>): seq<string> {
    match original
    case None => FreshFile(name, block)
    case Some(lines) => Rewrite(lines, name, block)
  }

  method ContainsIface(ws: seq<string>, name: string) returns (contains: bool)
    ensures contains == Mentions(ws, name)
  {
    contains := false;
    for i := 0 to |ws|
      invariant contains <==> exists j :: 0 <= j < i && BaseName(ws[j]) == name
    {
      if BaseName(ws[i]) == name { contains := true; }
    }
  }

  // One turn of Save's scan. The source prints the stanza where it belongs;
  // "written" is that printed stanza.
  method SaveLine(w: Rewriter, origLine: string, name: string, written: seq<string>, fdw0: seq<string>)
    returns (next: Rewriter, fdw: seq<string>)
    ensures next == RewriteLine(w, origLine, name, written).next
    ensures fdw == fdw0 + RewriteLine(w, origLine, name, written).out
  {
    var foundIface, wroteIface, blankLineCount := w.found, w.wrote, w.blanks;
    fdw := fdw0;
    var fields := Tokens(origLine);
    if |fields| == 0 {
      if '#' in origLine {
        fdw := fdw + [origLine];
        blankLineCount := 0;
      } else {
        blankLineCount := blankLineCount + 1;
        if blankLineCount <= 1 { fdw := fdw + [origLine]; }
      }
    } else {
      blankLineCount := 0;
      var directive := DirectiveOf(fields[0]);
      if directive == Global {
        var containsIface := ContainsIface(fields[1..], name);
        if containsIface && foundIface && !wroteIface {
          wroteIface := true;
          foundIface := false;
          fdw := fdw + written;
        }
        fdw := fdw + [origLine];
      } else if directive == Stanza {
        if |fields| < 2 {
          fdw := fdw + [origLine];
        } else {
          if name == BaseName(fields[1]) {
            foundIface := true;
          } else if foundIface && !wroteIface {
            wroteIface := true;
            foundIface := false;
            fdw := fdw + written;
          }
          if !foundIface { fdw := fdw + [origLine]; }
        }
      } else if !foundIface {
        fdw := fdw + [origLine];
      }
    }
    next := Rewriter(foundIface, wroteIface, blankLineCount);
  }

  // Save, for the interface's one file: the lines of the new file from those of the old one.
  method Save(iface: Iface, original: Option<seq<string>>) returns (fdw: seq<string>)
    ensures exists keys :: KeyOrder(iface.config, keys) && fdw == Saved(original, iface.name, Block(iface, keys))
  {
    var written := Write(iface);
    if original.None? {
      fdw := ["auto " + iface.name, "allow-hotplug " + iface.name, ""] + written;
    } else {
      fdw := SaveLines(iface.name, written, original.value);
    }
  }

  lemma OneMoreLine(w: Rewriter, lines: seq<string>, i: nat, name: string, block: seq<string>, fdw: seq<string>)
    requires i < |lines|
    ensures var step := RewriteLine(w, lines[i], name, block);
            fdw + RewriteLines(w, lines[i..], name, block) ==
            (fdw + step.out) + RewriteLines(step.next, lines[i + 1..], name, block)
  {
    hide RewriteLine;
    assert lines[i..][0] == lines[i] && lines[i..][1..] == lines[i + 1..];
  }

  method SaveLines(name: string, written: seq<string>, lines: seq<string>) returns (fdw: seq<string>)
    ensures fdw == Rewrite(lines, name, written)
  {
    hide RewriteLine;
    fdw := [];
    var w := START;
    assert lines[0..] == lines;
    for i := 0 to |lines|
      invariant fdw + RewriteLines(w, lines[i..], name, written) == Rewrite(lines, name, written)
    {
      OneMoreLine(w, lines, i, name, written, fdw);
      w, fdw := SaveLine(w, lines[i], name, written, fdw);
    }
    assert lines[|lines|..] == [];
    if !w.wrote { fdw := fdw + written; }
  }

  // ------------------------------------------------- where the rewriter is faithful

  // The stages of a file as seen by the rewriter of one interface.
  datatype Stage =
    | Before     // no stanza of the interface yet
    | Inside     // in its first run of stanzas; the block is still to be written
    | AfterAuto  // the block was written by an auto line, the stanza may continue
    | After      // the block was written, another stanza is open
    | Reopened   // a further stanza of the interface began after that
    | Damaged    // a line was lost, or one of the old stanza survived

  function NextStage(s: Stage, kind: Kind): Stage {
    match s
    case Before => if kind == Own then Inside else Before
    case Inside => if kind == Other then After else if kind == Auto(true) then AfterAuto else Inside
    case AfterAuto =>
      if kind == Body then Damaged else if kind == Other then After else if kind == Own then Reopened else AfterAuto
    case After => if kind == Own then Reopened else After
    case Reopened => if kind == Other then Damaged else Reopened
    case Damaged => Damaged
  }

  function StageAfter(s: Stage, lines: seq<string>, name: string): Stage
    decreases |lines|
  {
    if lines == [] then s else StageAfter(NextStage(s, KindOf(lines[0], name)), lines[1..], name)
  }

  // The exact condition: no stanza of the interface starts again after the block
  // was written with another interface following, and no line of its stanza
  // follows an auto line that names it.
  predicate Rewritable(lines: seq<string>, name: string) {
    StageAfter(Before, lines, name) != Damaged
  }

  // Which lines stay, given whose stanza they are in and whether a blank line precedes.
  predicate Stays(kind: Kind, own: bool, blank: bool) {
    match kind
    case Blank => !blank
    case Own => false
    case Body => !own
    case _ => true
  }

  // The lines that are not the interface's own: everything but its iface lines and what
  // follows them up to the next iface line. A blank line stays unless one precedes it.
  function Survivors(lines: seq<string>, name: string, own: bool, blank: bool): seq<string>
    decreases |lines|
  {
    if lines == [] then []
    else
      var k := KindOf(lines[0], name);
      (if Stays(k, own, blank) then [lines[0]] else []) + Survivors(lines[1..], name, Owns(own, k), k == Blank)
  }

  // The rewriter's flags and the ownership of the current line at each stage.
  predicate AtStage(s: Stage, w: Rewriter, own: bool) {
    && (s == Before ==> !w.found && !w.wrote && !own)
    && (s == Inside ==> w.found && !w.wrote && own)
    && (s == AfterAuto ==> !w.found && w.wrote && own)
    && (s == After ==> !w.found && w.wrote && !own)
    && (s == Reopened ==> w.found && w.wrote && own)
  }

  function Owns(own: bool, kind: Kind): bool { if kind == Own then true else if kind == Other then false else own }

  lemma NextAtStage(s: Stage, w: Rewriter, own: bool, line: string, name: string, block: seq<string>)
    requires AtStage(s, w, own) && s != Damaged
    ensures var k := KindOf(line, name);
            NextStage(s, k) != Damaged ==> AtStage(NextStage(s, k), RewriteLine(w, line, name, block).next, Owns(own, k))
  {
    hide KindOf;
  }

  // What one line contributes to the output, the block aside.
  function Kept(w: Rewriter, kind: Kind, line: string): seq<string> {
    if kind == Own || (kind == Blank && w.blanks > 0) || (w.found && (kind == Body || (kind == Other && w.wrote))) then []
    else [line]
  }

  // Up to the first damage, what the rewriter keeps of a line is what survives of it.
  lemma SurvivorStep(s: Stage, w: Rewriter, own: bool, lines: seq<string>, name: string)
    requires AtStage(s, w, own) && lines != [] && s != Damaged
    requires NextStage(s, KindOf(lines[0], name)) != Damaged
    ensures var k := KindOf(lines[0], name);
            Survivors(lines, name, own, w.blanks > 0)
            == Kept(w, k, lines[0]) + Survivors(lines[1..], name, Owns(own, k), k == Blank)
  {
    hide KindOf;
  }

  predicate Writes(w: Rewriter, kind: Kind) { w.found && !w.wrote && (kind == Other || kind == Auto(true)) }

  lemma LineOutput(w: Rewriter, line: string, name: string, block: seq<string>)
    ensures var s, k := RewriteLine(w, line, name, block), KindOf(line, name);
            && s.out == (if Writes(w, k) then block else []) + Kept(w, k, line)
            && s.next.wrote == (w.wrote || Writes(w, k))
            && s.next.found == (if k == Own then true else if Writes(w, k) then false else w.found)
            && (s.next.blanks > 0 <==> k == Blank)
  {
    hide KindOf;
  }

  // Once the block is out, the rest of the output is exactly the survivors.
  lemma {:induction false} SurvivorsAfter(s: Stage, w: Rewriter, own: bool, lines: seq<string>, name: string,
                                        block: seq<string>)
    requires AtStage(s, w, own) && w.wrote && StageAfter(s, lines, name) != Damaged && s != Before && s != Inside
    ensures RewriteLines(w, lines, name, block) == Survivors(lines, name, own, w.blanks > 0)
    decreases |lines|
  {
    hide KindOf, RewriteLine;
    if lines != [] {
      var k, step := KindOf(lines[0], name), RewriteLine(w, lines[0], name, block);
      if NextStage(s, k) == Damaged {
        DamagedStays(lines[1..], name);
      }
      NextAtStage(s, w, own, lines[0], name, block);
      LineOutput(w, lines[0], name, block);
      SurvivorStep(s, w, own, lines, name);
      SurvivorsAfter(NextStage(s, k), step.next, Owns(own, k), lines[1..], name, block);
    }
  }

  lemma {:induction false} DamagedStays(lines: seq<string>, name: string)
    ensures StageAfter(Damaged, lines, name) == Damaged
    decreases |lines|
  {
    hide KindOf;
    if lines != [] { DamagedStays(lines[1..], name); }
  }

  // One copy of the block stands among the survivors, at position k.
  predicate InsertedAt(out: seq<string>, rest: seq<string>, block: seq<string>, k: nat) {
    k <= |rest| && out == rest[..k] + block + rest[k..]
  }

  lemma {:induction false} SurvivorsBefore(s: Stage, w: Rewriter, own: bool, lines: seq<string>, name: string,
                                        block: seq<string>)
    returns (k: nat)
    requires AtStage(s, w, own) && (s == Before || s == Inside) && StageAfter(s, lines, name) != Damaged
    ensures InsertedAt(RewriteLines(w, lines, name, block), Survivors(lines, name, own, w.blanks > 0), block, k)
    decreases |lines|
  {
    hide KindOf, RewriteLine, InsertedAt, Kept;
    if lines == [] {
      k := 0;
      AtFront(block, [], []);
      assert (block + []) + [] == block;
      assert [] + [] == Survivors(lines, name, own, w.blanks > 0);
    } else {
      var kind, step := KindOf(lines[0], name), RewriteLine(w, lines[0], name, block);
      var rest, more := RewriteLines(step.next, lines[1..], name, block), Survivors(lines[1..], name, Owns(own, kind), kind == Blank);
      NextAtStage(s, w, own, lines[0], name, block);
      LineOutput(w, lines[0], name, block);
      SurvivorStep(s, w, own, lines, name);
      if Writes(w, kind) {
        SurvivorsAfter(NextStage(s, kind), step.next, Owns(own, kind), lines[1..], name, block);
        k := 0;
        AtFront(block, Kept(w, kind, lines[0]), more);
      } else {
        assert [] + Kept(w, kind, lines[0]) == Kept(w, kind, lines[0]);
        var j := SurvivorsBefore(NextStage(s, kind), step.next, Owns(own, kind), lines[1..], name, block);
        k := j + |Kept(w, kind, lines[0])|;
        Shifted(Kept(w, kind, lines[0]), rest, more, block, j);
      }
    }
  }

  lemma AtFront(block: seq<string>, a: seq<string>, rest: seq<string>)
    ensures InsertedAt((block + a) + rest, a + rest, block, 0)
  {
    assert (block + a) + rest == block + (a + rest);
  }

  lemma Shifted(a: seq<string>, out: seq<string>, rest: seq<string>, block: seq<string>, j: nat)
    requires InsertedAt(out, rest, block, j)
    ensures InsertedAt(a + out, a + rest, block, |a| + j)
  {
    assert (a + rest)[..|a| + j] == a + rest[..j];
    assert (a + rest)[|a| + j..] == rest[j..];
  }

  // ------------------------------------------ and where it is not: a counting argument

  function Count(lines: seq<string>, name: string, kind: Kind): nat
    decreases |lines|
  {
    if lines == [] then 0 else (if KindOf(lines[0], name) == kind then 1 else 0) + Count(lines[1..], name, kind)
  }

  lemma {:induction false} CountAppend(a: seq<string>, b: seq<string>, name: string, kind: Kind)
    ensures Count(a + b, name, kind) == Count(a, name, kind) + Count(b, name, kind)
    decreases |a|
  {
    hide KindOf;
    if a == [] {
      assert a + b == b;
    } else {
      assert (a + b)[0] == a[0] && (a + b)[1..] == a[1..] + b;
      CountAppend(a[1..], b, name, kind);
    }
  }

  // How many foreign iface lines and how many body lines some lines hold.
  datatype Tally = Tally(others: nat, bodies: nat)

  function TallyOf(lines: seq<string>, name: string): Tally {
    Tally(Count(lines, name, Other), Count(lines, name, Body))
  }

  function Plus(a: Tally, b: Tally): Tally { Tally(a.others + b.others, a.bodies + b.bodies) }

  // Fewer foreign iface lines than there should be, or as many of those but more body lines.
  predicate Wrong(out: Tally, rest: Tally) {
    out.others < rest.others || (out.others == rest.others && out.bodies > rest.bodies)
  }

  predicate NotBetter(out: Tally, rest: Tally) { Wrong(out, rest) || out == rest }

  lemma TallyAppend(a: seq<string>, b: seq<string>, name: string)
    ensures TallyOf(a + b, name) == Plus(TallyOf(a, name), TallyOf(b, name))
  {
    hide Count;
    CountAppend(a, b, name, Other);
    CountAppend(a, b, name, Body);
  }

  lemma TallyOne(line: string, name: string)
    ensures TallyOf([line], name)
         == Tally(if KindOf(line, name) == Other then 1 else 0, if KindOf(line, name) == Body then 1 else 0)
    ensures TallyOf([], name) == Tally(0, 0)
  {
    hide KindOf;
    assert [line][1..] == [];
    assert Count([], name, Other) == 0 && Count([], name, Body) == 0;
  }

  function Output(w: Rewriter, lines: seq<string>, name: string, block: seq<string>): Tally {
    TallyOf(RewriteLines(w, lines, name, block), name)
  }

  function Expected(own: bool, blank: bool, lines: seq<string>, name: string): Tally {
    TallyOf(Survivors(lines, name, own, blank), name)
  }

  function Both(k: Kind, other: bool, body: bool): Tally {
    Tally(if k == Other && other then 1 else 0, if k == Body && body then 1 else 0)
  }

  lemma TallyKept(kept: bool, line: string, name: string)
    ensures TallyOf(if kept then [line] else [], name) == Both(KindOf(line, name), kept, kept)
  {
    hide KindOf, Count;
    TallyOne(line, name);
  }

  lemma OutputTally(w: Rewriter, lines: seq<string>, name: string, block: seq<string>)
    requires lines != [] && w.wrote
    ensures var k, step := KindOf(lines[0], name), RewriteLine(w, lines[0], name, block);
            && step.next.wrote && step.next.found == (k == Own || w.found) && (step.next.blanks > 0 <==> k == Blank)
            && Output(w, lines, name, block) == Plus(Both(k, !w.found, !w.found), Output(step.next, lines[1..], name, block))
  {
    var k, step := KindOf(lines[0], name), RewriteLine(w, lines[0], name, block);
    hide KindOf, RewriteLine, TallyOf;
    LineOutput(w, lines[0], name, block);
    KeptTally(w, lines[0], name);
    hide Kept, Both;
    TallyAppend(step.out, RewriteLines(step.next, lines[1..], name, block), name);
    assert [] + Kept(w, k, lines[0]) == Kept(w, k, lines[0]);
  }

  lemma KeptTally(w: Rewriter, line: string, name: string)
    requires w.wrote
    ensures TallyOf(Kept(w, KindOf(line, name), line), name) == Both(KindOf(line, name), !w.found, !w.found)
  {
    hide KindOf, TallyOf;
    TallyKept(true, line, name);
    TallyKept(false, line, name);
  }

  lemma ExpectedTally(own: bool, blank: bool, lines: seq<string>, name: string)
    requires lines != []
    ensures var k := KindOf(lines[0], name);
            Expected(own, blank, lines, name) == Plus(Both(k, true, !own), Expected(Owns(own, k), k == Blank, lines[1..], name))
  {
    var k := KindOf(lines[0], name);
    hide KindOf, TallyOf;
    TallyKept(true, lines[0], name);
    TallyKept(false, lines[0], name);
    var head, rest := if Stays(k, own, blank) then [lines[0]] else [], Survivors(lines[1..], name, Owns(own, k), k == Blank);
    assert TallyOf(head, name) == Both(k, true, !own);
    hide Both, Stays;
    TallyAppend(head, rest, name);
  }

  // One line's part in both tallies, once the block is out.
  lemma LineTallies(w: Rewriter, own: bool, lines: seq<string>, name: string, block: seq<string>)
    requires lines != [] && w.wrote
    ensures var k, step := KindOf(lines[0], name), RewriteLine(w, lines[0], name, block);
            && step.next.wrote && step.next.found == (k == Own || w.found) && (step.next.blanks > 0 <==> k == Blank)
            && Output(w, lines, name, block) == Plus(Both(k, !w.found, !w.found), Output(step.next, lines[1..], name, block))
            && Expected(own, w.blanks > 0, lines, name)
               == Plus(Both(k, true, !own), Expected(Owns(own, k), step.next.blanks > 0, lines[1..], name))
  {
    OutputTally(w, lines, name, block);
    ExpectedTally(own, w.blanks > 0, lines, name);
    hide KindOf, RewriteLine, Output, Expected, Both;
  }

  lemma EmptyTallies(w: Rewriter, own: bool, name: string, block: seq<string>)
    requires w.wrote
    ensures Output(w, [], name, block) == Expected(own, w.blanks > 0, [], name) == Tally(0, 0)
  {}

  // While foundIface stays set, no foreign iface line gets through.
  lemma {:induction false} FoundLoses(w: Rewriter, lines: seq<string>, name: string, block: seq<string>)
    requires w.wrote && w.found
    ensures Output(w, lines, name, block).others == 0
    decreases |lines|
  {
    hide KindOf, RewriteLine, Survivors;
    if lines != [] {
      LineTallies(w, true, lines, name, block);
      FoundLoses(RewriteLine(w, lines[0], name, block).next, lines[1..], name, block);
    }
  }

  // Once the block is out, nothing that should be there is added.
  lemma {:induction false} NeverBetter(w: Rewriter, own: bool, lines: seq<string>, name: string, block: seq<string>)
    requires w.wrote && (w.found ==> own)
    ensures NotBetter(Output(w, lines, name, block), Expected(own, w.blanks > 0, lines, name))
    decreases |lines|
  {
    hide KindOf, RewriteLine, Output, Expected;
    if lines == [] {
      EmptyTallies(w, own, name, block);
    } else {
      var k, next := KindOf(lines[0], name), RewriteLine(w, lines[0], name, block).next;
      LineTallies(w, own, lines, name, block);
      if w.found && k == Other {
        FoundLoses(w, lines, name, block);
      } else {
        NeverBetter(next, Owns(own, k), lines[1..], name, block);
      }
    }
  }

  lemma {:induction false} DamageAfter(s: Stage, w: Rewriter, own: bool, lines: seq<string>, name: string,
                                       block: seq<string>)
    requires AtStage(s, w, own) && w.wrote && s in {AfterAuto, After, Reopened}
    requires StageAfter(s, lines, name) == Damaged
    ensures Wrong(Output(w, lines, name, block), Expected(own, w.blanks > 0, lines, name))
    decreases |lines|
  {
    hide KindOf, RewriteLine, Output, Expected;
    if lines != [] {
      var k, next := KindOf(lines[0], name), RewriteLine(w, lines[0], name, block).next;
      LineTallies(w, own, lines, name, block);
      NextAtStage(s, w, own, lines[0], name, block);
      if NextStage(s, k) != Damaged {
        DamageAfter(NextStage(s, k), next, Owns(own, k), lines[1..], name, block);
      } else if s == Reopened {
        FoundLoses(w, lines, name, block);
      } else {
        NeverBetter(next, Owns(own, k), lines[1..], name, block);
      }
    }
  }

  // One line's part in both tallies, before the block is out or with it.
  lemma LineTalliesBefore(s: Stage, w: Rewriter, own: bool, lines: seq<string>, name: string, block: seq<string>)
    requires AtStage(s, w, own) && lines != [] && s != Damaged && NextStage(s, KindOf(lines[0], name)) != Damaged
    ensures var k, next := KindOf(lines[0], name), RewriteLine(w, lines[0], name, block).next;
            var kept, b := TallyOf(Kept(w, k, lines[0]), name), TallyOf(block, name);
            var rest := Plus(kept, Output(next, lines[1..], name, block));
            && Output(w, lines, name, block) == (if Writes(w, k) then Plus(b, rest) else rest)
            && Expected(own, w.blanks > 0, lines, name) == Plus(kept, Expected(Owns(own, k), next.blanks > 0, lines[1..], name))
            && next.wrote == (w.wrote || Writes(w, k))
  {
    hide KindOf, RewriteLine, Count, Kept, AtStage, NextStage, TallyOf;
    var k, step := KindOf(lines[0], name), RewriteLine(w, lines[0], name, block);
    var rest, kept := RewriteLines(step.next, lines[1..], name, block), Kept(w, k, lines[0]);
    LineOutput(w, lines[0], name, block);
    SurvivorStep(s, w, own, lines, name);
    TallyAppend(step.out, rest, name);
    TallyAppend(kept, Survivors(lines[1..], name, Owns(own, k), k == Blank), name);
    TallyAppend(block, kept, name);
    assert [] + kept == kept;
  }

  lemma {:induction false} DamageBefore(s: Stage, w: Rewriter, own: bool, lines: seq<string>, name: string,
                                        block: seq<string>)
    requires AtStage(s, w, own) && (s == Before || s == Inside) && StageAfter(s, lines, name) == Damaged
    ensures Wrong(Output(w, lines, name, block), Plus(TallyOf(block, name), Expected(own, w.blanks > 0, lines, name)))
    decreases |lines|
  {
    hide KindOf, RewriteLine, Output, Expected, TallyOf, Kept;
    if lines != [] {
      var k, next := KindOf(lines[0], name), RewriteLine(w, lines[0], name, block).next;
      NextAtStage(s, w, own, lines[0], name, block);
      LineTalliesBefore(s, w, own, lines, name, block);
      if Writes(w, k) {
        DamageAfter(NextStage(s, k), next, Owns(own, k), lines[1..], name, block);
      } else {
        DamageBefore(NextStage(s, k), next, Owns(own, k), lines[1..], name, block);
      }
    }
  }

  lemma InsertedTally(out: seq<string>, rest: seq<string>, block: seq<string>, k: nat, name: string)
    requires InsertedAt(out, rest, block, k)
    ensures TallyOf(out, name) == Plus(TallyOf(block, name), TallyOf(rest, name))
  {
    hide Count;
    TallyAppend(rest[..k] + block, rest[k..], name);
    TallyAppend(rest[..k], block, name);
    TallyAppend(rest[..k], rest[k..], name);
    assert rest == rest[..k] + rest[k..];
  }

  // The verbatim theorem. The new file is the old one without the interface's stanzas,
  // every run of blank lines shortened to one, and one copy of the block put in, exactly
  // when the file is rewritable for the interface.
  lemma RewriteIsVerbatimIff(lines: seq<string>, name: string, block: seq<string>)
    ensures Rewritable(lines, name) <==>
              exists k :: InsertedAt(Rewrite(lines, name, block), Survivors(lines, name, false, false), block, k)
  {
    hide RewriteLines, Survivors, Count;
    var out, rest := Rewrite(lines, name, block), Survivors(lines, name, false, false);
    if Rewritable(lines, name) {
      var k := SurvivorsBefore(Before, START, false, lines, name, block);
      assert InsertedAt(out, rest, block, k);
    } else {
      DamageBefore(Before, START, false, lines, name, block);
      forall k: nat | InsertedAt(out, rest, block, k) ensures false {
        InsertedTally(out, rest, block, k, name);
      }
    }
  }
}
