// ifupdown.go: what Save means to ReadFile. Replacing an interface's stanzas in
// the file replaces that interface in what the file reads as, and nothing else.
module IfUpDownMeaning {
  import opened Text
  import opened Net
  import opened IfUpDownReader
  import opened IfUpDownWriter
  import opened IfUpDownRoundTrip
  import opened IfUpDownRewriter

  // The interface replaced where it stands, or appended if it is new.
  function Replaced(ifaces: seq<Iface>, t: Iface): seq<Iface> {
    var k := Find(ifaces, t.name);
    if k < |ifaces| then ifaces[k := t] else ifaces + [t]
  }

  // Two interface lists that differ in position t only, which holds the interface.
  predicate DifferAt(a: seq<Iface>, b: seq<Iface>, t: nat, name: string, target: Iface) {
    && t < |a| == |b| && Find(a, name) == t && target.name == name
    && b == a[t := target]
  }

  // The reader on the old file (r) and on the new one (r'), stage by stage.
  ghost predicate Related(s: Stage, r: Reader, r': Reader, t: nat, target: Iface) {
    && r.Valid() && r'.Valid() && r.error.None? && r'.error.None?
    && match s
       case Before => r == r' && Find(r.ifaces, target.name) == |r.ifaces|
       case Inside =>
         r.cur == t && t + 1 == |r.ifaces| && Find(r.ifaces, target.name) == t
         && r'.Flushed() == r.ifaces[..t]
       case AfterAuto => r.cur == t == r'.cur && DifferAt(r.Flushed(), r'.Flushed(), t, target.name, target)
       case After =>
         r.cur == r'.cur != t && r.pending == r'.pending
         && DifferAt(r.ifaces, r'.ifaces, t, target.name, target)
       case Reopened => r.cur == t && DifferAt(r.Flushed(), r'.Flushed(), t, target.name, target)
       case Damaged => false
  }

  lemma {:induction false} FindByNames(a: seq<Iface>, b: seq<Iface>, name: string)
    requires |a| == |b| && forall i :: 0 <= i < |a| ==> a[i].name == b[i].name
    ensures Find(a, name) == Find(b, name)
  {
    var j, k := Find(a, name), Find(b, name);
    if j < |a| { assert b[j].name == name; }
    if k < |b| { assert a[k].name == name; }
  }

  lemma FindPrefix(a: seq<Iface>, t: nat, name: string)
    requires t <= |a| && Find(a, name) >= t
    ensures Find(a[..t], name) == t
  {}

  lemma FindAppend(a: seq<Iface>, x: Iface, name: string)
    ensures Find(a, name) == |a| && x.name == name ==> Find(a + [x], name) == |a|
    ensures Find(a, name) < |a| ==> Find(a + [x], name) == Find(a, name)
  {
    var k := Find(a + [x], name);
    assert (forall i :: 0 <= i < |a| ==> (a + [x])[i] == a[i]) && (a + [x])[|a|] == x;
    if k < |a| { assert a[k].name == name; }
  }

  lemma BodyKeepsName(o: Open, ws: seq<string>)
    requires IsBody(ws)
    ensures BodyLine(o, ws).open.iface.name == o.iface.name
  {
    hide Script, ParseNetwork, ParseIP, Atoi;
  }

  // An iface line of another interface, read in two states that differ at t only.
  lemma HeaderElsewhere(r: Reader, r': Reader, ws: seq<string>, t: nat, target: Iface)
    requires r.Valid() && r'.Valid() && r.error.None? && r'.error.None? && |ws| >= 2 && BaseName(ws[1]) != target.name
    requires DifferAt(r.Flushed(), r'.Flushed(), t, target.name, target)
    ensures Related(After, HeaderLine(r, ws), HeaderLine(r', ws), t, target)
  {
    hide Reopen, Find;
    var name, a, b := BaseName(ws[1]), r.Flushed(), r'.Flushed();
    FindByNames(a, b, name);
    var k := Find(a, name);
    assert k != t;
    FindAppend(a, NewIface(name), target.name);
    var a1, b1 := Ensure(a, name), Ensure(b, name);
    assert b1 == a1[t := target];
    ReopenKeepsName(a1[k], ws);
    FindByNames(a1, a1[k := Reopen(a1[k], ws)], target.name);
  }

  lemma ReopenKeepsName(iface: Iface, ws: seq<string>)
    requires |ws| >= 2
    ensures Reopen(iface, ws).name == iface.name
  {}

  // An iface line of the interface itself: it is opened at position t.
  lemma HeaderHere(r: Reader, ws: seq<string>, t: nat, name: string)
    requires r.Valid() && r.error.None? && |ws| >= 2 && BaseName(ws[1]) == name
    requires Find(r.Flushed(), name) == t
    ensures var r1 := HeaderLine(r, ws);
            && r1.error.None? && r1.cur == t && r1.pending.None? && Find(r1.ifaces, name) == t
            && |r1.ifaces| == (if t < |r.ifaces| then |r.ifaces| else t + 1)
            && (forall i :: 0 <= i < |r.ifaces| && i != t ==> r1.ifaces[i] == r.Flushed()[i])
            && r1.Flushed() == r1.ifaces
  {
    hide Reopen;
    var a1 := Ensure(r.Flushed(), name);
    FindAppend(r.Flushed(), NewIface(name), name);
    ReopenKeepsName(a1[t], ws);
    FindByNames(a1, a1[t := Reopen(a1[t], ws)], name);
  }

  // A body line while another interface's stanza is open, or the interface's own.
  lemma BodyRelated(s: Stage, r: Reader, r': Reader, ws: seq<string>, t: nat, target: Iface)
    requires Related(s, r, r', t, target) && IsBody(ws) && BodyStep(r, ws).error.None?
    requires s in {Before, Inside, After, Reopened}
    ensures s == Before || s == After ==> Related(s, BodyStep(r, ws), BodyStep(r', ws), t, target)
    ensures s == Inside || s == Reopened ==> Related(s, BodyStep(r, ws), r', t, target)
  {
    if r.cur >= 0 {
      BodyKeepsNames(r, ws, target.name);
      hide BodyLine, Find, IsBody, Flush;
      if s == Reopened {
        assert BodyStep(r, ws).Flushed()[t := target] == r.Flushed()[t := target];
      }
    }
  }

  lemma BodyKeepsNames(r: Reader, ws: seq<string>, name: string)
    requires r.Valid() && r.cur >= 0 && IsBody(ws)
    ensures Find(BodyStep(r, ws).ifaces, name) == Find(r.ifaces, name)
    ensures Find(r.Flushed(), name) == Find(r.ifaces, name)
    ensures Find(BodyStep(r, ws).Flushed(), name) == Find(r.ifaces, name)
  {
    hide BodyLine;
    var r1 := BodyStep(r, ws);
    BodyKeepsName(Open(r.ifaces[r.cur], r.pending), ws);
    FindByNames(r.ifaces, r1.ifaces, name);
    FindFlushed(r, name);
    FindFlushed(r1, name);
  }

  // The block read where the interface is not known yet, against the old stanza.
  lemma BlockRelated(r: Reader, r': Reader, iface: Iface, keys: seq<string>)
    requires Savable(iface, keys) && r.cur >= 0 && Related(Inside, r, r', r.cur, ReadBack(iface))
    ensures Related(AfterAuto, r, ReadLines(r', Block(iface, keys)), r.cur, ReadBack(iface))
  {
    hide Block, Printable, CanonicalNetworks, KeyList, ReadBackOrder, ReadLines;
    FindPrefix(r.ifaces, r.cur, iface.name);
    FindFlushed(r', iface.name);
    FindFlushed(r, iface.name);
    ReadBlock(r', iface, keys);
    var b := ReadLines(r', Block(iface, keys));
    assert b.Flushed() == r.ifaces[..r.cur] + [ReadBack(iface)];
  }

  // An interface that Write can print, and an order of its keys.
  ghost predicate Savable(iface: Iface, keys: seq<string>) {
    Printable(iface) && CanonicalNetworks(iface) && KeyList(iface.config, keys)
  }

  lemma ReadOne(r: Reader, line: string)
    requires r.Valid() && r.error.None?
    ensures ReadLines(r, [line]) == LineStep(r, line)
  {
    hide LineStep;
    assert [line][1..] == [];
    assert ReadLines(LineStep(r, line), []) == LineStep(r, line);
  }

  // One line of the old file, and what the rewriter makes of it.
  lemma LineRelated(s: Stage, w: Rewriter, own: bool, r: Reader, r': Reader, line: string, t: nat, iface: Iface,
                    keys: seq<string>)
    returns (t': nat)
    requires Savable(iface, keys) && AtStage(s, w, own) && Related(s, r, r', t, ReadBack(iface))
    requires LineStep(r, line).error.None? && NextStage(s, KindOf(line, iface.name)) != Damaged
    ensures var out := RewriteLine(w, line, iface.name, Block(iface, keys)).out;
            Related(NextStage(s, KindOf(line, iface.name)), LineStep(r, line), ReadLines(r', out), t', ReadBack(iface))
  {
    hide Block, Savable, ReadBackOrder, ReadLines, HeaderLine, BodyStep, DirectiveOf, Tokens, Mentions, AtStage;
    var target, block, kind, ws := ReadBack(iface), Block(iface, keys), KindOf(line, iface.name), Tokens(line);
    t' := t;
    ReadNothing(r');
    ReadOne(r', line);
    if kind == Blank || kind == Comment || kind == Malformed || (kind.Auto? && NextStage(s, kind) == s) {
      QuietLine(s, w, own, r, r', line, t, iface, keys);
    } else if kind == Body {
      BodyRelated(s, r, r', ws, t, target);
      BodyOutput(s, w, own, line, iface.name, block);
    } else if kind == Own {
      t' := Find(r.Flushed(), iface.name);
      OwnRelated(s, r, r', ws, t, target);
      assert RewriteLine(w, line, iface.name, block).out == [];
    } else {
      ClosingLine(s, w, own, r, r', line, t, iface, keys);
    }
  }

  lemma ReadNothing(r: Reader)
    requires r.Valid()
    ensures ReadLines(r, []) == r
  {}

  lemma BodyOutput(s: Stage, w: Rewriter, own: bool, line: string, name: string, block: seq<string>)
    requires AtStage(s, w, own) && KindOf(line, name) == Body && NextStage(s, Body) != Damaged
    ensures s in {Before, Inside, After, Reopened}
    ensures RewriteLine(w, line, name, block).out == if s == Before || s == After then [line] else []
  {
    hide KindOf;
  }

  // A line that means nothing to the reader.
  lemma QuietLine(s: Stage, w: Rewriter, own: bool, r: Reader, r': Reader, line: string, t: nat, iface: Iface,
                  keys: seq<string>)
    requires AtStage(s, w, own) && Related(s, r, r', t, ReadBack(iface)) && LineStep(r, line).error.None?
    requires var kind := KindOf(line, iface.name);
             kind == Blank || kind == Comment || kind == Malformed || (kind.Auto? && NextStage(s, kind) == s)
    requires s != Damaged
    ensures var out := RewriteLine(w, line, iface.name, Block(iface, keys)).out;
            && NextStage(s, KindOf(line, iface.name)) == s
            && LineStep(r, line) == r && ReadLines(r', out) == r'
  {
    hide Block, ReadBack, Related, HeaderLine, BodyStep, Tokens, Mentions;
    assert r.Valid() && r'.Valid() && r'.error.None? by { RelatedIsValid(s, r, r', t, ReadBack(iface)); }
    ReadNothing(r');
    ReadOne(r', line);
    hide ReadLines;
    HeaderFails(r, Tokens(line));
  }

  lemma HeaderFails(r: Reader, ws: seq<string>)
    requires r.Valid()
    ensures |ws| < 2 ==> HeaderLine(r, ws).error.Some?
  {}

  lemma RelatedIsValid(s: Stage, r: Reader, r': Reader, t: nat, target: Iface)
    requires Related(s, r, r', t, target)
    ensures r.Valid() && r'.Valid() && r.error.None? && r'.error.None?
  {}

  // An iface line of the interface itself.
  lemma OwnRelated(s: Stage, r: Reader, r': Reader, ws: seq<string>, t: nat, target: Iface)
    requires Related(s, r, r', t, target) && |ws| >= 2 && BaseName(ws[1]) == target.name
    ensures Related(NextStage(s, Own), HeaderLine(r, ws), r', Find(r.Flushed(), target.name), target)
  {
    FindFlushed(r, target.name);
    FindFlushed(r', target.name);
    var k := Find(r.Flushed(), target.name);
    HeaderHere(r, ws, k, target.name);
    hide HeaderLine, Find;
    if s == Before || s == Inside {
      OwnFirst(s, r, r', HeaderLine(r, ws), t, target);
    } else {
      OwnAgain(s, r, r', HeaderLine(r, ws), t, target);
    }
  }

  lemma OwnFirst(s: Stage, r: Reader, r': Reader, r1: Reader, t: nat, target: Iface)
    requires Related(s, r, r', t, target) && (s == Before || s == Inside)
    requires r1.Valid() && r1.error.None? && r1.cur == Find(r.Flushed(), target.name) == Find(r1.ifaces, target.name)
    requires Find(r.Flushed(), target.name) == Find(r.ifaces, target.name)
    requires |r1.ifaces| == (if r1.cur < |r.ifaces| then |r.ifaces| else r1.cur + 1)
    requires forall i :: 0 <= i < |r.ifaces| && i != r1.cur ==> r1.ifaces[i] == r.Flushed()[i]
    ensures Related(Inside, r1, r', Find(r.Flushed(), target.name), target)
  {
    hide Find;
    var k := r1.cur;
    assert r1.ifaces[..k] == r.Flushed()[..k];
    assert r.Flushed()[..k] == r'.Flushed();
  }

  lemma OwnAgain(s: Stage, r: Reader, r': Reader, r1: Reader, t: nat, target: Iface)
    requires Related(s, r, r', t, target) && s in {AfterAuto, After, Reopened}
    requires r1.Valid() && r1.error.None? && r1.cur == Find(r.Flushed(), target.name) == Find(r1.ifaces, target.name)
    requires Find(r.Flushed(), target.name) == Find(r.ifaces, target.name)
    requires |r1.ifaces| == (if r1.cur < |r.ifaces| then |r.ifaces| else r1.cur + 1)
    requires forall i :: 0 <= i < |r.ifaces| && i != r1.cur ==> r1.ifaces[i] == r.Flushed()[i]
    requires r1.Flushed() == r1.ifaces
    ensures Related(Reopened, r1, r', Find(r.Flushed(), target.name), target)
  {
    if s == After { FlushAfter(r, r', t, target); }
    hide Find, Flush;
    assert r1.ifaces[t := target] == r.Flushed()[t := target];
  }

  // An iface line of another interface, or an auto line that ends the stanza.
  lemma ClosingLine(s: Stage, w: Rewriter, own: bool, r: Reader, r': Reader, line: string, t: nat, iface: Iface,
                    keys: seq<string>)
    requires Savable(iface, keys) && AtStage(s, w, own) && Related(s, r, r', t, ReadBack(iface))
    requires LineStep(r, line).error.None?
    requires var kind := KindOf(line, iface.name);
             NextStage(s, kind) != Damaged && (kind == Other || (kind == Auto(true) && s == Inside))
    ensures var out := RewriteLine(w, line, iface.name, Block(iface, keys)).out;
            Related(NextStage(s, KindOf(line, iface.name)), LineStep(r, line), ReadLines(r', out), t, ReadBack(iface))
  {
    hide Block, Savable, ReadBackOrder, ReadLines, HeaderLine, BodyStep, Tokens, Mentions;
    var target, block, kind, ws := ReadBack(iface), Block(iface, keys), KindOf(line, iface.name), Tokens(line);
    if s == Inside {
      assert RewriteLine(w, line, iface.name, block).out == block + [line];
      BlockRelated(r, r', iface, keys);
      var r1 := ReadLines(r', block);
      ReadLinesAppend(r', block, [line]);
      ReadOne(r1, line);
      if kind == Other { HeaderElsewhere(r, r1, ws, t, target); }
    } else {
      assert RewriteLine(w, line, iface.name, block).out == [line];
      ReadOne(r', line);
      if s == Before {
        BeforeHeader(r, ws, target);
      } else {
        if s == After { FlushAfter(r, r', t, target); }
        HeaderElsewhere(r, r', ws, t, target);
      }
    }
  }

  lemma BeforeHeader(r: Reader, ws: seq<string>, target: Iface)
    requires r.Valid() && r.error.None? && |ws| >= 2 && BaseName(ws[1]) != target.name
    requires Find(r.ifaces, target.name) == |r.ifaces|
    ensures Find(HeaderLine(r, ws).ifaces, target.name) == |HeaderLine(r, ws).ifaces|
  {
    FindFlushed(r, target.name);
  }

  lemma FlushAfter(r: Reader, r': Reader, t: nat, target: Iface)
    requires Related(After, r, r', t, target)
    ensures DifferAt(r.Flushed(), r'.Flushed(), t, target.name, target)
  {
    FindFlushed(r, target.name);
    assert r'.Flushed() == r.Flushed()[t := target];
  }

  lemma {:induction false} LinesRelated(s: Stage, w: Rewriter, own: bool, r: Reader, r': Reader, lines: seq<string>,
                                        t: nat,
                                        iface: Iface, keys: seq<string>)
    requires Savable(iface, keys) && AtStage(s, w, own) && Related(s, r, r', t, ReadBack(iface))
    requires ReadLines(r, lines).error.None? && StageAfter(s, lines, iface.name) != Damaged
    ensures var old_, new_ := ReadLines(r, lines), ReadLines(r', RewriteLines(w, lines, iface.name, Block(iface, keys)));
            new_.error.None? && new_.Flushed() == Replaced(old_.Flushed(), ReadBack(iface))
    decreases |lines|
  {
    hide Block, Savable, ReadBack, KindOf, RewriteLine, LineStep, Related;
    var name, block := iface.name, Block(iface, keys);
    if lines == [] {
      EndRelated(s, w, own, r, r', t, iface, keys);
    } else {
      var kind, step := KindOf(lines[0], name), RewriteLine(w, lines[0], name, block);
      if NextStage(s, kind) == Damaged { DamagedStays(lines[1..], name); }
      RelatedIsValid(s, r, r', t, ReadBack(iface));
      var t' := LineRelated(s, w, own, r, r', lines[0], t, iface, keys);
      NextAtStage(s, w, own, lines[0], name, block);
      ReadLinesAppend(r', step.out, RewriteLines(step.next, lines[1..], name, block));
      LinesRelated(NextStage(s, kind), step.next, Owns(own, kind), LineStep(r, lines[0]), ReadLines(r', step.out), lines[1..],
        t', iface, keys);
    }
  }

  lemma EndRelated(s: Stage, w: Rewriter, own: bool, r: Reader, r': Reader, t: nat, iface: Iface, keys: seq<string>)
    requires Savable(iface, keys) && AtStage(s, w, own) && Related(s, r, r', t, ReadBack(iface))
    ensures var new_ := ReadLines(r', if w.wrote then [] else Block(iface, keys));
            new_.error.None? && new_.Flushed() == Replaced(r.Flushed(), ReadBack(iface))
  {
    hide Block, Savable, ReadBackOrder, ReadLines;
    FindFlushed(r, iface.name);
    ReadNothing(r');
    if s == Before {
      ReadBlockSavable(r', iface, keys);
      var b := ReadLines(r', Block(iface, keys));
      assert b.Flushed() == r.Flushed() + [ReadBack(iface)];
    } else if s == Inside {
      BlockRelated(r, r', iface, keys);
    } else if s == After {
      FlushAfter(r, r', t, ReadBack(iface));
    }
  }

  lemma ReadBlockSavable(r: Reader, iface: Iface, keys: seq<string>)
    requires r.Valid() && r.error.None? && Find(r.ifaces, iface.name) == |r.ifaces| && Savable(iface, keys)
    ensures var r' := ReadLines(r, Block(iface, keys));
            && r'.error.None? && r'.cur == |r.ifaces| && |r'.ifaces| == |r.ifaces| + 1
            && r'.ifaces[..r'.cur] == r.Flushed()
            && Flush(Current(r')) == ReadBack(iface)
  {
    hide Block, Printable, CanonicalNetworks, KeyList, ReadBackOrder, ReadLines, Find;
    ReadBlock(r, iface, keys);
  }

  // The meaning theorem. For every file that reads without an error and is
  // rewritable for the interface, the file Save produces reads without an error,
  // as the same interfaces in the same order, with the interface replaced by (or,
  // if new, followed by) the read-back of its stanza.
  lemma RewritePreservesMeaning(lines: seq<string>, iface: Iface, keys: seq<string>)
    requires ReadResult(lines).Some? && Rewritable(lines, iface.name)
    requires Printable(iface) && CanonicalNetworks(iface) && KeyOrder(iface.config, keys)
    ensures ReadResult(Rewrite(lines, iface.name, Block(iface, keys)))
         == Some(Replaced(ReadResult(lines).value, ReadBack(iface)))
  {
    hide Block, Printable, CanonicalNetworks, KeyOrder, ReadBackOrder, ReadLines, RewriteLines, StageAfter;
    KeyOrderLists(iface.config, keys);
    LinesRelated(Before, START, false, Start([]), Start([]), lines, 0, iface, keys);
  }

  // The same where the file did not exist yet.
  lemma FreshFileReads(iface: Iface, keys: seq<string>)
    requires Printable(iface) && CanonicalNetworks(iface) && KeyOrder(iface.config, keys)
    ensures ReadResult(FreshFile(iface.name, Block(iface, keys))) == Some([ReadBack(iface)])
  {
    hide ReadLines, Block, CanonicalNetworks, KeyOrder, ReadBackOrder;
    StanzaRoundTrip(iface, keys);
    GlobalLines(iface.name);
    ReadLinesAppend(Start([]), ["auto " + iface.name, "allow-hotplug " + iface.name, ""], Block(iface, keys));
  }

  lemma GlobalLines(name: string)
    requires PrintableName(name)
    ensures ReadLines(Start([]), ["auto " + name, "allow-hotplug " + name, ""]) == Start([])
  {
    hide Tokens;
    var auto, hotplug, r := "auto " + name, "allow-hotplug " + name, Start([]);
    WordsLine(["auto", name]);
    WordsLine(["allow-hotplug", name]);
    assert Join(["auto", name]) == auto && Join(["allow-hotplug", name]) == hotplug by {
      assert ["auto", name][1..] == [name] && ["allow-hotplug", name][1..] == [name] && Join([name]) == name;
    }
    assert Tokens("") == [] by { BlankTokens(); }
    ReadOne(r, auto);
    ReadOne(r, hotplug);
    ReadOne(r, "");
    ReadLinesAppend(r, [auto], [hotplug]);
    ReadLinesAppend(r, [auto] + [hotplug], [""]);
    assert [auto, hotplug, ""] == [auto] + [hotplug] + [""];
  }

  lemma BlankTokens()
    ensures Tokens("") == []
  {}

  // ------------------------------------------------ a file that is not rewritable

  // An iface line that says nothing but a name.
  function BareHeader(name: string): string { Join(["iface", name]) }

  lemma BareHeaderStep(r: Reader, name: string)
    requires r.Valid() && r.error.None? && PrintableName(name) && Find(r.Flushed(), name) == |r.ifaces|
    ensures LineStep(r, BareHeader(name)) == Reader(r.Flushed() + [NewIface(name)], |r.ifaces|, None, None)
    ensures KindOf(BareHeader(name), name) == Own
    ensures forall other :: other != name ==> KindOf(BareHeader(name), other) == Other
  {
    var ws := ["iface", name];
    assert ws[2..] == [];
    assert BaseName(name) == name && Reopen(NewIface(name), ws) == NewIface(name);
    hide Find, Fields, Join, Reopen;
    WordsLine(ws);
  }

  // The same line where the interface is known already changes only what is open.
  lemma BareHeaderAgain(r: Reader, name: string, k: nat)
    requires r.Valid() && r.error.None? && PrintableName(name) && Find(r.Flushed(), name) == k < |r.ifaces|
    requires r.Flushed()[k] == NewIface(name)
    ensures LineStep(r, BareHeader(name)) == Reader(r.Flushed(), k, None, None)
  {
    WordsLine(["iface", name]);
    assert BaseName(name) == name;
    var ws := ["iface", name];
    assert ws[2..] == [];
    assert Reopen(NewIface(name), ws) == NewIface(name);
  }

  // Where the file is not rewritable the meaning can change: the second stanza of
  // a dual-stack interface, standing after another interface, makes Save drop the
  // interface that follows it.
  lemma ReopenedStanzaLosesAnInterface(a: string, b: string, c: string)
    requires PrintableName(a) && PrintableName(b) && PrintableName(c) && a != b && a != c && b != c
    ensures var lines := [BareHeader(a), BareHeader(b), BareHeader(a), BareHeader(c)];
            && !Rewritable(lines, a)
            && ReadResult(lines) == Some([NewIface(a), NewIface(b), NewIface(c)])
            && ReadResult(Rewrite(lines, a, [BareHeader(a)])) == Some([NewIface(a), NewIface(b)])
  {
    hide ReadLines, RewriteLines, StageAfter, KindOf, LineStep, Rewritable;
    RewriteLosesTheLast(a, b, c);
    ReadTwoAndThree(a, b, c);
  }

  lemma RewriteLosesTheLast(a: string, b: string, c: string)
    requires PrintableName(a) && PrintableName(b) && PrintableName(c) && a != b && a != c && b != c
    ensures var lines := [BareHeader(a), BareHeader(b), BareHeader(a), BareHeader(c)];
            && !Rewritable(lines, a)
            && Rewrite(lines, a, [BareHeader(a)]) == [BareHeader(a), BareHeader(b)]
  {
    hide KindOf, LineStep;
    var A, B, C := BareHeader(a), BareHeader(b), BareHeader(c);
    BareHeaderStep(Start([]), a);
    BareHeaderStep(Start([]), b);
    BareHeaderStep(Start([]), c);
    assert KindOf(B, a) == Other && KindOf(C, a) == Other;
    var block := [A];
    var l0, l1, l2, l3 := [A, B, A, C], [B, A, C], [A, C], [C];
    assert l0[1..] == l1 && l1[1..] == l2 && l2[1..] == l3 && l3[1..] == [];
    var w1, w2, w3 := Rewriter(true, false, 0), Rewriter(false, true, 0), Rewriter(true, true, 0);
    assert RewriteLines(w3, [], a, block) == [];
    assert RewriteLines(w3, l3, a, block) == [] + RewriteLines(w3, [], a, block);
    assert RewriteLines(w2, l2, a, block) == [] + RewriteLines(w3, l3, a, block);
    assert RewriteLines(w1, l1, a, block) == (block + [B]) + RewriteLines(w2, l2, a, block);
    assert RewriteLines(START, l0, a, block) == [] + RewriteLines(w1, l1, a, block);
    assert StageAfter(Before, l0, a) == StageAfter(Inside, l1, a) == StageAfter(After, l2, a) == StageAfter(Reopened, l3, a);
    assert StageAfter(Reopened, l3, a) == StageAfter(Damaged, [], a);
  }

  lemma ReadTwoAndThree(a: string, b: string, c: string)
    requires PrintableName(a) && PrintableName(b) && PrintableName(c) && a != b && a != c && b != c
    ensures ReadResult([BareHeader(a), BareHeader(b)]) == Some([NewIface(a), NewIface(b)])
    ensures ReadResult([BareHeader(a), BareHeader(b), BareHeader(a), BareHeader(c)])
         == Some([NewIface(a), NewIface(b), NewIface(c)])
  {
    hide LineStep, KindOf;
    var r0, A, B, C := Start([]), BareHeader(a), BareHeader(b), BareHeader(c);
    BareHeaderStep(r0, a);
    var r1 := LineStep(r0, A);
    BareHeaderStep(r1, b);
    var r2 := LineStep(r1, B);
    assert r2.Flushed() == [NewIface(a), NewIface(b)];
    BareHeaderAgain(r2, a, 0);
    var r3 := LineStep(r2, A);
    BareHeaderStep(r3, c);
    var r4 := LineStep(r3, C);
    assert r4.Flushed() == [NewIface(a), NewIface(b), NewIface(c)];
    assert [A, B] == [A] + [B] && [A, B, A, C] == [A] + [B] + [A] + [C];
    ReadOne(r0, A);
    ReadOne(r1, B);
    ReadOne(r2, A);
    ReadOne(r3, C);
    ReadLinesAppend(r0, [A], [B]);
    ReadLinesAppend(r0, [A] + [B], [A]);
    ReadLinesAppend(r0, [A] + [B] + [A], [C]);
  }

  // The lines of a stanza go on after an auto line of the interface.
  function AutoInside(name: string): seq<string> { [BareHeader(name), Join(["auto", name]), Join(["mtu", "1500"])] }

  // There the rewriter changes nothing: what it should have replaced stays behind the
  // block, and reads as part of it.
  lemma BodyAfterAutoSurvives(name: string)
    requires PrintableName(name)
    ensures var lines, block := AutoInside(name), [BareHeader(name)];
            && !Rewritable(lines, name) && Rewrite(lines, name, block) == lines
            && ReadResult(block) == Some([NewIface(name)])
            && ReadResult(lines) == Some([NewIface(name).(config := map["mtu" := ["1500"]])])
  {
    AutoInsideRead(name);
    AutoInsideRewritten(name);
  }

  lemma AutoInsideRewritten(name: string)
    requires PrintableName(name)
    ensures var lines, block := AutoInside(name), [BareHeader(name)];
            !Rewritable(lines, name) && Rewrite(lines, name, block) == lines
  {
    AutoLine(name);
    MtuLine(name);
    BareHeaderStep(Start([]), name);
    hide *;
    assert AutoInside(name) == [BareHeader(name), Join(["auto", name]), Join(["mtu", "1500"])] by { AutoInsideIs(name); }
    AutoKeeps(BareHeader(name), Join(["auto", name]), Join(["mtu", "1500"]), name);
  }

  lemma AutoInsideIs(name: string)
    ensures AutoInside(name) == [BareHeader(name), Join(["auto", name]), Join(["mtu", "1500"])]
  {
    hide BareHeader, Join;
  }

  lemma AutoKeeps(header: string, auto: string, body: string, name: string)
    requires KindOf(header, name) == Own && KindOf(auto, name) == Auto(true) && KindOf(body, name) == Body
    ensures var lines := [header, auto, body];
            !Rewritable(lines, name) && Rewrite(lines, name, [header]) == lines
  {
    hide KindOf;
    var block, w1, w2 := [header], Rewriter(true, false, 0), Rewriter(false, true, 0);
    assert RewriteLines(w2, [], name, block) == [] && StageAfter(Damaged, [], name) == Damaged;
    assert [header, auto, body] == [header] + [auto, body] && [auto, body] == [auto] + [body] && [body] == [body] + [];
    hide StageAfter, RewriteLines;
    RewriteMore(START, header, [auto, body], name, block);
    RewriteMore(w1, auto, [body], name, block);
    RewriteMore(w2, body, [], name, block);
    StageMore(Before, header, [auto, body], name);
    StageMore(Inside, auto, [body], name);
    StageMore(AfterAuto, body, [], name);
  }

  lemma RewriteMore(w: Rewriter, line: string, rest: seq<string>, name: string, block: seq<string>)
    ensures var step := RewriteLine(w, line, name, block);
            RewriteLines(w, [line] + rest, name, block) == step.out + RewriteLines(step.next, rest, name, block)
  {
    hide RewriteLine;
    assert ([line] + rest)[1..] == rest;
  }

  lemma StageMore(s: Stage, line: string, rest: seq<string>, name: string)
    ensures StageAfter(s, [line] + rest, name) == StageAfter(NextStage(s, KindOf(line, name)), rest, name)
  {
    hide KindOf;
    assert ([line] + rest)[1..] == rest;
  }

  lemma AutoLine(name: string)
    requires PrintableName(name)
    ensures KindOf(Join(["auto", name]), name) == Auto(true)
    ensures forall r: Reader | r.Valid() :: LineStep(r, Join(["auto", name])) == r
  {
    var ws := ["auto", name];
    assert ws[1..] == [name] && BaseName(name) == name && IsWord("auto");
    assert Mentions([name], name) by { assert BaseName([name][0]) == name; }
    hide Fields, Join, IsWord, BaseName, Mentions;
    WordsLine(ws);
  }

  lemma MtuWords()
    ensures Tokens(Join(["mtu", "1500"])) == ["mtu", "1500"] && DirectiveOf("mtu") == Default
  {
    var ws := ["mtu", "1500"];
    assert IsWord("mtu") && IsWord("1500") && '#' !in "mtu" && '#' !in "1500";
    hide *;
    assert AreWords(ws) && NoHash(ws) by { TwoWords("mtu", "1500"); }
    WordsLine(ws);
    assert DirectiveOf("mtu") == Default by { MtuIsDefault(); }
  }

  lemma MtuIsDefault()
    ensures DirectiveOf("mtu") == Default
  {}

  lemma ShortLine(o: Open, key: string, value: string)
    requires DirectiveOf(key) == Default
    ensures BodyLine(o, [key, value]) == Good(o.(iface := AddConfig(o.iface, key, value)))
  {
    var ws := [key, value];
    assert ws[1..] == [value] && Join([value]) == value;
    assert Script(ws, o.iface) == Nothing;
    hide Script, Join;
  }

  lemma MtuLine(name: string)
    ensures KindOf(Join(["mtu", "1500"]), name) == Body
  {
    MtuWords();
    hide Tokens, Join, Mentions, BaseName;
  }

  lemma MtuStep(r: Reader)
    requires r.Valid() && r.error.None? && r.cur >= 0
    ensures LineStep(r, Join(["mtu", "1500"])) ==
            r.(ifaces := r.ifaces[r.cur := AddConfig(r.ifaces[r.cur], "mtu", "1500")])
  {
    hide Tokens, Join, BodyLine, HeaderLine, LineStep, AddConfig;
    MtuWords();
    ShortLine(Open(r.ifaces[r.cur], r.pending), "mtu", "1500");
    StanzaStep(r, Join(["mtu", "1500"]), ["mtu", "1500"], AddConfig(r.ifaces[r.cur], "mtu", "1500"));
  }

  lemma StanzaStep(r: Reader, line: string, ws: seq<string>, after: Iface)
    requires r.Valid() && r.error.None? && r.cur >= 0
    requires Tokens(line) == ws != [] && DirectiveOf(ws[0]) == Default
    requires BodyLine(Open(r.ifaces[r.cur], r.pending), ws) == Good(Open(after, r.pending))
    ensures LineStep(r, line) == r.(ifaces := r.ifaces[r.cur := after])
  {
    hide Tokens, BodyLine, HeaderLine;
  }

  lemma AutoInsideRead(name: string)
    requires PrintableName(name)
    ensures ReadResult([BareHeader(name)]) == Some([NewIface(name)])
    ensures ReadResult(AutoInside(name)) == Some([NewIface(name).(config := map["mtu" := ["1500"]])])
  {
    var r0, r1 := Start([]), Reader([NewIface(name)], 0, None, None);
    var r2 := Reader([NewIface(name).(config := map["mtu" := ["1500"]])], 0, None, None);
    var H, A, M := BareHeader(name), Join(["auto", name]), Join(["mtu", "1500"]);
    assert r0.Flushed() + [NewIface(name)] == [NewIface(name)];
    assert r1.Flushed() == r1.ifaces && r2.Flushed() == r2.ifaces;
    assert [] + ["1500"] == ["1500"];
    assert r1.(ifaces := r1.ifaces[0 := AddConfig(r1.ifaces[0], "mtu", "1500")]) == r2;
    hide LineStep, ReadLines, BareHeader, Join, KindOf, PrintableName, AddConfig, NewIface, AutoInside;
    AutoInsideIs(name);
    AutoLine(name);
    BareHeaderStep(r0, name);
    MtuStep(r1);
    ReadOne(r0, H);
    ReadThree(r0, H, A, M);
  }

  lemma ReadThree(r: Reader, a: string, b: string, c: string)
    requires r.Valid() && r.error.None? && LineStep(r, a).error.None? && LineStep(LineStep(r, a), b).error.None?
    ensures ReadLines(r, [a, b, c]) == LineStep(LineStep(LineStep(r, a), b), c)
  {
    hide LineStep, ReadLines;
    assert [a, b, c] == [a] + [b, c] && [b, c] == [b] + [c];
    ReadMore(r, a, [b, c]);
    ReadMore(LineStep(r, a), b, [c]);
    ReadOne(LineStep(LineStep(r, a), b), c);
  }

  // ------------------------------------------------------- a file that is not read again

  // An IPv6 address with a dotted netmask.
  function DottedFile(name: string, ip: IP, mask: IP): seq<string> {
    [BareHeader(name), Indented(["address", IPText(ip)]), Indented(["netmask", IPText(mask)])]
  }

  function DottedIface(name: string, ip: IP, mask: IP): Iface {
    NewIface(name).(addresses := [IPNetwork.IPNet(ip, mask)])
  }

  // It is read, but what Write prints of it is rejected, and the file with it.
  lemma DottedMaskIsRejected(name: string, ip: IP, mask: IP)
    requires PrintableName(name) && !Is4(ip) && Is4(mask)
    ensures ReadResult(DottedFile(name, ip, mask)) == Some([DottedIface(name, ip, mask)])
    ensures ReadResult(Block(DottedIface(name, ip, mask), [])) == None
  {
    DottedRead(name, ip, mask);
    var iface := DottedIface(name, ip, mask);
    NoKeys();
    assert iface.config == map[] && Fields("") == [] && Join([]) == "";
    assert Firsts(iface.addresses, true, true)[0] == IPNetwork.IPNet(ip, mask);
    assert Printable(iface) && ModelledNetworks(iface) && !FirstsFit(iface);
    hide DottedFile, Block, ReadLines, Printable, ModelledNetworks, FirstsFit, KeyOrder;
    BlockReadsIff(iface, []);
  }

  lemma DottedRead(name: string, ip: IP, mask: IP)
    requires PrintableName(name) && !Is4(ip) && Is4(mask)
    ensures ReadResult(DottedFile(name, ip, mask)) == Some([DottedIface(name, ip, mask)])
  {
    var r0, r1 := Start([]), Reader([NewIface(name)], 0, None, None);
    var r2 := r1.(pending := Some(HostNetwork(ip)));
    var r3 := r1.(pending := Some(IPNetwork.IPNet(ip, mask)));
    assert r0.Flushed() + [NewIface(name)] == [NewIface(name)];
    assert r3.Flushed() == [DottedIface(name, ip, mask)] by { assert [] + [IPNetwork.IPNet(ip, mask)] == [IPNetwork.IPNet(ip, mask)]; }
    hide LineStep, ReadLines, BareHeader, Indented, KindOf, PrintableName, NewIface, DottedIface, HostNetwork, IPText;
    BareHeaderStep(r0, name);
    DottedAddress(r1, ip);
    DottedNetmask(r2, ip, mask);
    ReadThree(r0, BareHeader(name), Indented(["address", IPText(ip)]), Indented(["netmask", IPText(mask)]));
  }

  lemma DottedAddress(r: Reader, ip: IP)
    requires r.Valid() && r.error.None? && r.cur >= 0 && r.pending.None?
    ensures LineStep(r, Indented(["address", IPText(ip)])) == r.(pending := Some(HostNetwork(ip)))
  {
    IPTextRoundTrip(ip);
    NetTextIsWord(IPText(ip));
    hide LineStep, Indented, IPText, ParseIP, ParseCIDR, HostNetwork, IsWord, NetText;
    BodyWords(r, "address", IPText(ip));
    assert r.ifaces[r.cur := r.ifaces[r.cur]] == r.ifaces;
  }

  lemma DottedNetmask(r: Reader, ip: IP, mask: IP)
    requires r.Valid() && r.error.None? && r.cur >= 0 && r.pending == Some(HostNetwork(ip)) && Is4(mask)
    ensures LineStep(r, Indented(["netmask", IPText(mask)])) == r.(pending := Some(IPNetwork.IPNet(ip, mask)))
  {
    IPTextRoundTrip(mask);
    NetTextIsWord(IPText(mask));
    hide LineStep, Indented, IPText, ParseIP, ParseCIDR, IsWord, NetText;
    BodyWords(r, "netmask", IPText(mask));
    assert r.ifaces[r.cur := r.ifaces[r.cur]] == r.ifaces;
  }
}
