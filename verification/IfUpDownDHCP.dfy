// ifupdown.go: the DHCP state of a stanza, setDHCP and SetIfaceDHCP.
module IfUpDownDHCP {
  import opened Text
  import opened Net
  import opened IfUpDownReader
  import opened IfUpDownRoundTrip

  datatype DHCPError = OnPPP | BothFamilies | OtherFamily | FixedMethod

  datatype DHCPResult = Changed(iface: Iface) | Rejected(error: DHCPError)

  // The word of the mode at an index, or the empty string.
  function ModeWord(iface: Iface, i: nat): string {
    if i < |Fields(iface.mode)| then Fields(iface.mode)[i] else ""
  }

  // The family the stanza configures, or the empty string.
  function StanzaFamily(iface: Iface): string {
    if ModeWord(iface, 0) in {"inet", "inet6"} then ModeWord(iface, 0) else ""
  }

  function Method(iface: Iface): string { ModeWord(iface, 1) }

  function DHCPState(iface: Iface): (bool, bool) {
    (iface.isDHCP && StanzaFamily(iface) == "inet", iface.isDHCP && StanzaFamily(iface) == "inet6")
  }

  // The request for the stanza's own family, and for the other one.
  function Own(family: string, dhcp4: bool, dhcp6: bool): bool { if family == "inet6" then dhcp6 else dhcp4 }

  function Other(family: string, dhcp4: bool, dhcp6: bool): bool { if family == "inet6" then dhcp4 else dhcp6 }

  predicate Acceptable(iface: Iface, dhcp4: bool, dhcp6: bool) {
    && !iface.isPPP
    && if StanzaFamily(iface) == "" then !(dhcp4 && dhcp6)
       else !Other(StanzaFamily(iface), dhcp4, dhcp6) && Method(iface) !in {"loopback", "ppp", "tunnel", "wvdial"}
  }

  // The flag no longer says what the method of the last stanza says, and the request is
  // for what the method already is.
  predicate StaleFlag(iface: Iface, dhcp4: bool, dhcp6: bool) {
    var family := StanzaFamily(iface);
    var own := Own(family, dhcp4, dhcp6);
    family != "" && own == (Method(iface) == "dhcp") && iface.isDHCP != own
  }

  // The method is not dhcp and stays, but a later word of the mode is.
  predicate StrayWord(iface: Iface, dhcp4: bool, dhcp6: bool) {
    var family := StanzaFamily(iface);
    family != "" && !Own(family, dhcp4, dhcp6) && Method(iface) != "dhcp" && "dhcp" in Fields(iface.mode)
  }

  lemma ModeFields(family: string, method_: string)
    requires family in {"inet", "inet6"} && method_ in {"dhcp", "static"}
    ensures Fields(family + " " + method_) == [family, method_]
  {
    var ws := [family, method_];
    assert AreWords(ws);
    FieldsJoin(ws);
    assert ws[1..] == [method_] && JoinWith([method_], ' ') == method_;
    assert Join(ws) == family + [' '] + method_;
  }

  // setDHCP. What it changes is the mode and the flag; the state then is the one asked
  // for unless the flag was stale, and what is written reads back as asked for unless
  // the mode holds a stray word.
  method SetDHCP(iface: Iface, dhcp4: bool, dhcp6: bool) returns (r: DHCPResult)
    ensures r.Changed? <==> Acceptable(iface, dhcp4, dhcp6)
    ensures r.Changed? ==> r.iface == iface.(mode := r.iface.mode, isDHCP := r.iface.isDHCP)
    ensures r.Changed? && StanzaFamily(iface) != "" ==> StanzaFamily(r.iface) == StanzaFamily(iface)
    ensures r.Changed? && StanzaFamily(iface) == "" ==> StanzaFamily(r.iface) == if dhcp6 then "inet6" else "inet"
    ensures r.Changed? ==> (DHCPState(r.iface) == (dhcp4, dhcp6) <==> !StaleFlag(iface, dhcp4, dhcp6))
    ensures r.Changed? ==> (DHCPState(ReadBack(r.iface)) == (dhcp4, dhcp6) <==> !StrayWord(iface, dhcp4, dhcp6))
    ensures r.Changed? && !StaleFlag(iface, dhcp4, dhcp6) ==> !StaleFlag(r.iface, dhcp4, dhcp6)
    ensures r.Changed? && StaleFlag(iface, dhcp4, dhcp6) ==> r.iface == iface
  {
    hide Fields;
    if iface.isPPP { return Rejected(OnPPP); }
    var family := StanzaFamily(iface);
    ModeFields("inet", "dhcp");
    ModeFields("inet6", "dhcp");
    ModeFields("inet", "static");
    ModeFields("inet6", "static");
    assert "inet" + " " + "dhcp" == "inet dhcp" && "inet6" + " " + "dhcp" == "inet6 dhcp";
    assert "inet" + " " + "static" == "inet static" && "inet6" + " " + "static" == "inet6 static";
    if family == "" {
      if dhcp4 && dhcp6 {
        return Rejected(BothFamilies);
      } else if dhcp4 {
        return Changed(iface.(mode := "inet dhcp", isDHCP := true));
      } else if dhcp6 {
        return Changed(iface.(mode := "inet6 dhcp", isDHCP := true));
      } else {
        return Changed(iface.(mode := "inet static", isDHCP := false));
      }
    }
    var enable, other := dhcp4, dhcp6;
    if family == "inet6" { enable, other := dhcp6, dhcp4; }
    if other { return Rejected(OtherFamily); }
    var method_ := Method(iface);
    assert family + " dhcp" == family + " " + "dhcp" && family + " static" == family + " " + "static";
    if method_ in {"loopback", "ppp", "tunnel", "wvdial"} { return Rejected(FixedMethod); }
    if enable && method_ != "dhcp" {
      return Changed(iface.(mode := family + " dhcp", isDHCP := true));
    } else if !enable && method_ == "dhcp" {
      return Changed(iface.(mode := family + " static", isDHCP := false));
    }
    DHCPWord(iface);
    return Changed(iface);
  }

  lemma DHCPWord(iface: Iface)
    ensures Method(iface) == "dhcp" ==> "dhcp" in Fields(iface.mode)
  {}

  // SetIfaceDHCP up to the save: a stanza under a dhcp method keeps no static address.
  method SetIfaceDHCP(iface: Iface, dhcp4: bool, dhcp6: bool) returns (r: DHCPResult)
    ensures r.Changed? <==> Acceptable(iface, dhcp4, dhcp6)
    ensures r.Changed? && (dhcp4 || dhcp6) ==>
              r.iface.addresses == [] && r.iface.gateway4 == None && r.iface.gateway6 == None
    ensures r.Changed? && !dhcp4 && !dhcp6 ==>
              r.iface.addresses == iface.addresses && r.iface.gateway4 == iface.gateway4
              && r.iface.gateway6 == iface.gateway6
    ensures r.Changed? ==>
              r.iface.name == iface.name && r.iface.routes == iface.routes && r.iface.config == iface.config
    ensures r.Changed? ==> (DHCPState(ReadBack(r.iface)) == (dhcp4, dhcp6) <==> !StrayWord(iface, dhcp4, dhcp6))
  {
    hide Fields, StrayWord, StaleFlag, Acceptable;
    r := SetDHCP(iface, dhcp4, dhcp6);
    if r.Changed? && (dhcp4 || dhcp6) {
      r := Changed(r.iface.(addresses := [], gateway4 := None, gateway6 := None));
    }
  }

  // What two stanzas of one name read as: dhcp stays set although the last is static.
  function Stale(name: string): Iface { NewIface(name).(mode := "inet6 static", isDHCP := true) }

  function TwoStanzas(name: string): seq<string> {
    [Join(["iface", name, "inet", "dhcp"]), Join(["iface", name, "inet6", "static"])]
  }

  lemma StanzaLine(r: Reader, name: string, family: string, method_: string)
    requires r.Valid() && r.error.None? && PrintableName(name)
    requires family in {"inet", "inet6"} && method_ in {"dhcp", "static"}
    ensures LineStep(r, Join(["iface", name, family, method_])) == HeaderLine(r, ["iface", name, family, method_])
  {
    assert IsWord("iface") && IsWord(family) && IsWord(method_) && '#' !in family && '#' !in method_;
    assert IsWord(name) && '#' !in name && '#' !in "iface";
    var ws := ["iface", name, family, method_];
    FourWords("iface", name, family, method_);
    hide *;
    WordsLine(ws);
    HeaderStep(r, Join(ws), ws);
  }

  lemma FourWords(a: string, b: string, c: string, d: string)
    requires IsWord(a) && IsWord(b) && IsWord(c) && IsWord(d) && '#' !in a && '#' !in b && '#' !in c && '#' !in d
    ensures AreWords([a, b, c, d]) && NoHash([a, b, c, d])
  {
    hide IsWord;
  }

  lemma HeaderStep(r: Reader, line: string, ws: seq<string>)
    requires r.Valid() && Tokens(line) == ws && ws != [] && ws[0] == "iface"
    ensures LineStep(r, line) == HeaderLine(r, ws)
  {
    hide Tokens, HeaderLine, BodyStep;
  }

  lemma FirstStanza(name: string)
    requires PrintableName(name)
    ensures HeaderLine(Start([]), ["iface", name, "inet", "dhcp"])
         == Reader([NewIface(name).(mode := "inet dhcp", isDHCP := true)], 0, None, None)
  {
    var ws := ["iface", name, "inet", "dhcp"];
    assert BaseName(name) == name;
    assert ws[2..] == ["inet", "dhcp"] && ["inet", "dhcp"][1..] == ["dhcp"] && Join(ws[2..]) == "inet dhcp";
    assert Find([NewIface(name)], name) == 0;
    hide BaseName, Join;
    assert Reopen(NewIface(name), ws) == NewIface(name).(mode := "inet dhcp", isDHCP := true);
  }

  lemma SecondStanza(name: string)
    requires PrintableName(name)
    ensures HeaderLine(Reader([NewIface(name).(mode := "inet dhcp", isDHCP := true)], 0, None, None),
                       ["iface", name, "inet6", "static"]) == Reader([Stale(name)], 0, None, None)
  {
    var ws := ["iface", name, "inet6", "static"];
    assert BaseName(name) == name;
    assert ws[2..] == ["inet6", "static"] && ["inet6", "static"][1..] == ["static"] && Join(ws[2..]) == "inet6 static";
    var known := NewIface(name).(mode := "inet dhcp", isDHCP := true);
    assert Find([known], name) == 0;
    hide BaseName, Join;
    assert Reopen(known, ws) == Stale(name);
  }

  lemma TwoStanzasRead(name: string)
    requires PrintableName(name)
    ensures ReadResult(TwoStanzas(name)) == Some([Stale(name)])
  {
    var r0, r2 := Start([]), Reader([Stale(name)], 0, None, None);
    var r1 := Reader([NewIface(name).(mode := "inet dhcp", isDHCP := true)], 0, None, None);
    var first, second := Join(["iface", name, "inet", "dhcp"]), Join(["iface", name, "inet6", "static"]);
    FirstStanza(name);
    SecondStanza(name);
    assert TwoStanzas(name) == [first] + ([second] + []);
    assert r2.Flushed() == [Stale(name)] && ReadLines(r2, []) == r2;
    hide Fields, Join, PrintableName, LineStep, HeaderLine, Stale, NewIface, ReadLines;
    StanzaLine(r0, name, "inet", "dhcp");
    StanzaLine(r1, name, "inet6", "static");
    ReadMore(r0, first, [second] + []);
    ReadMore(r1, second, []);
  }

  // The flag goes stale: a file of two stanzas reads as an interface on whose state
  // switching DHCP off, which is accepted, has no effect.
  lemma FlagsGoStale(name: string)
    requires PrintableName(name)
    ensures ReadResult(TwoStanzas(name)) == Some([Stale(name)])
    ensures StaleFlag(Stale(name), false, false) && Acceptable(Stale(name), false, false)
    ensures DHCPState(Stale(name)) == (false, true)
  {
    hide *;
    TwoStanzasRead(name);
    StaleFacts(name);
  }

  lemma StaleFacts(name: string)
    ensures StaleFlag(Stale(name), false, false) && Acceptable(Stale(name), false, false)
    ensures DHCPState(Stale(name)) == (false, true)
  {
    StaleWords(name);
    hide StanzaFamily, Method, Fields;
  }

  lemma StaleWords(name: string)
    ensures StanzaFamily(Stale(name)) == "inet6" && Method(Stale(name)) == "static"
  {
    ModeFields("inet6", "static");
    hide Fields;
    assert "inet6" + " " + "static" == "inet6 static";
    assert Stale(name).mode == "inet6 static";
  }

  method SwitchOffStale(name: string) returns (r: DHCPResult)
    requires PrintableName(name)
    ensures ReadResult(TwoStanzas(name)) == Some([Stale(name)])
    ensures r.Changed? && DHCPState(r.iface) == (false, true)
  {
    FlagsGoStale(name);
    hide Fields;
    r := SetDHCP(Stale(name), false, false);
  }
}
