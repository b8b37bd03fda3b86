// ASCII text: numerals, splitting, and the Go string helpers the configuration
// backends are written with.
module Text {

  datatype Option<+T> = None | Some(value: T)

  // ---------------------------------------------------------------- numerals

  const DIGITS: string := "0123456789abcdef"

  predicate IsDigit(c: char) { '0' <= c <= '9' }

  // The value of a digit in any base up to sixteen, or None for another character.
  function DigitValue(c: char): (r: Option<nat>)
    ensures r.Some? ==> r.value < 16 && DIGITS[r.value] == c
  {
    if '0' <= c <= '9' then Some((c as int) - ('0' as int))
    else if 'a' <= c <= 'f' then Some((c as int) - ('a' as int) + 10)
    else None
  }

  // The bases in use are written out, which keeps the arithmetic linear.
  function High(n: nat, base: nat): nat { if base == 10 then n / 10 else n / 16 }

  function Low(n: nat, base: nat): nat { if base == 10 then n % 10 else n % 16 }

  function Shift(high: nat, base: nat, low: nat): nat {
    if base == 10 then high * 10 + low else high * 16 + low
  }

  // A number in base 10 or 16, without leading zeros.
  function Numeral(n: nat, base: nat): (s: string)
    requires base == 10 || base == 16
    ensures s != [] && forall i :: 0 <= i < |s| ==> DigitValue(s[i]).Some?
    ensures |s| > 1 ==> s[0] != '0'
    ensures base == 10 ==> forall i :: 0 <= i < |s| ==> IsDigit(s[i])
  {
    if n < base then [DIGITS[n]] else Numeral(High(n, base), base) + [DIGITS[Low(n, base)]]
  }

  // The number a digit string spells, leading zeros allowed.
  function ParseNumeral(s: string, base: nat): (r: Option<nat>)
    requires base == 10 || base == 16
  {
    if s == [] then None
    else
      match DigitValue(s[|s| - 1])
      case None => None
      case Some(d) =>
        if d >= base then None
        else if |s| == 1 then Some(d)
        else
          match ParseNumeral(s[..|s| - 1], base)
          case None => None
          case Some(h) => Some(Shift(h, base, d))
  }

  lemma DigitRoundTrip(d: nat)
    requires d < 16
    ensures DigitValue(DIGITS[d]) == Some(d)
  {
    if d < 10 { assert DIGITS[d] == ('0' as int + d) as char; }
    else { assert DIGITS[d] == ('a' as int + d - 10) as char; }
  }

  lemma {:induction false} NumeralRoundTrip(n: nat, base: nat)
    requires base == 10 || base == 16
    ensures ParseNumeral(Numeral(n, base), base) == Some(n)
  {
    var high, d := High(n, base), Low(n, base);
    assert Shift(high, base, d) == n;
    DigitRoundTrip(d);
    if n >= base {
      NumeralRoundTrip(high, base);
      var s := Numeral(n, base);
      assert s == Numeral(high, base) + [DIGITS[d]];
      assert s[..|s| - 1] == Numeral(high, base);
    }
  }

  function Itoa(n: int): string {
    if n < 0 then "-" + Numeral(-n, 10) else Numeral(n, 10)
  }

  const MAX_INT: int := 0x7fff_ffff_ffff_ffff

  predicate FitsInt(n: int) { -MAX_INT - 1 <= n <= MAX_INT }

  // strconv.Atoi: an optional sign, decimal digits, and a value that fits an int64.
  function Atoi(s: string): Option<int> {
    var digits := if s != [] && s[0] in "+-" then s[1..] else s;
    match ParseNumeral(digits, 10)
    case None => None
    case Some(n) =>
      var v: int := if s[0] == '-' then -(n as int) else n;
      if FitsInt(v) then Some(v) else None
  }

  lemma AtoiItoa(n: int)
    requires FitsInt(n)
    ensures Atoi(Itoa(n)) == Some(n)
  {
    NumeralRoundTrip(if n < 0 then -n else n, 10);
    if n < 0 {
      assert Itoa(n)[1..] == Numeral(-n, 10);
    } else {
      assert Numeral(n, 10)[0] !in "+-" by { assert DigitValue(Numeral(n, 10)[0]).Some?; }
    }
  }

  lemma NumeralInjective(m: nat, n: nat)
    ensures Numeral(m, 10) == Numeral(n, 10) ==> m == n
  {
    NumeralRoundTrip(m, 10);
    NumeralRoundTrip(n, 10);
  }

  // ------------------------------------------------------- splitting and joining

  // The part of s before the first occurrence of c, or all of s.
  function Before(s: string, c: char): (r: string)
    ensures |r| <= |s| && r == s[..|r|] && c !in r
    ensures |r| < |s| ==> s[|r|] == c
    ensures c !in s ==> r == s
  {
    if s == [] || s[0] == c then [] else [s[0]] + Before(s[1..], c)
  }

  lemma {:induction false} BeforeAppend(a: string, c: char, b: string)
    requires c !in a
    ensures Before(a + [c] + b, c) == a
  {
    var s := a + [c] + b;
    if a != [] {
      assert s[1..] == a[1..] + [c] + b;
      BeforeAppend(a[1..], c, b);
    }
  }

  function Split(s: string, c: char): (parts: seq<string>)
    decreases |s|
  {
    var first := Before(s, c);
    if |first| == |s| then [s] else [first] + Split(s[|first| + 1..], c)
  }

  function JoinWith(parts: seq<string>, c: char): string {
    if parts == [] then ""
    else if |parts| == 1 then parts[0]
    else parts[0] + [c] + JoinWith(parts[1..], c)
  }

  lemma {:induction false} SplitJoin(parts: seq<string>, c: char)
    requires parts != [] && forall p :: p in parts ==> c !in p
    ensures Split(JoinWith(parts, c), c) == parts
  {
    if |parts| > 1 {
      var rest := JoinWith(parts[1..], c);
      BeforeAppend(parts[0], c, rest);
      SplitJoin(parts[1..], c);
      var s := JoinWith(parts, c);
      assert s == parts[0] + [c] + rest;
      assert s[|parts[0]| + 1..] == rest;
      assert parts == [parts[0]] + parts[1..];
    }
  }

  // unicode.IsSpace on the ASCII range.
  predicate IsSpace(c: char) { c == ' ' || '\t' <= c <= '\r' }

  predicate HasSpace(s: string) { exists i :: 0 <= i < |s| && IsSpace(s[i]) }

  // A word as strings.Fields yields it.
  predicate IsWord(w: string) { w != [] && !HasSpace(w) }

  predicate AreWords(ws: seq<string>) { forall i :: 0 <= i < |ws| ==> IsWord(ws[i]) }

  function LeadingWord(s: string): (w: string)
    ensures |w| <= |s| && w == s[..|w|] && !HasSpace(w)
    ensures |w| < |s| ==> IsSpace(s[|w|])
  {
    if s == [] || IsSpace(s[0]) then [] else [s[0]] + LeadingWord(s[1..])
  }

  // strings.Fields: the maximal runs of non-space characters.
  function Fields(s: string): (ws: seq<string>)
    ensures AreWords(ws)
    decreases |s|
  {
    if s == [] then []
    else if IsSpace(s[0]) then Fields(s[1..])
    else
      var w := LeadingWord(s);
      [w] + Fields(s[|w|..])
  }

  // strings.Join(ws, " ").
  function Join(ws: seq<string>): string { JoinWith(ws, ' ') }

  lemma {:induction false} LeadingWordAppend(w: string, s: string)
    requires !HasSpace(w) && (s == [] || IsSpace(s[0]))
    ensures LeadingWord(w + s) == w
  {
    var t := w + s;
    if w != [] {
      assert !IsSpace(w[0]);
      assert t[1..] == w[1..] + s;
      assert forall i :: 0 <= i < |w[1..]| ==> w[1..][i] == w[i + 1];
      LeadingWordAppend(w[1..], s);
    }
  }

  lemma {:induction false} FieldsOfWord(w: string, s: string)
    requires IsWord(w) && (s == [] || IsSpace(s[0]))
    ensures Fields(w + s) == [w] + Fields(s)
  {
    LeadingWordAppend(w, s);
    assert !IsSpace((w + s)[0]);
    assert (w + s)[|w|..] == s;
  }

  // Words joined by single spaces split back into exactly those words.
  lemma {:induction false} FieldsJoin(ws: seq<string>)
    requires AreWords(ws)
    ensures Fields(Join(ws)) == ws
  {
    if |ws| == 1 {
      assert ws[0] + [] == ws[0];
      FieldsOfWord(ws[0], []);
      assert ws == [ws[0]];
    } else if |ws| > 1 {
      var rest := [' '] + Join(ws[1..]);
      assert Join(ws) == ws[0] + rest;
      FieldsOfWord(ws[0], rest);
      assert rest[1..] == Join(ws[1..]);
      FieldsJoin(ws[1..]);
      assert ws == [ws[0]] + ws[1..];
    }
  }

  lemma {:induction false} FieldsSkipsSpace(c: char, s: string)
    requires IsSpace(c)
    ensures Fields([c] + s) == Fields(s)
  {
    assert ([c] + s)[1..] == s;
  }

  lemma {:induction false} JoinContains(ws: seq<string>, c: char)
    requires c != ' ' && forall i :: 0 <= i < |ws| ==> c !in ws[i]
    ensures c !in Join(ws)
  {
    if |ws| > 1 { JoinContains(ws[1..], c); }
  }

  lemma {:induction false} JoinAppend(a: seq<string>, b: seq<string>)
    requires a != [] && b != []
    ensures Join(a + b) == Join(a) + " " + Join(b)
  {
    assert (a + b)[0] == a[0] && (a + b)[1..] == a[1..] + b;
    if |a| == 1 {
      assert (a + b)[1..] == b;
    } else {
      JoinAppend(a[1..], b);
    }
  }

  predicate HasPrefix(s: string, p: string) { |p| <= |s| && s[..|p|] == p }

  predicate HasSuffix(s: string, p: string) { |p| <= |s| && s[|s| - |p|..] == p }

  // strings.ToLower on ASCII.
  function Lower(s: string): string {
    seq(|s|, i requires 0 <= i < |s| => if 'A' <= s[i] <= 'Z' then (s[i] as int + 32) as char else s[i])
  }

  // The keys of a map, each once.
  ghost predicate KeyList<T(!new)>(config: map<string, T>, keys: seq<string>) {
    (forall i, j :: 0 <= i < j < |keys| ==> keys[i] != keys[j]) && forall k :: k in keys <==> k in config
  }
}
