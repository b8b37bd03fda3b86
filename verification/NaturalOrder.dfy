// utils.go: naturalLess, which compares digit runs by the number they spell.
module NaturalOrder {
  import opened Text
  import opened Sorting

  // -------------------------------------------------------------------- the code

  // The leading run of digits.
  function Digits(s: string): (d: string)
    ensures |d| <= |s| && d == s[..|d|]
    ensures forall i :: 0 <= i < |d| ==> IsDigit(d[i])
    ensures |d| < |s| ==> !IsDigit(s[|d|])
    ensures s != [] && IsDigit(s[0]) ==> d != []
  {
    if s == [] || !IsDigit(s[0]) then [] else [s[0]] + Digits(s[1..])
  }

  function TrimZeros(s: string): (t: string)
    ensures |t| <= |s| && t == s[|s| - |t|..]
    ensures t != [] ==> t[0] != '0'
  {
    if s != [] && s[0] == '0' then TrimZeros(s[1..]) else s
  }

  predicate NaturalLess(a: string, b: string)
    decreases |a| + |b|
  {
    if a == [] || b == [] then |a| < |b|
    else if IsDigit(a[0]) && IsDigit(b[0]) then
      var m, n := TrimZeros(Digits(a)), TrimZeros(Digits(b));
      if |m| != |n| then |m| < |n|
      else if m != n then StringLess(m, n)
      else NaturalLess(a[|Digits(a)|..], b[|Digits(b)|..])
    else if a[0] != b[0] then a[0] < b[0]
    else NaturalLess(a[1..], b[1..])
  }

  // The longest prefix of digits, and what follows it.
  method LeadingDigits(s: string) returns (digits: string, rest: string)
    ensures digits == Digits(s) && rest == s[|Digits(s)|..]
  {
    var i := 0;
    while i < |s| && IsDigit(s[i])
      invariant 0 <= i <= |s|
      invariant Digits(s) == s[..i] + Digits(s[i..])
    {
      assert s[i..][1..] == s[i + 1..];
      assert s[..i] + ([s[i]] + Digits(s[i + 1..])) == s[..i + 1] + Digits(s[i + 1..]);
      i := i + 1;
    }
    assert Digits(s[i..]) == [];
    assert s[..i] + [] == s[..i];
    return s[..i], s[i..];
  }

  method CompareNatural(a0: string, b0: string) returns (less: bool)
    ensures less == NaturalLess(a0, b0)
  {
    var a, b := a0, b0;
    while a != "" && b != ""
      invariant NaturalLess(a, b) == NaturalLess(a0, b0)
      decreases |a| + |b|
    {
      if IsDigit(a[0]) && IsDigit(b[0]) {
        ghost var before := (a, b);
        var aNum, bNum;
        aNum, a := LeadingDigits(a);
        bNum, b := LeadingDigits(b);
        aNum := TrimZeros(aNum);
        bNum := TrimZeros(bNum);
        if |aNum| != |bNum| { return |aNum| < |bNum|; }
        if aNum != bNum { return StringLess(aNum, bNum); }
        continue;
      }
      if a[0] != b[0] { return a[0] < b[0]; }
      a, b := a[1..], b[1..];
    }
    return |a| < |b|;
  }

  // ------------------------------------------------------------- numbers from digits

  function Pow10(n: nat): (p: nat)
    ensures p > 0
  {
    if n == 0 then 1 else 10 * Pow10(n - 1)
  }

  predicate AllDigits(s: string) { forall i :: 0 <= i < |s| ==> IsDigit(s[i]) }

  function Digit(c: char): nat
    requires IsDigit(c)
  {
    c as int - '0' as int
  }

  // The number a digit run spells.
  function Value(s: string): nat
    requires AllDigits(s)
  {
    if s == [] then 0 else Digit(s[0]) * Pow10(|s| - 1) + Value(s[1..])
  }

  lemma MulMono(a: nat, b: nat, p: nat)
    ensures a <= b ==> a * p <= b * p
    ensures a < b ==> a * p + p <= b * p
  {
    if a < b { assert b * p == a * p + (b - a) * p; assert (b - a) * p >= p by { MulAtLeast(b - a, p); } }
  }

  lemma MulAtLeast(k: nat, p: nat)
    requires k >= 1
    ensures k * p >= p
  {
    assert k * p == p + (k - 1) * p;
  }

  // A k-digit numeral is below 10^k, and without a leading zero at least 10^(k-1).
  lemma {:induction false} ValueBounds(s: string)
    requires AllDigits(s)
    ensures Value(s) < Pow10(|s|)
    ensures s != [] && s[0] != '0' ==> Value(s) >= Pow10(|s| - 1)
  {
    if s != [] {
      ValueBounds(s[1..]);
      MulMono(Digit(s[0]), 9, Pow10(|s| - 1));
      MulMono(1, Digit(s[0]), Pow10(|s| - 1));
    }
  }

  lemma {:induction false} Pow10Mono(m: nat, n: nat)
    requires m <= n
    ensures Pow10(m) <= Pow10(n)
  {
    if m < n { Pow10Mono(m, n - 1); }
  }

  lemma {:induction false} TrimKeepsValue(s: string)
    requires AllDigits(s)
    ensures AllDigits(TrimZeros(s)) && Value(TrimZeros(s)) == Value(s)
  {
    if s != [] && s[0] == '0' {
      TrimKeepsValue(s[1..]);
      assert Digit(s[0]) * Pow10(|s| - 1) == 0;
    }
  }

  // Digit runs of one length compare as the numbers they spell.
  lemma {:induction false} SameLength(s: string, t: string)
    requires AllDigits(s) && AllDigits(t) && |s| == |t|
    ensures StringLess(s, t) <==> Value(s) < Value(t)
    ensures s == t <==> Value(s) == Value(t)
  {
    if s != [] {
      SameLength(s[1..], t[1..]);
      ValueBounds(s[1..]);
      ValueBounds(t[1..]);
      var p := Pow10(|s| - 1);
      MulMono(Digit(s[0]), Digit(t[0]), p);
      MulMono(Digit(t[0]), Digit(s[0]), p);
      assert s == [s[0]] + s[1..] && t == [t[0]] + t[1..];
    }
  }

  // The comparison of two trimmed digit runs is the comparison of their values.
  lemma TrimmedCompare(s: string, t: string)
    requires AllDigits(s) && AllDigits(t)
    ensures var m, n := TrimZeros(s), TrimZeros(t);
            && (|m| < |n| || (|m| == |n| && StringLess(m, n)) <==> Value(s) < Value(t))
            && (m == n <==> Value(s) == Value(t))
  {
    TrimKeepsValue(s);
    TrimKeepsValue(t);
    hide TrimZeros, Value, StringLess;
    NoLeadingZeros(TrimZeros(s), TrimZeros(t));
  }

  lemma NoLeadingZeros(m: string, n: string)
    requires AllDigits(m) && AllDigits(n) && (m != [] ==> m[0] != '0') && (n != [] ==> n[0] != '0')
    ensures |m| < |n| || (|m| == |n| && StringLess(m, n)) <==> Value(m) < Value(n)
    ensures m == n <==> Value(m) == Value(n)
  {
    ValueBounds(m);
    ValueBounds(n);
    hide Value, StringLess, Pow10;
    if |m| == |n| { SameLength(m, n); }
    if |m| < |n| { Pow10Mono(|m|, |n| - 1); }
    if |n| < |m| { Pow10Mono(|n|, |m| - 1); }
  }

  // ------------------------------------------------------------------------ tokens

  // A name as a person reads it.
  datatype Token = Num(n: nat) | Chr(c: char)

  function Tokens(s: string): (ts: seq<Token>)
    ensures ts == [] <==> s == []
    ensures forall i :: 0 <= i < |ts| && ts[i].Chr? ==> !IsDigit(ts[i].c)
    decreases |s|
  {
    if s == [] then []
    else if IsDigit(s[0]) then [Num(Value(Digits(s)))] + Tokens(s[|Digits(s)|..])
    else [Chr(s[0])] + Tokens(s[1..])
  }

  // Numbers by value, other characters by code, numbers where the digits are.
  predicate TokenLess(x: Token, y: Token) {
    match (x, y)
    case (Num(m), Num(n)) => m < n
    case (Chr(c), Chr(d)) => c < d
    case (Num(_), Chr(d)) => '9' < d
    case (Chr(c), Num(_)) => c < '0'
  }

  predicate LexLess(a: seq<Token>, b: seq<Token>) {
    if a == [] || b == [] then |a| < |b|
    else if a[0] != b[0] then TokenLess(a[0], b[0])
    else LexLess(a[1..], b[1..])
  }

  function RestOf(s: string): string
    requires s != []
  {
    if IsDigit(s[0]) then s[|Digits(s)|..] else s[1..]
  }

  lemma TokensStep(s: string)
    requires s != []
    ensures Tokens(s) == [if IsDigit(s[0]) then Num(Value(Digits(s))) else Chr(s[0])] + Tokens(RestOf(s))
    ensures Tokens(s)[1..] == Tokens(RestOf(s)) && |RestOf(s)| < |s|
  {}

  // naturalLess is the lexicographic order of the token lists.
  lemma {:induction false} NaturalIsLexicographic(a: string, b: string)
    ensures NaturalLess(a, b) <==> LexLess(Tokens(a), Tokens(b))
    decreases |a| + |b|
  {
    if a != [] && b != [] {
      TokensStep(a);
      TokensStep(b);
      hide Tokens, Value;
      if IsDigit(a[0]) && IsDigit(b[0]) {
        TrimmedCompare(Digits(a), Digits(b));
        hide StringLess, TrimZeros, Digits;
        NaturalIsLexicographic(RestOf(a), RestOf(b));
      } else if a[0] == b[0] {
        hide TrimZeros, Digits;
        NaturalIsLexicographic(RestOf(a), RestOf(b));
      }
    }
  }

  // As Tokens makes them: digits are never characters.
  predicate Proper(ts: seq<Token>) { forall i :: 0 <= i < |ts| && ts[i].Chr? ==> !IsDigit(ts[i].c) }

  lemma {:induction false} LexLaws(a: seq<Token>, b: seq<Token>, c: seq<Token>)
    requires Proper(a) && Proper(b) && Proper(c)
    ensures !LexLess(a, a)
    ensures LexLess(a, b) && LexLess(b, c) ==> LexLess(a, c)
    ensures a != b ==> LexLess(a, b) || LexLess(b, a)
    decreases |a| + |b| + |c|
  {
    if a != [] {
      LexLaws(a[1..], if b == [] then [] else b[1..], if c == [] then [] else c[1..]);
      if b != [] && a[0] == b[0] && a != b {
        assert a == [a[0]] + a[1..] && b == [b[0]] + b[1..];
      }
    }
  }

  // Two names tie exactly when they read the same.
  lemma NaturalTies(a: string, b: string)
    ensures Tied(NaturalLess, a, b) <==> Tokens(a) == Tokens(b)
  {
    NaturalIsLexicographic(a, b);
    NaturalIsLexicographic(b, a);
    LexLaws(Tokens(a), Tokens(b), Tokens(a));
    LexLaws(Tokens(b), Tokens(a), Tokens(b));
  }

  lemma NaturalLaws(a: string, b: string, c: string)
    ensures !NaturalLess(a, a)
    ensures NaturalLess(a, b) && NaturalLess(b, c) ==> NaturalLess(a, c)
    ensures NaturalLess(a, c) ==> NaturalLess(a, b) || NaturalLess(b, c)
  {
    hide NaturalLess, Tokens, LexLess;
    NaturalIsLexicographic(a, a);
    NaturalIsLexicographic(a, b);
    NaturalIsLexicographic(b, c);
    NaturalIsLexicographic(a, c);
    LexLaws(Tokens(a), Tokens(b), Tokens(c));
    LexLaws(Tokens(b), Tokens(a), Tokens(c));
    LexLaws(Tokens(a), Tokens(c), Tokens(b));
  }

  lemma NaturalIsStrictWeakOrder()
    ensures StrictWeakOrder(NaturalLess)
  {
    hide NaturalLess;
    forall a, b, c
      ensures !NaturalLess(a, a)
      ensures NaturalLess(a, b) && NaturalLess(b, c) ==> NaturalLess(a, c)
      ensures NaturalLess(a, c) ==> NaturalLess(a, b) || NaturalLess(b, c)
    {
      NaturalLaws(a, b, c);
    }
  }
}
