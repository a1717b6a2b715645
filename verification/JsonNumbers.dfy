/** The numbers the lexer of src/c7json/lexer.cpp reads, against those of section 6 of RFC 8259. */
module JsonNumbers {
  import opened JsonLex
  import Doubles

  /** A number of section 6 of RFC 8259: minus, int, frac and exp.  Empty digits stand for a part
      that is not there; the letter is that in front of the exponent. */
  datatype Parts = Parts(minus: bool, whole: string, frac: string, letter: char, sign: string, exp: string)
  {
    predicate Valid() {
      && AllDigits(whole) && AllDigits(frac) && AllDigits(exp)
      && whole != "" && (|whole| > 1 ==> whole[0] != '0')
      && (letter == 'e' || letter == 'E')
      && (sign == "" || (exp != "" && (sign == "+" || sign == "-")))
    }

    function IntText(): string {
      (if minus then "-" else "") + whole
    }

    function FracText(): string {
      if frac == "" then "" else "." + frac
    }

    function ExpText(): string {
      if exp == "" then "" else [letter] + (sign + exp)
    }

    function Text(): string {
      IntText() + (FracText() + ExpText())
    }

    /** There is no exponent, or it has a small e. */
    predicate SmallLetter() {
      exp == "" || letter == 'e'
    }

    predicate IsReal() {
      frac != "" || exp != ""
    }

    /** The value, which the decimal digits and the exponent give, is one of the type it is read as. */
    predicate InRange() {
      if IsReal() then Doubles.InRange(NatValue(whole + frac), IntValue(sign + exp) - |frac|)
      else I64_MIN <= IntValue(IntText()) <= I64_MAX
    }

    /** The token that the whole text should become. */
    function AsToken(): Token {
      if IsReal() then Real(Text()) else Int(IntValue(IntText()))
    }

    function WithoutExp(): Parts {
      this.(sign := "", exp := "")
    }
  }

  predicate AllDigits(s: string) {
    forall i :: 0 <= i < |s| ==> IsDigit(s[i])
  }

  /** Text behind a number that the number does not run into. */
  predicate Delim(rest: string) {
    rest == "" || (!IsDigit(rest[0]) && rest[0] != '.' && rest[0] != 'e')
  }

  lemma {:induction false} DigitsRead(text: string, rest: string)
    requires AllDigits(text) && (rest == "" || !IsDigit(rest[0]))
    ensures Digits(text + rest) == |text|
  {
    if text == "" {
      assert text + rest == rest;
    } else {
      DigitsRead(text[1..], rest);
      assert (text + rest)[1..] == text[1..] + rest;
    }
  }

  /** Digits from i on, and what is behind them. */
  lemma DigitsAt(s: string, i: nat, text: string, rest: string)
    requires i <= |s| && s[i..] == text + rest && AllDigits(text) && (rest == "" || !IsDigit(rest[0]))
    ensures i + |text| <= |s| && Digits(s[i..]) == |text| && s[i + |text|..] == rest
    ensures text != "" ==> i < |s| && s[i] == text[0]
  {
    hide Digits;
    DigitsRead(text, rest);
    assert s[i..][|text|..] == rest;
    assert text != "" ==> s[i] == s[i..][0];
  }

  /** A piece of s from i on, and what is behind it. */
  lemma PieceAt(s: string, i: nat, text: string, rest: string)
    requires i <= |s| && s[i..] == text + rest
    ensures i + |text| <= |s| && s[i + |text|..] == rest && s[..i + |text|] == s[..i] + text
    ensures text != "" ==> s[i] == text[0]
    ensures text == "" ==> (i < |s| <==> rest != "") && (i < |s| ==> s[i] == rest[0])
  {
    assert s[i..][|text|..] == rest;
    assert text != "" ==> s[i] == s[i..][0];
    assert text == "" ==> s[i..] == rest;
  }

  lemma PowerRead(s: string, k: nat, sign: string, exp: string, rest: string)
    requires AllDigits(exp) && exp != "" && Delim(rest) && (sign == "" || sign == "+" || sign == "-")
    requires 0 < k <= |s| && s[k..] == sign + (exp + rest)
    ensures k + |sign + exp| <= |s| && Power(s, k) == Double(s, k + |sign + exp|)
  {
    hide Digits, Double;
    PieceAt(s, k, sign, exp + rest);
    PieceAt(s, k + |sign|, exp, rest);
    DigitsAt(s, k + |sign|, exp, rest);
  }

  lemma ExponentRead(s: string, i: nat, n: Parts, rest: string, isFloat: bool)
    requires n.Valid() && n.SmallLetter() && Delim(rest)
    requires 0 < i <= |s| && s[i..] == n.ExpText() + rest
    ensures i + |n.ExpText()| <= |s|
    ensures Exponent(s, i, isFloat) ==
            if isFloat || n.exp != "" then Double(s, i + |n.ExpText()|) else Integer(s, i)
  {
    hide Power, Double, Integer, AllDigits;
    PieceAt(s, i, n.ExpText(), rest);
    if n.exp != "" {
      assert n.ExpText() + rest == ['e'] + (n.sign + (n.exp + rest));
      PieceAt(s, i, ['e'], n.sign + (n.exp + rest));
      PowerRead(s, i + 1, n.sign, n.exp, rest);
    }
  }

  lemma PointRead(s: string, i: nat, frac: string, tail: string)
    requires AllDigits(frac) && frac != "" && (tail == "" || !IsDigit(tail[0]))
    requires 0 < i <= |s| && s[i..] == "." + (frac + tail)
    ensures i + 1 + |frac| <= |s| && s[i + 1 + |frac|..] == tail
    ensures Fraction(s, i) == Exponent(s, i + 1 + |frac|, true)
  {
    hide Digits, Exponent;
    PieceAt(s, i, ".", frac + tail);
    DigitsAt(s, i + 1, frac, tail);
  }

  lemma FracTextRead(s: string, i: nat, n: Parts, tail: string)
    requires n.Valid() && (tail == "" || (!IsDigit(tail[0]) && tail[0] != '.'))
    requires 0 < i <= |s| && s[i..] == n.FracText() + tail
    ensures i + |n.FracText()| <= |s| && s[i + |n.FracText()|..] == tail
    ensures Fraction(s, i) == Exponent(s, i + |n.FracText()|, n.frac != "")
  {
    hide Fraction, Exponent, AllDigits;
    if n.frac != "" {
      Regroup("", ".", n.frac, tail);
      PointRead(s, i, n.frac, tail);
    } else {
      PieceAt(s, i, "", tail);
      NoPointRead(s, i);
    }
  }

  lemma FractionRead(s: string, i: nat, n: Parts, rest: string)
    requires n.Valid() && n.SmallLetter() && Delim(rest)
    requires 0 < i <= |s| && s[i..] == n.FracText() + (n.ExpText() + rest)
    ensures i + |n.FracText() + n.ExpText()| <= |s|
    ensures Fraction(s, i) ==
            if n.IsReal() then Double(s, i + |n.FracText() + n.ExpText()|) else Integer(s, i)
  {
    hide Fraction, Exponent, Double, Integer, Delim, Parts.Valid, Parts.SmallLetter, Parts.FracText, Parts.ExpText;
    TailStarts(n, rest);
    FracTextRead(s, i, n, n.ExpText() + rest);
    ExponentRead(s, i + |n.FracText()|, n, rest, n.frac != "");
    if !n.IsReal() { NoPoint(n); }
  }

  lemma NoPointRead(s: string, i: nat)
    requires 0 < i <= |s| && (i < |s| ==> s[i] != '.')
    ensures Fraction(s, i) == Exponent(s, i, false)
  {
    hide Exponent;
  }

  lemma TailStarts(n: Parts, rest: string)
    requires n.Valid() && Delim(rest)
    ensures var tail := n.ExpText() + rest; tail == "" || (!IsDigit(tail[0]) && tail[0] != '.')
    ensures var tail := n.FracText() + (n.ExpText() + rest); tail == "" || !IsDigit(tail[0])
  {
    var tail := n.ExpText() + rest;
    assert n.frac == "" ==> n.FracText() + tail == tail;
  }

  lemma WholeRead(s: string, n: Parts, tail: string)
    requires n.Valid() && s == n.IntText() + tail && (tail == "" || !IsDigit(tail[0]))
    ensures n.IntText() != "" && s != "" && (s[0] == '-' || IsDigit(s[0]))
    ensures Number(s) == Fraction(s, |n.IntText()|)
  {
    hide Digits, Fraction;
    var i := if n.minus then 1 else 0;
    assert s[i..] == n.whole + tail;
    PieceAt(s, i, n.whole, tail);
    DigitsAt(s, i, n.whole, tail);
  }

  /** With a small e, the text is read to its end, and has the token of its value if that is in
      range. */
  lemma SmallLetterIsRead(n: Parts, rest: string)
    requires n.Valid() && n.SmallLetter() && Delim(rest)
    ensures Lex(n.Text() + rest) == if n.InRange() then Lexed(n.AsToken(), rest) else Lexed(Thrown, "")
  {
    hide Lex, Number, Fraction, InDoubleRange, Doubles.InRange, IntValue, NatValue, AllDigits, Delim,
         Parts.Text, Parts.IntText, Parts.FracText, Parts.ExpText, Parts.Valid;
    var s, i := n.Text() + rest, |n.IntText()|;
    SmallLetterEnds(n, s, rest);
    assert s[..|n.Text()|] == n.Text() && s[|n.Text()|..] == rest;
    if n.IsReal() {
      RealRange(n);
    } else {
      NoPoint(n);
    }
  }

  lemma NoPoint(n: Parts)
    requires !n.IsReal()
    ensures n.FracText() + n.ExpText() == "" && n.Text() == n.IntText()
  {
  }

  /** Where reading ends, and what is made of the text. */
  lemma SmallLetterEnds(n: Parts, s: string, rest: string)
    requires n.Valid() && n.SmallLetter() && Delim(rest) && s == n.Text() + rest
    ensures 0 < |n.Text()| <= |s|
    ensures Lex(s) == if n.IsReal() then Double(s, |n.Text()|) else Integer(s, |n.Text()|)
  {
    hide Lex, Number, Fraction, Double, Integer, Delim,
         Parts.Valid, Parts.IntText, Parts.FracText, Parts.ExpText;
    Regroup(n.IntText(), n.FracText(), n.ExpText(), rest);
    TailStarts(n, rest);
    WholeRead(s, n, n.FracText() + (n.ExpText() + rest));
    FractionRead(s, |n.IntText()|, n, rest);
    NumberIsLexed(s);
    if !n.IsReal() { NoPoint(n); }
  }

  lemma Regroup(a: string, b: string, c: string, d: string)
    ensures a + (b + c) + d == a + (b + (c + d))
    ensures (a + (b + (c + d)))[|a|..] == b + (c + d)
  {
  }

  lemma NumberIsLexed(s: string)
    requires s != "" && (s[0] == '-' || IsDigit(s[0]))
    ensures Lex(s) == Number(s)
  {
    hide Number;
  }

  // ---- the range of a real ----

  lemma {:induction false} BeforeAfter(s: string, c: char, tail: string)
    requires forall i :: 0 <= i < |s| ==> s[i] != c
    ensures Before(s, c) == s && After(s, c) == ""
    ensures Before(s + [c] + tail, c) == s && After(s + [c] + tail, c) == tail
  {
    if s == "" {
      assert s + [c] + tail == [c] + tail;
    } else {
      BeforeAfter(s[1..], c, tail);
      assert (s + [c] + tail)[1..] == s[1..] + [c] + tail;
    }
  }

  lemma {:induction false} MinusCountsNothing(digits: string)
    ensures NatValue("-" + digits) == NatValue(digits)
  {
    if digits != "" {
      MinusCountsNothing(digits[..|digits| - 1]);
      assert ("-" + digits)[..|digits|] == "-" + digits[..|digits| - 1];
    } else {
      assert NatValue("-") == 10 * NatValue("-"[..0]);
    }
  }

  lemma NoneOf(n: Parts)
    requires n.Valid()
    ensures forall i :: 0 <= i < |n.IntText()| ==> n.IntText()[i] != '.'
    ensures forall i :: 0 <= i < |n.IntText() + n.FracText()| ==> (n.IntText() + n.FracText())[i] != 'e'
  {
  }

  lemma FracTakenApart(n: Parts)
    requires n.Valid()
    ensures Before(n.IntText() + n.FracText(), '.') == n.IntText()
    ensures After(n.IntText() + n.FracText(), '.') == n.frac
  {
    hide Before, After, AllDigits, Parts.IntText, Parts.Valid;
    NoneOf(n);
    BeforeAfter(n.IntText(), '.', n.frac);
    if n.frac != "" {
      assert n.IntText() + n.FracText() == n.IntText() + ['.'] + n.frac;
    } else {
      assert n.IntText() + n.FracText() == n.IntText();
    }
  }

  lemma ExpTakenApart(n: Parts)
    requires n.Valid() && n.SmallLetter()
    ensures Before(n.Text(), 'e') == n.IntText() + n.FracText()
    ensures After(n.Text(), 'e') == n.sign + n.exp
  {
    hide Before, After, AllDigits, Parts.IntText, Parts.FracText;
    NoneOf(n);
    BeforeAfter(n.IntText() + n.FracText(), 'e', n.sign + n.exp);
    if n.exp != "" {
      assert n.Text() == n.IntText() + n.FracText() + ['e'] + (n.sign + n.exp);
    } else {
      assert n.Text() == n.IntText() + n.FracText() && n.sign + n.exp == "";
    }
  }

  /** The text of a real and its parts are in range alike. */
  lemma RealRange(n: Parts)
    requires n.Valid() && n.SmallLetter() && n.IsReal()
    ensures InDoubleRange(n.Text()) <==> n.InRange()
  {
    hide NatValue, IntValue, Before, After, Doubles.InRange, AllDigits, Parts.Text, Parts.ExpText;
    FracTakenApart(n);
    ExpTakenApart(n);
    MinusCountsNothing(n.whole + n.frac);
    assert if n.minus then n.IntText() + n.frac == "-" + (n.whole + n.frac)
           else n.IntText() + n.frac == n.whole + n.frac;
  }

  // ---- what is read ----

  /** For every number of RFC 8259: the text is consumed whole, with the token of its value and what
      is behind it left, if and only if an exponent has a small e and the value is in range.  A
      capital E ends the number. */
  lemma NumberIsRead(n: Parts, rest: string)
    requires n.Valid() && Delim(rest)
    ensures Lex(n.Text() + rest) == Lexed(n.AsToken(), rest) <==> n.SmallLetter() && n.InRange()
    ensures n.SmallLetter() && !n.InRange() ==> Lex(n.Text() + rest) == Lexed(Thrown, "")
    ensures !n.SmallLetter() ==>
      Lex(n.Text() + rest) ==
      if n.WithoutExp().InRange() then Lexed(n.WithoutExp().AsToken(), n.ExpText() + rest) else Lexed(Thrown, "")
  {
    hide Lex, Parts.InRange, Parts.Text, Parts.ExpText, AllDigits;
    if n.SmallLetter() {
      SmallLetterIsRead(n, rest);
    } else {
      CapitalStarts(n, rest);
      SmallLetterIsRead(n.WithoutExp(), n.ExpText() + rest);
    }
  }

  /** And nothing else is read as a number: what has become an integer or a real is the text of a
      number of RFC 8259 with a small e, if it has one, whose value is in range. */
  lemma OnlyNumbersAreRead(s: string) returns (n: Parts)
    requires s != "" && (s[0] == '-' || IsDigit(s[0])) && IsNumber(Lex(s).token)
    ensures n.Valid() && n.SmallLetter() && n.InRange()
    ensures s == n.Text() + Lex(s).rest && Lex(s).token == n.AsToken()
  {
    hide Lex, Number, Fraction, InDoubleRange, Doubles.InRange, IntValue, NatValue, AllDigits, Parts.Text;
    NumberIsLexed(s);
    n := PartsRead(s);
    var j := |n.Text()|;
    assert s == s[..j] + s[j..];
    if n.IsReal() {
      RealRange(n);
    } else {
      NoPoint(n);
    }
  }

  predicate IsNumber(t: Token) {
    t.Int? || t.Real?
  }

  lemma PartsRead(s: string) returns (n: Parts)
    requires s != "" && (s[0] == '-' || IsDigit(s[0])) && IsNumber(Number(s).token)
    ensures n.Valid() && n.SmallLetter() && 0 < |n.Text()| <= |s| && s[..|n.Text()|] == n.Text()
    ensures Number(s) == if n.IsReal() then Double(s, |n.Text()|) else Integer(s, |n.Text()|)
  {
    hide Number, Fraction, Exponent, Double, Integer, AllDigits, Parts.Text;
    var whole, a := WholePart(s);
    var frac, f := FracPart(s, |a|);
    var sign, exp, e := ExpPart(s, |a| + |f|, frac != "");
    n := Parts(s[0] == '-', whole, frac, 'e', sign, exp);
    JoinedParts(s, a, f, e);
    TextIs(n, a, f, e);
  }

  lemma TextIs(n: Parts, a: string, f: string, e: string)
    requires a == (if n.minus then "-" else "") + n.whole
    requires f == if n.frac == "" then "" else "." + n.frac
    requires e == if n.exp == "" then "" else [n.letter] + (n.sign + n.exp)
    ensures n.Text() == a + (f + e) && |n.Text()| == |a| + |f| + |e|
  {
  }

  lemma JoinedParts(s: string, a: string, b: string, c: string)
    requires |a| + |b| + |c| <= |s| && s[..|a|] == a && s[|a|..|a| + |b|] == b
    requires s[|a| + |b|..|a| + |b| + |c|] == c
    ensures s[..|a + (b + c)|] == a + (b + c)
  {
    var m, e := |a| + |b|, |a| + |b| + |c|;
    assert s[..e] == s[..|a|] + (s[|a|..m] + s[m..e]);
  }

  lemma WholePart(s: string) returns (whole: string, a: string)
    requires s != "" && (s[0] == '-' || IsDigit(s[0])) && IsNumber(Number(s).token)
    ensures AllDigits(whole) && whole != "" && (|whole| > 1 ==> whole[0] != '0')
    ensures a == (if s[0] == '-' then "-" else "") + whole
    ensures 0 < |a| <= |s| && s[..|a|] == a && Number(s) == Fraction(s, |a|)
  {
    hide Fraction, Digits;
    var i := if s[0] == '-' then 1 else 0;
    var k := if s[i] == '0' then i + 1 else i + Digits(s[i..]);
    if s[i] != '0' { DigitCounts(s[i..]); }
    whole, a := s[i..k], s[..k];
    forall j | 0 <= j < |whole| ensures IsDigit(whole[j]) {
      assert whole[j] == s[i..][j];
    }
  }

  lemma DigitCounts(s: string)
    requires s != "" && IsDigit(s[0])
    ensures Digits(s) > 0
  {
  }

  lemma FracPart(s: string, k: nat) returns (frac: string, f: string)
    requires 0 < k <= |s| && IsNumber(Fraction(s, k).token)
    ensures AllDigits(frac)
    ensures f == if frac == "" then "" else "." + frac
    ensures var m := k + |f|; m <= |s| && s[k..m] == f && Fraction(s, k) == Exponent(s, m, frac != "")
  {
    hide Exponent, Digits;
    frac, f := "", "";
    if k < |s| && s[k] == '.' {
      var n := Digits(s[k + 1..]);
      frac, f := s[k + 1..k + 1 + n], s[k..k + 1 + n];
      assert frac == s[k + 1..][..n];
    }
  }

  lemma ExpPart(s: string, m: nat, isFloat: bool) returns (sign: string, exp: string, e: string)
    requires 0 < m <= |s| && IsNumber(Exponent(s, m, isFloat).token)
    ensures AllDigits(exp) && (sign == "" || (exp != "" && (sign == "+" || sign == "-")))
    ensures e == if exp == "" then "" else ['e'] + (sign + exp)
    ensures var j := m + |e|;
      && j <= |s| && s[m..j] == e
      && Exponent(s, m, isFloat) == if isFloat || exp != "" then Double(s, j) else Integer(s, j)
  {
    hide Double, Integer, Digits;
    sign, exp, e := "", "", "";
    if m < |s| && s[m] == 'e' {
      var k := m + 1;
      var j := if k < |s| && (s[k] == '+' || s[k] == '-') then k + 1 else k;
      var n := Digits(s[j..]);
      sign, exp, e := s[k..j], s[j..j + n], s[m..j + n];
      assert exp == s[j..][..n];
      assert s[m..j + n] == ['e'] + (sign + exp);
    }
  }

  lemma CapitalStarts(n: Parts, rest: string)
    requires n.Valid() && !n.SmallLetter()
    ensures Delim(n.ExpText() + rest) && n.WithoutExp().Valid() && n.ExpText() != ""
    ensures n.Text() + rest == n.WithoutExp().Text() + (n.ExpText() + rest)
  {
    Regroup(n.IntText(), n.FracText(), n.ExpText(), rest);
    Regroup(n.IntText(), n.FracText(), "", n.ExpText() + rest);
    assert n.ExpText()[0] == (n.ExpText() + rest)[0];
    assert "" + (n.ExpText() + rest) == n.ExpText() + rest;
  }

  /** So what stands behind a number that a capital E has ended is no token. */
  lemma CapitalIsNoToken(rest: string)
    ensures Lex("E" + rest) == Lexed(BadToken, rest)
  {
    assert SkipSpaces("E" + rest) == "E" + rest;
    assert ("E" + rest)[1..] == rest;
  }

  /** The smallest input with a capital E. */
  lemma CapitalExponentIsNotRead()
    ensures Lex("1E5") == Lexed(Int(1), "E5")
  {
    hide Lex, NatValue;
    var n := Parts(false, "1", "", 'E', "", "5");
    NumberIsRead(n, "");
    assert n.Text() + "" == "1E5" && n.ExpText() + "" == "E5";
    assert n.WithoutExp().IntText() == "1" && !n.WithoutExp().IsReal();
    OneDigit();
  }

  lemma OneDigit()
    ensures IntValue("1") == 1
  {
    assert "1"[..0] == "";
  }

  /** A real for which std::stod throws, and one of up to 18 digits for which it does not. */
  lemma RangeIsDecided(n: Parts, rest: string)
    requires n.Valid() && n.IsReal() && n.SmallLetter() && Delim(rest)
    ensures NatValue(n.whole + n.frac) > 0 && IntValue(n.sign + n.exp) - |n.frac| >= 342 ==>
      Lex(n.Text() + rest) == Lexed(Thrown, "")
    ensures NatValue(n.whole + n.frac) <= I64_MAX && -240 <= IntValue(n.sign + n.exp) - |n.frac| <= 240 ==>
      Lex(n.Text() + rest) == Lexed(Real(n.Text()), rest)
  {
    hide Lex, NatValue, IntValue, Delim, Parts.Valid, Parts.Text, Parts.ExpText, Doubles.Overflows, Doubles.Underflows;
    var m, e := NatValue(n.whole + n.frac), IntValue(n.sign + n.exp) - |n.frac|;
    NumberIsRead(n, rest);
    if m > 0 && e >= 342 { Doubles.HugeOverflows(m, e); }
    if m <= I64_MAX && -240 <= e <= 240 { Doubles.ModestIsInRange(m, e); }
  }

  // ---- escaped code points ----

  /** Section 3 of RFC 3629, read the other way. */
  function FromUtf8(s: string): int {
    if |s| == 1 && s[0] as int < 0x80 then s[0] as int
    else if |s| == 2 && 0xC0 <= s[0] as int < 0xE0 then (s[0] as int - 0xC0) * 64 + (s[1] as int - 0x80)
    else if |s| == 3 && 0xE0 <= s[0] as int < 0xF0 then
      (s[0] as int - 0xE0) * 4096 + (s[1] as int - 0x80) * 64 + (s[2] as int - 0x80)
    else -1
  }

  /** An escaped code point becomes its UTF-8 form, in bytes of which those behind the first are
      continuation bytes. */
  lemma EscapedCodePoint(u: nat)
    requires u < 0x10000
    ensures FromUtf8(Utf8(u)) == u
    ensures forall i :: 0 < i < |Utf8(u)| ==> 0x80 <= Utf8(u)[i] as int < 0xC0
  {
    assert u / 64 == 64 * (u / 4096) + u / 64 % 64;
    assert u == 64 * (u / 64) + u % 64;
  }
}
