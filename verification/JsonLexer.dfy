/** lexer::impl of src/c7json/lexer.cpp: a reader of one character at a time that can take one
    character back. */
module JsonLexer {
  import opened JsonLex

  class Lexer {
    const input: string
    var pos: nat
    var raw: string      // the characters of the token so far
    var c: int           // the last character, -1 at the end of the input

    ghost predicate Valid()
      reads this
    {
      pos <= |input|
    }

    ghost function Rest(): string
      requires Valid()
      reads this
    {
      input[pos..]
    }

    constructor (input: string)
      ensures Valid() && Rest() == input && this.input == input
    {
      this.input, pos, raw, c := input, 0, "", 0;
      new;
      assert input[0..] == input;
    }

    method GetChar() returns (r: int)
      requires Valid()
      modifies this
      ensures Valid() && r == c
      ensures old(Rest()) == [] ==> c == -1 && Rest() == [] && raw == old(raw)
      ensures old(Rest()) != [] ==>
        && c == old(Rest())[0] as int && Rest() == old(Rest())[1..]
        && pos == old(pos) + 1 && raw == old(raw) + [old(Rest())[0]]
    {
      if pos < |input| {
        c := input[pos] as int;
        raw := raw + [input[pos]];
        pos := pos + 1;
      } else {
        c := -1;
      }
      r := c;
    }

    method UngetChar()
      requires Valid() && raw != [] && pos > 0
      modifies this
      ensures Valid() && pos == old(pos) - 1 && raw == old(raw)[..|old(raw)| - 1] && c == old(c)
    {
      raw := raw[..|raw| - 1];
      pos := pos - 1;
    }

    method Skip()
      requires Valid()
      modifies this
      ensures Valid()
      ensures var t := SkipSpaces(old(Rest()));
        if t == [] then c == -1 && Rest() == [] else c == t[0] as int && At(t, 0)
    {
      while true
        invariant Valid() && SkipSpaces(Rest()) == SkipSpaces(old(Rest()))
        decreases |input| - pos
      {
        var ch := GetChar();
        if ch == -1 { return; }
        if !IsSpace(input[pos - 1]) {
          raw := [input[pos - 1]];
          return;
        }
      }
    }

    method ExpectKeyword(token: Token, word: string) returns (t: Token)
      requires Valid()
      modifies this
      ensures Valid() && Lexed(t, Rest()) == Keyword(old(Rest()), word, token)
    {
      var i := 0;
      while i < |word|
        invariant 0 <= i <= |word| && Valid()
        invariant Keyword(Rest(), word[i..], token) == Keyword(old(Rest()), word, token)
      {
        var ch := GetChar();
        if ch != word[i] as int { return BadToken; }
        assert word[i..][1..] == word[i + 1..];
        i := i + 1;
      }
      t := token;
    }

    /** Reads up to four hexadecimal digits. */
    method GetHex() returns (hex: string)
      requires Valid()
      modifies this
      ensures Valid() && |hex| == Hexes(old(Rest()), 4)
      ensures |hex| == 4 ==> hex == old(Rest())[..4] && Rest() == old(Rest())[4..]
      ensures |hex| < 4 ==> Rest() == Behind(old(Rest()), |hex|)
    {
      hide Hexes;
      ghost var s := Rest();
      hex := "";
      assert s[0..] == s;
      for i := 0 to 4
        invariant Valid() && |hex| == i <= |s| && hex == s[..i] && Rest() == s[i..]
        invariant Hexes(s, 4) == i + Hexes(s[i..], 4 - i)
      {
        HexesFrom(s, i, 4 - i);
        var ch := GetChar();
        if ch == -1 || !IsHex(ch as char) { return; }
        hex := hex + [ch as char];
      }
    }

    /** Reads an escape behind its backslash. */
    method ExpectEscape() returns (good: bool, chars: string)
      requires Valid()
      modifies this
      ensures Valid() && Escaped(good, chars, Rest()) == Escape(old(Rest()))
    {
      hide Utf8, CodeOf;
      var ch := GetChar();
      if ch == 'u' as int {
        var hex := GetHex();
        if |hex| < 4 { return false, ""; }
        return true, Utf8(CodeOf(hex));
      } else if ch == -1 {
        return false, "";
      } else {
        return Unescaped(ch as char) != "", Unescaped(ch as char);
      }
    }

    method ExpectString() returns (t: Token)
      requires Valid()
      modifies this
      ensures Valid() && Lexed(t, Rest()) == StringFrom(old(Rest()), "")
    {
      hide Escape;
      var eval := "";
      while true
        invariant Valid() && StringFrom(Rest(), eval) == StringFrom(old(Rest()), "")
        decreases |Rest()|
      {
        var ch := GetChar();
        if ch == -1 { return Endless; }
        if ch == '\"' as int { return Str(eval); }
        if ch == '\\' as int {
          var good, chars := ExpectEscape();
          if !good { return BadToken; }
          eval := eval + chars;
        } else {
          eval := eval + [ch as char];
        }
      }
    }

    // ---- numbers ----

    /** The token text began with s; its character k has just been read, or s has ended. */
    ghost predicate At(s: string, k: nat)
      reads this
    {
      && Valid() && k <= |s| <= |input| && input[|input| - |s|..] == s
      && if k < |s| then c == s[k] as int && Rest() == s[k + 1..] && raw == s[..k + 1]
         else c == -1 && Rest() == [] && raw == s
    }

    predicate OnDigit()
      reads this
    {
      '0' as int <= c <= '9' as int
    }

    method Advance(ghost s: string, ghost k: nat)
      requires At(s, k)
      modifies this
      ensures At(s, if k < |s| then k + 1 else k)
    {
      var ch := GetChar();
    }

    /** Reads on as long as there are digits. */
    method AdvanceDigits(ghost s: string, ghost k: nat) returns (n: nat)
      requires At(s, k)
      modifies this
      ensures n == Digits(s[k..]) && At(s, k + n)
    {
      hide Digits, At;
      n := 0;
      CharAt(s, k);
      while OnDigit()
        invariant k + n <= |s| && At(s, k + n) && n + Digits(s[k + n..]) == Digits(s[k..])
        decreases |s| - k - n
      {
        CharAt(s, k + n);
        DigitsFrom(s, k + n);
        Advance(s, k + n);
        n := n + 1;
      }
      CharAt(s, k + n);
      DigitsFrom(s, k + n);
    }

    /** Gives back the character that ended the number. */
    method Finish(ghost s: string, ghost k: nat)
      requires At(s, k) && k > 0
      modifies this
      ensures Valid() && raw == s[..k] && Rest() == s[k..]
    {
      if c != -1 {
        UngetChar();
      }
    }

    method ExpectNumber(ghost s: string) returns (t: Token)
      requires At(s, 0) && s != [] && (IsDigit(s[0]) || s[0] == '-')
      modifies this
      ensures Valid() && Lexed(t, Rest()) == Number(s)
    {
      hide Number, At;
      CharAt(s, 0);
      if c == '-' as int {
        Advance(s, 0);
        t := ExpectWhole(s, 1);
      } else {
        t := ExpectWhole(s, 0);
      }
    }

    /** Reads on behind the sign. */
    method ExpectWhole(ghost s: string, ghost i: nat) returns (t: Token)
      requires s != [] && (IsDigit(s[0]) || s[0] == '-') && i == (if s[0] == '-' then 1 else 0) && At(s, i)
      modifies this
      ensures Valid() && Lexed(t, Rest()) == Number(s)
    {
      hide Digits, Fraction, At;
      CharAt(s, i);
      if c == '0' as int {
        Advance(s, i);
        t := ExpectFraction(s, i + 1);
      } else if OnDigit() {
        Advance(s, i);
        var n := AdvanceDigits(s, i + 1);
        DigitsFrom(s, i);
        t := ExpectFraction(s, i + 1 + n);
      } else {
        t := BadToken;
      }
    }

    lemma CharAt(s: string, k: nat)
      requires At(s, k)
      ensures k <= |s|
      ensures k < |s| ==> c == s[k] as int
      ensures k == |s| ==> c == -1
      ensures Valid() && Rest() == Behind(s, k)
    {
    }

    method ExpectFraction(ghost s: string, ghost i: nat) returns (t: Token)
      requires 0 < i <= |s| && At(s, i)
      modifies this
      ensures Valid() && Lexed(t, Rest()) == Fraction(s, i)
    {
      hide Digits, Exponent, At;
      CharAt(s, i);
      if c == '.' as int {
        t := ExpectPoint(s, i);
      } else {
        t := ExpectExponent(s, i, false);
      }
    }

    method ExpectPoint(ghost s: string, ghost i: nat) returns (t: Token)
      requires 0 < i < |s| && At(s, i) && s[i] == '.'
      modifies this
      ensures Valid() && Lexed(t, Rest()) == Fraction(s, i)
    {
      hide Digits, Exponent, At;
      Advance(s, i);
      var n := AdvanceDigits(s, i + 1);
      CharAt(s, i + 1 + n);
      if n == 0 { return BadToken; }
      t := ExpectExponent(s, i + 1 + n, true);
    }

    method AdvanceSign(ghost s: string, ghost k: nat) returns (ghost j: nat)
      requires k <= |s| && At(s, k)
      modifies this
      ensures j == (if k < |s| && (s[k] == '+' || s[k] == '-') then k + 1 else k) && At(s, j)
    {
      hide At;
      CharAt(s, k);
      j := k;
      if c == '+' as int || c == '-' as int {
        Advance(s, k);
        j := k + 1;
      }
    }

    method ExpectPower(ghost s: string, ghost k: nat) returns (t: Token)
      requires 0 < k <= |s| && At(s, k)
      modifies this
      ensures Valid() && Lexed(t, Rest()) == Power(s, k)
    {
      hide Digits, At, Double;
      ghost var j := AdvanceSign(s, k);
      CharAt(s, j);
      var n := AdvanceDigits(s, j);
      CharAt(s, j + n);
      if n == 0 { return BadToken; }
      Finish(s, j + n);
      t := StoD(s, j + n);
    }

    method ExpectExponent(ghost s: string, ghost i: nat, isFloat: bool) returns (t: Token)
      requires 0 < i <= |s| && At(s, i)
      modifies this
      ensures Valid() && Lexed(t, Rest()) == Exponent(s, i, isFloat)
    {
      hide Power, Integer, Double, At;
      CharAt(s, i);
      if c == 'e' as int {
        Advance(s, i);
        t := ExpectPower(s, i + 1);
      } else {
        Finish(s, i);
        if isFloat {
          t := StoD(s, i);
        } else {
          t := StoL(s, i);
        }
      }
    }

    /** std::stol on the number read. */
    method StoL(ghost s: string, ghost i: nat) returns (t: Token)
      requires 0 < i <= |s| && Valid() && raw == s[..i] && Rest() == s[i..]
      modifies this
      ensures Valid() && Lexed(t, Rest()) == Integer(s, i)
    {
      var v := IntValue(raw);
      if I64_MIN <= v <= I64_MAX {
        t := Int(v);
      } else {
        pos := |input|;
        t := Thrown;
      }
    }

    /** std::stod on the number read. */
    method StoD(ghost s: string, ghost i: nat) returns (t: Token)
      requires 0 < i <= |s| && Valid() && raw == s[..i] && Rest() == s[i..]
      modifies this
      ensures Valid() && Lexed(t, Rest()) == Double(s, i)
    {
      hide InDoubleRange;
      if InDoubleRange(raw) {
        t := Real(raw);
      } else {
        pos := |input|;
        t := Thrown;
      }
    }

    method Get() returns (t: Token)
      requires Valid()
      modifies this
      ensures Valid() && Lexed(t, Rest()) == Lex(old(Rest()))
    {
      hide Keyword, StringFrom, Number, SkipSpaces;
      raw := "";
      Skip();
      if c == -1 { return NoToken; }
      match c as char
      case '[' => t := SquareL;
      case ']' => t := SquareR;
      case '{' => t := CurlyL;
      case '}' => t := CurlyR;
      case ':' => t := Colon;
      case ',' => t := Comma;
      case 't' => t := ExpectKeyword(TrueWord, "rue");
      case 'f' => t := ExpectKeyword(FalseWord, "alse");
      case 'n' => t := ExpectKeyword(NullWord, "ull");
      case '\"' => t := ExpectString();
      case _ =>
        if OnDigit() || c == '-' as int {
          t := ExpectNumber(SkipSpaces(old(Rest())));
        } else {
          t := BadToken;
        }
    }
  }

  lemma HexesFrom(s: string, i: nat, k: nat)
    requires i <= |s| && 0 < k <= 4
    ensures Hexes(s[i..], k) == if i < |s| && IsHex(s[i]) then 1 + Hexes(s[i + 1..], k - 1) else 0
    ensures Hexes(s[i..], 0) == 0
    ensures i < |s| ==> s[i..][0] == s[i] && s[i..][1..] == s[i + 1..] && s[..i] + [s[i]] == s[..i + 1]
  {
    if i < |s| { assert s[i..][1..] == s[i + 1..]; }
  }

  lemma DigitsFrom(s: string, k: nat)
    requires k <= |s|
    ensures Digits(s[k..]) == if k < |s| && IsDigit(s[k]) then 1 + Digits(s[k + 1..]) else 0
  {
    if k < |s| { assert s[k..][1..] == s[k + 1..]; }
  }
}
