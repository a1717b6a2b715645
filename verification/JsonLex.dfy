/** Tokens of src/c7json/lexer.cpp, described on the text that is left to be read. */
module JsonLex {
  import Doubles

  datatype Token =
    | NoToken | SquareL | SquareR | CurlyL | CurlyR | Colon | Comma
    | TrueWord | FalseWord | NullWord
    | Str(str: string) | Int(i64: int) | Real(text: string) | BadToken
    | Endless      // a string without its end, over which the loop of expect_string never returns
    | Thrown       // a number out of range, for which std::stol or std::stod throws

  /** A token and the text behind it.  Nothing is read behind Endless and Thrown. */
  datatype Lexed = Lexed(token: Token, rest: string)

  const I64_MIN := -0x8000_0000_0000_0000
  const I64_MAX := 0x7FFF_FFFF_FFFF_FFFF

  predicate IsSpace(c: char) { c == ' ' || c == '\t' || c == '\n' || c == '\r' }
  predicate IsDigit(c: char) { '0' <= c <= '9' }
  predicate IsHex(c: char) { IsDigit(c) || 'a' <= c <= 'f' || 'A' <= c <= 'F' }

  function SkipSpaces(s: string): (r: string)
    ensures |r| <= |s| && (r != [] ==> !IsSpace(r[0]))
  {
    if s != [] && IsSpace(s[0]) then SkipSpaces(s[1..]) else s
  }

  function Lex(s: string): (r: Lexed)
    ensures |r.rest| <= |s| && (r.token != NoToken ==> |r.rest| < |s|)
  {
    var t := SkipSpaces(s);
    if t == [] then Lexed(NoToken, [])
    else match t[0]
      case '[' => Lexed(SquareL, t[1..])
      case ']' => Lexed(SquareR, t[1..])
      case '{' => Lexed(CurlyL, t[1..])
      case '}' => Lexed(CurlyR, t[1..])
      case ':' => Lexed(Colon, t[1..])
      case ',' => Lexed(Comma, t[1..])
      case 't' => Keyword(t[1..], "rue", TrueWord)
      case 'f' => Keyword(t[1..], "alse", FalseWord)
      case 'n' => Keyword(t[1..], "ull", NullWord)
      case '\"' => StringFrom(t[1..], [])
      case _ =>
        if IsDigit(t[0]) || t[0] == '-' then Number(t) else Lexed(BadToken, t[1..])
  }

  function Keyword(s: string, word: string, token: Token): (r: Lexed)
    ensures |r.rest| <= |s|
    decreases |word|
  {
    if word == [] then Lexed(token, s)
    else if s == [] then Lexed(BadToken, [])
    else if s[0] != word[0] then Lexed(BadToken, s[1..])
    else Keyword(s[1..], word[1..], token)
  }

  // ---- strings ----

  function HexValue(c: char): (v: nat)
    requires IsHex(c)
    ensures v < 16
  {
    if IsDigit(c) then (c - '0') as nat
    else if c <= 'F' then 10 + (c - 'A') as nat else 10 + (c - 'a') as nat
  }

  /** The bytes of a code point of at most 16 bits. */
  function Utf8(u: nat): string
    requires u < 0x10000
  {
    if u < 0x80 then [u as char]
    else if u < 0x800 then [(0xC0 + u / 64) as char, (0x80 + u % 64) as char]
    else [(0xE0 + u / 4096) as char, (0x80 + u / 64 % 64) as char, (0x80 + u % 64) as char]
  }

  /** The character an escape of one letter stands for. */
  function Unescaped(c: char): string {
    match c
    case 'b' => [8 as char]
    case 'f' => [12 as char]
    case 'n' => "\n"
    case 'r' => "\r"
    case 't' => "\t"
    case '\\' => "\\"
    case '\"' => "\""
    case '/' => "/"
    case _ => ""
  }

  /** How many of the next four characters are hexadecimal digits. */
  function Hexes(s: string, k: nat): (n: nat)
    requires k <= 4
    ensures n <= k && n <= |s| && forall i :: 0 <= i < n ==> IsHex(s[i])
    ensures n < k && n < |s| ==> !IsHex(s[n])
  {
    if k == 0 || s == [] || !IsHex(s[0]) then 0 else 1 + Hexes(s[1..], k - 1)
  }

  /** The number four hexadecimal digits stand for. */
  function CodeOf(hex: string): (u: nat)
    requires |hex| == 4 && forall i :: 0 <= i < 4 ==> IsHex(hex[i])
    ensures u < 0x10000
  {
    var a, b, c, d := HexValue(hex[0]), HexValue(hex[1]), HexValue(hex[2]), HexValue(hex[3]);
    4096 * a + 256 * b + 16 * c + d
  }

  /** What is behind the character at i, if there is one. */
  function Behind(s: string, i: nat): (r: string)
    ensures |r| <= |s| && (s != [] && i < |s| ==> |r| < |s|)
  {
    if i < |s| then s[i + 1..] else []
  }

  /** What an escape adds to the string, if it is one, and the text behind it. */
  datatype Escaped = Escaped(good: bool, chars: string, rest: string)

  /** The escape whose backslash is in front of s. */
  function Escape(s: string): (r: Escaped)
    ensures |r.rest| <= |s|
  {
    if s == [] then Escaped(false, "", [])
    else if s[0] != 'u' then Escaped(Unescaped(s[0]) != "", Unescaped(s[0]), s[1..])
    else
      var n := Hexes(s[1..], 4);
      if n < 4 then Escaped(false, "", Behind(s[1..], n)) else Escaped(true, Utf8(CodeOf(s[1..][..4])), s[1..][4..])
  }

  function StringFrom(s: string, eval: string): (r: Lexed)
    ensures |r.rest| <= |s|
    decreases |s|
  {
    if s == [] then Lexed(Endless, [])
    else if s[0] == '\"' then Lexed(Str(eval), s[1..])
    else if s[0] != '\\' then StringFrom(s[1..], eval + [s[0]])
    else
      var e := Escape(s[1..]);
      if e.good then StringFrom(e.rest, eval + e.chars) else Lexed(BadToken, e.rest)
  }

  // ---- numbers ----

  function Digits(s: string): (n: nat)
    ensures n <= |s| && forall i :: 0 <= i < n ==> IsDigit(s[i])
    ensures n < |s| ==> !IsDigit(s[n])
  {
    if s == [] || !IsDigit(s[0]) then 0 else 1 + Digits(s[1..])
  }

  function Number(s: string): (r: Lexed)
    requires s != [] && (IsDigit(s[0]) || s[0] == '-')
    ensures |r.rest| < |s|
  {
    var i := if s[0] == '-' then 1 else 0;
    if i < |s| && s[i] == '0' then Fraction(s, i + 1)
    else if i < |s| && IsDigit(s[i]) then Fraction(s, i + Digits(s[i..]))
    else Lexed(BadToken, Behind(s, i))
  }

  function Fraction(s: string, i: nat): (r: Lexed)
    requires 0 < i <= |s|
    ensures |r.rest| < |s|
  {
    if i < |s| && s[i] == '.' then
      var n := Digits(s[i + 1..]);
      if n == 0 then Lexed(BadToken, Behind(s, i + 1)) else Exponent(s, i + 1 + n, true)
    else Exponent(s, i, false)
  }

  function Exponent(s: string, i: nat, isFloat: bool): (r: Lexed)
    requires 0 < i <= |s|
    ensures |r.rest| < |s|
  {
    if i < |s| && s[i] == 'e' then Power(s, i + 1)
    else if isFloat then Double(s, i)
    else Integer(s, i)
  }

  function Power(s: string, k: nat): (r: Lexed)
    requires 0 < k <= |s|
    ensures |r.rest| < |s|
  {
    var j := if k < |s| && (s[k] == '+' || s[k] == '-') then k + 1 else k;
    var n := Digits(s[j..]);
    if n == 0 then Lexed(BadToken, Behind(s, j)) else Double(s, j + n)
  }

  function Integer(s: string, i: nat): (r: Lexed)
    requires 0 < i <= |s|
    ensures |r.rest| < |s|
  {
    var v := IntValue(s[..i]);
    if I64_MIN <= v <= I64_MAX then Lexed(Int(v), s[i..]) else Lexed(Thrown, [])
  }

  function Double(s: string, i: nat): (r: Lexed)
    requires 0 < i <= |s|
    ensures |r.rest| < |s|
  {
    if InDoubleRange(s[..i]) then Lexed(Real(s[..i]), s[i..]) else Lexed(Thrown, [])
  }

  /** What is in front of the first c of s, and what is behind it. */
  function Before(s: string, c: char): string {
    if s == [] || s[0] == c then [] else [s[0]] + Before(s[1..], c)
  }

  function After(s: string, c: char): string {
    if s == [] then [] else if s[0] == c then s[1..] else After(s[1..], c)
  }

  /** std::stod gives a value for the text of a number, the digits of which are read as an integer
      and scaled by the exponent. */
  predicate InDoubleRange(text: string) {
    var base, frac := Before(text, 'e'), After(Before(text, 'e'), '.');
    Doubles.InRange(NatValue(Before(base, '.') + frac), IntValue(After(text, 'e')) - |frac|)
  }

  /** The value of a text in which only the digits and a minus sign in front count. */
  function IntValue(s: string): int {
    if s != [] && s[0] == '-' then -(NatValue(s[1..]) as int) else NatValue(s)
  }

  function NatValue(s: string): nat {
    if s == [] then 0
    else 10 * NatValue(s[..|s| - 1]) + (if IsDigit(s[|s| - 1]) then (s[|s| - 1] - '0') as nat else 0)
  }
}
